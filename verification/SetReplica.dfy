/** What Set requests mean for replicas: they raise no events, so only what they leave alone is safe. */
module SetReplica {
  import opened DataTree
  import SetModel
  import SetProofs
  import opened TelemetryModel
  import opened Replica

  /** A replica is right after a Set or Load if and only if the transaction leaves the part that
      is shown alone. */
  lemma SetTracksExactly(sub: Subscription, base: Tree, s: Sys, env: SetModel.Env, st: SetModel.State, tx: SetModel.Tx)
    requires sub.paths != [] && Reliable(sub) && Tracking(sub, base, s) && st.root == s.root
    requires WellFormed(SetModel.Transact(env, st, tx).0.root)
    ensures var after := SetModel.Transact(env, st, tx).0.root;
      Tracking(sub, base, Next(sub, s, Commit(after))) <==> Show(sub, after) == Show(sub, s.root)
  {
    hide Reliable, SetModel.Transact;
    StepTracksExactly(sub, base, s, Commit(SetModel.Transact(env, st, tx).0.root));
  }

  /** A safe request that reverts, because it failed or because the system itself writes the
      accepted data, goes unnoticed by every replica, and rightly so, if the tree takes back what
      had changed. */
  lemma RevertedSetKeepsTracking(sub: Subscription, base: Tree, s: Sys,
                                 env: SetModel.Env, st: SetModel.State, ops: seq<SetModel.SetOp>)
    requires sub.paths != [] && Reliable(sub) && Tracking(sub, base, s)
    requires SetModel.ValidEnv(env) && st.root == s.root
    requires SetProofs.SafeRequest(st.root, ops) && SetProofs.Reverts(env, st, SetModel.SetTx(ops))
    ensures SetProofs.TakesBack(env, st, SetModel.SetTx(ops)) ==>
              Tracking(sub, base, Next(sub, s, Commit(SetModel.Transact(env, st, SetModel.SetTx(ops)).0.root)))
  {
    hide Reliable, SetModel.Transact;
    SetProofs.SetIsAtomic(env, st, ops);
    if SetProofs.TakesBack(env, st, SetModel.SetTx(ops)) {
      SetTracksExactly(sub, base, s, env, st, SetModel.SetTx(ops));
    }
  }
}
