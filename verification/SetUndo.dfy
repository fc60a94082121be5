/** When the rollback pass undoes a failed request in a subsystem that mirrors the tree: the exact
    condition on the paths of the request, and the server on which it never runs. */
module SetUndo {
  import opened DataTree
  import opened SetLog
  import opened SetModel
  import opened SetProofs
  import opened SetOutcome
  import opened SetRequests

  /** What a subsystem that mirrored the tree before the transaction holds after it. */
  function StoreAfter(env: Env, st: State, tx: Tx): Tree {
    var calls := Transact(env, st, tx).0.calls;
    Stored(st.root, if |st.calls| <= |calls| then calls[|st.calls|..] else [])
  }

  /** Every failed request with these paths, on every server with callbacks and transactions and
      every tree with the parents of the paths, leaves such a subsystem where it was. */
  ghost predicate AlwaysUndone(ps: seq<Path>, onlyReplaces: bool) {
    forall env: Env, st: State, ops: seq<SetOp> {:trigger Transact(env, st, SetTx(ops))} ::
      && ValidEnv(env) && WellFormed(st.root) && env.hasTransaction && env.hasCallback
      && OperationsAt(ops, ps) && (onlyReplaces ==> OnlyReplaces(ops))
      && HasParents(st.root, ops) && Transact(env, st, SetTx(ops)).1.Some?
      ==> StoreAfter(env, st, SetTx(ops)) == st.root
  }

  /** The store after a failed transaction has seen the callbacks of its log, and their inverses. */
  lemma FailedStore(env: Env, st: State, tx: Tx)
    requires ValidEnv(env) && env.hasTransaction && env.hasCallback && Transact(env, st, tx).1.Some?
    ensures StoreAfter(env, st, tx) ==
            Stored(Stored(st.root, Forwards(TxLog(env, st, tx))), Swapped(TxLog(env, st, tx)))
  {
    hide Transact, Bracket, TxLog, Stored;
    TransactCalls(env, st, tx);
    StoredBracket(env, st.root, NextSeq(st.seqNo), TxLog(env, st, tx));
    var calls := Transact(env, st, tx).0.calls;
    assert calls[|st.calls|..] == Bracket(env, NextSeq(st.seqNo), TxLog(env, st, tx), true);
  }

  lemma IndependentIsUndone(ps: seq<Path>, onlyReplaces: bool)
    requires AllIndependent(ps)
    ensures AlwaysUndone(ps, onlyReplaces)
  {
    forall env: Env, st: State, ops: seq<SetOp> |
        && ValidEnv(env) && WellFormed(st.root) && env.hasTransaction && env.hasCallback
        && OperationsAt(ops, ps) && HasParents(st.root, ops) && Transact(env, st, SetTx(ops)).1.Some?
      ensures StoreAfter(env, st, SetTx(ops)) == st.root
    {
      SafeAt(st.root, ops, ps);
      SubsystemIsUndone(env, st, ops);
    }
  }

  /** Two overlapping paths: the rollback pass, forwards as it runs, leaves a node behind. */
  lemma OverlapNotUndone(ps: seq<Path>, i: nat, j: nat, onlyReplaces: bool)
    requires i < j < |ps| && !Independent(ps[i], ps[j])
    ensures !AlwaysUndone(ps, onlyReplaces)
  {
    hide OneChange, Replacements, Transact, Body, Restore, WellFormed, Put, Subtree, Stored, Final;
    var t, u, z := OverlapWitness(ps, i, j);
    var env, st, ops := TwoTreeEnv(t, u), State(t, 0, [], []), Replacements(ps, i);
    TwoTreeEnvValid(t, u);
    ReplacementsAt(ps, i);
    AllPresent(t, ps, ops);
    ReplacementsBody(t, u, ps, i);
    EndFails(t, u, st, SetTx(ops));
    FailedStore(env, st, SetTx(ops));
    var log := OneChange(t, u, ps, i);
    OneChangeWhole(env.newRoot, t, u, ps, i);
    OneChangeWrites(t, u, ps, i);
    StoredForwards(env.newRoot, t, log);
    StoredSwapped(u, log);
    OverlapKeeps(t, u, ps, i, j, z);
    assert StoreAfter(env, st, SetTx(ops)) != st.root;
  }

  lemma EndFails(t: Tree, u: Tree, st: State, tx: Tx)
    ensures Transact(TwoTreeEnv(t, u), st, tx).1.Some?
  {
  }

  lemma OneChangeWrites(t: Tree, u: Tree, ps: seq<Path>, i: nat)
    requires forall m | 0 <= m < |ps| :: ps[m] in t && ps[m] in u
    ensures forall m | 0 <= m < |OneChange(t, u, ps, i)| :: OneChange(t, u, ps, i)[m].written.Some?
  {
  }

  /** Exact condition for the rollback pass: whatever its values, the tree and the failure are, a
      failed request is undone in the subsystem if and only if no path of it is, or is an
      ancestor of, another. */
  lemma UndoneExactly(ps: seq<Path>, onlyReplaces: bool)
    ensures AlwaysUndone(ps, onlyReplaces) <==> AllIndependent(ps)
  {
    if AllIndependent(ps) {
      IndependentIsUndone(ps, onlyReplaces);
    } else {
      var i, j :| 0 <= i < j < |ps| && !Independent(ps[i], ps[j]);
      OverlapNotUndone(ps, i, j, onlyReplaces);
    }
  }

  // ----- Callbacks without transactions -------------------------------------------------

  /** Without a SetTransaction the rollback pass makes no callback: the subsystem keeps what the
      operations wrote before the failure, while the tree goes back.  Unless the root was deleted,
      that is the tree before the failure, so it is where it was if and only if the operations
      had changed nothing. */
  lemma NoTransactionExactly(env: Env, st: State, ops: seq<SetOp>)
    requires ValidEnv(env) && !env.hasTransaction && env.hasCallback
    ensures var body := Body(env, st, SetTx(ops)).0;
      && StoreAfter(env, st, SetTx(ops)) == Stored(st.root, Forwards(body.log))
      && ((forall e | e in body.log :: e.path != [] || e.written.Some?) ==>
            && StoreAfter(env, st, SetTx(ops)) == body.root
            && (StoreAfter(env, st, SetTx(ops)) == st.root <==> body.root == st.root))
  {
    hide Transact, Bracket, Stored, Body, Start, Final, Consistent;
    var log := TxLog(env, st, SetTx(ops));
    BodyTracks(env, st, ops);
    TransactCalls(env, st, SetTx(ops));
    EditsOnly(env, NextSeq(st.seqNo), log, Transact(env, st, SetTx(ops)).1.Some?);
    assert Transact(env, st, SetTx(ops)).0.calls[|st.calls|..] == Forwards(log);
    if forall e | e in log :: e.path != [] || e.written.Some? {
      StoredForwards(env.newRoot, st.root, log);
    }
  }

  lemma EditsOnly(env: Env, id: nat, log: Log, failed: bool)
    requires !env.hasTransaction && env.hasCallback
    ensures Bracket(env, id, log, failed) == Forwards(log)
  {
  }

  /** The two-tree server without transactions, whose callback refuses everything. */
  ghost function CallbackEnv(t: Tree, u: Tree): Env {
    TwoTreeEnv(t, u).(hasTransaction := false, fails := (calls: seq<Call>) => calls != [])
  }

  /** A single replacement that its callback refuses: the tree is `t` again, the subsystem has `u`. */
  lemma NoTransactionSplits(t: Tree, u: Tree, p: Path)
    requires WellFormed(t) && p in t && p in u && Put(t, p, Subtree(u, p)) == u
    ensures var env, st, tx := CallbackEnv(t, u), State(t, 0, [], []), SetTx([Replace(Exactly(p), "new")]);
      && ValidEnv(env) && Transact(env, st, tx).1.Some?
      && Transact(env, st, tx).0.root == t && StoreAfter(env, st, tx) == u
  {
    hide Put, Subtree, WellFormed, Perform, Restore, RestorePass, Stored, Transact, TwoTreeEnv;
    var env, st, op := CallbackEnv(t, u), State(t, 0, [], []), Replace(Exactly(p), "new");
    CallbackBody(t, u, p);
    ExactlyIsConcrete(p);
    AloneIsSafe(t, op);
    CallbackReverts(t, u, st, SetTx([op]));
    SetIsAtomic(env, st, [op]);
    NoTransactionExactly(env, st, [op]);
  }

  lemma CallbackReverts(t: Tree, u: Tree, st: State, tx: Tx)
    requires Body(CallbackEnv(t, u), st, tx).1.Some?
    ensures Transact(CallbackEnv(t, u), st, tx).1.Some?
    ensures Reverts(CallbackEnv(t, u), st, tx) && TakesBack(CallbackEnv(t, u), st, tx)
  {
    NeverRefused(CallbackEnv(t, u), st, tx);
  }

  lemma CallbackBody(t: Tree, u: Tree, p: Path)
    requires p in t && p in u && Put(t, p, Subtree(u, p)) == u
    ensures var (body, err, _) := Body(CallbackEnv(t, u), State(t, 0, [], []), SetTx([Replace(Exactly(p), "new")]));
      && ValidEnv(CallbackEnv(t, u)) && CallbackEnv(t, u).hasCallback
      && body.root == u && err.Some? && forall e | e in body.log :: e.path != [] || e.written.Some?
  {
    hide Put, Subtree, Perform;
    var env, st, op := CallbackEnv(t, u), State(t, 0, [], []), Replace(Exactly(p), "new");
    TwoTreeEnvValid(t, u);
    ExactlyIsConcrete(p);
    SubtreeThere(u, p);
    SubtreeAt(u, p, p);
    if p == [] {
      PutRoot(t, Subtree(u, p).value);
    }
    var (s, e) := Start(env, st, false);
    PerformAtNode(env, s, op);
    var (next, err) := Perform(env, s, op);
    assert [op][1..] == [];
    assert PerformAll(env, next, err, []) == (next, err, []);
  }
}
