/** When a transaction fails and with which error, in terms of what the server is configured with
    and what the subsystem and the tree answer. */
module SetErrors {
  import opened DataTree
  import opened SetLog
  import opened SetModel
  import opened SetProofs
  import opened SetOutcome

  // ----- The start ----------------------------------------------------------------------

  /** A refused start stops everything: the request fails with the error of the subsystem, every
      operation is aborted, nothing but the brackets is called, and the tree is not touched. */
  lemma RefusedStart(env: Env, st: State, tx: Tx)
    requires StartRefused(env, st)
    ensures var (last, err, rs) := Transact(env, st, tx);
      var id := (st.seqNo + 1) % UINT_SIZE;
      && err == Some(SubsystemError)
      && last.root == st.root
      && last.calls == st.calls + [SetStart(id, false), SetEnd(id), SetStart(id, true), SetEnd(id)]
      && (tx.SetTx? ==> |rs| == |tx.ops| && forall i | 0 <= i < |rs| :: rs[i] == OpResult(tx.ops[i], Aborted))
  {
    hide Perform, StartRefused;
    StartsExactly(env, st);
    var (s, e) := Start(env, st, false);
    if tx.SetTx? {
      NothingPerformed(env, s, e, tx.ops);
      PerformAllResults(env, s, e, tx.ops);
    }
    RefusedCalls(env, st);
    RefusedClose(env, st, s);
  }

  lemma {:induction false} NothingPerformed(env: Env, st: State, err: Option<Error>, ops: seq<SetOp>)
    requires err.Some?
    ensures PerformAll(env, st, err, ops).0 == st && PerformAll(env, st, err, ops).1 == err
    decreases |ops|
  {
    if ops != [] {
      NothingPerformed(env, st, err, ops[1..]);
    }
  }

  lemma RefusedCalls(env: Env, st: State)
    requires StartRefused(env, st)
    ensures var s := Start(env, st, false).0;
      && env.hasTransaction && s.root == st.root && s.log == [] && s.seqNo == (st.seqNo + 1) % UINT_SIZE
      && s.calls == st.calls + [SetStart(s.seqNo, false)]
  {
  }

  lemma RefusedClose(env: Env, st: State, s: State)
    requires env.hasTransaction && s.root == st.root && s.log == []
    requires s.calls == st.calls + [SetStart(s.seqNo, false)]
    ensures var (last, err) := Close(env, s, Some(SubsystemError));
      && err == Some(SubsystemError) && last.root == st.root
      && last.calls == st.calls + [SetStart(s.seqNo, false), SetEnd(s.seqNo), SetStart(s.seqNo, true), SetEnd(s.seqNo)]
  {
  }

  /** The first call of a transaction decides: of a request with operations all are aborted if and
      only if the subsystem refused to start. */
  lemma AbortedExactly(env: Env, st: State, ops: seq<SetOp>)
    requires ops != []
    ensures (forall r | r in Transact(env, st, SetTx(ops)).2 :: r.outcome == Aborted) <==>
            env.hasTransaction && env.fails(st.calls + [SetStart((st.seqNo + 1) % UINT_SIZE, false)])
  {
    hide Transact;
    SetResults(env, st, ops);
    var rs := Transact(env, st, SetTx(ops)).2;
    assert forall i | 0 <= i < |rs| :: rs[i] in rs;
  }

  // ----- The end ------------------------------------------------------------------------

  /** The calls of a transaction up to its SetEnd, when that is refused. */
  predicate EndRefusedBy(env: Env, st: State, log: Log) {
    var id := (st.seqNo + 1) % UINT_SIZE;
    var edits := if env.hasCallback then Forwards(log) else [];
    env.hasTransaction && env.fails(st.calls + [SetStart(id, false)] + edits + [SetEnd(id)])
  }

  /** The error of a transaction: that of its first refusal.  The end can only fail what has
      succeeded so far. */
  lemma ErrorExactly(env: Env, st: State, tx: Tx)
    requires ValidEnv(env)
    ensures Transact(env, st, tx).1 ==
            if StartRefused(env, st) then Some(SubsystemError)
            else if Body(env, st, tx).1.Some? then Body(env, st, tx).1
            else if EndRefusedBy(env, st, TxLog(env, st, tx)) then Some(SubsystemError)
            else None
  {
    hide Perform, PerformAll, Forwards, StartRefused;
    if StartRefused(env, st) {
      RefusedStart(env, st, tx);
    } else {
      match tx {
        case SetTx(ops) => SetBodyCalls(env, st, ops);
        case LoadTx(parsed) => LoadBodyCalls(env, st, parsed);
      }
      StartCalls(env, st);
      EndExactly(env, Body(env, st, tx).0, Body(env, st, tx).1);
    }
  }

  lemma StartCalls(env: Env, st: State)
    ensures Start(env, st, false).0.calls ==
            st.calls + if env.hasTransaction then [SetStart((st.seqNo + 1) % UINT_SIZE, false)] else []
  {
  }

  lemma EndExactly(env: Env, st: State, err: Option<Error>)
    ensures End(env, st, err).1 ==
            if err.Some? then err
            else if env.hasTransaction && env.fails(st.calls + [SetEnd(st.seqNo)]) then Some(SubsystemError)
            else None
    ensures Close(env, st, err).1 == End(env, st, err).1
  {
  }

  /** A request fails exactly with the error of its failed operation, if one failed. */
  lemma FailedResult(env: Env, st: State, ops: seq<SetOp>)
    requires ValidEnv(env) && !StartRefused(env, st)
    ensures var (_, err, rs) := Transact(env, st, SetTx(ops));
      forall i, e | 0 <= i < |rs| && rs[i].outcome == Failed(e) :: err == Some(e)
  {
    hide StartRefused, Transact, Body;
    SetResults(env, st, ops);
    ErrorExactly(env, st, SetTx(ops));
    var n: nat :| Stopped(Transact(env, st, SetTx(ops)).2, n, Body(env, st, SetTx(ops)).1);
  }

  // ----- One operation ------------------------------------------------------------------

  /** The request path exists, and what the operation works on may be written. */
  ghost predicate Allowed(env: Env, t: Tree, op: SetOp) {
    && env.validPath(op.pat)
    && match op
       case Delete(pat) => forall p | p in t && Matches(pat, p) :: !env.readOnlyNode(p)
       case Replace(pat, _) => !env.readOnlyPath(pat)
       case Update(pat, _) => !env.readOnlyPath(pat)
  }

  /** The value can be built for every node the operation works on. */
  ghost predicate Buildable(env: Env, t: Tree, op: SetOp) {
    match op
    case Delete(_) => true
    case Replace(_, val) => forall p | p in Concerned(t, op) :: env.build(p, val).Some?
    case Update(_, val) => forall p | p in Concerned(t, op) :: env.build(p, val).Some?
  }

  /** Wildcards without a match name nothing that could be created. */
  ghost predicate Named(t: Tree, op: SetOp) {
    op.Delete? || IsConcrete(op.pat) || exists p :: p in t && Matches(op.pat, p)
  }

  /** A tree and a subsystem that refuse nothing. */
  ghost predicate Cooperative(env: Env) {
    (forall t, p :: !env.treeFails(t, p)) && forall calls :: !env.fails(calls)
  }

  lemma TargetsAre(env: Env, t: Tree, op: SetOp)
    requires ValidEnv(env)
    ensures Targets(env, t, op).None? <==> !Named(t, op)
    ensures Targets(env, t, op).Some? ==> Lists(Targets(env, t, op).value, Concerned(t, op))
  {
    var found := Find(t, op.pat);
    assert Lists(env.order(found), found);
    assert forall p :: p in found <==> p in t && Matches(op.pat, p);
    if found == {} {
      EmptyList(env.order(found), found);
    } else {
      var p :| p in found;
      assert p in env.order(found);
    }
  }

  predicate MayWrite(env: Env, op: SetOp, p: Path) {
    if op.Delete? then !env.readOnlyNode(p) else !env.readOnlyPath(op.pat)
  }

  predicate CanBuild(env: Env, op: SetOp, p: Path) {
    !op.Delete? ==> env.build(p, op.val).Some?
  }

  lemma EditNodeErrors(env: Env, st: State, op: SetOp, p: Path)
    ensures EditNode(env, st, op, p).1.None? ==> MayWrite(env, op, p) && CanBuild(env, op, p)
    ensures Cooperative(env) ==>
              EditNode(env, st, op, p).1 ==
              if !MayWrite(env, op, p) then Some(InvalidPath)
              else if !CanBuild(env, op, p) then Some(BadData)
              else None
  {
  }

  /** The error of the node that stopped the loop. */
  predicate StoppedBy(env: Env, op: SetOp, p: Path, err: Option<Error>) {
    if !MayWrite(env, op, p) then err == Some(InvalidPath) else !CanBuild(env, op, p) && err == Some(BadData)
  }

  lemma {:induction false} EditNodesErrors(env: Env, st: State, op: SetOp, ps: seq<Path>)
    ensures EditNodes(env, st, op, ps).1.None? ==> forall p | p in ps :: MayWrite(env, op, p) && CanBuild(env, op, p)
    ensures Cooperative(env) && EditNodes(env, st, op, ps).1.Some? ==>
              exists p | p in ps :: StoppedBy(env, op, p, EditNodes(env, st, op, ps).1)
    decreases |ps|
  {
    hide EditNode, Cooperative, MayWrite, CanBuild;
    if ps != [] {
      EditNodeErrors(env, st, op, ps[0]);
      var (next, err) := EditNode(env, st, op, ps[0]);
      if err.None? {
        EditNodesErrors(env, next, op, ps[1..]);
        assert forall p | p in ps[1..] :: p in ps;
      } else {
        assert ps[0] in ps;
      }
    }
  }

  /** What the client has done wrong, and the error that says so.  Whatever the tree and the
      subsystem answer, no such operation is accepted. */
  lemma WrongIsRefused(env: Env, st: State, op: SetOp)
    requires ValidEnv(env)
    requires !Allowed(env, st.root, op) || !Named(st.root, op) || !Buildable(env, st.root, op)
    ensures Perform(env, st, op).1.Some?
  {
    hide EditNodes;
    TargetsAre(env, st.root, op);
    if env.validPath(op.pat) && Targets(env, st.root, op).Some? {
      var ps := Targets(env, st.root, op).value;
      EditNodesErrors(env, st, op, ps);
      SomeTarget(env, st.root, op, ps);
    }
  }

  lemma SomeTarget(env: Env, t: Tree, op: SetOp, ps: seq<Path>)
    requires Lists(ps, Concerned(t, op)) && Named(t, op)
    ensures !op.Delete? ==> ps != [] && ps[0] in ps
    ensures op.Delete? ==> forall p :: p in ps <==> p in t && Matches(op.pat, p)
  {
    if !op.Delete? {
      if p :| p in t && Matches(op.pat, p) {
        assert p in Find(t, op.pat);
        assert p in ps;
      } else {
        assert Find(t, op.pat) == {};
        assert PathOf(op.pat) in ps;
      }
    }
  }

  /** Exact condition and errors of an operation when nobody else refuses anything. */
  lemma OperationExactly(env: Env, st: State, op: SetOp)
    requires ValidEnv(env) && Cooperative(env)
    ensures Perform(env, st, op).1 ==
            if !Allowed(env, st.root, op) then Some(InvalidPath)
            else if !Named(st.root, op) then Some(OperationFail)
            else if !Buildable(env, st.root, op) then Some(BadData)
            else None
  {
    hide EditNodes, Cooperative;
    TargetsAre(env, st.root, op);
    if env.validPath(op.pat) && Targets(env, st.root, op).Some? {
      var ps := Targets(env, st.root, op).value;
      EditNodesErrors(env, st, op, ps);
      SomeTarget(env, st.root, op, ps);
    }
  }

  /** A refusal by the tree leaves tree and log alone; one by the subsystem comes after the edit,
      which then is in the log. */
  lemma RefusalExactly(env: Env, st: State, op: SetOp)
    requires ValidEnv(env) && IsConcrete(op.pat) && PathOf(op.pat) in st.root && op.pat != []
    requires Allowed(env, st.root, op) && Buildable(env, st.root, op)
    ensures var p := PathOf(op.pat);
      var (next, err) := Perform(env, st, op);
      if env.treeFails(st.root, p) then
        next == st && err == Some(if op.Delete? then BadData else OperationFail)
      else
        && |next.log| == |st.log| + 1 && next.log[|st.log|].path == p
        && var e := next.log[|st.log|];
           var called := st.calls + [SetCallback(if op.Delete? then DELETE else REPLACE, p, e.saved, e.written)];
           && next.calls == (if env.hasCallback then called else st.calls)
           && err == if env.hasCallback && env.fails(called) then Some(OperationFail) else None
  {
    FoundAtMost(st.root, op.pat);
    PathOfMatches(op.pat);
    hide Perform;
    PerformAtNode(env, st, op);
    assert PathOf(op.pat) in Concerned(st.root, op);
  }

  // ----- Loading ------------------------------------------------------------------------

  lemma LoadBody(env: Env, st: State, tree: Option<Tree>)
    requires !StartRefused(env, st)
    ensures var (body, err, _) := Body(env, st, LoadTx(tree));
      var begun := st.calls + if env.hasTransaction then [SetStart((st.seqNo + 1) % UINT_SIZE, false)] else [];
      var refused := env.hasCallback && env.fails(begun + [SetCallback(INVALID, [], Some(st.root), tree)]);
      && (tree.None? ==> err.Some?)
      && (tree.Some? ==>
            && (err.Some? <==> refused)
            && body.log == [SetEntry(INVALID, [], Some(st.root), tree, env.hasCallback)])
      && (err.None? ==> body.root == tree.value)
  {
    hide StartRefused;
    StartsExactly(env, st);
    StartCalls(env, st);
  }

  /** What a Load has called when it comes to its end. */
  function LoadCalls(env: Env, st: State, tree: Option<Tree>): seq<Call> {
    st.calls
    + (if env.hasTransaction then [SetStart((st.seqNo + 1) % UINT_SIZE, false)] else [])
    + (if env.hasCallback then [SetCallback(INVALID, [], Some(st.root), tree)] else [])
  }

  /** Exact condition for loading startup data, and what it leaves: the tree the data stand for. */
  lemma LoadExactly(env: Env, st: State, encoding: int, parsed: Option<Tree>)
    requires ValidEnv(env)
    ensures var tree := match encoding
                        case 0 => parsed
                        case 4 => parsed
                        case 5 => None
                        case _ => Some(env.newRoot);
      var (last, err, _) := Transact(env, st, LoadTx(Startup(env, encoding, parsed)));
      && (err.None? <==>
            && tree.Some?
            && !StartRefused(env, st)
            && !(env.hasCallback && env.fails(LoadCalls(env, st, tree)))
            && !(env.hasTransaction && env.fails(LoadCalls(env, st, tree) + [SetEnd((st.seqNo + 1) % UINT_SIZE)])))
      && (err.None? && env.updatedByServer ==> last.root == tree.value)
  {
    hide RestorePass, StartRefused, Transact, Body, Forwards;
    var tree := Startup(env, encoding, parsed);
    ErrorExactly(env, st, LoadTx(tree));
    TransactRestores(env, st, LoadTx(tree));
    if !StartRefused(env, st) {
      LoadBody(env, st, tree);
      ForwardsSingle(SetEntry(INVALID, [], Some(st.root), tree, env.hasCallback));
      if !env.hasCallback {
        assert LoadCalls(env, st, tree) ==
               st.calls + if env.hasTransaction then [SetStart((st.seqNo + 1) % UINT_SIZE, false)] else [];
      }
    }
  }
}
