/** The Set transaction as a function of the server state: one request from SetStart to
    the restore pass.  `SetServer.dfy` proves the methods of the server equal to it. */
module SetModel {
  import opened DataTree
  import opened SetLog

  /** The calls made into the subsystem, in order. */
  datatype Call =
    | SetStart(id: nat, rollback: bool)
    | SetCallback(op: Operation, path: Path, cur: Option<Tree>, want: Option<Tree>)
    | SetEnd(id: nat)

  datatype Error = InvalidPath | BadData | OperationFail | SubsystemError

  datatype SetOp =
    | Delete(pat: Pattern)
    | Replace(pat: Pattern, val: string)
    | Update(pat: Pattern, val: string)

  /** The configuration of the server, and the outside world as functions of what it can see.
      `fails` gives the outcome of the last call of a history, so a subsystem may refuse any
      call for any reason. */
  datatype Env = Env(
    hasTransaction: bool,                       // a SetTransaction is configured
    hasCallback: bool,                          // a SetCallback is configured
    updatedByServer: bool,                      // SetUpdatedByServer
    newRoot: Tree,                              // a fresh root, as the schema creates it
    validPath: Pattern -> bool,                 // the request path exists in the schema
    readOnlyPath: Pattern -> bool,              // the schema of the request path is read-only
    readOnlyNode: Path -> bool,                 // the schema of a data node is read-only
    build: (Path, string) -> Option<Tree>,      // the node a typed value encodes
    treeFails: (Tree, Path) -> bool,            // the tree library refuses the edit
    order: set<Path> -> seq<Path>,              // the order in which found nodes are listed
    fails: seq<Call> -> bool)

  /** What is assumed of the tree library. */
  ghost predicate ValidEnv(env: Env) {
    && WellFormed(env.newRoot)
    && (forall s :: Lists(env.order(s), s))
    && (forall p, v :: env.build(p, v).Some? ==> NodeAt(p, env.build(p, v).value))
  }

  datatype State = State(root: Tree, seqNo: nat, log: Log, calls: seq<Call>)

  /** Transaction numbers are a Go uint. */
  const UINT_SIZE: nat := 0x1_0000_0000_0000_0000

  function NextSeq(n: nat): nat {
    (n + 1) % UINT_SIZE
  }

  // ----- Transaction brackets ---------------------------------------------------------

  function Invoke(st: State, c: Call): State {
    st.(calls := st.calls + [c])
  }

  function Start(env: Env, st: State, rollback: bool): (State, Option<Error>) {
    var begun := if rollback then st else st.(seqNo := NextSeq(st.seqNo), log := []);
    if !env.hasTransaction then (begun, None)
    else
      var called := Invoke(begun, SetStart(begun.seqNo, rollback));
      (called, if env.fails(called.calls) then Some(SubsystemError) else None)
  }

  /** An earlier error wins over the one SetEnd reports. */
  function End(env: Env, st: State, err: Option<Error>): (State, Option<Error>) {
    if !env.hasTransaction then (st, err)
    else
      var called := Invoke(st, SetEnd(st.seqNo));
      (called, if err.Some? then err else if env.fails(called.calls) then Some(SubsystemError) else None)
  }

  /** Logs an edit and tells the subsystem about it. */
  function LogEdit(env: Env, st: State, e: SetEntry): (State, Option<Error>) {
    var logged := st.(log := st.log + [e.(executed := env.hasCallback)]);
    if !env.hasCallback then (logged, None)
    else
      var called := Invoke(logged, SetCallback(e.op, e.path, e.saved, e.written));
      (called, if env.fails(called.calls) then Some(OperationFail) else None)
  }

  // ----- Operations -------------------------------------------------------------------

  /** One operation at one node. */
  function EditNode(env: Env, st: State, op: SetOp, p: Path): (State, Option<Error>) {
    match op
    case Delete(_) =>
      if env.readOnlyNode(p) then (st, Some(InvalidPath))
      else if p != [] && env.treeFails(st.root, p) then (st, Some(BadData))
      else
        var root := if p == [] then env.newRoot else Prune(st.root, p);
        LogEdit(env, st.(root := root), SetEntry(DELETE, p, Subtree(st.root, p), None, false))
    case Replace(pat, val) =>
      if env.readOnlyPath(pat) then (st, Some(InvalidPath))
      else
        var node := env.build(p, val);
        if node.None? then (st, Some(BadData))
        else if p != [] && env.treeFails(st.root, p) then (st, Some(OperationFail))
        else
          var root := if p == [] then node.value else Put(st.root, p, node);
          LogEdit(env, st.(root := root), SetEntry(REPLACE, p, Subtree(st.root, p), node, false))
    case Update(pat, val) =>
      if env.readOnlyPath(pat) then (st, Some(InvalidPath))
      else
        var node := env.build(p, val);
        if node.None? then (st, Some(BadData))
        else if env.treeFails(st.root, p) then (st, Some(OperationFail))
        else
          var root := Graft(st.root, p, node.value);
          LogEdit(env, st.(root := root), SetEntry(REPLACE, p, Subtree(st.root, p), Subtree(root, p), false))
  }

  /** One operation at each listed node, up to the first error. */
  function EditNodes(env: Env, st: State, op: SetOp, ps: seq<Path>): (State, Option<Error>)
    decreases |ps|
  {
    if ps == [] then (st, None)
    else
      var (next, err) := EditNode(env, st, op, ps[0]);
      if err.Some? then (next, err) else EditNodes(env, next, op, ps[1..])
  }

  /** The nodes an operation works on.  Deleting nothing is accepted; replacing or updating
      nothing creates the node, which only a path without wildcards names. */
  function Targets(env: Env, t: Tree, op: SetOp): Option<seq<Path>> {
    var found := env.order(Find(t, op.pat));
    if op.Delete? || |found| > 0 then Some(found)
    else if IsConcrete(op.pat) then Some([PathOf(op.pat)])
    else None
  }

  function Perform(env: Env, st: State, op: SetOp): (State, Option<Error>) {
    if !env.validPath(op.pat) then (st, Some(InvalidPath))
    else
      var ps := Targets(env, st.root, op);
      if ps.None? then (st, Some(if env.readOnlyPath(op.pat) then InvalidPath else OperationFail))
      else EditNodes(env, st, op, ps.value)
  }

  // ----- Requests ---------------------------------------------------------------------

  datatype Outcome = Done | Failed(error: Error) | Aborted

  datatype OpResult = OpResult(op: SetOp, outcome: Outcome)

  /** All operations of a request; after an error the rest is aborted. */
  function PerformAll(env: Env, st: State, err: Option<Error>, ops: seq<SetOp>)
    : (State, Option<Error>, seq<OpResult>)
    decreases |ops|
  {
    if ops == [] then (st, err, [])
    else if err.Some? then
      var (last, e, rs) := PerformAll(env, st, err, ops[1..]);
      (last, e, [OpResult(ops[0], Aborted)] + rs)
    else
      var (next, e0) := Perform(env, st, ops[0]);
      var (last, e, rs) := PerformAll(env, next, e0, ops[1..]);
      (last, e, [OpResult(ops[0], if e0.Some? then Failed(e0.value) else Done)] + rs)
  }

  const ENCODING_JSON := 0
  const ENCODING_JSON_IETF := 4
  const ENCODING_YAML := 5

  /** The tree that startup data stand for; `parsed` is what reading them as JSON gives.  An
      encoding the server does not know leaves a fresh root. */
  function Startup(env: Env, encoding: int, parsed: Option<Tree>): Option<Tree> {
    if encoding == ENCODING_JSON || encoding == ENCODING_JSON_IETF then parsed
    else if encoding == ENCODING_YAML then None
    else Some(env.newRoot)
  }

  /** Loading a startup tree: it replaces the root only after the subsystem accepted it. */
  function PerformLoad(env: Env, st: State, parsed: Option<Tree>): (State, Option<Error>) {
    if parsed.None? then (st, Some(OperationFail))
    else
      var (next, err) := LogEdit(env, st, SetEntry(INVALID, [], Some(st.root), parsed, false));
      if err.Some? then (next, err) else (next.(root := parsed.value), None)
  }

  /** The callbacks of the rollback pass: forward over the log, old and new value swapped. */
  function Inverses(log: Log): seq<Call> {
    if log == [] then []
    else
      var e := log[|log| - 1];
      Inverses(log[..|log| - 1]) + if e.executed then [SetCallback(e.op, e.path, e.written, e.saved)] else []
  }

  function Rollback(env: Env, st: State): State {
    if env.hasTransaction && env.hasCallback then st.(calls := st.calls + Inverses(st.log)) else st
  }

  function Undo(env: Env, st: State): State {
    End(env, Rollback(env, Start(env, st, true).0), None).0
  }

  /** The end of the transaction: the tree is put back after an error, or when the subsystem
      is to write the accepted data itself.  What the tree refuses to take back is passed over. */
  function Finish(env: Env, st: State, err: Option<Error>): State {
    var reverts := !env.updatedByServer || err.Some?;
    st.(root := if reverts then RestorePass(env.treeFails, st.root, st.log) else st.root, log := [])
  }

  function Close(env: Env, st: State, err: Option<Error>): (State, Option<Error>) {
    var (ended, e) := End(env, st, err);
    (Finish(env, if e.Some? then Undo(env, ended) else ended, e), e)
  }

  /** One transaction: a Set request or the loading of a startup tree. */
  datatype Tx = SetTx(ops: seq<SetOp>) | LoadTx(parsed: Option<Tree>)

  /** The state when the operations of a transaction are over, before SetEnd. */
  function Body(env: Env, st: State, tx: Tx): (State, Option<Error>, seq<OpResult>) {
    var (s, e) := Start(env, st, false);
    match tx
    case SetTx(ops) => PerformAll(env, s, e, ops)
    case LoadTx(parsed) =>
      if e.Some? then (s, e, [])
      else
        var (s', e') := PerformLoad(env, s, parsed);
        (s', e', [])
  }

  function Transact(env: Env, st: State, tx: Tx): (State, Option<Error>, seq<OpResult>) {
    var (s, e, rs) := Body(env, st, tx);
    var (last, err) := Close(env, s, e);
    (last, err, rs)
  }
}
