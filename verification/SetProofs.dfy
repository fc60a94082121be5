/** What every Set transaction keeps: atomicity, undo in the subsystem, the shape of the call
    trace and of the response, and the meaning of an accepted request. */
module SetProofs {
  import opened DataTree
  import opened SetLog
  import opened SetModel

  // ----- The log tells the truth ------------------------------------------------------

  /** The callbacks made while the edits were logged. */
  function Forwards(log: Log): seq<Call> {
    if log == [] then []
    else
      var e := log[|log| - 1];
      Forwards(log[..|log| - 1]) + [SetCallback(e.op, e.path, e.saved, e.written)]
  }

  /** The invariant of a transaction that began with tree `t` and call history `calls`: the log
      explains the tree, every saved subtree is the one that was there, and the subsystem has
      been told about every entry exactly once. */
  ghost predicate Tracks(env: Env, t: Tree, calls: seq<Call>, st: State) {
    && st.root == Final(env.newRoot, t, st.log)
    && Consistent(env.newRoot, t, st.log)
    && (forall i | 0 <= i < |st.log| :: st.log[i].executed == env.hasCallback)
    && st.calls == calls + if env.hasCallback then Forwards(st.log) else []
  }

  lemma LogEditTracks(env: Env, t: Tree, calls: seq<Call>, st: State, root: Tree, e: SetEntry)
    requires Tracks(env, t, calls, st)
    requires e.saved == Subtree(st.root, e.path) && (e.written.Some? ==> NodeAt(e.path, e.written.value))
    requires root == Apply(env.newRoot, st.root, e)
    ensures Tracks(env, t, calls, LogEdit(env, st.(root := root), e).0)
  {
  }

  lemma {:induction false} EditNodeTracks(env: Env, t: Tree, calls: seq<Call>, st: State, op: SetOp, p: Path)
    requires ValidEnv(env) && Tracks(env, t, calls, st)
    ensures Tracks(env, t, calls, EditNode(env, st, op, p).0)
  {
    hide Tracks, LogEdit;
    match op
    case Delete(_) =>
      var root := if p == [] then env.newRoot else Prune(st.root, p);
      LogEditTracks(env, t, calls, st, root, SetEntry(DELETE, p, Subtree(st.root, p), None, false));
    case Replace(pat, val) =>
      var node := env.build(p, val);
      if node.Some? {
        var root := if p == [] then node.value else Put(st.root, p, node);
        if p == [] {
          PutRoot(st.root, node.value);
        }
        LogEditTracks(env, t, calls, st, root, SetEntry(REPLACE, p, Subtree(st.root, p), node, false));
      }
    case Update(pat, val) =>
      var node := env.build(p, val);
      if node.Some? {
        var root := Graft(st.root, p, node.value);
        GraftIsPut(st.root, p, node.value);
        SubtreeAt(root, p, p);
        LogEditTracks(env, t, calls, st, root, SetEntry(REPLACE, p, Subtree(st.root, p), Subtree(root, p), false));
      }
  }

  lemma PutRoot(t: Tree, s: Tree)
    requires NodeAt([], s)
    ensures Put(t, [], Some(s)) == s
  {
  }

  lemma {:induction false} EditNodesTracks(env: Env, t: Tree, calls: seq<Call>, st: State, op: SetOp, ps: seq<Path>)
    requires ValidEnv(env) && Tracks(env, t, calls, st)
    ensures Tracks(env, t, calls, EditNodes(env, st, op, ps).0)
    decreases |ps|
  {
    if ps != [] {
      EditNodeTracks(env, t, calls, st, op, ps[0]);
      EditNodesTracks(env, t, calls, EditNode(env, st, op, ps[0]).0, op, ps[1..]);
    }
  }

  lemma {:induction false} PerformAllTracks(env: Env, t: Tree, calls: seq<Call>, st: State, err: Option<Error>,
                                            ops: seq<SetOp>)
    requires ValidEnv(env) && Tracks(env, t, calls, st)
    ensures Tracks(env, t, calls, PerformAll(env, st, err, ops).0)
    decreases |ops|
  {
    if ops != [] {
      if err.Some? {
        PerformAllTracks(env, t, calls, st, err, ops[1..]);
      } else {
        var (next, e0) := Perform(env, st, ops[0]);
        if env.validPath(ops[0].pat) && Targets(env, st.root, ops[0]).Some? {
          EditNodesTracks(env, t, calls, st, ops[0], Targets(env, st.root, ops[0]).value);
        }
        PerformAllTracks(env, t, calls, next, e0, ops[1..]);
      }
    }
  }

  /** The state of a Set request when its operations are over keeps the invariant. */
  lemma BodyTracks(env: Env, st: State, ops: seq<SetOp>)
    requires ValidEnv(env)
    ensures Tracks(env, st.root, Start(env, st, false).0.calls, Body(env, st, SetTx(ops)).0)
  {
    var (s, e) := Start(env, st, false);
    PerformAllTracks(env, st.root, s.calls, s, e, ops);
  }

  // ----- Atomicity ----------------------------------------------------------------------

  /** The transaction is to leave no trace in the tree: it failed, or the subsystem itself
      writes the accepted data later. */
  predicate Reverts(env: Env, st: State, tx: Tx) {
    !env.updatedByServer || Transact(env, st, tx).1.Some?
  }

  /** Rolling back and ending do not touch tree or log before the restore pass. */
  lemma TransactRestores(env: Env, st: State, tx: Tx)
    ensures var body := Body(env, st, tx).0;
      Transact(env, st, tx).0.root ==
        if Reverts(env, st, tx) then RestorePass(env.treeFails, body.root, body.log) else body.root
  {
  }

  /** Whatever the tree refuses to take back at the end of the transaction had not changed. */
  predicate TakesBack(env: Env, st: State, tx: Tx) {
    var body := Body(env, st, tx).0;
    RefusalsHarmless(env.treeFails, body.root, body.log)
  }

  /** A tree that never refuses anything takes everything back. */
  lemma NeverRefused(env: Env, st: State, tx: Tx)
    requires forall t, p :: !env.treeFails(t, p)
    ensures TakesBack(env, st, tx)
  {
  }

  /** Exact condition: a Set whose logged paths are independent reverts to the very tree it
      started from if and only if it created no node below a missing parent and the tree took
      back what had changed. */
  lemma {:induction false} SetRevertsExactly(env: Env, st: State, ops: seq<SetOp>)
    requires ValidEnv(env) && WellFormed(st.root) && Reverts(env, st, SetTx(ops))
    requires AllIndependent(Paths(Body(env, st, SetTx(ops)).0.log))
    ensures Transact(env, st, SetTx(ops)).0.root == st.root <==>
            NoOrphans(st.root, Body(env, st, SetTx(ops)).0.log) && TakesBack(env, st, SetTx(ops))
  {
    BodyTracks(env, st, ops);
    PassRestoresExactly(env.treeFails, env.newRoot, st.root, Body(env, st, SetTx(ops)).0.log);
    TransactRestores(env, st, SetTx(ops));
  }

  /** A request a client can know to be safe: no two operations can select overlapping nodes,
      and whatever has to be created has its parent already. */
  ghost predicate SafeRequest(t: Tree, ops: seq<SetOp>) {
    && (forall i, j | 0 <= i < j < |ops| :: PatternsApart(ops[i].pat, ops[j].pat))
    && HasParents(t, ops)
  }

  /** What a request may have to create has its parent already. */
  predicate HasParents(t: Tree, ops: seq<SetOp>) {
    forall i | 0 <= i < |ops| && !ops[i].Delete? && IsConcrete(ops[i].pat) && ops[i].pat != [] ::
      PathOf(ops[i].pat) in t || Parent(PathOf(ops[i].pat)) in t
  }

  /** One of the first `n` operations can select `p`. */
  ghost predicate FromFirst(ops: seq<SetOp>, n: nat, p: Path)
    requires n <= |ops|
  {
    exists m | 0 <= m < n :: Matches(ops[m].pat, p)
  }

  /** What a safe request has logged after its first `n` operations. */
  ghost predicate SafeLog(t: Tree, ops: seq<SetOp>, n: nat, log: Log)
    requires n <= |ops|
  {
    && AllIndependent(Paths(log))
    && NoOrphans(t, log)
    && forall i | 0 <= i < |log| :: FromFirst(ops, n, log[i].path)
  }

  lemma EditNodeLogs(env: Env, st: State, op: SetOp, p: Path)
    ensures var log := EditNode(env, st, op, p).0.log;
      || log == st.log
      || (|log| == |st.log| + 1 && log[..|st.log|] == st.log && log[|st.log|].path == p
          && (op.Delete? ==> log[|st.log|].written.None?))
  {
  }

  /** One more entry for a path of the operation under way. */
  lemma EditNodeSafe(env: Env, t: Tree, calls: seq<Call>, st: State, op: SetOp, p: Path)
    requires ValidEnv(env) && WellFormed(t) && Tracks(env, t, calls, st)
    requires AllIndependent(Paths(st.log)) && NoOrphans(t, st.log)
    requires forall i | 0 <= i < |st.log| :: Independent(st.log[i].path, p)
    requires op.Delete? || p == [] || p in st.root || Parent(p) in t
    ensures var next := EditNode(env, st, op, p).0;
      && AllIndependent(Paths(next.log)) && NoOrphans(t, next.log)
      && st.log <= next.log && |next.log| <= |st.log| + 1
      && (|next.log| > |st.log| ==> next.log[|st.log|].path == p)
  {
    hide EditNode;
    FinalUntouched(env.newRoot, t, st.log, p);
    EditNodeLogs(env, st, op, p);
    var log, next := st.log, EditNode(env, st, op, p).0.log;
    if |next| > |log| {
      assert forall i | 0 <= i < |log| :: next[i] == next[..|log|][i] == log[i];
      forall i, j | 0 <= i < j < |next|
        ensures Independent(Paths(next)[i], Paths(next)[j])
      {
        assert j < |log| ==> Independent(Paths(log)[i], Paths(log)[j]);
      }
    }
  }

  /** The entries past `log` are those of the operation under way. */
  ghost predicate Underway(t: Tree, ops: seq<SetOp>, n: nat, log: Log, now: Log)
    requires n < |ops|
  {
    && log <= now && SafeLog(t, ops, n, log)
    && AllIndependent(Paths(now)) && NoOrphans(t, now)
    && forall i | |log| <= i < |now| :: Matches(ops[n].pat, now[i].path)
  }

  lemma UnderwayIsSafe(t: Tree, ops: seq<SetOp>, n: nat, log: Log, now: Log)
    requires n < |ops| && Underway(t, ops, n, log, now)
    ensures SafeLog(t, ops, n + 1, now)
  {
  }

  /** A node of the operation under way that has no entry yet overlaps none that has. */
  lemma UnderwayApart(t: Tree, ops: seq<SetOp>, n: nat, log: Log, now: Log, p: Path)
    requires n < |ops| && SafeRequest(t, ops) && Underway(t, ops, n, log, now)
    requires Matches(ops[n].pat, p) && forall i | |log| <= i < |now| :: now[i].path != p
    ensures forall i | 0 <= i < |now| :: Independent(now[i].path, p)
  {
    forall i | 0 <= i < |now|
      ensures Independent(now[i].path, p)
    {
      if i < |log| {
        assert log[i] == now[i];
        var m :| 0 <= m < n && Matches(ops[m].pat, log[i].path);
        ApartAreIndependent(ops[m].pat, ops[n].pat, log[i].path, p);
      } else {
        FoundAreIndependent(ops[n].pat, now[i].path, p);
      }
    }
  }

  lemma StillThere(env: Env, t: Tree, calls: seq<Call>, st: State, p: Path)
    requires Tracks(env, t, calls, st) && forall i | 0 <= i < |st.log| :: Independent(st.log[i].path, p)
    ensures p in st.root <==> p in t
  {
    FinalUntouched(env.newRoot, t, st.log, p);
  }

  lemma EditNodeUnderway(env: Env, t: Tree, calls: seq<Call>, st: State, ops: seq<SetOp>, n: nat, log: Log, p: Path)
    requires ValidEnv(env) && WellFormed(t) && Tracks(env, t, calls, st)
    requires n < |ops| && SafeRequest(t, ops) && Underway(t, ops, n, log, st.log)
    requires Matches(ops[n].pat, p) && forall i | |log| <= i < |st.log| :: st.log[i].path != p
    requires ops[n].Delete? || p == [] || p in t || Parent(p) in t
    ensures var next := EditNode(env, st, ops[n], p).0.log;
      && Underway(t, ops, n, log, next)
      && forall i | |log| <= i < |next| :: next[i].path == p || (i < |st.log| && next[i] == st.log[i])
  {
    hide EditNode, Tracks, WellFormed, SafeLog, NoOrphans, AllIndependent;
    UnderwayApart(t, ops, n, log, st.log, p);
    StillThere(env, t, calls, st, p);
    EditNodeSafe(env, t, calls, st, ops[n], p);
    var next := EditNode(env, st, ops[n], p).0.log;
    assert forall i | 0 <= i < |st.log| :: next[i] == st.log[i];
  }

  lemma {:induction false} EditNodesSafe(env: Env, t: Tree, calls: seq<Call>, st: State, ops: seq<SetOp>, n: nat,
                                         log: Log, ps: seq<Path>)
    requires ValidEnv(env) && WellFormed(t) && Tracks(env, t, calls, st)
    requires n < |ops| && SafeRequest(t, ops) && Underway(t, ops, n, log, st.log)
    requires forall i | |log| <= i < |st.log| :: st.log[i].path !in ps
    requires forall i, j | 0 <= i < j < |ps| :: ps[i] != ps[j]
    requires forall p | p in ps :: Matches(ops[n].pat, p)
    requires forall p | p in ps :: ops[n].Delete? || p == [] || p in t || Parent(p) in t
    ensures Underway(t, ops, n, log, EditNodes(env, st, ops[n], ps).0.log)
    decreases |ps|
  {
    if ps != [] {
      var p := ps[0];
      EditNodeUnderway(env, t, calls, st, ops, n, log, p);
      EditNodeTracks(env, t, calls, st, ops[n], p);
      var (next, err) := EditNode(env, st, ops[n], p);
      if err.None? {
        EditNodesSafe(env, t, calls, next, ops, n, log, ps[1..]);
      }
    }
  }

  lemma PathOfMatches(pat: Pattern)
    requires IsConcrete(pat)
    ensures Matches(pat, PathOf(pat))
    ensures PathOf(pat) == [] <==> pat == []
  {
  }

  /** The targets of a safe request exist already, or at least their parents do. */
  lemma TargetsSafe(env: Env, t: Tree, calls: seq<Call>, st: State, ops: seq<SetOp>, n: nat)
    requires ValidEnv(env) && WellFormed(t) && Tracks(env, t, calls, st)
    requires n < |ops| && SafeRequest(t, ops) && SafeLog(t, ops, n, st.log)
    requires Targets(env, st.root, ops[n]).Some?
    ensures var ps := Targets(env, st.root, ops[n]).value;
      && (forall i, j | 0 <= i < j < |ps| :: ps[i] != ps[j])
      && (forall p | p in ps :: Matches(ops[n].pat, p))
      && (forall p | p in ps :: ops[n].Delete? || p == [] || p in t || Parent(p) in t)
  {
    var found := Find(st.root, ops[n].pat);
    assert Lists(env.order(found), found);
    if IsConcrete(ops[n].pat) {
      PathOfMatches(ops[n].pat);
    }
    forall p | p in found
      ensures p in t
    {
      forall i | 0 <= i < |st.log|
        ensures Independent(st.log[i].path, p)
      {
        var m :| 0 <= m < n && Matches(ops[m].pat, st.log[i].path);
        ApartAreIndependent(ops[m].pat, ops[n].pat, st.log[i].path, p);
      }
      FinalUntouched(env.newRoot, t, st.log, p);
    }
  }

  lemma PerformSafe(env: Env, t: Tree, calls: seq<Call>, st: State, ops: seq<SetOp>, n: nat)
    requires ValidEnv(env) && WellFormed(t) && Tracks(env, t, calls, st)
    requires n < |ops| && SafeRequest(t, ops) && SafeLog(t, ops, n, st.log)
    ensures SafeLog(t, ops, n + 1, Perform(env, st, ops[n]).0.log)
    ensures Tracks(env, t, calls, Perform(env, st, ops[n]).0)
  {
    var next := Perform(env, st, ops[n]).0;
    if env.validPath(ops[n].pat) && Targets(env, st.root, ops[n]).Some? {
      var ps := Targets(env, st.root, ops[n]).value;
      TargetsSafe(env, t, calls, st, ops, n);
      EditNodesSafe(env, t, calls, st, ops, n, st.log, ps);
      EditNodesTracks(env, t, calls, st, ops[n], ps);
    }
    UnderwayIsSafe(t, ops, n, st.log, next.log);
  }

  lemma {:induction false} PerformAllSafe(env: Env, t: Tree, calls: seq<Call>, st: State, err: Option<Error>,
                                          ops: seq<SetOp>, n: nat)
    requires ValidEnv(env) && WellFormed(t) && Tracks(env, t, calls, st)
    requires n <= |ops| && SafeRequest(t, ops) && SafeLog(t, ops, n, st.log)
    ensures SafeLog(t, ops, |ops|, PerformAll(env, st, err, ops[n..]).0.log)
    decreases |ops| - n
  {
    hide Perform, SafeRequest, WellFormed;
    if n < |ops| {
      assert ops[n..][1..] == ops[n + 1..] && ops[n..][0] == ops[n];
      if err.Some? {
        UnderwayIsSafe(t, ops, n, st.log, st.log);
        PerformAllSafe(env, t, calls, st, err, ops, n + 1);
      } else {
        var (next, e0) := Perform(env, st, ops[n]);
        PerformSafe(env, t, calls, st, ops, n);
        PerformAllSafe(env, t, calls, next, e0, ops, n + 1);
      }
    }
  }

  /** What the operations of a safe request log is independent and has parents. */
  lemma SafeBody(env: Env, st: State, ops: seq<SetOp>)
    requires ValidEnv(env) && WellFormed(st.root) && SafeRequest(st.root, ops)
    ensures var log := Body(env, st, SetTx(ops)).0.log;
      AllIndependent(Paths(log)) && NoOrphans(st.root, log)
  {
    var (s, e) := Start(env, st, false);
    assert ops[0..] == ops;
    PerformAllSafe(env, st.root, s.calls, s, e, ops, 0);
  }

  /** All or nothing: wherever a safe Set request fails, the tree is the one before it, if and
      only if the tree takes back what had changed. */
  lemma {:induction false} SetIsAtomic(env: Env, st: State, ops: seq<SetOp>)
    requires ValidEnv(env) && WellFormed(st.root)
    requires SafeRequest(st.root, ops) && Reverts(env, st, SetTx(ops))
    ensures Transact(env, st, SetTx(ops)).0.root == st.root <==> TakesBack(env, st, SetTx(ops))
  {
    SafeBody(env, st, ops);
    SetRevertsExactly(env, st, ops);
  }

  /** An entry for the root is never refused. */
  lemma RestoreRoot(fails: (Tree, Path) -> bool, t: Tree, e: SetEntry)
    requires e.path == []
    ensures RestorePass(fails, t, [e]) == Put(t, [], e.saved)
  {
    assert [e][..0] == [];
  }

  lemma LoadLog(env: Env, st: State, parsed: Option<Tree>)
    ensures var body := Body(env, st, LoadTx(parsed)).0;
      || (body.log == [] && body.root == st.root)
      || body.log == [SetEntry(INVALID, [], Some(st.root), parsed, env.hasCallback)]
  {
  }

  /** Loading a startup tree is atomic without any condition. */
  lemma LoadIsAtomic(env: Env, st: State, parsed: Option<Tree>)
    requires WellFormed(st.root) && Reverts(env, st, LoadTx(parsed))
    ensures Transact(env, st, LoadTx(parsed)).0.root == st.root
  {
    var body := Body(env, st, LoadTx(parsed)).0;
    LoadLog(env, st, parsed);
    TransactRestores(env, st, LoadTx(parsed));
    RestoreRoot(env.treeFails, body.root, SetEntry(INVALID, [], Some(st.root), parsed, env.hasCallback));
    PutRoot(body.root, st.root);
  }

  // ----- Where atomicity ends ------------------------------------------------------------

  /** An operation at a path without wildcards works on the node of that path alone, whether it
      exists or has to be created. */
  lemma PerformAtNode(env: Env, st: State, op: SetOp)
    requires ValidEnv(env) && IsConcrete(op.pat) && env.validPath(op.pat)
    requires PathOf(op.pat) in st.root || !op.Delete?
    ensures Perform(env, st, op) == EditNode(env, st, op, PathOf(op.pat))
  {
    hide EditNode;
    var p := PathOf(op.pat);
    TargetAlone(env, st, op);
    var (next, err) := EditNode(env, st, op, p);
    assert [p][1..] == [];
    assert EditNodes(env, next, op, []) == (next, None);
    assert EditNodes(env, st, op, [p]) == (next, err);
  }

  lemma EmptyList(ps: seq<Path>, s: set<Path>)
    requires Lists(ps, s)
    ensures s == {} ==> ps == []
  {
    if ps != [] {
      assert ps[0] in ps && ps[0] in s;
    }
  }

  lemma TargetAlone(env: Env, st: State, op: SetOp)
    requires ValidEnv(env) && IsConcrete(op.pat) && (PathOf(op.pat) in st.root || !op.Delete?)
    ensures Targets(env, st.root, op) == Some([PathOf(op.pat)])
  {
    var p := PathOf(op.pat);
    FoundAtMost(st.root, op.pat);
    var found := env.order(Find(st.root, op.pat));
    assert Lists(found, Find(st.root, op.pat));
    if p in st.root {
      assert p in found;
      var last := found[|found| - 1];
      assert last in found && found[0] in found;
      assert found == [p];
    } else {
      EmptyList(found, {});
    }
  }

  lemma ReplaceOne(env: Env, st: State, pat: Pattern, val: string)
    requires ValidEnv(env) && IsConcrete(pat) && PathOf(pat) in st.root
    requires Perform(env, st, Replace(pat, val)).1.None?
    ensures var p := PathOf(pat);
      var next := Perform(env, st, Replace(pat, val)).0;
      && env.build(p, val).Some? && next.root == Put(st.root, p, env.build(p, val))
      && next.log == st.log + [SetEntry(REPLACE, p, Subtree(st.root, p), env.build(p, val), env.hasCallback)]
  {
    assert env.validPath(pat);
    PerformAtNode(env, st, Replace(pat, val));
    var node := env.build(PathOf(pat), val);
    if PathOf(pat) == [] && node.Some? {
      PutRoot(st.root, node.value);
    }
  }

  /** A path without wildcards selects just its node, if it exists. */
  lemma FoundAtMost(t: Tree, pat: Pattern)
    requires IsConcrete(pat)
    ensures Find(t, pat) == if PathOf(pat) in t then {PathOf(pat)} else {}
  {
    PathOfMatches(pat);
    forall q | Matches(pat, q)
      ensures q == PathOf(pat)
    {
      assert forall i | 0 <= i < |q| :: ElemMatches(pat[i], q[i]) && pat[i].Exact?;
    }
  }

  /** A request that replaces one node twice and is then refused at its end does not bring the
      node back: the forward pass leaves the value of its FIRST replace in the tree.  Only when
      that is the very subtree that was there before, the tree is the one before.  Should the
      tree refuse the last step of the pass, what the first step left stays: the original, or
      what the request wrote last if that step is refused too. */
  lemma DoubleReplaceKeepsFirst(env: Env, st: State, pat: Pattern, val1: string, val2: string)
    requires ValidEnv(env) && WellFormed(st.root) && IsConcrete(pat) && PathOf(pat) in st.root
    requires var tx := SetTx([Replace(pat, val1), Replace(pat, val2)]);
      Body(env, st, tx).1.None? && Transact(env, st, tx).1.Some?
    ensures var p := PathOf(pat);
      var tx := SetTx([Replace(pat, val1), Replace(pat, val2)]);
      var body, after := Body(env, st, tx).0.root, Transact(env, st, tx).0.root;
      var halfway := if p != [] && env.treeFails(body, p) then body else st.root;
      && env.build(p, val1).Some?
      && after == (if p != [] && env.treeFails(halfway, p) then halfway else Put(st.root, p, env.build(p, val1)))
      && (Put(st.root, p, env.build(p, val1)) == st.root <==> env.build(p, val1) == Subtree(st.root, p))
  {
    var p := PathOf(pat);
    var s0 := Start(env, st, false).0;
    var s1, s2 := TwoReplaces(env, s0, Start(env, st, false).1, pat, val1, val2);
    TransactRestores(env, st, SetTx([Replace(pat, val1), Replace(pat, val2)]));
    RestoreTwo(env.treeFails, st.root, p, env.build(p, val1), env.build(p, val2), s2.log);
    PutChanges(st.root, p, env.build(p, val1).value);
  }

  /** The pass over two edits of one node ends with what the second one saved, unless refused. */
  lemma RestoreTwo(fails: (Tree, Path) -> bool, t: Tree, p: Path, a: Option<Tree>, b: Option<Tree>, log: Log)
    requires WellFormed(t) && p in t && a.Some? && NodeAt(p, a.value) && b.Some? && NodeAt(p, b.value)
    requires |log| == 2 && log[0].path == log[1].path == p
    requires log[0].saved == Subtree(t, p) && log[1].saved == Subtree(Put(t, p, a), p)
    ensures var t2 := Put(Put(t, p, a), p, b);
      var halfway := if p != [] && fails(t2, p) then t2 else t;
      RestorePass(fails, t2, log) == if p != [] && fails(halfway, p) then halfway else Put(t, p, a)
  {
    hide Put, Subtree, NodeAt, WellFormed;
    var t1 := Put(t, p, a);
    var t2 := Put(t1, p, b);
    assert log[..1] == [log[0]] && [log[0]][..0] == [];
    assert RestorePass(fails, t2, []) == t2;
    assert RestorePass(fails, t2, [log[0]]) == if p != [] && fails(t2, p) then t2 else Put(t2, p, log[0].saved);
    SubtreeAt(t, p, p);
    SubtreeThere(t, p);
    PutSelfAgain(t, p, a);
    PutOver(t, p, a, b, Subtree(t, p));
    PutOver(t, p, a, b, a);
    PutSelf(t, p);
    PutTwice(t, p, Subtree(t, p), a);
  }

  lemma SubtreeThere(t: Tree, p: Path)
    requires p in t
    ensures Subtree(t, p).Some?
  {
  }

  /** The last of several replacements of one existing node counts. */
  lemma PutOver(t: Tree, p: Path, a: Option<Tree>, b: Option<Tree>, c: Option<Tree>)
    requires a.Some? && NodeAt(p, a.value) && b.Some? && NodeAt(p, b.value)
    requires c.Some? && NodeAt(p, c.value)
    ensures Put(Put(Put(t, p, a), p, b), p, c) == Put(t, p, c)
  {
    PutTwice(t, p, a, b);
    PutTwice(t, p, b, c);
  }

  lemma PutTwice(t: Tree, p: Path, a: Option<Tree>, b: Option<Tree>)
    requires a.Some? && NodeAt(p, a.value) && b.Some? && NodeAt(p, b.value)
    ensures Put(Put(t, p, a), p, b) == Put(t, p, b)
  {
    forall k
      ensures At(Put(Put(t, p, a), p, b), k) == At(Put(t, p, b), k)
    {
      PutAt(t, p, a, k);
      PutAt(Put(t, p, a), p, b, k);
      PutAt(t, p, b, k);
    }
    TreesEqual(Put(Put(t, p, a), p, b), Put(t, p, b));
  }

  /** What a replacement put there is what is found there. */
  lemma PutSelfAgain(t: Tree, p: Path, a: Option<Tree>)
    requires a.Some? && NodeAt(p, a.value)
    ensures Subtree(Put(t, p, a), p) == a
  {
    PutAt(t, p, a, p);
    forall k
      ensures At(Subtree(Put(t, p, a), p).value, k) == At(a.value, k)
    {
      PutAt(t, p, a, k);
      SubtreeAt(Put(t, p, a), p, k);
    }
    TreesEqual(Subtree(Put(t, p, a), p).value, a.value);
  }

  /** A replacement changes the tree unless it puts back what is there. */
  lemma PutChanges(t: Tree, p: Path, s: Tree)
    requires WellFormed(t) && NodeAt(p, s)
    ensures Put(t, p, Some(s)) == t <==> Some(s) == Subtree(t, p)
  {
    if Put(t, p, Some(s)) == t {
      PutAt(t, p, Some(s), p);
      forall k
        ensures At(s, k) == At(Subtree(t, p).value, k)
      {
        PutAt(t, p, Some(s), k);
        SubtreeAt(t, p, k);
      }
      TreesEqual(s, Subtree(t, p).value);
    } else {
      PutSelf(t, p);
    }
  }

  /** The first of several operations that all succeed. */
  lemma FirstSucceeds(env: Env, st: State, err: Option<Error>, ops: seq<SetOp>)
    requires ops != [] && PerformAll(env, st, err, ops).1.None?
    ensures err.None? && Perform(env, st, ops[0]).1.None?
    ensures var rest := PerformAll(env, Perform(env, st, ops[0]).0, None, ops[1..]);
      rest.1.None? && PerformAll(env, st, err, ops).0 == rest.0
  {
    hide Perform;
    AfterError(env, st, err, ops);
    if err.None? {
      AfterError(env, Perform(env, st, ops[0]).0, Perform(env, st, ops[0]).1, ops[1..]);
    }
  }

  lemma TwoReplaces(env: Env, s0: State, err: Option<Error>, pat: Pattern, val1: string, val2: string)
    returns (s1: State, s2: State)
    requires ValidEnv(env) && IsConcrete(pat) && PathOf(pat) in s0.root && s0.log == []
    requires PerformAll(env, s0, err, [Replace(pat, val1), Replace(pat, val2)]).1.None?
    ensures var p := PathOf(pat);
      && env.build(p, val1).Some? && env.build(p, val2).Some?
      && s1.root == Put(s0.root, p, env.build(p, val1)) && s2.root == Put(s1.root, p, env.build(p, val2))
      && s2.log == [SetEntry(REPLACE, p, Subtree(s0.root, p), env.build(p, val1), env.hasCallback),
                    SetEntry(REPLACE, p, Subtree(s1.root, p), env.build(p, val2), env.hasCallback)]
      && s2 == PerformAll(env, s0, err, [Replace(pat, val1), Replace(pat, val2)]).0
  {
    hide Perform, PerformAll;
    var ops := [Replace(pat, val1), Replace(pat, val2)];
    assert ops[1..] == [Replace(pat, val2)] && ops[1..][1..] == [];
    FirstSucceeds(env, s0, err, ops);
    s1 := Perform(env, s0, ops[0]).0;
    FirstSucceeds(env, s1, None, ops[1..]);
    s2 := Perform(env, s1, Replace(pat, val2)).0;
    NoOperations(env, s2);
    ReplaceOne(env, s0, pat, val1);
    PutAt(s0.root, PathOf(pat), env.build(PathOf(pat), val1), PathOf(pat));
    ReplaceOne(env, s1, pat, val2);
  }

  lemma NoOperations(env: Env, st: State)
    ensures PerformAll(env, st, None, []) == (st, None, [])
  {
  }

  /** An error stays an error. */
  lemma {:induction false} AfterError(env: Env, st: State, err: Option<Error>, ops: seq<SetOp>)
    ensures err.Some? ==> PerformAll(env, st, err, ops).1 == err
    decreases |ops|
  {
    if ops != [] && err.Some? {
      AfterError(env, st, err, ops[1..]);
    }
  }
}
