/** What a Set transaction shows to the outside: the calls the subsystem sees, what they undo,
    the results the client sees, and what an accepted request has done to the tree. */
module SetOutcome {
  import opened DataTree
  import opened SetLog
  import opened SetModel
  import opened SetProofs

  // ----- The call trace -----------------------------------------------------------------

  /** One callback per entry with the old and the new value swapped. */
  function Swapped(log: Log): seq<Call> {
    if log == [] then []
    else
      var e := log[|log| - 1];
      Swapped(log[..|log| - 1]) + [SetCallback(e.op, e.path, e.written, e.saved)]
  }

  lemma {:induction false} InversesOfExecuted(log: Log)
    requires forall i | 0 <= i < |log| :: log[i].executed
    ensures Inverses(log) == Swapped(log)
  {
    if log != [] {
      InversesOfExecuted(log[..|log| - 1]);
    }
  }

  /** The calls of one transaction with number `id` and log `log`. */
  function Bracket(env: Env, id: nat, log: Log, failed: bool): seq<Call> {
    var edits := if env.hasCallback then Forwards(log) else [];
    var undone := if env.hasCallback then Swapped(log) else [];
    if !env.hasTransaction then edits
    else
      [SetStart(id, false)] + edits + [SetEnd(id)] +
      if failed then [SetStart(id, true)] + undone + [SetEnd(id)] else []
  }

  function TxLog(env: Env, st: State, tx: Tx): Log {
    Body(env, st, tx).0.log
  }

  /** What the operations of a transaction have called before SetEnd. */
  ghost predicate CallsMatchLog(env: Env, st: State, body: State) {
    && body.seqNo == NextSeq(st.seqNo)
    && body.calls == Start(env, st, false).0.calls + (if env.hasCallback then Forwards(body.log) else [])
    && forall i | 0 <= i < |body.log| :: body.log[i].executed == env.hasCallback
  }

  lemma SetBodyCalls(env: Env, st: State, ops: seq<SetOp>)
    requires ValidEnv(env)
    ensures CallsMatchLog(env, st, Body(env, st, SetTx(ops)).0)
  {
    hide Perform, Final, Consistent;
    var (s, e) := Start(env, st, false);
    BodyTracks(env, st, ops);
    PerformAllKeepsSeq(env, s, e, ops);
  }

  lemma {:induction false} LoadBodyCalls(env: Env, st: State, parsed: Option<Tree>)
    ensures CallsMatchLog(env, st, Body(env, st, LoadTx(parsed)).0)
  {
    hide Perform, PerformAll, Forwards, Put, Subtree;
    ForwardsSingle(SetEntry(INVALID, [], Some(st.root), parsed, env.hasCallback));
    LoadLog(env, st, parsed);
  }

  lemma ForwardsSingle(e: SetEntry)
    ensures Forwards([]) == []
    ensures Forwards([e]) == [SetCallback(e.op, e.path, e.saved, e.written)]
  {
  }

  lemma {:induction false} EditNodesKeepSeq(env: Env, st: State, op: SetOp, ps: seq<Path>)
    ensures EditNodes(env, st, op, ps).0.seqNo == st.seqNo
    decreases |ps|
  {
    if ps != [] {
      EditNodesKeepSeq(env, EditNode(env, st, op, ps[0]).0, op, ps[1..]);
    }
  }

  lemma {:induction false} PerformAllKeepsSeq(env: Env, st: State, err: Option<Error>, ops: seq<SetOp>)
    ensures PerformAll(env, st, err, ops).0.seqNo == st.seqNo
    decreases |ops|
  {
    if ops != [] {
      if err.Some? {
        PerformAllKeepsSeq(env, st, err, ops[1..]);
      } else {
        var (next, e0) := Perform(env, st, ops[0]);
        if env.validPath(ops[0].pat) && Targets(env, st.root, ops[0]).Some? {
          EditNodesKeepSeq(env, st, ops[0], Targets(env, st.root, ops[0]).value);
        }
        PerformAllKeepsSeq(env, next, e0, ops[1..]);
      }
    }
  }

  /** Every transaction makes exactly the calls of its bracket: the operations between start
      and end, and after a failure a second bracket with the same number that undoes, once
      each and in log order, the callbacks made, the failed one included. */
  lemma TransactCalls(env: Env, st: State, tx: Tx)
    requires ValidEnv(env)
    ensures var (last, err, _) := Transact(env, st, tx);
      && last.calls == st.calls + Bracket(env, NextSeq(st.seqNo), TxLog(env, st, tx), err.Some?)
      && last.seqNo == NextSeq(st.seqNo)
      && last.log == []
  {
    hide Perform, PerformAll, Forwards, Inverses, Swapped, Restore, Close, Body, Start, Bracket;
    match tx {
      case SetTx(ops) => SetBodyCalls(env, st, ops);
      case LoadTx(parsed) => LoadBodyCalls(env, st, parsed);
    }
    var (body, err, _) := Body(env, st, tx);
    CloseCalls(env, st, body, err);
  }

  /** The calls that close a transaction complete its bracket. */
  lemma CloseCalls(env: Env, st: State, body: State, err: Option<Error>)
    requires CallsMatchLog(env, st, body)
    ensures var (last, e) := Close(env, body, err);
      && last.calls == st.calls + Bracket(env, NextSeq(st.seqNo), body.log, e.Some?)
      && last.seqNo == NextSeq(st.seqNo)
      && last.log == []
  {
    hide Forwards, Inverses, Swapped, Restore;
    if env.hasCallback {
      InversesOfExecuted(body.log);
    }
  }

  /** A whole run of transactions. */
  function Run(env: Env, st: State, txs: seq<Tx>): State {
    if txs == [] then st else Transact(env, Run(env, st, txs[..|txs| - 1]), txs[|txs| - 1]).0
  }

  /** The brackets of a run, one after the other. */
  function RunCalls(env: Env, st: State, txs: seq<Tx>): seq<Call> {
    if txs == [] then []
    else
      var n := |txs| - 1;
      var before := Run(env, st, txs[..n]);
      RunCalls(env, st, txs[..n]) +
      Bracket(env, NextSeq(before.seqNo), TxLog(env, before, txs[n]), Transact(env, before, txs[n]).1.Some?)
  }

  lemma TransactCounts(env: Env, st: State, tx: Tx, first: nat, n: nat)
    requires ValidEnv(env) && st.seqNo == (first + n) % UINT_SIZE
    ensures Transact(env, st, tx).0.seqNo == (first + n + 1) % UINT_SIZE
  {
    hide Transact, Body, Bracket;
    TransactCalls(env, st, tx);
  }

  /** The transaction numbers count up by one. */
  lemma {:induction false} RunNumbers(env: Env, st: State, txs: seq<Tx>)
    requires ValidEnv(env) && st.seqNo < UINT_SIZE
    ensures Run(env, st, txs).seqNo == (st.seqNo + |txs|) % UINT_SIZE
  {
    hide Transact;
    if txs != [] {
      var n := |txs| - 1;
      RunNumbers(env, st, txs[..n]);
      TransactCounts(env, Run(env, st, txs[..n]), txs[n], st.seqNo, n);
      assert |txs| == n + 1;
    }
  }

  lemma BracketAppends(env: Env, first: seq<Call>, made: seq<Call>, st: State, tx: Tx)
    requires ValidEnv(env) && st.calls == first + made
    ensures Transact(env, st, tx).0.calls ==
            first + (made + Bracket(env, NextSeq(st.seqNo), TxLog(env, st, tx), Transact(env, st, tx).1.Some?))
  {
    hide Transact, Body, Bracket, NextSeq;
    TransactCalls(env, st, tx);
    assert first + made + Bracket(env, NextSeq(st.seqNo), TxLog(env, st, tx), Transact(env, st, tx).1.Some?) ==
           first + (made + Bracket(env, NextSeq(st.seqNo), TxLog(env, st, tx), Transact(env, st, tx).1.Some?));
  }

  /** Brackets never nest or overlap over a run. */
  lemma {:induction false} RunIsBracketed(env: Env, st: State, txs: seq<Tx>)
    requires ValidEnv(env)
    ensures Run(env, st, txs).calls == st.calls + RunCalls(env, st, txs)
  {
    hide Transact, Bracket, NextSeq;
    if txs != [] {
      var n := |txs| - 1;
      var before := Run(env, st, txs[..n]);
      RunIsBracketed(env, st, txs[..n]);
      BracketAppends(env, st.calls, RunCalls(env, st, txs[..n]), before, txs[n]);
    }
  }

  /** The number of the `i`th transaction of a run. */
  function TxNumber(env: Env, st: State, txs: seq<Tx>, i: nat): nat
    requires i < |txs|
  {
    NextSeq(Run(env, st, txs[..i]).seqNo)
  }

  /** Over a run no two transactions have one number before the counter has made a full turn,
      and as long as it has not wrapped the numbers increase. */
  lemma NumbersAreFresh(env: Env, st: State, txs: seq<Tx>, i: nat, j: nat)
    requires ValidEnv(env) && st.seqNo < UINT_SIZE && i < j < |txs| && j < i + UINT_SIZE
    ensures TxNumber(env, st, txs, i) != TxNumber(env, st, txs, j)
    ensures st.seqNo + j + 1 < UINT_SIZE ==> TxNumber(env, st, txs, i) < TxNumber(env, st, txs, j)
  {
    hide Run, NextSeq;
    RunNumbers(env, st, txs[..i]);
    RunNumbers(env, st, txs[..j]);
    NumbersDiffer(st.seqNo, i, j);
  }

  lemma NumbersDiffer(first: nat, i: nat, j: nat)
    requires i < j < i + UINT_SIZE
    ensures NextSeq((first + i) % UINT_SIZE) != NextSeq((first + j) % UINT_SIZE)
    ensures first + j + 1 < UINT_SIZE ==> NextSeq((first + i) % UINT_SIZE) < NextSeq((first + j) % UINT_SIZE)
  {
    NextNumber(first + i);
    NextNumber(first + j);
    RemaindersDiffer(first + i + 1, first + j + 1);
  }

  lemma RemaindersDiffer(a: nat, b: nat)
    requires a < b < a + UINT_SIZE
    ensures a % UINT_SIZE != b % UINT_SIZE
  {
    assert a == UINT_SIZE * (a / UINT_SIZE) + a % UINT_SIZE;
    assert b == UINT_SIZE * (b / UINT_SIZE) + b % UINT_SIZE;
  }

  lemma NextNumber(n: nat)
    ensures NextSeq(n % UINT_SIZE) == (n + 1) % UINT_SIZE
  {
  }

  // ----- Undo in the subsystem ----------------------------------------------------------

  /** The store of a subsystem that takes over the wanted value on every callback, also on one
      it then answers with an error. */
  function Stored(store: Tree, calls: seq<Call>): Tree {
    if calls == [] then store
    else
      var before := Stored(store, calls[..|calls| - 1]);
      match calls[|calls| - 1]
      case SetCallback(_, path, _, want) => Put(before, path, want)
      case _ => before
  }

  lemma {:induction false} StoredAppend(store: Tree, a: seq<Call>, b: seq<Call>)
    ensures Stored(store, a + b) == Stored(Stored(store, a), b)
    decreases |b|
  {
    if b == [] {
      assert a + b == a;
    } else {
      StoredAppend(store, a, b[..|b| - 1]);
      assert (a + b)[..|a + b| - 1] == a + b[..|b| - 1];
    }
  }

  lemma StoredCallback(store: Tree, calls: seq<Call>, op: Operation, path: Path, cur: Option<Tree>, want: Option<Tree>)
    ensures Stored(store, calls + [SetCallback(op, path, cur, want)]) == Put(Stored(store, calls), path, want)
  {
    hide Put;
    assert (calls + [SetCallback(op, path, cur, want)])[..|calls|] == calls;
  }

  lemma {:induction false} StoredForwards(newRoot: Tree, store: Tree, log: Log)
    requires forall i | 0 <= i < |log| :: log[i].path != [] || log[i].written.Some?
    ensures Stored(store, Forwards(log)) == Final(newRoot, store, log)
  {
    hide Put, Stored;
    if log == [] {
      NothingStored(store);
    } else {
      var before, e := log[..|log| - 1], log[|log| - 1];
      assert forall i | 0 <= i < |before| :: before[i] == log[i];
      StoredForwards(newRoot, store, before);
      StoredCallback(store, Forwards(before), e.op, e.path, e.saved, e.written);
    }
  }

  lemma NothingStored(store: Tree)
    ensures Stored(store, []) == store
  {
  }

  lemma {:induction false} StoredSwapped(store: Tree, log: Log)
    ensures Stored(store, Swapped(log)) == Restore(store, log)
  {
    hide Put, Stored;
    if log == [] {
      NothingStored(store);
    } else {
      var before, e := log[..|log| - 1], log[|log| - 1];
      StoredSwapped(store, before);
      StoredCallback(store, Swapped(before), e.op, e.path, e.written, e.saved);
    }
  }

  /** The callbacks of a failed bracket, forward and swapped, leave such a store where it was. */
  lemma LogUndoneInStore(newRoot: Tree, t: Tree, log: Log)
    requires WellFormed(t) && Consistent(newRoot, t, log)
    requires AllIndependent(Paths(log)) && NoOrphans(t, log)
    ensures Stored(Stored(t, Forwards(log)), Swapped(log)) == t
  {
    if i :| 0 <= i < |log| && log[i].path == [] {
      RootIsAlone(newRoot, t, log, i);
    } else {
      StoredForwards(newRoot, t, log);
      StoredSwapped(Final(newRoot, t, log), log);
      IndependentLogRestores(newRoot, t, log);
    }
  }

  lemma RootOverlapsAll(ps: seq<Path>, i: nat)
    requires AllIndependent(ps) && i < |ps| && ps[i] == []
    ensures |ps| == 1
  {
    if |ps| > 1 {
      var first, other := ps[0], ps[if i == 0 then 1 else i];
      var apart := Independent(first, other);
      assert false;
    }
  }

  /** An entry for the root overlaps every other, so it is the only one. */
  lemma RootIsAlone(newRoot: Tree, t: Tree, log: Log, i: nat)
    requires WellFormed(t) && Consistent(newRoot, t, log) && AllIndependent(Paths(log))
    requires i < |log| && log[i].path == []
    ensures Stored(Stored(t, Forwards(log)), Swapped(log)) == t
  {
    RootOverlapsAll(Paths(log), i);
    assert log == [log[0]];
    SavedAreNodes(newRoot, t, log);
    assert log[..0] == [];
    WholeSubtree(t);
    var store := Stored(t, Forwards(log));
    StoredSwapped(store, log);
    RestoreSingle(store, log[0]);
    PutRoot(store, t);
  }

  lemma WholeSubtree(t: Tree)
    requires WellFormed(t)
    ensures Subtree(t, []) == Some(t) && NodeAt([], t)
  {
    TreesEqual(Subtree(t, []).value, t);
  }

  lemma StoredBracket(env: Env, store: Tree, id: nat, log: Log)
    requires env.hasTransaction && env.hasCallback
    ensures Stored(store, Bracket(env, id, log, true)) == Stored(Stored(store, Forwards(log)), Swapped(log))
  {
    var fore, back := [SetStart(id, false)] + Forwards(log), [SetEnd(id)] + [SetStart(id, true)] + Swapped(log);
    assert Bracket(env, id, log, true) == fore + back + [SetEnd(id)];
    StoredAppend(store, fore + back, [SetEnd(id)]);
    StoredAppend(store, fore, back);
    StoredAppend(store, [SetStart(id, false)], Forwards(log));
    StoredAppend(Stored(store, Forwards(log)), [SetEnd(id)] + [SetStart(id, true)], Swapped(log));
    StoredAppend(Stored(store, Forwards(log)), [SetEnd(id)], [SetStart(id, true)]);
  }

  /** A failed safe request leaves a subsystem that mirrors the tree where it was, whichever
      call failed. */
  lemma {:induction false} SubsystemIsUndone(env: Env, st: State, ops: seq<SetOp>)
    requires ValidEnv(env) && WellFormed(st.root) && SafeRequest(st.root, ops)
    requires env.hasTransaction && env.hasCallback && Transact(env, st, SetTx(ops)).1.Some?
    ensures st.calls <= Transact(env, st, SetTx(ops)).0.calls
    ensures Stored(st.root, Transact(env, st, SetTx(ops)).0.calls[|st.calls|..]) == st.root
  {
    var (s, e) := Start(env, st, false);
    var log := TxLog(env, st, SetTx(ops));
    BodyTracks(env, st, ops);
    SafeBody(env, st, ops);
    LogUndoneInStore(env.newRoot, st.root, log);
    TransactCalls(env, st, SetTx(ops));
    StoredBracket(env, st.root, NextSeq(st.seqNo), log);
    assert Transact(env, st, SetTx(ops)).0.calls[|st.calls|..] == Bracket(env, NextSeq(st.seqNo), log, true);
  }

  // ----- The response -------------------------------------------------------------------

  /** The first `n` operations succeeded, the next one failed with `err`, the rest was aborted. */
  predicate Stopped(rs: seq<OpResult>, n: nat, err: Option<Error>) {
    && n <= |rs|
    && (forall i | 0 <= i < n :: rs[i].outcome == Done)
    && (n < |rs| ==> err.Some? && rs[n].outcome == Failed(err.value))
    && (n == |rs| ==> err.None?)
    && (forall i | n < i < |rs| :: rs[i].outcome == Aborted)
  }

  lemma {:induction false} PerformAllResults(env: Env, st: State, err: Option<Error>, ops: seq<SetOp>)
    ensures var (_, e, rs) := PerformAll(env, st, err, ops);
      && |rs| == |ops|
      && (forall i | 0 <= i < |rs| :: rs[i].op == ops[i])
      && (err.Some? ==> e == err && forall i | 0 <= i < |rs| :: rs[i].outcome == Aborted)
      && (err.None? ==> exists n: nat :: Stopped(rs, n, e))
    decreases |ops|
  {
    var (_, e, rs) := PerformAll(env, st, err, ops);
    if ops == [] {
      assert err.None? ==> Stopped(rs, 0, e);
    } else if err.Some? {
      PerformAllResults(env, st, err, ops[1..]);
    } else {
      var (next, e0) := Perform(env, st, ops[0]);
      PerformAllResults(env, next, e0, ops[1..]);
      var rest := PerformAll(env, next, e0, ops[1..]).2;
      if e0.Some? {
        assert Stopped(rs, 0, e);
      } else {
        var n: nat :| Stopped(rest, n, e);
        assert Stopped(rs, n + 1, e);
      }
    }
  }

  /** The subsystem refuses the start of the next transaction. */
  predicate StartRefused(env: Env, st: State) {
    env.hasTransaction && env.fails(st.calls + [SetStart((st.seqNo + 1) % UINT_SIZE, false)])
  }

  lemma StartsExactly(env: Env, st: State)
    ensures Start(env, st, false).1 == if StartRefused(env, st) then Some(SubsystemError) else None
  {
  }

  /** The response to a Set: one result per operation in order; a success prefix, at most one
      failure, then only aborts; everything is aborted exactly when the start was refused. */
  lemma SetResults(env: Env, st: State, ops: seq<SetOp>)
    ensures var rs := Transact(env, st, SetTx(ops)).2;
      && |rs| == |ops|
      && (forall i | 0 <= i < |rs| :: rs[i].op == ops[i])
      && (!StartRefused(env, st) ==> exists n: nat :: Stopped(rs, n, Body(env, st, SetTx(ops)).1))
      && (ops != [] ==> (StartRefused(env, st) <==> forall i | 0 <= i < |rs| :: rs[i].outcome == Aborted))
  {
    hide StartRefused, Perform;
    var (s, e) := Start(env, st, false);
    StartsExactly(env, st);
    PerformAllResults(env, s, e, ops);
    var rs := Transact(env, st, SetTx(ops)).2;
    if ops != [] && e.None? {
      var n: nat :| Stopped(rs, n, Body(env, st, SetTx(ops)).1);
      assert rs[0].outcome != Aborted;
    }
  }

  // ----- What an accepted request means -------------------------------------------------

  /** The nodes an operation concerns, as a set. */
  function Concerned(t: Tree, op: SetOp): set<Path> {
    var found := Find(t, op.pat);
    if op.Delete? || found != {} then found
    else if IsConcrete(op.pat) then {PathOf(op.pat)}
    else {}
  }

  /** What is at `k` after `op` has worked on the nodes `ts` of `t`, all at once. */
  ghost function EffectAt(env: Env, t: Tree, op: SetOp, ts: set<Path>, k: Path): Option<Value> {
    var n := |op.pat|;
    if |k| >= n && k[..n] in ts then
      match op
      case Delete(_) => if n == 0 then At(env.newRoot, k) else None
      case Replace(_, val) => AtOption(env.build(k[..n], val), k)
      case Update(_, val) =>
        var v := AtOption(env.build(k[..n], val), k);
        if v.Some? then v else At(t, k)
    else if !op.Delete? && k !in t && (exists p :: p in ts && Under(k, p)) then Some(Container)
    else At(t, k)
  }

  ghost predicate OpEffect(env: Env, t: Tree, op: SetOp, u: Tree) {
    forall k :: At(u, k) == EffectAt(env, t, op, Concerned(t, op), k)
  }

  /** `u` is the left fold of the operations over `t`. */
  ghost predicate Folds(env: Env, t: Tree, ops: seq<SetOp>, u: Tree)
    decreases |ops|
  {
    if ops == [] then u == t
    else exists m :: OpEffect(env, t, ops[0], m) && Folds(env, m, ops[1..], u)
  }

  lemma EditNodeEffect(env: Env, st: State, op: SetOp, p: Path, k: Path)
    requires ValidEnv(env) && |p| == |op.pat| && EditNode(env, st, op, p).1.None?
    ensures At(EditNode(env, st, op, p).0.root, k) == EffectAt(env, st.root, op, {p}, k)
  {
    assert Under(p, k) <==> |k| >= |p| && k[..|p|] == p;
    match op
    case Delete(_) => PutAt(st.root, p, None, k);
    case Replace(_, val) => PutAt(st.root, p, env.build(p, val), k);
    case Update(_, val) => GraftAt(st.root, p, env.build(p, val).value, k);
  }

  function Elements(ps: seq<Path>): set<Path> {
    set p | p in ps
  }

  /** One node after the other: the effect at `k` of the first node and then of the rest. */
  lemma EffectsCompose(env: Env, t: Tree, u: Tree, op: SetOp, p: Path, rest: set<Path>, k: Path)
    requires |p| == |op.pat| && p !in rest && forall q | q in rest :: |q| == |op.pat|
    requires At(u, k) == EffectAt(env, t, op, {p}, k)
    ensures EffectAt(env, u, op, rest, k) == EffectAt(env, t, op, {p} + rest, k)
  {
    var n := |op.pat|;
    if |k| >= n {
      assert forall q | q in {p} + rest && Under(k, q) :: k[..n] == q;
    }
  }

  /** Working through the nodes one by one has the effect of working on all of them at once. */
  lemma {:induction false} EditNodesEffect(env: Env, st: State, op: SetOp, ps: seq<Path>, k: Path)
    requires ValidEnv(env) && EditNodes(env, st, op, ps).1.None?
    requires forall p | p in ps :: |p| == |op.pat|
    requires forall i, j | 0 <= i < j < |ps| :: ps[i] != ps[j]
    ensures At(EditNodes(env, st, op, ps).0.root, k) == EffectAt(env, st.root, op, Elements(ps), k)
    decreases |ps|
  {
    hide EditNode, EffectAt;
    if ps == [] {
      NoEffect(env, st.root, op, k);
    } else {
      var p, rest := ps[0], ps[1..];
      var next := EditNode(env, st, op, p).0;
      EditNodeEffect(env, st, op, p, k);
      EditNodesEffect(env, next, op, rest, k);
      assert Elements(ps) == {p} + Elements(rest);
      EffectsCompose(env, st.root, next.root, op, p, Elements(rest), k);
    }
  }

  lemma NoEffect(env: Env, t: Tree, op: SetOp, k: Path)
    ensures EffectAt(env, t, op, Elements([]), k) == At(t, k)
  {
  }

  lemma PerformEffect(env: Env, st: State, op: SetOp)
    requires ValidEnv(env) && Perform(env, st, op).1.None?
    ensures OpEffect(env, st.root, op, Perform(env, st, op).0.root)
  {
    var found := Find(st.root, op.pat);
    var ps := Targets(env, st.root, op).value;
    assert Lists(env.order(found), found);
    if |env.order(found)| > 0 {
      assert env.order(found)[0] in found;
    } else {
      assert found == {};
    }
    assert Elements(ps) == Concerned(st.root, op);
    forall k
      ensures At(Perform(env, st, op).0.root, k) == EffectAt(env, st.root, op, Concerned(st.root, op), k)
    {
      EditNodesEffect(env, st, op, ps, k);
    }
  }

  lemma {:induction false} PerformAllFolds(env: Env, st: State, ops: seq<SetOp>)
    requires ValidEnv(env) && PerformAll(env, st, None, ops).1.None?
    ensures Folds(env, st.root, ops, PerformAll(env, st, None, ops).0.root)
    decreases |ops|
  {
    if ops != [] {
      var (next, e0) := Perform(env, st, ops[0]);
      PerformAllResults(env, next, e0, ops[1..]);
      PerformEffect(env, st, ops[0]);
      PerformAllFolds(env, next, ops[1..]);
    }
  }

  /** An accepted request that the server applies itself has done exactly its operations, in
      delete, replace, update order. */
  lemma SetCommits(env: Env, st: State, ops: seq<SetOp>)
    requires ValidEnv(env) && env.updatedByServer && Transact(env, st, SetTx(ops)).1.None?
    ensures Folds(env, st.root, ops, Transact(env, st, SetTx(ops)).0.root)
  {
    var (s, e) := Start(env, st, false);
    PerformAllResults(env, s, e, ops);
    PerformAllFolds(env, s, ops);
    TransactRestores(env, st, SetTx(ops));
  }
}
