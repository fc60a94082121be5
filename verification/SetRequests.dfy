/** Which requests are all or nothing whatever happens to them: the exact condition on the paths
    a request names. */
module SetRequests {
  import opened DataTree
  import opened SetLog
  import opened SetModel
  import opened SetProofs

  /** One operation per path, at exactly that path. */
  predicate OperationsAt(ops: seq<SetOp>, ps: seq<Path>) {
    |ops| == |ps| && forall m | 0 <= m < |ops| :: IsConcrete(ops[m].pat) && PathOf(ops[m].pat) == ps[m]
  }

  predicate OnlyReplaces(ops: seq<SetOp>) {
    forall m | 0 <= m < |ops| :: ops[m].Replace?
  }

  /** Every request with these paths that has to revert leaves the tree it found, on every server
      and every tree with the parents of the paths, whatever values it carries and wherever it
      fails, as long as the tree takes back what had changed.  Of all requests, or of those that
      only replace. */
  ghost predicate AlwaysAtomic(ps: seq<Path>, onlyReplaces: bool) {
    forall env: Env, st: State, ops: seq<SetOp> {:trigger Transact(env, st, SetTx(ops))} ::
      && ValidEnv(env) && WellFormed(st.root)
      && OperationsAt(ops, ps) && (onlyReplaces ==> OnlyReplaces(ops))
      && HasParents(st.root, ops) && Reverts(env, st, SetTx(ops)) && TakesBack(env, st, SetTx(ops))
      ==> Transact(env, st, SetTx(ops)).0.root == st.root
  }

  predicate ParentsIn(t: Tree, ps: seq<Path>) {
    forall i | 0 <= i < |ps| && ps[i] != [] :: ps[i] in t || Parent(ps[i]) in t
  }

  /** The same for the one tree `t`, parents or not. */
  ghost predicate AtomicFrom(t: Tree, ps: seq<Path>) {
    forall env: Env, st: State, ops: seq<SetOp> {:trigger Transact(env, st, SetTx(ops))} ::
      && ValidEnv(env) && st.root == t && OperationsAt(ops, ps) && OnlyReplaces(ops)
      && Reverts(env, st, SetTx(ops)) && TakesBack(env, st, SetTx(ops))
      ==> Transact(env, st, SetTx(ops)).0.root == t
  }

  // ----- A server that shows the difference ---------------------------------------------

  /** A server whose values are the subtrees of two trees, and whose subsystem refuses the end
      of every transaction and nothing else. */
  ghost function TwoTreeEnv(t: Tree, u: Tree): Env {
    Env(true, true, true, EMPTY_ROOT, _ => true, _ => false, _ => false,
        (p, v) => Subtree(if v == "new" then u else t, p),
        (_, _) => false, s => Listed(s), (calls: seq<Call>) => calls != [] && calls[|calls| - 1].SetEnd?)
  }

  lemma TwoTreeEnvValid(t: Tree, u: Tree)
    ensures ValidEnv(TwoTreeEnv(t, u))
  {
    EmptyRootWellFormed();
  }

  /** Replacements at `ps`: up to the `i`th with the old values, from then on with the new ones. */
  function Replacements(ps: seq<Path>, i: nat): seq<SetOp> {
    seq(|ps|, m requires 0 <= m < |ps| => Replace(Exactly(ps[m]), if m < i then "old" else "new"))
  }

  lemma ReplaceIn(t: Tree, u: Tree, st: State, p: Path, val: string)
    requires p in st.root && p in t && p in u
    ensures var (next, err) := Perform(TwoTreeEnv(t, u), st, Replace(Exactly(p), val));
      var node := Subtree(if val == "new" then u else t, p);
      && err.None? && next.root == Put(st.root, p, node)
      && next.log == st.log + [SetEntry(REPLACE, p, Subtree(st.root, p), node, true)]
  {
    var env, op := TwoTreeEnv(t, u), Replace(Exactly(p), val);
    TwoTreeEnvValid(t, u);
    ExactlyIsConcrete(p);
    hide Perform;
    PerformAtNode(env, st, op);
    var node := env.build(p, val);
    if p == [] {
      PutRoot(st.root, node.value);
    }
  }

  /** The state after the first `n` of these replacements. */
  ghost predicate Halfway(t: Tree, u: Tree, ps: seq<Path>, i: nat, n: nat, st: State)
    requires n <= |ps|
  {
    st.log == OneChange(t, u, ps, i)[..n] && st.root == if n <= i then t else u
  }

  lemma ReplacementStep(t: Tree, u: Tree, ps: seq<Path>, i: nat, n: nat, st: State)
    requires WellFormed(t) && WellFormed(u) && n < |ps|
    requires forall m | 0 <= m < |ps| :: ps[m] in t && ps[m] in u
    requires (i < |ps| ==> Put(t, ps[i], Subtree(u, ps[i])) == u) && Halfway(t, u, ps, i, n, st)
    ensures var (next, err) := Perform(TwoTreeEnv(t, u), st, Replacements(ps, i)[n]);
      err.None? && Halfway(t, u, ps, i, n + 1, next)
  {
    hide Perform, TwoTreeEnv, Put, Subtree, WellFormed, OneChange;
    ReplaceIn(t, u, st, ps[n], if n < i then "old" else "new");
    OneChangeNext(t, u, ps, i, n);
    OneChangePut(t, u, ps, i, n);
  }

  lemma {:induction false} ReplacementsRun(t: Tree, u: Tree, ps: seq<Path>, i: nat, n: nat, st: State)
    requires WellFormed(t) && WellFormed(u) && i < |ps| && n <= |ps|
    requires forall m | 0 <= m < |ps| :: ps[m] in t && ps[m] in u
    requires Put(t, ps[i], Subtree(u, ps[i])) == u && Halfway(t, u, ps, i, n, st)
    ensures var (last, err, _) := PerformAll(TwoTreeEnv(t, u), st, None, Replacements(ps, i)[n..]);
      err.None? && Halfway(t, u, ps, i, |ps|, last)
    decreases |ps| - n
  {
    hide Perform, TwoTreeEnv, Halfway, WellFormed, Replacements;
    var ops := Replacements(ps, i);
    assert |ops| == |ps| by {
      ReplacementsAt(ps, i);
    }
    if n == |ps| {
      assert ops[n..] == [];
    } else {
      assert ops[n..][0] == ops[n] && ops[n..][1..] == ops[n + 1..];
      ReplacementStep(t, u, ps, i, n, st);
      ReplacementsRun(t, u, ps, i, n + 1, Perform(TwoTreeEnv(t, u), st, ops[n]).0);
    }
  }

  lemma ReplacementsAt(ps: seq<Path>, i: nat)
    ensures OperationsAt(Replacements(ps, i), ps) && OnlyReplaces(Replacements(ps, i))
  {
    forall m | 0 <= m < |ps|
      ensures IsConcrete(Exactly(ps[m])) && PathOf(Exactly(ps[m])) == ps[m]
    {
      ExactlyIsConcrete(ps[m]);
    }
  }

  /** The replacements themselves succeed, and make exactly the log with one change. */
  lemma ReplacementsBody(t: Tree, u: Tree, ps: seq<Path>, i: nat)
    requires WellFormed(t) && WellFormed(u) && i < |ps|
    requires forall m | 0 <= m < |ps| :: ps[m] in t && ps[m] in u
    requires Put(t, ps[i], Subtree(u, ps[i])) == u
    ensures var (body, err, _) := Body(TwoTreeEnv(t, u), State(t, 0, [], []), SetTx(Replacements(ps, i)));
      err.None? && body.root == u && body.log == OneChange(t, u, ps, i)
  {
    hide PerformAll;
    var env, st := TwoTreeEnv(t, u), State(t, 0, [], []);
    var (s, e) := Start(env, st, false);
    assert e.None?;
    assert OneChange(t, u, ps, i)[..0] == [];
    ReplacementsRun(t, u, ps, i, 0, s);
    assert Replacements(ps, i)[0..] == Replacements(ps, i);
    assert OneChange(t, u, ps, i)[..|ps|] == OneChange(t, u, ps, i);
  }

  /** Two overlapping paths: a request that the subsystem refuses in the end keeps a node it made. */
  lemma OverlapNotAtomic(ps: seq<Path>, i: nat, j: nat, onlyReplaces: bool)
    requires i < j < |ps| && !Independent(ps[i], ps[j])
    ensures !AlwaysAtomic(ps, onlyReplaces)
  {
    hide OneChange, Replacements, TwoTreeEnv, Transact, Body, Reverts, Restore, RestorePass, TakesBack;
    hide WellFormed, Put, Subtree;
    var t, u, z := OverlapWitness(ps, i, j);
    var env, st, ops := TwoTreeEnv(t, u), State(t, 0, [], []), Replacements(ps, i);
    TwoTreeEnvValid(t, u);
    ReplacementsAt(ps, i);
    ReplacementsBody(t, u, ps, i);
    EndRefused(t, u, st, SetTx(ops));
    TransactRestores(env, st, SetTx(ops));
    PlainPass(t, u, u, OneChange(t, u, ps, i));
    NeverRefuses(t, u, st, SetTx(ops));
    OverlapKeeps(t, u, ps, i, j, z);
    AllPresent(t, ps, ops);
    assert Transact(env, st, SetTx(ops)).0.root != st.root;
  }

  lemma AllPresent(t: Tree, ps: seq<Path>, ops: seq<SetOp>)
    requires OperationsAt(ops, ps) && forall m | 0 <= m < |ps| :: ps[m] in t
    ensures HasParents(t, ops)
  {
  }

  lemma PlainPass(t: Tree, u: Tree, root: Tree, log: Log)
    ensures RestorePass(TwoTreeEnv(t, u).treeFails, root, log) == Restore(root, log)
  {
    AcceptedPass(TwoTreeEnv(t, u).treeFails, root, log);
  }

  lemma NeverRefuses(t: Tree, u: Tree, st: State, tx: Tx)
    ensures TakesBack(TwoTreeEnv(t, u), st, tx)
  {
    NeverRefused(TwoTreeEnv(t, u), st, tx);
  }

  lemma EndRefused(t: Tree, u: Tree, st: State, tx: Tx)
    ensures Reverts(TwoTreeEnv(t, u), st, tx)
  {
  }

  lemma SafeAt(t: Tree, ops: seq<SetOp>, ps: seq<Path>)
    requires AllIndependent(ps) && OperationsAt(ops, ps) && HasParents(t, ops)
    ensures SafeRequest(t, ops)
  {
    forall i, j | 0 <= i < j < |ops|
      ensures PatternsApart(ops[i].pat, ops[j].pat)
    {
      assert Independent(ps[i], ps[j]);
      IndependentAreApart(ops[i].pat, ops[j].pat);
    }
  }

  /** Independent paths: all or nothing. */
  lemma IndependentIsAtomic(ps: seq<Path>, onlyReplaces: bool)
    requires AllIndependent(ps)
    ensures AlwaysAtomic(ps, onlyReplaces)
  {
    forall env: Env, st: State, ops: seq<SetOp> |
        && ValidEnv(env) && WellFormed(st.root)
        && OperationsAt(ops, ps) && HasParents(st.root, ops)
        && Reverts(env, st, SetTx(ops)) && TakesBack(env, st, SetTx(ops))
      ensures Transact(env, st, SetTx(ops)).0.root == st.root
    {
      SafeAt(st.root, ops, ps);
      SetIsAtomic(env, st, ops);
    }
  }

  /** Exact condition on a request: whatever its values, the tree and the failure are, it is all
      or nothing if and only if no path of it is, or is an ancestor of, another. */
  lemma AtomicExactly(ps: seq<Path>, onlyReplaces: bool)
    ensures AlwaysAtomic(ps, onlyReplaces) <==> AllIndependent(ps)
  {
    if AllIndependent(ps) {
      IndependentIsAtomic(ps, onlyReplaces);
    } else {
      var i, j :| 0 <= i < j < |ps| && !Independent(ps[i], ps[j]);
      OverlapNotAtomic(ps, i, j, onlyReplaces);
    }
  }

  // ----- Missing parents ----------------------------------------------------------------

  /** A server whose values are bare containers, and whose subsystem refuses the end of every
      transaction and nothing else. */
  ghost function BareEnv(): Env {
    Env(true, true, true, EMPTY_ROOT, _ => true, _ => false, _ => false,
        (p, v) => Some(map[p := Container]),
        (_, _) => false, s => Listed(s), (calls: seq<Call>) => calls != [] && calls[|calls| - 1].SetEnd?)
  }

  lemma BareEnvValid()
    ensures ValidEnv(BareEnv())
  {
    EmptyRootWellFormed();
  }

  /** The log of the first `n` replacements: one entry per path, and each wrote something. */
  ghost predicate AllWritten(ps: seq<Path>, n: nat, log: Log)
    requires n <= |ps|
  {
    |log| == n && forall m | 0 <= m < n :: log[m].path == ps[m] && log[m].written.Some?
  }

  lemma BareStep(st: State, ps: seq<Path>, n: nat)
    requires n < |ps| && AllWritten(ps, n, st.log)
    ensures var (next, err) := Perform(BareEnv(), st, Replacements(ps, 0)[n]);
      err.None? && AllWritten(ps, n + 1, next.log)
  {
    hide Perform;
    BareEnvValid();
    ExactlyIsConcrete(ps[n]);
    PerformAtNode(BareEnv(), st, Replacements(ps, 0)[n]);
  }

  lemma {:induction false} BareRun(st: State, ps: seq<Path>, n: nat)
    requires n <= |ps| && AllWritten(ps, n, st.log)
    ensures var (last, err, _) := PerformAll(BareEnv(), st, None, Replacements(ps, 0)[n..]);
      err.None? && AllWritten(ps, |ps|, last.log)
    decreases |ps| - n
  {
    hide Perform, BareEnv, AllWritten, Replacements;
    var ops := Replacements(ps, 0);
    assert |ops| == |ps| by {
      ReplacementsAt(ps, 0);
    }
    if n == |ps| {
      assert ops[n..] == [];
    } else {
      assert ops[n..][0] == ops[n] && ops[n..][1..] == ops[n + 1..];
      BareStep(st, ps, n);
      BareRun(Perform(BareEnv(), st, ops[n]).0, ps, n + 1);
    }
  }

  lemma BareBody(t: Tree, ps: seq<Path>)
    ensures var (body, err, _) := Body(BareEnv(), State(t, 0, [], []), SetTx(Replacements(ps, 0)));
      err.None? && AllWritten(ps, |ps|, body.log)
  {
    hide PerformAll;
    var (s, e) := Start(BareEnv(), State(t, 0, [], []), false);
    assert e.None?;
    BareRun(s, ps, 0);
    assert Replacements(ps, 0)[0..] == Replacements(ps, 0);
  }

  lemma BareReverts(st: State, tx: Tx)
    ensures Reverts(BareEnv(), st, tx) && TakesBack(BareEnv(), st, tx)
  {
    NeverRefused(BareEnv(), st, tx);
  }

  /** A node to be created below a missing parent: the request leaves the parent behind. */
  lemma OrphanNotAtomic(t: Tree, ps: seq<Path>)
    requires WellFormed(t) && AllIndependent(ps) && !ParentsIn(t, ps)
    ensures !AtomicFrom(t, ps)
  {
    hide BareEnv, Transact, Reverts, TakesBack, WellFormed, Body, ValidEnv;
    var env, st, ops := BareEnv(), State(t, 0, [], []), Replacements(ps, 0);
    var log := Body(env, st, SetTx(ops)).0.log;
    BareEnvValid();
    BareBody(t, ps);
    BareReverts(st, SetTx(ops));
    ReplacementsAt(ps, 0);
    assert Paths(log) == ps;
    var i :| 0 <= i < |ps| && ps[i] != [] && ps[i] !in t && Parent(ps[i]) !in t;
    assert log[i].path == ps[i] && log[i].written.Some?;
    SetRevertsExactly(env, st, ops);
    assert Transact(env, st, SetTx(ops)).0.root != t;
  }

  /** Exact condition on the tree: over independent paths, every request that replaces them and
      has to revert leaves the tree as it was, if and only if every path or its parent exists. */
  lemma AtomicFromExactly(t: Tree, ps: seq<Path>)
    requires WellFormed(t) && AllIndependent(ps)
    ensures AtomicFrom(t, ps) <==> ParentsIn(t, ps)
  {
    if ParentsIn(t, ps) {
      forall env: Env, st: State, ops: seq<SetOp> |
          && ValidEnv(env) && st.root == t && OperationsAt(ops, ps) && OnlyReplaces(ops)
          && Reverts(env, st, SetTx(ops)) && TakesBack(env, st, SetTx(ops))
        ensures Transact(env, st, SetTx(ops)).0.root == t
      {
        ParentsOfPaths(t, ops, ps);
        SafeAt(t, ops, ps);
        SetIsAtomic(env, st, ops);
      }
    } else {
      OrphanNotAtomic(t, ps);
    }
  }

  lemma ParentsOfPaths(t: Tree, ops: seq<SetOp>, ps: seq<Path>)
    requires OperationsAt(ops, ps) && ParentsIn(t, ps)
    ensures HasParents(t, ops)
  {
    forall i | 0 <= i < |ops| && IsConcrete(ops[i].pat)
      ensures PathOf(ops[i].pat) == ps[i] && (ops[i].pat == [] <==> ps[i] == [])
    {
      PathOfMatches(ops[i].pat);
    }
  }

  // ----- A tree that does not take back -------------------------------------------------

  /** The two-tree server, on a tree that refuses every edit once it has become `u`. */
  ghost function StubbornEnv(t: Tree, u: Tree): Env {
    TwoTreeEnv(t, u).(treeFails := (x, _) => x == u)
  }

  /** A single replacement from `t` to `u` that the subsystem refuses in the end, and that the
      tree refuses to take back: `u` stays. */
  lemma RefusedRestoreSticks(t: Tree, u: Tree, p: Path)
    requires WellFormed(t) && t != u && p != [] && p in t && p in u && Put(t, p, Subtree(u, p)) == u
    ensures var env, ops := StubbornEnv(t, u), [Replace(Exactly(p), "new")];
      && ValidEnv(env) && SafeRequest(t, ops) && Reverts(env, State(t, 0, [], []), SetTx(ops))
      && Transact(env, State(t, 0, [], []), SetTx(ops)).0.root == u
  {
    hide Put, Subtree, WellFormed, Restore, RestorePass, Body, StubbornEnv, Transact, Reverts;
    var env, st, op := StubbornEnv(t, u), State(t, 0, [], []), Replace(Exactly(p), "new");
    StubbornBody(t, u, p);
    StubbornReverts(t, u, st, SetTx([op]));
    ExactlyIsConcrete(p);
    AloneIsSafe(t, op);
    RefusedOnce(env.treeFails, u, Body(env, st, SetTx([op])).0.log);
    TransactRestores(env, st, SetTx([op]));
  }

  lemma AloneIsSafe(t: Tree, op: SetOp)
    requires IsConcrete(op.pat) && PathOf(op.pat) in t
    ensures SafeRequest(t, [op])
  {
  }

  lemma StubbornReverts(t: Tree, u: Tree, st: State, tx: Tx)
    ensures Reverts(StubbornEnv(t, u), st, tx)
    ensures forall p :: StubbornEnv(t, u).treeFails(u, p)
  {
  }

  lemma StubbornBody(t: Tree, u: Tree, p: Path)
    requires t != u && p != [] && p in t && p in u && Put(t, p, Subtree(u, p)) == u
    ensures ValidEnv(StubbornEnv(t, u))
    ensures var body := Body(StubbornEnv(t, u), State(t, 0, [], []), SetTx([Replace(Exactly(p), "new")])).0;
      body.root == u && |body.log| == 1 && body.log[0].path == p
  {
    hide Put, Subtree, Perform;
    var env, st, op := StubbornEnv(t, u), State(t, 0, [], []), Replace(Exactly(p), "new");
    TwoTreeEnvValid(t, u);
    ExactlyIsConcrete(p);
    SubtreeThere(u, p);
    var (s, e) := Start(env, st, false);
    PerformAtNode(env, s, op);
    var (next, err) := Perform(env, s, op);
    assert err.None?;
    assert [op][1..] == [];
    assert PerformAll(env, next, None, []) == (next, None, []);
  }

  lemma RefusedOnce(fails: (Tree, Path) -> bool, t: Tree, log: Log)
    requires |log| == 1 && log[0].path != [] && fails(t, log[0].path)
    ensures RestorePass(fails, t, log) == t
  {
    assert log[..0] == [];
  }
}
