/** The log a Set transaction keeps, and what replaying it FORWARD restores.

    Both passes of the server run over the log from its first entry to its last, although
    undoing in general needs the opposite order.  The theorems here say exactly when the
    forward pass brings the tree back. */
module SetLog {
  import opened DataTree

  datatype Operation = DELETE | REPLACE | UPDATE | INVALID

  /** One logged edit; `saved` and `written` are the subtrees before and after it, None for no node. */
  datatype SetEntry = SetEntry(op: Operation, path: Path, saved: Option<Tree>, written: Option<Tree>, executed: bool)

  type Log = seq<SetEntry>

  function Paths(log: Log): seq<Path> {
    seq(|log|, i requires 0 <= i < |log| => log[i].path)
  }

  /** The effect of a logged edit.  Deleting the root leaves a fresh root, not nothing. */
  function Apply(newRoot: Tree, t: Tree, e: SetEntry): Tree {
    if e.path == [] && e.written.None? then newRoot else Put(t, e.path, e.written)
  }

  /** The tree after all logged edits. */
  function Final(newRoot: Tree, t: Tree, log: Log): Tree {
    if log == [] then t
    else Apply(newRoot, Final(newRoot, t, log[..|log| - 1]), log[|log| - 1])
  }

  /** The restore pass: from the first entry to the last, put the saved subtree back. */
  function Restore(t: Tree, log: Log): Tree {
    if log == [] then t
    else
      var e := log[|log| - 1];
      Put(Restore(t, log[..|log| - 1]), e.path, e.saved)
  }

  /** The same pass when the tree may refuse an edit: a refused entry is passed over.  The root
      is exchanged, which is no edit. */
  function RestorePass(fails: (Tree, Path) -> bool, t: Tree, log: Log): Tree {
    if log == [] then t
    else
      var before, e := RestorePass(fails, t, log[..|log| - 1]), log[|log| - 1];
      if e.path != [] && fails(before, e.path) then before else Put(before, e.path, e.saved)
  }

  /** The pass over `log` that starts with `t` is refused its `i`th entry. */
  predicate Refused(fails: (Tree, Path) -> bool, t: Tree, log: Log, i: nat)
    requires i < |log|
  {
    log[i].path != [] && fails(RestorePass(fails, t, log[..i]), log[i].path)
  }

  /** Whatever the pass is refused had not been changed by its edit. */
  predicate RefusalsHarmless(fails: (Tree, Path) -> bool, t: Tree, log: Log) {
    forall i | 0 <= i < |log| && Refused(fails, t, log, i) :: log[i].written == log[i].saved
  }

  /** Every entry saved what was there when its edit was made. */
  ghost predicate Consistent(newRoot: Tree, t: Tree, log: Log) {
    log == [] ||
    var e := log[|log| - 1];
    var before := log[..|log| - 1];
    && Consistent(newRoot, t, before)
    && e.saved == Subtree(Final(newRoot, t, before), e.path)
    && (e.written.Some? ==> NodeAt(e.path, e.written.value))
  }

  /** Pairwise independence: no path is, or is an ancestor of, another. */
  predicate AllIndependent(ps: seq<Path>) {
    forall i, j | 0 <= i < j < |ps| :: Independent(ps[i], ps[j])
  }

  /** No entry created a node whose parent was missing from `t`. */
  predicate NoOrphans(t: Tree, log: Log) {
    forall i | 0 <= i < |log| ::
      log[i].written.Some? && log[i].path != [] && log[i].path !in t ==> Parent(log[i].path) in t
  }

  lemma RestoreSingle(t: Tree, e: SetEntry)
    ensures Restore(t, [e]) == Put(t, e.path, e.saved)
  {
  }

  // ----- Reading off the two passes at one path ---------------------------------------

  /** Edits that do not touch `k` leave it alone. */
  lemma {:induction false} FinalUntouched(newRoot: Tree, t: Tree, log: Log, k: Path)
    requires Consistent(newRoot, t, log)
    requires forall i | 0 <= i < |log| :: Independent(log[i].path, k)
    ensures At(Final(newRoot, t, log), k) == At(t, k)
  {
    if log != [] {
      var e, before := log[|log| - 1], log[..|log| - 1];
      FinalUntouched(newRoot, t, before, k);
      PutAt(Final(newRoot, t, before), e.path, e.written, k);
    }
  }

  /** Above and beside the logged paths the edits can only create ancestors. */
  lemma {:induction false} FinalOutside(newRoot: Tree, t: Tree, log: Log, k: Path)
    requires Consistent(newRoot, t, log)
    requires forall i | 0 <= i < |log| :: !Under(log[i].path, k)
    ensures At(Final(newRoot, t, log), k) ==
            if k !in t && (exists i | 0 <= i < |log| :: log[i].written.Some? && Under(k, log[i].path))
            then Some(Container)
            else At(t, k)
  {
    if log != [] {
      var n := |log| - 1;
      var e, before := log[n], log[..n];
      FinalOutside(newRoot, t, before, k);
      PutAt(Final(newRoot, t, before), e.path, e.written, k);
      assert forall i | 0 <= i < n :: before[i] == log[i];
      if i :| 0 <= i < |log| && log[i].written.Some? && Under(k, log[i].path) {
        assert i == n || before[i] == log[i];
      }
    }
  }

  /** Restoring leaves paths outside the log alone, when it re-creates no ancestor of them. */
  lemma {:induction false} RestoreOutside(t: Tree, log: Log, k: Path)
    requires forall i | 0 <= i < |log| :: log[i].saved.Some? ==> NodeAt(log[i].path, log[i].saved.value)
    requires forall i | 0 <= i < |log| :: !Under(log[i].path, k)
    requires k in t || forall i | 0 <= i < |log| :: log[i].saved.None? || !Under(k, log[i].path)
    ensures At(Restore(t, log), k) == At(t, k)
  {
    if log != [] {
      var n := |log| - 1;
      assert forall i | 0 <= i < n :: log[..n][i] == log[i];
      RestoreOutside(t, log[..n], k);
      PutAt(Restore(t, log[..n]), log[n].path, log[n].saved, k);
    }
  }

  /** Under a logged path the restore pass leaves what that entry saved. */
  lemma {:induction false} RestoreInside(t: Tree, log: Log, i: nat, k: Path)
    requires forall j | 0 <= j < |log| :: log[j].saved.Some? ==> NodeAt(log[j].path, log[j].saved.value)
    requires i < |log| && Under(log[i].path, k)
    requires forall j | i < j < |log| :: Independent(log[j].path, k)
    ensures At(Restore(t, log), k) == AtOption(log[i].saved, k)
  {
    var n := |log| - 1;
    PutAt(Restore(t, log[..n]), log[n].path, log[n].saved, k);
    if i < n {
      assert forall j | 0 <= j < n :: log[..n][j] == log[j];
      RestoreInside(t, log[..n], i, k);
    }
  }

  lemma {:induction false} SavedAreNodes(newRoot: Tree, t: Tree, log: Log)
    requires Consistent(newRoot, t, log)
    ensures forall i | 0 <= i < |log| ::
              && log[i].saved == Subtree(Final(newRoot, t, log[..i]), log[i].path)
              && (log[i].saved.Some? ==> NodeAt(log[i].path, log[i].saved.value))
              && Consistent(newRoot, t, log[..i])
  {
    hide Final, Subtree, NodeAt;
    if log != [] {
      var n := |log| - 1;
      var before := log[..n];
      SavedAreNodes(newRoot, t, before);
      SubtreeAt(Final(newRoot, t, before), log[n].path, log[n].path);
      forall i | 0 <= i < |log|
        ensures log[i].saved == Subtree(Final(newRoot, t, log[..i]), log[i].path)
        ensures log[i].saved.Some? ==> NodeAt(log[i].path, log[i].saved.value)
        ensures Consistent(newRoot, t, log[..i])
      {
        if i < n {
          assert before[..i] == log[..i] && before[i] == log[i];
        }
      }
    }
  }

  /** An independent log saved, at every path, the subtree of the tree it started from. */
  lemma SavedFromStart(newRoot: Tree, t: Tree, log: Log, i: nat, k: Path)
    requires WellFormed(t) && Consistent(newRoot, t, log) && AllIndependent(Paths(log))
    requires i < |log| && Under(log[i].path, k)
    ensures AtOption(log[i].saved, k) == At(t, k)
    ensures log[i].saved.Some? <==> log[i].path in t
  {
    SavedAreNodes(newRoot, t, log);
    forall j, q | 0 <= j < i && Under(log[i].path, q)
      ensures Independent(log[..i][j].path, q)
    {
      assert Independent(Paths(log)[j], Paths(log)[i]);
    }
    FinalUntouched(newRoot, t, log[..i], log[i].path);
    FinalUntouched(newRoot, t, log[..i], k);
    SubtreeAt(Final(newRoot, t, log[..i]), log[i].path, k);
    if log[i].path !in t {
      AbsentBelow(t, log[i].path, k);
    }
  }

  /** The restored tree and the original agree at `k`, orphaned ancestors apart. */
  lemma {:induction false} RestoredAt(newRoot: Tree, t: Tree, log: Log, k: Path)
    requires WellFormed(t) && Consistent(newRoot, t, log) && AllIndependent(Paths(log))
    ensures At(Restore(Final(newRoot, t, log), log), k) ==
            if k !in t && (exists i | 0 <= i < |log| ::
                             log[i].written.Some? && Under(k, log[i].path) && k != log[i].path)
            then Some(Container)
            else At(t, k)
  {
    var u := Final(newRoot, t, log);
    SavedAreNodes(newRoot, t, log);
    if i :| 0 <= i < |log| && Under(log[i].path, k) {
      forall j | 0 <= j < |log| && j != i
        ensures Independent(log[j].path, k)
        ensures !Under(k, log[j].path)
      {
        assert Independent(Paths(log)[if i < j then i else j], Paths(log)[if i < j then j else i]);
      }
      RestoreInside(u, log, i, k);
      SavedFromStart(newRoot, t, log, i, k);
    } else {
      FinalOutside(newRoot, t, log, k);
      forall i | 0 <= i < |log| && log[i].saved.Some? && Under(k, log[i].path)
        ensures k in t
      {
        SavedFromStart(newRoot, t, log, i, log[i].path);
      }
      RestoreOutside(u, log, k);
    }
  }

  // ----- When the forward pass restores -----------------------------------------------

  /** Exact condition for an independent log: the forward pass brings the tree back if and
      only if no edit created a node whose parent did not exist. */
  lemma {:induction false} IndependentLogRestores(newRoot: Tree, t: Tree, log: Log)
    requires WellFormed(t) && Consistent(newRoot, t, log) && AllIndependent(Paths(log))
    ensures Restore(Final(newRoot, t, log), log) == t <==> NoOrphans(t, log)
  {
    var r := Restore(Final(newRoot, t, log), log);
    if NoOrphans(t, log) {
      forall k
        ensures At(r, k) == At(t, k)
      {
        RestoredAt(newRoot, t, log, k);
        if i :| 0 <= i < |log| && log[i].written.Some? && Under(k, log[i].path) && k != log[i].path {
          var p := log[i].path;
          if p in t {
          } else {
            assert Under(k, Parent(p));
          }
          assert k in t;
        }
      }
      TreesEqual(r, t);
    } else {
      var i :| && 0 <= i < |log| && log[i].written.Some?
               && log[i].path != [] && log[i].path !in t && Parent(log[i].path) !in t;
      var k := Parent(log[i].path);
      assert Under(k, log[i].path);
      RestoredAt(newRoot, t, log, k);
      assert At(r, k) != At(t, k);
    }
  }

  /** When nothing is refused the two passes are one. */
  lemma {:induction false} AcceptedPass(fails: (Tree, Path) -> bool, t: Tree, log: Log)
    requires forall i | 0 <= i < |log| :: !Refused(fails, t, log, i)
    ensures RestorePass(fails, t, log) == Restore(t, log)
  {
    hide Put;
    if log != [] {
      var n := |log| - 1;
      assert forall i | 0 <= i < n :: log[..n][i] == log[i] && log[..n][..i] == log[..i];
      assert forall i | 0 <= i < n :: Refused(fails, t, log[..n], i) == Refused(fails, t, log, i);
      AcceptedPass(fails, t, log[..n]);
      assert !Refused(fails, t, log, n);
    }
  }

  /** Under a logged path the edits leave what that entry wrote. */
  lemma {:induction false} FinalInside(newRoot: Tree, t: Tree, log: Log, i: nat, k: Path)
    requires Consistent(newRoot, t, log) && i < |log| && Under(log[i].path, k) && log[i].path != []
    requires forall j | i < j < |log| :: Independent(log[j].path, k)
    ensures At(Final(newRoot, t, log), k) == AtOption(log[i].written, k)
  {
    var n := |log| - 1;
    PutAt(Final(newRoot, t, log[..n]), log[n].path, log[n].written, k);
    if i < n {
      assert forall j | 0 <= j < n :: log[..n][j] == log[j];
      FinalInside(newRoot, t, log[..n], i, k);
    }
  }

  lemma OnlyOneAbove(log: Log, i: nat, j: nat, k: Path)
    requires AllIndependent(Paths(log)) && i < |log| && j < |log| && i != j && Under(log[i].path, k)
    ensures Independent(log[j].path, k)
    ensures !Under(k, log[j].path) && !Under(log[j].path, k)
  {
    assert Independent(Paths(log)[if i < j then i else j], Paths(log)[if i < j then j else i]);
  }

  /** One of the first `n` entries, at or above `k`, was put back. */
  predicate PutBack(fails: (Tree, Path) -> bool, t: Tree, log: Log, n: nat, k: Path)
    requires n <= |log|
  {
    exists i | 0 <= i < n :: Under(log[i].path, k) && !Refused(fails, t, log, i)
  }

  /** An existing node above a logged one is not touched by the edits. */
  lemma AboveIsUntouched(newRoot: Tree, t: Tree, log: Log, m: nat, k: Path)
    requires WellFormed(t) && Consistent(newRoot, t, log) && AllIndependent(Paths(log))
    requires m < |log| && log[m].path in t && Under(k, log[m].path) && k != log[m].path
    ensures k in t && At(Final(newRoot, t, log), k) == At(t, k)
  {
    forall j | 0 <= j < |log|
      ensures !Under(log[j].path, k)
    {
      if j != m && Under(log[j].path, k) {
        OnlyOneAbove(log, j, m, k);
      }
    }
    FinalOutside(newRoot, t, log, k);
  }

  /** What the pass with refusals leaves at one path: the original where an entry was put back,
      and the outcome of the edits everywhere else. */
  lemma {:induction false} PassAt(fails: (Tree, Path) -> bool, newRoot: Tree, t: Tree, log: Log, n: nat, k: Path)
    requires WellFormed(t) && Consistent(newRoot, t, log) && AllIndependent(Paths(log)) && n <= |log|
    ensures var u := Final(newRoot, t, log);
      At(RestorePass(fails, u, log[..n]), k) == if PutBack(fails, u, log, n, k) then At(t, k) else At(u, k)
  {
    hide Put, Independent, AllIndependent, WellFormed, Consistent, Final;
    var u := Final(newRoot, t, log);
    if n > 0 {
      var m := n - 1;
      var e, before := log[m], RestorePass(fails, u, log[..m]);
      assert log[..n][..m] == log[..m];
      PassAt(fails, newRoot, t, log, m, k);
      if !Refused(fails, u, log, m) {
        SavedAreNodes(newRoot, t, log);
        PutAt(before, e.path, e.saved, k);
        if Under(e.path, k) {
          SavedFromStart(newRoot, t, log, m, k);
        } else if e.saved.Some? && Under(k, e.path) {
          SavedFromStart(newRoot, t, log, m, e.path);
          AboveIsUntouched(newRoot, t, log, m, k);
        }
      }
    }
  }

  /** A refused entry that had changed something leaves the change in the tree. */
  lemma RefusedSticks(fails: (Tree, Path) -> bool, newRoot: Tree, t: Tree, log: Log, i: nat)
    requires WellFormed(t) && Consistent(newRoot, t, log) && AllIndependent(Paths(log)) && i < |log|
    requires Refused(fails, Final(newRoot, t, log), log, i)
    ensures RestorePass(fails, Final(newRoot, t, log), log) == t ==> log[i].written == log[i].saved
  {
    hide Refused, RestorePass, Final, WellFormed;
    var u := Final(newRoot, t, log);
    var p := log[i].path;
    assert p != [] by {
      IsNoRoot(fails, u, log, i);
    }
    SavedAreNodes(newRoot, t, log);
    WrittenAreNodes(newRoot, t, log, i);
    assert log[..|log|] == log;
    forall k | Under(p, k)
      ensures At(RestorePass(fails, u, log), k) == AtOption(log[i].written, k)
      ensures At(t, k) == AtOption(log[i].saved, k)
    {
      PassAt(fails, newRoot, t, log, |log|, k);
      SavedFromStart(newRoot, t, log, i, k);
      forall j | 0 <= j < |log| && j != i
        ensures Independent(log[j].path, k)
      {
        OnlyOneAbove(log, i, j, k);
      }
      FinalInside(newRoot, t, log, i, k);
    }
    if RestorePass(fails, u, log) == t {
      SameNodes(p, log[i].written, log[i].saved);
    }
  }

  lemma IsNoRoot(fails: (Tree, Path) -> bool, t: Tree, log: Log, i: nat)
    requires i < |log| && Refused(fails, t, log, i)
    ensures log[i].path != []
  {
  }

  lemma {:induction false} WrittenAreNodes(newRoot: Tree, t: Tree, log: Log, i: nat)
    requires Consistent(newRoot, t, log) && i < |log|
    ensures log[i].written.Some? ==> NodeAt(log[i].path, log[i].written.value)
  {
    if i < |log| - 1 {
      WrittenAreNodes(newRoot, t, log[..|log| - 1], i);
    }
  }

  /** Subtrees of one path are equal when they hold the same nodes. */
  lemma SameNodes(p: Path, a: Option<Tree>, b: Option<Tree>)
    requires (a.Some? ==> NodeAt(p, a.value)) && (b.Some? ==> NodeAt(p, b.value))
    requires forall k | Under(p, k) :: AtOption(a, k) == AtOption(b, k)
    ensures a == b
  {
    assert AtOption(a, p) == AtOption(b, p);
    if a.Some? && b.Some? {
      forall k
        ensures At(a.value, k) == At(b.value, k)
      {
        if Under(p, k) {
          assert AtOption(a, k) == AtOption(b, k);
        }
      }
      TreesEqual(a.value, b.value);
    }
  }

  /** Without refusals that matter the pass gives the tree that the plain pass gives. */
  lemma HarmlessAt(fails: (Tree, Path) -> bool, newRoot: Tree, t: Tree, log: Log, k: Path)
    requires WellFormed(t) && Consistent(newRoot, t, log) && AllIndependent(Paths(log))
    requires RefusalsHarmless(fails, Final(newRoot, t, log), log)
    ensures At(RestorePass(fails, Final(newRoot, t, log), log), k) == At(Restore(Final(newRoot, t, log), log), k)
  {
    hide RestorePass, Restore, Final, WellFormed, Refused, Independent, Consistent;
    var u := Final(newRoot, t, log);
    assert log[..|log|] == log;
    PassAt(fails, newRoot, t, log, |log|, k);
    RestoredAt(newRoot, t, log, k);
    if i :| 0 <= i < |log| && Under(log[i].path, k) {
      forall j | 0 <= j < |log| && j != i
        ensures Independent(log[j].path, k) && !Under(k, log[j].path) && !Under(log[j].path, k)
      {
        OnlyOneAbove(log, i, j, k);
      }
      if Refused(fails, u, log, i) {
        IsNoRoot(fails, u, log, i);
        FinalInside(newRoot, t, log, i, k);
        SavedFromStart(newRoot, t, log, i, k);
      }
    } else {
      FinalOutside(newRoot, t, log, k);
    }
  }

  /** Exact condition for the pass as the server makes it, over an independent log: it brings the
      tree back if and only if no edit created a node below a missing parent and every refused
      entry had changed nothing. */
  lemma PassRestoresExactly(fails: (Tree, Path) -> bool, newRoot: Tree, t: Tree, log: Log)
    requires WellFormed(t) && Consistent(newRoot, t, log) && AllIndependent(Paths(log))
    ensures RestorePass(fails, Final(newRoot, t, log), log) == t <==>
            NoOrphans(t, log) && RefusalsHarmless(fails, Final(newRoot, t, log), log)
  {
    hide RestorePass, Restore, Final, WellFormed, Refused, Independent, NoOrphans, Consistent;
    var u := Final(newRoot, t, log);
    IndependentLogRestores(newRoot, t, log);
    if RefusalsHarmless(fails, u, log) {
      forall k
        ensures At(RestorePass(fails, u, log), k) == At(Restore(u, log), k)
      {
        HarmlessAt(fails, newRoot, t, log, k);
      }
      TreesEqual(RestorePass(fails, u, log), Restore(u, log));
    } else {
      var i :| 0 <= i < |log| && Refused(fails, u, log, i) && log[i].written != log[i].saved;
      RefusedSticks(fails, newRoot, t, log, i);
    }
  }

  /** The restore pass run the other way, from the last entry to the first. */
  function RestoreBackwards(t: Tree, log: Log): Tree
    decreases |log|
  {
    if log == [] then t
    else
      var e := log[|log| - 1];
      RestoreBackwards(Put(t, e.path, e.saved), log[..|log| - 1])
  }

  /** Every saved subtree is one of its path. */
  ghost predicate SavedNodes(log: Log) {
    forall i | 0 <= i < |log| :: log[i].saved.Some? ==> NodeAt(log[i].path, log[i].saved.value)
  }

  /** A replacement at a path independent of the log may as well be made after the restore pass. */
  lemma {:induction false} RestoreCommutes(t: Tree, log: Log, p: Path, s: Option<Tree>)
    requires SavedNodes(log) && (s.Some? ==> NodeAt(p, s.value))
    requires forall i | 0 <= i < |log| :: Independent(log[i].path, p)
    ensures Restore(Put(t, p, s), log) == Put(Restore(t, log), p, s)
  {
    if log != [] {
      var n := |log| - 1;
      assert forall i | 0 <= i < n :: log[..n][i] == log[i];
      RestoreCommutes(t, log[..n], p, s);
      PutsCommute(Restore(t, log[..n]), log[n].path, log[n].saved, p, s);
    }
  }

  /** Over independent paths the order of the pass does not matter: forwards is as good as backwards. */
  lemma {:induction false} ForwardIsBackward(t: Tree, log: Log)
    requires SavedNodes(log) && AllIndependent(Paths(log))
    ensures Restore(t, log) == RestoreBackwards(t, log)
    decreases |log|
  {
    hide Put, Independent, NodeAt;
    if log != [] {
      var n := |log| - 1;
      LastIsIndependent(log);
      ForwardIsBackward(Put(t, log[n].path, log[n].saved), log[..n]);
      RestoreCommutes(t, log[..n], log[n].path, log[n].saved);
    }
  }

  lemma LastIsIndependent(log: Log)
    requires log != [] && SavedNodes(log) && AllIndependent(Paths(log))
    ensures var n := |log| - 1;
      && SavedNodes(log[..n]) && AllIndependent(Paths(log[..n]))
      && (log[n].saved.Some? ==> NodeAt(log[n].path, log[n].saved.value))
      && forall i | 0 <= i < n :: Independent(log[..n][i].path, log[n].path)
  {
    hide Independent, NodeAt;
    var n := |log| - 1;
    assert forall i | 0 <= i < n :: log[..n][i] == log[i] && Paths(log)[i] == log[i].path;
    assert Paths(log[..n]) == Paths(log)[..n] && Paths(log)[n] == log[n].path;
  }

  /** Every edit was made to a proper tree, at a node that had a parent. */
  ghost predicate ProperEdits(newRoot: Tree, t: Tree, log: Log) {
    forall i | 0 <= i < |log| ::
      var before, p := Final(newRoot, t, log[..i]), log[i].path;
      WellFormed(before) && (p != [] ==> p in before || Parent(p) in before)
  }

  lemma UndoOne(newRoot: Tree, t: Tree, e: SetEntry)
    requires WellFormed(t) && (e.path != [] ==> e.path in t || Parent(e.path) in t)
    requires e.saved == Subtree(t, e.path) && (e.written.Some? ==> NodeAt(e.path, e.written.value))
    ensures Put(Apply(newRoot, t, e), e.path, e.saved) == t
  {
    var p := e.path;
    forall k
      ensures At(Put(Apply(newRoot, t, e), p, e.saved), k) == At(t, k)
    {
      SubtreeAt(t, p, k);
      PutAt(Apply(newRoot, t, e), p, e.saved, k);
      if p != [] || e.written.Some? {
        PutAt(t, p, e.written, k);
      }
      if p !in t && Under(p, k) {
        AbsentBelow(t, p, k);
      }
      if Under(k, p) && k != p {
        assert Under(k, Parent(p));
      }
    }
    TreesEqual(Put(Apply(newRoot, t, e), p, e.saved), t);
  }

  /** Backwards the pass would undo every run, overlapping or not: it is its order alone that
      makes the server depend on independent paths. */
  lemma {:induction false} BackwardRestores(newRoot: Tree, t: Tree, log: Log)
    requires Consistent(newRoot, t, log) && ProperEdits(newRoot, t, log)
    ensures RestoreBackwards(Final(newRoot, t, log), log) == t
    decreases |log|
  {
    if log != [] {
      var n := |log| - 1;
      assert forall i | 0 <= i < n :: log[..n][i] == log[i] && log[..n][..i] == log[..i];
      UndoOne(newRoot, Final(newRoot, t, log[..n]), log[n]);
      BackwardRestores(newRoot, t, log[..n]);
    }
  }

  /** The forward pass restores every run over these paths, whatever the tree and the values. */
  ghost predicate AlwaysRestores(newRoot: Tree, ps: seq<Path>) {
    forall t: Tree, log: Log {:trigger Consistent(newRoot, t, log)} ::
      WellFormed(t) && Paths(log) == ps && Consistent(newRoot, t, log) && NoOrphans(t, log)
      ==> Restore(Final(newRoot, t, log), log) == t
  }

  /** Exact condition on the paths: forward replay is a correct undo, for every tree and
      every value written, if and only if the paths are pairwise independent. */
  lemma {:induction false} AlwaysRestoresIffIndependent(newRoot: Tree, ps: seq<Path>)
    ensures AlwaysRestores(newRoot, ps) <==> AllIndependent(ps)
  {
    if AllIndependent(ps) {
      forall t: Tree, log: Log | WellFormed(t) && Paths(log) == ps && Consistent(newRoot, t, log) && NoOrphans(t, log)
        ensures Restore(Final(newRoot, t, log), log) == t
      {
        IndependentLogRestores(newRoot, t, log);
      }
    } else {
      var i, j :| 0 <= i < j < |ps| && !Independent(ps[i], ps[j]);
      OverlapNotRestored(newRoot, ps, i, j);
    }
  }

  // ----- The counterexample for overlapping paths -------------------------------------

  /** The smallest tree holding all of `ps`. */
  function Closure(ps: seq<Path>): Tree {
    if ps == [] then EMPTY_ROOT
    else Graft(Closure(ps[1..]), ps[0], map[ps[0] := Container])
  }

  lemma {:induction false} ClosureHolds(ps: seq<Path>)
    ensures WellFormed(Closure(ps))
    ensures forall i | 0 <= i < |ps| :: ps[i] in Closure(ps)
    ensures forall k :: k in Closure(ps) ==> Closure(ps)[k] == Container
    ensures forall k :: k in Closure(ps) ==> |k| <= Longest(ps)
  {
    if ps != [] {
      ClosureHolds(ps[1..]);
      var s := map[ps[0] := Container];
      forall k | k in Closure(ps)
        ensures k in Closure(ps[1..]) || Under(k, ps[0])
        ensures Closure(ps)[k] == Container
      {
        GraftAt(Closure(ps[1..]), ps[0], s, k);
      }
      forall a, k | k in Closure(ps) && Under(a, k) && a != k
        ensures a in Closure(ps)
      {
        GraftAt(Closure(ps[1..]), ps[0], s, a);
        GraftAt(Closure(ps[1..]), ps[0], s, k);
      }
      forall i | 0 <= i < |ps|
        ensures ps[i] in Closure(ps)
      {
        GraftAt(Closure(ps[1..]), ps[0], s, ps[i]);
        if i > 0 {
          assert ps[i] == ps[1..][i - 1];
        }
      }
    }
  }

  function Longest(ps: seq<Path>): nat {
    if ps == [] then 0
    else
      var m := Longest(ps[1..]);
      if |ps[0]| > m then |ps[0]| else m
  }

  /** A run over `ps` from `t` whose `i`th edit makes it `u` and whose other edits rewrite what is there. */
  function OneChange(t: Tree, u: Tree, ps: seq<Path>, i: nat): Log {
    seq(|ps|, m requires 0 <= m < |ps| =>
      SetEntry(REPLACE, ps[m],
               Subtree(if m <= i then t else u, ps[m]),
               Subtree(if m < i then t else u, ps[m]), true))
  }

  lemma OneChangeNext(t: Tree, u: Tree, ps: seq<Path>, i: nat, n: nat)
    requires n < |ps|
    ensures OneChange(t, u, ps, i)[..n + 1] ==
            OneChange(t, u, ps, i)[..n] +
            [SetEntry(REPLACE, ps[n], Subtree(if n <= i then t else u, ps[n]),
                      Subtree(if n < i then t else u, ps[n]), true)]
  {
  }

  /** What the `n`th replacement puts there. */
  lemma OneChangePut(t: Tree, u: Tree, ps: seq<Path>, i: nat, n: nat)
    requires WellFormed(t) && WellFormed(u) && n < |ps|
    requires i < |ps| ==> Put(t, ps[i], Subtree(u, ps[i])) == u
    ensures Put(if n <= i then t else u, ps[n], Subtree(if n < i then t else u, ps[n])) == if n < i then t else u
  {
    hide Put, Subtree, WellFormed;
    PutSelf(t, ps[n]);
    PutSelf(u, ps[n]);
  }

  lemma {:induction false} OneChangeRuns(newRoot: Tree, t: Tree, u: Tree, ps: seq<Path>, i: nat, n: nat)
    requires WellFormed(t) && WellFormed(u)
    requires forall m | 0 <= m < |ps| :: ps[m] in t && ps[m] in u
    requires n <= |ps| && (i < |ps| ==> Put(t, ps[i], Subtree(u, ps[i])) == u)
    ensures Consistent(newRoot, t, OneChange(t, u, ps, i)[..n])
    ensures Final(newRoot, t, OneChange(t, u, ps, i)[..n]) == if n <= i then t else u
  {
    hide WellFormed, Put, Subtree, NodeAt;
    if n > 0 {
      var m := n - 1;
      var before := OneChange(t, u, ps, i)[..m];
      var saved, written := Subtree(if m <= i then t else u, ps[m]), Subtree(if m < i then t else u, ps[m]);
      OneChangeRuns(newRoot, t, u, ps, i, m);
      OneChangeNext(t, u, ps, i, m);
      OneChangePut(t, u, ps, i, m);
      SubtreeAt(t, ps[m], ps[m]);
      SubtreeAt(u, ps[m], ps[m]);
      EditAppended(newRoot, t, before, SetEntry(REPLACE, ps[m], saved, written, true));
    }
  }

  lemma EditAppended(newRoot: Tree, t: Tree, log: Log, e: SetEntry)
    ensures Final(newRoot, t, log + [e]) == Apply(newRoot, Final(newRoot, t, log), e)
    ensures Consistent(newRoot, t, log + [e]) <==>
            && Consistent(newRoot, t, log) && e.saved == Subtree(Final(newRoot, t, log), e.path)
            && (e.written.Some? ==> NodeAt(e.path, e.written.value))
  {
    hide Apply, Subtree, NodeAt;
    assert (log + [e])[..|log|] == log;
  }

  /** A path saved by a later entry too survives the whole forward pass. */
  lemma {:induction false} LateSaveSticks(t: Tree, log: Log, j: nat, z: Path)
    requires j < |log| && Under(log[j].path, z)
    requires forall m | 0 <= m < |log| :: log[m].saved.Some? && NodeAt(log[m].path, log[m].saved.value)
    requires forall m | j <= m < |log| && Under(log[m].path, z) :: z in log[m].saved.value
    ensures z in Restore(t, log)
  {
    hide Put, NodeAt, Under;
    var n := |log| - 1;
    var before := Restore(t, log[..n]);
    if j < n {
      assert forall m | 0 <= m < n :: log[..n][m] == log[m];
      LateSaveSticks(t, log[..n], j, z);
    }
    PutKeeps(before, log[n].path, log[n].saved.value, z);
  }

  /** A replacement keeps what it contains or does not reach. */
  lemma PutKeeps(t: Tree, p: Path, s: Tree, z: Path)
    requires NodeAt(p, s) && if Under(p, z) then z in s else z in t
    ensures z in Put(t, p, Some(s))
  {
    PutAt(t, p, Some(s), z);
  }

  lemma OneChangeSaves(t: Tree, u: Tree, ps: seq<Path>, i: nat, m: nat)
    requires m < |ps| && ps[m] in t && ps[m] in u
    ensures var e := OneChange(t, u, ps, i)[m];
      && e.path == ps[m]
      && e.saved.Some? && NodeAt(ps[m], e.saved.value)
      && e.saved == Subtree(if m <= i then t else u, ps[m])
  {
  }

  /** `u` is `t` with the node `z` added by an edit at `ps[i]`, and `ps[j]` is edited later at or above `z`. */
  ghost predicate Witness(t: Tree, u: Tree, ps: seq<Path>, i: nat, j: nat, z: Path) {
    && WellFormed(t) && WellFormed(u)
    && (forall m | 0 <= m < |ps| :: ps[m] in t && ps[m] in u)
    && i < j < |ps| && Put(t, ps[i], Subtree(u, ps[i])) == u
    && z !in t && z in u && Under(ps[j], z)
  }

  /** The later edit saves `z`, so the forward pass keeps it. */
  lemma OverlapKeeps(t: Tree, u: Tree, ps: seq<Path>, i: nat, j: nat, z: Path)
    requires Witness(t, u, ps, i, j, z)
    ensures z in Restore(u, OneChange(t, u, ps, i))
  {
    var log := OneChange(t, u, ps, i);
    forall m | 0 <= m < |log|
      ensures log[m].saved.Some? && NodeAt(log[m].path, log[m].saved.value)
      ensures j <= m && Under(log[m].path, z) ==> z in log[m].saved.value
    {
      OneChangeSaves(t, u, ps, i, m);
      SubtreeAt(u, ps[m], z);
    }
    LateSaveSticks(u, log, j, z);
  }

  lemma OneChangeWhole(newRoot: Tree, t: Tree, u: Tree, ps: seq<Path>, i: nat)
    requires WellFormed(t) && WellFormed(u)
    requires forall m | 0 <= m < |ps| :: ps[m] in t && ps[m] in u
    requires i < |ps| && Put(t, ps[i], Subtree(u, ps[i])) == u
    ensures Consistent(newRoot, t, OneChange(t, u, ps, i))
    ensures Final(newRoot, t, OneChange(t, u, ps, i)) == u
  {
    OneChangeRuns(newRoot, t, u, ps, i, |ps|);
    assert OneChange(t, u, ps, i)[..|ps|] == OneChange(t, u, ps, i);
  }

  lemma OneChangePaths(t: Tree, u: Tree, ps: seq<Path>, i: nat)
    ensures Paths(OneChange(t, u, ps, i)) == ps
  {
  }

  lemma NotRestored(newRoot: Tree, t: Tree, log: Log, ps: seq<Path>, z: Path)
    requires WellFormed(t) && Consistent(newRoot, t, log)
    requires Paths(log) == ps && forall p | p in ps :: p in t
    requires z in Restore(Final(newRoot, t, log), log) && z !in t
    ensures !AlwaysRestores(newRoot, ps)
  {
    assert forall m | 0 <= m < |log| :: log[m].path == ps[m];
    assert NoOrphans(t, log);
  }

  /** Whenever two of the paths overlap there is a run the forward pass does not undo. */
  lemma {:induction false} OverlapNotRestored(newRoot: Tree, ps: seq<Path>, i: nat, j: nat)
    requires i < j < |ps| && !Independent(ps[i], ps[j])
    ensures !AlwaysRestores(newRoot, ps)
  {
    var t, u, z := OverlapWitness(ps, i, j);
    OneChangeWhole(newRoot, t, u, ps, i);
    OverlapKeeps(t, u, ps, i, j, z);
    OneChangePaths(t, u, ps, i);
    NotRestored(newRoot, t, OneChange(t, u, ps, i), ps, z);
  }

  lemma OverlapWitness(ps: seq<Path>, i: nat, j: nat) returns (t: Tree, u: Tree, z: Path)
    requires i < j < |ps| && !Independent(ps[i], ps[j])
    ensures Witness(t, u, ps, i, j, z)
  {
    t := Closure(ps);
    ClosureHolds(ps);
    var deep := if Under(ps[i], ps[j]) then ps[j] else ps[i];
    z := deep + seq(Longest(ps) + 1, _ => Elem("x", ""));
    u := Graft(t, z, map[z := Leaf("new")]);
    NewLeaf(t, z, deep);
    NewLeafWithin(t, z, deep, ps[i]);
  }

  lemma NewLeaf(t: Tree, z: Path, deep: Path)
    requires WellFormed(t) && deep in t && Under(deep, z) && deep != z
    requires forall k :: k in t ==> t[k] == Container && !Under(z, k)
    ensures WellFormed(Graft(t, z, map[z := Leaf("new")]))
    ensures z in Graft(t, z, map[z := Leaf("new")]) && z !in t
    ensures forall k :: k in t ==> k in Graft(t, z, map[z := Leaf("new")])
  {
    var s := map[z := Leaf("new")];
    var u := Graft(t, z, s);
    GraftAt(t, z, s, []);
    forall a, k | k in u && Under(a, k) && a != k
      ensures a in u && u[a] == Container
    {
      GraftAt(t, z, s, a);
      GraftAt(t, z, s, k);
      assert At(u, a) == Some(Container);
    }
  }

  lemma NewLeafWithin(t: Tree, z: Path, deep: Path, p: Path)
    requires WellFormed(t) && deep in t && Under(deep, z) && Under(p, deep)
    requires forall k :: k in t ==> t[k] == Container
    ensures var u := Graft(t, z, map[z := Leaf("new")]);
      Put(t, p, Subtree(u, p)) == u
  {
    var s := map[z := Leaf("new")];
    var u := Graft(t, z, s);
    GraftAt(t, z, s, p);
    assert p in u by {
      assert p == deep || p in t;
    }
    forall k
      ensures At(Put(t, p, Subtree(u, p)), k) == At(u, k)
    {
      SubtreeAt(u, p, k);
      PutAt(t, p, Subtree(u, p), k);
      GraftAt(t, z, s, k);
      if Under(k, p) && k != p {
        assert k in t;
      }
      if !Under(p, k) && Under(k, z) && k != z {
        assert Under(k, p);
      }
    }
    TreesEqual(Put(t, p, Subtree(u, p)), u);
  }
}
