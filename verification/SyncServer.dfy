/** The part of the server that keeps the sync index, step by step on its own fields. */
module SyncServer {
  import opened DataTree
  import opened EventModel
  import opened Replica
  import SetModel
  import opened SyncModel

  class Server {
    const hasSchema: Path -> bool
    const minInterval: int
    const treeFails: (Tree, Path) -> bool     // the tree library refuses the edit

    var root: Tree
    var syncEvents: seq<Path>        // the registered path of every sync receiver
    var syncPath: SyncIndex

    /** The registrations are schema paths and the index holds exactly the nodes they require. */
    ghost predicate Valid()
      reads this
    {
      AllSchemaPaths(syncEvents) && Agrees(root, syncEvents, syncPath)
    }

    constructor (hasSchema: Path -> bool, minInterval: int, treeFails: (Tree, Path) -> bool, root: Tree)
      ensures Valid() && this.root == root && syncEvents == [] && syncPath == map[]
      ensures this.hasSchema == hasSchema && this.minInterval == minInterval && this.treeFails == treeFails
    {
      this.hasSchema, this.minInterval, this.treeFails, this.root := hasSchema, minInterval, treeFails, root;
      syncEvents, syncPath := [], map[];
    }

    /** Adds the nodes found for a path, with a zero time. */
    method AddFound(path: Path)
      modifies this`syncPath
      ensures syncPath == AddAll(old(syncPath), Find(root, PatternOf(path)))
    {
      hide Find, PatternOf;
      var found := Find(root, PatternOf(path));
      var todo := found;
      while todo != {}
        invariant todo <= found
        invariant syncPath == AddAll(old(syncPath), found - todo)
        decreases todo
      {
        var p :| p in todo;
        syncPath := syncPath[p := None];
        todo := todo - {p};
      }
    }

    method RegisterSync(paths: seq<Path>) returns (ok: bool)
      modifies this`syncEvents, this`syncPath
      ensures (ok, syncEvents, syncPath) == Registers(hasSchema, root, old(syncEvents), old(syncPath), paths)
      ensures old(Valid()) && AllSchemaPaths(paths) ==> Valid()
    {
      var i := 0;
      assert paths[0..] == paths;
      while i < |paths|
        invariant i <= |paths|
        invariant Registers(hasSchema, root, old(syncEvents), old(syncPath), paths)
               == Registers(hasSchema, root, syncEvents, syncPath, paths[i..])
      {
        assert paths[i..][0] == paths[i] && paths[i..][1..] == paths[i + 1..];
        if !hasSchema(Strip(paths[i])) {
          ok := false;
          break;
        }
        syncEvents := syncEvents + [paths[i]];
        AddFound(paths[i]);
        i := i + 1;
      }
      ok := i == |paths|;
      if old(Valid()) && AllSchemaPaths(paths) {
        RegistersAgree(hasSchema, root, old(syncEvents), old(syncPath), paths);
      }
    }

    /** The first registration with the schema of `path`. */
    method FindEvent(path: Path) returns (i: nat)
      ensures i == FirstWith(syncEvents, path) && i <= |syncEvents|
    {
      i := 0;
      assert syncEvents[0..] == syncEvents;
      while i < |syncEvents| && !SameSchema(syncEvents[i], path)
        invariant i <= |syncEvents|
        invariant FirstWith(syncEvents, path) == i + FirstWith(syncEvents[i..], path)
      {
        i := i + 1;
      }
    }

    /** Empties the index and looks the nodes of every registration up again. */
    method Refill()
      modifies this`syncPath
      ensures syncPath == Rebuild(root, syncEvents)
    {
      hide AddAll, Find, PatternOf;
      syncPath := map[];
      var i := 0;
      while i < |syncEvents|
        invariant i <= |syncEvents|
        invariant syncPath == Rebuild(root, syncEvents[..i])
      {
        assert syncEvents[..i + 1][..i] == syncEvents[..i];
        AddFound(syncEvents[i]);
        i := i + 1;
      }
      assert syncEvents[..|syncEvents|] == syncEvents;
    }

    /** Drops the registrations, and rebuilds the index unless a path had none. */
    method UnregisterSync(paths: seq<Path>) returns (ok: bool)
      modifies this`syncEvents, this`syncPath
      ensures (ok, syncEvents) == Removes(hasSchema, old(syncEvents), paths)
      ensures ok == (StopsAt(hasSchema, old(syncEvents), paths, 0) == |paths|)
      ensures syncPath == if ok then Rebuild(root, syncEvents) else old(syncPath)
      ensures old(AllSchemaPaths(syncEvents)) && ok ==> Valid()
      ensures old(Valid()) && !ok ==>
                (Valid() <==> KeepsRequired(root, old(syncEvents),
                                            paths[..StopsAt(hasSchema, old(syncEvents), paths, 0)]))
    {
      hide FirstWith, StopsAt, Rebuild, AllSchemaPaths, Agrees, KeepsRequired, SameSchema;
      UnregisterFacts(hasSchema, root, syncEvents, syncPath, paths);
      var i := 0;
      assert paths[0..] == paths;
      while i < |paths|
        invariant i <= |paths| && syncPath == old(syncPath)
        invariant Removes(hasSchema, old(syncEvents), paths) == Removes(hasSchema, syncEvents, paths[i..])
      {
        assert paths[i..][0] == paths[i] && paths[i..][1..] == paths[i + 1..];
        if !hasSchema(Strip(paths[i])) {
          return false;
        }
        var n := FindEvent(paths[i]);
        if n == |syncEvents| {
          return false;
        }
        syncEvents := syncEvents[..n] + syncEvents[n + 1..];
        i := i + 1;
      }
      assert paths[i..] == [];
      Refill();
      ok := true;
    }

    /** One event, at every sync receiver it reaches. */
    method EventReceive(typ: EventType, path: Path)
      modifies this`syncPath
      ensures syncPath == Touch(syncEvents, old(syncPath), typ, path)
    {
      var i := 0;
      while i < |syncEvents|
        invariant i <= |syncEvents|
        invariant syncPath == Touch(syncEvents[..i], old(syncPath), typ, path)
      {
        var reg := syncEvents[i];
        ghost var before := syncPath;
        if Concerns(reg, path) {
          match typ
          case EventCreate => syncPath := syncPath[path := None];
          case EventReplace =>
          case EventDelete => syncPath := syncPath - {path};
        }
        assert forall j | 0 <= j < i :: syncEvents[..i + 1][j] == syncEvents[..i][j];
        assert syncEvents[..i + 1][i] == reg;
        i := i + 1;
      }
      assert syncEvents[..|syncEvents|] == syncEvents;
    }

    method EventReceiveAll(typ: EventType, paths: seq<Path>)
      modifies this`syncPath
      ensures syncPath == TouchAll(syncEvents, old(syncPath), typ, paths)
    {
      var i := 0;
      while i < |paths|
        invariant i <= |paths|
        invariant syncPath == TouchAll(syncEvents, old(syncPath), typ, paths[..i])
      {
        assert paths[..i + 1][..i] == paths[..i];
        EventReceive(typ, paths[i]);
        i := i + 1;
      }
      assert paths[..|paths|] == paths;
    }

    /** Merging: the data first, then the events of the complete difference. */
    method Merge(path: Path, node: Tree) returns (ghost c: seq<Path>, ghost r: seq<Path>)
      requires NodeAt(path, node)
      modifies this`root, this`syncPath
      ensures root == Graft(old(root), path, node)
      ensures Lists(c, Created(old(root), root)) && Lists(r, Replaced(old(root), root))
      ensures syncPath == TouchAll(syncEvents, TouchAll(syncEvents, old(syncPath), EventCreate, c), EventReplace, r)
      ensures old(Valid()) ==> Valid()
    {
      var merged := Graft(root, path, node);
      var created := Enumerate(Created(root, merged));
      var replaced := Enumerate(Replaced(root, merged));
      c, r := created, replaced;
      root := merged;
      EventReceiveAll(EventCreate, created);
      ghost var middle := syncPath;
      EventReceiveAll(EventReplace, replaced);
      if old(Valid()) {
        CreateAgrees(old(root), root, syncEvents, old(syncPath), created);
        forall k
          ensures k in syncPath <==> k in middle
        {
          TouchAllKeys(syncEvents, middle, EventReplace, replaced, k);
        }
      }
    }

    /** Deleting one node: the events first, then the data, unless the removal is refused. */
    method DeleteNode(path: Path) returns (ok: bool)
      requires path in root
      modifies this`root, this`syncPath
      ensures ok == (path == [] || !treeFails(old(root), path))
      ensures root == Removed(old(root), path, !ok)
      ensures syncPath == old(syncPath) - Dropped(old(root), syncEvents, {path})
      ensures old(Valid()) ==>
                (Valid() <==> (ok && path != []) || NothingRequired(old(root), syncEvents, path))
    {
      var deleted := Enumerate(Below(root, path));
      EventReceiveAll(EventDelete, deleted);
      ok := path == [] || !treeFails(root, path);
      if ok && path != [] {
        root := Prune(root, path);
      }
      TouchAllDeleted(syncEvents, old(syncPath), deleted);
      assert (set k | k in deleted && IsConcern(syncEvents, k)) == Dropped(old(root), syncEvents, {path}) by {
        hide IsConcern;
        assert forall k :: k in deleted <==> k in Below(old(root), path);
        assert forall k :: Under(path, k) ==> exists p :: p in {path} && Under(p, k);
      }
      if old(Valid()) {
        if ok && path != [] {
          DeleteAgrees(old(root), path, syncEvents, old(syncPath), deleted);
        } else {
          KeptDeleteAgreesExactly(root, path, syncEvents, old(syncPath), deleted);
        }
      }
    }

    /** Deletes the nodes a path selects, one after the other, up to the first whose removal is
        refused: `done` are gone then, and `stuck` is the refused one. */
    method Delete(pat: Pattern) returns (ok: bool, ghost done: set<Path>, ghost stuck: set<Path>)
      modifies this`root, this`syncPath
      ensures done + stuck <= Find(old(root), pat) && done !! stuck && |stuck| <= 1 && (ok <==> stuck == {})
      ensures ok ==> done == Find(old(root), pat)
      ensures forall p :: p in stuck ==> p != [] && treeFails(root, p)
      ensures root == DeletedSoFar(old(root), pat, done)
      ensures syncPath == old(syncPath) - Dropped(old(root), syncEvents, done + stuck)
      ensures old(Valid()) ==> (Valid() <==> NothingRequiredBelow(root, syncEvents, Kept(pat, done, stuck)))
    {
      hide NothingRequiredBelow, NothingRequired, Valid, Deleting, Find, Kept, Dropped, DeletedSoFar, Removed;
      ghost var found := Find(root, pat);
      done, stuck := {}, {};
      var todo := Find(root, pat);
      DeletingStart(root, syncEvents, syncPath, pat);
      while todo != {}
        invariant done + todo == found && done !! todo && stuck == {}
        invariant Deleting(old(root), syncEvents, old(syncPath), pat, done, root, syncPath)
        invariant old(Valid()) ==> (Valid() <==> NothingRequiredBelow(root, syncEvents, Kept(pat, done, {})))
        decreases todo
      {
        var p :| p in todo;
        ghost var before, index := root, syncPath;
        DeletingThere(old(root), syncEvents, old(syncPath), pat, done, root, syncPath, p);
        KeptBefore(old(root), syncEvents, root, pat, done, p);
        ok := DeleteNode(p);
        DeletingNext(old(root), syncEvents, old(syncPath), pat, done, before, index, p, !ok);
        todo := todo - {p};
        if !ok {
          stuck := {p};
          return;
        }
        done := done + {p};
      }
      assert done == found;
      DeletingEnd(old(root), syncEvents, old(syncPath), pat, root, syncPath);
      assert found + {} == found;
      ok := true;
    }

    /** A Set or Load leaves another tree and raises no event: the index agrees afterwards if and
        only if the same nodes are required. */
    method Commit(env: SetModel.Env, setSeq: nat, calls: seq<SetModel.Call>, tx: SetModel.Tx)
      returns (st: SetModel.State, err: Option<SetModel.Error>)
      modifies this`root
      ensures root == st.root
      ensures var (last, e, _) := SetModel.Transact(env, SetModel.State(old(root), setSeq, [], calls), tx);
        (st, err) == (last, e)
      ensures old(Valid()) ==> (Valid() <==> Required(root, syncEvents) == Required(old(root), syncEvents))
    {
      hide SetModel.Transact;
      var (last, e, _) := SetModel.Transact(env, SetModel.State(root, setSeq, [], calls), tx);
      st, err := last, e;
      root := st.root;
    }

    /** Requests a sync of the matched nodes that are due; `cur` is the clock before the loop
        and `now` the clock when a node is recorded. */
    method SyncExec(matched: set<Path>, cur: int, now: Path -> int) returns (tosend: seq<Path>)
      requires matched <= syncPath.Keys
      modifies this`syncPath
      ensures forall p :: p in tosend <==> p in Sent(old(syncPath), minInterval, SyncCall(matched, cur, now))
      ensures forall i, j | 0 <= i < j < |tosend| :: tosend[i] != tosend[j]
      ensures syncPath == SyncOnce(old(syncPath), minInterval, SyncCall(matched, cur, now))
    {
      tosend := [];
      var todo := matched;
      while todo != {}
        invariant todo <= matched && syncPath.Keys == old(syncPath.Keys)
        invariant forall p :: p in tosend <==> p in matched - todo && Due(old(syncPath)[p], cur, minInterval)
        invariant forall i, j | 0 <= i < j < |tosend| :: tosend[i] != tosend[j]
        invariant forall p :: p in syncPath ==>
                    syncPath[p] == if p in matched - todo && Due(old(syncPath)[p], cur, minInterval) then Some(now(p))
                                   else old(syncPath)[p]
        decreases todo
      {
        var p :| p in todo;
        todo := todo - {p};
        var last := syncPath[p];
        if Due(last, cur, minInterval) {
          syncPath := syncPath[p := Some(now(p))];
          tosend := tosend + [p];
        }
      }
    }
  }

  /** The nodes whose deletion was reported and that are still there. */
  ghost function Kept(pat: Pattern, done: set<Path>, stuck: set<Path>): set<Path> {
    if pat == [] then done + stuck else stuck
  }

  /** The deletion of the nodes of `pat` has removed `done` and taken the index along. */
  ghost predicate Deleting(t: Tree, regs: seq<Path>, index: SyncIndex, pat: Pattern, done: set<Path>,
                           root: Tree, now: SyncIndex)
  {
    done <= Find(t, pat) && root == DeletedSoFar(t, pat, done) && now == index - Dropped(t, regs, done)
  }

  lemma DeletingStart(t: Tree, regs: seq<Path>, index: SyncIndex, pat: Pattern)
    ensures Deleting(t, regs, index, pat, {}, t, index)
    ensures NothingRequiredBelow(t, regs, Kept(pat, {}, {}))
  {
    NothingDeleted(t, pat);
    assert Dropped(t, regs, {}) == {};
  }

  lemma DeletingThere(t: Tree, regs: seq<Path>, index: SyncIndex, pat: Pattern, done: set<Path>,
                      root: Tree, now: SyncIndex, p: Path)
    requires Deleting(t, regs, index, pat, done, root, now) && p in Find(t, pat) - done
    ensures p in root
  {
    hide Dropped;
    DeletedNext(t, pat, done, p);
  }

  lemma DeletingNext(t: Tree, regs: seq<Path>, index: SyncIndex, pat: Pattern, done: set<Path>,
                     root: Tree, now: SyncIndex, p: Path, refused: bool)
    requires Deleting(t, regs, index, pat, done, root, now) && p in Find(t, pat) - done
    ensures var next, after := Removed(root, p, refused), now - Dropped(root, regs, {p});
      && (!refused ==> Deleting(t, regs, index, pat, done + {p}, next, after))
      && (refused ==> next == root == DeletedSoFar(t, pat, done) && after == index - Dropped(t, regs, done + {p}))
  {
    hide Dropped, DeletedSoFar;
    DeletedNext(t, pat, done, p);
    DroppedNext(t, pat, regs, done, p);
  }

  lemma DeletingEnd(t: Tree, regs: seq<Path>, index: SyncIndex, pat: Pattern, root: Tree, now: SyncIndex)
    requires Deleting(t, regs, index, pat, Find(t, pat), root, now)
    ensures root == DeletedSoFar(t, pat, Find(t, pat)) && now == index - Dropped(t, regs, Find(t, pat))
  {
  }

  /** Before the next node goes nothing is kept: the root is alone in what its pattern finds. */
  lemma KeptBefore(t: Tree, regs: seq<Path>, root: Tree, pat: Pattern, done: set<Path>, p: Path)
    requires done <= Find(t, pat) && p in Find(t, pat) - done
    ensures p == [] <==> pat == []
    ensures NothingRequiredBelow(root, regs, Kept(pat, done, {}))
    ensures NothingRequiredBelow(root, regs, Kept(pat, done, {p})) <==> NothingRequired(root, regs, p)
    ensures pat == [] ==> Removed(root, p, false) == root
    ensures NothingRequiredBelow(Removed(root, p, false), regs, Kept(pat, done + {p}, {})) <==>
            p != [] || NothingRequired(root, regs, p)
    ensures Removed(root, p, true) == root
  {
    hide NothingRequired;
    if pat == [] {
      assert done == {};
    }
  }

  lemma UnregisterFacts(hasSchema: Path -> bool, root: Tree, regs: seq<Path>, index: SyncIndex, paths: seq<Path>)
    ensures var (ok, left) := Removes(hasSchema, regs, paths);
      var n := StopsAt(hasSchema, regs, paths, 0);
      && ok == (n == |paths|)
      && (AllSchemaPaths(regs) ==> AllSchemaPaths(left) && Agrees(root, left, Rebuild(root, left)))
      && (Agrees(root, regs, index) ==> (Agrees(root, left, index) <==> KeepsRequired(root, regs, paths[..n])))
  {
    hide Removes, StopsAt, Rebuild, Agrees, AllSchemaPaths, KeepsRequired;
    RemovesExactly(hasSchema, regs, paths);
    if AllSchemaPaths(regs) {
      RemovesKeeps(hasSchema, regs, paths);
      RebuildAgrees(root, Removes(hasSchema, regs, paths).1);
    }
    if Agrees(root, regs, index) {
      FailedRemovalExactly(root, regs, index, hasSchema, paths);
    }
  }

  /** What one more deletion drops: the earlier ones took nothing below it away. */
  lemma DroppedNext(t: Tree, pat: Pattern, regs: seq<Path>, done: set<Path>, p: Path)
    requires done < Find(t, pat) && p in Find(t, pat) && p !in done
    ensures Dropped(t, regs, done + {p}) == Dropped(t, regs, done) + Dropped(DeletedSoFar(t, pat, done), regs, {p})
  {
    hide IsConcern;
    forall q | q in done
      ensures Independent(p, q)
    {
      FoundAreIndependent(pat, p, q);
    }
    forall k | k in t && Under(p, k)
      ensures k in DeletedSoFar(t, pat, done) || k in Dropped(t, regs, done)
    {
    }
  }
}
