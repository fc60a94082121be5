/** The index of sync-required nodes: which nodes it holds after registrations and data
    changes, and how often one node may be asked for. */
module SyncModel {
  import opened DataTree
  import opened EventModel
  import opened Replica

  /** When the last sync of a node was requested; None for the zero time. */
  type SyncTime = Option<int>

  type SyncIndex = map<Path, SyncTime>

  /** A registered path as a lookup pattern: an element without keys finds every list entry. */
  function PatternOf(reg: Path): Pattern {
    seq(|reg|, i requires 0 <= i < |reg| => if reg[i].keys == "" then AnyKeys(reg[i].name) else Exact(reg[i]))
  }

  function AddAll(index: SyncIndex, ps: set<Path>): SyncIndex {
    index + (map p | p in ps :: None)
  }

  /** Schema nodes are identified by their schema path. */
  predicate SameSchema(p: Path, q: Path) {
    Strip(p) == Strip(q)
  }

  // ----- Events -------------------------------------------------------------------------

  /** The event reaches the sync receiver of `reg` and is for its schema. */
  predicate Concerns(reg: Path, p: Path) {
    Deliveries({Render(reg)}, p) > 0 && SameSchema(p, reg)
  }

  predicate IsConcern(regs: seq<Path>, p: Path) {
    exists i | 0 <= i < |regs| :: Concerns(regs[i], p)
  }

  function Touch(regs: seq<Path>, index: SyncIndex, typ: EventType, p: Path): SyncIndex {
    if IsConcern(regs, p) then
      match typ
      case EventCreate => index[p := None]
      case EventReplace => index
      case EventDelete => index - {p}
    else index
  }

  function TouchAll(regs: seq<Path>, index: SyncIndex, typ: EventType, ps: seq<Path>): SyncIndex {
    if ps == [] then index
    else Touch(regs, TouchAll(regs, index, typ, ps[..|ps| - 1]), typ, ps[|ps| - 1])
  }

  /** Which event changes what: a creation resets the time of its node, a deletion takes it out, if
      a receiver of its schema is reached; a replacement, and every other event, changes nothing. */
  lemma TouchExactly(regs: seq<Path>, index: SyncIndex, typ: EventType, p: Path)
    ensures var next := Touch(regs, index, typ, p);
      var reached := exists i | 0 <= i < |regs| ::
                       Strip(regs[i]) == Strip(p) && Deliveries({Render(regs[i])}, p) > 0;
      && (reached && typ == EventCreate ==> next == index[p := None])
      && (reached && typ == EventDelete ==> next == index - {p})
      && (!reached || typ == EventReplace ==> next == index)
  {
  }

  lemma {:induction false} TouchAllDeleted(regs: seq<Path>, index: SyncIndex, ps: seq<Path>)
    ensures TouchAll(regs, index, EventDelete, ps) == index - (set p | p in ps && IsConcern(regs, p))
    decreases |ps|
  {
    hide IsConcern;
    if ps != [] {
      var before, p := ps[..|ps| - 1], ps[|ps| - 1];
      TouchAllDeleted(regs, index, before);
      assert (set q | q in ps && IsConcern(regs, q)) ==
             (set q | q in before && IsConcern(regs, q)) + if IsConcern(regs, p) then {p} else {};
    }
  }

  /** The nodes below `ps` whose deletion reaches a sync receiver of their schema. */
  function Dropped(root: Tree, regs: seq<Path>, ps: set<Path>): set<Path> {
    set k | k in root && IsConcern(regs, k) && exists p :: p in ps && Under(p, k)
  }

  // ----- Registrations ------------------------------------------------------------------

  /** Registers the paths up to the first one without a schema. */
  function Registers(hasSchema: Path -> bool, root: Tree, regs: seq<Path>, index: SyncIndex, paths: seq<Path>)
    : (bool, seq<Path>, SyncIndex)
    decreases |paths|
  {
    if paths == [] then (true, regs, index)
    else if !hasSchema(Strip(paths[0])) then (false, regs, index)
    else Registers(hasSchema, root, regs + [paths[0]], AddAll(index, Find(root, PatternOf(paths[0]))), paths[1..])
  }

  /** The position of the first registration with the schema of `p`. */
  function FirstWith(regs: seq<Path>, p: Path): nat {
    if regs == [] || SameSchema(regs[0], p) then 0 else 1 + FirstWith(regs[1..], p)
  }

  /** Drops one registration per path, up to the first path that has none. */
  function Removes(hasSchema: Path -> bool, regs: seq<Path>, paths: seq<Path>): (bool, seq<Path>)
    decreases |paths|
  {
    if paths == [] then (true, regs)
    else
      var i := FirstWith(regs, paths[0]);
      if !hasSchema(Strip(paths[0])) || i >= |regs| then (false, regs)
      else Removes(hasSchema, regs[..i] + regs[i + 1..], paths[1..])
  }

  function Rebuild(root: Tree, regs: seq<Path>): SyncIndex {
    if regs == [] then map[]
    else AddAll(Rebuild(root, regs[..|regs| - 1]), Find(root, PatternOf(regs[|regs| - 1])))
  }

  // ----- Agreement ----------------------------------------------------------------------

  predicate HasRegistration(regs: seq<Path>, p: Path) {
    exists i | 0 <= i < |regs| :: SameSchema(p, regs[i])
  }

  /** The nodes whose schema is registered. */
  function Required(root: Tree, regs: seq<Path>): set<Path> {
    set p | p in root && HasRegistration(regs, p)
  }

  ghost predicate Agrees(root: Tree, regs: seq<Path>, index: SyncIndex) {
    index.Keys == Required(root, regs)
  }

  /** Registered without list keys. */
  predicate IsSchemaPath(reg: Path) {
    Strip(reg) == reg
  }

  predicate AllSchemaPaths(regs: seq<Path>) {
    forall i | 0 <= i < |regs| :: IsSchemaPath(regs[i])
  }

  /** A schema path finds exactly the nodes of that schema. */
  lemma SchemaPathFinds(root: Tree, reg: Path, p: Path)
    requires IsSchemaPath(reg)
    ensures p in Find(root, PatternOf(reg)) <==> p in root && SameSchema(p, reg)
  {
  }

  /** An event for a node of a schema path always reaches its receiver. */
  lemma SchemaPathHears(reg: Path, p: Path)
    requires IsSchemaPath(reg)
    ensures Concerns(reg, p) <==> SameSchema(p, reg)
  {
    if SameSchema(p, reg) {
      HeardIff(Render(reg), p);
      assert Strip(p) == reg;
    }
  }

  lemma {:induction false} TouchAllKeys(regs: seq<Path>, index: SyncIndex, typ: EventType, ps: seq<Path>, k: Path)
    requires AllSchemaPaths(regs)
    ensures k in TouchAll(regs, index, typ, ps) <==>
            match typ
            case EventCreate => k in index || (k in ps && HasRegistration(regs, k))
            case EventReplace => k in index
            case EventDelete => k in index && !(k in ps && HasRegistration(regs, k))
    decreases |ps|
  {
    if ps != [] {
      var p := ps[|ps| - 1];
      TouchAllKeys(regs, index, typ, ps[..|ps| - 1], k);
      assert k in ps <==> k in ps[..|ps| - 1] || k == p;
      forall i | 0 <= i < |regs|
        ensures Concerns(regs[i], p) <==> SameSchema(p, regs[i])
      {
        SchemaPathHears(regs[i], p);
      }
    }
  }

  /** Merging data keeps the index in agreement, through the creation events alone. */
  lemma CreateAgrees(root: Tree, merged: Tree, regs: seq<Path>, index: SyncIndex, created: seq<Path>)
    requires AllSchemaPaths(regs) && Agrees(root, regs, index)
    requires root.Keys <= merged.Keys && Lists(created, Created(root, merged))
    ensures Agrees(merged, regs, TouchAll(regs, index, EventCreate, created))
  {
    forall k
      ensures k in TouchAll(regs, index, EventCreate, created) <==> k in Required(merged, regs)
    {
      TouchAllKeys(regs, index, EventCreate, created, k);
      assert k in created <==> k in Created(root, merged);
    }
  }

  /** Deleting a node keeps the index in agreement, through the deletion events alone. */
  lemma DeleteAgrees(root: Tree, path: Path, regs: seq<Path>, index: SyncIndex, deleted: seq<Path>)
    requires AllSchemaPaths(regs) && Agrees(root, regs, index)
    requires Lists(deleted, Below(root, path))
    ensures Agrees(Prune(root, path), regs, TouchAll(regs, index, EventDelete, deleted))
  {
    forall k
      ensures k in TouchAll(regs, index, EventDelete, deleted) <==> k in Required(Prune(root, path), regs)
    {
      TouchAllKeys(regs, index, EventDelete, deleted, k);
      assert k in deleted <==> k in Below(root, path);
    }
  }

  /** No node at or below `p` is required. */
  predicate NothingRequired(root: Tree, regs: seq<Path>, p: Path) {
    forall k | k in Below(root, p) :: !HasRegistration(regs, k)
  }

  /** The same for all of `ps`. */
  predicate NothingRequiredBelow(root: Tree, regs: seq<Path>, ps: set<Path>) {
    forall p | p in ps :: NothingRequired(root, regs, p)
  }

  /** A deletion that removes nothing, refused or of the root, raises its events all the same:
      the index still agrees if and only if no reported node was required. */
  lemma KeptDeleteAgreesExactly(root: Tree, path: Path, regs: seq<Path>, index: SyncIndex, deleted: seq<Path>)
    requires AllSchemaPaths(regs) && Agrees(root, regs, index)
    requires Lists(deleted, Below(root, path))
    ensures Agrees(root, regs, TouchAll(regs, index, EventDelete, deleted)) <==> NothingRequired(root, regs, path)
  {
    forall k
      ensures k in TouchAll(regs, index, EventDelete, deleted) <==>
              k in Required(root, regs) && k !in Below(root, path)
    {
      TouchAllKeys(regs, index, EventDelete, deleted, k);
      assert k in deleted <==> k in Below(root, path);
    }
    if k :| k in Below(root, path) && HasRegistration(regs, k) {
      assert k in Required(root, regs);
    }
  }

  /** The input that shows it: the one registered node deleted, and kept. */
  lemma KeptDeleteDisagrees(a: Path, index: SyncIndex)
    requires IsSchemaPath(a) && Agrees(Lone(a), [a], index)
    ensures !Agrees(Lone(a), [a], TouchAll([a], index, EventDelete, Between(a, a)))
    ensures !Agrees(Lone(a), [a], TouchAll([a], index, EventDelete, Between([], a)))
  {
    hide Lone;
    LoneAt(a, a);
    BetweenLists(a, a);
    BetweenLists([], a);
    assert HasRegistration([a], a) by {
      assert SameSchema(a, [a][0]);
    }
    KeptDeleteAgreesExactly(Lone(a), a, [a], index, Between(a, a));
    KeptDeleteAgreesExactly(Lone(a), [], [a], index, Between([], a));
    assert a in Below(Lone(a), a) && a in Below(Lone(a), []);
  }

  /** The input for a tree exchanged without events: the one registered node is gone. */
  lemma ExchangeDisagrees(a: Path, index: SyncIndex)
    requires a != [] && Agrees(Lone(a), [a], index)
    ensures !Agrees(EMPTY_ROOT, [a], index)
  {
    hide Lone;
    LoneAt(a, a);
    assert HasRegistration([a], a) by {
      assert SameSchema(a, [a][0]);
    }
    assert a in Required(Lone(a), [a]) && a !in Required(EMPTY_ROOT, [a]);
  }

  lemma AddedAgrees(root: Tree, regs: seq<Path>, index: SyncIndex, reg: Path)
    requires IsSchemaPath(reg) && Agrees(root, regs, index)
    ensures Agrees(root, regs + [reg], AddAll(index, Find(root, PatternOf(reg))))
  {
    forall k
      ensures k in AddAll(index, Find(root, PatternOf(reg))) <==> k in Required(root, regs + [reg])
    {
      SchemaPathFinds(root, reg, k);
      HasRegistrationSnoc(regs, reg, k);
    }
  }

  lemma HasRegistrationSnoc(regs: seq<Path>, reg: Path, k: Path)
    ensures HasRegistration(regs + [reg], k) <==> HasRegistration(regs, k) || SameSchema(k, reg)
  {
    var all := regs + [reg];
    assert all[|regs|] == reg;
    assert forall i | 0 <= i < |regs| :: all[i] == regs[i];
  }

  /** Registering keeps the index in agreement, also when it stops at an unknown path. */
  lemma {:induction false} RegistersAgree(hasSchema: Path -> bool, root: Tree, regs: seq<Path>, index: SyncIndex,
                                          paths: seq<Path>)
    requires AllSchemaPaths(regs) && AllSchemaPaths(paths) && Agrees(root, regs, index)
    ensures var (_, regs', index') := Registers(hasSchema, root, regs, index, paths);
      AllSchemaPaths(regs') && Agrees(root, regs', index')
    decreases |paths|
  {
    if paths != [] && hasSchema(Strip(paths[0])) {
      AddedAgrees(root, regs, index, paths[0]);
      RegistersAgree(hasSchema, root, regs + [paths[0]], AddAll(index, Find(root, PatternOf(paths[0]))), paths[1..]);
    }
  }

  /** The first path without a schema. */
  function FirstUnknown(hasSchema: Path -> bool, paths: seq<Path>): (n: nat)
    ensures n <= |paths| && forall i | 0 <= i < n :: hasSchema(Strip(paths[i]))
    ensures n < |paths| ==> !hasSchema(Strip(paths[n]))
    decreases |paths|
  {
    if paths == [] || !hasSchema(Strip(paths[0])) then 0 else 1 + FirstUnknown(hasSchema, paths[1..])
  }

  /** The nodes a registered path names: the same names, and the same keys where it gives any. */
  predicate Names(reg: Path, p: Path) {
    && |p| == |reg|
    && forall i | 0 <= i < |reg| ::
         p[i].name == reg[i].name && (reg[i].keys == "" || p[i].keys == reg[i].keys)
  }

  lemma FoundExactly(root: Tree, reg: Path, p: Path)
    ensures p in Find(root, PatternOf(reg)) <==> p in root && Names(reg, p)
  {
  }

  /** One of the paths names the node. */
  predicate NamedByAny(paths: seq<Path>, p: Path) {
    exists i | 0 <= i < |paths| :: Names(paths[i], p)
  }

  /** Registering succeeds exactly when every path has a schema, registers the paths before the
      first that has none, in order, and adds exactly the nodes they name, with a zero time. */
  lemma {:induction false} RegistersExactly(hasSchema: Path -> bool, root: Tree, regs: seq<Path>, index: SyncIndex,
                                            paths: seq<Path>)
    ensures var (ok, regs', index') := Registers(hasSchema, root, regs, index, paths);
      var n := FirstUnknown(hasSchema, paths);
      && ok == (n == |paths|)
      && regs' == regs + paths[..n]
      && forall p ::
           && (p in index' <==> p in index || (p in root && NamedByAny(paths[..n], p)))
           && (p in index' ==> index'[p] == if p in root && NamedByAny(paths[..n], p) then None else index[p])
    decreases |paths|
  {
    hide Names, Find, PatternOf;
    if paths == [] || !hasSchema(Strip(paths[0])) {
      assert paths[..0] == [] && regs + [] == regs;
    } else {
      var rest, found := paths[1..], Find(root, PatternOf(paths[0]));
      var n := FirstUnknown(hasSchema, rest);
      RegistersExactly(hasSchema, root, regs + [paths[0]], AddAll(index, found), rest);
      assert paths[..n + 1] == [paths[0]] + rest[..n];
      assert regs + [paths[0]] + rest[..n] == regs + paths[..n + 1];
      forall p
        ensures p in found <==> p in root && Names(paths[0], p)
        ensures NamedByAny(paths[..n + 1], p) <==> Names(paths[0], p) || NamedByAny(rest[..n], p)
      {
        FoundExactly(root, paths[0], p);
        NamedCons(paths[0], rest[..n], p);
      }
    }
  }

  lemma NamedCons(first: Path, rest: seq<Path>, p: Path)
    ensures NamedByAny([first] + rest, p) <==> Names(first, p) || NamedByAny(rest, p)
  {
    hide Names;
    var all := [first] + rest;
    assert all[0] == first && forall i | 0 <= i < |rest| :: all[i + 1] == rest[i];
  }

  /** The rebuilt index agrees, so keeping it up event by event equals rebuilding it. */
  lemma {:induction false} RebuildAgrees(root: Tree, regs: seq<Path>)
    requires AllSchemaPaths(regs)
    ensures Agrees(root, regs, Rebuild(root, regs))
    decreases |regs|
  {
    if regs != [] {
      var n := |regs| - 1;
      RebuildAgrees(root, regs[..n]);
      AddedAgrees(root, regs[..n], Rebuild(root, regs[..n]), regs[n]);
      assert regs == regs[..n] + [regs[n]];
    }
  }

  lemma {:induction false} RemovesKeeps(hasSchema: Path -> bool, regs: seq<Path>, paths: seq<Path>)
    requires AllSchemaPaths(regs)
    ensures AllSchemaPaths(Removes(hasSchema, regs, paths).1)
    decreases |paths|
  {
    if paths != [] {
      var i := FirstWith(regs, paths[0]);
      if hasSchema(Strip(paths[0])) && i < |regs| {
        var rest := regs[..i] + regs[i + 1..];
        assert forall j | 0 <= j < |rest| :: rest[j] == regs[if j < i then j else j + 1];
        RemovesKeeps(hasSchema, rest, paths[1..]);
      }
    }
  }

  /** The number of paths with the schema of `k`. */
  function CountSchema(ps: seq<Path>, k: Path): nat {
    if ps == [] then 0
    else CountSchema(ps[..|ps| - 1], k) + if SameSchema(k, ps[|ps| - 1]) then 1 else 0
  }

  /** The path has a schema, and more registrations than earlier paths of the call use up. */
  predicate Removable(hasSchema: Path -> bool, regs: seq<Path>, paths: seq<Path>, m: nat)
    requires m < |paths|
  {
    hasSchema(Strip(paths[m])) && CountSchema(regs, paths[m]) > CountSchema(paths[..m], paths[m])
  }

  /** The first path, from the `m`th on, at which an unregistration stops. */
  function StopsAt(hasSchema: Path -> bool, regs: seq<Path>, paths: seq<Path>, m: nat): (n: nat)
    requires m <= |paths|
    ensures m <= n <= |paths|
    decreases |paths| - m
  {
    if m == |paths| || !Removable(hasSchema, regs, paths, m) then m else StopsAt(hasSchema, regs, paths, m + 1)
  }

  /** Every node of the tree with a registration has more of them than `gone` takes away. */
  predicate KeepsRequired(root: Tree, regs: seq<Path>, gone: seq<Path>) {
    forall k | k in root && CountSchema(regs, k) > 0 :: CountSchema(regs, k) > CountSchema(gone, k)
  }

  lemma {:induction false} CountPositive(ps: seq<Path>, k: Path)
    ensures CountSchema(ps, k) > 0 <==> HasRegistration(ps, k)
  {
    if ps != [] {
      var n := |ps| - 1;
      CountPositive(ps[..n], k);
      HasRegistrationSnoc(ps[..n], ps[n], k);
      assert ps == ps[..n] + [ps[n]];
    }
  }

  lemma {:induction false} CountAppend(a: seq<Path>, b: seq<Path>, k: Path)
    ensures CountSchema(a + b, k) == CountSchema(a, k) + CountSchema(b, k)
    decreases |b|
  {
    if b == [] {
      assert a + b == a;
    } else {
      var n := |b| - 1;
      CountAppend(a, b[..n], k);
      assert (a + b)[..|a + b| - 1] == a + b[..n] && (a + b)[|a + b| - 1] == b[n];
    }
  }

  lemma CountOne(p: Path, k: Path)
    ensures CountSchema([p], k) == if SameSchema(k, p) then 1 else 0
  {
    assert [p][..0] == [];
  }

  lemma {:induction false} FirstWithFound(regs: seq<Path>, p: Path)
    ensures FirstWith(regs, p) < |regs| <==> CountSchema(regs, p) > 0
    ensures FirstWith(regs, p) < |regs| ==> SameSchema(regs[FirstWith(regs, p)], p)
    ensures forall j | 0 <= j < FirstWith(regs, p) && j < |regs| :: !SameSchema(regs[j], p)
    decreases |regs|
  {
    if regs != [] {
      FirstWithFound(regs[1..], p);
      CountAppend([regs[0]], regs[1..], p);
      CountOne(regs[0], p);
      assert regs == [regs[0]] + regs[1..];
    }
  }

  /** Dropping a registration takes one away from its own schema. */
  lemma CountWithout(regs: seq<Path>, i: nat, k: Path)
    requires i < |regs|
    ensures CountSchema(regs[..i] + regs[i + 1..], k) == CountSchema(regs, k) - if SameSchema(k, regs[i]) then 1 else 0
  {
    assert regs == regs[..i] + ([regs[i]] + regs[i + 1..]);
    CountAppend(regs[..i], [regs[i]] + regs[i + 1..], k);
    CountAppend([regs[i]], regs[i + 1..], k);
    CountAppend(regs[..i], regs[i + 1..], k);
    CountOne(regs[i], k);
  }

  /** The first `m` paths have been unregistered and `now` is left. */
  ghost predicate Unregistered(hasSchema: Path -> bool, regs: seq<Path>, paths: seq<Path>, m: nat, now: seq<Path>)
    requires m <= |paths|
  {
    && Removes(hasSchema, regs, paths) == Removes(hasSchema, now, paths[m..])
    && forall k :: CountSchema(now, k) == CountSchema(regs, k) - CountSchema(paths[..m], k)
  }

  lemma {:induction false} RemovesCounted(hasSchema: Path -> bool, regs: seq<Path>, paths: seq<Path>, m: nat,
                                          now: seq<Path>)
    requires m <= |paths| && Unregistered(hasSchema, regs, paths, m, now)
    ensures var (ok, left) := Removes(hasSchema, regs, paths);
      var n := StopsAt(hasSchema, regs, paths, m);
      ok == (n == |paths|) && forall k :: CountSchema(left, k) == CountSchema(regs, k) - CountSchema(paths[..n], k)
    decreases |paths| - m
  {
    if m < |paths| {
      var i := FirstWith(now, paths[m]);
      FirstWithFound(now, paths[m]);
      assert paths[m..][0] == paths[m] && paths[m..][1..] == paths[m + 1..];
      if Removable(hasSchema, regs, paths, m) {
        forall k
          ensures CountSchema(now[..i] + now[i + 1..], k) == CountSchema(regs, k) - CountSchema(paths[..m + 1], k)
        {
          CountWithout(now, i, k);
          assert paths[..m + 1][..m] == paths[..m];
        }
        RemovesCounted(hasSchema, regs, paths, m + 1, now[..i] + now[i + 1..]);
      }
    }
  }

  /** Unregistering succeeds exactly when every path is removable, and takes one registration
      away for each path up to the first that is not. */
  lemma RemovesExactly(hasSchema: Path -> bool, regs: seq<Path>, paths: seq<Path>)
    ensures var (ok, left) := Removes(hasSchema, regs, paths);
      var n := StopsAt(hasSchema, regs, paths, 0);
      ok == (n == |paths|) && forall k :: CountSchema(left, k) == CountSchema(regs, k) - CountSchema(paths[..n], k)
  {
    assert paths[0..] == paths;
    RemovesCounted(hasSchema, regs, paths, 0, regs);
  }

  /** An unregistration that stops early leaves the index as it was.  The index still agrees if
      and only if the paths before the stop left a registration to every node that had one. */
  lemma FailedRemovalExactly(root: Tree, regs: seq<Path>, index: SyncIndex, hasSchema: Path -> bool, paths: seq<Path>)
    requires Agrees(root, regs, index)
    ensures var left := Removes(hasSchema, regs, paths).1;
      Agrees(root, left, index) <==> KeepsRequired(root, regs, paths[..StopsAt(hasSchema, regs, paths, 0)])
  {
    var left := Removes(hasSchema, regs, paths).1;
    var gone := paths[..StopsAt(hasSchema, regs, paths, 0)];
    RemovesExactly(hasSchema, regs, paths);
    forall k
      ensures HasRegistration(regs, k) <==> CountSchema(regs, k) > 0
      ensures HasRegistration(left, k) <==> CountSchema(regs, k) > CountSchema(gone, k)
    {
      CountPositive(regs, k);
      CountPositive(left, k);
    }
    if KeepsRequired(root, regs, gone) {
      assert Required(root, left) == Required(root, regs);
    } else {
      var k :| k in root && CountSchema(regs, k) > 0 && CountSchema(regs, k) <= CountSchema(gone, k);
      assert k in Required(root, regs) && k !in Required(root, left);
    }
  }

  /** Registering one schema path in the tree that holds only its node. */
  lemma LoneRegistration(hasSchema: Path -> bool, a: Path)
    requires IsSchemaPath(a) && hasSchema(a)
    ensures var (ok, regs, index) := Registers(hasSchema, Lone(a), [], map[], [a]);
      ok && regs == [a] && Agrees(Lone(a), regs, index)
  {
    hide Lone, Find;
    assert [] + [a] == [a] && [a][1..] == [];
    assert Required(Lone(a), []) == {};
    AddedAgrees(Lone(a), [], map[], a);
  }

  lemma StopsAtUnknown(hasSchema: Path -> bool, a: Path, b: Path)
    requires IsSchemaPath(a) && hasSchema(a) && !hasSchema(Strip(b))
    ensures StopsAt(hasSchema, [a], [a, b], 0) == 1 && [a, b][..1] == [a]
  {
    CountOne(a, a);
    assert [a, b][..0] == [];
    assert Removable(hasSchema, [a], [a, b], 0) && !Removable(hasSchema, [a], [a, b], 1);
  }

  /** The input that shows it: one registered path, unregistered together with an unknown one. */
  lemma FailedRemovalDisagrees(hasSchema: Path -> bool, a: Path, b: Path)
    requires IsSchemaPath(a) && hasSchema(a) && !hasSchema(Strip(b))
    ensures var (_, regs, index) := Registers(hasSchema, Lone(a), [], map[], [a]);
      var (ok, left) := Removes(hasSchema, regs, [a, b]);
      Agrees(Lone(a), regs, index) && !ok && !Agrees(Lone(a), left, index)
  {
    hide Registers, Removes, StopsAt, Agrees, Lone;
    LoneRegistration(hasSchema, a);
    LoneAt(a, a);
    CountOne(a, a);
    StopsAtUnknown(hasSchema, a, b);
    RemovesExactly(hasSchema, [a], [a, b]);
    FailedRemovalExactly(Lone(a), [a], Registers(hasSchema, Lone(a), [], map[], [a]).2, hasSchema, [a, b]);
  }

  /** Exactly the schema paths can be registered in agreement: a path with list keys misses
      nodes of its own schema. */
  lemma RegistersAgreeExactly(hasSchema: Path -> bool, reg: Path)
    requires hasSchema(Strip(reg))
    ensures IsSchemaPath(reg) <==>
            forall root {:trigger WellFormed(root)} :: WellFormed(root) ==>
              var (_, regs, index) := Registers(hasSchema, root, [], map[], [reg]);
              Agrees(root, regs, index)
  {
    assert forall root :: Registers(hasSchema, root, [], map[], [reg]) ==
                          (true, [reg], AddAll(map[], Find(root, PatternOf(reg)))) by {
      assert [] + [reg] == [reg];
    }
    if IsSchemaPath(reg) {
      forall root | WellFormed(root)
        ensures var (_, regs, index) := Registers(hasSchema, root, [], map[], [reg]); Agrees(root, regs, index)
      {
        AddedAgrees(root, [], map[], reg);
        assert [] + [reg] == [reg];
      }
    } else {
      var p := Strip(reg);
      var root := Lone(p);
      LoneAt(p, p);
      assert Strip(p) == p && SameSchema(p, [reg][0]);
      assert p in Required(root, [reg]);
      KeyedPathMisses(root, reg);
      assert p !in AddAll(map[], Find(root, PatternOf(reg)));
    }
  }

  lemma KeyedPathMisses(root: Tree, reg: Path)
    requires !IsSchemaPath(reg)
    ensures Strip(reg) !in Find(root, PatternOf(reg))
  {
  }

  // ----- The rate limit -----------------------------------------------------------------

  /** Whether a sync may be requested again; a clock set back also allows it. */
  predicate Due(last: SyncTime, cur: int, interval: int) {
    last.None? || cur - last.value > interval || cur - last.value < -interval
  }

  /** One sync request matching the node: the clock when it came in, and when it was recorded. */
  datatype Request = Request(cur: int, now: int)

  ghost predicate ClockRuns(reqs: seq<Request>) {
    && (forall i | 0 <= i < |reqs| :: reqs[i].cur <= reqs[i].now)
    && (forall i, j | 0 <= i < j < |reqs| :: reqs[i].now <= reqs[j].cur)
  }

  function LastTime(last: SyncTime, interval: int, reqs: seq<Request>): SyncTime {
    if reqs == [] then last
    else
      var t := LastTime(last, interval, reqs[..|reqs| - 1]);
      if Due(t, reqs[|reqs| - 1].cur, interval) then Some(reqs[|reqs| - 1].now) else t
  }

  /** The times at which the system was asked for the node. */
  function Asked(last: SyncTime, interval: int, reqs: seq<Request>): seq<int> {
    if reqs == [] then []
    else
      var before := reqs[..|reqs| - 1];
      Asked(last, interval, before) +
      if Due(LastTime(last, interval, before), reqs[|reqs| - 1].cur, interval) then [reqs[|reqs| - 1].now] else []
  }

  lemma {:induction false} AskedSpaced(last: SyncTime, interval: int, reqs: seq<Request>)
    requires interval > 0 && ClockRuns(reqs)
    ensures var asked := Asked(last, interval, reqs);
      && (if asked == [] then LastTime(last, interval, reqs) == last
          else LastTime(last, interval, reqs) == Some(asked[|asked| - 1]) && asked[|asked| - 1] <= reqs[|reqs| - 1].now)
      && (forall i | 0 <= i < |asked| - 1 :: asked[i + 1] - asked[i] > interval)
    decreases |reqs|
  {
    hide Asked, LastTime, ClockRuns, Due;
    if reqs == [] {
      NothingAsked(last, interval);
    } else {
      var before, r := reqs[..|reqs| - 1], reqs[|reqs| - 1];
      ClockRan(reqs);
      AskedSpaced(last, interval, before);
      AskedSnoc(last, interval, before, r);
      assert before + [r] == reqs;
      var asked := Asked(last, interval, before);
      assert asked + [] == asked;
      if before == [] {
        NothingAsked(last, interval);
      }
      if asked != [] && Due(LastTime(last, interval, before), r.cur, interval) {
        DueAfter(asked[|asked| - 1], r.cur, interval);
      }
    }
  }

  /** What is due after an earlier time is due by more than the interval. */
  lemma DueAfter(time: int, cur: int, interval: int)
    requires interval > 0 && time <= cur && Due(Some(time), cur, interval)
    ensures cur - time > interval
  {
  }

  lemma ClockRan(reqs: seq<Request>)
    requires reqs != [] && ClockRuns(reqs)
    ensures var n := |reqs| - 1;
      && ClockRuns(reqs[..n]) && reqs[n].cur <= reqs[n].now
      && (n > 0 ==> reqs[..n][n - 1].now <= reqs[n].cur)
  {
    assert forall i | 0 <= i < |reqs| - 1 :: reqs[..|reqs| - 1][i] == reqs[i];
  }

  lemma OneMore(n: nat, interval: int)
    ensures n * interval + interval == (n + 1) * interval
  {
  }

  /** A minimum interval is kept over any run: `k` requests span more than `k - 1` intervals. */
  lemma {:induction false} RateBound(last: SyncTime, interval: int, reqs: seq<Request>, i: nat, j: nat)
    requires interval > 0 && ClockRuns(reqs)
    requires i < j < |Asked(last, interval, reqs)|
    ensures Asked(last, interval, reqs)[j] - Asked(last, interval, reqs)[i] > (j - i) * interval
    decreases j
  {
    hide Asked, ClockRuns;
    var asked := Asked(last, interval, reqs);
    AskedSpaced(last, interval, reqs);
    assert asked[j - 1 + 1] - asked[j - 1] > interval;
    if i + 1 < j {
      RateBound(last, interval, reqs, i, j - 1);
      OneMore(j - 1 - i, interval);
    }
  }

  /** A node is withheld exactly when its last request is at most the interval old, or that far
      ahead of a clock that was set back. */
  lemma WithheldExactly(index: SyncIndex, interval: int, c: SyncCall, p: Path)
    requires p in c.matched && p in index
    ensures p !in Sent(index, interval, c) <==>
            index[p].Some? && -interval <= c.cur - index[p].value <= interval
    ensures SyncOnce(index, interval, c)[p] == if p in Sent(index, interval, c) then Some(c.now(p)) else index[p]
  {
  }

  // ----- Runs of the server's sync ------------------------------------------------------

  /** One sync: the nodes it matches, the clock when it starts, and the clock when a node is recorded. */
  datatype SyncCall = SyncCall(matched: set<Path>, cur: int, now: Path -> int)

  function Sent(index: SyncIndex, interval: int, c: SyncCall): set<Path> {
    set p | p in c.matched && p in index && Due(index[p], c.cur, interval)
  }

  function SyncOnce(index: SyncIndex, interval: int, c: SyncCall): SyncIndex {
    map p | p in index :: if p in Sent(index, interval, c) then Some(c.now(p)) else index[p]
  }

  function SyncAll(index: SyncIndex, interval: int, calls: seq<SyncCall>): SyncIndex {
    if calls == [] then index
    else SyncOnce(SyncAll(index, interval, calls[..|calls| - 1]), interval, calls[|calls| - 1])
  }

  /** When `p` was sent to the system over a run of calls. */
  function SentTimes(index: SyncIndex, interval: int, calls: seq<SyncCall>, p: Path): seq<int> {
    if calls == [] then []
    else
      var before, c := calls[..|calls| - 1], calls[|calls| - 1];
      SentTimes(index, interval, before, p) +
      if p in Sent(SyncAll(index, interval, before), interval, c) then [c.now(p)] else []
  }

  /** The calls that match `p`. */
  function RequestsFor(calls: seq<SyncCall>, p: Path): seq<Request> {
    if calls == [] then []
    else
      var c := calls[|calls| - 1];
      RequestsFor(calls[..|calls| - 1], p) + if p in c.matched then [Request(c.cur, c.now(p))] else []
  }

  /** The clock never runs backwards, over the calls that match `p`. */
  ghost predicate CallsInOrder(calls: seq<SyncCall>, p: Path) {
    && (forall i | 0 <= i < |calls| && p in calls[i].matched :: calls[i].cur <= calls[i].now(p))
    && (forall i, j | 0 <= i < j < |calls| && p in calls[i].matched :: calls[i].now(p) <= calls[j].cur)
  }

  lemma {:induction false} RequestsFromCalls(calls: seq<SyncCall>, p: Path, r: Request)
    requires r in RequestsFor(calls, p)
    ensures exists i :: 0 <= i < |calls| && p in calls[i].matched && r == Request(calls[i].cur, calls[i].now(p))
    decreases |calls|
  {
    var n := |calls| - 1;
    if r in RequestsFor(calls[..n], p) {
      RequestsFromCalls(calls[..n], p, r);
      var i :| 0 <= i < n && p in calls[..n][i].matched && r == Request(calls[..n][i].cur, calls[..n][i].now(p));
      assert calls[..n][i] == calls[i];
    }
  }

  lemma {:induction false} RequestsInOrder(calls: seq<SyncCall>, p: Path)
    requires CallsInOrder(calls, p)
    ensures ClockRuns(RequestsFor(calls, p))
    decreases |calls|
  {
    if calls != [] {
      var n := |calls| - 1;
      assert forall i | 0 <= i < n :: calls[..n][i] == calls[i];
      RequestsInOrder(calls[..n], p);
      forall r | r in RequestsFor(calls[..n], p)
        ensures r.now <= calls[n].cur
      {
        RequestsFromCalls(calls[..n], p, r);
      }
    }
  }

  lemma AskedSnoc(last: SyncTime, interval: int, reqs: seq<Request>, r: Request)
    ensures var t := LastTime(last, interval, reqs);
      && LastTime(last, interval, reqs + [r]) == (if Due(t, r.cur, interval) then Some(r.now) else t)
      && Asked(last, interval, reqs + [r]) ==
         Asked(last, interval, reqs) + if Due(t, r.cur, interval) then [r.now] else []
  {
    hide Due;
    assert (reqs + [r])[..|reqs|] == reqs;
  }

  /** One call as one node sees it. */
  lemma SyncOnceAt(index: SyncIndex, interval: int, c: SyncCall, p: Path)
    requires p in index
    ensures p in SyncOnce(index, interval, c)
    ensures p in Sent(index, interval, c) <==> p in c.matched && Due(index[p], c.cur, interval)
    ensures SyncOnce(index, interval, c)[p] == if p in Sent(index, interval, c) then Some(c.now(p)) else index[p]
  {
    hide Due;
  }

  /** Node by node a run of calls is the rate limiter: the times a node is sent are those asked for. */
  lemma {:induction false} SentIsAsked(index: SyncIndex, interval: int, calls: seq<SyncCall>, p: Path)
    requires p in index
    ensures p in SyncAll(index, interval, calls)
    ensures SyncAll(index, interval, calls)[p] == LastTime(index[p], interval, RequestsFor(calls, p))
    ensures SentTimes(index, interval, calls, p) == Asked(index[p], interval, RequestsFor(calls, p))
    decreases |calls|
  {
    hide SyncOnce, Sent, Due, LastTime, Asked;
    if calls == [] {
      NothingAsked(index[p], interval);
    } else {
      var before, c := calls[..|calls| - 1], calls[|calls| - 1];
      SentIsAsked(index, interval, before, p);
      SyncOnceAt(SyncAll(index, interval, before), interval, c, p);
      var reqs := RequestsFor(before, p);
      AskedSnoc(index[p], interval, reqs, Request(c.cur, c.now(p)));
      assert reqs + [] == reqs && SentTimes(index, interval, before, p) + [] == SentTimes(index, interval, before, p);
    }
  }

  lemma NothingAsked(last: SyncTime, interval: int)
    ensures LastTime(last, interval, []) == last && Asked(last, interval, []) == []
  {
  }

  /** The rate limit of the server: over any run of syncs two sends of one node are more than
      as many intervals apart as there are sends from one to the other. */
  lemma SendsAreSpaced(index: SyncIndex, interval: int, calls: seq<SyncCall>, p: Path, i: nat, j: nat)
    requires p in index && interval > 0 && CallsInOrder(calls, p)
    requires i < j < |SentTimes(index, interval, calls, p)|
    ensures SentTimes(index, interval, calls, p)[j] - SentTimes(index, interval, calls, p)[i] > (j - i) * interval
  {
    RequestsInOrder(calls, p);
    SentIsAsked(index, interval, calls, p);
    RateBound(index[p], interval, RequestsFor(calls, p), i, j);
  }

  // ----- Runs that renew the index ------------------------------------------------------

  /** What happens to the index: a sync, or a change of its nodes and their times by a
      registration, a rebuild or events. */
  datatype SyncAction = Syncs(call: SyncCall) | Renews(index: SyncIndex)

  function Act(index: SyncIndex, interval: int, a: SyncAction): SyncIndex {
    match a
    case Syncs(c) => SyncOnce(index, interval, c)
    case Renews(next) => next
  }

  function Acts(index: SyncIndex, interval: int, actions: seq<SyncAction>): SyncIndex {
    if actions == [] then index
    else Act(Acts(index, interval, actions[..|actions| - 1]), interval, actions[|actions| - 1])
  }

  function TimeOf(index: SyncIndex, p: Path): SyncTime {
    if p in index then index[p] else None
  }

  /** How often the time of `p` was changed, or lost, other than by a sync. */
  function Resets(index: SyncIndex, interval: int, actions: seq<SyncAction>, p: Path): nat {
    if actions == [] then 0
    else
      var before, last := actions[..|actions| - 1], actions[|actions| - 1];
      var changed := TimeOf(Acts(index, interval, actions), p) != TimeOf(Acts(index, interval, before), p);
      Resets(index, interval, before, p) + if last.Renews? && changed then 1 else 0
  }

  /** A send of a node: when, and how often its time had been reset before. */
  datatype Sending = Sending(time: int, resets: nat)

  function Sends(index: SyncIndex, interval: int, actions: seq<SyncAction>, p: Path): seq<Sending> {
    if actions == [] then []
    else
      var before, last := actions[..|actions| - 1], actions[|actions| - 1];
      Sends(index, interval, before, p) +
      if last.Syncs? && p in Sent(Acts(index, interval, before), interval, last.call)
      then [Sending(last.call.now(p), Resets(index, interval, before, p))] else []
  }

  /** The clock never runs backwards over the syncs of a run. */
  ghost predicate ActionsInOrder(actions: seq<SyncAction>, p: Path) {
    && (forall i | 0 <= i < |actions| && actions[i].Syncs? :: actions[i].call.cur <= actions[i].call.now(p))
    && (forall i, j | 0 <= i < j < |actions| && actions[i].Syncs? && actions[j].Syncs? ::
          actions[i].call.now(p) <= actions[j].call.cur)
  }

  /** Two sends next to each other are in order, and more than the interval apart if the time was
      not reset in between. */
  ghost predicate Spaced(sends: seq<Sending>, interval: int) {
    forall i | 0 < i < |sends| ::
      && sends[i - 1].time <= sends[i].time && sends[i - 1].resets <= sends[i].resets
      && (sends[i - 1].resets == sends[i].resets ==> sends[i].time - sends[i - 1].time > interval)
  }

  /** What the index knows of the last send: its time, unless it has been reset. */
  ghost predicate Remembers(sends: seq<Sending>, resets: nat, last: SyncTime, actions: seq<SyncAction>, p: Path) {
    sends != [] ==>
      var s := sends[|sends| - 1];
      && s.resets <= resets && (s.resets == resets ==> last == Some(s.time))
      && exists i :: 0 <= i < |actions| && actions[i].Syncs? && s.time == actions[i].call.now(p)
  }

  lemma ActionsBefore(actions: seq<SyncAction>, p: Path)
    requires actions != [] && ActionsInOrder(actions, p)
    ensures ActionsInOrder(actions[..|actions| - 1], p)
  {
    assert forall i | 0 <= i < |actions| - 1 :: actions[..|actions| - 1][i] == actions[i];
  }

  lemma ActionsSnoc(index: SyncIndex, interval: int, before: seq<SyncAction>, a: SyncAction, p: Path)
    ensures var now, all := Acts(index, interval, before), before + [a];
      var next := Act(now, interval, a);
      && Acts(index, interval, all) == next
      && Resets(index, interval, all, p) ==
         Resets(index, interval, before, p) + (if a.Renews? && TimeOf(next, p) != TimeOf(now, p) then 1 else 0)
      && Sends(index, interval, all, p) ==
         Sends(index, interval, before, p) +
         (if a.Syncs? && p in Sent(now, interval, a.call)
          then [Sending(a.call.now(p), Resets(index, interval, before, p))] else [])
  {
    hide Act, Sent, TimeOf;
    assert (before + [a])[..|before|] == before;
  }

  lemma NoActions(index: SyncIndex, interval: int, p: Path)
    ensures Acts(index, interval, []) == index
    ensures Resets(index, interval, [], p) == 0 && Sends(index, interval, [], p) == []
  {
  }

  lemma {:induction false} SendsRemembered(index: SyncIndex, interval: int, actions: seq<SyncAction>, p: Path)
    requires interval > 0 && ActionsInOrder(actions, p)
    ensures Spaced(Sends(index, interval, actions, p), interval)
    ensures Remembers(Sends(index, interval, actions, p), Resets(index, interval, actions, p),
                      TimeOf(Acts(index, interval, actions), p), actions, p)
    decreases |actions|
  {
    hide SyncOnce, Sent, Due, TimeOf, ActionsInOrder, Spaced, Remembers, Acts, Resets, Sends;
    if actions == [] {
      NoActions(index, interval, p);
      NoSends(interval, p);
    } else {
      var before, last := actions[..|actions| - 1], actions[|actions| - 1];
      ActionsBefore(actions, p);
      SendsRemembered(index, interval, before, p);
      ActionsSnoc(index, interval, before, last, p);
      var now, sends := Acts(index, interval, before), Sends(index, interval, before, p);
      var resets := Resets(index, interval, before, p);
      assert sends + [] == sends && before + [last] == actions;
      match last
      case Syncs(c) => SyncRemembered(now, interval, before, c, p, sends, resets);
      case Renews(next) => StillRemembered(sends, resets, TimeOf(now, p), TimeOf(next, p), before, last, p);
    }
  }

  lemma NoSends(interval: int, p: Path)
    ensures Spaced([], interval) && forall t, actions :: Remembers([], 0, t, actions, p)
  {
  }

  /** A longer run and the same sends; a time that changes has been reset. */
  lemma StillRemembered(sends: seq<Sending>, resets: nat, last: SyncTime, next: SyncTime,
                        before: seq<SyncAction>, action: SyncAction, p: Path)
    requires Remembers(sends, resets, last, before, p)
    ensures Remembers(sends, resets + if next != last then 1 else 0, next, before + [action], p)
  {
    if sends != [] {
      var s := sends[|sends| - 1];
      var i :| 0 <= i < |before| && before[i].Syncs? && s.time == before[i].call.now(p);
      assert (before + [action])[i] == before[i];
    }
  }

  /** A send recorded by a sync is due, and so comes after the last one. */
  lemma SendInOrder(sends: seq<Sending>, resets: nat, last: SyncTime, before: seq<SyncAction>, c: SyncCall, p: Path,
                    interval: int)
    requires interval > 0 && ActionsInOrder(before + [Syncs(c)], p) && Due(last, c.cur, interval)
    requires Remembers(sends, resets, last, before, p) && sends != []
    ensures var s := sends[|sends| - 1];
      s.time <= c.now(p) && s.resets <= resets && (s.resets == resets ==> c.now(p) - s.time > interval)
  {
    var actions := before + [Syncs(c)];
    var s := sends[|sends| - 1];
    var i :| 0 <= i < |before| && before[i].Syncs? && s.time == before[i].call.now(p);
    assert actions[i] == before[i] && actions[|before|] == Syncs(c);
    assert actions[i].call.now(p) <= actions[|before|].call.cur <= actions[|before|].call.now(p);
  }

  lemma SpacedSnoc(sends: seq<Sending>, s: Sending, interval: int)
    requires Spaced(sends, interval)
    requires sends != [] ==>
               var last := sends[|sends| - 1];
               && last.time <= s.time && last.resets <= s.resets
               && (last.resets == s.resets ==> s.time - last.time > interval)
    ensures Spaced(sends + [s], interval)
  {
    var all := sends + [s];
    forall i | 0 < i < |all|
      ensures all[i - 1].time <= all[i].time && all[i - 1].resets <= all[i].resets
      ensures all[i - 1].resets == all[i].resets ==> all[i].time - all[i - 1].time > interval
    {
      if i < |sends| {
        assert all[i] == sends[i] && all[i - 1] == sends[i - 1];
      }
    }
  }

  lemma NewlyRemembered(sends: seq<Sending>, resets: nat, before: seq<SyncAction>, c: SyncCall, p: Path)
    ensures Remembers(sends + [Sending(c.now(p), resets)], resets, Some(c.now(p)), before + [Syncs(c)], p)
  {
    assert (before + [Syncs(c)])[|before|] == Syncs(c);
  }

  /** One sync. */
  lemma SyncRemembered(now: SyncIndex, interval: int, before: seq<SyncAction>, c: SyncCall, p: Path,
                       sends: seq<Sending>, resets: nat)
    requires interval > 0 && Spaced(sends, interval) && ActionsInOrder(before + [Syncs(c)], p)
    requires Remembers(sends, resets, TimeOf(now, p), before, p)
    ensures var all := sends + if p in Sent(now, interval, c) then [Sending(c.now(p), resets)] else [];
      Spaced(all, interval) && Remembers(all, resets, TimeOf(SyncOnce(now, interval, c), p), before + [Syncs(c)], p)
  {
    hide Spaced, Remembers, ActionsInOrder, Due;
    if p in Sent(now, interval, c) {
      SyncOnceAt(now, interval, c, p);
      if sends != [] {
        SendInOrder(sends, resets, TimeOf(now, p), before, c, p, interval);
      }
      SpacedSnoc(sends, Sending(c.now(p), resets), interval);
      NewlyRemembered(sends, resets, before, c, p);
    } else {
      assert sends + [] == sends;
      assert TimeOf(SyncOnce(now, interval, c), p) == TimeOf(now, p);
      StillRemembered(sends, resets, TimeOf(now, p), TimeOf(now, p), before, Syncs(c), p);
    }
  }

  /** One more gap `g` after `k` intervals' worth of sends: with `m` resets in it, it may be empty. */
  lemma AddGap(k: int, m: int, a: int, g: int, interval: int)
    requires interval > 0 && a >= 0 && g >= 0 && m >= 0
    requires (k > 0 ==> a > k * interval) && (m == 0 ==> g > interval)
    ensures k + 1 - m > 0 ==> a + g > (k + 1 - m) * interval
  {
    if k + 1 - m > 0 {
      if m == 0 {
        assert (k + 1) * interval == k * interval + interval;
      } else {
        assert k * interval == (k + 1 - m) * interval + (m - 1) * interval;
        assert (m - 1) * interval >= 0;
      }
    }
  }

  lemma {:induction false} SpacedBound(sends: seq<Sending>, interval: int, i: nat, j: nat)
    requires interval > 0 && Spaced(sends, interval) && i < j < |sends|
    ensures var n := sends[j].resets - sends[i].resets;
      && n >= 0 && sends[j].time >= sends[i].time
      && (j - i > n ==> sends[j].time - sends[i].time > (j - i - n) * interval)
    decreases j
  {
    var last, prior := sends[j], sends[j - 1];
    assert prior.time <= last.time && prior.resets <= last.resets;
    if i + 1 < j {
      SpacedBound(sends, interval, i, j - 1);
    }
    var first := sends[i];
    AddGap(j - 1 - i - (prior.resets - first.resets), last.resets - prior.resets,
           prior.time - first.time, last.time - prior.time, interval);
  }

  /** The rate limit over whole runs, in which registrations, rebuilds and events may reset the
      time of a node: between two sends each reset can cost one interval, and no more. */
  lemma SendsAreSpacedWithResets(index: SyncIndex, interval: int, actions: seq<SyncAction>, p: Path, i: nat, j: nat)
    requires interval > 0 && ActionsInOrder(actions, p)
    requires i < j < |Sends(index, interval, actions, p)|
    ensures var sends := Sends(index, interval, actions, p);
      var n := sends[j].resets - sends[i].resets;
      0 <= n && (j - i > n ==> sends[j].time - sends[i].time > (j - i - n) * interval)
  {
    SendsRemembered(index, interval, actions, p);
    SpacedBound(Sends(index, interval, actions, p), interval, i, j);
  }
}
