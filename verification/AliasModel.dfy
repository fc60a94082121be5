/** The alias tables of a subscribe session: what every update keeps, and which conversions
    between aliases and paths can be undone. */
module AliasModel {
  import opened DataTree

  /** A gNMI path; a nil path is `None`. */
  datatype GPath = GPath(target: string, origin: string, elems: Path)

  datatype AliasEntry = AliasEntry(name: string, path: string, gpath: Path, isServer: bool)

  /** The forward table maps names to entries, the reverse table path strings to entries. */
  datatype Tables = Tables(forward: map<string, AliasEntry>, backward: map<string, AliasEntry>)

  const EMPTY_TABLES := Tables(map[], map[])

  /** The path conversions and checks of the path library. */
  datatype PathLib = PathLib(
    parse: string -> Option<Path>,         // a path string as elements
    dataPath: Path -> Option<string>,      // valid elements as a path string
    hasWildcards: Path -> bool,
    validPath: Path -> bool)

  predicate HasHash(s: string) {
    |s| > 0 && s[0] == '#'
  }

  // ----- Client aliases -----------------------------------------------------------------

  /** A client's alias; no elements ask for its deletion. */
  datatype ClientAlias = ClientAlias(name: string, elems: Path)

  datatype AliasError =
    | EmptyAlias | NoHash | Wildcard | InvalidAliasPath
    | PathTaken(owner: string)
    | NameTaken(path: string)

  function ClientUpdate(lib: PathLib, t: Tables, a: ClientAlias): (Tables, Option<AliasError>) {
    if a.name == "" then (t, Some(EmptyAlias))
    else if !HasHash(a.name) then (t, Some(NoHash))
    else if a.elems == [] then
      if a.name in t.forward then
        (Tables(t.forward - {a.name}, t.backward - {t.forward[a.name].path}), None)
      else (t, None)
    else if lib.hasWildcards(a.elems) then (t, Some(Wildcard))
    else if lib.dataPath(a.elems).None? then (t, Some(InvalidAliasPath))
    else if !lib.validPath(a.elems) then (t, Some(InvalidAliasPath))
    else
      var path := lib.dataPath(a.elems).value;
      if path in t.backward then (t, Some(PathTaken(t.backward[path].name)))
      else if a.name in t.forward then (t, Some(NameTaken(t.forward[a.name].path)))
      else
        var e := AliasEntry(a.name, path, a.elems, false);
        (Tables(t.forward[a.name := e], t.backward[path := e]), None)
  }

  /** All updates applied one after the other, whatever each of them says. */
  function ClientFold(lib: PathLib, t: Tables, aliases: seq<ClientAlias>): Tables {
    if aliases == [] then t
    else ClientUpdate(lib, ClientFold(lib, t, aliases[..|aliases| - 1]), aliases[|aliases| - 1]).0
  }

  function Names(aliases: seq<ClientAlias>): seq<string> {
    seq(|aliases|, i requires 0 <= i < |aliases| => aliases[i].name)
  }

  /** The first `n` updates succeed, one after the other. */
  ghost predicate AllAccepted(lib: PathLib, t: Tables, aliases: seq<ClientAlias>, n: nat)
    requires n <= |aliases|
  {
    forall i | 0 <= i < n :: ClientUpdate(lib, ClientFold(lib, t, aliases[..i]), aliases[i]).1.None?
  }

  /** One of the checks on a client's alias fails: its name, and for a definition its path and
      both tables. */
  predicate ClientRefused(lib: PathLib, t: Tables, a: ClientAlias) {
    || a.name == "" || a.name[0] != '#'
    || (a.elems != [] &&
        (|| lib.hasWildcards(a.elems) || lib.dataPath(a.elems).None? || !lib.validPath(a.elems)
         || lib.dataPath(a.elems).value in t.backward || a.name in t.forward))
  }

  /** What a client's update does to the tables.  A refused one does nothing.  An accepted
      definition makes the one entry known under its name and under its path.  An accepted
      deletion takes the name and its path out.  Everything else stays. */
  lemma ClientUpdateExactly(lib: PathLib, t: Tables, a: ClientAlias)
    ensures var (u, err) := ClientUpdate(lib, t, a);
      && (err.Some? <==> ClientRefused(lib, t, a))
      && (err.Some? ==> u == t)
      && (err.None? && a.elems != [] ==>
            var path := lib.dataPath(a.elems).value;
            var e := AliasEntry(a.name, path, a.elems, false);
            u.forward == t.forward[a.name := e] && u.backward == t.backward[path := e])
      && (err.None? && a.elems == [] ==>
            && u.forward.Keys == t.forward.Keys - {a.name}
            && u.backward.Keys == t.backward.Keys - (if a.name in t.forward then {t.forward[a.name].path} else {})
            && (forall n :: n in u.forward ==> u.forward[n] == t.forward[n])
            && (forall p :: p in u.backward ==> u.backward[p] == t.backward[p]))
  {
  }

  /** Which check an update fails first. */
  lemma ClientErrorExactly(lib: PathLib, t: Tables, a: ClientAlias)
    ensures var err := ClientUpdate(lib, t, a).1;
      var path := lib.dataPath(a.elems);
      && (err == Some(EmptyAlias) <==> a.name == "")
      && (err == Some(NoHash) <==> a.name != "" && a.name[0] != '#')
      && (err == Some(Wildcard) <==> a.name != "" && a.name[0] == '#' && a.elems != [] && lib.hasWildcards(a.elems))
      && (err.Some? && err.value.PathTaken? ==>
            path.Some? && path.value in t.backward && err.value.owner == t.backward[path.value].name)
      && (err.Some? && err.value.NameTaken? ==>
            path.Some? && path.value !in t.backward && a.name in t.forward && err.value.path == t.forward[a.name].path)
  {
  }

  // ----- Server aliases -----------------------------------------------------------------

  predicate Eligible(lib: PathLib, m: map<string, string>, n: string) {
    n in m && HasHash(n) && lib.parse(m[n]).Some?
  }

  function ServerEntry(lib: PathLib, m: map<string, string>, n: string): AliasEntry
    requires Eligible(lib, m, n)
  {
    AliasEntry(n, m[n], lib.parse(m[n]).value, true)
  }

  /** The names an addition adds. */
  function FreshNames(lib: PathLib, t: Tables, m: map<string, string>): set<string> {
    set n | n in m && Eligible(lib, m, n) && n !in t.forward
  }

  function PathsOf(m: map<string, string>, names: set<string>): set<string> {
    set n | n in names && n in m :: m[n]
  }

  /** `u` is an outcome of adding `m`.  Names that share a path are written in map order, so any
      one of them may own the reverse entry in the end. */
  ghost predicate ServerAdded(lib: PathLib, t: Tables, m: map<string, string>, u: Tables) {
    var names := FreshNames(lib, t, m);
    && u.forward == t.forward + (map n | n in names :: ServerEntry(lib, m, n))
    && u.backward.Keys == t.backward.Keys + PathsOf(m, names)
    && forall p :: p in u.backward ==>
         if p in PathsOf(m, names) then exists n :: n in names && m[n] == p && u.backward[p] == ServerEntry(lib, m, n)
         else u.backward[p] == t.backward[p]
  }

  /** The names a removal removes. */
  function GoneNames(lib: PathLib, t: Tables, m: map<string, string>): set<string> {
    set n | n in m && Eligible(lib, m, n) && n in t.forward && t.forward[n].isServer
  }

  function GonePaths(t: Tables, names: set<string>): set<string> {
    set n | n in names && n in t.forward :: t.forward[n].path
  }

  function ServerRemoved(lib: PathLib, t: Tables, m: map<string, string>): Tables {
    var names := GoneNames(lib, t, m);
    Tables(t.forward - names, t.backward - GonePaths(t, names))
  }

  /** Which names the server's aliases add and remove: those with a hash and a proper path that
      are not known yet, and those that the server added. */
  lemma ServerNamesExactly(lib: PathLib, t: Tables, m: map<string, string>, n: string)
    ensures n in FreshNames(lib, t, m) <==>
            n in m && n != "" && n[0] == '#' && lib.parse(m[n]).Some? && n !in t.forward
    ensures n in GoneNames(lib, t, m) <==>
            n in m && n != "" && n[0] == '#' && lib.parse(m[n]).Some? && n in t.forward && t.forward[n].isServer
  {
  }

  /** What an addition leaves under each name. */
  lemma ServerAddedAt(lib: PathLib, t: Tables, m: map<string, string>, u: Tables, n: string)
    requires ServerAdded(lib, t, m, u)
    ensures n in FreshNames(lib, t, m) ==> n in m && lib.parse(m[n]).Some? && n in u.forward
                                           && u.forward[n] == AliasEntry(n, m[n], lib.parse(m[n]).value, true)
    ensures n !in FreshNames(lib, t, m) ==>
              (n in u.forward <==> n in t.forward) && (n in u.forward ==> u.forward[n] == t.forward[n])
  {
  }

  // ----- Histories ----------------------------------------------------------------------

  datatype Update =
    | ClientUpdates(alias: ClientAlias)
    | ServerAdds(m: map<string, string>)
    | ServerRemoves(m: map<string, string>)

  ghost predicate IsUpdate(lib: PathLib, t: Tables, up: Update, u: Tables) {
    match up
    case ClientUpdates(a) => u == ClientUpdate(lib, t, a).0
    case ServerAdds(m) => ServerAdded(lib, t, m, u)
    case ServerRemoves(m) => u == ServerRemoved(lib, t, m)
  }

  ghost predicate IsHistory(lib: PathLib, ts: seq<Tables>, ups: seq<Update>) {
    && |ts| == |ups| + 1 && ts[0] == EMPTY_TABLES
    && forall i | 0 <= i < |ups| :: IsUpdate(lib, ts[i], ups[i], ts[i + 1])
  }

  /** Where an entry came from: a client's path was rendered, a server's was parsed. */
  predicate Coherent(lib: PathLib, e: AliasEntry) {
    if e.isServer then lib.parse(e.path) == Some(e.gpath) else lib.dataPath(e.gpath) == Some(e.path)
  }

  /** Every reverse entry is filed under its path and is the forward entry of its name. */
  ghost predicate Sound(lib: PathLib, t: Tables) {
    && (forall p :: p in t.backward ==>
          t.backward[p].path == p && t.backward[p].name in t.forward && t.forward[t.backward[p].name] == t.backward[p])
    && (forall a :: a in t.forward ==> t.forward[a].name == a && HasHash(a) && Coherent(lib, t.forward[a]))
  }

  /** In addition every alias owns the reverse entry of its path. */
  ghost predicate OneToOne(t: Tables) {
    forall a :: a in t.forward ==> t.forward[a].path in t.backward && t.backward[t.forward[a].path] == t.forward[a]
  }

  lemma UpdateKeepsSound(lib: PathLib, t: Tables, up: Update, u: Tables)
    requires Sound(lib, t) && IsUpdate(lib, t, up, u)
    ensures Sound(lib, u)
  {
    hide Sound, ClientUpdate, ServerAdded, ServerRemoved;
    match up
    case ClientUpdates(a) => ClientKeepsSound(lib, t, a);
    case ServerAdds(m) => AddKeepsSound(lib, t, m, u);
    case ServerRemoves(m) => RemoveKeepsSound(lib, t, m);
  }

  lemma ClientKeepsSound(lib: PathLib, t: Tables, a: ClientAlias)
    requires Sound(lib, t)
    ensures Sound(lib, ClientUpdate(lib, t, a).0)
  {
    hide HasHash;
    var u := ClientUpdate(lib, t, a).0;
    forall p | p in u.backward
      ensures u.backward[p].path == p
      ensures u.backward[p].name in u.forward && u.forward[u.backward[p].name] == u.backward[p]
    {
    }
  }

  lemma AddKeepsSound(lib: PathLib, t: Tables, m: map<string, string>, u: Tables)
    requires Sound(lib, t) && ServerAdded(lib, t, m, u)
    ensures Sound(lib, u)
  {
    var names := FreshNames(lib, t, m);
    forall p | p in u.backward
      ensures u.backward[p].path == p
      ensures u.backward[p].name in u.forward && u.forward[u.backward[p].name] == u.backward[p]
    {
      if p in PathsOf(m, names) {
        var n :| n in names && m[n] == p && u.backward[p] == ServerEntry(lib, m, n);
      } else {
        assert p in t.backward && u.backward[p] == t.backward[p];
      }
    }
  }

  lemma RemoveKeepsSound(lib: PathLib, t: Tables, m: map<string, string>)
    requires Sound(lib, t)
    ensures Sound(lib, ServerRemoved(lib, t, m))
  {
  }

  /** After any history of client and server updates the tables are sound. */
  lemma {:induction false} HistoryIsSound(lib: PathLib, ts: seq<Tables>, ups: seq<Update>)
    requires IsHistory(lib, ts, ups)
    ensures Sound(lib, ts[|ups|])
    decreases |ups|
  {
    if ups != [] {
      var n := |ups| - 1;
      assert IsHistory(lib, ts[..|ts| - 1], ups[..n]);
      HistoryIsSound(lib, ts[..|ts| - 1], ups[..n]);
      UpdateKeepsSound(lib, ts[n], ups[n], ts[n + 1]);
    }
  }

  // ----- Which updates keep the tables one-to-one ---------------------------------------

  lemma ClientKeepsOneToOne(lib: PathLib, t: Tables, a: ClientAlias)
    requires Sound(lib, t) && OneToOne(t)
    ensures OneToOne(ClientUpdate(lib, t, a).0)
  {
  }

  lemma RemoveKeepsOneToOne(lib: PathLib, t: Tables, m: map<string, string>)
    requires Sound(lib, t) && OneToOne(t)
    ensures OneToOne(ServerRemoved(lib, t, m))
  {
  }

  /** The check the server's own aliases are not given: paths new and pairwise different. */
  predicate NoCollision(lib: PathLib, t: Tables, m: map<string, string>) {
    var names := FreshNames(lib, t, m);
    && (forall n | n in names :: m[n] !in t.backward)
    && DistinctPaths(m, names)
  }

  predicate DistinctPaths(m: map<string, string>, names: set<string>) {
    forall n, k | n in names && k in names && n in m && k in m && n != k :: m[n] != m[k]
  }

  /** Exact condition: adding server aliases keeps the tables one-to-one if and only if no
      path collides. */
  lemma AddKeepsOneToOneExactly(lib: PathLib, t: Tables, m: map<string, string>, u: Tables)
    requires Sound(lib, t) && OneToOne(t) && ServerAdded(lib, t, m, u)
    ensures OneToOne(u) <==> NoCollision(lib, t, m)
  {
    var names := FreshNames(lib, t, m);
    if NoCollision(lib, t, m) {
      forall a | a in u.forward
        ensures u.forward[a].path in u.backward && u.backward[u.forward[a].path] == u.forward[a]
      {
        var p := u.forward[a].path;
        if a in names {
          assert p == m[a] && p in PathsOf(m, names);
        } else {
          assert a in t.forward && p in t.backward;
        }
      }
    } else if n :| n in names && m[n] in t.backward {
      var p := m[n];
      var b := t.backward[p].name;
      assert p in PathsOf(m, names);
      assert u.forward[b].path == p && u.forward[n].path == p;
      assert u.forward[b].name != u.forward[n].name;
    } else {
      var n, k :| n in names && k in names && n in m && k in m && n != k && m[n] == m[k];
      assert u.forward[n].path == u.forward[k].path;
    }
  }

  /** One update keeps the tables one-to-one, server additions exactly when nothing collides. */
  lemma UpdateKeepsOneToOneExactly(lib: PathLib, t: Tables, up: Update, u: Tables)
    requires Sound(lib, t) && OneToOne(t) && IsUpdate(lib, t, up, u)
    ensures OneToOne(u) <==> (up.ServerAdds? ==> NoCollision(lib, t, up.m))
  {
    match up
    case ClientUpdates(a) => ClientKeepsOneToOne(lib, t, a);
    case ServerAdds(m) => AddKeepsOneToOneExactly(lib, t, m, u);
    case ServerRemoves(m) => RemoveKeepsOneToOne(lib, t, m);
  }

  lemma SoundThroughout(lib: PathLib, ts: seq<Tables>, ups: seq<Update>, i: nat)
    requires IsHistory(lib, ts, ups) && i < |ts|
    ensures Sound(lib, ts[i])
  {
    hide IsUpdate, Sound;
    assert IsHistory(lib, ts[..i + 1], ups[..i]);
    HistoryIsSound(lib, ts[..i + 1], ups[..i]);
  }

  lemma {:induction false} OneToOneUpTo(lib: PathLib, ts: seq<Tables>, ups: seq<Update>, n: nat)
    requires IsHistory(lib, ts, ups) && n < |ts|
    requires forall i | 0 <= i < n && ups[i].ServerAdds? :: NoCollision(lib, ts[i], ups[i].m)
    ensures OneToOne(ts[n])
  {
    hide NoCollision, Sound;
    if n > 0 {
      OneToOneUpTo(lib, ts, ups, n - 1);
      SoundThroughout(lib, ts, ups, n - 1);
      UpdateKeepsOneToOneExactly(lib, ts[n - 1], ups[n - 1], ts[n]);
    }
  }

  /** Exact condition for a history: the tables are one-to-one throughout if and only if no
      server addition of it collided. */
  lemma HistoryOneToOneExactly(lib: PathLib, ts: seq<Tables>, ups: seq<Update>)
    requires IsHistory(lib, ts, ups)
    ensures (forall i | 0 <= i < |ts| :: OneToOne(ts[i])) <==>
            (forall i | 0 <= i < |ups| && ups[i].ServerAdds? :: NoCollision(lib, ts[i], ups[i].m))
  {
    hide NoCollision, Sound, OneToOne, IsUpdate;
    if forall i | 0 <= i < |ts| :: OneToOne(ts[i]) {
      forall i | 0 <= i < |ups| && ups[i].ServerAdds?
        ensures NoCollision(lib, ts[i], ups[i].m)
      {
        SoundThroughout(lib, ts, ups, i);
        assert OneToOne(ts[i]) && OneToOne(ts[i + 1]);
        UpdateKeepsOneToOneExactly(lib, ts[i], ups[i], ts[i + 1]);
      }
    } else {
      var n :| 0 <= n < |ts| && !OneToOne(ts[n]);
      if forall i | 0 <= i < |ups| && ups[i].ServerAdds? :: NoCollision(lib, ts[i], ups[i].m) {
        OneToOneUpTo(lib, ts, ups, n);
      }
    }
  }

  /** The input that shows it: two names with one path, added to empty tables.  Whichever name
      comes last in map order, the tables are not one-to-one. */
  lemma CollisionBreaks(lib: PathLib, n: string, k: string, p: string, u: Tables)
    requires n != k && HasHash(n) && HasHash(k) && lib.parse(p).Some?
    requires ServerAdded(lib, EMPTY_TABLES, map[n := p, k := p], u)
    ensures IsHistory(lib, [EMPTY_TABLES, u], [ServerAdds(map[n := p, k := p])]) && !OneToOne(u)
  {
    hide HasHash, OneToOne;
    var m := map[n := p, k := p];
    assert n in FreshNames(lib, EMPTY_TABLES, m) && k in FreshNames(lib, EMPTY_TABLES, m);
    assert m[n] == m[k];
    EmptyIsOneToOne(lib);
    AddKeepsOneToOneExactly(lib, EMPTY_TABLES, m, u);
  }

  lemma EmptyIsOneToOne(lib: PathLib)
    ensures Sound(lib, EMPTY_TABLES) && OneToOne(EMPTY_TABLES)
  {
  }

  // ----- Map order ----------------------------------------------------------------------

  /** The outcome in which `pick` says who owns each new path. */
  function Outcome(lib: PathLib, t: Tables, m: map<string, string>, pick: map<string, string>): Tables {
    var names := FreshNames(lib, t, m);
    Tables(t.forward + (map n | n in names :: ServerEntry(lib, m, n)),
           t.backward + (map p | p in pick && pick[p] in names :: ServerEntry(lib, m, pick[p])))
  }

  /** Somebody for every path. */
  ghost function Pick(m: map<string, string>, names: set<string>): (pick: map<string, string>)
    ensures pick.Keys == PathsOf(m, names)
    ensures forall p :: p in pick ==> pick[p] in names && pick[p] in m && m[pick[p]] == p
  {
    map p | p in PathsOf(m, names) :: Owner(m, names, p)
  }

  ghost function Owner(m: map<string, string>, names: set<string>, p: string): (n: string)
    requires p in PathsOf(m, names)
    ensures n in names && n in m && m[n] == p
  {
    var n :| n in names && n in m && m[n] == p;
    n
  }

  lemma OutcomeIsAdded(lib: PathLib, t: Tables, m: map<string, string>, pick: map<string, string>)
    requires pick.Keys == PathsOf(m, FreshNames(lib, t, m))
    requires forall p :: p in pick ==> pick[p] in FreshNames(lib, t, m) && pick[p] in m && m[pick[p]] == p
    ensures ServerAdded(lib, t, m, Outcome(lib, t, m, pick))
  {
  }

  /** Exact condition: the outcome of an addition does not depend on the order of the map if
      and only if no two added names share a path. */
  lemma OrderIrrelevantExactly(lib: PathLib, t: Tables, m: map<string, string>)
    ensures (forall u, v :: ServerAdded(lib, t, m, u) && ServerAdded(lib, t, m, v) ==> u == v)
            <==> DistinctPaths(m, FreshNames(lib, t, m))
  {
    var names := FreshNames(lib, t, m);
    if DistinctPaths(m, names) {
      forall u, v | ServerAdded(lib, t, m, u) && ServerAdded(lib, t, m, v)
        ensures u == v
      {
        SameOutcome(lib, t, m, u, v);
      }
    } else {
      var n, k :| n in names && k in names && n in m && k in m && n != k && m[n] == m[k];
      OwnerChosen(lib, t, m, n);
      OwnerChosen(lib, t, m, k);
      var u :| ServerAdded(lib, t, m, u) && m[n] in u.backward && u.backward[m[n]].name == n;
      var v :| ServerAdded(lib, t, m, v) && m[k] in v.backward && v.backward[m[k]].name == k;
      assert u != v;
    }
  }

  /** Every added name is, in some outcome, the owner of its path. */
  lemma OwnerChosen(lib: PathLib, t: Tables, m: map<string, string>, n: string)
    requires n in FreshNames(lib, t, m)
    ensures exists u :: ServerAdded(lib, t, m, u) && m[n] in u.backward && u.backward[m[n]].name == n
  {
    var names := FreshNames(lib, t, m);
    assert m[n] in PathsOf(m, names);
    var pick := Pick(m, names)[m[n] := n];
    assert pick.Keys == PathsOf(m, names);
    OutcomeIsAdded(lib, t, m, pick);
    var u := Outcome(lib, t, m, pick);
    assert ServerAdded(lib, t, m, u) && m[n] in u.backward && u.backward[m[n]].name == n;
  }

  lemma SameOutcome(lib: PathLib, t: Tables, m: map<string, string>, u: Tables, v: Tables)
    requires DistinctPaths(m, FreshNames(lib, t, m))
    requires ServerAdded(lib, t, m, u) && ServerAdded(lib, t, m, v)
    ensures u == v
  {
    hide HasHash;
    assert u.backward.Keys == v.backward.Keys;
    forall p | p in u.backward
      ensures u.backward[p] == v.backward[p]
    {
    }
  }

  /** Exact condition: removing what was added restores both tables if and only if none of the
      names was a server alias before and none of the added paths had an alias. */
  lemma AddRemoveRestoresExactly(lib: PathLib, t: Tables, m: map<string, string>, u: Tables)
    requires Sound(lib, t) && ServerAdded(lib, t, m, u)
    ensures ServerRemoved(lib, u, m) == t <==>
            GoneNames(lib, t, m) == {} && PathsOf(m, FreshNames(lib, t, m)) !! t.backward.Keys
  {
    var added, before, gone := FreshNames(lib, t, m), GoneNames(lib, t, m), GoneNames(lib, u, m);
    GoneAfterAdding(lib, t, m, u);
    var w := ServerRemoved(lib, u, m);
    if before == {} {
      var paths := PathsOf(m, added);
      assert w.forward == t.forward;
      assert w.backward.Keys == t.backward.Keys - paths;
      if paths !! t.backward.Keys {
        assert w.backward == t.backward;
      } else {
        var p :| p in paths && p in t.backward;
        assert p !in w.backward;
      }
    } else {
      var n :| n in before;
      assert n in t.forward && n !in w.forward;
    }
  }

  /** A removal after an addition takes away the added names and the server's earlier ones. */
  lemma GoneAfterAdding(lib: PathLib, t: Tables, m: map<string, string>, u: Tables)
    requires Sound(lib, t) && ServerAdded(lib, t, m, u)
    ensures GoneNames(lib, u, m) == FreshNames(lib, t, m) + GoneNames(lib, t, m)
    ensures GoneNames(lib, t, m) == {} ==> GonePaths(u, GoneNames(lib, u, m)) == PathsOf(m, FreshNames(lib, t, m))
    ensures GoneNames(lib, t, m) == {} ==> u.forward - GoneNames(lib, u, m) == t.forward
  {
    var before := GoneNames(lib, t, m);
    GoneNamesGrow(lib, t, m, u);
    if before == {} {
      AddedPathsGo(lib, t, m, u);
    }
  }

  lemma GoneNamesGrow(lib: PathLib, t: Tables, m: map<string, string>, u: Tables)
    requires ServerAdded(lib, t, m, u)
    ensures GoneNames(lib, u, m) == FreshNames(lib, t, m) + GoneNames(lib, t, m)
  {
  }

  /** What a removal leaves: every entry that is not the server's or not named, and every reverse
      entry but those of the paths that went. */
  lemma ServerRemovedAt(lib: PathLib, t: Tables, m: map<string, string>, n: string, p: string)
    ensures var u := ServerRemoved(lib, t, m);
      && (n in u.forward <==>
            && n in t.forward
            && (n in m && n != "" && n[0] == '#' && lib.parse(m[n]).Some? ==> !t.forward[n].isServer))
      && (n in u.forward ==> u.forward[n] == t.forward[n])
      && (p in u.backward <==>
            && p in t.backward
            && forall gone | gone in t.forward && t.forward[gone].path == p :: gone in u.forward)
      && (p in u.backward ==> u.backward[p] == t.backward[p])
  {
  }

  /** The entry is known by its name and by its path. */
  predicate Defined(t: Tables, e: AliasEntry) {
    e.name in t.forward && t.forward[e.name] == e && e.path in t.backward && t.backward[e.path] == e
  }

  lemma DefinitionKeeps(lib: PathLib, t: Tables, a: ClientAlias, e: AliasEntry)
    requires ClientUpdate(lib, t, a).1.None? && a.elems != []
    ensures lib.dataPath(a.elems).Some?
    ensures Defined(ClientUpdate(lib, t, a).0, AliasEntry(a.name, lib.dataPath(a.elems).value, a.elems, false))
    ensures Defined(t, e) ==> Defined(ClientUpdate(lib, t, a).0, e)
  {
    hide ClientUpdate;
    ClientUpdateExactly(lib, t, a);
  }

  lemma AcceptedBefore(lib: PathLib, t: Tables, aliases: seq<ClientAlias>)
    requires aliases != [] && AllAccepted(lib, t, aliases, |aliases|)
    ensures var n := |aliases| - 1;
      && AllAccepted(lib, t, aliases[..n], n)
      && ClientUpdate(lib, ClientFold(lib, t, aliases[..n]), aliases[n]).1.None?
  {
    hide ClientUpdate, ClientFold;
    var n := |aliases| - 1;
    assert forall j | 0 <= j < n :: aliases[..n][..j] == aliases[..j];
  }

  /** What a client's batch has defined: after as many updates as were accepted, each of them with
      elements, every name stands for the path of its own update. */
  lemma {:induction false} BatchDefines(lib: PathLib, t: Tables, aliases: seq<ClientAlias>, i: nat)
    requires AllAccepted(lib, t, aliases, |aliases|) && i < |aliases|
    requires forall j | 0 <= j < |aliases| :: aliases[j].elems != []
    ensures var u, a := ClientFold(lib, t, aliases), aliases[i];
      && lib.dataPath(a.elems).Some?
      && Defined(u, AliasEntry(a.name, lib.dataPath(a.elems).value, a.elems, false))
    decreases |aliases|
  {
    hide ClientUpdate, Defined, AllAccepted;
    var n, a := |aliases| - 1, aliases[i];
    var before := ClientFold(lib, t, aliases[..n]);
    AcceptedBefore(lib, t, aliases);
    if i < n {
      BatchDefines(lib, t, aliases[..n], i);
      DefinitionKeeps(lib, before, aliases[n], AliasEntry(a.name, lib.dataPath(a.elems).value, a.elems, false));
    } else {
      DefinitionKeeps(lib, before, a, AliasEntry(a.name, "", a.elems, false));
    }
  }

  lemma AddedPathsGo(lib: PathLib, t: Tables, m: map<string, string>, u: Tables)
    requires ServerAdded(lib, t, m, u)
    ensures GonePaths(u, FreshNames(lib, t, m)) == PathsOf(m, FreshNames(lib, t, m))
  {
  }

  // ----- Conversions --------------------------------------------------------------------

  /** A path in either of the two forms the conversions accept. */
  datatype AnyPath = Str(s: string) | Gnmi(g: Option<GPath>)

  function AliasPath(name: string, target: string, origin: string): GPath {
    GPath(target, origin, [Elem(name, "")])
  }

  function ToPath(lib: PathLib, t: Tables, x: AnyPath, diffFormat: bool): AnyPath {
    match x
    case Gnmi(None) => if diffFormat then Str("") else x
    case Gnmi(Some(g)) =>
      if |g.elems| > 0 && HasHash(g.elems[0].name) && g.elems[0].name in t.forward then
        var e := t.forward[g.elems[0].name];
        if diffFormat then Str(e.path) else Gnmi(Some(g.(elems := e.gpath)))
      else if diffFormat then Str(if lib.dataPath(g.elems).Some? then lib.dataPath(g.elems).value else "")
      else x
    case Str(a) =>
      if a in t.forward then
        if diffFormat then Gnmi(Some(GPath("", "", t.forward[a].gpath))) else Str(t.forward[a].path)
      else if diffFormat then
        Gnmi(if lib.parse(a).Some? then Some(GPath("", "", lib.parse(a).value)) else None)
      else x
  }

  function ToAlias(lib: PathLib, t: Tables, x: AnyPath, diffFormat: bool): AnyPath {
    match x
    case Gnmi(None) => x
    case Gnmi(Some(g)) =>
      if g.elems == [] || HasHash(g.elems[0].name) then x
      else
        var p := if lib.dataPath(g.elems).Some? then lib.dataPath(g.elems).value else "";
        if p in t.backward then
          if diffFormat then Str(t.backward[p].name)
          else Gnmi(Some(AliasPath(t.backward[p].name, g.target, g.origin)))
        else if diffFormat then Str(p)
        else x
    case Str(p) =>
      if p == "" || HasHash(p) then x
      else if p in t.backward then
        if diffFormat then Gnmi(Some(AliasPath(t.backward[p].name, "", ""))) else Str(t.backward[p].name)
      else if diffFormat then
        Gnmi(if lib.parse(p).Some? then Some(GPath("", "", lib.parse(p).value)) else None)
      else x
  }

  /** Path to alias and back: exact for every path string that is not itself an alias, in
      sound tables, and hence after any history. */
  lemma PathRoundTrip(lib: PathLib, t: Tables, p: string)
    requires Sound(lib, t) && !HasHash(p)
    ensures ToPath(lib, t, ToAlias(lib, t, Str(p), false), false) == Str(p)
    ensures p in t.backward && p != "" ==> ToPath(lib, t, ToAlias(lib, t, Str(p), true), true) == Str(p)
  {
  }

  /** The same for a gNMI path with an alias: target and origin survive, and the elements that
      come back are those of an entry for the very same data path. */
  lemma GPathRoundTrip(lib: PathLib, t: Tables, g: GPath)
    requires Sound(lib, t) && g.elems != [] && !HasHash(g.elems[0].name)
    requires lib.dataPath(g.elems).Some? && lib.dataPath(g.elems).value in t.backward
    ensures var back := ToPath(lib, t, ToAlias(lib, t, Gnmi(Some(g)), false), false);
      var e := t.backward[lib.dataPath(g.elems).value];
      && back == Gnmi(Some(g.(elems := e.gpath)))
      && e.path == lib.dataPath(g.elems).value
      && (!e.isServer ==> lib.dataPath(e.gpath) == lib.dataPath(g.elems))
  {
  }

  /** Alias to path and back, for a defined alias: exactly when it owns the reverse entry of
      its path, and that path is not mistaken for an alias or for no path at all. */
  lemma AliasRoundTripExactly(lib: PathLib, t: Tables, a: string)
    requires Sound(lib, t) && a in t.forward
    ensures var p := t.forward[a].path;
      ToAlias(lib, t, ToPath(lib, t, Str(a), false), false) == Str(a) <==>
      p == a || (p != "" && !HasHash(p) && p in t.backward && t.backward[p].name == a)
  {
  }

  /** In one-to-one tables only an empty or alias-like path spoils it. */
  lemma OneToOneRoundTrip(lib: PathLib, t: Tables, a: string)
    requires Sound(lib, t) && OneToOne(t) && a in t.forward
    requires t.forward[a].path != "" && !HasHash(t.forward[a].path)
    ensures ToAlias(lib, t, ToPath(lib, t, Str(a), false), false) == Str(a)
  {
  }

  /** After a history without collisions every alias of a proper path survives the trip. */
  lemma HistoryRoundTrip(lib: PathLib, ts: seq<Tables>, ups: seq<Update>, a: string)
    requires IsHistory(lib, ts, ups)
    requires forall i | 0 <= i < |ups| && ups[i].ServerAdds? :: NoCollision(lib, ts[i], ups[i].m)
    requires var t := ts[|ups|]; a in t.forward && t.forward[a].path != "" && !HasHash(t.forward[a].path)
    ensures ToAlias(lib, ts[|ups|], ToPath(lib, ts[|ups|], Str(a), false), false) == Str(a)
  {
    SoundThroughout(lib, ts, ups, |ups|);
    OneToOneUpTo(lib, ts, ups, |ups|);
    OneToOneRoundTrip(lib, ts[|ups|], a);
  }

  /** What stays as it is: a gNMI path without an alias, one that is an alias itself or has no
      elements, a path string without an alias, and, the other way, whatever is no defined alias. */
  lemma UnaliasedStays(lib: PathLib, t: Tables, g: GPath, p: string)
    ensures ToAlias(lib, t, Gnmi(None), false) == Gnmi(None) && ToPath(lib, t, Gnmi(None), false) == Gnmi(None)
    ensures g.elems == [] || (g.elems[0].name != "" && g.elems[0].name[0] == '#') ==>
              ToAlias(lib, t, Gnmi(Some(g)), false) == Gnmi(Some(g))
    ensures lib.dataPath(g.elems).Some? && lib.dataPath(g.elems).value !in t.backward ==>
              ToAlias(lib, t, Gnmi(Some(g)), false) == Gnmi(Some(g))
    ensures p !in t.backward ==> ToAlias(lib, t, Str(p), false) == Str(p)
    ensures g.elems == [] || g.elems[0].name !in t.forward ==> ToPath(lib, t, Gnmi(Some(g)), false) == Gnmi(Some(g))
    ensures p !in t.forward ==> ToPath(lib, t, Str(p), false) == Str(p)
  {
  }

  /** The same in the other format: the string of a gNMI path, the gNMI path of a string. */
  lemma UnaliasedIsConverted(lib: PathLib, t: Tables, g: GPath, p: string)
    requires lib.dataPath(g.elems).Some? && lib.parse(p).Some?
    ensures g.elems != [] && (g.elems[0].name == "" || g.elems[0].name[0] != '#')
            && lib.dataPath(g.elems).value !in t.backward ==>
              ToAlias(lib, t, Gnmi(Some(g)), true) == Str(lib.dataPath(g.elems).value)
    ensures p != "" && p[0] != '#' && p !in t.backward ==>
              ToAlias(lib, t, Str(p), true) == Gnmi(Some(GPath("", "", lib.parse(p).value)))
    ensures g.elems == [] || g.elems[0].name !in t.forward ==>
              ToPath(lib, t, Gnmi(Some(g)), true) == Str(lib.dataPath(g.elems).value)
    ensures p !in t.forward ==> ToPath(lib, t, Str(p), true) == Gnmi(Some(GPath("", "", lib.parse(p).value)))
    ensures ToPath(lib, t, Gnmi(None), true) == Str("")
  {
  }

  /** What is exchanged: a path for the alias that owns it, keeping target and origin, and a
      defined alias for its path. */
  lemma AliasedIsExchanged(lib: PathLib, t: Tables, g: GPath, p: string)
    ensures g.elems != [] && (g.elems[0].name == "" || g.elems[0].name[0] != '#')
            && lib.dataPath(g.elems).Some? && lib.dataPath(g.elems).value in t.backward ==>
              var name := t.backward[lib.dataPath(g.elems).value].name;
              && ToAlias(lib, t, Gnmi(Some(g)), false) == Gnmi(Some(GPath(g.target, g.origin, [Elem(name, "")])))
              && ToAlias(lib, t, Gnmi(Some(g)), true) == Str(name)
    ensures p != "" && p[0] != '#' && p in t.backward ==>
              && ToAlias(lib, t, Str(p), false) == Str(t.backward[p].name)
              && ToAlias(lib, t, Str(p), true) == Gnmi(Some(GPath("", "", [Elem(t.backward[p].name, "")])))
    ensures g.elems != [] && g.elems[0].name != "" && g.elems[0].name[0] == '#' && g.elems[0].name in t.forward ==>
              var e := t.forward[g.elems[0].name];
              && ToPath(lib, t, Gnmi(Some(g)), false) == Gnmi(Some(GPath(g.target, g.origin, e.gpath)))
              && ToPath(lib, t, Gnmi(Some(g)), true) == Str(e.path)
    ensures p in t.forward ==>
              && ToPath(lib, t, Str(p), false) == Str(t.forward[p].path)
              && ToPath(lib, t, Str(p), true) == Gnmi(Some(GPath("", "", t.forward[p].gpath)))
  {
  }
}
