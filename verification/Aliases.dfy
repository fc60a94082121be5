/** The alias tables as the session updates them in place. */
module Aliases {
  import opened DataTree
  import opened AliasModel

  class ClientAliases {
    const lib: PathLib

    var alias2Path: map<string, AliasEntry>
    var path2Alias: map<string, AliasEntry>
    var useServerAliases: bool

    function CurrentTables(): Tables
      reads this
    {
      Tables(alias2Path, path2Alias)
    }

    ghost predicate Valid()
      reads this
    {
      Sound(lib, CurrentTables())
    }

    constructor (lib: PathLib)
      ensures Valid() && this.lib == lib && CurrentTables() == EMPTY_TABLES && !useServerAliases
    {
      this.lib := lib;
      alias2Path, path2Alias, useServerAliases := map[], map[], false;
    }

    /** Adds the server's aliases, in whatever order the map yields them. */
    method AddServerAliases(m: map<string, string>) returns (names: seq<string>)
      requires Valid()
      modifies this`alias2Path, this`path2Alias
      ensures Valid() && ServerAdded(lib, old(CurrentTables()), m, CurrentTables())
      ensures forall n :: n in names <==> n in FreshNames(lib, old(CurrentTables()), m)
      ensures forall i, j | 0 <= i < j < |names| :: names[i] != names[j]
    {
      hide ServerAdded, FreshNames, Sound;
      names := [];
      ghost var t := CurrentTables();
      var todo := m.Keys;
      ghost var part: map<string, string> := map[];
      AddNothing(lib, t);
      while todo != {}
        invariant todo <= m.Keys && part == m - todo
        invariant ServerAdded(lib, t, part, CurrentTables())
        invariant forall n :: n in names <==> n in FreshNames(lib, t, part)
        invariant forall i, j | 0 <= i < j < |names| :: names[i] != names[j]
        decreases todo
      {
        var name :| name in todo;
        todo := todo - {name};
        var path := m[name];
        ghost var before := CurrentTables();
        FreshOne(lib, t, part, before, name, path);
        if Eligible(lib, part[name := path], name) && name !in before.forward {
          AddFresh(lib, t, part, before, name, path);
        } else {
          AddKnown(lib, t, part, before, name, path);
        }
        if HasHash(name) {
          var gpath := lib.parse(path);
          if gpath.Some? && name !in alias2Path {
            var ca := AliasEntry(name, path, gpath.value, true);
            path2Alias := path2Alias[path := ca];
            alias2Path := alias2Path[name := ca];
            names := names + [name];
          }
        }
        part := part[name := path];
        assert part == m - todo;
      }
      assert part == m;
      AddKeepsSound(lib, t, m, CurrentTables());
    }

    /** Removes the server's aliases; a client's alias of the same name stays. */
    method RemoveServerAliases(m: map<string, string>) returns (names: seq<string>)
      requires Valid()
      modifies this`alias2Path, this`path2Alias
      ensures Valid() && CurrentTables() == ServerRemoved(lib, old(CurrentTables()), m)
      ensures forall n :: n in names <==> n in GoneNames(lib, old(CurrentTables()), m)
      ensures forall i, j | 0 <= i < j < |names| :: names[i] != names[j]
    {
      hide ServerRemoved, Sound;
      names := [];
      ghost var t := CurrentTables();
      var todo := m.Keys;
      ghost var part: map<string, string> := map[];
      RemoveNothing(lib, t);
      while todo != {}
        invariant todo <= m.Keys && part == m - todo
        invariant CurrentTables() == ServerRemoved(lib, t, part)
        invariant forall n :: n in names <==> n in GoneNames(lib, t, part)
        invariant forall i, j | 0 <= i < j < |names| :: names[i] != names[j]
        decreases todo
      {
        var name :| name in todo;
        todo := todo - {name};
        var path := m[name];
        RemoveOne(lib, t, part, name, path);
        if HasHash(name) {
          var gpath := lib.parse(path);
          if gpath.Some? && name in alias2Path && alias2Path[name].isServer {
            var ca := alias2Path[name];
            alias2Path := alias2Path - {name};
            path2Alias := path2Alias - {ca.path};
            names := names + [name];
          }
        }
        part := part[name := path];
        assert part == m - todo;
      }
      assert part == m;
      RemoveKeepsSound(lib, t, m);
    }

    method UpdateServerAliases(m: map<string, string>, add: bool) returns (names: seq<string>)
      requires Valid()
      modifies this
      ensures Valid() && useServerAliases == add
      ensures add ==> ServerAdded(lib, old(CurrentTables()), m, CurrentTables())
      ensures !add ==> CurrentTables() == ServerRemoved(lib, old(CurrentTables()), m)
      ensures forall n :: n in names <==>
                n in if add then FreshNames(lib, old(CurrentTables()), m) else GoneNames(lib, old(CurrentTables()), m)
      ensures forall i, j | 0 <= i < j < |names| :: names[i] != names[j]
    {
      if add {
        names := AddServerAliases(m);
      } else {
        names := RemoveServerAliases(m);
      }
      useServerAliases := add;
    }

    method UpdateClientAlias(alias: ClientAlias) returns (err: Option<AliasError>)
      requires Valid()
      modifies this`alias2Path, this`path2Alias
      ensures Valid() && (CurrentTables(), err) == ClientUpdate(lib, old(CurrentTables()), alias)
    {
      hide Sound, HasHash;
      UpdateKeepsSound(lib, CurrentTables(), ClientUpdates(alias), ClientUpdate(lib, CurrentTables(), alias).0);
      var name := alias.name;
      if name == "" {
        return Some(EmptyAlias);
      }
      if !HasHash(name) {
        return Some(NoHash);
      }
      if alias.elems == [] {
        if name in alias2Path {
          var ca := alias2Path[name];
          alias2Path := alias2Path - {name};
          path2Alias := path2Alias - {ca.path};
        }
        return None;
      }
      if lib.hasWildcards(alias.elems) {
        return Some(Wildcard);
      }
      var path := lib.dataPath(alias.elems);
      if path.None? || !lib.validPath(alias.elems) {
        return Some(InvalidAliasPath);
      }
      if path.value in path2Alias {
        return Some(PathTaken(path2Alias[path.value].name));
      }
      if name in alias2Path {
        return Some(NameTaken(alias2Path[name].path));
      }
      var ca := AliasEntry(name, path.value, alias.elems, false);
      path2Alias := path2Alias[path.value := ca];
      alias2Path := alias2Path[name := ca];
      return None;
    }

    /** Applies exactly the longest error-free prefix, and returns exactly its names. */
    method UpdateClientAliases(aliases: seq<ClientAlias>) returns (names: seq<string>, err: Option<AliasError>)
      requires Valid()
      modifies this`alias2Path, this`path2Alias
      ensures Valid() && |names| <= |aliases|
      ensures names == Names(aliases[..|names|])
      ensures AllAccepted(lib, old(CurrentTables()), aliases, |names|)
      ensures CurrentTables() == ClientFold(lib, old(CurrentTables()), aliases[..|names|])
      ensures err.None? <==> |names| == |aliases|
      ensures |names| < |aliases| ==>
                err == ClientUpdate(lib, ClientFold(lib, old(CurrentTables()), aliases[..|names|]), aliases[|names|]).1
    {
      hide Sound, ClientUpdate;
      names, err := [], None;
      var i := 0;
      while i < |aliases|
        invariant i <= |aliases| && Valid() && |names| == i && err.None?
        invariant names == Names(aliases[..i])
        invariant AllAccepted(lib, old(CurrentTables()), aliases, i)
        invariant CurrentTables() == ClientFold(lib, old(CurrentTables()), aliases[..i])
      {
        assert aliases[..i + 1][..i] == aliases[..i];
        ghost var before := CurrentTables();
        err := UpdateClientAlias(aliases[i]);
        if err.Some? {
          RefusedUnchanged(lib, before, aliases[i]);
          return;
        }
        names := names + [aliases[i].name];
        i := i + 1;
      }
    }
  }

  lemma RefusedUnchanged(lib: PathLib, t: Tables, a: ClientAlias)
    ensures ClientUpdate(lib, t, a).1.Some? ==> ClientUpdate(lib, t, a).0 == t
  {
  }

  lemma AddNothing(lib: PathLib, t: Tables)
    ensures ServerAdded(lib, t, map[], t)
    ensures FreshNames(lib, t, map[]) == {}
  {
  }

  /** One more name in the map: whether it is new, and for whom else that matters. */
  lemma FreshOne(lib: PathLib, t: Tables, m: map<string, string>, u: Tables, name: string, path: string)
    requires ServerAdded(lib, t, m, u) && name !in m
    ensures var more := m[name := path];
      && (forall n :: n in FreshNames(lib, t, m) ==>
            n in FreshNames(lib, t, more) && n in m && n in more && m[n] == more[n])
      && FreshNames(lib, t, more) ==
         FreshNames(lib, t, m) + (if Eligible(lib, more, name) && name !in u.forward then {name} else {})
  {
    hide HasHash, ServerEntry, PathsOf;
    var more := m[name := path];
    assert name in u.forward <==> name in t.forward;
    forall n
      ensures n in FreshNames(lib, t, more) <==>
              n in FreshNames(lib, t, m) || (n == name && Eligible(lib, more, name) && name !in u.forward)
    {
      if n in m {
        assert n != name && more[n] == m[n];
      }
    }
  }

  /** The outcomes for a map are, part by part, outcomes for a larger map. */
  lemma OwnersStay(lib: PathLib, t: Tables, m: map<string, string>, u: Tables, more: map<string, string>, p: string)
    requires ServerAdded(lib, t, m, u) && p in u.backward && p in PathsOf(m, FreshNames(lib, t, m))
    requires forall n :: n in FreshNames(lib, t, m) ==>
               n in FreshNames(lib, t, more) && n in m && n in more && m[n] == more[n]
    ensures exists n :: n in FreshNames(lib, t, more) && more[n] == p && u.backward[p] == ServerEntry(lib, more, n)
  {
    var n :| n in FreshNames(lib, t, m) && m[n] == p && u.backward[p] == ServerEntry(lib, m, n);
    assert n in FreshNames(lib, t, more) && more[n] == p && u.backward[p] == ServerEntry(lib, more, n);
  }

  lemma ForwardGrows(lib: PathLib, t: Tables, m: map<string, string>, u: Tables, name: string, path: string)
    requires ServerAdded(lib, t, m, u) && name !in m
    requires Eligible(lib, m[name := path], name) && name !in u.forward
    ensures var more := m[name := path];
      u.forward[name := ServerEntry(lib, more, name)] ==
      t.forward + (map n | n in FreshNames(lib, t, more) :: ServerEntry(lib, more, n))
  {
    FreshOne(lib, t, m, u, name, path);
  }

  lemma PathsGrow(lib: PathLib, t: Tables, m: map<string, string>, u: Tables, name: string, path: string)
    requires ServerAdded(lib, t, m, u) && name !in m
    requires Eligible(lib, m[name := path], name) && name !in u.forward
    ensures var more := m[name := path];
      && name in FreshNames(lib, t, more)
      && PathsOf(more, FreshNames(lib, t, more)) == PathsOf(m, FreshNames(lib, t, m)) + {path}
  {
    var more := m[name := path];
    FreshOne(lib, t, m, u, name, path);
    assert name in FreshNames(lib, t, more) && more[name] == path;
  }

  /** The owner of each path after one more name has been written. */
  lemma OwnersGrow(lib: PathLib, t: Tables, m: map<string, string>, u: Tables, name: string, path: string, p: string)
    requires ServerAdded(lib, t, m, u) && name !in m && (p == path || p in u.backward)
    requires Eligible(lib, m[name := path], name) && name !in u.forward
    ensures var more := m[name := path];
      var names := FreshNames(lib, t, more);
      var owner := u.backward[path := ServerEntry(lib, more, name)][p];
      if p in PathsOf(more, names) then exists n :: n in names && more[n] == p && owner == ServerEntry(lib, more, n)
      else p in t.backward && owner == t.backward[p]
  {
    FreshOne(lib, t, m, u, name, path);
    PathsGrow(lib, t, m, u, name, path);
    if p == path {
      assert m[name := path][name] == p;
    } else if p in PathsOf(m, FreshNames(lib, t, m)) {
      OwnersStay(lib, t, m, u, m[name := path], p);
    }
  }

  /** Writing one more name of the map on top of the ones before. */
  lemma AddFresh(lib: PathLib, t: Tables, m: map<string, string>, u: Tables, name: string, path: string)
    requires ServerAdded(lib, t, m, u) && name !in m
    requires Eligible(lib, m[name := path], name) && name !in u.forward
    ensures var e := ServerEntry(lib, m[name := path], name);
      ServerAdded(lib, t, m[name := path], Tables(u.forward[name := e], u.backward[path := e]))
  {
    hide HasHash, PathsOf;
    var v := Tables(u.forward[name := ServerEntry(lib, m[name := path], name)],
                    u.backward[path := ServerEntry(lib, m[name := path], name)]);
    ForwardGrows(lib, t, m, u, name, path);
    PathsGrow(lib, t, m, u, name, path);
    forall p | p in v.backward
      ensures var names := FreshNames(lib, t, m[name := path]);
        if p in PathsOf(m[name := path], names)
        then exists n :: n in names && m[name := path][n] == p && v.backward[p] == ServerEntry(lib, m[name := path], n)
        else v.backward[p] == t.backward[p]
    {
      OwnersGrow(lib, t, m, u, name, path, p);
    }
  }

  /** What is an outcome for a map is one for a map with the same new names and paths. */
  lemma SameAddition(lib: PathLib, t: Tables, m: map<string, string>, more: map<string, string>, u: Tables)
    requires ServerAdded(lib, t, m, u) && FreshNames(lib, t, more) == FreshNames(lib, t, m)
    requires forall n :: n in FreshNames(lib, t, m) ==> n in m && n in more && m[n] == more[n]
    ensures ServerAdded(lib, t, more, u)
  {
    hide HasHash;
    SameEntries(lib, t, m, more);
    forall p | p in u.backward && p in PathsOf(m, FreshNames(lib, t, m))
      ensures exists n :: n in FreshNames(lib, t, more) && more[n] == p && u.backward[p] == ServerEntry(lib, more, n)
    {
      OwnersStay(lib, t, m, u, more, p);
    }
  }

  lemma SameEntries(lib: PathLib, t: Tables, m: map<string, string>, more: map<string, string>)
    requires FreshNames(lib, t, more) == FreshNames(lib, t, m)
    requires forall n :: n in FreshNames(lib, t, m) ==> n in m && n in more && m[n] == more[n]
    ensures var names, names' := FreshNames(lib, t, m), FreshNames(lib, t, more);
      && PathsOf(more, names') == PathsOf(m, names)
      && (map n | n in names' :: ServerEntry(lib, more, n)) == (map n | n in names :: ServerEntry(lib, m, n))
  {
    hide HasHash;
    var names := FreshNames(lib, t, m);
    forall n | n in names
      ensures Eligible(lib, m, n) && Eligible(lib, more, n) && ServerEntry(lib, more, n) == ServerEntry(lib, m, n)
    {
    }
    assert PathsOf(more, names) == PathsOf(m, names);
  }

  /** A name that is not new leaves the tables as they are. */
  lemma AddKnown(lib: PathLib, t: Tables, m: map<string, string>, u: Tables, name: string, path: string)
    requires ServerAdded(lib, t, m, u) && name !in m
    requires !Eligible(lib, m[name := path], name) || name in u.forward
    ensures ServerAdded(lib, t, m[name := path], u)
  {
    hide ServerAdded, Eligible, FreshNames;
    FreshOne(lib, t, m, u, name, path);
    SameAddition(lib, t, m, m[name := path], u);
  }

  lemma RemoveNothing(lib: PathLib, t: Tables)
    ensures ServerRemoved(lib, t, map[]) == t
    ensures GoneNames(lib, t, map[]) == {}
  {
    assert GonePaths(t, {}) == {};
  }

  /** Removing one more name of the map after the ones before. */
  lemma RemoveOne(lib: PathLib, t: Tables, m: map<string, string>, name: string, path: string)
    requires name !in m
    ensures var more := m[name := path];
      var u := ServerRemoved(lib, t, m);
      var goes := Eligible(lib, more, name) && name in u.forward && u.forward[name].isServer;
      && GoneNames(lib, t, more) == GoneNames(lib, t, m) + (if goes then {name} else {})
      && ServerRemoved(lib, t, more) ==
         if goes then Tables(u.forward - {name}, u.backward - {u.forward[name].path}) else u
  {
    var more := m[name := path];
    var u := ServerRemoved(lib, t, m);
    var names, names' := GoneNames(lib, t, m), GoneNames(lib, t, more);
    assert forall n :: n in m ==> Eligible(lib, more, n) == Eligible(lib, m, n);
    if Eligible(lib, more, name) && name in u.forward && u.forward[name].isServer {
      assert names' == names + {name};
      assert GonePaths(t, names') == GonePaths(t, names) + {t.forward[name].path};
    } else {
      assert names' == names;
    }
  }
}
