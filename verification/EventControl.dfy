/** The event controller: an index of receiver groups by registered path string, the set of
    receivers in an open bracket, and the dispatch of events to the groups. */
module EventControl {
  import opened DataTree
  import opened EventModel

  /** The identity of a registered receiver. */
  type Receiver = nat

  type Index = map<string, set<Receiver>>

  /** The strings `r` is registered at: what the trie of groups says about one receiver. */
  function KeysOf(index: Index, r: Receiver): set<string> {
    set k | k in index && r in index[k]
  }

  function Strings(paths: seq<string>): set<string> {
    set k | k in paths
  }

  class EventCtrl {
    var receivers: Index
    var ready: set<Receiver>
    var eid: nat
    var calls: map<Receiver, seq<RecvCall>>   // the calls made to each receiver while registered

    function View(r: Receiver): Hearing
      reads this
    {
      Hearing(r in ready, if r in calls then calls[r] else [])
    }

    /** No group is empty, only registered receivers are ready, and everybody's calls follow the protocol. */
    ghost predicate Valid()
      reads this
    {
      && (forall k :: k in receivers ==> receivers[k] != {})
      && (forall r :: r in ready ==> KeysOf(receivers, r) != {})
      && (forall r :: Follows(View(r)))
    }

    constructor ()
      ensures Valid() && receivers == map[] && eid == 0
      ensures forall r :: View(r) == Hearing(false, [])
    {
      receivers, ready, eid, calls := map[], {}, 0, map[];
    }

    /** Registers `r` at each of its paths. */
    method Register(r: Receiver, paths: seq<string>)
      requires Valid()
      modifies this
      ensures Valid() && eid == old(eid)
      ensures forall q :: View(q) == old(View(q))
      ensures forall q :: KeysOf(receivers, q) == old(KeysOf(receivers, q)) + if q == r then Strings(paths) else {}
    {
      hide Follows, KeysOf;
      var i := 0;
      NoStrings(receivers, r);
      while i < |paths|
        invariant i <= |paths|
        invariant ready == old(ready) && calls == old(calls) && eid == old(eid)
        invariant forall k :: k in receivers ==> receivers[k] != {}
        invariant forall q ::
                    KeysOf(receivers, q) == old(KeysOf(receivers, q)) + if q == r then Strings(paths[..i]) else {}
      {
        var path := paths[i];
        ghost var before := receivers;
        if path in receivers {
          receivers := receivers[path := receivers[path] + {r}];
        } else {
          receivers := receivers[path := {r}];
          assert {r} == {} + {r};
        }
        forall q
          ensures KeysOf(receivers, q) == KeysOf(before, q) + if q == r then {path} else {}
        {
          KeysGrow(before, receivers, r, path, q);
        }
        assert Strings(paths[..i + 1]) == Strings(paths[..i]) + {path};
        i := i + 1;
      }
      assert paths[..|paths|] == paths;
      assert forall q :: View(q) == old(View(q));
    }

    /** Removes `r` from every group, and every group this empties. */
    method Unregister(r: Receiver)
      requires Valid()
      modifies this
      ensures Valid() && eid == old(eid)
      ensures KeysOf(receivers, r) == {} && View(r) == Hearing(false, [])
      ensures forall q :: q != r ==> KeysOf(receivers, q) == old(KeysOf(receivers, q)) && View(q) == old(View(q))
    {
      var todo := receivers.Keys;
      while todo != {}
        invariant todo <= receivers.Keys <= old(receivers.Keys)
        invariant ready == old(ready) && calls == old(calls) && eid == old(eid)
        invariant forall k :: k in receivers ==> receivers[k] != {}
        invariant forall k :: k in todo ==> receivers[k] == old(receivers[k])
        invariant KeysOf(receivers, r) <= todo
        invariant forall q :: q != r ==> KeysOf(receivers, q) == old(KeysOf(receivers, q))
        decreases todo
      {
        var path :| path in todo;
        ghost var before := receivers;
        todo := todo - {path};
        var group := receivers[path];
        if r in group {
          if group == {r} {
            receivers := map k | k in receivers && k != path :: receivers[k];
          } else {
            receivers := receivers[path := group - {r}];
          }
          forall q
            ensures KeysOf(receivers, q) == KeysOf(before, q) - if q == r then {path} else {}
          {
          }
        }
      }
      ready := ready - {r};
      calls := calls - {r};
      forall q | q in ready
        ensures KeysOf(receivers, q) != {}
      {
        assert q in old(ready);
      }
      forall q
        ensures Follows(View(q))
      {
        assert q != r ==> View(q) == old(View(q));
      }
    }

    /** One call of one receiver, opening its bracket first if need be. */
    method Notify(r: Receiver, typ: EventType, path: Path)
      modifies this`ready, this`calls
      ensures View(r) == Hear(old(View(r)), eid, typ, path)
      ensures forall q :: q != r ==> View(q) == old(View(q))
      ensures ready == old(ready) + {r}
    {
      if r !in ready {
        ready := ready + {r};
        calls := calls[r := View(r).calls + [EventStart(eid)]];
      }
      calls := calls[r := View(r).calls + [EventReceive(eid, typ, path)]];
    }

    /** Calls everybody in a group, in whatever order the map yields them. */
    method NotifyGroup(group: set<Receiver>, typ: EventType, path: Path)
      modifies this`ready, this`calls
      ensures forall q :: View(q) == if q in group then Hear(old(View(q)), eid, typ, path) else old(View(q))
      ensures ready == old(ready) + group
    {
      var todo := group;
      while todo != {}
        invariant todo <= group
        invariant forall q :: View(q) == if q in group - todo then Hear(old(View(q)), eid, typ, path) else old(View(q))
        invariant ready == old(ready) + (group - todo)
        decreases todo
      {
        var r :| r in todo;
        Notify(r, typ, path);
        todo := todo - {r};
      }
    }

    /** Calls the groups of all registered strings that are a prefix of `key`. */
    method NotifyPrefixes(key: string, typ: EventType, path: Path)
      modifies this`ready, this`calls
      ensures forall q :: View(q) == HearTimes(old(View(q)), Hits(KeysOf(receivers, q), key), eid, typ, path)
      ensures forall q :: q in ready ==> q in old(ready) || KeysOf(receivers, q) != {}
    {
      hide HearTimes, Hear, KeysOf, Hits, Counted;
      var todo := set k | k in receivers && k <= key;
      ghost var found, done := todo, {};
      forall q
        ensures View(q) == HearTimes(View(q), Counted(receivers, q, done), eid, typ, path)
      {
        NoneCounted(receivers, q);
        HearTimesStep(View(q), 0, eid, typ, path);
      }
      while todo != {}
        invariant done !! todo && done + todo == found && found <= receivers.Keys
        invariant forall q :: View(q) == HearTimes(old(View(q)), Counted(receivers, q, done), eid, typ, path)
        invariant forall q :: q in ready ==> q in old(ready) || KeysOf(receivers, q) != {}
        decreases todo
      {
        var k :| k in todo;
        NotifyGroup(receivers[k], typ, path);
        forall q
          ensures View(q) == HearTimes(old(View(q)), Counted(receivers, q, done + {k}), eid, typ, path)
          ensures q in receivers[k] ==> KeysOf(receivers, q) != {}
        {
          HearTimesStep(old(View(q)), Counted(receivers, q, done), eid, typ, path);
          KeyCounted(receivers, q, done, k);
        }
        todo, done := todo - {k}, done + {k};
      }
      assert done == found;
      forall q
        ensures Counted(receivers, q, done) == Hits(KeysOf(receivers, q), key)
      {
        AllKeysCounted(receivers, q, key);
      }
    }

    /** The events of one kind.  An invalid node ends the dispatch with an error. */
    method SetReady(typ: EventType, nodes: seq<EventNode>) returns (ok: bool)
      modifies this`ready, this`calls
      ensures ok == AllValid(nodes)
      ensures forall q :: View(q) == HearNodes(old(View(q)), KeysOf(receivers, q), eid, typ, nodes)
      ensures forall q :: q in ready ==> q in old(ready) || KeysOf(receivers, q) != {}
    {
      hide HearNodes, HearTimes, Hits, InList, KeysOf;
      var i := 0;
      assert nodes[0..] == nodes;
      while i < |nodes|
        invariant i <= |nodes|
        invariant forall j | 0 <= j < i :: nodes[j].valid
        invariant forall q :: HearNodes(old(View(q)), KeysOf(receivers, q), eid, typ, nodes)
                           == HearNodes(View(q), KeysOf(receivers, q), eid, typ, nodes[i..])
        invariant forall q :: q in ready ==> q in old(ready) || KeysOf(receivers, q) != {}
      {
        if !nodes[i].valid {
          forall q
            ensures HearNodes(View(q), KeysOf(receivers, q), eid, typ, nodes[i..]) == View(q)
          {
            HearNodesStep(View(q), KeysOf(receivers, q), eid, typ, nodes, i);
          }
          return false;
        }
        label before:
        var path := nodes[i].path;
        NotifyPrefixes(Render(path), typ, path);
        if InList(path) {
          NotifyPrefixes(Render(Strip(path)), typ, path);
        }
        forall q
          ensures HearNodes(old@before(View(q)), KeysOf(receivers, q), eid, typ, nodes[i..])
               == HearNodes(View(q), KeysOf(receivers, q), eid, typ, nodes[i + 1..])
        {
          HearNodesStep(old@before(View(q)), KeysOf(receivers, q), eid, typ, nodes, i);
        }
        i := i + 1;
      }
      ok := true;
      forall q
        ensures HearNodes(View(q), KeysOf(receivers, q), eid, typ, nodes[i..]) == View(q)
      {
        HearNodesEnd(View(q), KeysOf(receivers, q), eid, typ, nodes);
      }
    }

    /** Dispatches one set of events under a fresh event id. */
    method SetEvent(c: seq<EventNode>, r: seq<EventNode>, d: seq<EventNode>) returns (ok: bool)
      requires Valid()
      modifies this
      ensures Valid() && receivers == old(receivers) && eid == old(eid) + 1
      ensures ok == (AllValid(c) && AllValid(r) && AllValid(d))
      ensures forall q :: View(q) == HearEvent(old(View(q)), KeysOf(receivers, q), eid, c, r, d)
      ensures ok ==> ready == {}
    {
      hide HearNodes, Follows, KeysOf;
      eid := eid + 1;
      ok := SetReady(EventCreate, c);
      if ok {
        ok := SetReady(EventReplace, r);
        if ok {
          ok := SetReady(EventDelete, d);
          if ok {
            CompleteAll();
          }
        }
      }
      forall q
        ensures Follows(View(q))
      {
        HearEventFollows(old(View(q)), KeysOf(receivers, q), eid, c, r, d);
      }
    }

    /** Completes everybody who is ready. */
    method CompleteAll()
      modifies this`ready, this`calls
      ensures ready == {}
      ensures forall q :: View(q) ==
                          if old(q in ready) then Hearing(false, old(View(q)).calls + [EventComplete(eid)])
                          else old(View(q))
    {
      while ready != {}
        invariant ready <= old(ready)
        invariant forall q :: View(q) ==
                              if q in old(ready) - ready then Hearing(false, old(View(q)).calls + [EventComplete(eid)])
                              else old(View(q))
        decreases ready
      {
        var r :| r in ready;
        calls := calls[r := View(r).calls + [EventComplete(eid)]];
        ready := ready - {r};
      }
    }
  }

  /** How many of the strings in `done` have `q` in their group. */
  function Counted(index: Index, q: Receiver, done: set<string>): nat {
    |KeysOf(index, q) * done|
  }

  lemma NoStrings(index: Index, r: Receiver)
    ensures KeysOf(index, r) + Strings([]) == KeysOf(index, r)
  {
  }

  /** Entering `r` into one group. */
  lemma KeysGrow(before: Index, after: Index, r: Receiver, path: string, q: Receiver)
    requires after == before[path := (if path in before then before[path] else {}) + {r}]
    ensures KeysOf(after, q) == KeysOf(before, q) + if q == r then {path} else {}
  {
  }

  lemma NoneCounted(index: Index, q: Receiver)
    ensures Counted(index, q, {}) == 0
  {
  }

  lemma KeyCounted(index: Index, q: Receiver, done: set<string>, k: string)
    requires k in index && k !in done
    ensures Counted(index, q, done + {k}) == Counted(index, q, done) + if q in index[k] then 1 else 0
    ensures q in index[k] ==> KeysOf(index, q) != {}
  {
    assert KeysOf(index, q) * (done + {k}) == KeysOf(index, q) * done + if q in index[k] then {k} else {};
    assert q in index[k] ==> k in KeysOf(index, q);
  }

  lemma AllKeysCounted(index: Index, q: Receiver, key: string)
    ensures Counted(index, q, set k | k in index && k <= key) == Hits(KeysOf(index, q), key)
  {
    assert KeysOf(index, q) * (set k | k in index && k <= key) == set k | k in KeysOf(index, q) && k <= key;
  }

  lemma HearTimesStep(h: Hearing, n: nat, eid: nat, typ: EventType, path: Path)
    ensures HearTimes(h, 0, eid, typ, path) == h
    ensures HearTimes(h, n + 1, eid, typ, path) == Hear(HearTimes(h, n, eid, typ, path), eid, typ, path)
  {
  }

  lemma HearNodesStep(h: Hearing, keys: set<string>, eid: nat, typ: EventType, nodes: seq<EventNode>, i: nat)
    requires i < |nodes|
    ensures var path := nodes[i].path;
      var once := HearTimes(h, Hits(keys, Render(path)), eid, typ, path);
      HearNodes(h, keys, eid, typ, nodes[i..]) ==
      if !nodes[i].valid then h
      else HearNodes(if InList(path) then HearTimes(once, Hits(keys, Render(Strip(path))), eid, typ, path) else once,
                     keys, eid, typ, nodes[i + 1..])
  {
    var path := nodes[i].path;
    assert nodes[i..][0] == nodes[i] && nodes[i..][1..] == nodes[i + 1..];
    if InList(path) {
      HearTimesAdd(h, Hits(keys, Render(path)), Hits(keys, Render(Strip(path))), eid, typ, path);
    }
  }

  lemma HearNodesEnd(h: Hearing, keys: set<string>, eid: nat, typ: EventType, nodes: seq<EventNode>)
    ensures HearNodes(h, keys, eid, typ, nodes[|nodes|..]) == h
  {
  }

  lemma {:induction false} HearTimesAdd(h: Hearing, m: nat, n: nat, eid: nat, typ: EventType, path: Path)
    ensures HearTimes(HearTimes(h, m, eid, typ, path), n, eid, typ, path) == HearTimes(h, m + n, eid, typ, path)
  {
    if n > 0 {
      HearTimesAdd(h, m, n - 1, eid, typ, path);
    }
  }
}
