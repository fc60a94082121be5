/** Subscribe sessions and the subscribers they own: how a request finds or makes its
    subscriber, and who may receive events when. */
module Session {
  import opened DataTree
  import opened SubKey

  class Sub {
    const session: SubSession
    const request: SubRequest        // the request that made it
    const key: string
    const config: StreamConfig
    const fullpath: seq<string>      // where it is registered for events
    var paths: seq<string>           // the paths it reports
    var open: bool                   // its event channel has not been closed

    constructor (session: SubSession, request: SubRequest, config: StreamConfig, fullpath: seq<string>, path: string)
      ensures this.session == session && this.request == request && key == Key(request) && this.config == config
      ensures this.fullpath == fullpath && paths == [path] && open
    {
      this.session, this.request, key, this.config := session, request, Key(request), config;
      this.fullpath, paths, open := fullpath, [path], true;
    }
  }

  class SubSession {
    const id: nat
    var subs: map<string, Sub>
    var stopped: bool

    constructor (id: nat)
      ensures this.id == id && subs == map[] && !stopped
    {
      this.id, subs, stopped := id, map[], false;
    }

    /** Every subscriber is filed under its own key, open, and configured as its request asks. */
    ghost predicate Valid()
      reads this, subs.Values
    {
      forall k :: k in subs ==>
        var x := subs[k];
        && x.session == this && x.key == k && x.open
        && x.request.session == id && Key(x.request) == k
        && Configure(x.request) == Configured(x.config)
    }
  }

  /** Why a subscribe request fails: a subscription is refused, or a first message cannot be sent. */
  datatype SubscribeError = BadConfig(error: ConfigError) | SendFailed

  /** The server's side: the sessions that have not stopped, and the receiver index. */
  class Hub {
    const possiblePaths: (string, string) -> seq<string>   // the event paths of a prefix and a path

    var sessions: set<SubSession>
    var index: set<Sub>

    constructor (possiblePaths: (string, string) -> seq<string>)
      ensures Valid() && sessions == {} && index == {} && this.possiblePaths == possiblePaths
    {
      this.possiblePaths := possiblePaths;
      sessions, index := {}, {};
    }

    ghost function Subs(): set<Sub>
      reads this, sessions
    {
      set s, k | s in sessions && k in s.subs :: s.subs[k]
    }

    /** Whoever is indexed is a subscriber of a running session, so its channel is open. */
    ghost predicate Valid()
      reads this, sessions, Subs()
    {
      && (forall s :: s in sessions ==> s.Valid() && !s.stopped)
      && (forall x :: x in index ==> Owned(x))
    }

    ghost predicate Owned(x: Sub)
      reads this, sessions
    {
      x.session in sessions && x.key in x.session.subs && x.session.subs[x.key] == x
    }

    /** No event is ever sent on a closed channel. */
    lemma IndexedAreOpen()
      requires Valid()
      ensures forall x :: x in index ==> x.open && !x.session.stopped
    {
      forall x | x in index
        ensures x.open && !x.session.stopped
      {
        assert Owned(x) && x.session.Valid();
      }
    }

    method StartSession(id: nat) returns (session: SubSession)
      requires Valid()
      modifies this`sessions
      ensures Valid() && fresh(session) && session.id == id && session.subs == map[]
      ensures sessions == old(sessions) + {session}
    {
      hide Key, Configure;
      session := new SubSession(id);
      sessions := sessions + {session};
    }

    /** Finds the subscriber of a request and adds the path to it, or makes a new one. */
    method AddSubscription(session: SubSession, request: SubRequest, path: string)
      returns (res: Sub?, err: Option<ConfigError>)
      requires Valid() && session in sessions && request.session == session.id
      modifies session`subs, session.subs.Values`paths
      ensures Valid()
      ensures request.mode == ONCE ==> res == null && err.None? && session.subs == old(session.subs)
      ensures res == null ==> session.subs == old(session.subs)
      ensures request.mode != ONCE ==>
                if Key(request) in old(session.subs) then
                  && res == old(session.subs)[Key(request)] && err.None? && session.subs == old(session.subs)
                  && res.paths == old(var x := session.subs[Key(request)];
                                      if path in x.paths then x.paths else x.paths + [path])
                else if Configure(request).Refused? then res == null && err == Some(Configure(request).error)
                else
                  && err.None? && res != null && fresh(res) && session.subs == old(session.subs)[Key(request) := res]
                  && res.paths == [path] && res.fullpath == possiblePaths(request.prefix, path)
      ensures res != null ==>
                && Owned(res)
                && Configure(request) == Configured(res.config)
                && SameRendered(res.request, request)
                && (request.mode == STREAM ==> Runnable(res.config))
      ensures forall x :: x in old(session.subs.Values) && x != res ==> x.paths == old(x.paths)
    {
      hide Key, Configure, SameRendered, Runnable;
      res, err := null, None;
      if request.mode == ONCE {
        return;
      }
      if request.mode == STREAM && Configure(request).Configured? {
        ConfigIsRunnable(request);
      }
      var key := Key(request);
      if key in session.subs {
        var x := session.subs[key];
        assert session.Valid();
        KeyInjective(x.request, request);
        MergingIsSound(x.request, request);
        res := x;
        if path !in x.paths {
          x.paths := x.paths + [path];
        }
        StillValid();
        return;
      }
      var configured := Configure(request);
      if configured.Refused? {
        err := Some(configured.error);
        return;
      }
      res := new Sub(session, request, configured.config, possiblePaths(request.prefix, path), path);
      session.subs := session.subs[key := res];
      SameRequest(request);
      forall s | s in sessions
        ensures s.Valid() && !s.stopped
      {
        assert old(s.Valid());
        if s != session {
          assert s.subs == old(s.subs);
        }
      }
      forall x | x in index
        ensures Owned(x)
      {
        assert old(Owned(x));
      }
    }

    twostate lemma StillValid()
      requires old(Valid()) && sessions == old(sessions) && index == old(index)
      requires forall s :: s in sessions ==> s.subs == old(s.subs) && s.stopped == old(s.stopped)
      requires forall x :: x in old(Subs()) ==> x.open == old(x.open)
      ensures Valid()
    {
      forall s | s in sessions
        ensures s.Valid() && !s.stopped
      {
        assert old(s.Valid());
        forall k | k in s.subs
          ensures s.subs[k].open
        {
          assert s.subs[k] in old(Subs());
        }
      }
      forall x | x in index
        ensures Owned(x)
      {
        assert old(Owned(x));
      }
    }

    /** Enters a subscriber into the receiver index. */
    method Register(x: Sub)
      requires Valid() && Owned(x)
      modifies this`index
      ensures Valid() && index == old(index) + {x}
    {
      hide Key, Configure;
      index := index + {x};
    }

    /** The subscriber of the request exists and reports the path. */
    ghost predicate Reports(session: SubSession, request: SubRequest, path: string)
      reads session, session.subs.Values
    {
      Key(request) in session.subs && path in session.subs[Key(request)].paths
    }

    /** Adds the subscriptions of a request one by one, up to the first that is refused. */
    method AddAll(session: SubSession, mode: ListMode, list: seq<(SubRequest, string)>)
      returns (starting: seq<Sub>, err: Option<ConfigError>)
      requires Valid() && session in sessions && mode != ONCE
      requires forall i | 0 <= i < |list| :: list[i].0.session == session.id && list[i].0.mode == mode
      modifies session`subs, session.subs.Values`paths
      ensures Valid()
      ensures err.Some? <==> exists i | 0 <= i < |list| :: Configure(list[i].0).Refused?
      ensures forall k :: k in old(session.subs) ==> k in session.subs && session.subs[k] == old(session.subs)[k]
      ensures err.None? ==> |starting| == |list|
      ensures err.None? ==> forall i | 0 <= i < |list| ::
                  Reports(session, list[i].0, list[i].1) && starting[i] == session.subs[Key(list[i].0)]
    {
      hide Key, Configure, SameRendered, Runnable, Valid, Owned;
      err, starting := None, [];
      var i := 0;
      while i < |list|
        invariant i == |starting| <= |list| && Valid()
        invariant forall k :: k in session.subs ==>
                    session.subs[k] in old(session.subs.Values) || fresh(session.subs[k])
        invariant forall k :: k in old(session.subs) ==> k in session.subs && session.subs[k] == old(session.subs)[k]
        invariant forall j | 0 <= j < i :: Configure(list[j].0).Configured?
        invariant forall j | 0 <= j < i ::
                    Reports(session, list[j].0, list[j].1) && starting[j] == session.subs[Key(list[j].0)]
      {
        var x, refused := AddSubscription(session, list[i].0, list[i].1);
        if refused.Some? {
          return starting, refused;
        }
        starting := starting + [x];
        i := i + 1;
      }
    }

    /** Registers the subscribers of a request and sends their first messages, up to the first
        message that cannot be sent. */
    method RegisterAll(session: SubSession, mode: ListMode, starting: seq<Sub>, sendFails: nat -> bool)
      returns (ok: bool)
      requires Valid() && forall i | 0 <= i < |starting| :: Owned(starting[i])
      modifies this`index
      ensures Valid() && (ok <==> mode != STREAM || forall i | 0 <= i < |starting| :: !sendFails(i))
      ensures old(index) <= index && forall x :: x in index ==> x in old(index) || x in starting
      ensures ok ==> forall i | 0 <= i < |starting| :: starting[i] in index
    {
      hide Valid;
      var i := 0;
      while i < |starting|
        invariant i <= |starting| && Valid() && old(index) <= index
        invariant forall x :: x in index ==> x in old(index) || x in starting
        invariant forall j | 0 <= j < i :: starting[j] in index && (mode == STREAM ==> !sendFails(j))
      {
        Register(starting[i]);
        if mode == STREAM && sendFails(i) {
          return false;
        }
        i := i + 1;
      }
      ok := true;
    }

    /** One subscribe request: first all its subscriptions are added, then their subscribers are
        registered for events and sent the first message.  A refused subscription keeps the
        whole request out of the index. */
    method Subscribe(session: SubSession, mode: ListMode, list: seq<(SubRequest, string)>, sendFails: nat -> bool)
      returns (err: Option<SubscribeError>)
      requires Valid() && session in sessions
      requires forall i | 0 <= i < |list| :: list[i].0.session == session.id && list[i].0.mode == mode
      modifies this`index, session`subs, session.subs.Values`paths
      ensures Valid()
      ensures mode == ONCE ==> index == old(index) && session.subs == old(session.subs)
      ensures mode != ONCE ==>
                ((err.Some? && err.value.BadConfig?) <==> exists i | 0 <= i < |list| :: Configure(list[i].0).Refused?)
      ensures err.Some? && err.value.BadConfig? ==> index == old(index)
      ensures forall k :: k in old(session.subs) ==> k in session.subs && session.subs[k] == old(session.subs)[k]
      ensures old(index) <= index && forall x :: x in index ==> x in old(index) || (Owned(x) && x.session == session)
      ensures mode != ONCE && err.None? ==>
                forall i | 0 <= i < |list| ::
                  Reports(session, list[i].0, list[i].1) && session.subs[Key(list[i].0)] in index
    {
      hide Key, Configure, Runnable, Valid;
      if mode == ONCE {
        return None;
      }
      var starting, refused := AddAll(session, mode, list);
      if refused.Some? {
        return Some(BadConfig(refused.value));
      }
      forall i | 0 <= i < |starting|
        ensures Owned(starting[i]) && starting[i].session == session
      {
        IsOwned(session, Key(list[i].0));
      }
      var ok := RegisterAll(session, mode, starting, sendFails);
      err := if ok then None else Some(SendFailed);
    }

    /** Whoever is filed in a running session is owned by it. */
    lemma IsOwned(session: SubSession, k: string)
      requires Valid() && session in sessions && k in session.subs
      ensures Owned(session.subs[k]) && session.subs[k].session == session
    {
      assert session.Valid();
    }

    /** Takes a subscriber out of the index, then closes it, then forgets it.  In between, the
        deletion of its state raises events, which by then can only reach open channels. */
    method StopOne(session: SubSession, k: string)
      requires session in sessions && k in session.subs && Valid()
      modifies this`index, session`subs, session.subs[k]
      ensures Valid()
      ensures index == old(index) - {old(session.subs[k])}
      ensures session.subs == old(session.subs) - {k}
      ensures !old(session.subs[k]).open && old(session.subs[k]).paths == []
    {
      hide Key, Configure;
      var x := session.subs[k];
      assert session.Valid();
      index := index - {x};
      IndexedAreOpen();
      x.paths := [];
      x.open := false;
      session.subs := session.subs - {k};
      forall s | s in sessions
        ensures s.Valid() && !s.stopped
      {
        assert old(s.Valid());
        forall j | j in s.subs
          ensures s.subs[j] != x
        {
          assert old(s.subs)[j].session == s && old(s.subs)[j].key == j;
        }
      }
      forall y | y in index
        ensures Owned(y)
      {
        assert old(Owned(y));
      }
    }

    lemma DistinctSubs(session: SubSession)
      requires Valid() && session in sessions
      ensures forall j, k :: j in session.subs && k in session.subs && j != k ==> session.subs[j] != session.subs[k]
      ensures forall k :: k in session.subs ==> session.subs[k].session == session
    {
      assert session.Valid();
    }

    /** Stops every subscriber of a session. */
    method StopAll(session: SubSession)
      requires Valid() && session in sessions
      modifies this`index, session`subs, session.subs.Values
      ensures Valid() && session.subs == map[]
      ensures index <= old(index)
      ensures forall x :: x in old(index) && x !in index ==> x.session == session
      ensures forall k :: k in old(session.subs) ==> !old(session.subs)[k].open && old(session.subs)[k].paths == []
    {
      hide Valid;
      ghost var all := session.subs;
      DistinctSubs(session);
      while session.subs != map[]
        invariant Valid() && session.subs.Keys <= all.Keys
        invariant forall k :: k in session.subs ==> session.subs[k] == all[k]
        invariant index <= old(index)
        invariant forall x :: x in old(index) && x !in index ==> x.session == session
        invariant forall k :: k in all && k !in session.subs ==> !all[k].open && all[k].paths == []
        decreases session.subs.Keys
      {
        var k :| k in session.subs;
        StopOne(session, k);
      }
    }

    /** The end of a session: nobody of it is indexed any more, and nobody else is affected. */
    method Stop(session: SubSession)
      requires Valid() && session in sessions
      modifies this`index, this`sessions, session, session.subs.Values
      ensures Valid()
      ensures session.stopped && session.subs == map[]
      ensures sessions == old(sessions) - {session}
      ensures index == set x | x in old(index) && x.session != session
      ensures forall k :: k in old(session.subs) ==> !old(session.subs)[k].open && old(session.subs)[k].paths == []
    {
      hide Key, Configure;
      StopAll(session);
      forall x | x in index
        ensures x.session != session
      {
        assert Owned(x);
      }
      sessions := sessions - {session};
      session.stopped := true;
      forall x | x in index
        ensures Owned(x)
      {
        assert x.session != session;
      }
      assert index == set x | x in old(index) && x.session != session;
    }
  }

  lemma SameRequest(r: SubRequest)
    ensures SameRendered(r, r)
  {
  }
}
