/** Event dispatch as one receiver sees it: which events reach it, how often, and in which
    brackets.  `EventControl.dfy` proves the dispatcher equal to this, receiver by receiver. */
module EventModel {
  import opened DataTree

  // ----- Rendered paths -----------------------------------------------------------------

  /** The path string, as in `/interfaces/interface[name=p1]/state`. */
  function Render(p: Path): string {
    if p == [] then ""
    else
      var e := p[|p| - 1];
      Render(p[..|p| - 1]) + ("/" + e.name + e.keys)
  }

  /** The schema path: the path without its list keys. */
  function Strip(p: Path): Path {
    seq(|p|, i requires 0 <= i < |p| => Elem(p[i].name, ""))
  }

  /** The node is a list entry or below one. */
  predicate InList(p: Path) {
    exists i | 0 <= i < |p| :: p[i].keys != ""
  }

  lemma {:induction false} RenderUnder(p: Path, q: Path)
    requires Under(p, q)
    ensures Render(p) <= Render(q)
    decreases |q|
  {
    if p == q {
    } else {
      assert Under(p, q[..|q| - 1]);
      RenderUnder(p, q[..|q| - 1]);
    }
  }

  lemma StripUnder(p: Path, q: Path)
    requires Under(p, q)
    ensures Under(Strip(p), Strip(q))
    ensures InList(p) ==> InList(q)
  {
  }

  lemma StripOutsideLists(p: Path)
    requires !InList(p)
    ensures Strip(p) == p
  {
  }

  // ----- One receiver -------------------------------------------------------------------

  datatype EventType = EventCreate | EventReplace | EventDelete

  /** A node an event is raised for; an invalid one makes the dispatch fail. */
  datatype EventNode = EventNode(path: Path, valid: bool)

  datatype RecvCall =
    | EventStart(eid: nat)
    | EventReceive(eid: nat, typ: EventType, path: Path)
    | EventComplete(eid: nat)

  /** A receiver during dispatch: whether it is in the ready set, and the calls made to it. */
  datatype Hearing = Hearing(ready: bool, calls: seq<RecvCall>)

  /** How many of the registered strings are a prefix of `s`. */
  function Hits(keys: set<string>, s: string): nat {
    |set k | k in keys && k <= s|
  }

  /** How often an event at `p` is delivered to a receiver registered at `keys`: once for
      every registered prefix of the path, and for list data once more for every registered
      prefix of the schema path. */
  function Deliveries(keys: set<string>, p: Path): nat {
    Hits(keys, Render(p)) + if InList(p) then Hits(keys, Render(Strip(p))) else 0
  }

  function Hear(h: Hearing, eid: nat, typ: EventType, path: Path): Hearing {
    Hearing(true, h.calls + (if h.ready then [] else [EventStart(eid)]) + [EventReceive(eid, typ, path)])
  }

  function HearTimes(h: Hearing, n: nat, eid: nat, typ: EventType, path: Path): Hearing {
    if n == 0 then h else Hear(HearTimes(h, n - 1, eid, typ, path), eid, typ, path)
  }

  predicate AllValid(nodes: seq<EventNode>) {
    forall i | 0 <= i < |nodes| :: nodes[i].valid
  }

  /** The events of one kind, up to the first invalid node. */
  function HearNodes(h: Hearing, keys: set<string>, eid: nat, typ: EventType, nodes: seq<EventNode>): Hearing
    decreases |nodes|
  {
    if nodes == [] || !nodes[0].valid then h
    else
      HearNodes(HearTimes(h, Deliveries(keys, nodes[0].path), eid, typ, nodes[0].path), keys, eid, typ, nodes[1..])
  }

  /** One set of events; an invalid node ends it without completing anybody. */
  function HearEvent(h: Hearing, keys: set<string>, eid: nat, c: seq<EventNode>, r: seq<EventNode>, d: seq<EventNode>)
    : Hearing
  {
    var h1 := HearNodes(h, keys, eid, EventCreate, c);
    if !AllValid(c) then h1
    else
      var h2 := HearNodes(h1, keys, eid, EventReplace, r);
      if !AllValid(r) then h2
      else
        var h3 := HearNodes(h2, keys, eid, EventDelete, d);
        if !AllValid(d) || !h3.ready then h3 else Hearing(false, h3.calls + [EventComplete(eid)])
  }

  // ----- The protocol -------------------------------------------------------------------

  /** Where a receiver is in its protocol; the event id is that of the bracket's start. */
  datatype Phase = Idle | Begun(eid: nat) | Receiving(eid: nat) | Broken

  /** The protocol automaton.  When `strict`, a bracket must carry one event id throughout. */
  function Scan(calls: seq<RecvCall>, strict: bool): Phase {
    if calls == [] then Idle
    else
      match (Scan(calls[..|calls| - 1], strict), calls[|calls| - 1])
      case (Idle, EventStart(e)) => Begun(e)
      case (Begun(b), EventReceive(e, _, _)) => if strict && e != b then Broken else Receiving(b)
      case (Receiving(b), EventReceive(e, _, _)) => if strict && e != b then Broken else Receiving(b)
      case (Receiving(b), EventComplete(e)) => if strict && e != b then Broken else Idle
      case _ => Broken
  }

  /** The calls made so far are a prefix of (Start Receive+ Complete)*, and the receiver is in
      the ready set exactly while a bracket is open. */
  predicate Follows(h: Hearing) {
    if h.ready then Scan(h.calls, false).Receiving? else Scan(h.calls, false).Idle?
  }

  /** Like `Follows`, with the open bracket, if any, carrying the id `eid` only. */
  predicate FollowsStrictly(h: Hearing, eid: nat) {
    Scan(h.calls, true) == if h.ready then Receiving(eid) else Idle
  }

  lemma ScanSnoc(calls: seq<RecvCall>, c: RecvCall)
    ensures (calls + [c])[..|calls|] == calls && (calls + [c])[|calls|] == c
  {
  }

  lemma HearFollows(h: Hearing, eid: nat, typ: EventType, path: Path)
    ensures Follows(h) ==> Follows(Hear(h, eid, typ, path))
    ensures FollowsStrictly(h, eid) ==> FollowsStrictly(Hear(h, eid, typ, path), eid)
  {
    var begun := h.calls + if h.ready then [] else [EventStart(eid)];
    if h.ready {
      assert begun == h.calls;
    } else {
      ScanSnoc(h.calls, EventStart(eid));
    }
    ScanSnoc(begun, EventReceive(eid, typ, path));
  }

  lemma {:induction false} HearTimesFollows(h: Hearing, n: nat, eid: nat, typ: EventType, path: Path)
    ensures Follows(h) ==> Follows(HearTimes(h, n, eid, typ, path))
    ensures FollowsStrictly(h, eid) ==> FollowsStrictly(HearTimes(h, n, eid, typ, path), eid)
  {
    if n > 0 {
      HearTimesFollows(h, n - 1, eid, typ, path);
      HearFollows(HearTimes(h, n - 1, eid, typ, path), eid, typ, path);
    }
  }

  lemma {:induction false} HearNodesFollows(h: Hearing, keys: set<string>, eid: nat, typ: EventType,
                                            nodes: seq<EventNode>)
    ensures Follows(h) ==> Follows(HearNodes(h, keys, eid, typ, nodes))
    ensures FollowsStrictly(h, eid) ==> FollowsStrictly(HearNodes(h, keys, eid, typ, nodes), eid)
    decreases |nodes|
  {
    if nodes != [] && nodes[0].valid {
      var n := Deliveries(keys, nodes[0].path);
      HearTimesFollows(h, n, eid, typ, nodes[0].path);
      HearNodesFollows(HearTimes(h, n, eid, typ, nodes[0].path), keys, eid, typ, nodes[1..]);
    }
  }

  /** Every dispatch keeps the protocol, also one that fails half-way; one that starts with
      nobody ready and does not fail leaves nobody ready and gives the bracket one event id. */
  lemma HearEventFollows(h: Hearing, keys: set<string>, eid: nat, c: seq<EventNode>, r: seq<EventNode>,
                         d: seq<EventNode>)
    ensures var after := HearEvent(h, keys, eid, c, r, d);
      && (Follows(h) ==> Follows(after))
      && (!h.ready && Scan(h.calls, true).Idle? && AllValid(c) && AllValid(r) && AllValid(d)
          ==> !after.ready && Scan(after.calls, true).Idle?)
  {
    var h1 := HearNodes(h, keys, eid, EventCreate, c);
    var h2 := HearNodes(h1, keys, eid, EventReplace, r);
    var h3 := HearNodes(h2, keys, eid, EventDelete, d);
    HearNodesFollows(h, keys, eid, EventCreate, c);
    HearNodesFollows(h1, keys, eid, EventReplace, r);
    HearNodesFollows(h2, keys, eid, EventDelete, d);
    ScanSnoc(h3.calls, EventComplete(eid));
  }

  /** One dispatch while the receiver is registered at `keys`. */
  datatype Dispatch = Dispatch(keys: set<string>, c: seq<EventNode>, r: seq<EventNode>, d: seq<EventNode>)

  /** A run of dispatches, each under the next event id. */
  function HearRun(first: nat, ds: seq<Dispatch>): Hearing {
    if ds == [] then Hearing(false, [])
    else
      var n := |ds| - 1;
      HearEvent(HearRun(first, ds[..n]), ds[n].keys, first + n, ds[n].c, ds[n].r, ds[n].d)
  }

  predicate Succeeds(d: Dispatch) {
    AllValid(d.c) && AllValid(d.r) && AllValid(d.d)
  }

  /** Over any run, failed dispatches included, a receiver's calls follow the protocol; if none
      fails, every bracket is closed and carries one event id only. */
  lemma {:induction false} RunFollows(first: nat, ds: seq<Dispatch>)
    ensures Follows(HearRun(first, ds))
    ensures (forall i | 0 <= i < |ds| :: Succeeds(ds[i])) ==>
              !HearRun(first, ds).ready && Scan(HearRun(first, ds).calls, true).Idle?
    decreases |ds|
  {
    hide HearEvent;
    if ds != [] {
      var n := |ds| - 1;
      RunFollows(first, ds[..n]);
      HearEventFollows(HearRun(first, ds[..n]), ds[n].keys, first + n, ds[n].c, ds[n].r, ds[n].d);
    }
  }

  // ----- One event id per bracket -------------------------------------------------------

  predicate ValidUpTo(nodes: seq<EventNode>, i: nat)
    requires i < |nodes|
  {
    forall j | 0 <= j <= i :: nodes[j].valid
  }

  /** Some node before the first invalid one has a registered prefix. */
  predicate HeardIn(keys: set<string>, nodes: seq<EventNode>) {
    exists i | 0 <= i < |nodes| :: ValidUpTo(nodes, i) && Deliveries(keys, nodes[i].path) > 0
  }

  /** The dispatch delivers something before it ends or fails. */
  predicate Heard(d: Dispatch) {
    || HeardIn(d.keys, d.c)
    || (AllValid(d.c) && HeardIn(d.keys, d.r))
    || (AllValid(d.c) && AllValid(d.r) && HeardIn(d.keys, d.d))
  }

  /** The dispatch fails after the receiver has heard of it. */
  predicate LeavesOpen(d: Dispatch) {
    !Succeeds(d) && Heard(d)
  }

  predicate SomeLeftOpen(ds: seq<Dispatch>) {
    exists i | 0 <= i < |ds| :: LeavesOpen(ds[i])
  }

  /** A dispatch fails half-way, and a later one delivers something or gets to completing. */
  predicate Mixes(ds: seq<Dispatch>) {
    exists i, j | 0 <= i < j < |ds| :: LeavesOpen(ds[i]) && (Succeeds(ds[j]) || Heard(ds[j]))
  }

  lemma HeardInStep(keys: set<string>, nodes: seq<EventNode>)
    ensures HeardIn(keys, nodes) <==>
            && nodes != [] && nodes[0].valid
            && (Deliveries(keys, nodes[0].path) > 0 || HeardIn(keys, nodes[1..]))
  {
    hide Deliveries;
    if HeardIn(keys, nodes) {
      var i :| 0 <= i < |nodes| && ValidUpTo(nodes, i) && Deliveries(keys, nodes[i].path) > 0;
      if i > 0 {
        assert nodes[1..][i - 1] == nodes[i];
        assert ValidUpTo(nodes[1..], i - 1);
      }
    }
    if nodes != [] && nodes[0].valid {
      assert ValidUpTo(nodes, 0);
      if i :| 0 <= i < |nodes[1..]| && ValidUpTo(nodes[1..], i) && Deliveries(keys, nodes[1..][i].path) > 0 {
        assert forall j | 0 < j <= i + 1 :: nodes[j] == nodes[1..][j - 1];
        assert ValidUpTo(nodes, i + 1);
      }
    }
  }

  lemma {:induction false} HearTimesReady(h: Hearing, n: nat, eid: nat, typ: EventType, path: Path)
    ensures HearTimes(h, n, eid, typ, path).ready == (n > 0 || h.ready)
  {
    if n > 0 {
      HearTimesReady(h, n - 1, eid, typ, path);
    }
  }

  /** Events under another id break an open bracket. */
  lemma {:induction false} HearOtherId(h: Hearing, n: nat, eid: nat, other: nat, typ: EventType, path: Path)
    requires h.ready && FollowsStrictly(h, eid) && other != eid
    ensures Scan(HearTimes(h, n, other, typ, path).calls, true) == if n > 0 then Broken else Receiving(eid)
  {
    if n > 0 {
      HearOtherId(h, n - 1, eid, other, typ, path);
      HearTimesReady(h, n - 1, other, typ, path);
      var before := HearTimes(h, n - 1, other, typ, path);
      assert before.calls + [] == before.calls;
      ScanSnoc(before.calls, EventReceive(other, typ, path));
    }
  }

  lemma HearBroken(h: Hearing, eid: nat, typ: EventType, path: Path)
    requires Scan(h.calls, true).Broken?
    ensures Scan(Hear(h, eid, typ, path).calls, true).Broken?
  {
    var begun := h.calls + if h.ready then [] else [EventStart(eid)];
    if h.ready {
      assert begun == h.calls;
    } else {
      ScanSnoc(h.calls, EventStart(eid));
    }
    ScanSnoc(begun, EventReceive(eid, typ, path));
  }

  lemma {:induction false} HearTimesBroken(h: Hearing, n: nat, eid: nat, typ: EventType, path: Path)
    requires Scan(h.calls, true).Broken?
    ensures Scan(HearTimes(h, n, eid, typ, path).calls, true).Broken?
  {
    if n > 0 {
      HearTimesBroken(h, n - 1, eid, typ, path);
      HearBroken(HearTimes(h, n - 1, eid, typ, path), eid, typ, path);
    }
  }

  lemma {:induction false} HearNodesBroken(h: Hearing, keys: set<string>, eid: nat, typ: EventType,
                                           nodes: seq<EventNode>)
    requires Scan(h.calls, true).Broken?
    ensures Scan(HearNodes(h, keys, eid, typ, nodes).calls, true).Broken?
    decreases |nodes|
  {
    if nodes != [] && nodes[0].valid {
      var n := Deliveries(keys, nodes[0].path);
      HearTimesBroken(h, n, eid, typ, nodes[0].path);
      HearNodesBroken(HearTimes(h, n, eid, typ, nodes[0].path), keys, eid, typ, nodes[1..]);
    }
  }

  /** Only what is heard changes a receiver. */
  lemma {:induction false} HearNodesReady(h: Hearing, keys: set<string>, eid: nat, typ: EventType,
                                          nodes: seq<EventNode>)
    ensures !HeardIn(keys, nodes) ==> HearNodes(h, keys, eid, typ, nodes) == h
    ensures HearNodes(h, keys, eid, typ, nodes).ready == (h.ready || HeardIn(keys, nodes))
    decreases |nodes|
  {
    hide HeardIn, Deliveries;
    HeardInStep(keys, nodes);
    if nodes != [] && nodes[0].valid {
      var n := Deliveries(keys, nodes[0].path);
      HearTimesReady(h, n, eid, typ, nodes[0].path);
      HearNodesReady(HearTimes(h, n, eid, typ, nodes[0].path), keys, eid, typ, nodes[1..]);
    }
  }

  /** Whatever is heard under another id breaks an open bracket. */
  lemma {:induction false} HearNodesOtherId(h: Hearing, keys: set<string>, eid: nat, other: nat, typ: EventType,
                                            nodes: seq<EventNode>)
    requires h.ready && FollowsStrictly(h, eid) && other != eid && HeardIn(keys, nodes)
    ensures Scan(HearNodes(h, keys, other, typ, nodes).calls, true).Broken?
    decreases |nodes|
  {
    hide HeardIn, Deliveries;
    HeardInStep(keys, nodes);
    var n := Deliveries(keys, nodes[0].path);
    HearOtherId(h, n, eid, other, typ, nodes[0].path);
    if n > 0 {
      HearNodesBroken(HearTimes(h, n, other, typ, nodes[0].path), keys, other, typ, nodes[1..]);
    } else {
      HearNodesOtherId(h, keys, eid, other, typ, nodes[1..]);
    }
  }

  /** One dispatch and an idle receiver. */
  lemma HearEventIdle(h: Hearing, d: Dispatch, eid: nat)
    requires !h.ready && Scan(h.calls, true).Idle?
    ensures var after := HearEvent(h, d.keys, eid, d.c, d.r, d.d);
      && after.ready == LeavesOpen(d)
      && FollowsStrictly(after, eid)
  {
    hide HearNodes, HeardIn, Scan, AllValid;
    var h1 := HearNodes(h, d.keys, eid, EventCreate, d.c);
    var h2 := HearNodes(h1, d.keys, eid, EventReplace, d.r);
    var h3 := HearNodes(h2, d.keys, eid, EventDelete, d.d);
    HearNodesReady(h, d.keys, eid, EventCreate, d.c);
    HearNodesReady(h1, d.keys, eid, EventReplace, d.r);
    HearNodesReady(h2, d.keys, eid, EventDelete, d.d);
    HearNodesFollows(h, d.keys, eid, EventCreate, d.c);
    HearNodesFollows(h1, d.keys, eid, EventReplace, d.r);
    HearNodesFollows(h2, d.keys, eid, EventDelete, d.d);
    Completes(h3, eid, eid);
  }

  lemma Completes(h: Hearing, b: nat, eid: nat)
    ensures var after := Scan(h.calls + [EventComplete(eid)], true);
      && (Scan(h.calls, true).Broken? ==> after.Broken?)
      && (h.ready && FollowsStrictly(h, b) ==> after == if b == eid then Idle else Broken)
  {
    ScanSnoc(h.calls, EventComplete(eid));
  }

  /** One dispatch and a receiver with a bracket open under another id: it breaks, or does not
      notice the dispatch at all. */
  lemma HearEventOpen(h: Hearing, d: Dispatch, b: nat, eid: nat)
    requires h.ready && FollowsStrictly(h, b) && b != eid
    ensures var after := HearEvent(h, d.keys, eid, d.c, d.r, d.d);
      if Succeeds(d) || Heard(d) then Scan(after.calls, true).Broken? else after == h
  {
    hide HearNodes, HeardIn, Scan, AllValid;
    var h1 := HearNodes(h, d.keys, eid, EventCreate, d.c);
    var h2 := HearNodes(h1, d.keys, eid, EventReplace, d.r);
    var h3 := HearNodes(h2, d.keys, eid, EventDelete, d.d);
    OpenAfter(h, h, d.keys, b, eid, EventCreate, d.c);
    OpenAfter(h, h1, d.keys, b, eid, EventReplace, d.r);
    OpenAfter(h, h2, d.keys, b, eid, EventDelete, d.d);
    Completes(h3, b, eid);
  }

  /** A receiver whose bracket was open in `h` and that has heard nothing since, or too much. */
  ghost predicate OpenOrBroken(h: Hearing, now: Hearing) {
    now == h || (now.ready && Scan(now.calls, true).Broken?)
  }

  lemma OpenAfter(h: Hearing, now: Hearing, keys: set<string>, b: nat, eid: nat, typ: EventType, nodes: seq<EventNode>)
    requires h.ready && FollowsStrictly(h, b) && b != eid && OpenOrBroken(h, now)
    ensures var after := HearNodes(now, keys, eid, typ, nodes);
      OpenOrBroken(h, after) && (after == h <==> now == h && !HeardIn(keys, nodes))
  {
    hide HearNodes, HeardIn;
    HearNodesReady(now, keys, eid, typ, nodes);
    if now != h {
      HearNodesBroken(now, keys, eid, typ, nodes);
    } else if HeardIn(keys, nodes) {
      HearNodesOtherId(h, keys, b, eid, typ, nodes);
    }
  }

  lemma HearEventBroken(h: Hearing, d: Dispatch, eid: nat)
    requires Scan(h.calls, true).Broken?
    ensures Scan(HearEvent(h, d.keys, eid, d.c, d.r, d.d).calls, true).Broken?
  {
    hide HearNodes, Scan;
    var h1 := HearNodes(h, d.keys, eid, EventCreate, d.c);
    var h2 := HearNodes(h1, d.keys, eid, EventReplace, d.r);
    var h3 := HearNodes(h2, d.keys, eid, EventDelete, d.d);
    HearNodesBroken(h, d.keys, eid, EventCreate, d.c);
    HearNodesBroken(h1, d.keys, eid, EventReplace, d.r);
    HearNodesBroken(h2, d.keys, eid, EventDelete, d.d);
    Completes(h3, eid, eid);
  }

  lemma MixesSnoc(ds: seq<Dispatch>)
    requires ds != []
    ensures var n := |ds| - 1;
      && (SomeLeftOpen(ds) <==> SomeLeftOpen(ds[..n]) || LeavesOpen(ds[n]))
      && (Mixes(ds) <==> Mixes(ds[..n]) || (SomeLeftOpen(ds[..n]) && (Succeeds(ds[n]) || Heard(ds[n]))))
  {
    hide LeavesOpen, Succeeds, Heard;
    var n := |ds| - 1;
    assert forall i | 0 <= i < n :: ds[..n][i] == ds[i];
  }

  /** Where a receiver is after any run, failures included. */
  lemma {:induction false} RunPhase(first: nat, ds: seq<Dispatch>)
    ensures var h := HearRun(first, ds);
      var phase := Scan(h.calls, true);
      if Mixes(ds) then phase.Broken?
      else if SomeLeftOpen(ds) then h.ready && phase.Receiving? && first <= phase.eid < first + |ds|
      else !h.ready && phase.Idle?
    decreases |ds|
  {
    hide HearEvent, Mixes, SomeLeftOpen, Heard, Succeeds;
    if ds == [] {
      EmptyRun();
    } else {
      var n := |ds| - 1;
      var before := HearRun(first, ds[..n]);
      RunPhase(first, ds[..n]);
      MixesSnoc(ds);
      if Mixes(ds[..n]) {
        HearEventBroken(before, ds[n], first + n);
      } else if SomeLeftOpen(ds[..n]) {
        HearEventOpen(before, ds[n], Scan(before.calls, true).eid, first + n);
      } else {
        HearEventIdle(before, ds[n], first + n);
      }
    }
  }

  lemma EmptyRun()
    ensures !Mixes([]) && !SomeLeftOpen([])
  {
  }

  /** Exact condition: over a run every bracket carries one event id if and only if no dispatch
      that failed after delivering something is followed by one that delivers or succeeds. */
  lemma OneIdExactly(first: nat, ds: seq<Dispatch>)
    ensures !Scan(HearRun(first, ds).calls, true).Broken? <==> !Mixes(ds)
  {
    RunPhase(first, ds);
  }

  /** The smallest such run: a node that is heard and an invalid one, and then the node again. */
  lemma FailureMixesIds(p: Path, keys: set<string>, first: nat)
    requires Deliveries(keys, p) > 0
    ensures var node := EventNode(p, true);
      var ds := [Dispatch(keys, [node, EventNode(p, false)], [], []), Dispatch(keys, [node], [], [])];
      Scan(HearRun(first, ds).calls, true).Broken?
  {
    hide Deliveries;
    var node := EventNode(p, true);
    var failed, next := Dispatch(keys, [node, EventNode(p, false)], [], []), Dispatch(keys, [node], [], []);
    assert ValidUpTo(failed.c, 0) && HeardIn(keys, failed.c) && !failed.c[1].valid;
    assert Succeeds(next);
    var ds := [failed, next];
    assert LeavesOpen(ds[0]) && Succeeds(ds[1]);
    OneIdExactly(first, ds);
  }

  // ----- What a successful dispatch delivers --------------------------------------------

  datatype Event = Event(typ: EventType, path: Path)

  function Repeat(e: Event, n: nat): seq<Event> {
    seq(n, _ => e)
  }

  /** The events of one kind that reach a receiver, in order. */
  function Delivered(keys: set<string>, typ: EventType, ps: seq<Path>): seq<Event> {
    if ps == [] then []
    else Repeat(Event(typ, ps[0]), Deliveries(keys, ps[0])) + Delivered(keys, typ, ps[1..])
  }

  function DeliveredAll(keys: set<string>, c: seq<Path>, r: seq<Path>, d: seq<Path>): seq<Event> {
    Delivered(keys, EventCreate, c) + Delivered(keys, EventReplace, r) + Delivered(keys, EventDelete, d)
  }

  function AsReceives(eid: nat, evs: seq<Event>): seq<RecvCall> {
    seq(|evs|, i requires 0 <= i < |evs| => EventReceive(eid, evs[i].typ, evs[i].path))
  }

  function AsNodes(ps: seq<Path>): seq<EventNode> {
    seq(|ps|, i requires 0 <= i < |ps| => EventNode(ps[i], true))
  }

  /** Hearing the events one by one, opening the bracket at the first. */
  function HearSeq(h: Hearing, eid: nat, evs: seq<Event>): Hearing {
    if evs == [] then h
    else Hearing(true, h.calls + (if h.ready then [] else [EventStart(eid)]) + AsReceives(eid, evs))
  }

  lemma HearSeqAppend(h: Hearing, eid: nat, a: seq<Event>, b: seq<Event>)
    ensures HearSeq(HearSeq(h, eid, a), eid, b) == HearSeq(h, eid, a + b)
  {
  }

  lemma {:induction false} HearTimesIsSeq(h: Hearing, n: nat, eid: nat, typ: EventType, path: Path)
    ensures HearTimes(h, n, eid, typ, path) == HearSeq(h, eid, Repeat(Event(typ, path), n))
  {
    var e := Event(typ, path);
    if n > 0 {
      HearTimesIsSeq(h, n - 1, eid, typ, path);
      assert Repeat(e, n) == Repeat(e, n - 1) + [e];
      assert AsReceives(eid, [e]) == [EventReceive(eid, typ, path)];
      HearSeqAppend(h, eid, Repeat(e, n - 1), [e]);
    }
  }

  lemma {:induction false} HearNodesIsSeq(h: Hearing, keys: set<string>, eid: nat, typ: EventType, ps: seq<Path>)
    ensures HearNodes(h, keys, eid, typ, AsNodes(ps)) == HearSeq(h, eid, Delivered(keys, typ, ps))
    decreases |ps|
  {
    if ps != [] {
      var n := Deliveries(keys, ps[0]);
      HearTimesIsSeq(h, n, eid, typ, ps[0]);
      assert AsNodes(ps)[1..] == AsNodes(ps[1..]);
      HearNodesIsSeq(HearTimes(h, n, eid, typ, ps[0]), keys, eid, typ, ps[1..]);
      HearSeqAppend(h, eid, Repeat(Event(typ, ps[0]), n), Delivered(keys, typ, ps[1..]));
    }
  }

  /** A successful dispatch gives an idle receiver exactly one bracket with exactly the
      delivered events in it, or nothing at all when no event concerns it. */
  lemma HearEventExactly(h: Hearing, keys: set<string>, eid: nat, c: seq<Path>, r: seq<Path>, d: seq<Path>)
    requires !h.ready
    ensures var evs := DeliveredAll(keys, c, r, d);
      HearEvent(h, keys, eid, AsNodes(c), AsNodes(r), AsNodes(d)) ==
      if evs == [] then h
      else Hearing(false, h.calls + [EventStart(eid)] + AsReceives(eid, evs) + [EventComplete(eid)])
  {
    var ec, er := Delivered(keys, EventCreate, c), Delivered(keys, EventReplace, r);
    var ed := Delivered(keys, EventDelete, d);
    HearNodesIsSeq(h, keys, eid, EventCreate, c);
    HearNodesIsSeq(HearSeq(h, eid, ec), keys, eid, EventReplace, r);
    HearSeqAppend(h, eid, ec, er);
    HearNodesIsSeq(HearSeq(h, eid, ec + er), keys, eid, EventDelete, d);
    HearSeqAppend(h, eid, ec + er, ed);
    assert AllValid(AsNodes(c)) && AllValid(AsNodes(r)) && AllValid(AsNodes(d));
  }

  /** An event is delivered at all when some registered string is a prefix of its path, or,
      for list data, of its schema path. */
  lemma DeliveredPaths(keys: set<string>, typ: EventType, ps: seq<Path>, e: Event)
    ensures e in Delivered(keys, typ, ps) <==> e.typ == typ && e.path in ps && Deliveries(keys, e.path) > 0
  {
    if ps != [] {
      DeliveredPaths(keys, typ, ps[1..], e);
      var n := Deliveries(keys, ps[0]);
      var first := Repeat(Event(typ, ps[0]), n);
      assert n > 0 ==> first[0] == Event(typ, ps[0]);
      assert e in Delivered(keys, typ, ps) <==> e in first || e in Delivered(keys, typ, ps[1..]);
      assert e.path in ps <==> e.path == ps[0] || e.path in ps[1..];
    }
  }

  function Rank(typ: EventType): nat {
    match typ
    case EventCreate => 0
    case EventReplace => 1
    case EventDelete => 2
  }

  lemma KindOf(keys: set<string>, typ: EventType, ps: seq<Path>)
    ensures forall i | 0 <= i < |Delivered(keys, typ, ps)| :: Delivered(keys, typ, ps)[i].typ == typ
  {
  }

  /** All creations come before all replacements, and these before all deletions. */
  lemma {:induction false} KindsInOrder(keys: set<string>, c: seq<Path>, r: seq<Path>, d: seq<Path>, i: nat, j: nat)
    requires i < j < |DeliveredAll(keys, c, r, d)|
    ensures var evs := DeliveredAll(keys, c, r, d);
      Rank(evs[i].typ) <= Rank(evs[j].typ)
  {
    KindOf(keys, EventCreate, c);
    KindOf(keys, EventReplace, r);
    KindOf(keys, EventDelete, d);
  }

  /** The events of one kind come in the order of their nodes. */
  lemma {:induction false} NodesInOrder(keys: set<string>, typ: EventType, ps: seq<Path>, qs: seq<Path>)
    ensures Delivered(keys, typ, ps + qs) == Delivered(keys, typ, ps) + Delivered(keys, typ, qs)
    decreases |ps|
  {
    if ps == [] {
      assert ps + qs == qs;
    } else {
      NodesInOrder(keys, typ, ps[1..], qs);
      DeliveredFirst(keys, typ, ps);
      DeliveredFirst(keys, typ, ps + qs);
      hide Delivered, Deliveries, Repeat;
      assert (ps + qs)[1..] == ps[1..] + qs && (ps + qs)[0] == ps[0];
    }
  }

  lemma {:induction false} DeliveredFirst(keys: set<string>, typ: EventType, ps: seq<Path>)
    requires ps != []
    ensures Delivered(keys, typ, ps) ==
            Repeat(Event(typ, ps[0]), Deliveries(keys, ps[0])) + Delivered(keys, typ, ps[1..])
  {
  }

  /** The number of events delivered for one path. */
  function Occurrences(e: Event, evs: seq<Event>): nat {
    multiset(evs)[e]
  }

  /** Exact delivery: an event raised once is delivered exactly `Deliveries` times. */
  lemma {:induction false} DeliveredExactly(keys: set<string>, typ: EventType, ps: seq<Path>, p: Path)
    ensures Occurrences(Event(typ, p), Delivered(keys, typ, ps)) == multiset(ps)[p] * Deliveries(keys, p)
    decreases |ps|
  {
    hide Deliveries;
    if ps != [] {
      var e, first := Event(typ, p), Event(typ, ps[0]);
      var n, rest := Deliveries(keys, ps[0]), Delivered(keys, typ, ps[1..]);
      DeliveredExactly(keys, typ, ps[1..], p);
      RepeatOccurrences(first, n, e);
      OccurrencesAppend(e, Repeat(first, n), rest);
      HeadCount(ps, p, Deliveries(keys, p));
    }
  }

  lemma OccurrencesAppend(e: Event, a: seq<Event>, b: seq<Event>)
    ensures Occurrences(e, a + b) == Occurrences(e, a) + Occurrences(e, b)
  {
  }

  lemma HeadCount(ps: seq<Path>, p: Path, n: nat)
    requires ps != []
    ensures multiset(ps)[p] * n == multiset(ps[1..])[p] * n + if ps[0] == p then n else 0
  {
    assert ps == [ps[0]] + ps[1..];
    var m := multiset(ps[1..])[p];
    assert multiset(ps)[p] == m + if ps[0] == p then 1 else 0;
    assert (m + 1) * n == m * n + n;
  }

  lemma {:induction false} RepeatOccurrences(e: Event, n: nat, f: Event)
    ensures Occurrences(f, Repeat(e, n)) == if e == f then n else 0
  {
    if n > 0 {
      RepeatOccurrences(e, n - 1, f);
      assert Repeat(e, n) == Repeat(e, n - 1) + [e];
    }
  }

  // ----- What the protocol allows -------------------------------------------------------

  /** One bracket: a start, events, and the completion, all under one id. */
  datatype Bracket = Bracket(eid: nat, events: seq<Event>)

  function BracketCalls(b: Bracket): seq<RecvCall> {
    [EventStart(b.eid)] + AsReceives(b.eid, b.events) + [EventComplete(b.eid)]
  }

  function AllCalls(bs: seq<Bracket>): seq<RecvCall> {
    if bs == [] then [] else AllCalls(bs[..|bs| - 1]) + BracketCalls(bs[|bs| - 1])
  }

  predicate NoneEmpty(bs: seq<Bracket>) {
    forall i | 0 <= i < |bs| :: bs[i].events != []
  }

  /** Brackets with events, and then what `phase` says of an open one with the events `evs`. */
  predicate Shaped(calls: seq<RecvCall>, phase: Phase, bs: seq<Bracket>, evs: seq<Event>) {
    && NoneEmpty(bs)
    && match phase
       case Idle => calls == AllCalls(bs)
       case Begun(e) => calls == AllCalls(bs) + [EventStart(e)]
       case Receiving(e) => evs != [] && calls == AllCalls(bs) + [EventStart(e)] + AsReceives(e, evs)
       case Broken => false
  }

  lemma AsReceivesSnoc(eid: nat, evs: seq<Event>, e: Event)
    ensures AsReceives(eid, evs + [e]) == AsReceives(eid, evs) + [EventReceive(eid, e.typ, e.path)]
  {
  }

  lemma {:induction false} AllCallsSnoc(bs: seq<Bracket>, b: Bracket)
    ensures AllCalls(bs + [b]) ==
            AllCalls(bs) + [EventStart(b.eid)] + AsReceives(b.eid, b.events) + [EventComplete(b.eid)]
  {
    assert (bs + [b])[..|bs|] == bs;
  }

  lemma {:induction false} ScanShape(calls: seq<RecvCall>) returns (bs: seq<Bracket>, evs: seq<Event>)
    requires !Scan(calls, true).Broken?
    ensures Shaped(calls, Scan(calls, true), bs, evs)
    decreases |calls|
  {
    bs, evs := [], [];
    if calls != [] {
      var before, c := calls[..|calls| - 1], calls[|calls| - 1];
      assert calls == before + [c];
      bs, evs := ScanShape(before);
      match c
      case EventStart(_) =>
      case EventReceive(e, typ, path) =>
        if Scan(before, true).Begun? {
          evs := [];
          assert AsReceives(e, []) == [];
        }
        AsReceivesSnoc(e, evs, Event(typ, path));
        evs := evs + [Event(typ, path)];
      case EventComplete(e) =>
        AllCallsSnoc(bs, Bracket(e, evs));
        bs := bs + [Bracket(e, evs)];
    }
  }

  /** One call more, in a bracket of one id. */
  lemma {:induction false} ScanNext(calls: seq<RecvCall>, eid: nat, typ: EventType, path: Path)
    ensures var phase := Scan(calls, true);
      && (phase.Idle? ==> Scan(calls + [EventStart(eid)], true) == Begun(eid))
      && (phase == Begun(eid) || phase == Receiving(eid) ==>
            Scan(calls + [EventReceive(eid, typ, path)], true) == Receiving(eid))
      && (phase == Receiving(eid) ==> Scan(calls + [EventComplete(eid)], true) == Idle)
  {
    ScanSnoc(calls, EventStart(eid));
    ScanSnoc(calls, EventReceive(eid, typ, path));
    ScanSnoc(calls, EventComplete(eid));
  }

  lemma {:induction false} ScanOpen(calls: seq<RecvCall>, eid: nat, evs: seq<Event>)
    requires Scan(calls, true).Idle?
    ensures Scan(calls + [EventStart(eid)] + AsReceives(eid, evs), true) ==
            if evs == [] then Begun(eid) else Receiving(eid)
    decreases |evs|
  {
    hide Scan;
    if evs == [] {
      ScanNext(calls, eid, EventCreate, []);
      assert calls + [EventStart(eid)] + AsReceives(eid, evs) == calls + [EventStart(eid)];
    } else {
      var n := |evs| - 1;
      ScanOpen(calls, eid, evs[..n]);
      assert evs == evs[..n] + [evs[n]];
      AsReceivesSnoc(eid, evs[..n], evs[n]);
      var before := calls + [EventStart(eid)] + AsReceives(eid, evs[..n]);
      var last := EventReceive(eid, evs[n].typ, evs[n].path);
      assert calls + [EventStart(eid)] + AsReceives(eid, evs) == before + [last];
      ScanNext(before, eid, evs[n].typ, evs[n].path);
    }
  }

  lemma {:induction false} ScanBrackets(bs: seq<Bracket>)
    requires NoneEmpty(bs)
    ensures Scan(AllCalls(bs), true).Idle?
    decreases |bs|
  {
    if bs != [] {
      hide Scan;
      var before, b := bs[..|bs| - 1], bs[|bs| - 1];
      ScanBrackets(before);
      ScanOpen(AllCalls(before), b.eid, b.events);
      var open := AllCalls(before) + [EventStart(b.eid)] + AsReceives(b.eid, b.events);
      assert AllCalls(bs) == open + [EventComplete(b.eid)];
      ScanNext(open, b.eid, EventCreate, []);
    }
  }

  /** The automaton accepts exactly the prefixes of (Start Receive+ Complete)* with one id per
      bracket, and knows how far the last bracket is. */
  lemma ProtocolExactly(calls: seq<RecvCall>, phase: Phase)
    ensures (exists bs, evs :: Shaped(calls, phase, bs, evs)) <==> Scan(calls, true) == phase && !phase.Broken?
  {
    if bs, evs :| Shaped(calls, phase, bs, evs) {
      ScanBrackets(bs);
      match phase
      case Idle =>
      case Begun(e) =>
        ScanOpen(AllCalls(bs), e, []);
        assert AllCalls(bs) + [EventStart(e)] + AsReceives(e, []) == AllCalls(bs) + [EventStart(e)];
      case Receiving(e) => ScanOpen(AllCalls(bs), e, evs);
      case Broken =>
    }
    if !Scan(calls, true).Broken? {
      var bs, evs := ScanShape(calls);
    }
  }

  function Anonymous(calls: seq<RecvCall>): seq<RecvCall> {
    seq(|calls|, i requires 0 <= i < |calls| =>
      match calls[i]
      case EventStart(_) => EventStart(0)
      case EventReceive(_, typ, path) => EventReceive(0, typ, path)
      case EventComplete(_) => EventComplete(0))
  }

  /** Without regard to the ids it accepts what is such a prefix when the ids are taken away. */
  lemma {:induction false} IdsAside(calls: seq<RecvCall>)
    ensures var loose, strict := Scan(calls, false), Scan(Anonymous(calls), true);
      && (loose.Idle? <==> strict.Idle?) && (loose.Begun? <==> strict.Begun?)
      && (loose.Receiving? <==> strict.Receiving?) && (loose.Broken? <==> strict.Broken?)
      && (strict.Begun? || strict.Receiving? ==> strict.eid == 0)
    decreases |calls|
  {
    if calls != [] {
      var before, c := calls[..|calls| - 1], calls[|calls| - 1];
      IdsAside(before);
      assert Anonymous(calls)[..|calls| - 1] == Anonymous(before);
    }
  }
}
