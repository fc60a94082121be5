/** Telemetry as functions: how a subscriber gathers events into batches, what message a
    batch becomes, and what a client makes of the message. */
module TelemetryModel {
  import opened DataTree
  import opened EventModel

  datatype StreamMode = TARGET_DEFINED | ON_CHANGE | SAMPLE

  /** The changes gathered since the last batch; the tables count the events per path. */
  datatype Batch = Batch(changes: Option<Tree>, updated: map<Path, nat>, deleted: map<Path, nat>)

  const EMPTY_BATCH := Batch(None, map[], map[])

  function Count(m: map<Path, nat>, p: Path): nat {
    if p in m then m[p] else 0
  }

  function Bump(m: map<Path, nat>, p: Path): map<Path, nat> {
    m[p := Count(m, p) + 1]
  }

  predicate Writes(typ: EventType) {
    typ == EventCreate || typ == EventReplace
  }

  predicate Erases(typ: EventType) {
    typ == EventReplace || typ == EventDelete
  }

  /** The copied data with those at a written path, as they are in the tree now. */
  function Copied(root: Tree, changes: Option<Tree>, e: Event): Option<Tree> {
    var base := if changes.Some? then changes.value else EMPTY_ROOT;
    Some(if Writes(e.typ) && e.path in root then Graft(base, e.path, Subtree(root, e.path).value) else base)
  }

  /** The batch with the event counted. */
  function Tallied(b: Batch, e: Event): Batch {
    Batch(b.changes,
          if Writes(e.typ) then Bump(b.updated, e.path) else b.updated,
          if Erases(e.typ) then Bump(b.deleted, e.path) else b.deleted)
  }

  /** One event.  An ON_CHANGE subscriber also copies the data as it is at that moment. */
  function ReceiveEvent(mode: StreamMode, root: Tree, pending: Option<Batch>, e: Event): Batch {
    var b := if pending.Some? then pending.value else EMPTY_BATCH;
    Tallied(if mode == ON_CHANGE then b.(changes := Copied(root, b.changes, e)) else b, e)
  }

  /** What one event leaves in a batch: a creation or replacement counts as an update of its path,
      a replacement or deletion as a deletion, and no other count changes.  Only a subscriber on
      change copies data, and only of what was written. */
  lemma ReceiveExactly(mode: StreamMode, root: Tree, b: Batch, e: Event, p: Path)
    ensures var after := ReceiveEvent(mode, root, Some(b), e);
      && Count(after.updated, p) ==
         Count(b.updated, p) + (if p == e.path && (e.typ == EventCreate || e.typ == EventReplace) then 1 else 0)
      && Count(after.deleted, p) ==
         Count(b.deleted, p) + (if p == e.path && (e.typ == EventReplace || e.typ == EventDelete) then 1 else 0)
      && (mode != ON_CHANGE ==> after.changes == b.changes)
      && (mode == ON_CHANGE && b.changes.Some? && (e.typ == EventDelete || e.path !in root) ==>
          after.changes == b.changes)
    ensures ReceiveEvent(mode, root, None, e) == ReceiveEvent(mode, root, Some(Batch(None, map[], map[])), e)
  {
  }

  function ReceiveAll(mode: StreamMode, root: Tree, pending: Option<Batch>, evs: seq<Event>): Option<Batch> {
    if evs == [] then pending
    else Some(ReceiveEvent(mode, root, ReceiveAll(mode, root, pending, evs[..|evs| - 1]), evs[|evs| - 1]))
  }

  // ----- Messages -----------------------------------------------------------------------

  /** What is subscribed: a prefix and paths relative to it. */
  datatype Subscription = Subscription(prefix: Path, paths: seq<Path>)

  /** A notification with the absolute paths a client resolves it to. */
  datatype Message = Message(deletes: set<Path>, updates: Tree)

  /** `p` selects `k`, as a data path or, across lists, as a schema path. */
  predicate Covers(p: Path, k: Path) {
    Under(p, k) || Under(p, Strip(k))
  }

  predicate Selects(sub: Subscription, k: Path) {
    Under(sub.prefix, k) && exists i | 0 <= i < |sub.paths| :: Covers(sub.paths[i], k[|sub.prefix|..])
  }

  /** What a subscription shows of a tree. */
  function Show(sub: Subscription, t: Tree): Tree {
    map k | k in t && Selects(sub, k) :: t[k]
  }

  function DeletedPaths(event: Option<Batch>): set<Path> {
    if event.Some? then event.value.deleted.Keys else {}
  }

  /** The message built from `source`.  When the prefix is not in `source`, the deleted paths
      are sent relative to the root, and a client puts the prefix in front of them again. */
  function Telemetry(sub: Subscription, source: Tree, event: Option<Batch>): Message {
    if sub.prefix !in source then
      Message((set d | d in DeletedPaths(event) :: sub.prefix + d), map[])
    else
      Message((set d | d in DeletedPaths(event) && Under(sub.prefix, d)), Show(sub, source))
  }

  /** The message for a batch taken from the event queue. */
  function BatchMessage(sub: Subscription, b: Batch): Message {
    Telemetry(sub, if b.changes.Some? then b.changes.value else map[], Some(b))
  }

  predicate Deletes(msg: Message, k: Path) {
    exists d :: d in msg.deletes && Under(d, k)
  }

  /** A client applies the deletes of a message, then its updates. */
  function ApplyMessage(mirror: Tree, msg: Message): Tree {
    (map k | k in mirror && !Deletes(msg, k) :: mirror[k]) + msg.updates
  }

  /** The mirror after all queued batches have been sent. */
  function Drain(sub: Subscription, mirror: Tree, queue: seq<Batch>): Tree {
    if queue == [] then mirror
    else ApplyMessage(Drain(sub, mirror, queue[..|queue| - 1]), BatchMessage(sub, queue[|queue| - 1]))
  }

  lemma ShowAt(sub: Subscription, t: Tree, k: Path)
    ensures At(Show(sub, t), k) == if Selects(sub, k) then At(t, k) else None
  {
  }

  lemma ApplyAt(mirror: Tree, msg: Message, k: Path)
    ensures At(ApplyMessage(mirror, msg), k) ==
            if k in msg.updates then Some(msg.updates[k])
            else if Deletes(msg, k) then None
            else At(mirror, k)
  {
  }

  lemma {:induction false} DrainHead(sub: Subscription, mirror: Tree, queue: seq<Batch>)
    requires queue != []
    ensures Drain(sub, mirror, queue) == Drain(sub, ApplyMessage(mirror, BatchMessage(sub, queue[0])), queue[1..])
    decreases |queue|
  {
    hide ApplyMessage, BatchMessage;
    if |queue| > 1 {
      var n := |queue| - 1;
      DrainHead(sub, mirror, queue[..n]);
      assert queue[1..][..n - 1] == queue[..n][1..];
    } else {
      assert queue[..0] == [] && queue[1..] == [];
    }
  }

  /** At any one path a queue of batches either overrides what a mirror held or leaves it alone. */
  lemma {:induction false} DrainOverridesOrKeeps(sub: Subscription, x: Tree, y: Tree, queue: seq<Batch>, k: Path)
    ensures || At(Drain(sub, x, queue), k) == At(Drain(sub, y, queue), k)
            || (At(Drain(sub, x, queue), k) == At(x, k) && At(Drain(sub, y, queue), k) == At(y, k))
    decreases |queue|
  {
    if queue != [] {
      var n := |queue| - 1;
      DrainOverridesOrKeeps(sub, x, y, queue[..n], k);
      ApplyAt(Drain(sub, x, queue[..n]), BatchMessage(sub, queue[n]), k);
      ApplyAt(Drain(sub, y, queue[..n]), BatchMessage(sub, queue[n]), k);
    }
  }

  /** A mirror that was ahead of the queue at some paths ends up in the same place. */
  lemma {:induction false} Absorb(sub: Subscription, x: Tree, y: Tree, queue: seq<Batch>, goal: Tree)
    requires Drain(sub, y, queue) == goal
    requires forall k :: At(x, k) == At(y, k) || At(x, k) == At(goal, k)
    ensures Drain(sub, x, queue) == goal
  {
    forall k
      ensures At(Drain(sub, x, queue), k) == At(goal, k)
    {
      DrainOverridesOrKeeps(sub, x, y, queue, k);
    }
    TreesEqual(Drain(sub, x, queue), goal);
  }

  // ----- What a batch holds -------------------------------------------------------------

  /** The batch of a dispatch: its data is data of the tree, complete below every written path,
      and its table of deletions has exactly the erased paths. */
  ghost predicate Faithful(root: Tree, evs: seq<Event>, b: Batch) {
    && b.changes.Some? && [] in b.changes.value
    && (forall k :: k in b.changes.value ==> k in root && root[k] == b.changes.value[k])
    && (forall e, k :: e in evs && Writes(e.typ) && Under(e.path, k) && k in root ==> k in b.changes.value)
    && (forall p :: p in b.deleted <==> exists e :: e in evs && Erases(e.typ) && e.path == p)
  }

  lemma ReceiveFaithful(root: Tree, pending: Option<Batch>, evs: seq<Event>, e: Event)
    requires WellFormed(root)
    requires if pending.Some? then Faithful(root, evs, pending.value) else evs == []
    ensures Faithful(root, evs + [e], ReceiveEvent(ON_CHANGE, root, pending, e))
  {
    var b := ReceiveEvent(ON_CHANGE, root, pending, e);
    var base := if pending.Some? then pending.value.changes.value else EMPTY_ROOT;
    if Writes(e.typ) && e.path in root {
      var s := Subtree(root, e.path).value;
      forall k
        ensures k in b.changes.value ==> k in root && root[k] == b.changes.value[k]
        ensures k in base || (k in root && Under(e.path, k)) ==> k in b.changes.value
      {
        SubtreeAt(root, e.path, k);
        GraftAt(base, e.path, s, k);
        assert k in b.changes.value ==> At(b.changes.value, k) == Some(b.changes.value[k]);
      }
    }
    assert forall f :: f in evs + [e] <==> f in evs || f == e;
    forall p
      ensures p in b.deleted <==> exists f :: f in evs + [e] && Erases(f.typ) && f.path == p
    {
      if p in b.deleted {
        if Erases(e.typ) && p == e.path {
          assert e in evs + [e];
        } else {
          var f :| f in evs && Erases(f.typ) && f.path == p;
          assert f in evs + [e];
        }
      }
    }
  }

  lemma {:induction false} ReceiveAllFaithful(root: Tree, evs: seq<Event>)
    requires WellFormed(root)
    ensures var b := ReceiveAll(ON_CHANGE, root, None, evs);
      if evs == [] then b.None? else b.Some? && Faithful(root, evs, b.value)
    decreases |evs|
  {
    hide ReceiveEvent, Faithful, WellFormed;
    if evs != [] {
      var n := |evs| - 1;
      ReceiveAllFaithful(root, evs[..n]);
      ReceiveFaithful(root, ReceiveAll(ON_CHANGE, root, None, evs[..n]), evs[..n], evs[n]);
      assert evs == evs[..n] + [evs[n]];
    }
  }

  // ----- Conservation -------------------------------------------------------------------

  /** What happens to a subscriber: an event with the tree at that moment, or the end of a set of events. */
  datatype Input = Receive(root: Tree, event: Event) | Complete

  /** The pending batch and everything ever put in the queue. */
  datatype Gathered = Gathered(pending: Option<Batch>, queued: seq<Batch>)

  function Take(mode: StreamMode, g: Gathered, i: Input): Gathered {
    match i
    case Receive(root, e) => g.(pending := Some(ReceiveEvent(mode, root, g.pending, e)))
    case Complete =>
      if mode != ON_CHANGE then g
      else Gathered(None, if g.pending.Some? then g.queued + [g.pending.value] else g.queued)
  }

  function TakeAll(mode: StreamMode, ins: seq<Input>): Gathered {
    if ins == [] then Gathered(None, [])
    else Take(mode, TakeAll(mode, ins[..|ins| - 1]), ins[|ins| - 1])
  }

  function UpdatedIn(bs: seq<Batch>, p: Path): nat {
    if bs == [] then 0 else UpdatedIn(bs[..|bs| - 1], p) + Count(bs[|bs| - 1].updated, p)
  }

  function DeletedIn(bs: seq<Batch>, p: Path): nat {
    if bs == [] then 0 else DeletedIn(bs[..|bs| - 1], p) + Count(bs[|bs| - 1].deleted, p)
  }

  function AllBatches(g: Gathered): seq<Batch> {
    g.queued + if g.pending.Some? then [g.pending.value] else []
  }

  function EventsAt(ins: seq<Input>, p: Path, counts: EventType -> bool): nat {
    if ins == [] then 0
    else
      var i := ins[|ins| - 1];
      EventsAt(ins[..|ins| - 1], p, counts) + if i.Receive? && i.event.path == p && counts(i.event.typ) then 1 else 0
  }

  lemma SumSnoc(bs: seq<Batch>, b: Batch, p: Path)
    ensures UpdatedIn(bs + [b], p) == UpdatedIn(bs, p) + Count(b.updated, p)
    ensures DeletedIn(bs + [b], p) == DeletedIn(bs, p) + Count(b.deleted, p)
  {
  }

  lemma ReceiveCounted(mode: StreamMode, g: Gathered, root: Tree, e: Event, p: Path)
    ensures var after := Take(mode, g, Receive(root, e));
      && UpdatedIn(AllBatches(after), p) ==
         UpdatedIn(AllBatches(g), p) + (if e.path == p && Writes(e.typ) then 1 else 0)
      && DeletedIn(AllBatches(after), p) ==
         DeletedIn(AllBatches(g), p) + (if e.path == p && Erases(e.typ) then 1 else 0)
  {
    hide Graft, Subtree, UpdatedIn, DeletedIn;
    var before := if g.pending.Some? then g.pending.value else EMPTY_BATCH;
    SumSnoc(g.queued, before, p);
    SumSnoc(g.queued, ReceiveEvent(mode, root, g.pending, e), p);
    assert g.pending.None? ==> AllBatches(g) == g.queued;
  }

  lemma CompleteCounted(mode: StreamMode, g: Gathered)
    ensures AllBatches(Take(mode, g, Complete)) == AllBatches(g)
  {
  }

  /** Nothing is lost and nothing counted twice: over any run the writes (erasures) received
      for a path are the sum of its counts over all batches, queued and pending. */
  lemma {:induction false} EventsAreConserved(mode: StreamMode, ins: seq<Input>, p: Path)
    ensures UpdatedIn(AllBatches(TakeAll(mode, ins)), p) == EventsAt(ins, p, Writes)
    ensures DeletedIn(AllBatches(TakeAll(mode, ins)), p) == EventsAt(ins, p, Erases)
    decreases |ins|
  {
    hide Take, AllBatches, UpdatedIn, DeletedIn;
    if ins == [] {
      NothingCounted(p);
    } else {
      var before := TakeAll(mode, ins[..|ins| - 1]);
      EventsAreConserved(mode, ins[..|ins| - 1], p);
      match ins[|ins| - 1]
      case Receive(root, e) => ReceiveCounted(mode, before, root, e, p);
      case Complete => CompleteCounted(mode, before);
    }
  }

  lemma NothingCounted(p: Path)
    ensures UpdatedIn(AllBatches(Gathered(None, [])), p) == 0 && DeletedIn(AllBatches(Gathered(None, [])), p) == 0
  {
  }
}
