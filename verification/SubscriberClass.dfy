/** The telemetry subscriber and the server around it, step by step on their own fields. */
module SubscriberClass {
  import opened DataTree
  import opened EventModel
  import opened TelemetryModel
  import opened Replica
  import Sampling
  import SetModel

  /** A batch as it is shared, filled and cleared in place. */
  class ChangeEvent {
    var changes: Option<Tree>
    var updated: map<Path, nat>
    var deleted: map<Path, nat>

    constructor ()
      ensures Value() == EMPTY_BATCH
    {
      changes, updated, deleted := None, map[], map[];
    }

    function Value(): Batch
      reads this
    {
      Batch(changes, updated, deleted)
    }

    /** Copies the data at a written path. */
    method Copy(root: Tree, typ: EventType, path: Path)
      modifies this
      ensures Value() == old(Value()).(changes := Copied(root, old(changes), Event(typ, path)))
    {
      hide Graft;
      if changes.None? {
        changes := Some(EMPTY_ROOT);
      }
      if typ == EventCreate || typ == EventReplace {
        var node := Subtree(root, path);
        if node.Some? {
          changes := Some(Graft(changes.value, path, node.value));
        }
      }
    }

    /** Counts the event in the tables. */
    method Tally(typ: EventType, path: Path)
      modifies this
      ensures Value() == Tallied(old(Value()), Event(typ, path))
    {
      if typ == EventCreate || typ == EventReplace {
        updated := Bump(updated, path);
      }
      if typ == EventReplace || typ == EventDelete {
        deleted := Bump(deleted, path);
      }
    }

    method Clear()
      modifies this
      ensures Value() == EMPTY_BATCH
    {
      updated, deleted, changes := map[], map[], None;
    }
  }

  function Values(es: seq<ChangeEvent>): seq<Batch>
    reads es
  {
    seq(|es|, i requires 0 <= i < |es| reads es => es[i].Value())
  }

  class Subscriber {
    const sub: Subscription
    const streamMode: StreamMode
    const suppressRedundant: bool

    var pending: ChangeEvent?
    var onchange: seq<ChangeEvent>

    constructor (sub: Subscription, streamMode: StreamMode, suppressRedundant: bool)
      ensures this.sub == sub && this.streamMode == streamMode && this.suppressRedundant == suppressRedundant
      ensures Valid() && CurrentState() == Gathered(None, [])
    {
      this.sub, this.streamMode, this.suppressRedundant := sub, streamMode, suppressRedundant;
      pending, onchange := null, [];
    }

    /** No batch is shared: the queued ones are distinct, and the pending one is not among them,
        so clearing one batch never empties another. */
    predicate Valid()
      reads this
    {
      && (forall i, j | 0 <= i < j < |onchange| :: onchange[i] != onchange[j])
      && (pending != null ==> pending !in onchange)
    }

    function PendingValue(): Option<Batch>
      reads this, pending
    {
      if pending == null then None else Some(pending.Value())
    }

    function CurrentState(): Gathered
      reads this, pending, onchange
    {
      Gathered(PendingValue(), Values(onchange))
    }

    /** Takes one event up, with the tree as it is now. */
    method EventReceive(root: Tree, typ: EventType, path: Path)
      requires Valid()
      modifies this`pending, pending
      ensures Valid() && pending != null && (pending == old(pending) || fresh(pending))
      ensures CurrentState() == Take(streamMode, old(CurrentState()), Receive(root, Event(typ, path)))
    {
      hide Copied, Tallied;
      var edata := pending;
      if edata == null {
        edata := new ChangeEvent();
      }
      if streamMode == ON_CHANGE {
        edata.Copy(root, typ, path);
      }
      edata.Tally(typ, path);
      pending := edata;
    }

    /** The end of a set of events: an ON_CHANGE subscriber queues what it has gathered. */
    method EventComplete()
      requires Valid()
      modifies this
      ensures Valid()
      ensures streamMode == ON_CHANGE ==>
                pending == null && onchange == old(onchange + if pending == null then [] else [pending])
      ensures streamMode != ON_CHANGE ==> pending == old(pending) && onchange == old(onchange)
      ensures CurrentState() == Take(streamMode, old(CurrentState()), Complete)
    {
      if streamMode == ON_CHANGE {
        if pending != null {
          onchange := onchange + [pending];
        }
        pending := null;
      }
    }

    /** The message for the oldest queued batch, which is then cleared. */
    method SendOldest() returns (msg: Message)
      requires Valid() && onchange != []
      modifies this`onchange, onchange[0]
      ensures Valid() && onchange == old(onchange[1..])
      ensures msg == BatchMessage(sub, old(CurrentState()).queued[0])
      ensures CurrentState() == Gathered(old(CurrentState()).pending, old(CurrentState()).queued[1..])
    {
      var event := onchange[0];
      onchange := onchange[1..];
      msg := BatchMessage(sub, event.Value());
      event.Clear();
      assert forall i | 0 <= i < |onchange| :: onchange[i] == old(onchange)[i + 1] && onchange[i] != event;
    }

    /** What a message is made from: a batch of an ON_CHANGE subscriber brings its own data. */
    function Source(root: Tree): Tree
      reads this, pending
    {
      if streamMode == ON_CHANGE && pending != null then
        if pending.changes.Some? then pending.changes.value else map[]
      else root
    }

    /** An expired timer: sends everything, or nothing when redundant updates are suppressed
        and none was recorded. */
    method Expire(root: Tree, heartbeat: bool) returns (msg: Option<Message>)
      requires Valid()
      modifies pending
      ensures Valid() && pending == old(pending) && onchange == old(onchange)
      ensures msg == if heartbeat || Sampling.MustSend(suppressRedundant, old(PendingValue()))
                     then Some(Telemetry(sub, old(Source(root)), old(PendingValue()))) else None
      ensures PendingValue() ==
              if msg.Some? && old(PendingValue()).Some? then Some(EMPTY_BATCH) else old(PendingValue())
      ensures Values(onchange) == old(Values(onchange))
      ensures msg.Some? && (streamMode != ON_CHANGE || pending == null) ==>
                msg.value == Telemetry(sub, root, old(PendingValue()))
      ensures msg.Some? && streamMode == ON_CHANGE && pending != null ==>
                var changes := old(pending.changes);
                msg.value == Telemetry(sub, if changes.Some? then changes.value else map[], old(PendingValue()))
    {
      var mustSend := heartbeat || !suppressRedundant;
      if !mustSend && pending != null {
        if |pending.updated| > 0 || |pending.deleted| > 0 {
          mustSend := true;
        }
      }
      msg := None;
      if mustSend {
        msg := Some(Telemetry(sub, Source(root), PendingValue()));
        if pending != null {
          pending.Clear();
        }
      }
    }
  }

  /** A server with one ON_CHANGE subscriber and the client behind it. */
  class TelemetryServer {
    const subscriber: Subscriber
    const treeFails: (Tree, Path) -> bool     // the tree library refuses the edit

    var root: Tree
    var started: bool
    ghost var mirror: Tree          // what the client has made of the messages

    ghost predicate Valid()
      reads this, subscriber
    {
      && subscriber.Valid() && subscriber.pending == null && subscriber.streamMode == ON_CHANGE
      && subscriber.sub.paths != []
      && WellFormed(root)
    }

    ghost function CurrentSys(): Sys
      requires Valid()
      reads this, subscriber, subscriber.onchange
    {
      Sys(root, Values(subscriber.onchange), started, mirror)
    }

    constructor (subscriber: Subscriber, treeFails: (Tree, Path) -> bool, root: Tree)
      requires subscriber.Valid() && subscriber.CurrentState() == Gathered(None, [])
      requires subscriber.streamMode == ON_CHANGE && subscriber.sub.paths != [] && WellFormed(root)
      ensures Valid() && this.subscriber == subscriber && this.treeFails == treeFails && CurrentSys() == Initial(root)
    {
      this.subscriber, this.treeFails := subscriber, treeFails;
      this.root := root;
      started, mirror := false, map[];
      new;
      assert |Values(subscriber.onchange)| == |subscriber.onchange|;
    }

    /** Raises one event `n` times. */
    method Raise(e: Event, n: nat)
      requires subscriber.Valid()
      modifies subscriber`pending, subscriber.pending
      ensures subscriber.Valid()
      ensures subscriber.pending == old(subscriber.pending) || fresh(subscriber.pending)
      ensures subscriber.PendingValue() ==
              ReceiveAll(subscriber.streamMode, root, old(subscriber.PendingValue()), Repeat(e, n))
    {
      hide ReceiveEvent;
      var m := 0;
      while m < n
        invariant m <= n
        invariant subscriber.Valid()
        invariant subscriber.pending == old(subscriber.pending) || fresh(subscriber.pending)
        invariant subscriber.PendingValue() ==
                  ReceiveAll(subscriber.streamMode, root, old(subscriber.PendingValue()), Repeat(e, m))
      {
        ghost var before := subscriber.CurrentState();
        subscriber.EventReceive(root, e.typ, e.path);
        assert subscriber.CurrentState() == Take(subscriber.streamMode, before, Receive(root, e));
        assert Repeat(e, m + 1)[..m] == Repeat(e, m);
        m := m + 1;
      }
    }

    /** Raises the events of one kind, each as often as the dispatcher delivers it. */
    method Dispatch(typ: EventType, ps: seq<Path>)
      requires subscriber.Valid() && subscriber.sub.paths != []
      modifies subscriber`pending, subscriber.pending
      ensures subscriber.Valid()
      ensures subscriber.pending == old(subscriber.pending) || fresh(subscriber.pending)
      ensures subscriber.PendingValue() ==
              ReceiveAll(subscriber.streamMode, root, old(subscriber.PendingValue()),
                         Delivered(Registered(subscriber.sub), typ, ps))
    {
      hide ReceiveAll, Deliveries, Repeat;
      ghost var keys := Registered(subscriber.sub);
      var i := 0;
      assert ps[0..] == ps;
      while i < |ps|
        invariant i <= |ps|
        invariant subscriber.Valid()
        invariant subscriber.pending == old(subscriber.pending) || fresh(subscriber.pending)
        invariant ReceiveAll(subscriber.streamMode, root, old(subscriber.PendingValue()), Delivered(keys, typ, ps))
               == ReceiveAll(subscriber.streamMode, root, subscriber.PendingValue(), Delivered(keys, typ, ps[i..]))
      {
        ghost var before := subscriber.PendingValue();
        var e := Event(typ, ps[i]);
        Raise(e, Deliveries(Registered(subscriber.sub), ps[i]));
        assert ps[i..][0] == ps[i] && ps[i..][1..] == ps[i + 1..];
        ReceiveAppend(subscriber.streamMode, root, before, Repeat(e, Deliveries(keys, ps[i])),
                      Delivered(keys, typ, ps[i + 1..]));
        i := i + 1;
      }
      NothingReceived(subscriber.streamMode, root, subscriber.PendingValue());
    }

    /** One set of events: raised kind by kind, and then completed. */
    method SetEvent(c: seq<Path>, r: seq<Path>, d: seq<Path>)
      requires Valid()
      modifies subscriber
      ensures Valid()
      ensures Values(subscriber.onchange) ==
              Enqueue(old(Values(subscriber.onchange)),
                      ReceiveAll(ON_CHANGE, root, None, DeliveredAll(Registered(subscriber.sub), c, r, d)))
    {
      hide WellFormed, ReceiveAll, Delivered;
      ghost var keys := Registered(subscriber.sub);
      Dispatch(EventCreate, c);
      Dispatch(EventReplace, r);
      Dispatch(EventDelete, d);
      ghost var b := subscriber.PendingValue();
      ReceiveAppend(ON_CHANGE, root, None, Delivered(keys, EventCreate, c), Delivered(keys, EventReplace, r));
      ReceiveAppend(ON_CHANGE, root, None, Delivered(keys, EventCreate, c) + Delivered(keys, EventReplace, r),
                    Delivered(keys, EventDelete, d));
      subscriber.EventComplete();
      assert Values(subscriber.onchange) == Enqueue(old(Values(subscriber.onchange)), b);
    }

    /** Merges a node in and raises the events of the difference.  A merge that would not leave
        a proper tree is refused. */
    method Merge(path: Path, node: Tree) returns (ok: bool, ghost c: seq<Path>, ghost r: seq<Path>)
      requires Valid() && NodeAt(path, node)
      modifies this`root, subscriber
      ensures Valid() && ok == WellFormed(Graft(old(root), path, node))
      ensures !ok ==> CurrentSys() == old(CurrentSys())
      ensures ok ==> Enabled(old(CurrentSys()), Step.Merge(path, node, c, r))
                     && CurrentSys() == Next(subscriber.sub, old(CurrentSys()), Step.Merge(path, node, c, r))
    {
      hide Graft, WellFormed, Created, Replaced, ReceiveAll, DeliveredAll, Lists;
      c, r := [], [];
      var merged := Graft(root, path, node);
      ok := IsWellFormed(merged);
      if !ok {
        return;
      }
      var created := Enumerate(Created(root, merged));
      var replaced := Enumerate(Replaced(root, merged));
      c, r := created, replaced;
      root := merged;
      SetEvent(created, replaced, []);
    }

    /** Deletes one node: its events are raised while the data is still there.  The removal may
        be refused then; the root has no parent to be removed from, which is no error. */
    method DeleteNode(path: Path) returns (ok: bool, ghost d: seq<Path>)
      requires Valid() && path in root
      modifies this`root, subscriber
      ensures Valid() && ok == (path == [] || !treeFails(old(root), path))
      ensures Enabled(old(CurrentSys()), Step.Delete(path, d, !ok))
      ensures CurrentSys() == Next(subscriber.sub, old(CurrentSys()), Step.Delete(path, d, !ok))
    {
      hide WellFormed, Below, ReceiveAll, DeliveredAll, Lists, Prune;
      var deleted := Enumerate(Below(root, path));
      d := deleted;
      SetEvent([], [], deleted);
      ok := path == [] || !treeFails(root, path);
      if ok && path != [] {
        PruneWellFormed(root, path);
        root := Prune(root, path);
      }
    }

    /** Deletes the nodes a path selects, one after the other, up to the first whose removal is
        refused. */
    method Delete(pat: Pattern) returns (ok: bool, ghost steps: seq<Step>)
      requires Valid()
      modifies this`root, subscriber
      ensures Valid()
      ensures IsRun(subscriber.sub, old(CurrentSys()), steps)
      ensures CurrentSys() == Run(subscriber.sub, old(CurrentSys()), steps)
      ensures DeletesOnce(steps, Find(old(root), pat))
      ensures ok ==> |steps| == |Find(old(root), pat)| &&
                     forall i | 0 <= i < |steps| :: steps[i].Delete? && !steps[i].refused
      ensures !ok ==> RefusedLast(steps) && steps[|steps| - 1].path != []
                      && treeFails(root, steps[|steps| - 1].path)
      ensures root == DeletedSoFar(old(root), pat, RemovedBy(steps))
    {
      hide Deleting, WellFormed, Enabled, Next, Run, IsRun, Find, DeletedSoFar, DeletesOnce, RefusedLast, RemovedBy;
      steps := [];
      ghost var found, done := Find(root, pat), {};
      var todo := Find(root, pat);
      DeletingStart(subscriber.sub, CurrentSys(), pat);
      while todo != {}
        invariant Valid() && done + todo == found && done !! todo
        invariant Deleting(subscriber.sub, old(CurrentSys()), pat, done, steps, CurrentSys())
        decreases todo
      {
        var p :| p in todo;
        ghost var before := CurrentSys();
        DeletingThere(subscriber.sub, old(CurrentSys()), pat, done, steps, before, p);
        ghost var d;
        ok, d := DeleteNode(p);
        DeletingNext(subscriber.sub, old(CurrentSys()), pat, done, steps, before, p, d, !ok);
        steps := steps + [Step.Delete(p, d, !ok)];
        if !ok {
          return;
        }
        todo, done := todo - {p}, done + {p};
      }
      assert done == found;
      DeletingEnd(subscriber.sub, old(CurrentSys()), pat, steps, CurrentSys());
      ok := true;
    }

    /** A Set or Load: whatever tree the transaction leaves, no event says so. */
    method Commit(env: SetModel.Env, setSeq: nat, calls: seq<SetModel.Call>, tx: SetModel.Tx)
      returns (st: SetModel.State, err: Option<SetModel.Error>)
      requires Valid() && WellFormed(SetModel.Transact(env, SetModel.State(root, setSeq, [], calls), tx).0.root)
      modifies this`root
      ensures Valid() && root == st.root
      ensures var (last, e, _) := SetModel.Transact(env, SetModel.State(old(root), setSeq, [], calls), tx);
        (st, err) == (last, e)
      ensures Enabled(old(CurrentSys()), Step.Commit(st.root))
      ensures CurrentSys() == Next(subscriber.sub, old(CurrentSys()), Step.Commit(st.root))
    {
      hide SetModel.Transact, WellFormed;
      var (last, e, _) := SetModel.Transact(env, SetModel.State(root, setSeq, [], calls), tx);
      st, err := last, e;
      root := st.root;
    }

    /** The first message of the subscription. */
    method SendFirst()
      requires Valid()
      modifies this`started, this`mirror
      ensures Valid() && CurrentSys() == Next(subscriber.sub, old(CurrentSys()), FirstMessage)
    {
      mirror := ApplyMessage(map[], Telemetry(subscriber.sub, root, None));
      started := true;
    }

    /** The message for the oldest batch. */
    method SendNext()
      requires Valid() && subscriber.onchange != []
      modifies this`mirror, subscriber`onchange, subscriber.onchange[0]
      ensures Valid() && CurrentSys() == Next(subscriber.sub, old(CurrentSys()), SendBatch)
    {
      ghost var before := subscriber.CurrentState();
      var msg := subscriber.SendOldest();
      assert subscriber.CurrentState().queued == before.queued[1..];
      mirror := ApplyMessage(mirror, msg);
    }

    /** A heartbeat between two sets of events. */
    method SendHeartbeat()
      requires Valid()
      modifies this`mirror
      ensures Valid() && CurrentSys() == Next(subscriber.sub, old(CurrentSys()), Heartbeat)
    {
      mirror := ApplyMessage(mirror, Telemetry(subscriber.sub, root, None));
    }
  }

  /** The check the tree library makes on a merged tree. */
  method IsWellFormed(t: Tree) returns (ok: bool)
    ensures ok == WellFormed(t)
  {
    if [] !in t || t[[]] != Container {
      return false;
    }
    var todo := t.Keys;
    while todo != {}
      invariant todo <= t.Keys
      invariant forall a, k {:trigger Under(a, k), k in t} ::
          k in t && k !in todo && Under(a, k) && a != k ==> a in t && t[a] == Container
      decreases todo
    {
      var k :| k in todo;
      var i := 0;
      while i < |k|
        invariant i <= |k|
        invariant forall j | 0 <= j < i :: k[..j] in t && t[k[..j]] == Container
      {
        if k[..i] !in t || t[k[..i]] != Container {
          assert Under(k[..i], k);
          return false;
        }
        i := i + 1;
      }
      forall a | Under(a, k) && a != k
        ensures a in t && t[a] == Container
      {
        assert a == k[..|a|];
      }
      todo := todo - {k};
    }
    ok := true;
  }

  /** Deletions of some of `found`, none of them twice. */
  ghost predicate DeletesOnce(steps: seq<Step>, found: set<Path>) {
    && (forall i | 0 <= i < |steps| :: steps[i].Delete? && steps[i].path in found)
    && (forall i, j | 0 <= i < j < |steps| && steps[i].Delete? && steps[j].Delete? :: steps[i].path != steps[j].path)
  }

  /** Only the last step is refused. */
  ghost predicate RefusedLast(steps: seq<Step>) {
    && steps != [] && steps[|steps| - 1].Delete?
    && forall i | 0 <= i < |steps| :: steps[i].Delete? ==> (steps[i].refused <==> i == |steps| - 1)
  }

  /** The nodes that deletions have removed. */
  ghost function RemovedBy(steps: seq<Step>): set<Path> {
    set i | 0 <= i < |steps| && steps[i].Delete? && !steps[i].refused :: steps[i].path
  }

  /** The deletion of the nodes of `pat` has removed `done`, one per step, and taken `s0` to `s`. */
  ghost predicate Deleting(sub: Subscription, s0: Sys, pat: Pattern, done: set<Path>, steps: seq<Step>, s: Sys) {
    && sub.paths != [] && IsRun(sub, s0, steps) && s == Run(sub, s0, steps)
    && done <= Find(s0.root, pat) && |steps| == |done| && done == RemovedBy(steps)
    && s.root == DeletedSoFar(s0.root, pat, done)
    && (forall i | 0 <= i < |steps| :: steps[i].Delete? && !steps[i].refused && steps[i].path in done)
    && DeletesOnce(steps, Find(s0.root, pat))
  }

  lemma DeletingStart(sub: Subscription, s0: Sys, pat: Pattern)
    requires sub.paths != []
    ensures Deleting(sub, s0, pat, {}, [], s0)
  {
    NoSteps(sub, s0);
    NothingDeleted(s0.root, pat);
  }

  lemma DeletingThere(sub: Subscription, s0: Sys, pat: Pattern, done: set<Path>, steps: seq<Step>, s: Sys, p: Path)
    requires Deleting(sub, s0, pat, done, steps, s) && p in Find(s0.root, pat) - done
    ensures p in s.root
  {
    hide Find, DeletedSoFar, Run, IsRun, DeletesOnce, RemovedBy;
    DeletedNext(s0.root, pat, done, p);
  }

  lemma DeletingNext(sub: Subscription, s0: Sys, pat: Pattern, done: set<Path>, steps: seq<Step>, s: Sys,
                     p: Path, d: seq<Path>, refused: bool)
    requires Deleting(sub, s0, pat, done, steps, s) && p in Find(s0.root, pat) - done
    requires Enabled(s, Step.Delete(p, d, refused))
    ensures var all := steps + [Step.Delete(p, d, refused)];
      var next := Next(sub, s, Step.Delete(p, d, refused));
      && IsRun(sub, s0, all) && next == Run(sub, s0, all) && DeletesOnce(all, Find(s0.root, pat))
      && (!refused ==> Deleting(sub, s0, pat, done + {p}, all, next))
      && (refused ==> RefusedLast(all) && next.root == s.root == DeletedSoFar(s0.root, pat, RemovedBy(all)))
  {
    hide Find, DeletedSoFar, Run, IsRun, Enabled, Next, RemovedBy, Removed, DeletesOnce;
    var step := Step.Delete(p, d, refused);
    DeletedNext(s0.root, pat, done, p);
    DeletedRoot(sub, s, p, d, refused);
    RunSnoc(sub, s0, steps, step);
    StepsSnoc(steps, step);
    DeletesOnceSnoc(steps, step, Find(s0.root, pat));
    assert done + {} == done;
  }

  lemma DeletingEnd(sub: Subscription, s0: Sys, pat: Pattern, steps: seq<Step>, s: Sys)
    requires Deleting(sub, s0, pat, Find(s0.root, pat), steps, s)
    ensures IsRun(sub, s0, steps) && s == Run(sub, s0, steps) && DeletesOnce(steps, Find(s0.root, pat))
    ensures |steps| == |Find(s0.root, pat)| && forall i | 0 <= i < |steps| :: steps[i].Delete? && !steps[i].refused
    ensures s.root == DeletedSoFar(s0.root, pat, RemovedBy(steps))
  {
  }

  lemma StepsSnoc(steps: seq<Step>, step: Step)
    requires step.Delete?
    ensures RemovedBy(steps + [step]) == RemovedBy(steps) + if step.refused then {} else {step.path}
  {
    var all := steps + [step];
    assert all[|steps|] == step;
    forall p
      ensures p in RemovedBy(all) <==> p in RemovedBy(steps) || (!step.refused && p == step.path)
    {
      if p in RemovedBy(steps) {
        var i :| 0 <= i < |steps| && steps[i].Delete? && !steps[i].refused && steps[i].path == p;
        assert all[i] == steps[i];
      }
    }
  }

  lemma DeletesOnceSnoc(steps: seq<Step>, step: Step, found: set<Path>)
    requires DeletesOnce(steps, found) && step.Delete? && step.path in found
    requires forall i | 0 <= i < |steps| && steps[i].Delete? :: steps[i].path != step.path
    ensures DeletesOnce(steps + [step], found)
  {
  }

  lemma DeletedRoot(sub: Subscription, s: Sys, path: Path, d: seq<Path>, refused: bool)
    requires sub.paths != []
    ensures Next(sub, s, Step.Delete(path, d, refused)).root == Removed(s.root, path, refused)
    ensures Removed(s.root, path, true) == s.root
  {
  }

  lemma NothingReceived(mode: StreamMode, root: Tree, pending: Option<Batch>)
    ensures forall keys, typ :: ReceiveAll(mode, root, pending, Delivered(keys, typ, [])) == pending
  {
  }

  lemma {:induction false} ReceiveAppend(mode: StreamMode, root: Tree, pending: Option<Batch>, a: seq<Event>,
                                         b: seq<Event>)
    ensures ReceiveAll(mode, root, ReceiveAll(mode, root, pending, a), b) == ReceiveAll(mode, root, pending, a + b)
    decreases |b|
  {
    if b == [] {
      assert a + b == a;
    } else {
      ReceiveAppend(mode, root, pending, a, b[..|b| - 1]);
      assert (a + b)[..|a + b| - 1] == a + b[..|b| - 1];
    }
  }
}
