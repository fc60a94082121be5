/** Replica convergence of an ON_CHANGE subscription, over whole runs.

    A run mixes data changes (each raising its events through the dispatcher), accepted Set
    requests, the first message of the subscription, messages for queued batches, and
    heartbeats, in any order.  The question is whether the client's mirror, once the queue is
    drained, always equals what the subscription shows of the server's tree. */
module Replica {
  import opened DataTree
  import opened EventModel
  import opened TelemetryModel

  /** The strings a subscriber is registered at: only its first path, even when later requests
      have been merged into it. */
  function Registered(sub: Subscription): set<string>
    requires sub.paths != []
  {
    {Render(sub.prefix + sub.paths[0])}
  }

  datatype Sys = Sys(
    root: Tree,
    queue: seq<Batch>,
    started: bool,         // the first message has been sent
    mirror: Tree)          // what the client has; before the first message, nothing

  datatype Step =
    | Merge(path: Path, node: Tree, created: seq<Path>, replaced: seq<Path>)
    | Delete(path: Path, deleted: seq<Path>, refused: bool)   // whether the node cannot be removed in the end
    | Commit(root: Tree)
    | FirstMessage
    | SendBatch
    | Heartbeat

  /** Merging and writing report the complete difference, in any order; deleting reports the
      node and all its descendants; an accepted Set or Load reports nothing. */
  ghost predicate Enabled(s: Sys, step: Step) {
    match step
    case Merge(path, node, created, replaced) =>
      var root := Graft(s.root, path, node);
      && NodeAt(path, node) && WellFormed(root)
      && Lists(created, Created(s.root, root)) && Lists(replaced, Replaced(s.root, root))
    case Delete(path, deleted, _) => path in s.root && Lists(deleted, Below(s.root, path))
    case Commit(root) => WellFormed(root)
    case FirstMessage => !s.started
    case SendBatch => s.started && s.queue != []
    case Heartbeat => s.started
  }

  function Enqueue(queue: seq<Batch>, b: Option<Batch>): seq<Batch> {
    if b.Some? then queue + [b.value] else queue
  }

  /** Data first changes, then is reported; deleted data is reported first, also when it
      is not removed in the end. */
  function Next(sub: Subscription, s: Sys, step: Step): Sys
    requires sub.paths != []
  {
    match step
    case Merge(path, node, created, replaced) =>
      var root := Graft(s.root, path, node);
      var evs := DeliveredAll(Registered(sub), created, replaced, []);
      s.(root := root, queue := Enqueue(s.queue, ReceiveAll(ON_CHANGE, root, None, evs)))
    case Delete(path, deleted, refused) =>
      var evs := DeliveredAll(Registered(sub), [], [], deleted);
      s.(root := Removed(s.root, path, refused), queue := Enqueue(s.queue, ReceiveAll(ON_CHANGE, s.root, None, evs)))
    case Commit(root) => s.(root := root)
    case FirstMessage =>
      s.(started := true, mirror := ApplyMessage(map[], Telemetry(sub, s.root, None)))
    case SendBatch =>
      if s.queue == [] then s
      else s.(queue := s.queue[1..], mirror := ApplyMessage(s.mirror, BatchMessage(sub, s.queue[0])))
    case Heartbeat =>
      s.(mirror := ApplyMessage(s.mirror, Telemetry(sub, s.root, None)))
  }

  function Run(sub: Subscription, s: Sys, steps: seq<Step>): Sys
    requires sub.paths != []
  {
    if steps == [] then s else Next(sub, Run(sub, s, steps[..|steps| - 1]), steps[|steps| - 1])
  }

  ghost predicate IsRun(sub: Subscription, s: Sys, steps: seq<Step>)
    requires sub.paths != []
  {
    steps == [] ||
    (IsRun(sub, s, steps[..|steps| - 1]) && Enabled(Run(sub, s, steps[..|steps| - 1]), steps[|steps| - 1]))
  }

  /** A subscriber has just been registered. */
  function Initial(root: Tree): Sys {
    Sys(root, [], false, map[])
  }

  ghost predicate Converged(sub: Subscription, s: Sys) {
    s.started ==> Drain(sub, s.mirror, s.queue) == Show(sub, s.root)
  }

  /** What the step does to the shown part of the tree is what it reports: a Set leaves that part
      as it is, and a deletion that removes nothing, because it is refused or of the root, finds
      nothing there but the root itself. */
  predicate Quiet(sub: Subscription, s: Sys, step: Step) {
    match step
    case Delete(path, deleted, refused) =>
      refused || path == [] ==> forall k | k in deleted && k != [] :: !Selects(sub, k)
    case Commit(root) => Show(sub, root) == Show(sub, s.root)
    case _ => true
  }

  predicate AllQuiet(sub: Subscription, s: Sys, steps: seq<Step>)
    requires sub.paths != []
  {
    steps == [] ||
    (AllQuiet(sub, s, steps[..|steps| - 1]) && Quiet(sub, Run(sub, s, steps[..|steps| - 1]), steps[|steps| - 1]))
  }

  ghost predicate AlwaysConverges(sub: Subscription)
    requires sub.paths != []
  {
    forall root, steps {:trigger IsRun(sub, Initial(root), steps)} ::
      WellFormed(root) && IsRun(sub, Initial(root), steps) && AllQuiet(sub, Initial(root), steps) ==>
        Converged(sub, Run(sub, Initial(root), steps))
  }

  /** Converged after every step of a run. */
  ghost predicate ConvergedThroughout(sub: Subscription, s: Sys, steps: seq<Step>)
    requires sub.paths != []
  {
    && Converged(sub, Run(sub, s, steps))
    && (steps == [] || ConvergedThroughout(sub, s, steps[..|steps| - 1]))
  }

  /** Events at every subscribed path reach the subscriber. */
  predicate AllHeard(sub: Subscription)
    requires sub.paths != []
  {
    forall i | 0 <= i < |sub.paths| :: Deliveries(Registered(sub), sub.paths[i]) > 0
  }

  /** The condition for convergence: no prefix, and every path within earshot. */
  predicate Reliable(sub: Subscription)
    requires sub.paths != []
  {
    sub.prefix == [] && AllHeard(sub)
  }

  // ----- Hearing ------------------------------------------------------------------------

  lemma HitsOne(key: string, s: string)
    ensures Hits({key}, s) == if key <= s then 1 else 0
  {
    var keys := {key};
    assert (set k | k in keys && k <= s) == if key <= s then {key} else {};
  }

  lemma HeardIff(key: string, p: Path)
    ensures Deliveries({key}, p) > 0 <==> key <= Render(p) || key <= Render(Strip(p))
  {
    HitsOne(key, Render(p));
    HitsOne(key, Render(Strip(p)));
    if !InList(p) {
      StripOutsideLists(p);
    }
  }

  /** Whoever hears a path hears everything it selects. */
  lemma HeardBelow(key: string, p: Path, k: Path)
    requires Deliveries({key}, p) > 0 && Covers(p, k)
    ensures Deliveries({key}, k) > 0
  {
    HeardIff(key, p);
    HeardIff(key, k);
    if Under(p, k) {
      RenderUnder(p, k);
      StripUnder(p, k);
      RenderUnder(Strip(p), Strip(k));
    } else {
      RenderUnder(p, Strip(k));
      StripUnder(p, Strip(k));
      assert Strip(Strip(k)) == Strip(k);
      RenderUnder(Strip(p), Strip(k));
    }
  }

  lemma SelectedIsHeard(sub: Subscription, k: Path)
    requires sub.paths != [] && sub.prefix == [] && AllHeard(sub) && Selects(sub, k)
    ensures Deliveries(Registered(sub), k) > 0
  {
    var i :| 0 <= i < |sub.paths| && Covers(sub.paths[i], k[|sub.prefix|..]);
    assert k[0..] == k;
    HeardBelow(Render(sub.prefix + sub.paths[0]), sub.paths[i], k);
  }

  lemma DeliveredIn(keys: set<string>, c: seq<Path>, r: seq<Path>, d: seq<Path>, e: Event)
    ensures e in DeliveredAll(keys, c, r, d) <==>
            && Deliveries(keys, e.path) > 0
            && (match e.typ
                case EventCreate => e.path in c
                case EventReplace => e.path in r
                case EventDelete => e.path in d)
  {
    DeliveredPaths(keys, EventCreate, c, e);
    DeliveredPaths(keys, EventReplace, r, e);
    DeliveredPaths(keys, EventDelete, d, e);
  }

  // ----- One message ------------------------------------------------------------------

  /** The batch of a merge takes the old picture to the new one. */
  lemma {:induction false} MergeShown(sub: Subscription, t: Tree, u: Tree, created: seq<Path>, replaced: seq<Path>)
    requires sub.paths != [] && sub.prefix == [] && AllHeard(sub)
    requires WellFormed(u) && t.Keys <= u.Keys
    requires Lists(created, Created(t, u)) && Lists(replaced, Replaced(t, u))
    ensures var b := ReceiveAll(ON_CHANGE, u, None, DeliveredAll(Registered(sub), created, replaced, []));
      Show(sub, u) == if b.None? then Show(sub, t) else ApplyMessage(Show(sub, t), BatchMessage(sub, b.value))
  {
    var evs := DeliveredAll(Registered(sub), created, replaced, []);
    var b := ReceiveAll(ON_CHANGE, u, None, evs);
    ReceiveAllFaithful(u, evs);
    var shown := if b.None? then Show(sub, t) else ApplyMessage(Show(sub, t), BatchMessage(sub, b.value));
    forall k
      ensures At(shown, k) == At(Show(sub, u), k)
    {
      if b.None? {
        MergeUnheardAt(sub, t, u, created, replaced, k);
      } else {
        MergeShownAt(sub, t, u, created, replaced, b.value, k);
      }
    }
    TreesEqual(shown, Show(sub, u));
  }

  /** A selected path that changed has an event of its own. */
  lemma ChangeIsHeard(sub: Subscription, t: Tree, u: Tree, created: seq<Path>, replaced: seq<Path>, k: Path)
    requires sub.paths != [] && sub.prefix == [] && AllHeard(sub) && Selects(sub, k)
    requires Lists(created, Created(t, u)) && Lists(replaced, Replaced(t, u))
    requires k in u && At(t, k) != At(u, k)
    ensures exists e :: e in DeliveredAll(Registered(sub), created, replaced, []) && Writes(e.typ) && e.path == k
  {
    SelectedIsHeard(sub, k);
    var e := Event(if k in t then EventReplace else EventCreate, k);
    assert k in Created(t, u) || k in Replaced(t, u);
    DeliveredIn(Registered(sub), created, replaced, [], e);
  }

  lemma MergeUnheardAt(sub: Subscription, t: Tree, u: Tree, created: seq<Path>, replaced: seq<Path>, k: Path)
    requires sub.paths != [] && sub.prefix == [] && AllHeard(sub) && t.Keys <= u.Keys
    requires Lists(created, Created(t, u)) && Lists(replaced, Replaced(t, u))
    requires DeliveredAll(Registered(sub), created, replaced, []) == []
    ensures At(Show(sub, t), k) == At(Show(sub, u), k)
  {
    ShowAt(sub, t, k);
    ShowAt(sub, u, k);
    if Selects(sub, k) && At(t, k) != At(u, k) {
      ChangeIsHeard(sub, t, u, created, replaced, k);
    }
  }

  lemma MergeShownAt(sub: Subscription, t: Tree, u: Tree, created: seq<Path>, replaced: seq<Path>, b: Batch, k: Path)
    requires sub.paths != [] && sub.prefix == [] && AllHeard(sub) && t.Keys <= u.Keys
    requires Lists(created, Created(t, u)) && Lists(replaced, Replaced(t, u))
    requires Faithful(u, DeliveredAll(Registered(sub), created, replaced, []), b)
    ensures At(ApplyMessage(Show(sub, t), BatchMessage(sub, b)), k) == At(Show(sub, u), k)
  {
    var evs := DeliveredAll(Registered(sub), created, replaced, []);
    var msg := BatchMessage(sub, b);
    assert msg.updates == Show(sub, b.changes.value);
    ShowAt(sub, b.changes.value, k);
    ShowAt(sub, t, k);
    ShowAt(sub, u, k);
    ApplyAt(Show(sub, t), msg, k);
    if Selects(sub, k) && k !in b.changes.value {
      if Deletes(msg, k) {
        var d :| d in msg.deletes && Under(d, k);
        var e :| e in evs && Erases(e.typ) && e.path == d;
        DeliveredIn(Registered(sub), created, replaced, [], e);
        assert Writes(e.typ);
      } else if At(t, k) != At(u, k) {
        ChangeIsHeard(sub, t, u, created, replaced, k);
      }
    }
  }

  /** The batch of a deletion takes the old picture to the new one. */
  lemma {:induction false} DeleteShown(sub: Subscription, t: Tree, path: Path, deleted: seq<Path>)
    requires sub.paths != [] && sub.prefix == [] && AllHeard(sub)
    requires WellFormed(t) && path != [] && Lists(deleted, Below(t, path))
    ensures var b := ReceiveAll(ON_CHANGE, t, None, DeliveredAll(Registered(sub), [], [], deleted));
      Show(sub, Prune(t, path)) ==
      if b.None? then Show(sub, t) else ApplyMessage(Show(sub, t), BatchMessage(sub, b.value))
  {
    var evs := DeliveredAll(Registered(sub), [], [], deleted);
    var b := ReceiveAll(ON_CHANGE, t, None, evs);
    ReceiveAllFaithful(t, evs);
    DeleteChanges(Registered(sub), t, deleted);
    var shown := if b.None? then Show(sub, t) else ApplyMessage(Show(sub, t), BatchMessage(sub, b.value));
    forall k
      ensures At(shown, k) == At(Show(sub, Prune(t, path)), k)
    {
      ShowAt(sub, t, k);
      ShowAt(sub, Prune(t, path), k);
      if Selects(sub, k) && k in t && Under(path, k) {
        DeletionIsHeard(sub, t, path, deleted, k);
      }
      if b.Some? {
        DeleteShownAt(sub, t, path, deleted, b.value, k);
      }
    }
    TreesEqual(shown, Show(sub, Prune(t, path)));
  }

  /** A batch of deletions carries no data but the bare root. */
  lemma {:induction false} OnlyDeletes(root: Tree, evs: seq<Event>)
    requires forall e :: e in evs ==> e.typ == EventDelete
    ensures evs != [] ==> ReceiveAll(ON_CHANGE, root, None, evs).value.changes == Some(EMPTY_ROOT)
    decreases |evs|
  {
    if |evs| > 1 {
      OnlyDeletes(root, evs[..|evs| - 1]);
    }
  }

  lemma DeleteChanges(keys: set<string>, root: Tree, deleted: seq<Path>)
    ensures var evs := DeliveredAll(keys, [], [], deleted);
      evs != [] ==> ReceiveAll(ON_CHANGE, root, None, evs).value.changes == Some(EMPTY_ROOT)
  {
    var evs := DeliveredAll(keys, [], [], deleted);
    forall e | e in evs
      ensures e.typ == EventDelete
    {
      DeliveredIn(keys, [], [], deleted, e);
    }
    OnlyDeletes(root, evs);
  }

  lemma DeletionIsHeard(sub: Subscription, t: Tree, path: Path, deleted: seq<Path>, k: Path)
    requires sub.paths != [] && sub.prefix == [] && AllHeard(sub) && Selects(sub, k)
    requires Lists(deleted, Below(t, path)) && k in t && Under(path, k)
    ensures Event(EventDelete, k) in DeliveredAll(Registered(sub), [], [], deleted)
  {
    SelectedIsHeard(sub, k);
    assert k in Below(t, path);
    DeliveredIn(Registered(sub), [], [], deleted, Event(EventDelete, k));
  }

  lemma DeleteShownAt(sub: Subscription, t: Tree, path: Path, deleted: seq<Path>, b: Batch, k: Path)
    requires sub.paths != [] && sub.prefix == [] && AllHeard(sub)
    requires WellFormed(t) && path != [] && Lists(deleted, Below(t, path))
    requires Faithful(t, DeliveredAll(Registered(sub), [], [], deleted), b) && b.changes == Some(EMPTY_ROOT)
    ensures At(ApplyMessage(Show(sub, t), BatchMessage(sub, b)), k) == At(Show(sub, Prune(t, path)), k)
  {
    var evs := DeliveredAll(Registered(sub), [], [], deleted);
    var msg := BatchMessage(sub, b);
    assert msg.updates == Show(sub, EMPTY_ROOT);
    ShowAt(sub, EMPTY_ROOT, k);
    ShowAt(sub, t, k);
    ShowAt(sub, Prune(t, path), k);
    ApplyAt(Show(sub, t), msg, k);
    if Selects(sub, k) && k in t && Under(path, k) {
      DeletionIsHeard(sub, t, path, deleted, k);
      assert k in msg.deletes && Under(k, k);
    }
    if Deletes(msg, k) {
      var d :| d in msg.deletes && Under(d, k);
      var e :| e in evs && Erases(e.typ) && e.path == d;
      DeliveredIn(Registered(sub), [], [], deleted, e);
      assert d in Below(t, path);
      assert Under(path, k);
    }
  }

  lemma FullMessage(sub: Subscription, root: Tree)
    requires sub.prefix == [] && WellFormed(root)
    ensures Telemetry(sub, root, None) == Message({}, Show(sub, root))
  {
  }

  lemma PruneWellFormed(t: Tree, p: Path)
    requires WellFormed(t) && p != []
    ensures WellFormed(Prune(t, p))
  {
  }

  // ----- The invariant ------------------------------------------------------------------

  /** Draining the queue, over the mirror or over what the subscription showed at its
      registration, gives what it shows now. */
  ghost predicate Tracking(sub: Subscription, base: Tree, s: Sys) {
    && WellFormed(s.root)
    && Drain(sub, if s.started then s.mirror else base, s.queue) == Show(sub, s.root)
  }

  lemma EnqueueDrains(sub: Subscription, mirror: Tree, queue: seq<Batch>, b: Option<Batch>)
    ensures Drain(sub, mirror, Enqueue(queue, b)) ==
            if b.None? then Drain(sub, mirror, queue)
            else ApplyMessage(Drain(sub, mirror, queue), BatchMessage(sub, b.value))
  {
  }

  /** A deletion that removes nothing: the picture loses what is at and below the node, but for
      the root, and the tree keeps it. */
  lemma KeptDeleteShown(sub: Subscription, t: Tree, path: Path, deleted: seq<Path>)
    requires sub.paths != [] && sub.prefix == [] && AllHeard(sub)
    requires WellFormed(t) && Lists(deleted, Below(t, path))
    ensures var b := ReceiveAll(ON_CHANGE, t, None, DeliveredAll(Registered(sub), [], [], deleted));
      var shown := if b.None? then Show(sub, t) else ApplyMessage(Show(sub, t), BatchMessage(sub, b.value));
      shown == Show(sub, t) <==> forall k | k in deleted && k != [] :: !Selects(sub, k)
  {
    hide AllHeard, Selects;
    var evs := DeliveredAll(Registered(sub), [], [], deleted);
    var b := ReceiveAll(ON_CHANGE, t, None, evs);
    var shown := if b.None? then Show(sub, t) else ApplyMessage(Show(sub, t), BatchMessage(sub, b.value));
    ReceiveAllFaithful(t, evs);
    DeleteChanges(Registered(sub), t, deleted);
    assert forall k :: k in deleted <==> k in t && Under(path, k);
    if k :| k in deleted && k != [] && Selects(sub, k) {
      DeletionIsHeard(sub, t, path, deleted, k);
      KeptDeleteShownAt(sub, t, path, deleted, b.value, k);
      ShowAt(sub, t, k);
    } else {
      forall k
        ensures At(shown, k) == At(Show(sub, t), k)
      {
        ShowAt(sub, t, k);
        if b.Some? {
          KeptDeleteShownAt(sub, t, path, deleted, b.value, k);
        }
      }
      TreesEqual(shown, Show(sub, t));
    }
  }

  lemma KeptDeleteShownAt(sub: Subscription, t: Tree, path: Path, deleted: seq<Path>, b: Batch, k: Path)
    requires sub.paths != [] && sub.prefix == [] && AllHeard(sub)
    requires WellFormed(t) && Lists(deleted, Below(t, path))
    requires Faithful(t, DeliveredAll(Registered(sub), [], [], deleted), b) && b.changes == Some(EMPTY_ROOT)
    ensures At(ApplyMessage(Show(sub, t), BatchMessage(sub, b)), k) ==
            if k in deleted && k != [] then None else At(Show(sub, t), k)
  {
    hide AllHeard, DeliveredAll, Selects;
    var evs := DeliveredAll(Registered(sub), [], [], deleted);
    var msg := BatchMessage(sub, b);
    assert msg.updates == Show(sub, EMPTY_ROOT);
    ShowAt(sub, EMPTY_ROOT, k);
    ShowAt(sub, t, k);
    ApplyAt(Show(sub, t), msg, k);
    if k in deleted && Selects(sub, k) {
      DeletionIsHeard(sub, t, path, deleted, k);
      assert k in msg.deletes && Under(k, k);
    }
    if Deletes(msg, k) {
      var d :| d in msg.deletes && Under(d, k);
      var e :| e in evs && Erases(e.typ) && e.path == d;
      DeliveredIn(Registered(sub), [], [], deleted, e);
      assert d in Below(t, path);
      assert Under(path, k);
    }
  }

  /** Exact condition for one step: it keeps the invariant if and only if it is quiet.  A
      heartbeat or the first message may overtake the queue. */
  lemma {:induction false} StepTracksExactly(sub: Subscription, base: Tree, s: Sys, step: Step)
    requires sub.paths != [] && Reliable(sub)
    requires Tracking(sub, base, s) && Enabled(s, step)
    ensures Tracking(sub, base, Next(sub, s, step)) <==> Quiet(sub, s, step)
  {
    hide AllHeard, ReceiveAll, DeliveredAll;
    var mirror := if s.started then s.mirror else base;
    match step
    case Merge(path, node, created, replaced) =>
      var root := Graft(s.root, path, node);
      var b := ReceiveAll(ON_CHANGE, root, None, DeliveredAll(Registered(sub), created, replaced, []));
      MergeShown(sub, s.root, root, created, replaced);
      EnqueueDrains(sub, mirror, s.queue, b);
    case Delete(path, deleted, refused) =>
      DeleteTracksExactly(sub, base, s, path, deleted, refused);
    case Commit(_) =>
    case FirstMessage =>
      FullMessage(sub, s.root);
      Absorb(sub, Next(sub, s, step).mirror, base, s.queue, Show(sub, s.root));
    case SendBatch =>
      DrainHead(sub, s.mirror, s.queue);
    case Heartbeat =>
      FullMessage(sub, s.root);
      var next := Next(sub, s, step).mirror;
      forall k
        ensures At(next, k) == At(s.mirror, k) || At(next, k) == At(Show(sub, s.root), k)
      {
        ApplyAt(s.mirror, Message({}, Show(sub, s.root)), k);
      }
      Absorb(sub, next, s.mirror, s.queue, Show(sub, s.root));
  }

  lemma DeleteTracksExactly(sub: Subscription, base: Tree, s: Sys, path: Path, deleted: seq<Path>, refused: bool)
    requires sub.paths != [] && Reliable(sub)
    requires Tracking(sub, base, s) && Enabled(s, Delete(path, deleted, refused))
    ensures Tracking(sub, base, Next(sub, s, Delete(path, deleted, refused))) <==>
            Quiet(sub, s, Delete(path, deleted, refused))
  {
    hide AllHeard, ReceiveAll, DeliveredAll, Show;
    var b := ReceiveAll(ON_CHANGE, s.root, None, DeliveredAll(Registered(sub), [], [], deleted));
    EnqueueDrains(sub, if s.started then s.mirror else base, s.queue, b);
    if refused || path == [] {
      KeptDeleteShown(sub, s.root, path, deleted);
    } else {
      DeleteShown(sub, s.root, path, deleted);
      PruneWellFormed(s.root, path);
    }
  }

  lemma {:induction false} RunTracks(sub: Subscription, root: Tree, steps: seq<Step>)
    requires sub.paths != [] && Reliable(sub)
    requires WellFormed(root) && IsRun(sub, Initial(root), steps) && AllQuiet(sub, Initial(root), steps)
    ensures Tracking(sub, Show(sub, root), Run(sub, Initial(root), steps))
    decreases |steps|
  {
    hide Reliable, Enabled, Next, Quiet;
    if steps != [] {
      var before := steps[..|steps| - 1];
      RunTracks(sub, root, before);
      StepTracksExactly(sub, Show(sub, root), Run(sub, Initial(root), before), steps[|steps| - 1]);
    }
  }

  lemma StaysStarted(sub: Subscription, s: Sys, step: Step)
    requires sub.paths != [] && s.started
    ensures Next(sub, s, step).started
  {
  }

  /** Exact condition for a run: a reliable subscription that has converged stays so after every
      step if and only if every step is quiet. */
  lemma {:induction false} ConvergedThroughoutExactly(sub: Subscription, s: Sys, steps: seq<Step>)
    requires sub.paths != [] && Reliable(sub)
    requires s.started && WellFormed(s.root) && Converged(sub, s) && IsRun(sub, s, steps)
    ensures ConvergedThroughout(sub, s, steps) <==> AllQuiet(sub, s, steps)
    ensures AllQuiet(sub, s, steps) ==> Run(sub, s, steps).started && Tracking(sub, map[], Run(sub, s, steps))
    decreases |steps|
  {
    hide Reliable, Enabled, Next, Quiet, WellFormed, Drain, Show;
    if steps != [] {
      var before := steps[..|steps| - 1];
      ConvergedThroughoutExactly(sub, s, before);
      if AllQuiet(sub, s, before) {
        StepTracksExactly(sub, map[], Run(sub, s, before), steps[|steps| - 1]);
        StaysStarted(sub, Run(sub, s, before), steps[|steps| - 1]);
        StaysWellFormed(sub, Run(sub, s, before), steps[|steps| - 1]);
      }
    }
  }

  lemma StaysWellFormed(sub: Subscription, s: Sys, step: Step)
    requires sub.paths != [] && WellFormed(s.root) && Enabled(s, step)
    ensures WellFormed(Next(sub, s, step).root)
  {
    if step.Delete? && step.path != [] && !step.refused {
      PruneWellFormed(s.root, step.path);
    }
  }

  // ----- The two families that diverge --------------------------------------------------

  predicate NamedNodes(p: Path) {
    forall i | 0 <= i < |p| :: p[i].name != ""
  }

  /** The tree with nothing but `p` in it. */
  function Lone(p: Path): Tree {
    Graft(EMPTY_ROOT, p, map[p := Container])
  }

  lemma LoneAt(p: Path, k: Path)
    ensures At(Lone(p), k) == if Under(k, p) then Some(Container) else None
    ensures WellFormed(Lone(p))
  {
    GraftAt(EMPTY_ROOT, p, map[p := Container], k);
    GraftAt(EMPTY_ROOT, p, map[p := Container], []);
    forall a, j | j in Lone(p) && Under(a, j) && a != j
      ensures a in Lone(p) && Lone(p)[a] == Container
    {
      GraftAt(EMPTY_ROOT, p, map[p := Container], j);
      GraftAt(EMPTY_ROOT, p, map[p := Container], a);
      assert At(Lone(p), a) == Some(Container);
    }
  }

  /** The chain from `top` down to `q`. */
  function Between(top: Path, q: Path): seq<Path>
    requires Under(top, q)
  {
    seq(|q| - |top| + 1, i requires 0 <= i <= |q| - |top| => q[..|top| + i])
  }

  lemma BetweenLists(top: Path, q: Path)
    requires Under(top, q)
    ensures Lists(Between(top, q), Below(Lone(q), top))
    ensures forall d :: d in Between(top, q) ==> Under(top, d) && Under(d, q)
  {
    hide Lone;
    forall k
      ensures k in Between(top, q) <==> k in Below(Lone(q), top)
    {
      LoneAt(q, k);
      if k in Below(Lone(q), top) {
        assert Between(top, q)[|k| - |top|] == k;
      }
    }
    forall i, j | 0 <= i < j < |Between(top, q)|
      ensures Between(top, q)[i] != Between(top, q)[j]
    {
      assert |Between(top, q)[i]| != |Between(top, q)[j]|;
    }
  }

  lemma RunSnoc(sub: Subscription, s: Sys, steps: seq<Step>, step: Step)
    requires sub.paths != []
    ensures Run(sub, s, steps + [step]) == Next(sub, Run(sub, s, steps), step)
    ensures IsRun(sub, s, steps + [step]) <==> IsRun(sub, s, steps) && Enabled(Run(sub, s, steps), step)
    ensures AllQuiet(sub, s, steps + [step]) <==> AllQuiet(sub, s, steps) && Quiet(sub, Run(sub, s, steps), step)
  {
    hide Next, Enabled, Quiet;
    assert (steps + [step])[..|steps|] == steps;
  }

  lemma TwoSteps(sub: Subscription, s: Sys, a: Step, b: Step)
    requires sub.paths != []
    ensures Run(sub, s, [a, b]) == Next(sub, Next(sub, s, a), b)
    ensures IsRun(sub, s, [a, b]) <==> Enabled(s, a) && Enabled(Next(sub, s, a), b)
    ensures AllQuiet(sub, s, [a, b]) <==> Quiet(sub, s, a) && Quiet(sub, Next(sub, s, a), b)
  {
    hide Next, Enabled, Quiet, Run, IsRun, AllQuiet;
    RunSnoc(sub, s, [], a);
    RunSnoc(sub, s, [a], b);
    NoSteps(sub, s);
    assert [] + [a] == [a] && [a] + [b] == [a, b];
  }

  lemma NoSteps(sub: Subscription, s: Sys)
    requires sub.paths != []
    ensures Run(sub, s, []) == s && IsRun(sub, s, []) && AllQuiet(sub, s, [])
  {
  }

  lemma FirstEnabled(root: Tree)
    ensures Enabled(Initial(root), FirstMessage)
  {
  }

  lemma DivergesInTwo(sub: Subscription, root: Tree, step: Step)
    requires sub.paths != [] && WellFormed(root)
    requires var s1 := Next(sub, Initial(root), FirstMessage);
      Enabled(s1, step) && Quiet(sub, s1, step) && !Converged(sub, Next(sub, s1, step))
    ensures !AlwaysConverges(sub)
  {
    hide Enabled, Next, Converged, WellFormed, Run, IsRun, AllQuiet;
    FirstEnabled(root);
    TwoSteps(sub, Initial(root), FirstMessage, step);
  }

  /** With a prefix: delete the node at the first subscribed path after the first message. */
  lemma PrefixDiverges(sub: Subscription)
    requires sub.paths != [] && sub.prefix != []
    ensures !AlwaysConverges(sub)
  {
    var q := sub.prefix + sub.paths[0];
    var root := Lone(q);
    LoneAt(q, q);
    LoneAt(q, sub.prefix);
    hide Lone, Next, Enabled, Converged, WellFormed;
    assert Below(root, q) == {q} by {
      forall k | k in Below(root, q)
        ensures k == q
      {
        LoneAt(q, k);
      }
    }
    PrefixDeletionLost(sub, root, q);
    DivergesInTwo(sub, root, Delete(q, [q], false));
  }

  /** The message for that deletion names a path below the node instead of the node. */
  lemma PrefixDeletionLost(sub: Subscription, root: Tree, q: Path)
    requires sub.paths != [] && sub.prefix != [] && q == sub.prefix + sub.paths[0]
    requires q in root && sub.prefix in root && Below(root, q) == {q}
    ensures var s1 := Next(sub, Initial(root), FirstMessage);
      Enabled(s1, Delete(q, [q], false)) && !Converged(sub, Next(sub, s1, Delete(q, [q], false)))
  {
    hide Deliveries, Telemetry, ReceiveAll, DeliveredAll, ApplyMessage, Deletes, BatchMessage;
    hide Selects, Enabled, Drain, Show;
    var s1 := Next(sub, Initial(root), FirstMessage);
    var s2 := Next(sub, s1, Delete(q, [q], false));
    LoneDeleteEnabled(s1, q);
    FirstShows(sub, root, q);
    LoneDeletion(sub, root, q);
    var b := ReceiveAll(ON_CHANGE, root, None, DeliveredAll(Registered(sub), [], [], [q])).value;
    assert s2.queue == [b];
    MisdirectedDelete(sub, b, q);
    ApplyAt(s1.mirror, BatchMessage(sub, b), q);
    DrainOne(sub, s1.mirror, b);
    ShowAt(sub, s2.root, q);
  }

  lemma LoneDeleteEnabled(s: Sys, q: Path)
    requires q in s.root && q != [] && Below(s.root, q) == {q}
    ensures Enabled(s, Delete(q, [q], false))
  {
  }

  lemma DrainOne(sub: Subscription, mirror: Tree, b: Batch)
    ensures Drain(sub, mirror, [b]) == ApplyMessage(mirror, BatchMessage(sub, b))
  {
  }

  /** The first message shows the node at the first subscribed path. */
  lemma FirstShows(sub: Subscription, root: Tree, q: Path)
    requires sub.paths != [] && q == sub.prefix + sub.paths[0] && q in root && sub.prefix in root
    ensures q in Next(sub, Initial(root), FirstMessage).mirror
  {
  }

  /** The batch of a lone deletion at the registered path. */
  lemma LoneDeletion(sub: Subscription, root: Tree, q: Path)
    requires sub.paths != [] && q == sub.prefix + sub.paths[0]
    ensures var b := ReceiveAll(ON_CHANGE, root, None, DeliveredAll(Registered(sub), [], [], [q]));
      b.Some? && b.value.changes == Some(EMPTY_ROOT) && forall d :: d in b.value.deleted ==> d == q
  {
    HeardIff(Render(q), q);
    DeliveredIn(Registered(sub), [], [], [q], Event(EventDelete, q));
    DeleteChanges(Registered(sub), root, [q]);
    OnlyPath(Registered(sub), root, q);
  }

  /** Relative to the root, and then put below the prefix, the delete misses its node. */
  lemma MisdirectedDelete(sub: Subscription, b: Batch, q: Path)
    requires sub.prefix != [] && b.changes == Some(EMPTY_ROOT) && forall d :: d in b.deleted ==> d == q
    ensures BatchMessage(sub, b).updates == map[] && !Deletes(BatchMessage(sub, b), q)
  {
  }

  /** The batch of a lone deletion lists that path only. */
  lemma OnlyPath(keys: set<string>, root: Tree, q: Path)
    ensures var evs := DeliveredAll(keys, [], [], [q]);
      evs != [] ==> forall d :: d in ReceiveAll(ON_CHANGE, root, None, evs).value.deleted ==> d == q
  {
    var evs := DeliveredAll(keys, [], [], [q]);
    forall e | e in evs
      ensures e.path == q
    {
      DeliveredIn(keys, [], [], [q], e);
    }
    DeletedFrom(root, evs, q);
  }

  lemma {:induction false} DeletedFrom(root: Tree, evs: seq<Event>, q: Path)
    requires forall e :: e in evs ==> e.path == q
    ensures evs != [] ==> forall d :: d in ReceiveAll(ON_CHANGE, root, None, evs).value.deleted ==> d == q
    decreases |evs|
  {
    if evs != [] {
      DeletedFrom(root, evs[..|evs| - 1], q);
    }
  }

  /** An unheard path: create a node there after the first message. */
  lemma UnheardDiverges(sub: Subscription, z: Path)
    requires sub.paths != [] && sub.prefix == [] && z != [] && Selects(sub, z)
    requires Deliveries(Registered(sub), z) == 0
    ensures !AlwaysConverges(sub)
  {
    hide Next, Enabled, Converged, Selects, Deliveries;
    UnheardCreationLost(sub, z);
    DivergesInTwo(sub, EMPTY_ROOT, Merge(z, map[z := Container], Chain(z), []));
  }

  lemma FirstMirror(sub: Subscription, root: Tree)
    requires sub.paths != [] && sub.prefix == [] && WellFormed(root)
    ensures Next(sub, Initial(root), FirstMessage).mirror == Show(sub, root)
  {
  }

  /** No message is made for that creation. */
  lemma UnheardCreationLost(sub: Subscription, z: Path)
    requires sub.paths != [] && sub.prefix == [] && z != [] && Selects(sub, z)
    requires Deliveries(Registered(sub), z) == 0
    ensures var s1 := Next(sub, Initial(EMPTY_ROOT), FirstMessage);
      var step := Merge(z, map[z := Container], Chain(z), []);
      Enabled(s1, step) && !Converged(sub, Next(sub, s1, step))
  {
    hide Deliveries, DeliveredAll, ReceiveAll, WellFormed, Chain, Enabled, Telemetry, ApplyMessage, Graft;
    var s1 := Next(sub, Initial(EMPTY_ROOT), FirstMessage);
    var s2 := Next(sub, s1, Merge(z, map[z := Container], Chain(z), []));
    EmptyRootWellFormed();
    FirstMirror(sub, EMPTY_ROOT);
    LoneAt(z, z);
    CreationEnabled(s1, z);
    UnheardChain(Registered(sub), z);
    NothingGathered(s2.root);
    assert s2.queue == [] && s2.root == Lone(z);
    assert Drain(sub, s2.mirror, []) == s2.mirror;
    ShowAt(sub, s2.root, z);
    ShowAt(sub, EMPTY_ROOT, z);
  }

  lemma CreationEnabled(s: Sys, z: Path)
    requires s.root == EMPTY_ROOT && z != []
    ensures Enabled(s, Merge(z, map[z := Container], Chain(z), []))
  {
    hide WellFormed, Chain, Created, Replaced;
    LoneAt(z, z);
    ChainLists(z);
  }

  lemma NothingGathered(root: Tree)
    ensures ReceiveAll(ON_CHANGE, root, None, []) == None
  {
  }

  /** The path and its ancestors below the root, topmost first. */
  function Chain(z: Path): seq<Path> {
    seq(|z|, i requires 0 <= i < |z| => z[..i + 1])
  }

  lemma ChainLists(z: Path)
    ensures Lists(Chain(z), Created(EMPTY_ROOT, Lone(z)))
    ensures Lists([], Replaced(EMPTY_ROOT, Lone(z)))
  {
    forall k
      ensures k in Chain(z) <==> k in Created(EMPTY_ROOT, Lone(z))
    {
      LoneAt(z, k);
      if k in Created(EMPTY_ROOT, Lone(z)) {
        assert Chain(z)[|k| - 1] == k;
      }
    }
    LoneAt(z, []);
    assert Replaced(EMPTY_ROOT, Lone(z)) == {};
    forall i, j | 0 <= i < j < |Chain(z)|
      ensures Chain(z)[i] != Chain(z)[j]
    {
      assert |Chain(z)[i]| != |Chain(z)[j]|;
    }
  }

  /** If nobody hears `z`, nobody hears its ancestors. */
  lemma UnheardChain(keys: set<string>, z: Path)
    requires Deliveries(keys, z) == 0
    ensures DeliveredAll(keys, Chain(z), [], []) == []
  {
    if DeliveredAll(keys, Chain(z), [], []) != [] {
      var e := DeliveredAll(keys, Chain(z), [], [])[0];
      DeliveredIn(keys, Chain(z), [], [], e);
      HitsGrow(keys, e.path, z);
    }
  }

  lemma HitsGrow(keys: set<string>, p: Path, q: Path)
    requires Under(p, q)
    ensures Deliveries(keys, p) > 0 ==> Deliveries(keys, q) > 0
  {
    RenderUnder(p, q);
    StripUnder(p, q);
    RenderUnder(Strip(p), Strip(q));
    HitsMonotone(keys, Render(p), Render(q));
    HitsMonotone(keys, Render(Strip(p)), Render(Strip(q)));
  }

  lemma HitsMonotone(keys: set<string>, s: string, t: string)
    requires s <= t
    ensures Hits(keys, s) > 0 ==> Hits(keys, t) > 0
  {
    if Hits(keys, s) > 0 {
      var hit := set k | k in keys && k <= s;
      assert hit != {};
      var k :| k in hit;
      assert k in set k | k in keys && k <= t;
    }
  }

  /** Some node is out of earshot of every subscriber to a path other than the root. */
  lemma SomewhereUnheard(p: Path) returns (z: Path)
    requires p != [] && NamedNodes(p)
    ensures z != [] && Deliveries({Render(p)}, z) == 0
  {
    var first := p[0].name[0];
    z := [Elem(if first == 'a' then "b" else "a", "")];
    RenderUnder([p[0]], p);
    assert Render([p[0]])[1] == first by {
      assert [p[0]][..0] == [];
      assert Render([p[0]]) == "/" + p[0].name + p[0].keys;
    }
    assert Render(p)[1] == first;
    assert z[..0] == [] && Strip(z) == z;
    assert Render(z) == "/" + z[0].name;
    HeardIff(Render(p), z);
  }

  /** A selected path nobody hears, when some subscribed path is not heard. */
  lemma UnheardNode(sub: Subscription) returns (z: Path)
    requires sub.paths != [] && sub.prefix == [] && !AllHeard(sub)
    requires forall i | 0 <= i < |sub.paths| :: NamedNodes(sub.paths[i])
    ensures z != [] && Selects(sub, z) && Deliveries(Registered(sub), z) == 0
  {
    var i :| 0 <= i < |sub.paths| && Deliveries(Registered(sub), sub.paths[i]) == 0;
    z := sub.paths[i];
    assert sub.prefix + sub.paths[0] == sub.paths[0];
    if z == [] {
      if sub.paths[0] == [] {
        HeardIff(Render([]), []);
      }
      z := SomewhereUnheard(sub.paths[0]);
    }
    assert z[|sub.prefix|..] == z;
    assert Covers(sub.paths[i], z);
  }

  /** When it is exactly that every quiet run converges: the subscription has no prefix, and
      every path merged into it is within earshot of the one registered path. */
  lemma {:induction false} ConvergesExactly(sub: Subscription)
    requires sub.paths != [] && forall i | 0 <= i < |sub.paths| :: NamedNodes(sub.paths[i])
    ensures AlwaysConverges(sub) <==> Reliable(sub)
  {
    if sub.prefix != [] {
      PrefixDiverges(sub);
    } else if AllHeard(sub) {
      forall root, steps | WellFormed(root) && IsRun(sub, Initial(root), steps) && AllQuiet(sub, Initial(root), steps)
        ensures Converged(sub, Run(sub, Initial(root), steps))
      {
        RunTracks(sub, root, steps);
      }
    } else {
      var z := UnheardNode(sub);
      UnheardDiverges(sub, z);
    }
  }

  /** A subscription to a single path without a prefix always converges. */
  lemma SinglePathConverges(p: Path)
    requires NamedNodes(p)
    ensures AlwaysConverges(Subscription([], [p]))
  {
    hide Deliveries, NamedNodes, Render, AlwaysConverges;
    var sub := Subscription([], [p]);
    assert [] + p == p;
    HeardIff(Render(p), p);
    assert Registered(sub) == {Render(p)} && AllHeard(sub);
    ConvergesExactly(sub);
  }

  // ----- The steps that nobody reports --------------------------------------------------

  /** A Set that creates a subscribed node after the first message: the replica never hears of it. */
  lemma CommitDiverges(sub: Subscription, q: Path)
    requires sub.paths != [] && q != [] && Selects(sub, q)
    ensures var steps := [FirstMessage, Commit(Lone(q))];
      IsRun(sub, Initial(EMPTY_ROOT), steps) && !Converged(sub, Run(sub, Initial(EMPTY_ROOT), steps))
  {
    hide Lone, Selects, Run, IsRun, AllQuiet, WellFormed, Telemetry, ApplyMessage;
    var s1 := Next(sub, Initial(EMPTY_ROOT), FirstMessage);
    TwoSteps(sub, Initial(EMPTY_ROOT), FirstMessage, Commit(Lone(q)));
    LoneAt(q, q);
    ShowAt(sub, Lone(q), q);
    FirstMirrorWithin(sub, EMPTY_ROOT, q);
    assert Drain(sub, s1.mirror, []) == s1.mirror;
  }

  lemma FirstMirrorWithin(sub: Subscription, root: Tree, q: Path)
    requires sub.paths != [] && q !in root
    ensures q !in Next(sub, Initial(root), FirstMessage).mirror
  {
  }

  /** A deletion above a shown node after the first message of a reliable subscription, refused
      or of the root: the replica drops the node that the server keeps. */
  lemma KeptDeleteDiverges(sub: Subscription, top: Path, q: Path, refused: bool)
    requires sub.paths != [] && Reliable(sub) && q != [] && Selects(sub, q)
    requires Under(top, q) && (refused || top == [])
    ensures var steps := [FirstMessage, Delete(top, Between(top, q), refused)];
      && IsRun(sub, Initial(Lone(q)), steps) && Run(sub, Initial(Lone(q)), steps).root == Lone(q)
      && !Converged(sub, Run(sub, Initial(Lone(q)), steps))
  {
    hide Lone, Selects, AllHeard, Run, IsRun, AllQuiet, Between;
    var root, step := Lone(q), Delete(top, Between(top, q), refused);
    var s1 := Next(sub, Initial(root), FirstMessage);
    TwoSteps(sub, Initial(root), FirstMessage, step);
    LoneAt(q, q);
    LoneAt(q, top);
    BetweenLists(top, q);
    FullMessage(sub, root);
    assert Tracking(sub, map[], s1) by {
      FirstMirror(sub, root);
    }
    assert q in Below(root, top) && q in Between(top, q);
    StepTracksExactly(sub, map[], s1, step);
    StaysStarted(sub, s1, step);
    StaysWellFormed(sub, s1, step);
  }
}
