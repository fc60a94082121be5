/** Replica convergence of a SAMPLE subscription, with and without suppress_redundant.

    Events only fill the pending batch; ticks and heartbeats send.  The question is whether
    the client's mirror equals what the subscription shows after every tick, also after the
    ticks that were suppressed. */
module Sampling {
  import opened DataTree
  import opened EventModel
  import opened TelemetryModel
  import opened Replica

  datatype Sampler = Sampler(root: Tree, pending: Option<Batch>, started: bool, mirror: Tree)

  datatype SampleStep =
    | Change(path: Path, node: Tree, created: seq<Path>, replaced: seq<Path>)
    | Drop(path: Path, deleted: seq<Path>, refused: bool)
    | Exchange(root: Tree)                   // an accepted Set or Load
    | Begin
    | Tick
    | Beat

  ghost predicate Possible(s: Sampler, step: SampleStep) {
    match step
    case Change(path, node, created, replaced) =>
      var root := Graft(s.root, path, node);
      && NodeAt(path, node) && WellFormed(root)
      && Lists(created, Created(s.root, root)) && Lists(replaced, Replaced(s.root, root))
    case Drop(path, deleted, _) => path in s.root && Lists(deleted, Below(s.root, path))
    case Exchange(root) => WellFormed(root)
    case Begin => !s.started
    case Tick => s.started
    case Beat => s.started
  }

  /** Something was created, replaced or deleted since the batch was last cleared. */
  predicate Recorded(pending: Option<Batch>) {
    pending.Some? && (|pending.value.updated| > 0 || |pending.value.deleted| > 0)
  }

  predicate MustSend(suppress: bool, pending: Option<Batch>) {
    !suppress || Recorded(pending)
  }

  /** A deletion of the node or of an ancestor is on record. */
  predicate Erased(pending: Option<Batch>, k: Path) {
    exists d :: d in DeletedPaths(pending) && Under(d, k)
  }

  /** Sending clears the batch in place. */
  function Send(sub: Subscription, s: Sampler): Sampler {
    s.(mirror := ApplyMessage(s.mirror, Telemetry(sub, s.root, s.pending)),
       pending := if s.pending.Some? then Some(EMPTY_BATCH) else None)
  }

  function After(sub: Subscription, suppress: bool, s: Sampler, step: SampleStep): Sampler
    requires sub.paths != []
  {
    match step
    case Change(path, node, created, replaced) =>
      var root := Graft(s.root, path, node);
      var evs := DeliveredAll(Registered(sub), created, replaced, []);
      s.(root := root, pending := ReceiveAll(SAMPLE, root, s.pending, evs))
    case Drop(path, deleted, refused) =>
      var evs := DeliveredAll(Registered(sub), [], [], deleted);
      s.(root := Removed(s.root, path, refused), pending := ReceiveAll(SAMPLE, s.root, s.pending, evs))
    case Exchange(root) => s.(root := root)
    case Begin => s.(started := true, mirror := ApplyMessage(map[], Telemetry(sub, s.root, None)))
    case Tick => if MustSend(suppress, s.pending) then Send(sub, s) else s
    case Beat => Send(sub, s)
  }

  function RunSampler(sub: Subscription, suppress: bool, s: Sampler, steps: seq<SampleStep>): Sampler
    requires sub.paths != []
  {
    if steps == [] then s
    else After(sub, suppress, RunSampler(sub, suppress, s, steps[..|steps| - 1]), steps[|steps| - 1])
  }

  ghost predicate IsSamplerRun(sub: Subscription, suppress: bool, s: Sampler, steps: seq<SampleStep>)
    requires sub.paths != []
  {
    steps == [] ||
    (&& IsSamplerRun(sub, suppress, s, steps[..|steps| - 1])
     && Possible(RunSampler(sub, suppress, s, steps[..|steps| - 1]), steps[|steps| - 1]))
  }

  function Fresh(root: Tree): Sampler {
    Sampler(root, None, false, map[])
  }

  predicate EndsInTick(steps: seq<SampleStep>) {
    steps != [] && (steps[|steps| - 1].Tick? || steps[|steps| - 1].Beat?)
  }

  /** The next tick can make good what an accepted Set does unreported: what it takes away from
      the client's picture has a deletion on record, and the tick is not suppressed, unless there
      is nothing to make good.  All other changes are reported. */
  ghost predicate Harmless(sub: Subscription, suppress: bool, s: Sampler, step: SampleStep) {
    match step
    case Exchange(root) =>
      s.started ==>
        && (forall k :: k in s.mirror && k !in root ==> Erased(s.pending, k))
        && (MustSend(suppress, s.pending) || s.mirror == Show(sub, root))
    case _ => true
  }

  ghost predicate AllHarmless(sub: Subscription, suppress: bool, s: Sampler, steps: seq<SampleStep>)
    requires sub.paths != []
  {
    steps == [] ||
    (&& AllHarmless(sub, suppress, s, steps[..|steps| - 1])
     && Harmless(sub, suppress, RunSampler(sub, suppress, s, steps[..|steps| - 1]), steps[|steps| - 1]))
  }

  /** After every tick and every heartbeat of every harmless run the mirror is up to date. */
  ghost predicate AlwaysCurrent(sub: Subscription, suppress: bool)
    requires sub.paths != []
  {
    forall root, steps {:trigger IsSamplerRun(sub, suppress, Fresh(root), steps)} ::
      WellFormed(root) && IsSamplerRun(sub, suppress, Fresh(root), steps) && EndsInTick(steps) &&
      AllHarmless(sub, suppress, Fresh(root), steps) ==>
        var s := RunSampler(sub, suppress, Fresh(root), steps);
        s.mirror == Show(sub, s.root)
  }

  /** A tick at this moment would bring the client up to date. */
  ghost predicate TickWouldDo(sub: Subscription, suppress: bool, s: Sampler)
    requires sub.paths != []
  {
    s.started ==> After(sub, suppress, s, Tick).mirror == Show(sub, s.root)
  }

  /** A tick would do after every step of a run. */
  ghost predicate TickWouldDoThroughout(sub: Subscription, suppress: bool, s: Sampler, steps: seq<SampleStep>)
    requires sub.paths != []
  {
    && TickWouldDo(sub, suppress, RunSampler(sub, suppress, s, steps))
    && (steps == [] || TickWouldDoThroughout(sub, suppress, s, steps[..|steps| - 1]))
  }

  // ----- What the pending batch records -------------------------------------------------

  lemma ReceiveTables(mode: StreamMode, root: Tree, pending: Option<Batch>, e: Event)
    ensures var b := ReceiveEvent(mode, root, pending, e);
      && Recorded(Some(b))
      && (Erases(e.typ) ==> e.path in b.deleted)
      && forall p :: p in DeletedPaths(pending) ==> p in b.deleted
  {
  }

  /** Gathering events only adds to the tables. */
  lemma {:induction false} ReceiveAllTables(mode: StreamMode, root: Tree, pending: Option<Batch>, evs: seq<Event>)
    ensures var after := ReceiveAll(mode, root, pending, evs);
      && (Recorded(pending) || evs != [] ==> Recorded(after))
      && (forall e :: e in evs && Erases(e.typ) ==> e.path in DeletedPaths(after))
      && (forall p :: p in DeletedPaths(pending) ==> p in DeletedPaths(after))
    decreases |evs|
  {
    hide ReceiveEvent;
    if evs != [] {
      var n := |evs| - 1;
      ReceiveAllTables(mode, root, pending, evs[..n]);
      ReceiveTables(mode, root, ReceiveAll(mode, root, pending, evs[..n]), evs[n]);
      assert evs == evs[..n] + [evs[n]];
    }
  }

  // ----- The invariant ------------------------------------------------------------------

  /** Between ticks the mirror may be behind, but the pending batch knows: of what is gone it
      has a deletion, and of any difference it has some record that a suppressed tick heeds. */
  ghost predicate Accounted(sub: Subscription, suppress: bool, s: Sampler) {
    && WellFormed(s.root)
    && (s.started ==>
          && (forall k :: k in s.mirror ==> Selects(sub, k))
          && (forall k :: k in s.mirror && k !in s.root ==> Erased(s.pending, k))
          && (s.mirror != Show(sub, s.root) ==> MustSend(suppress, s.pending)))
  }

  lemma ErasedGrows(before: Option<Batch>, after: Option<Batch>, k: Path)
    requires DeletedPaths(before) <= DeletedPaths(after) && Erased(before, k)
    ensures Erased(after, k)
  {
    var d :| d in DeletedPaths(before) && Under(d, k);
    assert d in DeletedPaths(after);
  }

  lemma ChangeAccounted(sub: Subscription, suppress: bool, s: Sampler,
                        path: Path, node: Tree, created: seq<Path>, replaced: seq<Path>)
    requires sub.paths != [] && Reliable(sub) && Accounted(sub, suppress, s)
    requires Possible(s, Change(path, node, created, replaced))
    ensures Accounted(sub, suppress, After(sub, suppress, s, Change(path, node, created, replaced)))
  {
    var root := Graft(s.root, path, node);
    var evs := DeliveredAll(Registered(sub), created, replaced, []);
    ReceiveAllTables(SAMPLE, root, s.pending, evs);
    if evs == [] {
      forall k
        ensures At(Show(sub, s.root), k) == At(Show(sub, root), k)
      {
        MergeUnheardAt(sub, s.root, root, created, replaced, k);
      }
      TreesEqual(Show(sub, s.root), Show(sub, root));
    }
    var after := ReceiveAll(SAMPLE, root, s.pending, evs);
    forall k | s.started && k in s.mirror && k !in root
      ensures Erased(after, k)
    {
      ErasedGrows(s.pending, after, k);
    }
  }

  lemma DropAccounted(sub: Subscription, suppress: bool, s: Sampler, path: Path, deleted: seq<Path>, refused: bool)
    requires sub.paths != [] && Reliable(sub) && Accounted(sub, suppress, s)
    requires Possible(s, Drop(path, deleted, refused))
    ensures Accounted(sub, suppress, After(sub, suppress, s, Drop(path, deleted, refused)))
  {
    var root := Removed(s.root, path, refused);
    var evs := DeliveredAll(Registered(sub), [], [], deleted);
    var after := ReceiveAll(SAMPLE, s.root, s.pending, evs);
    ReceiveAllTables(SAMPLE, s.root, s.pending, evs);
    if path != [] {
      PruneWellFormed(s.root, path);
    }
    forall k | Selects(sub, k) && k in s.root && k !in root
      ensures Erased(after, k) && evs != []
    {
      DeletionIsHeard(sub, s.root, path, deleted, k);
      assert k in DeletedPaths(after) && Under(k, k);
    }
    if evs == [] {
      forall k
        ensures At(Show(sub, s.root), k) == At(Show(sub, root), k)
      {
      }
      TreesEqual(Show(sub, s.root), Show(sub, root));
    }
    forall k | s.started && k in s.mirror && k !in root
      ensures Erased(after, k)
    {
      if k !in s.root {
        ErasedGrows(s.pending, after, k);
      }
    }
  }

  lemma SendAt(sub: Subscription, s: Sampler, k: Path)
    requires sub.prefix == [] && WellFormed(s.root)
    ensures At(Send(sub, s).mirror, k) ==
            if k in s.root && Selects(sub, k) then Some(s.root[k])
            else if Erased(s.pending, k) then None
            else At(s.mirror, k)
  {
    var msg := Telemetry(sub, s.root, s.pending);
    assert msg == Message(DeletedPaths(s.pending), Show(sub, s.root));
    ApplyAt(s.mirror, msg, k);
    ShowAt(sub, s.root, k);
  }

  /** Sending the whole picture and the recorded deletions brings the mirror up to date, if and
      only if everything that is gone has a deletion on record. */
  lemma SendIsCurrentExactly(sub: Subscription, s: Sampler)
    requires sub.prefix == [] && WellFormed(s.root) && forall k :: k in s.mirror ==> Selects(sub, k)
    ensures Send(sub, s).mirror == Show(sub, s.root) <==>
            forall k :: k in s.mirror && k !in s.root ==> Erased(s.pending, k)
  {
    hide Telemetry, Erased, Selects;
    if forall k :: k in s.mirror && k !in s.root ==> Erased(s.pending, k) {
      forall k
        ensures At(Send(sub, s).mirror, k) == At(Show(sub, s.root), k)
      {
        SendAt(sub, s, k);
        ShowAt(sub, s.root, k);
      }
      TreesEqual(Send(sub, s).mirror, Show(sub, s.root));
    } else {
      var k :| k in s.mirror && k !in s.root && !Erased(s.pending, k);
      SendAt(sub, s, k);
      ShowAt(sub, s.root, k);
    }
  }

  /** The invariant is no more than it takes for a tick to do. */
  lemma AccountedExactly(sub: Subscription, suppress: bool, s: Sampler)
    requires sub.paths != [] && sub.prefix == [] && WellFormed(s.root)
    requires s.started ==> forall k :: k in s.mirror ==> Selects(sub, k)
    ensures TickWouldDo(sub, suppress, s) <==> Accounted(sub, suppress, s)
  {
    hide Telemetry, Erased, Selects, ApplyMessage;
    if s.started {
      SendIsCurrentExactly(sub, s);
      forall k | s.mirror == Show(sub, s.root) && k in s.mirror
        ensures k in s.root
      {
        ShowAt(sub, s.root, k);
      }
    }
  }

  lemma SendAccounted(sub: Subscription, suppress: bool, s: Sampler)
    requires sub.prefix == [] && Accounted(sub, suppress, s) && s.started
    ensures Send(sub, s).mirror == Show(sub, s.root)
    ensures Accounted(sub, suppress, Send(sub, s))
  {
    SendIsCurrentExactly(sub, s);
    forall k | k in Show(sub, s.root)
      ensures Selects(sub, k) && k in s.root
    {
      ShowAt(sub, s.root, k);
    }
  }

  /** Exact condition for one step: it keeps the invariant if and only if it is harmless.  A
      tick or a heartbeat brings the mirror up to date. */
  lemma {:induction false} StepAccountedExactly(sub: Subscription, suppress: bool, s: Sampler, step: SampleStep)
    requires sub.paths != [] && Reliable(sub)
    requires Accounted(sub, suppress, s) && Possible(s, step)
    ensures var next := After(sub, suppress, s, step);
      && (Accounted(sub, suppress, next) <==> Harmless(sub, suppress, s, step))
      && (step.Tick? || step.Beat? ==> next.mirror == Show(sub, next.root))
  {
    hide AllHeard, ReceiveAll, DeliveredAll, Selects, Erased, Telemetry, ApplyMessage;
    match step
    case Change(path, node, created, replaced) => ChangeAccounted(sub, suppress, s, path, node, created, replaced);
    case Drop(path, deleted, refused) => DropAccounted(sub, suppress, s, path, deleted, refused);
    case Exchange(root) => ExchangeAccountedExactly(sub, suppress, s, root);
    case Begin => BeginAccounted(sub, suppress, s);
    case Tick => SendAccounted(sub, suppress, s);
    case Beat => SendAccounted(sub, suppress, s);
  }

  lemma ExchangeAccountedExactly(sub: Subscription, suppress: bool, s: Sampler, root: Tree)
    requires sub.paths != [] && Accounted(sub, suppress, s) && WellFormed(root)
    ensures Accounted(sub, suppress, After(sub, suppress, s, Exchange(root))) <==>
            Harmless(sub, suppress, s, Exchange(root))
  {
  }

  lemma BeginAccounted(sub: Subscription, suppress: bool, s: Sampler)
    requires sub.paths != [] && Reliable(sub) && Accounted(sub, suppress, s)
    ensures Accounted(sub, suppress, After(sub, suppress, s, Begin))
  {
    FullMessage(sub, s.root);
    assert ApplyMessage(map[], Message({}, Show(sub, s.root))) == Show(sub, s.root);
  }

  lemma {:induction false} RunAccounted(sub: Subscription, suppress: bool, root: Tree, steps: seq<SampleStep>)
    requires sub.paths != [] && Reliable(sub)
    requires WellFormed(root) && IsSamplerRun(sub, suppress, Fresh(root), steps)
    requires AllHarmless(sub, suppress, Fresh(root), steps)
    ensures var s := RunSampler(sub, suppress, Fresh(root), steps);
      Accounted(sub, suppress, s) && (EndsInTick(steps) ==> s.mirror == Show(sub, s.root))
    decreases |steps|
  {
    hide Reliable, Possible, After, WellFormed, Harmless;
    if steps != [] {
      var before := steps[..|steps| - 1];
      RunAccounted(sub, suppress, root, before);
      StepAccountedExactly(sub, suppress, RunSampler(sub, suppress, Fresh(root), before), steps[|steps| - 1]);
    }
  }

  /** Exact condition for a run: of a reliable subscription a tick would do after every step if
      and only if every step is harmless. */
  lemma {:induction false} TickWouldDoExactly(sub: Subscription, suppress: bool, s: Sampler, steps: seq<SampleStep>)
    requires sub.paths != [] && Reliable(sub)
    requires s.started && WellFormed(s.root) && forall k :: k in s.mirror ==> Selects(sub, k)
    requires TickWouldDo(sub, suppress, s) && IsSamplerRun(sub, suppress, s, steps)
    ensures TickWouldDoThroughout(sub, suppress, s, steps) <==> AllHarmless(sub, suppress, s, steps)
    ensures AllHarmless(sub, suppress, s, steps) ==>
              var last := RunSampler(sub, suppress, s, steps); last.started && Accounted(sub, suppress, last)
    decreases |steps|
  {
    hide AllHeard, Possible, After, WellFormed, Harmless, Selects, Erased, MustSend, Show;
    if steps == [] {
      AccountedExactly(sub, suppress, s);
    } else {
      var before := steps[..|steps| - 1];
      TickWouldDoExactly(sub, suppress, s, before);
      if AllHarmless(sub, suppress, s, before) {
        var last := RunSampler(sub, suppress, s, before);
        StepAccountedExactly(sub, suppress, last, steps[|steps| - 1]);
        StepShows(sub, suppress, last, steps[|steps| - 1]);
        AccountedExactly(sub, suppress, RunSampler(sub, suppress, s, steps));
      }
    }
  }

  /** Every step leaves a proper tree, and in the mirror nothing but what is subscribed. */
  lemma StepShows(sub: Subscription, suppress: bool, s: Sampler, step: SampleStep)
    requires sub.paths != [] && sub.prefix == [] && WellFormed(s.root) && s.started && Possible(s, step)
    requires forall k :: k in s.mirror ==> Selects(sub, k)
    ensures var next := After(sub, suppress, s, step);
      next.started && WellFormed(next.root) && forall k :: k in next.mirror ==> Selects(sub, k)
  {
    hide ReceiveAll, DeliveredAll, Selects;
    if step.Drop? && step.path != [] && !step.refused {
      PruneWellFormed(s.root, step.path);
    }
    forall k | k in Show(sub, s.root)
      ensures Selects(sub, k)
    {
      ShowAt(sub, s.root, k);
    }
  }

  /** Right after a tick an accepted Set is harmless if and only if it takes nothing subscribed
      away, and under suppress_redundant if and only if it changes nothing subscribed at all. */
  lemma ExchangeAfterTick(sub: Subscription, suppress: bool, s: Sampler, root: Tree)
    requires s.started && s.mirror == Show(sub, s.root) && (s.pending.None? || s.pending == Some(EMPTY_BATCH))
    ensures Harmless(sub, suppress, s, Exchange(root)) <==>
            if suppress then Show(sub, root) == Show(sub, s.root) else Show(sub, s.root).Keys <= Show(sub, root).Keys
  {
    forall k
      ensures k in Show(sub, root) <==> k in root && Selects(sub, k)
      ensures k in Show(sub, s.root) ==> Selects(sub, k)
    {
      ShowAt(sub, root, k);
      ShowAt(sub, s.root, k);
    }
  }

  // ----- What a suppressed tick skips ---------------------------------------------------

  /** The events delivered since the last tick or heartbeat. */
  function Unsent(sub: Subscription, steps: seq<SampleStep>): seq<Event>
    requires sub.paths != []
  {
    if steps == [] then []
    else
      var before := Unsent(sub, steps[..|steps| - 1]);
      match steps[|steps| - 1]
      case Change(_, _, created, replaced) => before + DeliveredAll(Registered(sub), created, replaced, [])
      case Drop(_, deleted, _) => before + DeliveredAll(Registered(sub), [], [], deleted)
      case Tick => []
      case Beat => []
      case _ => before
  }

  lemma ReceiveRecords(root: Tree, pending: Option<Batch>, evs: seq<Event>)
    ensures Recorded(ReceiveAll(SAMPLE, root, pending, evs)) <==> Recorded(pending) || evs != []
  {
    ReceiveAllTables(SAMPLE, root, pending, evs);
  }

  /** Over any run the batch has something on record exactly when an event is unsent. */
  lemma {:induction false} RecordedExactly(sub: Subscription, suppress: bool, root: Tree, steps: seq<SampleStep>)
    requires sub.paths != []
    ensures Recorded(RunSampler(sub, suppress, Fresh(root), steps).pending) <==> Unsent(sub, steps) != []
    decreases |steps|
  {
    hide ReceiveAll, DeliveredAll, Graft, Telemetry, ApplyMessage;
    if steps != [] {
      var before := steps[..|steps| - 1];
      var s := RunSampler(sub, suppress, Fresh(root), before);
      RecordedExactly(sub, suppress, root, before);
      match steps[|steps| - 1]
      case Change(path, node, created, replaced) =>
        ReceiveRecords(Graft(s.root, path, node), s.pending, DeliveredAll(Registered(sub), created, replaced, []));
      case Drop(path, deleted, _) =>
        ReceiveRecords(s.root, s.pending, DeliveredAll(Registered(sub), [], [], deleted));
      case _ =>
    }
  }

  /** Exact condition for skipping a tick: after any run a suppressed tick does nothing if and
      only if no event was delivered since the last tick or heartbeat; every other tick sends. */
  lemma SuppressedExactly(sub: Subscription, suppress: bool, root: Tree, steps: seq<SampleStep>)
    requires sub.paths != []
    ensures var s := RunSampler(sub, suppress, Fresh(root), steps);
      RunSampler(sub, suppress, Fresh(root), steps + [Tick]) ==
      if suppress && Unsent(sub, steps) == [] then s else Send(sub, s)
  {
    hide RunSampler, Unsent, Send;
    RecordedExactly(sub, suppress, root, steps);
    SamplerSnoc(sub, suppress, Fresh(root), steps, Tick);
  }

  // ----- The two families that diverge --------------------------------------------------

  lemma ThreeSteps(sub: Subscription, suppress: bool, root: Tree, step: SampleStep)
    requires sub.paths != [] && WellFormed(root)
    requires var s1 := After(sub, suppress, Fresh(root), Begin);
      var s2 := After(sub, suppress, s1, step);
      var s3 := After(sub, suppress, s2, Tick);
      Possible(s1, step) && Possible(s2, Tick) && !step.Exchange? && s3.mirror != Show(sub, s3.root)
    ensures !AlwaysCurrent(sub, suppress)
  {
    hide Possible, After, WellFormed, RunSampler, IsSamplerRun, AllHarmless;
    BeginPossible(root);
    var s0 := Fresh(root);
    NoSampleSteps(sub, suppress, s0);
    SamplerSnoc(sub, suppress, s0, [], Begin);
    SamplerSnoc(sub, suppress, s0, [Begin], step);
    SamplerSnoc(sub, suppress, s0, [Begin, step], Tick);
    assert [] + [Begin] == [Begin] && [Begin] + [step] == [Begin, step];
    assert [Begin, step] + [Tick] == [Begin, step, Tick];
    assert EndsInTick([Begin, step, Tick]);
  }

  lemma SamplerSnoc(sub: Subscription, suppress: bool, s: Sampler, steps: seq<SampleStep>, step: SampleStep)
    requires sub.paths != []
    ensures var before := RunSampler(sub, suppress, s, steps);
      && RunSampler(sub, suppress, s, steps + [step]) == After(sub, suppress, before, step)
      && (IsSamplerRun(sub, suppress, s, steps + [step]) <==>
            IsSamplerRun(sub, suppress, s, steps) && Possible(before, step))
      && (AllHarmless(sub, suppress, s, steps + [step]) <==>
            AllHarmless(sub, suppress, s, steps) && Harmless(sub, suppress, before, step))
  {
    hide After, Possible, Harmless;
    assert (steps + [step])[..|steps|] == steps;
  }

  lemma NoSampleSteps(sub: Subscription, suppress: bool, s: Sampler)
    requires sub.paths != []
    ensures RunSampler(sub, suppress, s, []) == s
    ensures IsSamplerRun(sub, suppress, s, []) && AllHarmless(sub, suppress, s, [])
  {
  }

  lemma BeginPossible(root: Tree)
    ensures Possible(Fresh(root), Begin)
  {
  }

  /** The deletion of `q` together with everything from `top` down, when only `q` is heard. */
  lemma LostDrop(sub: Subscription, suppress: bool, q: Path, top: Path, deleted: seq<Path>)
    requires sub.paths != [] && Under(top, q) && top != [] && Under(sub.prefix, q) && Selects(sub, q)
    requires Lists(deleted, Below(Lone(q), top))
    requires forall d | d in deleted && Deliveries(Registered(sub), d) > 0 :: top == sub.prefix && d == q
    ensures var s1 := After(sub, suppress, Fresh(Lone(q)), Begin);
      var s2 := After(sub, suppress, s1, Drop(top, deleted, false));
      var s3 := After(sub, suppress, s2, Tick);
      Possible(s1, Drop(top, deleted, false)) && Possible(s2, Tick) && s3.mirror != Show(sub, s3.root)
  {
    hide Deliveries, DeliveredAll, ReceiveAll, Lone, Telemetry, ApplyMessage, WellFormed;
    var root := Lone(q);
    LoneAt(q, q);
    LoneAt(q, top);
    LoneAt(q, sub.prefix);
    ShownFirst(sub, root, q);
    var s1 := After(sub, suppress, Fresh(root), Begin);
    var s2 := After(sub, suppress, s1, Drop(top, deleted, false));
    DropTables(Registered(sub), root, deleted, q);
    assert DeletedPaths(s2.pending) == {} || top == sub.prefix;
    KeptBySend(sub, s2, q);
    assert q in After(sub, suppress, s2, Tick).mirror;
    ShowAt(sub, s2.root, q);
  }

  lemma ShownFirst(sub: Subscription, root: Tree, q: Path)
    requires q in root && sub.prefix in root && Selects(sub, q)
    ensures q in ApplyMessage(map[], Telemetry(sub, root, None))
  {
  }

  /** A send keeps `q` when nothing is recorded, or when only `q` is but the prefix is gone. */
  lemma KeptBySend(sub: Subscription, s: Sampler, q: Path)
    requires q in s.mirror && DeletedPaths(s.pending) <= {q}
    requires DeletedPaths(s.pending) == {} || (sub.prefix != [] && sub.prefix !in s.root)
    ensures q in Send(sub, s).mirror
  {
  }

  lemma DropTables(keys: set<string>, root: Tree, deleted: seq<Path>, q: Path)
    requires forall d | d in deleted && Deliveries(keys, d) > 0 :: d == q
    ensures var evs := DeliveredAll(keys, [], [], deleted);
      var after := ReceiveAll(SAMPLE, root, None, evs);
      DeletedPaths(after) <= {q} && (DeletedPaths(after) != {} ==> exists d :: d in deleted && Deliveries(keys, d) > 0)
  {
    var evs := DeliveredAll(keys, [], [], deleted);
    forall e | e in evs
      ensures e.path == q && e.path in deleted && Deliveries(keys, e.path) > 0
    {
      DeliveredIn(keys, [], [], deleted, e);
    }
    DroppedFrom(root, evs, q);
    if evs != [] {
      assert evs[0] in evs;
    }
  }

  lemma {:induction false} DroppedFrom(root: Tree, evs: seq<Event>, q: Path)
    requires forall e :: e in evs ==> e.path == q
    ensures DeletedPaths(ReceiveAll(SAMPLE, root, None, evs)) <= {q}
    ensures evs == [] ==> DeletedPaths(ReceiveAll(SAMPLE, root, None, evs)) == {}
    decreases |evs|
  {
    if evs != [] {
      DroppedFrom(root, evs[..|evs| - 1], q);
    }
  }

  /** With a prefix: delete the prefix itself. */
  lemma PrefixGoesStale(sub: Subscription, suppress: bool)
    requires sub.paths != [] && sub.prefix != []
    ensures !AlwaysCurrent(sub, suppress)
  {
    var q := sub.prefix + sub.paths[0];
    var deleted := Between(sub.prefix, q);
    assert q[|sub.prefix|..] == sub.paths[0];
    assert Covers(sub.paths[0], q[|sub.prefix|..]);
    BetweenLists(sub.prefix, q);
    forall d | d in deleted && Deliveries(Registered(sub), d) > 0
      ensures d == q
    {
      HeardIff(Render(q), d);
      ShorterRender(d, q);
      ShorterRender(Strip(d), q);
    }
    LoneAt(q, q);
    hide After, Possible, Lone;
    LostDrop(sub, suppress, q, sub.prefix, deleted);
    ThreeSteps(sub, suppress, Lone(q), Drop(sub.prefix, deleted, false));
  }

  /** A proper ancestor renders to a shorter string, with or without its list keys. */
  lemma {:induction false} ShorterRender(d: Path, q: Path)
    requires |d| <= |q| && forall i | 0 <= i < |d| :: d[i].name == q[i].name && |d[i].keys| <= |q[i].keys|
    ensures |Render(d)| <= |Render(q)|
    ensures |d| < |q| ==> |Render(d)| < |Render(q)|
    decreases |q|
  {
    if |d| < |q| {
      ShorterRender(d, q[..|q| - 1]);
    } else if d != [] {
      ShorterRender(d[..|d| - 1], q[..|q| - 1]);
    }
  }

  /** An unheard path: delete a node there. */
  lemma UnheardGoesStale(sub: Subscription, suppress: bool, z: Path)
    requires sub.paths != [] && sub.prefix == [] && z != [] && Selects(sub, z)
    requires Deliveries(Registered(sub), z) == 0
    ensures !AlwaysCurrent(sub, suppress)
  {
    BetweenLists(z, z);
    assert forall d :: d in Between(z, z) ==> d == z;
    LoneAt(z, z);
    hide After, Possible, Lone, Deliveries;
    LostDrop(sub, suppress, z, z, Between(z, z));
    ThreeSteps(sub, suppress, Lone(z), Drop(z, Between(z, z), false));
  }

  /** A Set that removes a subscribed node goes unnoticed, also by a tick that is not suppressed. */
  lemma ExchangeGoesStale(sub: Subscription, suppress: bool, q: Path)
    requires sub.paths != [] && q != [] && Selects(sub, q)
    ensures var steps := [Begin, Exchange(EMPTY_ROOT), Tick];
      var s := RunSampler(sub, suppress, Fresh(Lone(q)), steps);
      IsSamplerRun(sub, suppress, Fresh(Lone(q)), steps) && s.mirror != Show(sub, s.root)
  {
    hide RunSampler, IsSamplerRun, AllHarmless, Telemetry, ApplyMessage, Selects, WellFormed, Lone;
    var s0, step := Fresh(Lone(q)), Exchange(EMPTY_ROOT);
    NoSampleSteps(sub, suppress, s0);
    SamplerSnoc(sub, suppress, s0, [], Begin);
    SamplerSnoc(sub, suppress, s0, [Begin], step);
    SamplerSnoc(sub, suppress, s0, [Begin, step], Tick);
    assert [] + [Begin] == [Begin] && [Begin] + [step] == [Begin, step];
    assert [Begin, step] + [Tick] == [Begin, step, Tick];
    EmptyRootWellFormed();
    LoneAt(q, q);
    SelectsPrefix(sub, q);
    LoneAt(q, sub.prefix);
    ShownFirst(sub, Lone(q), q);
    var s2 := After(sub, suppress, After(sub, suppress, s0, Begin), step);
    KeptBySend(sub, s2, q);
    ShowAt(sub, EMPTY_ROOT, q);
  }

  lemma SelectsPrefix(sub: Subscription, q: Path)
    requires Selects(sub, q)
    ensures Under(sub.prefix, q)
  {
  }

  /** When it is exactly that a sampled replica is up to date after every tick of every harmless
      run, suppressed or not: the same condition as for ON_CHANGE, whatever suppress_redundant says. */
  lemma {:induction false} CurrentExactly(sub: Subscription, suppress: bool)
    requires sub.paths != [] && forall i | 0 <= i < |sub.paths| :: NamedNodes(sub.paths[i])
    ensures AlwaysCurrent(sub, suppress) <==> Reliable(sub)
  {
    if sub.prefix != [] {
      PrefixGoesStale(sub, suppress);
    } else if AllHeard(sub) {
      forall root, steps | WellFormed(root) && IsSamplerRun(sub, suppress, Fresh(root), steps) && EndsInTick(steps) &&
                           AllHarmless(sub, suppress, Fresh(root), steps)
        ensures var s := RunSampler(sub, suppress, Fresh(root), steps); s.mirror == Show(sub, s.root)
      {
        RunAccounted(sub, suppress, root, steps);
      }
    } else {
      var z := UnheardNode(sub);
      UnheardGoesStale(sub, suppress, z);
    }
  }
}
