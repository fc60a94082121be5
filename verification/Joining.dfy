/** Replica convergence of a subscription that gains paths while it runs.

    A later request with the same key adds its path to the running subscriber, whose registered
    strings stay as they are, and sends all its data once more. */
module Joining {
  import opened DataTree
  import opened EventModel
  import opened TelemetryModel
  import opened Replica

  datatype Live = Live(sub: Subscription, sys: Sys)

  datatype LiveStep = Plain(step: Step) | Join(path: Path)

  function Joined(sub: Subscription, path: Path): Subscription {
    if path in sub.paths then sub else sub.(paths := sub.paths + [path])
  }

  ghost predicate LiveEnabled(l: Live, step: LiveStep) {
    step.Plain? ==> Enabled(l.sys, step.step)
  }

  function LiveNext(l: Live, step: LiveStep): (next: Live)
    requires l.sub.paths != []
    ensures next.sub.paths != []
  {
    match step
    case Plain(p) => l.(sys := Next(l.sub, l.sys, p))
    case Join(path) =>
      var sub := Joined(l.sub, path);
      Live(sub, l.sys.(started := true,
                       mirror := ApplyMessage(if l.sys.started then l.sys.mirror else map[],
                                              Telemetry(sub, l.sys.root, None))))
  }

  function LiveRun(l: Live, steps: seq<LiveStep>): (last: Live)
    requires l.sub.paths != []
    ensures last.sub.paths != []
  {
    if steps == [] then l else LiveNext(LiveRun(l, steps[..|steps| - 1]), steps[|steps| - 1])
  }

  ghost predicate IsLiveRun(l: Live, steps: seq<LiveStep>)
    requires l.sub.paths != []
  {
    steps == [] ||
    (IsLiveRun(l, steps[..|steps| - 1]) && LiveEnabled(LiveRun(l, steps[..|steps| - 1]), steps[|steps| - 1]))
  }

  /** Every data change is quiet for the subscription `last`. */
  predicate LiveQuiet(last: Subscription, l: Live, steps: seq<LiveStep>)
    requires l.sub.paths != []
  {
    steps == [] ||
    (&& LiveQuiet(last, l, steps[..|steps| - 1])
     && (steps[|steps| - 1].Plain? ==> Quiet(last, LiveRun(l, steps[..|steps| - 1]).sys, steps[|steps| - 1].step)))
  }

  /** However and whenever the subscription has grown to `last`, the mirror is right after every
      run that is quiet for it. */
  ghost predicate LiveConverges(last: Subscription)
    requires last.paths != []
  {
    forall sub: Subscription, root: Tree, steps: seq<LiveStep> {:trigger LiveRun(Live(sub, Initial(root)), steps)} ::
      sub.paths != [] && WellFormed(root) ==>
        var l := Live(sub, Initial(root));
        IsLiveRun(l, steps) && LiveRun(l, steps).sub == last && LiveQuiet(last, l, steps) ==>
          Converged(last, LiveRun(l, steps).sys)
  }

  // ----- The run of the final subscription ----------------------------------------------

  /** What the run looks like to somebody who had subscribed to everything from the start. */
  function AsPlain(l: Live, steps: seq<LiveStep>): seq<Step>
    requires l.sub.paths != []
  {
    if steps == [] then []
    else
      var before := steps[..|steps| - 1];
      AsPlain(l, before) +
      [match steps[|steps| - 1]
       case Plain(p) => p
       case Join(_) => if LiveRun(l, before).sys.started then Heartbeat else FirstMessage]
  }

  /** `sub` has the prefix and the first paths of `last`. */
  predicate Within(sub: Subscription, last: Subscription) {
    sub.paths != [] && sub.prefix == last.prefix && sub.paths <= last.paths
  }

  /** Equal but for the mirror. */
  predicate SameButMirror(s: Sys, u: Sys) {
    s.root == u.root && s.queue == u.queue && s.started == u.started
  }

  lemma JoinGrows(l: Live, step: LiveStep)
    requires l.sub.paths != []
    ensures Within(l.sub, LiveNext(l, step).sub)
  {
  }

  lemma WithinRegistered(sub: Subscription, last: Subscription)
    requires Within(sub, last)
    ensures Registered(sub) == Registered(last)
  {
  }

  lemma WithinPrefix(sub: Subscription, last: Subscription)
    requires Within(sub, last)
    ensures sub.prefix == last.prefix
  {
  }

  lemma WithinSelects(sub: Subscription, last: Subscription, k: Path)
    requires Within(sub, last) && Selects(sub, k)
    ensures Selects(last, k)
  {
    var i :| 0 <= i < |sub.paths| && Covers(sub.paths[i], k[|sub.prefix|..]);
    assert last.paths[i] == sub.paths[i];
  }

  lemma WithinReliable(sub: Subscription, last: Subscription)
    requires Within(sub, last) && Reliable(last)
    ensures Reliable(sub)
  {
    WithinRegistered(sub, last);
    assert forall i | 0 <= i < |sub.paths| :: sub.paths[i] == last.paths[i];
  }

  lemma WithinQuiet(sub: Subscription, last: Subscription, s: Sys, step: Step)
    requires Within(sub, last) && Quiet(last, s, step)
    ensures Quiet(sub, s, step)
  {
    hide Selects;
    match step
    case Delete(_, deleted, _) =>
      forall k | k in deleted && Selects(sub, k)
        ensures Selects(last, k)
      {
        WithinSelects(sub, last, k);
      }
    case Commit(root) =>
      forall k
        ensures At(Show(sub, root), k) == At(Show(sub, s.root), k)
      {
        ShowAt(sub, root, k);
        ShowAt(sub, s.root, k);
        ShowAt(last, root, k);
        ShowAt(last, s.root, k);
        if Selects(sub, k) {
          WithinSelects(sub, last, k);
        }
      }
      TreesEqual(Show(sub, root), Show(sub, s.root));
    case _ =>
  }

  lemma ShadowNext(sub: Subscription, last: Subscription, s: Sys, u: Sys, step: Step)
    requires Within(sub, last) && last.paths != [] && SameButMirror(s, u)
    ensures SameButMirror(Next(sub, s, step), Next(last, u, step))
    ensures Enabled(s, step) ==> Enabled(u, step)
    ensures Quiet(last, s, step) ==> Quiet(last, u, step)
  {
    WithinRegistered(sub, last);
  }

  /** The other run is a run, quiet, and sees the same tree and queue. */
  lemma {:induction false} ShadowRuns(last: Subscription, l: Live, steps: seq<LiveStep>)
    requires l.sub.paths != [] && IsLiveRun(l, steps) && LiveQuiet(last, l, steps)
    requires Within(LiveRun(l, steps).sub, last)
    ensures var plain := AsPlain(l, steps);
      && IsRun(last, l.sys, plain) && AllQuiet(last, l.sys, plain)
      && SameButMirror(LiveRun(l, steps).sys, Run(last, l.sys, plain))
    decreases |steps|
  {
    hide Next, Enabled, Quiet, LiveNext, Run, IsRun, AllQuiet, Joined;
    NoSteps(last, l.sys);
    if steps != [] {
      var before, step := steps[..|steps| - 1], steps[|steps| - 1];
      var now := LiveRun(l, before);
      JoinGrows(now, step);
      ShadowRuns(last, l, before);
      var shadow := Run(last, l.sys, AsPlain(l, before));
      var plain := match step case Plain(p) => p case Join(_) => if now.sys.started then Heartbeat else FirstMessage;
      RunSnoc(last, l.sys, AsPlain(l, before), plain);
      if step.Plain? {
        ShadowNext(now.sub, last, now.sys, shadow, plain);
        PlainNext(now, plain);
      } else {
        ShadowJoin(now, last, shadow, step.path);
      }
    }
  }

  lemma PlainNext(l: Live, step: Step)
    requires l.sub.paths != []
    ensures LiveNext(l, Plain(step)) == Live(l.sub, Next(l.sub, l.sys, step))
  {
  }

  lemma ShadowJoin(l: Live, last: Subscription, shadow: Sys, path: Path)
    requires l.sub.paths != [] && last.paths != [] && SameButMirror(l.sys, shadow)
    ensures var step := if l.sys.started then Heartbeat else FirstMessage;
      && Enabled(shadow, step) && Quiet(last, shadow, step)
      && SameButMirror(LiveNext(l, Join(path)).sys, Next(last, shadow, step))
  {
  }

  // ----- Comparing the mirrors ----------------------------------------------------------

  lemma MessageAt(sub: Subscription, b: Batch, k: Path)
    requires sub.prefix == []
    ensures var msg := BatchMessage(sub, b);
      && msg.deletes == b.deleted.Keys
      && (k in msg.updates <==> Selects(sub, k) && b.changes.Some? && [] in b.changes.value && k in b.changes.value)
      && (k in msg.updates ==> msg.updates[k] == b.changes.value[k])
  {
    hide Selects;
    var msg := BatchMessage(sub, b);
    forall d
      ensures d in msg.deletes <==> d in b.deleted.Keys
    {
      assert forall e :: e in DeletedPaths(Some(b)) ==> sub.prefix + e == e;
      assert sub.prefix + d == d && Under([], d);
    }
  }

  /** At a path that both select, draining depends on the mirrors there and on nothing else. */
  lemma {:induction false} DrainsAlike(sub: Subscription, last: Subscription, x: Tree, y: Tree, queue: seq<Batch>,
                                       k: Path)
    requires sub.prefix == last.prefix == [] && Selects(sub, k) && Selects(last, k) && At(x, k) == At(y, k)
    ensures At(Drain(sub, x, queue), k) == At(Drain(last, y, queue), k)
    decreases |queue|
  {
    hide Selects, BatchMessage, ApplyMessage;
    if queue != [] {
      var n := |queue| - 1;
      DrainsAlike(sub, last, x, y, queue[..n], k);
      ApplyAt(Drain(sub, x, queue[..n]), BatchMessage(sub, queue[n]), k);
      ApplyAt(Drain(last, y, queue[..n]), BatchMessage(last, queue[n]), k);
      MessageAt(sub, queue[n], k);
      MessageAt(last, queue[n], k);
    }
  }

  /** What is not selected is never brought into a mirror. */
  lemma {:induction false} DrainsNothing(sub: Subscription, x: Tree, queue: seq<Batch>, k: Path)
    requires sub.prefix == [] && !Selects(sub, k) && k !in x
    ensures k !in Drain(sub, x, queue)
    decreases |queue|
  {
    hide Selects, BatchMessage, ApplyMessage;
    if queue != [] {
      var n := |queue| - 1;
      DrainsNothing(sub, x, queue[..n], k);
      ApplyAt(Drain(sub, x, queue[..n]), BatchMessage(sub, queue[n]), k);
      MessageAt(sub, queue[n], k);
      assert At(Drain(sub, x, queue), k).None?;
    }
  }

  /** A mirror that holds, of what is selected, what another converged mirror holds or the tree
      itself does, converges too. */
  lemma {:induction false} JoinConverges(sub: Subscription, last: Subscription, earlier: Subscription,
                                         root: Tree, queue: seq<Batch>, mirror: Tree, shadow: Tree, next: Tree)
    requires Within(sub, last) && Within(earlier, sub) && last.prefix == [] && WellFormed(root)
    requires Drain(last, shadow, queue) == Show(last, root)
    requires mirror == map[] || Drain(earlier, mirror, queue) == Show(earlier, root)
    requires forall k :: k in mirror ==> Selects(earlier, k)
    requires next == ApplyMessage(mirror, Message({}, Show(sub, root)))
    ensures Drain(sub, next, queue) == Show(sub, root)
  {
    hide Selects, Drain, ApplyMessage, Within;
    forall k
      ensures At(Drain(sub, next, queue), k) == At(Show(sub, root), k)
    {
      ApplyAt(mirror, Message({}, Show(sub, root)), k);
      JoinConvergesAt(sub, last, earlier, root, queue, mirror, shadow, next, k);
    }
    TreesEqual(Drain(sub, next, queue), Show(sub, root));
  }

  lemma {:induction false} JoinConvergesAt(sub: Subscription, last: Subscription, earlier: Subscription,
                                           root: Tree, queue: seq<Batch>, mirror: Tree, shadow: Tree,
                                           next: Tree, k: Path)
    requires Within(sub, last) && Within(earlier, sub) && last.prefix == []
    requires Drain(last, shadow, queue) == Show(last, root)
    requires mirror == map[] || Drain(earlier, mirror, queue) == Show(earlier, root)
    requires forall j :: j in mirror ==> Selects(earlier, j)
    requires At(next, k) == if k in Show(sub, root) then At(Show(sub, root), k) else At(mirror, k)
    ensures At(Drain(sub, next, queue), k) == At(Show(sub, root), k)
  {
    hide Selects, Drain, Show, Within;
    WithinPrefix(earlier, sub);
    WithinPrefix(sub, last);
    ShowAt(sub, root, k);
    if !Selects(sub, k) {
      if Selects(earlier, k) {
        WithinSelects(earlier, sub, k);
      }
      DrainsNothing(sub, next, queue, k);
    } else if mirror == map[] || !Selects(earlier, k) {
      WithinSelects(sub, last, k);
      ShowAt(last, root, k);
      DrainsAlike(sub, last, shadow, shadow, queue, k);
      OtherMirror(sub, root, queue, shadow, next, k);
    } else {
      ShowAt(earlier, root, k);
      DrainsAlike(sub, earlier, mirror, mirror, queue, k);
      OtherMirror(sub, root, queue, mirror, next, k);
    }
  }

  /** A mirror that holds at `k` what the tree does, or what another mirror holds that drains to
      the tree there. */
  lemma {:induction false} OtherMirror(sub: Subscription, root: Tree, queue: seq<Batch>, y: Tree, next: Tree, k: Path)
    requires At(Drain(sub, y, queue), k) == At(root, k) && (At(next, k) == At(root, k) || At(next, k) == At(y, k))
    ensures At(Drain(sub, next, queue), k) == At(root, k)
  {
    hide Drain, At;
    DrainOverridesOrKeeps(sub, next, y, queue, k);
  }

  // ----- The invariant ------------------------------------------------------------------

  /** The mirror has converged for the paths it has so far, and holds nothing else. */
  ghost predicate RightSoFar(l: Live) {
    && WellFormed(l.sys.root)
    && (l.sys.started ==> Converged(l.sub, l.sys) && forall k :: k in l.sys.mirror ==> Selects(l.sub, k))
    && (!l.sys.started ==> l.sys.mirror == map[])
  }

  lemma MirrorSelected(sub: Subscription, s: Sys, step: Step)
    requires sub.paths != [] && sub.prefix == [] && forall k :: k in s.mirror ==> Selects(sub, k)
    ensures forall k :: k in Next(sub, s, step).mirror ==> Selects(sub, k)
  {
    hide Selects, DeliveredAll, ReceiveAll;
    forall t, k | k in Show(sub, t)
      ensures Selects(sub, k)
    {
      ShowAt(sub, t, k);
    }
  }

  lemma PlainKeeps(l: Live, last: Subscription, step: Step)
    requires Within(l.sub, last) && Reliable(last) && RightSoFar(l)
    requires Enabled(l.sys, step) && Quiet(last, l.sys, step)
    requires l.sys.started || !step.FirstMessage?
    ensures RightSoFar(LiveNext(l, Plain(step)))
  {
    hide Reliable, Enabled, Quiet, Selects, Next, WellFormed;
    WithinReliable(l.sub, last);
    WithinQuiet(l.sub, last, l.sys, step);
    PlainNext(l, step);
    StaysWellFormed(l.sub, l.sys, step);
    NoPrefix(l.sub);
    MirrorSelected(l.sub, l.sys, step);
    if l.sys.started {
      StepTracksExactly(l.sub, map[], l.sys, step);
      StaysStarted(l.sub, l.sys, step);
    } else {
      NotYet(l.sub, l.sys, step);
    }
  }

  lemma NoPrefix(sub: Subscription)
    requires sub.paths != [] && Reliable(sub)
    ensures sub.prefix == []
  {
  }

  lemma NotYet(sub: Subscription, s: Sys, step: Step)
    requires sub.paths != [] && !s.started && Enabled(s, step) && !step.FirstMessage?
    ensures !Next(sub, s, step).started && Next(sub, s, step).mirror == s.mirror
  {
  }

  /** The first message, and the message of a joined path: all data at once. */
  lemma MessageKeeps(l: Live, last: Subscription, shadow: Sys, sub: Subscription, next: Sys)
    requires Within(l.sub, sub) && Within(sub, last) && Reliable(last) && RightSoFar(l)
    requires SameButMirror(l.sys, shadow) && SameButMirror(next, l.sys.(started := true))
    requires next.mirror == ApplyMessage(l.sys.mirror, Telemetry(sub, l.sys.root, None))
    requires shadow.started ==> Drain(last, shadow.mirror, shadow.queue) == Show(last, shadow.root)
    requires !shadow.started ==> Drain(last, Show(last, shadow.root), shadow.queue) == Show(last, shadow.root)
    ensures RightSoFar(Live(sub, next))
  {
    hide Selects, Drain, ApplyMessage, Telemetry, AllHeard, WellFormed;
    FullMessage(sub, l.sys.root);
    JoinConverges(sub, last, l.sub, l.sys.root, l.sys.queue, l.sys.mirror,
                  if shadow.started then shadow.mirror else Show(last, shadow.root), next.mirror);
    forall k | k in next.mirror
      ensures Selects(sub, k)
    {
      ApplyAt(l.sys.mirror, Message({}, Show(sub, l.sys.root)), k);
      ShowAt(sub, l.sys.root, k);
      if k in l.sys.mirror {
        WithinSelects(l.sub, sub, k);
      }
    }
  }

  /** Before the first message the queue drains to the tree, over the tree itself too. */
  lemma ShadowReady(last: Subscription, base: Tree, shadow: Sys)
    requires last.paths != [] && Reliable(last) && Tracking(last, base, shadow)
    ensures shadow.started ==> Drain(last, shadow.mirror, shadow.queue) == Show(last, shadow.root)
    ensures !shadow.started ==> Drain(last, Show(last, shadow.root), shadow.queue) == Show(last, shadow.root)
  {
    if !shadow.started {
      Absorb(last, Show(last, shadow.root), base, shadow.queue, Show(last, shadow.root));
    }
  }

  lemma {:induction false} LiveRunRight(last: Subscription, l: Live, steps: seq<LiveStep>)
    requires l.sub.paths != [] && WellFormed(l.sys.root) && l.sys == Initial(l.sys.root)
    requires IsLiveRun(l, steps) && LiveQuiet(last, l, steps)
    requires Within(LiveRun(l, steps).sub, last) && Reliable(last)
    ensures RightSoFar(LiveRun(l, steps))
    decreases |steps|
  {
    hide Next, Enabled, Quiet, Joined, Reliable, Run, IsRun, AllQuiet, RightSoFar, LiveNext, WellFormed;
    if steps == [] {
      InitialRight(l);
    } else {
      var before, step := steps[..|steps| - 1], steps[|steps| - 1];
      var now := LiveRun(l, before);
      JoinGrows(now, step);
      LiveRunRight(last, l, before);
      ShadowRuns(last, l, before);
      RunTracks(last, l.sys.root, AsPlain(l, before));
      var shadow := Run(last, l.sys, AsPlain(l, before));
      ShadowReady(last, Show(last, l.sys.root), shadow);
      if step.Plain? && (now.sys.started || !step.step.FirstMessage?) {
        PlainKeeps(now, last, step.step);
      } else {
        MessageStep(now, step);
        MessageKeeps(now, last, shadow, LiveNext(now, step).sub, LiveNext(now, step).sys);
      }
    }
  }

  lemma InitialRight(l: Live)
    requires WellFormed(l.sys.root) && l.sys == Initial(l.sys.root)
    ensures RightSoFar(l)
  {
  }

  lemma MessageStep(l: Live, step: LiveStep)
    requires l.sub.paths != [] && RightSoFar(l)
    requires step.Join? || (step.step.FirstMessage? && !l.sys.started)
    ensures var next := LiveNext(l, step);
      && SameButMirror(next.sys, l.sys.(started := true))
      && next.sys.mirror == ApplyMessage(l.sys.mirror, Telemetry(next.sub, l.sys.root, None))
  {
  }

  // ----- The exact condition ------------------------------------------------------------

  /** A run without joins is a plain run. */
  lemma {:induction false} PlainRuns(sub: Subscription, s: Sys, steps: seq<Step>)
    requires sub.paths != []
    ensures var live := seq(|steps|, i requires 0 <= i < |steps| => Plain(steps[i]));
      && LiveRun(Live(sub, s), live) == Live(sub, Run(sub, s, steps))
      && (IsRun(sub, s, steps) ==> IsLiveRun(Live(sub, s), live))
      && (AllQuiet(sub, s, steps) ==> LiveQuiet(sub, Live(sub, s), live))
    decreases |steps|
  {
    hide Next, Enabled, Quiet;
    if steps != [] {
      var n := |steps| - 1;
      var live := seq(|steps|, i requires 0 <= i < |steps| => Plain(steps[i]));
      PlainRuns(sub, s, steps[..n]);
      assert live[..n] == seq(n, i requires 0 <= i < n => Plain(steps[..n][i]));
    }
  }

  /** When it is exactly that a subscription converges however it has grown: the same condition
      as for one that has had all its paths from the start. */
  lemma LiveConvergesExactly(last: Subscription)
    requires last.paths != [] && forall i | 0 <= i < |last.paths| :: NamedNodes(last.paths[i])
    ensures LiveConverges(last) <==> Reliable(last)
  {
    hide NamedNodes, LiveRun, IsLiveRun, LiveQuiet, Run, IsRun, AllQuiet, Reliable, Converged, WellFormed;
    ConvergesExactly(last);
    if Reliable(last) {
      forall sub: Subscription, root: Tree, steps: seq<LiveStep> |
          && sub.paths != [] && WellFormed(root) && IsLiveRun(Live(sub, Initial(root)), steps)
          && LiveRun(Live(sub, Initial(root)), steps).sub == last && LiveQuiet(last, Live(sub, Initial(root)), steps)
        ensures Converged(last, LiveRun(Live(sub, Initial(root)), steps).sys)
      {
        LiveRunRight(last, Live(sub, Initial(root)), steps);
        RightConverged(LiveRun(Live(sub, Initial(root)), steps));
      }
    } else {
      var root, steps :|
        && WellFormed(root) && IsRun(last, Initial(root), steps) && AllQuiet(last, Initial(root), steps)
        && !Converged(last, Run(last, Initial(root), steps));
      PlainRuns(last, Initial(root), steps);
    }
  }

  lemma RightConverged(l: Live)
    requires RightSoFar(l)
    ensures Converged(l.sub, l.sys)
  {
  }
}
