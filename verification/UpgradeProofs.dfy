/** What every run of the upgrade protocol keeps, and where it can hang. */
module UpgradeProofs {
  import opened Wrappers
  import opened Cameras
  import opened UpgradeSpec

  // ----- reading the trace

  function Launches(trace: seq<Effect>): seq<Job> {
    if trace == [] then []
    else
      var rest := Launches(trace[..|trace| - 1]);
      var e := trace[|trace| - 1];
      if e.Launched? then rest + [e.job] else rest
  }

  function Posts(trace: seq<Effect>): seq<nat> {
    if trace == [] then []
    else
      var rest := Posts(trace[..|trace| - 1]);
      var e := trace[|trace| - 1];
      if e.Posted? then rest + [e.errors] else rest
  }

  function Dones(trace: seq<Effect>): seq<Effect> {
    if trace == [] then []
    else
      var rest := Dones(trace[..|trace| - 1]);
      var e := trace[|trace| - 1];
      if e.RunDone? then rest + [e] else rest
  }

  predicate KeepsFiles(trace: seq<Effect>) {
    forall e :: e in trace ==> !e.RemovedFile?
  }

  lemma TraceSnoc(trace: seq<Effect>, e: Effect)
    ensures Launches(trace + [e]) == if e.Launched? then Launches(trace) + [e.job] else Launches(trace)
    ensures Posts(trace + [e]) == if e.Posted? then Posts(trace) + [e.errors] else Posts(trace)
    ensures Dones(trace + [e]) == if e.RunDone? then Dones(trace) + [e] else Dones(trace)
    ensures KeepsFiles(trace + [e]) <==> KeepsFiles(trace) && !e.RemovedFile?
  {
    assert (trace + [e])[..|trace|] == trace;
  }

  // ----- the invariant

  predicate TimersOk(c: Control) {
    && 0 <= c.queryTimeout <= RESULT_QUERY_TICKS
    && (c.waitFlag ==> c.phase == WaitImage && 1 <= c.waitTimeout <= WAIT_IMAGE_TICKS)
    && (!c.waitFlag ==> c.waitTimeout == 0)
    && (c.phase != Idle ==> c.needCount[c.deviceType] > 0)
  }

  predicate ChildOk(w: World) {
    && (!w.child.NoChild? ==> w.ctl.phase == Running && !w.shm.unread && w.child.job == CurrentJob(w.ctl))
    && (w.shm.unread ==> w.ctl.phase == Running && w.child.NoChild?)
    && (w.ctl.phase == Running ==> w.shm.unread || !w.child.NoChild?)
    && (w.child.Reporting? ==> w.shm.errors == w.child.errors)
  }

  /** The k-th report is about the k-th launched job and carries the k-th posted result. */
  predicate LedgerOk(w: World) {
    var ls, ps, ds := Launches(w.trace), Posts(w.trace), Dones(w.trace);
    && |ls| == |ds| + (if w.ctl.phase == Running then 1 else 0)
    && |ps| == |ds| + (if w.shm.unread then 1 else 0)
    && (forall k :: 0 <= k < |ds| ==> ds[k] == RunDone(ls[k].deviceType, ls[k].path, ps[k] != 0))
    && (w.ctl.phase == Running ==> ls[|ds|] == CurrentJob(w.ctl))
    && (w.shm.unread ==> ps[|ds|] == w.shm.errors)
    && KeepsFiles(w.trace)
  }

  predicate Inv(w: World) {
    TimersOk(w.ctl) && ChildOk(w) && LedgerOk(w)
  }

  /** Outside a run only the control block, and trace entries of other kinds, can change. */
  lemma InvAfterIdleStep(w: World, c: Control, extra: seq<Effect>)
    requires Inv(w) && w.ctl.phase != Running && c.phase != Running && TimersOk(c)
    requires |extra| <= 1
    requires forall e :: e in extra ==> e.Requested? || e.Refused? || e.NothingToDo?
    ensures Inv(w.(ctl := c, trace := w.trace + extra))
  {
    if extra != [] {
      assert w.trace + extra == w.trace + [extra[0]] && extra[0] in extra;
      TraceSnoc(w.trace, extra[0]);
    } else {
      assert w.trace + extra == w.trace;
    }
  }

  lemma StartKeepsInvariant(w: World, env: Env)
    requires Inv(w) && w.ctl.phase == Idle
    ensures Inv(Start(w, env)) && Start(w, env).ctl.phase != Running
    ensures Start(w, env).ctl.queryTimeout == w.ctl.queryTimeout
    ensures Start(w, env).ctl.waitFlag ==> Start(w, env).ctl.waitTimeout == WAIT_IMAGE_TICKS
    ensures !Stuck(Start(w, env))
  {
    if env.reply.Some? {
      var w' := Start(w, env);
      InvAfterIdleStep(w, w'.ctl, w'.trace[|w.trace|..]);
      assert w'.trace == w.trace + w'.trace[|w.trace|..];
    }
  }

  lemma RestartKeepsInvariant(w: World, env: Env)
    requires Inv(w) && w.ctl.phase == Idle
    ensures Inv(Restart(w, env)) && Restart(w, env).ctl.phase != Running
    ensures Restart(w, env).ctl.queryTimeout == w.ctl.queryTimeout
    ensures Restart(w, env).ctl.waitFlag ==> Restart(w, env).ctl.waitTimeout == WAIT_IMAGE_TICKS
    ensures !Stuck(Restart(w, env))
    ensures Dones(Restart(w, env).trace) == Dones(w.trace)
  {
    var w0 := w.(ctl := w.ctl.(phase := Idle));
    assert w0 == w;
    StartKeepsInvariant(w, env);
    var w1 := Start(w, env);
    if w1.ctl.phase == Idle { TraceSnoc(w1.trace, NothingToDo); }
    RestartOnlyRequests(w, env);
    var w2 := if w1.ctl.phase == Idle then w1.(trace := w1.trace + [NothingToDo]) else w1;
    assert Inv(w2);
  }

  lemma StartOnlyRequests(w: World, env: Env)
    ensures Dones(Start(w, env).trace) == Dones(w.trace) && Launches(Start(w, env).trace) == Launches(w.trace)
    ensures Start(w, env).child == w.child && Start(w, env).shm == w.shm
  {
    if Start(w, env).trace != w.trace {
      TraceSnoc(w.trace, Requested(Start(w, env).ctl.deviceType));
    }
  }

  lemma RestartOnlyRequests(w: World, env: Env)
    ensures Dones(Restart(w, env).trace) == Dones(w.trace) && Launches(Restart(w, env).trace) == Launches(w.trace)
    ensures Restart(w, env).child == w.child && Restart(w, env).shm == w.shm
  {
    var idle := w.(ctl := w.ctl.(phase := Idle));
    StartOnlyRequests(idle, env);
    TraceSnoc(Start(idle, env).trace, NothingToDo);
  }

  lemma LedgerAfterReport(w: World, w': World)
    requires LedgerOk(w) && w.ctl.phase == Running && w.shm.unread
    requires w'.ctl.phase != Running && !w'.shm.unread
    requires w'.trace == w.trace + [RunDone(w.ctl.deviceType, w.ctl.fwPath, w.shm.errors != 0)]
    ensures LedgerOk(w')
    ensures Dones(w'.trace) == Dones(w.trace) + [RunDone(w.ctl.deviceType, w.ctl.fwPath, w.shm.errors != 0)]
  {
    TraceSnoc(w.trace, RunDone(w.ctl.deviceType, w.ctl.fwPath, w.shm.errors != 0));
  }

  /** The parent's report on an unread result: it names the launched job and never deletes the image. */
  lemma ReportKeepsInvariant(w: World)
    requires Inv(w) && w.shm.unread
    ensures var w' := Report(w.(shm := w.shm.(unread := false)));
            && Inv(w') && w'.ctl == w.ctl.(phase := Idle)
            && Dones(w'.trace) == Dones(w.trace) + [RunDone(w.ctl.deviceType, w.ctl.fwPath, w.shm.errors != 0)]
  {
    var w' := Report(w.(shm := w.shm.(unread := false)));
    assert w.trace + [] == w.trace;
    LedgerAfterReport(w, w');
  }

  lemma QueryKeepsInvariant(w: World, env: Env)
    requires Inv(w)
    ensures Inv(QueryResult(w, env))
    ensures Stuck(QueryResult(w, env)) <==> Stuck(w)
    ensures w.ctl.phase != Running ==>
      QueryResult(w, env) == w.(ctl := w.ctl.(queryTimeout := QueryResult(w, env).ctl.queryTimeout))
    ensures w.ctl.phase == Running && QueryResult(w, env).ctl.waitFlag ==>
      QueryResult(w, env).ctl.waitTimeout == WAIT_IMAGE_TICKS
    ensures Dones(QueryResult(w, env).trace) ==
      if w.shm.unread && w.ctl.queryTimeout <= 1
      then Dones(w.trace) + [RunDone(w.ctl.deviceType, w.ctl.fwPath, w.shm.errors != 0)]
      else Dones(w.trace)
  {
    var w1 := w.(ctl := w.ctl.(queryTimeout := RESULT_QUERY_TICKS));
    assert Inv(w1);
    if w.ctl.queryTimeout <= 1 && w.shm.unread {
      ReportKeepsInvariant(w1);
      var w2 := Report(w1.(shm := w1.shm.(unread := false)));
      if Noticed(w2.ctl) { RestartKeepsInvariant(w2, env); }
    }
  }

  /** The wait-timer expiry with a notice pending and a camera still out of date. */
  predicate Wedges(w: World, e: Event) {
    && e.Tick?
    && w.ctl.waitFlag && w.ctl.waitTimeout == 1
    && Noticed(w.ctl)
    && StartsAgain(e.atExpiry)
  }

  predicate StartsAgain(env: Env) {
    env.reply.Some? && FirstNeeded(NeedCounts(CopyDevices(env.cams), env.reply.value), 0) < TYPE_COUNT
  }

  /** Waiting for an image with the timer off. */
  predicate Stuck(w: World) {
    w.ctl.phase == WaitImage && !w.ctl.waitFlag
  }

  /** A start goes on to request an image exactly when some camera in the table is out of date. */
  lemma StartsAgainMeans(env: Env)
    ensures StartsAgain(env) <==>
      env.reply.Some? && exists c, t: DeviceType :: c in env.cams && OutOfDate(c, env.reply.value, t)
  {
    if env.reply.Some? {
      var vs, devices := env.reply.value, CopyDevices(env.cams);
      forall t: DeviceType
        ensures NeedCounts(devices, vs)[t] > 0 <==> exists c :: c in env.cams && OutOfDate(c, vs, t)
      {
        NeedCountPositive(devices, vs, t);
        forall c | c in env.cams && OutOfDate(c, vs, t) ensures c in devices {
          var i :| 0 <= i < |env.cams| && env.cams[i] == c;
          assert devices[i] == c;
        }
        forall c | c in devices && OutOfDate(c, vs, t) ensures c in env.cams {
          var i :| 0 <= i < |devices| && devices[i] == c;
          assert env.cams[i] == c;
        }
      }
      var first := FirstNeeded(NeedCounts(devices, vs), 0);
      if first < TYPE_COUNT {
        var t: DeviceType := first;
        assert NeedCounts(devices, vs)[t] > 0;
      }
    }
  }

  /** Serving a notice at the expiry: the timer is still on, so a start does not re-arm it. */
  lemma RestartAtExpiry(w: World, env: Env)
    requires Inv(w) && w.ctl.waitFlag && w.ctl.waitTimeout == 1
    ensures var w1 := Restart(w.(ctl := w.ctl.(phase := Idle, waitTimeout := 0)), env);
            var w2 := w1.(ctl := SetWaitTimer(w1.ctl, false));
            && Inv(w2) && w2.ctl.phase == if StartsAgain(env) then WaitImage else Idle
  {
    var idle := w.(ctl := w.ctl.(phase := Idle, waitTimeout := 0));
    var w0, w1 := Start(idle, env), Restart(idle, env);
    assert idle.(ctl := idle.ctl.(phase := Idle)) == idle;
    var c := SetWaitTimer(w1.ctl, false);
    assert TimersOk(c) && c.phase == if StartsAgain(env) then WaitImage else Idle;
    var extra := if StartsAgain(env) then [Requested(w0.ctl.deviceType)] else [NothingToDo];
    assert w1.trace == w.trace + extra;
    InvAfterIdleStep(w, c, extra);
  }

  lemma WaitTimerKeepsInvariant(w: World, env: Env)
    requires Inv(w)
    ensures Inv(RunWaitTimer(w, env))
    ensures Stuck(RunWaitTimer(w, env)) <==>
      Stuck(w) || (w.ctl.waitFlag && w.ctl.waitTimeout == 1 && Noticed(w.ctl) && StartsAgain(env))
    ensures w.ctl.waitFlag && w.ctl.waitTimeout == 1 ==>
      RunWaitTimer(w, env).ctl.phase == if Noticed(w.ctl) && StartsAgain(env) then WaitImage else Idle
    ensures Dones(RunWaitTimer(w, env).trace) == Dones(w.trace)
    ensures RunWaitTimer(w, env).child == w.child && RunWaitTimer(w, env).shm == w.shm
  {
    if w.ctl.waitFlag && w.ctl.waitTimeout == 1 {
      var idle := w.(ctl := w.ctl.(phase := Idle, waitTimeout := 0));
      if Noticed(w.ctl) {
        RestartAtExpiry(w, env);
        RestartOnlyRequests(idle, env);
      } else {
        InvAfterIdleStep(w, SetWaitTimer(idle.ctl, false), []);
        assert w.trace + [] == w.trace;
      }
    }
  }

  lemma LaunchKeepsInvariant(w: World, version: string, path: string, forked: bool)
    requires Inv(w) && w.ctl.waitFlag && path != ""
    ensures var c := SetWaitTimer(w.ctl, false);
            var w' := Fork(w.(ctl := c.(fwVersion := version, fwPath := path, phase := Running)), forked);
            Inv(w') && !Stuck(w') && Dones(w'.trace) == Dones(w.trace)
  {
    var job := Job(w.ctl.deviceType, path, version, w.ctl.devices);
    TraceSnoc(w.trace, Launched(job));
    TraceSnoc(w.trace + [Launched(job)], Posted(FORK_FAILED));
    assert w.trace + [Launched(job), Posted(FORK_FAILED)] == w.trace + [Launched(job)] + [Posted(FORK_FAILED)];
  }

  lemma ImageKeepsInvariant(w: World, t: int, version: string, path: string, forked: bool)
    requires Inv(w)
    ensures Inv(HandleImage(w, t, version, path, forked))
    ensures Stuck(HandleImage(w, t, version, path, forked)) <==> Stuck(w)
    ensures Dones(HandleImage(w, t, version, path, forked).trace) == Dones(w.trace)
  {
    if w.ctl.waitFlag && t == w.ctl.deviceType && path != "" {
      LaunchKeepsInvariant(w, version, path, forked);
    } else {
      TraceSnoc(w.trace, Refused(t, path));
    }
  }

  lemma ChildKeepsInvariant(w: World, e: Event)
    requires Inv(w) && (e.ChildWrites? || e.ChildPosts? || e.ChildDies?)
    ensures Inv(StepChild(w, e)) && StepChild(w, e).ctl == w.ctl
    ensures Dones(StepChild(w, e).trace) == Dones(w.trace) && Launches(StepChild(w, e).trace) == Launches(w.trace)
  {
    if e.ChildPosts? && w.child.Reporting? { TraceSnoc(w.trace, Posted(w.child.errors)); }
  }

  lemma TickKeepsInvariant(w: World, atQuery: Env, atExpiry: Env)
    requires Inv(w)
    ensures Inv(HandleTick(w, atQuery, atExpiry))
    ensures Stuck(HandleTick(w, atQuery, atExpiry)) <==> Stuck(w) || Wedges(w, Tick(atQuery, atExpiry))
  {
    QueryKeepsInvariant(w, atQuery);
    WaitTimerKeepsInvariant(QueryResult(w, atQuery), atExpiry);
  }

  lemma NewsKeepsInvariant(w: World, e: Event, env: Env)
    requires Inv(w)
    requires e == ListChanged(env) || (e.VersionChanged? && e.env == env)
    ensures Inv(Step(w, e)) && (Stuck(Step(w, e)) <==> Stuck(w))
  {
    if w.ctl.phase == Idle {
      StartKeepsInvariant(w, env);
    }
  }

  /** One step keeps the invariant, and waiting is left without a timer by exactly one kind of step. */
  lemma {:induction false} StepKeepsInvariant(w: World, e: Event)
    requires Inv(w)
    ensures Inv(Step(w, e))
    ensures Stuck(Step(w, e)) <==> Stuck(w) || Wedges(w, e)
  {
    match e
    case Tick(atQuery, atExpiry) =>
      TickKeepsInvariant(w, atQuery, atExpiry);
    case ListChanged(env) =>
      NewsKeepsInvariant(w, e, env);
    case VersionChanged(_, env) =>
      NewsKeepsInvariant(w, e, env);
    case ImageArrived(t, version, path, forked) =>
      ImageKeepsInvariant(w, t, version, path, forked);
    case _ =>
      ChildKeepsInvariant(w, e);
  }

  // ----- whole runs

  lemma RunNext(w: World, es: seq<Event>, e: Event)
    ensures Run(w, es + [e]) == Step(Run(w, es), e)
  {
    assert (es + [e])[..|es|] == es;
  }

  lemma {:induction false} RunKeepsInvariant(es: seq<Event>)
    ensures Inv(Run(INITIAL, es))
  {
    if es != [] {
      RunKeepsInvariant(es[..|es| - 1]);
      StepKeepsInvariant(Run(INITIAL, es[..|es| - 1]), es[|es| - 1]);
    }
  }

  lemma StuckNext(es: seq<Event>, e: Event)
    ensures Stuck(Run(INITIAL, es + [e])) <==> Stuck(Run(INITIAL, es)) || Wedges(Run(INITIAL, es), e)
  {
    RunKeepsInvariant(es);
    StepKeepsInvariant(Run(INITIAL, es), e);
    RunNext(INITIAL, es, e);
  }

  /** Step `i` of the run is a wedging expiry. */
  predicate WedgedAt(es: seq<Event>, i: nat)
    requires i < |es|
  {
    Wedges(Run(INITIAL, es[..i]), es[i])
  }

  lemma WedgedEarlier(es: seq<Event>, e: Event, i: nat)
    requires i < |es|
    ensures WedgedAt(es + [e], i) <==> WedgedAt(es, i)
  {
    assert (es + [e])[..i] == es[..i];
  }

  lemma WedgedNow(es: seq<Event>, e: Event)
    ensures WedgedAt(es + [e], |es|) <==> Wedges(Run(INITIAL, es), e)
  {
    assert (es + [e])[..|es|] == es;
  }

  /** The step that wedged a stuck run. */
  lemma {:induction false} WedgingStep(es: seq<Event>) returns (i: nat)
    requires Stuck(Run(INITIAL, es))
    ensures i < |es| && WedgedAt(es, i)
  {
    var front, e := es[..|es| - 1], es[|es| - 1];
    assert es == front + [e];
    StuckNext(front, e);
    if Stuck(Run(INITIAL, front)) {
      i := WedgingStep(front);
      WedgedEarlier(front, e, i);
    } else {
      i := |front|;
      WedgedNow(front, e);
    }
  }

  lemma {:induction false} WedgedRunIsStuck(es: seq<Event>, i: nat)
    requires i < |es| && WedgedAt(es, i)
    ensures Stuck(Run(INITIAL, es))
  {
    var front, e := es[..|es| - 1], es[|es| - 1];
    assert es == front + [e];
    StuckNext(front, e);
    if i < |front| {
      WedgedEarlier(front, e, i);
      WedgedRunIsStuck(front, i);
    } else {
      WedgedNow(front, e);
    }
  }

  /** A run is stuck at its end exactly when one of its steps was a wedging expiry. */
  lemma {:induction false} RunStuckIff(es: seq<Event>)
    ensures Stuck(Run(INITIAL, es)) <==> exists i: nat :: i < |es| && WedgedAt(es, i)
  {
    if Stuck(Run(INITIAL, es)) {
      var i := WedgingStep(es);
    }
    if i: nat :| i < |es| && WedgedAt(es, i) {
      WedgedRunIsStuck(es, i);
    }
  }

  lemma StuckStep(w: World, e: Event)
    requires Inv(w) && Stuck(w)
    ensures Inv(Step(w, e)) && Stuck(Step(w, e)) && Step(w, e).trace == w.trace
  {
    StepKeepsInvariant(w, e);
  }

  /** Once stuck, always stuck: nothing is requested, launched or reported any more. */
  lemma {:induction false} StuckForever(w: World, es: seq<Event>)
    requires Inv(w) && Stuck(w)
    ensures Inv(Run(w, es)) && Stuck(Run(w, es)) && Run(w, es).trace == w.trace
  {
    if es != [] {
      StuckForever(w, es[..|es| - 1]);
      StuckStep(Run(w, es[..|es| - 1]), es[|es| - 1]);
    }
  }

  /** A child that dies before its last write leaves the daemon in its run for good. */
  lemma {:induction false} LostForever(w: World, es: seq<Event>)
    requires Inv(w) && w.child.Lost?
    ensures var w' := Run(w, es);
            && Inv(w') && w'.child == w.child && w'.ctl.phase == Running
            && !w'.shm.unread && w'.trace == w.trace
  {
    if es != [] {
      LostForever(w, es[..|es| - 1]);
      StepKeepsInvariant(Run(w, es[..|es| - 1]), es[|es| - 1]);
    }
  }

  lemma RunEnds(w: World, atQuery: Env, atExpiry: Env)
    requires Inv(w) && w.shm.unread && w.ctl.queryTimeout <= 1
    ensures var w' := HandleTick(w, atQuery, atExpiry);
            && w'.ctl.phase != Running && !w'.shm.unread && w'.child.NoChild?
            && Dones(w'.trace) == Dones(w.trace) + [RunDone(w.ctl.deviceType, w.ctl.fwPath, w.shm.errors != 0)]
  {
    var w1 := w.(ctl := w.ctl.(queryTimeout := RESULT_QUERY_TICKS));
    assert Inv(w1);
    QueryKeepsInvariant(w, atQuery);
    ReportKeepsInvariant(w1);
    var w2, w3 := QueryResult(w, atQuery), Report(w1.(shm := w1.shm.(unread := false)));
    if Noticed(w3.ctl) {
      RestartKeepsInvariant(w3, atQuery);
      RestartOnlyRequests(w3, atQuery);
    }
    assert w2.ctl.phase != Running;
    WaitTimerKeepsInvariant(w2, atExpiry);
  }

  /** A tick that finds no result only counts down. */
  lemma RunGoesOn(w: World, atQuery: Env, atExpiry: Env)
    requires Inv(w) && w.ctl.phase == Running && !(w.shm.unread && w.ctl.queryTimeout <= 1)
    ensures var w' := HandleTick(w, atQuery, atExpiry);
            && w' == w.(ctl := w.ctl.(queryTimeout := w'.ctl.queryTimeout))
            && (w.ctl.queryTimeout > 1 ==> w'.ctl.queryTimeout == w.ctl.queryTimeout - 1)
  {}

  /** While a run is on, no event changes what it is about; only a tick that finds a result ends it. */
  lemma RunIsAttributed(w: World, e: Event)
    requires Inv(w) && w.ctl.phase == Running
    ensures var w' := Step(w, e);
            if e.Tick? && w.shm.unread && w.ctl.queryTimeout <= 1
            then w'.ctl.phase != Running && !w'.shm.unread && w'.child.NoChild?
                 && Dones(w'.trace) == Dones(w.trace)
                      + [RunDone(w.ctl.deviceType, w.ctl.fwPath, w.shm.errors != 0)]
            else w'.ctl.phase == Running && CurrentJob(w'.ctl) == CurrentJob(w.ctl)
                 && w'.ctl.needCount == w.ctl.needCount && w.ctl.needCount[w.ctl.deviceType] > 0
                 && Dones(w'.trace) == Dones(w.trace) && (w.shm.unread ==> w'.shm == w.shm)
                 && (w.shm.unread ==> w'.ctl.queryTimeout == w.ctl.queryTimeout - if e.Tick? then 1 else 0)
  {
    if e.Tick? {
      if w.shm.unread && w.ctl.queryTimeout <= 1 {
        RunEnds(w, e.atQuery, e.atExpiry);
      } else {
        RunGoesOn(w, e.atQuery, e.atExpiry);
      }
    } else if e.ChildWrites? || e.ChildPosts? || e.ChildDies? {
      ChildKeepsInvariant(w, e);
    }
  }

  /** A child is forked only when no other is alive and no result is waiting. */
  lemma OneChildAtATime(w: World, e: Event)
    requires Inv(w) && Launches(Step(w, e).trace) != Launches(w.trace)
    ensures e.ImageArrived? && w.child.NoChild? && !w.shm.unread && w.ctl.phase == WaitImage
    ensures Launches(Step(w, e).trace) ==
      Launches(w.trace) + [Job(w.ctl.deviceType, e.path, e.version, w.ctl.devices)]
    ensures e.deviceType == w.ctl.deviceType && e.path != ""
  {
    match e
    case Tick(atQuery, atExpiry) =>
      NoLaunchInTick(w, atQuery, atExpiry);
    case ListChanged(env) =>
      StartOnlyRequests(w, env);
    case VersionChanged(_, env) =>
      StartOnlyRequests(w, env);
    case ImageArrived(t, version, path, forked) =>
      ImageLaunches(w, t, version, path, forked);
    case _ =>
      ChildKeepsInvariant(w, e);
  }

  lemma ImageLaunches(w: World, t: int, version: string, path: string, forked: bool)
    requires Inv(w)
    ensures Launches(HandleImage(w, t, version, path, forked).trace) ==
      if w.ctl.waitFlag && t == w.ctl.deviceType && path != ""
      then Launches(w.trace) + [Job(w.ctl.deviceType, path, version, w.ctl.devices)]
      else Launches(w.trace)
  {
    TraceSnoc(w.trace, Refused(t, path));
    var job := Job(w.ctl.deviceType, path, version, w.ctl.devices);
    TraceSnoc(w.trace, Launched(job));
    TraceSnoc(w.trace + [Launched(job)], Posted(FORK_FAILED));
    assert w.trace + [Launched(job), Posted(FORK_FAILED)] == w.trace + [Launched(job)] + [Posted(FORK_FAILED)];
  }

  lemma ReportLaunchesNothing(w: World)
    ensures Launches(Report(w).trace) == Launches(w.trace)
  {
    var removed, done := RemovedFile(w.ctl.fwPath), RunDone(w.ctl.deviceType, w.ctl.fwPath, w.shm.errors != 0);
    TraceSnoc(w.trace, removed);
    TraceSnoc(w.trace + [removed], done);
    TraceSnoc(w.trace, done);
    assert w.trace + [] + [done] == w.trace + [done];
  }

  lemma EndLaunchesNothing(w: World, env: Env)
    ensures Launches(End(w, env).trace) == Launches(w.trace)
  {
    if w.ctl.phase != Idle {
      ReportLaunchesNothing(w);
      RestartOnlyRequests(if w.ctl.phase == WaitImage then GiveUpWaiting(w) else Report(w), env);
    }
  }

  lemma QueryLaunchesNothing(w: World, env: Env)
    ensures Launches(QueryResult(w, env).trace) == Launches(w.trace)
  {
    var w1 := w.(ctl := w.ctl.(queryTimeout := RESULT_QUERY_TICKS));
    EndLaunchesNothing(w1.(shm := w1.shm.(unread := false)), env);
  }

  lemma WaitTimerLaunchesNothing(w: World, env: Env)
    ensures Launches(RunWaitTimer(w, env).trace) == Launches(w.trace)
  {
    EndLaunchesNothing(w.(ctl := w.ctl.(waitTimeout := w.ctl.waitTimeout - 1)), env);
  }

  lemma NoLaunchInTick(w: World, atQuery: Env, atExpiry: Env)
    ensures Launches(HandleTick(w, atQuery, atExpiry).trace) == Launches(w.trace)
  {
    QueryLaunchesNothing(w, atQuery);
    WaitTimerLaunchesNothing(QueryResult(w, atQuery), atExpiry);
  }

  /** Over a whole run every finished job is reported once, in launch order, with its own type, path
      and verdict; the image file is never deleted. */
  lemma {:induction false} EveryRunReportedOnce(es: seq<Event>)
    ensures var w := Run(INITIAL, es);
            var ls, ps, ds := Launches(w.trace), Posts(w.trace), Dones(w.trace);
            && |ls| == |ds| + (if w.ctl.phase == Running then 1 else 0)
            && |ds| <= |ps| <= |ds| + 1
            && (forall k :: 0 <= k < |ds| ==> ds[k] == RunDone(ls[k].deviceType, ls[k].path, ps[k] != 0))
            && KeepsFiles(w.trace)
  {
    RunKeepsInvariant(es);
  }

  // ----- bounded waiting

  function Ticks(es: seq<Event>): nat {
    if es == [] then 0 else Ticks(es[..|es| - 1]) + if es[|es| - 1].Tick? then 1 else 0
  }

  /** At step `k` of the run the waiting result is reported. */
  predicate ConsumedAt(w: World, es: seq<Event>, k: nat)
    requires k < |es|
  {
    es[k].Tick? && Consumed(w, Run(w, es[..k]), Run(w, es[..k + 1]))
  }

  predicate Consumed(w: World, before: World, after: World) {
    && before.shm.unread && !after.shm.unread && after.ctl.phase != Running
    && Dones(after.trace) == Dones(w.trace) + [RunDone(w.ctl.deviceType, w.ctl.fwPath, w.shm.errors != 0)]
  }

  /** Between `w`, where the result was posted, and `w'`, `ticks` ticks later, nothing was reported. */
  ghost predicate StillUnread(w: World, w': World, ticks: nat) {
    && w'.shm == w.shm && w'.ctl.phase == Running && CurrentJob(w'.ctl) == CurrentJob(w.ctl)
    && Dones(w'.trace) == Dones(w.trace)
    && w'.ctl.queryTimeout == w.ctl.queryTimeout - ticks && (ticks > 0 ==> w'.ctl.queryTimeout > 0)
  }

  lemma UnreadStep(w: World, w1: World, ticks: nat, e: Event)
    requires Inv(w1) && w.shm.unread && StillUnread(w, w1, ticks)
    ensures if e.Tick? && w1.ctl.queryTimeout <= 1 then Consumed(w, w1, Step(w1, e))
            else StillUnread(w, Step(w1, e), ticks + if e.Tick? then 1 else 0)
  {
    RunIsAttributed(w1, e);
  }

  lemma {:induction false} RunFromKeepsInvariant(w: World, es: seq<Event>)
    requires Inv(w)
    ensures Inv(Run(w, es))
  {
    if es != [] {
      RunFromKeepsInvariant(w, es[..|es| - 1]);
      StepKeepsInvariant(Run(w, es[..|es| - 1]), es[|es| - 1]);
    }
  }

  lemma TicksNext(es: seq<Event>, e: Event)
    ensures Ticks(es + [e]) == Ticks(es) + if e.Tick? then 1 else 0
  {
    assert (es + [e])[..|es|] == es;
  }

  lemma UnreadNext(w: World, es: seq<Event>, e: Event)
    requires w.shm.unread && Inv(Run(w, es)) && StillUnread(w, Run(w, es), Ticks(es))
    ensures ConsumedAt(w, es + [e], |es|) || StillUnread(w, Run(w, es + [e]), Ticks(es + [e]))
  {
    UnreadStep(w, Run(w, es), Ticks(es), e);
    RunNext(w, es, e);
    TicksNext(es, e);
    assert (es + [e])[..|es|] == es && (es + [e])[..|es| + 1] == es + [e];
  }

  lemma {:induction false} UnreadUntilConsumed(w: World, es: seq<Event>)
    requires Inv(w) && w.shm.unread
    ensures (exists k: nat :: k < |es| && ConsumedAt(w, es, k)) || StillUnread(w, Run(w, es), Ticks(es))
  {
    if es != [] {
      var front := es[..|es| - 1];
      UnreadUntilConsumed(w, front);
      if k: nat :| k < |front| && ConsumedAt(w, front, k) {
        assert front[..k] == es[..k] && front[..k + 1] == es[..k + 1];
        assert ConsumedAt(w, es, k);
      } else {
        RunFromKeepsInvariant(w, front);
        UnreadNext(w, front, es[|es| - 1]);
        assert es == front + [es[|es| - 1]];
      }
    }
  }

  /** A posted result is reported by the fifth tick at the latest, whatever else happens. */
  lemma {:induction false} ConsumedWithinFiveTicks(w: World, es: seq<Event>)
    requires Inv(w) && w.shm.unread && Ticks(es) >= RESULT_QUERY_TICKS
    ensures exists k: nat :: k < |es| && ConsumedAt(w, es, k)
  {
    UnreadUntilConsumed(w, es);
  }

  /** Waiting with the timer on and `left` ticks to go. */
  ghost predicate WaitsFor(w: World, left: int) {
    Inv(w) && w.ctl.phase == WaitImage && w.ctl.waitFlag && w.ctl.waitTimeout == left
  }

  ghost predicate WaitOver(w: World) {
    w.ctl.phase == Idle || Stuck(w)
  }

  lemma WaitStep(w: World, e: Event, left: int)
    requires WaitsFor(w, left) && !e.ImageArrived?
    ensures if e.Tick? && left <= 1 then WaitOver(Step(w, e)) else WaitsFor(Step(w, e), left - if e.Tick? then 1 else 0)
  {
    StepKeepsInvariant(w, e);
    if e.Tick? {
      QueryKeepsInvariant(w, e.atQuery);
      WaitTimerKeepsInvariant(QueryResult(w, e.atQuery), e.atExpiry);
    }
  }

  /** At step `k` the wait ends, `left` ticks after `w`. */
  ghost predicate WaitEndsAt(w: World, es: seq<Event>, k: nat, left: int)
    requires k < |es|
  {
    es[k].Tick? && Ticks(es[..k + 1]) == left && WaitOver(Run(w, es[..k + 1]))
  }

  /** Waiting ends after the remaining ticks unless an image arrives: idle, or wedged. */
  lemma {:induction false} WaitIsBounded(w: World, es: seq<Event>)
    requires Inv(w) && w.ctl.waitFlag
    requires forall e :: e in es ==> !e.ImageArrived?
    requires Ticks(es) <= w.ctl.waitTimeout
    ensures if Ticks(es) < w.ctl.waitTimeout
            then WaitsFor(Run(w, es), w.ctl.waitTimeout - Ticks(es))
            else exists k: nat :: k < |es| && WaitEndsAt(w, es, k, w.ctl.waitTimeout)
  {
    if es != [] {
      var front, e := es[..|es| - 1], es[|es| - 1];
      assert es == front + [e];
      WaitIsBounded(w, front);
      if Ticks(front) == w.ctl.waitTimeout {
        var k: nat :| k < |front| && WaitEndsAt(w, front, k, w.ctl.waitTimeout);
        assert front[..k + 1] == es[..k + 1];
        assert WaitEndsAt(w, es, k, w.ctl.waitTimeout);
      } else {
        WaitStep(Run(w, front), e, w.ctl.waitTimeout - Ticks(front));
        assert es[..|front| + 1] == es;
        if Ticks(es) == w.ctl.waitTimeout {
          assert WaitEndsAt(w, es, |front|, w.ctl.waitTimeout);
        }
      }
    }
  }

  // ----- the hang can really be reached

  const STALE := Camera(1, true, "old", "K10")
  const STALE_ENV := Env(Some(["new", "new", "new", "new", "new", "new", "new"]), [STALE])

  /** Two list changes, then quiet ticks until the image timeout. */
  function QuietRun(env: Env, ticks: nat): seq<Event> {
    if ticks == 0 then [ListChanged(env), ListChanged(env)] else QuietRun(env, ticks - 1) + [Tick(env, env)]
  }

  lemma StaleStartsAgain()
    ensures StartsAgain(STALE_ENV)
  {
    StartsAgainMeans(STALE_ENV);
    var t: DeviceType := 0;
    assert STALE in STALE_ENV.cams && OutOfDate(STALE, STALE_ENV.reply.value, t);
  }

  /** Waiting for an image with a list notice pending and `left` ticks to go. */
  ghost predicate QuietlyWaiting(w: World, left: int) {
    Inv(w) && w.ctl.phase == WaitImage && w.ctl.waitFlag && w.ctl.listNoticed && w.ctl.waitTimeout == left
  }

  lemma QuietStart(env: Env)
    requires StartsAgain(env)
    ensures QuietlyWaiting(Step(Step(INITIAL, ListChanged(env)), ListChanged(env)), WAIT_IMAGE_TICKS)
  {
    RunKeepsInvariant([]);
    StepKeepsInvariant(INITIAL, ListChanged(env));
    StepKeepsInvariant(Step(INITIAL, ListChanged(env)), ListChanged(env));
  }

  lemma QuietTick(w: World, env: Env, left: int)
    requires QuietlyWaiting(w, left) && left > 1
    ensures QuietlyWaiting(Step(w, Tick(env, env)), left - 1)
  {
    StepKeepsInvariant(w, Tick(env, env));
  }

  lemma QuietBase(env: Env, es: seq<Event>)
    requires StartsAgain(env) && es == [ListChanged(env), ListChanged(env)]
    ensures QuietlyWaiting(Run(INITIAL, es), WAIT_IMAGE_TICKS)
  {
    QuietStart(env);
    RunNext(INITIAL, [], ListChanged(env));
    RunNext(INITIAL, [ListChanged(env)], ListChanged(env));
    assert [] + [ListChanged(env)] == [ListChanged(env)];
    assert [ListChanged(env)] + [ListChanged(env)] == es;
  }

  lemma QuietNext(env: Env, es: seq<Event>, left: int)
    requires QuietlyWaiting(Run(INITIAL, es), left) && left > 1
    ensures QuietlyWaiting(Run(INITIAL, es + [Tick(env, env)]), left - 1)
  {
    QuietTick(Run(INITIAL, es), env, left);
    RunNext(INITIAL, es, Tick(env, env));
  }

  lemma {:induction false} QuietRunCountsDown(env: Env, ticks: nat) returns (es: seq<Event>)
    requires StartsAgain(env) && ticks < WAIT_IMAGE_TICKS
    ensures es == QuietRun(env, ticks) && QuietlyWaiting(Run(INITIAL, es), WAIT_IMAGE_TICKS - ticks)
  {
    if ticks == 0 {
      es := [ListChanged(env), ListChanged(env)];
      QuietBase(env, es);
    } else {
      var front := QuietRunCountsDown(env, ticks - 1);
      es := front + [Tick(env, env)];
      QuietNext(env, front, WAIT_IMAGE_TICKS - ticks + 1);
    }
  }

  lemma LastTickWedges(w: World, env: Env)
    requires QuietlyWaiting(w, 1) && StartsAgain(env)
    ensures Stuck(Step(w, Tick(env, env)))
  {
    StepKeepsInvariant(w, Tick(env, env));
  }

  lemma QuietRunEnds(env: Env, ticks: nat)
    requires StartsAgain(env) && ticks == WAIT_IMAGE_TICKS
    ensures Stuck(Run(INITIAL, QuietRun(env, ticks)))
  {
    var es := QuietRunCountsDown(env, ticks - 1);
    RunNext(INITIAL, es, Tick(env, env));
    LastTickWedges(Run(INITIAL, es), env);
  }

  /** Whenever some camera is out of date, two list changes and a quiet wait wedge the daemon. */
  lemma QuietRunWedges(env: Env)
    requires StartsAgain(env)
    ensures Stuck(Run(INITIAL, QuietRun(env, WAIT_IMAGE_TICKS)))
  {
    QuietRunEnds(env, WAIT_IMAGE_TICKS);
  }

  /** The wedge is not hypothetical: this run ends waiting for ever. */
  lemma WedgeIsReachable()
    ensures Stuck(Run(INITIAL, QuietRun(STALE_ENV, WAIT_IMAGE_TICKS)))
  {
    StaleStartsAgain();
    QuietRunWedges(STALE_ENV);
  }
}
