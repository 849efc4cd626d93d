/** What a start does, which events start, and what a child is given. */
module UpgradeStarts {
  import opened Wrappers
  import opened Cameras
  import opened UpgradeSpec
  import opened UpgradeProofs
  import N = UpgradeNotices

  // ----- which camera is out of date

  /** A connected camera of the model of a type that reports another version than the announced one. */
  predicate Stale(c: Camera, versions: Versions, t: DeviceType) {
    && c.devId != 0 && c.online && c.fwVersion != ""
    && ModelName(t) == Some(c.model) && c.fwVersion != versions[t]
  }

  lemma StaleIsOutOfDate(c: Camera, versions: Versions, t: DeviceType)
    ensures Stale(c, versions, t) <==> OutOfDate(c, versions, t)
  {
    ModelTablesAgree(c.model, t);
  }

  ghost predicate AnyStale(env: Env, t: DeviceType)
    requires env.reply.Some?
  {
    exists c :: c in env.cams && Stale(c, env.reply.value, t)
  }

  /** The version list was read and `t` is the first type with a stale camera. */
  ghost predicate FirstStale(env: Env, t: DeviceType) {
    env.reply.Some? && AnyStale(env, t) && forall u: DeviceType :: u < t ==> !AnyStale(env, u)
  }

  ghost predicate NothingStale(env: Env) {
    env.reply.Some? && forall t: DeviceType :: !AnyStale(env, t)
  }

  lemma CountMeansStale(env: Env, t: DeviceType)
    requires env.reply.Some?
    ensures NeedCounts(CopyDevices(env.cams), env.reply.value)[t] > 0 <==> AnyStale(env, t)
  {
    var versions, devices := env.reply.value, CopyDevices(env.cams);
    NeedCountPositive(devices, versions, t);
    forall c | c in env.cams && Stale(c, versions, t) ensures c in devices && OutOfDate(c, versions, t) {
      var i :| 0 <= i < |env.cams| && env.cams[i] == c;
      assert devices[i] == c;
      StaleIsOutOfDate(c, versions, t);
    }
    forall c | c in devices && OutOfDate(c, versions, t) ensures c in env.cams && Stale(c, versions, t) {
      var i :| 0 <= i < |devices| && devices[i] == c;
      assert env.cams[i] == c;
      StaleIsOutOfDate(c, versions, t);
    }
  }

  /** The type a start chooses is the first one with a stale camera. */
  lemma ChosenIsFirstStale(env: Env)
    requires env.reply.Some?
    ensures var t := FirstNeeded(NeedCounts(CopyDevices(env.cams), env.reply.value), 0);
            if t == TYPE_COUNT then NothingStale(env) else FirstStale(env, t)
  {
    forall t: DeviceType
      ensures NeedCounts(CopyDevices(env.cams), env.reply.value)[t] > 0 <==> AnyStale(env, t)
    {
      CountMeansStale(env, t);
    }
  }

  /** What starting over answers. */
  lemma AnswerMeans(env: Env)
    ensures env.reply.None? || NothingStale(env) ==> N.Answer(env) == NothingToDo
    ensures forall t: DeviceType :: FirstStale(env, t) ==> N.Answer(env) == Requested(t)
  {
    if env.reply.Some? {
      ChosenIsFirstStale(env);
      OnlyOneFirst(env);
    }
  }

  lemma OnlyOneFirst(env: Env)
    ensures forall t: DeviceType, u: DeviceType :: FirstStale(env, t) && FirstStale(env, u) ==> t == u
    ensures forall t: DeviceType :: FirstStale(env, t) ==> !NothingStale(env)
  {}

  // ----- what a start does

  /** The copies of the camera table: records in use as they are, the others blank. */
  predicate Copies(devices: seq<Camera>, cams: seq<Camera>) {
    && |devices| == |cams|
    && forall i :: 0 <= i < |cams| ==> devices[i] == if cams[i].devId == 0 then Camera(0, false, "", "") else cams[i]
  }

  /** From `w` to `w'` by a start with `env`, in terms of the version reply and the stale cameras. */
  ghost predicate StartedBy(w: World, env: Env, w': World) {
    && w'.shm == w.shm && w'.child == w.child
    && w'.ctl.upgradeNoticed == w.ctl.upgradeNoticed && w'.ctl.listNoticed == w.ctl.listNoticed
    && (env.reply.None? ==> w' == w)
    && (env.reply.Some? ==> w'.ctl.versions == env.reply.value && Copies(w'.ctl.devices, env.cams))
    && (NothingStale(env) ==> w'.ctl.phase == Idle && w'.trace == w.trace)
    && (forall t: DeviceType :: FirstStale(env, t) ==> Waits(w, t, w'))
  }

  /** The type was requested, once, and the daemon waits with the timer on. */
  predicate Waits(w: World, t: DeviceType, w': World) {
    && w'.trace == w.trace + [Requested(t)] && w'.ctl.deviceType == t
    && w'.ctl.phase == WaitImage && w'.ctl.waitFlag && w'.ctl.waitTimeout == 600
  }

  lemma StartDoes(w: World, env: Env)
    requires Inv(w) && w.ctl.phase == Idle
    ensures StartedBy(w, env, Start(w, env))
  {
    if env.reply.Some? {
      var t := FirstNeeded(NeedCounts(CopyDevices(env.cams), env.reply.value), 0);
      ChosenIsFirstStale(env);
      OnlyOneFirst(env);
      if t < TYPE_COUNT {
        StartWaits(w, env, t);
      } else {
        StartRests(w, env);
      }
    }
  }

  lemma StartWaits(w: World, env: Env, t: DeviceType)
    requires Inv(w) && w.ctl.phase == Idle && env.reply.Some?
    requires t == FirstNeeded(NeedCounts(CopyDevices(env.cams), env.reply.value), 0)
    ensures var w' := Start(w, env);
            && Waits(w, t, w') && w'.shm == w.shm && w'.child == w.child
            && w'.ctl.upgradeNoticed == w.ctl.upgradeNoticed && w'.ctl.listNoticed == w.ctl.listNoticed
            && w'.ctl.versions == env.reply.value && Copies(w'.ctl.devices, env.cams)
  {}

  lemma StartRests(w: World, env: Env)
    requires w.ctl.phase == Idle && env.reply.Some?
    requires FirstNeeded(NeedCounts(CopyDevices(env.cams), env.reply.value), 0) == TYPE_COUNT
    ensures var w' := Start(w, env);
            && w'.ctl.phase == Idle && w'.trace == w.trace && w'.shm == w.shm && w'.child == w.child
            && w'.ctl.upgradeNoticed == w.ctl.upgradeNoticed && w'.ctl.listNoticed == w.ctl.listNoticed
            && w'.ctl.versions == env.reply.value && Copies(w'.ctl.devices, env.cams)
  {}

  /** A version change does nothing without a reply or with the stored list; a new list starts an upgrade
      when the daemon is idle and is noted otherwise. */
  lemma VersionChangeDoes(w: World, news: Option<Versions>, env: Env)
    requires Inv(w)
    ensures var w' := Step(w, VersionChanged(news, env));
            && (news.None? || news == Some(w.ctl.versions) ==> w' == w)
            && (news.Some? && news.value != w.ctl.versions ==>
                  if w.ctl.phase == Idle then StartedBy(w, env, w')
                  else w'.ctl.upgradeNoticed && w' == w.(ctl := w.ctl.(upgradeNoticed := true)))
  {
    if w.ctl.phase == Idle {
      StartDoes(w, env);
    }
  }

  /** A change of the camera list starts an upgrade when the daemon is idle and is noted otherwise. */
  lemma ListChangeDoes(w: World, env: Env)
    requires Inv(w)
    ensures var w' := Step(w, ListChanged(env));
            if w.ctl.phase == Idle then StartedBy(w, env, w')
            else w'.ctl.listNoticed && w' == w.(ctl := w.ctl.(listNoticed := true))
  {
    if w.ctl.phase == Idle {
      StartDoes(w, env);
    }
  }

  /** Every new version list, and every change of the camera list, seen in a wait or run is served by the
      next step that ends it. */
  lemma ChangeIsServed(w: World, e: Event, es: seq<Event>)
    requires Inv(w) && w.ctl.phase != Idle
    requires e.ListChanged? || (e.VersionChanged? && e.news.Some? && e.news.value != w.ctl.versions)
    requires es != [] && N.Uninterrupted(Step(w, e), es[..|es| - 1], 0)
    requires N.Ends(Run(Step(w, e), es[..|es| - 1]), es[|es| - 1])
    ensures N.Served(Run(Step(w, e), es[..|es| - 1]), es[|es| - 1], Run(Step(w, e), es))
  {
    StepKeepsInvariant(w, e);
    match e {
      case ListChanged(env) => ListChangeDoes(w, env);
      case VersionChanged(news, env) => VersionChangeDoes(w, news, env);
    }
    N.ServedAtNextEnd(Step(w, e), es);
  }

  /** An image is ignored outside a wait. Of a type nobody knows it is refused and the wait goes on; of
      another known type, or without a path, it is refused and ends the wait; otherwise it is launched. */
  lemma ImageDoes(w: World, t: int, version: string, path: string, forked: bool)
    requires Inv(w)
    ensures var w' := Step(w, ImageArrived(t, version, path, forked));
            if !w.ctl.waitFlag then w' == w
            else if t < 0 || t >= TYPE_COUNT then w' == w.(trace := w.trace + [Refused(t, path)])
            else
              && !w'.ctl.waitFlag && Noticed(w'.ctl) == Noticed(w.ctl)
              && if t != w.ctl.deviceType || path == ""
                 then w'.ctl.phase == Idle && w'.trace == w.trace + [Refused(t, path)]
                 else LaunchedBy(w, Job(t, path, version, w.ctl.devices), forked, w')
  {}

  /** The job is running in a child, or its fork has failed. */
  predicate LaunchedBy(w: World, job: Job, forked: bool, w': World) {
    && w'.ctl.phase == Running && CurrentJob(w'.ctl) == job
    && if forked then w'.trace == w.trace + [Launched(job)] && w'.child == Working(job) && !w'.shm.unread
       else w'.trace == w.trace + [Launched(job), Posted(255)] && w'.child == w.child && w'.shm == Shared(true, 255)
  }

  // ----- where the device copies come from

  /** The environment a step starts with, if it starts and the version list can be read. */
  function StartOf(w: World, e: Event): Option<Env> {
    match e
    case ListChanged(env) => Read(w.ctl.phase == Idle, env)
    case VersionChanged(news, env) =>
      Read(w.ctl.phase == Idle && news.Some? && news.value != w.ctl.versions, env)
    case Tick(atQuery, atExpiry) =>
      Read(N.Ends(w, e) && Noticed(w.ctl), if N.FindsResult(w) then atQuery else atExpiry)
    case _ => None
  }

  function Read(starts: bool, env: Env): Option<Env> {
    if starts && env.reply.Some? then Some(env) else None
  }

  /** Versions, device copies and counts. */
  ghost predicate Knows(c: Control, versions: Versions, cams: seq<Camera>) {
    c.versions == versions && Copies(c.devices, cams) && c.needCount == NeedCounts(c.devices, versions)
  }

  ghost predicate SameKnowledge(c: Control, c': Control) {
    c'.versions == c.versions && c'.devices == c.devices && c'.needCount == c.needCount
  }

  lemma StartKnows(w: World, env: Env)
    ensures env.reply.Some? ==> Knows(Start(w, env).ctl, env.reply.value, env.cams)
    ensures env.reply.None? ==> SameKnowledge(w.ctl, Start(w, env).ctl)
  {}

  lemma RestartKnows(w: World, env: Env)
    ensures env.reply.Some? ==> Knows(Restart(w, env).ctl, env.reply.value, env.cams)
    ensures env.reply.None? ==> SameKnowledge(w.ctl, Restart(w, env).ctl)
  {
    StartKnows(w.(ctl := w.ctl.(phase := Idle)), env);
  }

  lemma QueryKnows(w: World, env: Env)
    requires Inv(w)
    ensures var w' := QueryResult(w, env);
            if N.FindsResult(w) && Noticed(w.ctl) && env.reply.Some?
            then Knows(w'.ctl, env.reply.value, env.cams)
            else SameKnowledge(w.ctl, w'.ctl)
  {
    if N.FindsResult(w) {
      var w1 := w.(ctl := w.ctl.(queryTimeout := RESULT_QUERY_TICKS));
      RestartKnows(Report(w1.(shm := w1.shm.(unread := false))), env);
    }
  }

  lemma TimerKnows(w: World, env: Env)
    requires Inv(w)
    ensures var w' := RunWaitTimer(w, env);
            if N.Expires(w) && Noticed(w.ctl) && env.reply.Some?
            then Knows(w'.ctl, env.reply.value, env.cams)
            else SameKnowledge(w.ctl, w'.ctl)
  {
    if N.Expires(w) {
      RestartKnows(w.(ctl := w.ctl.(phase := Idle, waitTimeout := 0)), env);
    }
  }

  lemma TickKnows(w: World, e: Event)
    requires Inv(w) && e.Tick?
    ensures match StartOf(w, e)
            case Some(env) => Knows(Step(w, e).ctl, env.reply.value, env.cams)
            case None => SameKnowledge(w.ctl, Step(w, e).ctl)
  {
    var w1 := QueryResult(w, e.atQuery);
    QueryKeepsInvariant(w, e.atQuery);
    QueryKnows(w, e.atQuery);
    TimerKnows(w1, e.atExpiry);
  }

  /** A step that starts takes versions, copies and counts from its environment; every other step leaves
      them alone. */
  lemma StepKnows(w: World, e: Event)
    requires Inv(w)
    ensures match StartOf(w, e)
            case Some(env) => Knows(Step(w, e).ctl, env.reply.value, env.cams)
            case None => SameKnowledge(w.ctl, Step(w, e).ctl)
  {
    match e
    case Tick(_, _) => TickKnows(w, e);
    case ListChanged(env) => StartKnows(w, env);
    case VersionChanged(_, env) => StartKnows(w, env);
    case _ => OthersKnow(w, e);
  }

  lemma OthersKnow(w: World, e: Event)
    requires !e.Tick? && !e.ListChanged? && !e.VersionChanged?
    ensures SameKnowledge(w.ctl, Step(w, e).ctl)
  {}

  /** The environment of the last start of a run. */
  function LastStart(es: seq<Event>): Option<Env> {
    if es == [] then None
    else
      var front := es[..|es| - 1];
      var s := StartOf(Run(INITIAL, front), es[|es| - 1]);
      if s.Some? then s else LastStart(front)
  }

  /** Over every run: versions, device copies and counts are those of the last start. */
  lemma {:induction false} RunKnows(es: seq<Event>)
    ensures LastStart(es).Some? ==> LastStart(es).value.reply.Some?
    ensures match LastStart(es)
            case Some(env) => Knows(Run(INITIAL, es).ctl, env.reply.value, env.cams)
            case None => Knows(Run(INITIAL, es).ctl, NO_VERSIONS, [])
  {
    if es == [] {
      assert NeedCounts([], NO_VERSIONS) == NO_COUNTS;
    } else {
      var front := es[..|es| - 1];
      RunKnows(front);
      RunKeepsInvariant(front);
      StepKnows(Run(INITIAL, front), es[|es| - 1]);
    }
  }

  lemma NoCamerasNoNeed(c: Control, versions: Versions)
    requires Knows(c, versions, [])
    ensures forall t: DeviceType :: c.needCount[t] == 0
  {}

  lemma NeedMeansStale(c: Control, env: Env, t: DeviceType)
    requires env.reply.Some? && Knows(c, env.reply.value, env.cams)
    ensures c.needCount[t] > 0 <==> AnyStale(env, t)
  {
    assert c.devices == CopyDevices(env.cams);
    CountMeansStale(env, t);
  }

  /** What a forked child is given: the image's path and version, and the camera table of the last start,
      in which a camera of the type was stale. */
  lemma LaunchedJob(es: seq<Event>, e: Event) returns (job: Job)
    requires var w := Run(INITIAL, es); Launches(Step(w, e).trace) != Launches(w.trace)
    ensures Launches(Step(Run(INITIAL, es), e).trace) == Launches(Run(INITIAL, es).trace) + [job]
    ensures e.ImageArrived? && job.deviceType == e.deviceType && job.path == e.path && job.version == e.version
    ensures LastStart(es).Some? && LastStart(es).value.reply.Some?
    ensures Copies(job.devices, LastStart(es).value.cams) && AnyStale(LastStart(es).value, job.deviceType)
  {
    var w := Run(INITIAL, es);
    RunKeepsInvariant(es);
    OneChildAtATime(w, e);
    job := Job(w.ctl.deviceType, e.path, e.version, w.ctl.devices);
    RunKnows(es);
    if LastStart(es).None? {
      NoCamerasNoNeed(w.ctl, NO_VERSIONS);
    } else {
      NeedMeansStale(w.ctl, LastStart(es).value, w.ctl.deviceType);
    }
  }
}
