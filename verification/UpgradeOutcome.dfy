/** The two halves of the upgrade together: what a success report tells about the cameras. */
module UpgradeOutcome {
  import opened Wrappers
  import opened Cameras
  import opened UpgradeSpec
  import opened UpgradeProofs
  import C = UpgradeChild
  import S = UpgradeStarts

  /** The error count a child stores when its cameras end with standings `st`. */
  function ChildErrors(st: seq<C.Standing>): nat {
    C.TotalErrors(st) + C.Tally(st, C.Waiting)
  }

  /** The count a child stores, also when it cannot start: the run is not on, its type has no model name,
      or the image file is missing. */
  function StoredCount(started: bool, st: seq<C.Standing>): nat {
    if started then ChildErrors(st) else C.NOT_STARTED
  }

  /** The world once the child has stored its count and raised the flag, with other events in between. */
  function AfterChild(w: World, errors: nat, between: seq<Event>): World {
    Step(Run(Step(w, ChildWrites(errors)), between), ChildPosts)
  }

  /** Events other than the end of the child. */
  predicate ChildGoesOn(es: seq<Event>) {
    forall e :: e in es ==> !e.ChildPosts? && !e.ChildDies?
  }

  /** A child between its two last writes: nothing else touches the record, the job or the reports. */
  ghost predicate StillReporting(w: World, w': World) {
    && Inv(w') && w'.child == w.child && w'.child.Reporting? && CurrentJob(w'.ctl) == CurrentJob(w.ctl)
    && Dones(w'.trace) == Dones(w.trace)
  }

  lemma ReportingStep(w: World, w1: World, e: Event)
    requires StillReporting(w, w1) && !e.ChildPosts? && !e.ChildDies?
    ensures StillReporting(w, Step(w1, e))
  {
    StepKeepsInvariant(w1, e);
    RunIsAttributed(w1, e);
  }

  lemma {:induction false} ReportingRun(w: World, es: seq<Event>)
    requires StillReporting(w, w) && ChildGoesOn(es)
    ensures StillReporting(w, Run(w, es))
  {
    if es != [] {
      var front, e := es[..|es| - 1], es[|es| - 1];
      assert es == front + [e];
      ReportingRun(w, front);
      ReportingStep(w, Run(w, front), e);
    }
  }

  predicate ReportedAt(w: World, es: seq<Event>, k: nat, report: Effect)
    requires k < |es|
  {
    Dones(Run(w, es[..k + 1]).trace) == Dones(w.trace) + [report]
  }

  lemma ChildPostsItsCount(w: World, errors: nat, between: seq<Event>)
    requires Inv(w) && w.child.Working? && ChildGoesOn(between)
    ensures var posted := AfterChild(w, errors, between);
            && Inv(posted) && posted.shm == Shared(true, errors)
            && CurrentJob(posted.ctl) == w.child.job && Dones(posted.trace) == Dones(w.trace)
  {
    var w1 := Step(w, ChildWrites(errors));
    ChildKeepsInvariant(w, ChildWrites(errors));
    ReportingRun(w1, between);
    ChildKeepsInvariant(Run(w1, between), ChildPosts);
  }

  lemma ReportIsDelivered(posted: World, es: seq<Event>, report: Effect)
    requires Inv(posted) && posted.shm.unread && Ticks(es) >= RESULT_QUERY_TICKS
    requires report == RunDone(posted.ctl.deviceType, posted.ctl.fwPath, posted.shm.errors != 0)
    ensures exists k: nat :: k < |es| && ReportedAt(posted, es, k, report)
  {
    ConsumedWithinFiveTicks(posted, es);
    var k: nat :| k < |es| && ConsumedAt(posted, es, k);
    assert ReportedAt(posted, es, k, report);
  }

  /** Every connected camera of the model that was copied with another version than the image's took the
      image and then first reported that version, with no unparseable reply before. */
  predicate AllUpgraded(plan: C.Plan, rounds: seq<C.Round>)
    requires C.PlanOk(plan) && C.RoundsOk(plan, rounds)
  {
    forall i :: 0 <= i < |plan.cams|
                && plan.cams[i].devId != 0 && plan.cams[i].online
                && plan.cams[i].model == plan.model && plan.cams[i].fwVersion != plan.version ==>
      && plan.pushErrors[i].None?
      && C.FirstVersion(C.AllReplies(i, rounds)) == Some(plan.version)
      && C.BadBeforeVersion(C.AllReplies(i, rounds)) == 0
  }

  /** What a child works on: its copy of the job, and the replies of the cameras. */
  ghost predicate PlanFor(job: Job, plan: C.Plan, rounds: seq<C.Round>, st: seq<C.Standing>)
    requires C.PlanOk(plan) && C.RoundsOk(plan, rounds)
  {
    && plan.cams == job.devices && plan.version == job.version && ModelName(job.deviceType) == Some(plan.model)
    && |st| == |plan.cams| && forall i :: 0 <= i < |st| ==> st[i] == C.Alone(plan, i, rounds)
  }

  /** Every child that stores its count and raises the flag, whatever happens in between, is reported
      within five ticks, with the launched type and path. The report says success exactly when the child
      could start and every connected camera of the model with another version took the image and first
      reported the image's version, with no unparseable reply before. */
  lemma {:induction false} SuccessMeansUpgraded(w: World, started: bool, plan: C.Plan, rounds: seq<C.Round>,
                                                st: seq<C.Standing>, between: seq<Event>, es: seq<Event>)
    requires Inv(w) && w.child.Working? && ChildGoesOn(between) && Ticks(es) >= RESULT_QUERY_TICKS
    requires C.PlanOk(plan) && C.RoundsOk(plan, rounds) && PlanFor(w.child.job, plan, rounds, st)
    ensures var posted := AfterChild(w, StoredCount(started, st), between);
            var report := RunDone(w.child.job.deviceType, w.child.job.path, !(started && AllUpgraded(plan, rounds)));
            && Dones(posted.trace) == Dones(w.trace)
            && exists k: nat :: k < |es| && ReportedAt(posted, es, k, report)
  {
    C.ErrorFreeMeansUpgraded(plan, rounds, st);
    assert StoredCount(started, st) == 0 <==> started && AllUpgraded(plan, rounds);
    ChildPostsItsCount(w, StoredCount(started, st), between);
    ReportIsDelivered(AfterChild(w, StoredCount(started, st), between), es,
                      RunDone(w.child.job.deviceType, w.child.job.path, !(started && AllUpgraded(plan, rounds))));
  }

  /** The child pushes to a camera with a known version if and only if the parent counted it as out of date,
      when the image has the announced version. */
  lemma SelectedIffOutOfDate(c: Camera, plan: C.Plan, versions: Versions, t: DeviceType)
    requires plan.version == versions[t] && ModelName(t) == Some(plan.model) && c.fwVersion != ""
    ensures C.Selected(c, plan) <==> OutOfDate(c, versions, t)
    ensures C.Selected(c, plan) <==> S.Stale(c, versions, t)
  {
    S.StaleIsOutOfDate(c, versions, t);
  }

  /** A camera without a version is pushed to although the parent does not count it. */
  lemma UnknownVersionIsSelected(c: Camera, plan: C.Plan, versions: Versions, t: DeviceType)
    requires plan.version == versions[t] && ModelName(t) == Some(plan.model) && c.fwVersion == ""
    ensures !OutOfDate(c, versions, t)
    ensures C.Selected(c, plan) <==> c.devId != 0 && c.online && c.model == plan.model && plan.version != ""
  {
    ModelTablesAgree(plan.model, t);
  }

  /** A run launched with the version announced for its type pushes to some camera. */
  lemma LaunchSelects(es: seq<Event>, e: Event, plan: C.Plan) returns (job: Job, i: nat)
    requires var w := Run(INITIAL, es); Launches(Step(w, e).trace) != Launches(w.trace)
    requires e.ImageArrived? && 0 <= e.deviceType < TYPE_COUNT && ModelName(e.deviceType) == Some(plan.model)
    requires e.version == plan.version == Run(INITIAL, es).ctl.versions[e.deviceType]
    requires plan.cams == Run(INITIAL, es).ctl.devices
    ensures Launches(Step(Run(INITIAL, es), e).trace) == Launches(Run(INITIAL, es).trace) + [job]
    ensures job.devices == plan.cams && job.version == plan.version && i < |plan.cams| && C.Selected(plan.cams[i], plan)
  {
    var w := Run(INITIAL, es);
    RunKeepsInvariant(es);
    OneChildAtATime(w, e);
    job := S.LaunchedJob(es, e);
    S.RunKnows(es);
    i := StaleCopy(job.devices, S.LastStart(es).value, job.deviceType);
    SelectedIffOutOfDate(plan.cams[i], plan, w.ctl.versions, job.deviceType);
  }

  lemma StaleCopy(devices: seq<Camera>, env: Env, t: DeviceType) returns (i: nat)
    requires env.reply.Some? && S.Copies(devices, env.cams) && S.AnyStale(env, t)
    ensures i < |devices| && S.Stale(devices[i], env.reply.value, t)
  {
    var c :| c in env.cams && S.Stale(c, env.reply.value, t);
    i :| 0 <= i < |env.cams| && env.cams[i] == c;
  }

  /** A fork that fails is reported as a failed run of the awaited type, with the image's path. */
  lemma {:induction false} ForkFailureIsReported(w: World, version: string, path: string, es: seq<Event>)
    requires Inv(w) && w.ctl.waitFlag && path != "" && Ticks(es) >= RESULT_QUERY_TICKS
    ensures var posted := HandleImage(w, w.ctl.deviceType, version, path, false);
            && Dones(posted.trace) == Dones(w.trace)
            && exists k: nat :: k < |es| && ReportedAt(posted, es, k, RunDone(w.ctl.deviceType, path, true))
  {
    var posted := HandleImage(w, w.ctl.deviceType, version, path, false);
    ImageKeepsInvariant(w, w.ctl.deviceType, version, path, false);
    ReportIsDelivered(posted, es, RunDone(w.ctl.deviceType, path, true));
  }
}
