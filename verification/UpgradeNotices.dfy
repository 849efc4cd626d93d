/** When a change that was noticed during a wait or a run is served. */
module UpgradeNotices {
  import opened Wrappers
  import opened Cameras
  import opened UpgradeSpec
  import opened UpgradeProofs

  /** The tick that finds a result, or the one at which waiting for an image expires. */
  predicate Ends(w: World, e: Event) {
    e.Tick? && (FindsResult(w) || Expires(w))
  }

  predicate FindsResult(w: World) {
    w.shm.unread && w.ctl.queryTimeout <= 1
  }

  predicate Expires(w: World) {
    w.ctl.waitFlag && w.ctl.waitTimeout == 1
  }

  /** An image of a known type that is not the awaited one, or comes without a path. */
  predicate RefusesWait(w: World, e: Event) {
    && e.ImageArrived? && w.ctl.waitFlag && 0 <= e.deviceType < TYPE_COUNT
    && (e.deviceType != w.ctl.deviceType || e.path == "")
  }

  /** What a start over says: the first type out of date is requested, or nothing is left to do. */
  function Answer(env: Env): Effect {
    if StartsAgain(env) then Requested(FirstNeeded(NeedCounts(CopyDevices(env.cams), env.reply.value), 0))
    else NothingToDo
  }

  /** Started over in this step: both notices are gone and the answer is the last effect. */
  predicate Served(w: World, e: Event, w': World)
    requires e.Tick?
  {
    && !Noticed(w'.ctl)
    && w'.trace == w.trace + if FindsResult(w)
                             then [RunDone(w.ctl.deviceType, w.ctl.fwPath, w.shm.errors != 0), Answer(e.atQuery)]
                             else [Answer(e.atExpiry)]
  }

  lemma RestartAnswers(w: World, env: Env)
    ensures Restart(w, env).trace == w.trace + [Answer(env)]
    ensures !Noticed(Restart(w, env).ctl)
  {}

  lemma QueryServes(w: World, env: Env)
    requires Inv(w) && FindsResult(w) && Noticed(w.ctl)
    ensures var w' := QueryResult(w, env);
            && !Noticed(w'.ctl)
            && w'.trace == w.trace
                           + [RunDone(w.ctl.deviceType, w.ctl.fwPath, w.shm.errors != 0), Answer(env)]
  {
    var w1 := w.(ctl := w.ctl.(queryTimeout := RESULT_QUERY_TICKS));
    RestartAnswers(Report(w1.(shm := w1.shm.(unread := false))), env);
  }

  /** Away from its expiry the wait timer says nothing. */
  lemma TimerLeaves(w: World, env: Env)
    requires w.ctl.waitFlag ==> w.ctl.waitTimeout > 1
    ensures RunWaitTimer(w, env).trace == w.trace && Noticed(RunWaitTimer(w, env).ctl) == Noticed(w.ctl)
  {}

  lemma ResultServes(w: World, e: Event)
    requires Inv(w) && e.Tick? && FindsResult(w) && Noticed(w.ctl)
    ensures Served(w, e, Step(w, e))
  {
    QueryKeepsInvariant(w, e.atQuery);
    QueryServes(w, e.atQuery);
    TimerLeaves(QueryResult(w, e.atQuery), e.atExpiry);
  }

  lemma ExpiryServes(w: World, e: Event)
    requires Inv(w) && e.Tick? && Expires(w) && Noticed(w.ctl)
    ensures Served(w, e, Step(w, e))
  {
    var w1 := QueryResult(w, e.atQuery);
    QueryKeepsInvariant(w, e.atQuery);
    RestartAnswers(w1.(ctl := w1.ctl.(phase := Idle, waitTimeout := 0)), e.atExpiry);
  }

  /** A pending notice outlives every step but the end of a wait or run, which serves it. */
  lemma NoticeStep(w: World, e: Event)
    requires Inv(w) && Noticed(w.ctl)
    ensures if Ends(w, e) then Served(w, e, Step(w, e)) else Noticed(Step(w, e).ctl)
  {
    if e.Tick? {
      if FindsResult(w) {
        ResultServes(w, e);
      } else if Expires(w) {
        ExpiryServes(w, e);
      }
    }
  }

  lemma RestartKeepsQuery(w: World, env: Env)
    ensures Restart(w, env).ctl.queryTimeout == w.ctl.queryTimeout
  {}

  lemma EndKeepsQuery(w: World, env: Env)
    ensures End(w, env).ctl.queryTimeout == w.ctl.queryTimeout
  {
    RestartKeepsQuery(if w.ctl.phase == WaitImage then GiveUpWaiting(w) else Report(w), env);
  }

  lemma TimerKeepsQuery(w: World, env: Env)
    ensures RunWaitTimer(w, env).ctl.queryTimeout == w.ctl.queryTimeout
  {
    EndKeepsQuery(w.(ctl := w.ctl.(waitTimeout := w.ctl.waitTimeout - 1)), env);
  }

  lemma TickMovesQuery(w: World, atQuery: Env, atExpiry: Env)
    ensures HandleTick(w, atQuery, atExpiry).ctl.queryTimeout
            == if w.ctl.queryTimeout > 1 then w.ctl.queryTimeout - 1 else 5
  {
    var w1 := w.(ctl := w.ctl.(queryTimeout := RESULT_QUERY_TICKS));
    EndKeepsQuery(w1.(shm := w1.shm.(unread := false)), atQuery);
    TimerKeepsQuery(QueryResult(w, atQuery), atExpiry);
  }

  lemma StepMovesQuery(w: World, e: Event)
    ensures Step(w, e).ctl.queryTimeout ==
            if !e.Tick? then w.ctl.queryTimeout
            else if w.ctl.queryTimeout > 1 then w.ctl.queryTimeout - 1
            else 5
  {
    if e.Tick? {
      TickMovesQuery(w, e.atQuery, e.atExpiry);
    }
  }

  /** The ticks left until the result is looked for again, after a number of ticks. */
  predicate Period(left: int, ticks: nat) {
    left == if ticks == 0 then 0 else 5 - (ticks - 1) % 5
  }

  lemma PeriodNext(left: int, ticks: nat)
    requires Period(left, ticks)
    ensures Period(if left > 1 then left - 1 else 5, ticks + 1)
  {}

  /** The result is looked for at every fifth tick of a run, beginning with the first. */
  lemma {:induction false} EveryFifthTick(es: seq<Event>)
    ensures Period(Run(INITIAL, es).ctl.queryTimeout, Ticks(es))
  {
    if es != [] {
      var front, e := es[..|es| - 1], es[|es| - 1];
      EveryFifthTick(front);
      FifthTickNext(front, e);
      assert es == front + [e];
    }
  }

  lemma FifthTickNext(es: seq<Event>, e: Event)
    requires Period(Run(INITIAL, es).ctl.queryTimeout, Ticks(es))
    ensures Period(Run(INITIAL, es + [e]).ctl.queryTimeout, Ticks(es + [e]))
  {
    StepMovesQuery(Run(INITIAL, es), e);
    RunNext(INITIAL, es, e);
    TicksNext(es, e);
    PeriodNext(Run(INITIAL, es).ctl.queryTimeout, Ticks(es));
  }

  predicate IdleNotice(w: World) {
    w.ctl.phase == Idle && Noticed(w.ctl)
  }

  /** A notice comes into the idle state exactly through an image that is refused during the wait; there
      no step ends anything. */
  lemma IdleNoticeStep(w: World, e: Event)
    requires Inv(w)
    ensures w.ctl.phase != Idle ==> (IdleNotice(Step(w, e)) <==> Noticed(w.ctl) && RefusesWait(w, e))
    ensures IdleNotice(Step(w, e)) ==> !Ends(w, e) && Noticed(w.ctl)
  {
    StepKeepsInvariant(w, e);
    if Noticed(w.ctl) {
      NoticeStep(w, e);
    }
  }

  /** No step from `from` on ends a wait or run. */
  ghost predicate Uninterrupted(w: World, es: seq<Event>, from: nat) {
    forall j :: from <= j < |es| ==> !Ends(Run(w, es[..j]), es[j])
  }

  /** A notice survives as long as nothing ends. */
  lemma {:induction false} NoticeSurvives(w: World, es: seq<Event>, from: nat)
    requires Inv(w) && from <= |es| && Noticed(Run(w, es[..from]).ctl) && Uninterrupted(w, es, from)
    ensures Noticed(Run(w, es).ctl)
  {
    if from < |es| {
      var front := es[..|es| - 1];
      assert front[..from] == es[..from];
      assert forall j :: from <= j < |front| ==> front[..j] == es[..j];
      NoticeSurvives(w, front, from);
      RunFromKeepsInvariant(w, front);
      NoticeStep(Run(w, front), es[|es| - 1]);
    } else {
      assert es[..from] == es;
    }
  }

  /** Over every run: a set notice is served by the next step that ends a wait or run, and by no earlier
      one. */
  lemma {:induction false} ServedAtNextEnd(w: World, es: seq<Event>)
    requires Inv(w) && Noticed(w.ctl) && es != []
    requires Uninterrupted(w, es[..|es| - 1], 0) && Ends(Run(w, es[..|es| - 1]), es[|es| - 1])
    ensures Noticed(Run(w, es[..|es| - 1]).ctl)
    ensures Served(Run(w, es[..|es| - 1]), es[|es| - 1], Run(w, es))
  {
    var front := es[..|es| - 1];
    assert front[..0] == [];
    NoticeSurvives(w, front, 0);
    RunFromKeepsInvariant(w, front);
    NoticeStep(Run(w, front), es[|es| - 1]);
  }

  /** Step `k` refuses an image with a notice pending, and nothing ended since. */
  ghost predicate LeftBy(w0: World, es: seq<Event>, k: nat)
    requires k < |es|
  {
    var w := Run(w0, es[..k]);
    Noticed(w.ctl) && RefusesWait(w, es[k]) && Uninterrupted(w0, es, k + 1)
  }

  lemma IdleNoticeBefore(w0: World, es: seq<Event>, e: Event)
    requires Inv(w0) && IdleNotice(Run(w0, es + [e]))
    ensures var w := Run(w0, es);
            !Ends(w, e) && (IdleNotice(w) || (Noticed(w.ctl) && RefusesWait(w, e)))
  {
    RunFromKeepsInvariant(w0, es);
    RunNext(w0, es, e);
    IdleNoticeStep(Run(w0, es), e);
  }

  lemma LeftLonger(w0: World, es: seq<Event>, e: Event, k: nat)
    requires k < |es| && LeftBy(w0, es, k) && !Ends(Run(w0, es), e)
    ensures LeftBy(w0, es + [e], k)
  {
    var all := es + [e];
    assert all[..k] == es[..k];
    forall j | k + 1 <= j < |all| ensures !Ends(Run(w0, all[..j]), all[j]) {
      if j < |es| {
        assert all[..j] == es[..j];
      } else {
        assert all[..j] == es;
      }
    }
  }

  lemma LeftNow(w0: World, es: seq<Event>)
    requires es != []
    requires var w := Run(w0, es[..|es| - 1]); Noticed(w.ctl) && RefusesWait(w, es[|es| - 1])
    ensures LeftBy(w0, es, |es| - 1)
  {}

  lemma {:induction false} IdleNoticeWasLeft(w0: World, es: seq<Event>) returns (k: nat)
    requires Inv(w0) && !Noticed(w0.ctl) && IdleNotice(Run(w0, es))
    ensures k < |es| && LeftBy(w0, es, k)
  {
    var front, e := es[..|es| - 1], es[|es| - 1];
    assert es == front + [e];
    IdleNoticeBefore(w0, front, e);
    if IdleNotice(Run(w0, front)) {
      k := IdleNoticeWasLeft(w0, front);
      LeftLonger(w0, front, e, k);
    } else {
      k := |front|;
      LeftNow(w0, es);
    }
  }

  lemma RefusalLeaves(w: World, e: Event)
    requires Inv(w) && Noticed(w.ctl) && RefusesWait(w, e)
    ensures Noticed(Step(w, e).ctl)
  {
    NoticeStep(w, e);
  }

  lemma NoticeStaysNext(w0: World, es: seq<Event>, e: Event)
    requires Inv(w0) && Noticed(Run(w0, es).ctl) && RefusesWait(Run(w0, es), e)
    ensures Noticed(Run(w0, es + [e]).ctl)
  {
    RunFromKeepsInvariant(w0, es);
    RefusalLeaves(Run(w0, es), e);
    RunNext(w0, es, e);
  }

  lemma RefusedNoticeStays(w0: World, es: seq<Event>, k: nat)
    requires Inv(w0) && k < |es| && LeftBy(w0, es, k)
    ensures Noticed(Run(w0, es[..k + 1]).ctl)
  {
    NoticeStaysNext(w0, es[..k], es[k]);
    assert es[..k] + [es[k]] == es[..k + 1];
  }

  lemma LeftNoticeSurvives(w0: World, es: seq<Event>, k: nat)
    requires Inv(w0) && k < |es| && LeftBy(w0, es, k)
    ensures Noticed(Run(w0, es).ctl)
  {
    RefusedNoticeStays(w0, es, k);
    NoticeSurvives(w0, es, k + 1);
  }

  /** A run from a state without notices, as the initial one, ends idle with a notice pending if and only if
      it ends idle and an image was refused during a wait with a notice pending, and nothing ended since. A
      start in between does not clear it. */
  lemma {:induction false} IdleNoticeIff(w0: World, es: seq<Event>)
    requires Inv(w0) && !Noticed(w0.ctl)
    ensures IdleNotice(Run(w0, es)) <==>
            Run(w0, es).ctl.phase == Idle && exists k: nat :: k < |es| && LeftBy(w0, es, k)
  {
    if IdleNotice(Run(w0, es)) {
      var k := IdleNoticeWasLeft(w0, es);
    }
    if k: nat :| k < |es| && LeftBy(w0, es, k) {
      LeftNoticeSurvives(w0, es, k);
    }
  }
}
