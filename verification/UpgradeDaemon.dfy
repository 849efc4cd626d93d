/** The upgrade daemon in its own form: global fields that the event handlers update in place. */
module UpgradeDaemon {
  import opened Wrappers
  import opened Cameras
  import opened UpgradeSpec

  class Daemon {
    var phase: Phase
    var upgradeNoticed: bool
    var listNoticed: bool
    var waitFlag: bool
    var waitTimeout: int
    var queryTimeout: int
    var deviceType: DeviceType
    const needCount: array<nat>
    var versions: Versions
    var devices: seq<Camera>
    var fwVersion: string
    var fwPath: string
    // the record shared with the child
    var resultUnread: bool
    var errorCount: nat
    // the operating system's side: the forked child, and everything done towards the outside
    var child: Child
    var trace: seq<Effect>

    ghost predicate Valid()
      reads this
    {
      needCount.Length == TYPE_COUNT
    }

    ghost function Ctl(): Control
      reads this, needCount
      requires Valid()
    {
      Control(phase, upgradeNoticed, listNoticed, waitFlag, waitTimeout, queryTimeout, deviceType,
              needCount[..], versions, devices, fwVersion, fwPath)
    }

    ghost function Snapshot(): World
      reads this, needCount
      requires Valid()
    {
      World(Ctl(), Shared(resultUnread, errorCount), child, trace)
    }

    constructor ()
      ensures Valid() && fresh(needCount) && Snapshot() == INITIAL
    {
      phase, upgradeNoticed, listNoticed, waitFlag := Idle, false, false, false;
      waitTimeout, queryTimeout, deviceType := 0, 0, 0;
      needCount := new nat[TYPE_COUNT](_ => 0);
      versions, devices, fwVersion, fwPath := NO_VERSIONS, [], "", "";
      resultUnread, errorCount, child, trace := false, 0, NoChild, [];
      new;
      assert needCount[..] == INITIAL.ctl.needCount;
    }

    method SetTimerWaitImage(enable: bool)
      requires Valid()
      modifies this
      ensures Valid() && Snapshot() == old(Snapshot()).(ctl := SetWaitTimer(old(Ctl()), enable))
    {
      if enable {
        waitFlag, waitTimeout := true, WAIT_IMAGE_TICKS;
      } else {
        waitFlag, waitTimeout := false, 0;
      }
    }

    /** Copy the camera table, then count the out-of-date cameras of each type. */
    method CbUpdate(cams: seq<Camera>)
      requires Valid()
      modifies this, needCount
      ensures Valid() && Snapshot() == old(Snapshot()).(ctl := Update(old(Ctl()), cams))
    {
      ghost var w := Snapshot();
      devices := [];
      for i := 0 to |cams|
        modifies this
        invariant Valid() && devices == CopyDevices(cams[..i])
        invariant Snapshot() == w.(ctl := w.ctl.(devices := devices))
      {
        devices := devices + [CopyDevice(cams[i])];
        assert cams[..i + 1] == cams[..i] + [cams[i]];
      }
      assert cams[..|cams|] == cams;
      CountNeeds();
    }

    method CountNeeds()
      requires Valid()
      modifies needCount
      ensures needCount[..] == NeedCounts(devices, versions)
    {
      for t := 0 to TYPE_COUNT
        invariant forall k :: 0 <= k < t ==> needCount[k] == 0
      {
        needCount[t] := 0;
      }
      for i := 0 to |devices|
        invariant forall k: nat :: k < TYPE_COUNT ==> needCount[k] == NeedCount(devices[..i], versions, k)
      {
        var ipcam := devices[i];
        assert devices[..i + 1][..i] == devices[..i];
        if ipcam.devId == 0 || !ipcam.online || ipcam.fwVersion == "" || ipcam.model == "" {
          continue;
        }
        var t := TypeOfModel(ipcam.model);
        if t != TYPE_COUNT && versions[t] != ipcam.fwVersion {
          needCount[t] := needCount[t] + 1;
        }
      }
      assert devices[..|devices|] == devices;
    }

    /** The first type with a camera to upgrade, or `TYPE_COUNT`. */
    method FirstNeededType() returns (i: nat)
      requires Valid()
      ensures i == FirstNeeded(needCount[..], 0)
    {
      i := 0;
      while i < TYPE_COUNT && needCount[i] == 0
        invariant i <= TYPE_COUNT
        invariant FirstNeeded(needCount[..], 0) == FirstNeeded(needCount[..], i)
      {
        i := i + 1;
      }
    }

    /** Store the reported versions and recount. */
    method RefreshVersions(reply: Versions, cams: seq<Camera>)
      requires Valid()
      modifies this, needCount
      ensures Valid() && Snapshot() == old(Snapshot()).(ctl := Update(old(Ctl()).(versions := reply), cams))
    {
      versions := reply;
      CbUpdate(cams);
    }

    method RequestImage(t: DeviceType)
      requires Valid()
      modifies this
      ensures Valid()
      ensures var c := old(Ctl()).(phase := WaitImage, deviceType := t);
              Snapshot() == old(Snapshot()).(ctl := if c.waitFlag then c else SetWaitTimer(c, true),
                                             trace := old(trace) + [Requested(t)])
    {
      phase, deviceType := WaitImage, t;
      trace := trace + [Requested(t)];
      if !waitFlag {
        SetTimerWaitImage(true);
      }
    }

    method UpgradeStart(env: Env)
      requires Valid()
      modifies this, needCount
      ensures Valid() && Snapshot() == Start(old(Snapshot()), env)
    {
      if env.reply.None? {
        return;
      }
      RefreshVersions(env.reply.value, env.cams);
      ghost var c := Ctl();
      assert c == Update(old(Ctl()).(versions := env.reply.value), env.cams);
      var i := FirstNeededType();
      assert i == FirstNeeded(c.needCount, 0);
      if i == TYPE_COUNT {
        phase := Idle;
      } else {
        RequestImage(i);
      }
    }

    method ReportRun()
      requires Valid()
      modifies this
      ensures Valid() && Snapshot() == Report(old(Snapshot()))
    {
      if needCount[deviceType] == 0 {
        trace := trace + [RemovedFile(fwPath)];
      }
      resultUnread := false;
      trace := trace + [RunDone(deviceType, fwPath, errorCount != 0)];
      phase := Idle;
      assert trace == Report(old(Snapshot())).trace;
    }

    method ServeNotices(env: Env)
      requires Valid()
      modifies this, needCount
      ensures Valid() && Snapshot() == Restart(old(Snapshot()), env)
    {
      phase := Idle;
      UpgradeStart(env);
      SettleNotices();
    }

    method SettleNotices()
      requires Valid()
      modifies this
      ensures Valid() && Snapshot() == Settle(old(Snapshot()))
    {
      if phase == Idle {
        trace := trace + [NothingToDo];
      }
      upgradeNoticed, listNoticed := false, false;
    }

    method UpgradeEnd(env: Env)
      requires Valid()
      modifies this, needCount
      ensures Valid() && Snapshot() == End(old(Snapshot()), env)
    {
      match phase {
        case Idle =>
          return;
        case WaitImage =>
          if !waitFlag || waitTimeout == 0 {
            phase := Idle;
          }
        case Running =>
          ReportRun();
      }
      if upgradeNoticed || listNoticed {
        ServeNotices(env);
      }
    }

    /** The result query, every fifth tick. */
    method PollResult(env: Env)
      requires Valid()
      modifies this, needCount
      ensures Valid() && Snapshot() == QueryResult(old(Snapshot()), env)
    {
      queryTimeout := queryTimeout - 1;
      if queryTimeout <= 0 {
        queryTimeout := RESULT_QUERY_TICKS;
        if resultUnread {
          resultUnread := false;
          UpgradeEnd(env);
        }
      }
    }

    method CountDownWait(env: Env)
      requires Valid()
      modifies this, needCount
      ensures Valid() && Snapshot() == RunWaitTimer(old(Snapshot()), env)
    {
      if waitFlag {
        waitTimeout := waitTimeout - 1;
        if waitTimeout <= 0 {
          UpgradeEnd(env);
          SetTimerWaitImage(false);
        }
      }
    }

    method HandleTimeoutEvent(atQuery: Env, atExpiry: Env)
      requires Valid()
      modifies this, needCount
      ensures Valid() && Snapshot() == Step(old(Snapshot()), Tick(atQuery, atExpiry))
    {
      PollResult(atQuery);
      CountDownWait(atExpiry);
    }

    method CameraListChanged(env: Env)
      requires Valid()
      modifies this, needCount
      ensures Valid() && Snapshot() == Step(old(Snapshot()), ListChanged(env))
    {
      if phase == Idle {
        UpgradeStart(env);
      } else {
        listNoticed := true;
      }
    }

    method HandleVersionChangeEvent(news: Option<Versions>, env: Env)
      requires Valid()
      modifies this, needCount
      ensures Valid() && Snapshot() == Step(old(Snapshot()), VersionChanged(news, env))
    {
      if news.None? || versions == news.value {
        return;
      }
      if phase == Idle {
        UpgradeStart(env);
      } else {
        upgradeNoticed := true;
      }
    }

    method ForkToUpgrade(forked: bool)
      requires Valid()
      modifies this
      ensures Valid() && Snapshot() == Fork(old(Snapshot()), forked)
    {
      resultUnread, errorCount := false, 0;
      var job := Job(deviceType, fwPath, fwVersion, devices);
      trace := trace + [Launched(job)];
      if forked {
        child := Working(job);
      } else {
        errorCount, resultUnread := FORK_FAILED, true;
        trace := trace + [Posted(FORK_FAILED)];
      }
    }

    method HandleFirmwareUpgradeEvent(noticeType: int, version: string, path: string, forked: bool)
      requires Valid()
      modifies this
      ensures Valid() && Snapshot() == Step(old(Snapshot()), ImageArrived(noticeType, version, path, forked))
    {
      if !waitFlag {
        return;
      }
      if !(0 <= noticeType < TYPE_COUNT) {
        trace := trace + [Refused(noticeType, path)];
        return;
      }
      if phase != WaitImage {
        phase := Idle;
        trace := trace + [Refused(noticeType, path)];
        return;
      }
      SetTimerWaitImage(false);
      if deviceType != noticeType || path == "" {
        phase := Idle;
        trace := trace + [Refused(noticeType, path)];
        return;
      }
      AcceptImage(version, path, forked);
    }

    method AcceptImage(version: string, path: string, forked: bool)
      requires Valid()
      modifies this
      ensures Valid()
      ensures var w := old(Snapshot());
              Snapshot() == Fork(w.(ctl := w.ctl.(fwVersion := version, fwPath := path, phase := Running)), forked)
    {
      fwVersion, fwPath := version, path;
      phase := Running;
      ForkToUpgrade(forked);
    }

    /** The child's last two writes, one per call. */
    method ChildStores(errors: nat)
      requires Valid() && child.Working?
      modifies this
      ensures Valid() && Snapshot() == Step(old(Snapshot()), ChildWrites(errors))
    {
      errorCount := errors;
      child := Reporting(child.job, errors);
    }

    method ChildSignals()
      requires Valid() && child.Reporting?
      modifies this
      ensures Valid() && Snapshot() == Step(old(Snapshot()), ChildPosts)
    {
      trace := trace + [Posted(child.errors)];
      resultUnread := true;
      child := NoChild;
    }
  }
}
