/**
 The firmware upgrade protocol as atomic steps over the daemon's state, the shared record, the
 forked child and the trace of everything the daemon did towards the outside.
 */
module UpgradeSpec {
  import opened Wrappers
  import opened Cameras

  const WAIT_IMAGE_TICKS := 600
  const RESULT_QUERY_TICKS := 5
  const FORK_FAILED := 0xff

  datatype Phase = Idle | WaitImage | Running

  /** The control block, `g_ipcam_upgrade`. */
  datatype Control = Control(
    phase: Phase,
    upgradeNoticed: bool,
    listNoticed: bool,
    waitFlag: bool,
    waitTimeout: int,
    queryTimeout: int,
    deviceType: DeviceType,
    needCount: Counts,
    versions: Versions,
    devices: seq<Camera>,
    fwVersion: string,
    fwPath: string)

  /** The record the parent and its child share. */
  datatype Shared = Shared(unread: bool, errors: nat)

  /** What a child upgrades: its private copy of the parent's fields at the fork. */
  datatype Job = Job(deviceType: DeviceType, path: string, version: string, devices: seq<Camera>)

  /** A child is gone once its last write to the shared record is done; a lost child died before that. */
  datatype Child = NoChild | Working(job: Job) | Reporting(job: Job, errors: nat) | Lost(job: Job)

  datatype Effect =
    | Requested(deviceType: DeviceType)
    | Launched(job: Job)
    | Posted(errors: nat)
    | RunDone(doneType: DeviceType, donePath: string, failed: bool)
    | Refused(refusedType: int, refusedPath: string)
    | NothingToDo
    | RemovedFile(removedPath: string)

  datatype World = World(ctl: Control, shm: Shared, child: Child, trace: seq<Effect>)

  /** What a start sees: the version query (after its one retry) and the camera table. */
  datatype Env = Env(reply: Option<Versions>, cams: seq<Camera>)

  datatype Event =
    | Tick(atQuery: Env, atExpiry: Env)
    | ListChanged(env: Env)
    | VersionChanged(news: Option<Versions>, env: Env)
    | ImageArrived(deviceType: int, version: string, path: string, forked: bool)
    | ChildWrites(errors: nat)
    | ChildPosts
    | ChildDies

  const INITIAL := World(
    Control(Idle, false, false, false, 0, 0, 0, NO_COUNTS, NO_VERSIONS, [], "", ""),
    Shared(false, 0), NoChild, [])

  function SetWaitTimer(c: Control, enable: bool): Control {
    if enable then c.(waitFlag := true, waitTimeout := WAIT_IMAGE_TICKS)
    else c.(waitFlag := false, waitTimeout := 0)
  }

  function CopyDevices(cams: seq<Camera>): seq<Camera> {
    seq(|cams|, i requires 0 <= i < |cams| => CopyDevice(cams[i]))
  }

  /** Refresh the device copies and the counts from the camera table. */
  function Update(c: Control, cams: seq<Camera>): Control {
    var devices := CopyDevices(cams);
    c.(devices := devices, needCount := NeedCounts(devices, c.versions))
  }

  function Start(w: World, env: Env): World {
    match env.reply
    case None => w
    case Some(versions) =>
      var c := Update(w.ctl.(versions := versions), env.cams);
      var t := FirstNeeded(c.needCount, 0);
      if t == TYPE_COUNT then w.(ctl := c.(phase := Idle))
      else
        var c' := c.(phase := WaitImage, deviceType := t);
        w.(ctl := if c'.waitFlag then c' else SetWaitTimer(c', true), trace := w.trace + [Requested(t)])
  }

  /** The report at the end of a run, with the branch that deletes the image file. */
  function Report(w: World): World {
    var removed := if w.ctl.needCount[w.ctl.deviceType] == 0 then [RemovedFile(w.ctl.fwPath)] else [];
    World(w.ctl.(phase := Idle), w.shm.(unread := false), w.child,
          w.trace + removed + [RunDone(w.ctl.deviceType, w.ctl.fwPath, w.shm.errors != 0)])
  }

  function GiveUpWaiting(w: World): World {
    if w.ctl.waitFlag && w.ctl.waitTimeout != 0 then w else w.(ctl := w.ctl.(phase := Idle))
  }

  /** Say so when nothing is left to do, and forget the notices. */
  function Settle(w: World): World {
    var w' := if w.ctl.phase == Idle then w.(trace := w.trace + [NothingToDo]) else w;
    w'.(ctl := w'.ctl.(upgradeNoticed := false, listNoticed := false))
  }

  /** Serve pending notices by starting over. */
  function Restart(w: World, env: Env): World {
    Settle(Start(w.(ctl := w.ctl.(phase := Idle)), env))
  }

  predicate Noticed(c: Control) {
    c.upgradeNoticed || c.listNoticed
  }

  function End(w: World, env: Env): World {
    if w.ctl.phase == Idle then w
    else
      var w1 := if w.ctl.phase == WaitImage then GiveUpWaiting(w) else Report(w);
      if Noticed(w1.ctl) then Restart(w1, env) else w1
  }

  function QueryResult(w: World, env: Env): World {
    var q := w.ctl.queryTimeout - 1;
    if q > 0 then w.(ctl := w.ctl.(queryTimeout := q))
    else
      var w1 := w.(ctl := w.ctl.(queryTimeout := RESULT_QUERY_TICKS));
      if w1.shm.unread then End(w1.(shm := w1.shm.(unread := false)), env) else w1
  }

  function RunWaitTimer(w: World, env: Env): World {
    if !w.ctl.waitFlag then w
    else
      var w1 := w.(ctl := w.ctl.(waitTimeout := w.ctl.waitTimeout - 1));
      if w1.ctl.waitTimeout > 0 then w1
      else
        var w2 := End(w1, env);
        w2.(ctl := SetWaitTimer(w2.ctl, false))
  }

  function HandleTick(w: World, atQuery: Env, atExpiry: Env): World {
    RunWaitTimer(QueryResult(w, atQuery), atExpiry)
  }

  function HandleListChanged(w: World, env: Env): World {
    if w.ctl.phase == Idle then Start(w, env) else w.(ctl := w.ctl.(listNoticed := true))
  }

  function HandleVersionChanged(w: World, news: Option<Versions>, env: Env): World {
    if news.None? || news.value == w.ctl.versions then w
    else if w.ctl.phase == Idle then Start(w, env)
    else w.(ctl := w.ctl.(upgradeNoticed := true))
  }

  function CurrentJob(c: Control): Job {
    Job(c.deviceType, c.fwPath, c.fwVersion, c.devices)
  }

  function Fork(w: World, forked: bool): World {
    var job := CurrentJob(w.ctl);
    if forked then w.(shm := Shared(false, 0), child := Working(job), trace := w.trace + [Launched(job)])
    else w.(shm := Shared(true, FORK_FAILED), trace := w.trace + [Launched(job), Posted(FORK_FAILED)])
  }

  function HandleImage(w: World, deviceType: int, version: string, path: string, forked: bool): World {
    if !w.ctl.waitFlag then w
    else if !(0 <= deviceType < TYPE_COUNT) then w.(trace := w.trace + [Refused(deviceType, path)])
    else if w.ctl.phase != WaitImage then
      w.(ctl := w.ctl.(phase := Idle), trace := w.trace + [Refused(deviceType, path)])
    else
      var c := SetWaitTimer(w.ctl, false);
      if c.deviceType != deviceType || path == "" then
        w.(ctl := c.(phase := Idle), trace := w.trace + [Refused(deviceType, path)])
      else
        Fork(w.(ctl := c.(fwVersion := version, fwPath := path, phase := Running)), forked)
  }

  /** The child's steps; they touch the shared record and nothing of the parent. */
  function StepChild(w: World, e: Event): World
    requires e.ChildWrites? || e.ChildPosts? || e.ChildDies?
  {
    match e
    case ChildWrites(errors) =>
      if w.child.Working? then w.(shm := w.shm.(errors := errors), child := Reporting(w.child.job, errors)) else w
    case ChildPosts =>
      if w.child.Reporting?
      then w.(shm := w.shm.(unread := true), child := NoChild, trace := w.trace + [Posted(w.child.errors)])
      else w
    case ChildDies =>
      if w.child.Working? || w.child.Reporting? then w.(child := Lost(w.child.job)) else w
  }

  function Step(w: World, e: Event): World {
    match e
    case Tick(atQuery, atExpiry) => HandleTick(w, atQuery, atExpiry)
    case ListChanged(env) => HandleListChanged(w, env)
    case VersionChanged(news, env) => HandleVersionChanged(w, news, env)
    case ImageArrived(t, version, path, forked) => HandleImage(w, t, version, path, forked)
    case _ => StepChild(w, e)
  }

  function Run(w: World, es: seq<Event>): World {
    if es == [] then w else Step(Run(w, es[..|es| - 1]), es[|es| - 1])
  }
}
