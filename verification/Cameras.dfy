/** The camera table as the firmware upgrade reads it, and the test that says a camera is out of date. */
module Cameras {
  import opened Wrappers

  /** Number of camera models the daemon can upgrade; also the "unsupported model" code. */
  const TYPE_COUNT := 7

  type DeviceType = t: nat | t < TYPE_COUNT witness 0

  type Versions = v: seq<string> | |v| == TYPE_COUNT witness ["", "", "", "", "", "", ""]

  type Counts = c: seq<nat> | |c| == TYPE_COUNT witness [0, 0, 0, 0, 0, 0, 0]

  const NO_VERSIONS: Versions := ["", "", "", "", "", "", ""]
  const NO_COUNTS: Counts := [0, 0, 0, 0, 0, 0, 0]

  datatype Camera = Camera(devId: nat, online: bool, fwVersion: string, model: string)

  const BLANK := Camera(0, false, "", "")

  function ModelName(t: int): Option<string> {
    if t == 0 then Some("K10")
    else if t == 1 then Some("IP8130W")
    else if t == 2 then Some("IP8131W")
    else if t == 3 then Some("IB8168")
    else if t == 4 then Some("FD8168")
    else if t == 5 then Some("IP8137-W")
    else if t == 6 then Some("WD8137-W")
    else None
  }

  function TypeOfModel(model: string): nat {
    if model == "K10" then 0
    else if model == "IP8130W" then 1
    else if model == "IP8131W" then 2
    else if model == "IB8168" then 3
    else if model == "FD8168" then 4
    else if model == "IP8137-W" then 5
    else if model == "WD8137-W" then 6
    else TYPE_COUNT
  }

  /** The two conversion tables are inverse to each other. */
  lemma ModelTablesAgree(model: string, t: int)
    ensures ModelName(t) == Some(model) <==> 0 <= t < TYPE_COUNT && TypeOfModel(model) == t
  {
    // The models differ in length or in one of these characters.
    assert "K10"[0] != "IP8130W"[0];
    assert "IP8130W"[5] != "IP8131W"[5];
    assert "IB8168"[0] != "FD8168"[0];
    assert "IP8137-W"[0] != "WD8137-W"[0];
    assert |"K10"| == 3 && |"IP8130W"| == |"IP8131W"| == 7;
    assert |"IB8168"| == |"FD8168"| == 6 && |"IP8137-W"| == |"WD8137-W"| == 8;
  }

  /** The local copy of a camera record; unused records are left zeroed. */
  function CopyDevice(c: Camera): Camera {
    if c.devId == 0 then BLANK else c
  }

  /** An online camera of type `t` whose firmware differs from the target of that type. */
  predicate OutOfDate(c: Camera, versions: Versions, t: DeviceType) {
    && c.devId != 0 && c.online
    && c.fwVersion != "" && c.model != ""
    && TypeOfModel(c.model) == t
    && versions[t] != c.fwVersion
  }

  function NeedCount(cams: seq<Camera>, versions: Versions, t: DeviceType): nat {
    if cams == [] then 0
    else NeedCount(cams[..|cams| - 1], versions, t)
         + if OutOfDate(cams[|cams| - 1], versions, t) then 1 else 0
  }

  /** A type is counted exactly when some camera in the table is out of date. */
  lemma {:induction false} NeedCountPositive(cams: seq<Camera>, versions: Versions, t: DeviceType)
    ensures NeedCount(cams, versions, t) > 0 <==> exists c :: c in cams && OutOfDate(c, versions, t)
  {
    if cams != [] {
      var front, last := cams[..|cams| - 1], cams[|cams| - 1];
      NeedCountPositive(front, versions, t);
      assert cams == front + [last];
      assert forall c :: c in cams <==> c in front || c == last;
    }
  }

  function NeedCounts(cams: seq<Camera>, versions: Versions): Counts {
    seq(TYPE_COUNT, t requires 0 <= t < TYPE_COUNT => NeedCount(cams, versions, t))
  }

  /** Index of the first nonzero count, or `TYPE_COUNT` when there is none. */
  function FirstNeeded(need: Counts, from: nat): (t: nat)
    requires from <= TYPE_COUNT
    ensures from <= t <= TYPE_COUNT
    ensures t < TYPE_COUNT ==> need[t] > 0
    ensures forall i :: from <= i < t ==> need[i] == 0
    decreases TYPE_COUNT - from
  {
    if from == TYPE_COUNT || need[from] > 0 then from else FirstNeeded(need, from + 1)
  }
}
