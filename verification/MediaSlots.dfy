/**
 The media URL slots behind the cameras: eight strings and a counter, against a multiset of URLs; and
 what adding, swapping and deleting cameras makes of them.
 */
module MediaSlots {
  import opened Wrappers
  import opened Numbers

  const SLOT_COUNT := 8
  const URL_LIMIT := 255
  /** What the URL field of a camera record takes. */
  const FIELD_LIMIT := 127

  /** A free slot holds the empty string. */
  datatype Table = Table(slots: seq<string>, count: int)

  function Fresh(): Table {
    Table(["", "", "", "", "", "", "", ""], 0)
  }

  function Cut(url: string): string {
    if |url| <= URL_LIMIT then url else url[..URL_LIMIT]
  }

  function FirstIndex(slots: seq<string>, url: string): (i: nat)
    ensures i <= |slots|
    ensures forall k :: 0 <= k < i ==> slots[k] != url
    ensures i < |slots| ==> slots[i] == url
  {
    if slots == [] || slots[0] == url then 0 else FirstIndex(slots[1..], url) + 1
  }

  /** The new table and the slot's id, which counts from one. */
  function Add(t: Table, url: string): (Table, Option<nat>) {
    var i := FirstIndex(t.slots, "");
    if t.count >= SLOT_COUNT || i == |t.slots| then (t, None)
    else (Table(t.slots[i := Cut(url)], t.count + 1), Some(i + 1))
  }

  function Del(t: Table, url: string): (Table, bool) {
    var i := FirstIndex(t.slots, url);
    if t.count <= 0 || i == |t.slots| then (t, false)
    else (Table(t.slots[i := ""], t.count - 1), true)
  }

  // ----- sums of multisets

  lemma Cancel<T>(a: multiset<T>, b: multiset<T>, x: multiset<T>)
    requires a + x == b + x
    ensures a == b
  {
    forall e ensures a[e] == b[e] {
      assert (a + x)[e] == (b + x)[e];
    }
  }

  lemma Exchanged<T>(a: multiset<T>, x: multiset<T>, y: multiset<T>)
    ensures a + x + y == a + y + x
  {}

  lemma Nothing<T>(a: multiset<T>)
    ensures a + multiset{} == a
  {}

  /** Replacing `o` by `u` in one part of a sum does so in the whole. */
  lemma Replaced<T>(a: multiset<T>, b: multiset<T>, rest: multiset<T>, o: multiset<T>, u: multiset<T>)
    requires a + o == b + u
    ensures a + rest + o == b + rest + u
  {
    assert a + rest + o == (a + o) + rest;
    assert b + rest + u == (b + u) + rest;
  }

  // ----- the multiset of stored URLs

  ghost function One(url: string): multiset<string> {
    if url == "" then multiset{} else multiset{url}
  }

  ghost function Stored(slots: seq<string>): multiset<string> {
    if slots == [] then multiset{} else Stored(slots[..|slots| - 1]) + One(slots[|slots| - 1])
  }

  ghost predicate Valid(t: Table) {
    |t.slots| == SLOT_COUNT && t.count == |Stored(t.slots)|
  }

  lemma StoredNext(slots: seq<string>, url: string)
    ensures Stored(slots + [url]) == Stored(slots) + One(url)
  {
    assert (slots + [url])[..|slots|] == slots;
  }

  /** A difference between two lists of slots stays when both get another slot. */
  lemma DifferenceStays(a: seq<string>, b: seq<string>, last: string, o: multiset<string>, u: multiset<string>)
    requires Stored(a) + o == Stored(b) + u
    ensures Stored(a + [last]) + o == Stored(b + [last]) + u
  {
    StoredNext(a, last);
    StoredNext(b, last);
    Replaced(Stored(a), Stored(b), One(last), o, u);
  }

  lemma UpdateOfSum<T>(front: seq<T>, last: T, i: nat, x: T)
    requires i < |front|
    ensures (front + [last])[i := x] == front[i := x] + [last]
  {}

  lemma UpdatedLast(front: seq<string>, last: string, url: string)
    ensures Stored(front + [url]) + One(last) == Stored(front + [last]) + One(url)
  {
    StoredNext(front, last);
    StoredNext(front, url);
    Exchanged(Stored(front), One(last), One(url));
  }

  lemma {:induction false} StoredAfterUpdate(slots: seq<string>, i: nat, url: string)
    requires i < |slots|
    ensures Stored(slots[i := url]) + One(slots[i]) == Stored(slots) + One(url)
  {
    var n := |slots| - 1;
    var front := slots[..n];
    assert slots == front + [slots[n]];
    if i < n {
      StoredAfterUpdate(front, i, url);
      DifferenceStays(front[i := url], front, slots[n], One(slots[i]), One(url));
      UpdateOfSum(front, slots[n], i, url);
    } else {
      UpdatedLast(front, slots[n], url);
      assert slots[i := url] == front + [url];
    }
  }

  lemma {:induction false} StoredSize(slots: seq<string>)
    ensures |Stored(slots)| <= |slots|
    ensures |Stored(slots)| == |slots| <==> forall k :: 0 <= k < |slots| ==> slots[k] != ""
  {
    if slots != [] {
      var front, last := slots[..|slots| - 1], slots[|slots| - 1];
      StoredSize(front);
      assert |Stored(front) + One(last)| == |Stored(front)| + |One(last)|;
    }
  }

  lemma {:induction false} StoredHas(slots: seq<string>, url: string)
    requires url != ""
    ensures url in Stored(slots) <==> url in slots
  {
    if slots != [] {
      StoredHas(slots[..|slots| - 1], url);
      assert slots == slots[..|slots| - 1] + [slots[|slots| - 1]];
    }
  }

  lemma FreshIsValid()
    ensures Valid(Fresh()) && Stored(Fresh().slots) == multiset{}
  {
    AllFree(Fresh().slots);
  }

  lemma {:induction false} AllFree(slots: seq<string>)
    requires forall k :: 0 <= k < |slots| ==> slots[k] == ""
    ensures Stored(slots) == multiset{}
  {
    if slots != [] {
      AllFree(slots[..|slots| - 1]);
    }
  }

  lemma FreeSlotTaken(slots: seq<string>, i: nat, url: string)
    requires i < |slots| && slots[i] == "" && url != ""
    ensures Stored(slots[i := url]) == Stored(slots) + multiset{url}
    ensures |Stored(slots[i := url])| == |Stored(slots)| + 1
  {
    StoredAfterUpdate(slots, i, url);
    Nothing(Stored(slots[i := url]));
  }

  /** A nonempty URL is refused exactly when all eight slots are taken; otherwise it goes into a slot that
      was free, under an id in 1..8, and nothing else changes. */
  lemma AddStores(t: Table, url: string)
    requires Valid(t) && url != ""
    ensures Valid(Add(t, url).0) && 0 <= t.count <= SLOT_COUNT
    ensures Add(t, url).1.None? <==> t.count == SLOT_COUNT
    ensures Add(t, url).1.Some? ==>
              var id := Add(t, url).1.value;
              && 1 <= id <= SLOT_COUNT && t.slots[id - 1] == ""
              && Add(t, url).0.slots == t.slots[id - 1 := Cut(url)]
              && Stored(Add(t, url).0.slots) == Stored(t.slots) + multiset{Cut(url)}
  {
    StoredSize(t.slots);
    var i := FirstIndex(t.slots, "");
    if i < SLOT_COUNT {
      FreeSlotTaken(t.slots, i, Cut(url));
    }
  }

  /** Deleting a nonempty URL takes out one copy of it, if there is one. */
  lemma DelRemoves(t: Table, url: string)
    requires Valid(t) && url != ""
    ensures Valid(Del(t, url).0)
    ensures Del(t, url).1 <==> url in Stored(t.slots)
    ensures Del(t, url).1 ==> Stored(Del(t, url).0.slots) + multiset{url} == Stored(t.slots)
    ensures !Del(t, url).1 ==> Del(t, url).0 == t
  {
    StoredHas(t.slots, url);
    var i := FirstIndex(t.slots, url);
    if i < SLOT_COUNT {
      StoredAfterUpdate(t.slots, i, "");
      Nothing(Stored(t.slots));
    }
  }

  /** With an empty URL the counter goes wrong exactly when the call succeeds. */
  lemma EmptyUrlDrifts(t: Table)
    requires Valid(t)
    ensures Valid(Add(t, "").0) <==> t.count == SLOT_COUNT
    ensures Valid(Del(t, "").0) <==> t.count == 0 || t.count == SLOT_COUNT
  {
    StoredSize(t.slots);
    var i := FirstIndex(t.slots, "");
    if i < SLOT_COUNT {
      StoredAfterUpdate(t.slots, i, "");
      Nothing(Stored(t.slots[i := ""]));
      Nothing(Stored(t.slots));
    }
  }

  datatype Op = AddUrl(url: string) | DelUrl(url: string)

  function After(ops: seq<Op>): Table {
    if ops == [] then Fresh()
    else
      var t, op := After(ops[..|ops| - 1]), ops[|ops| - 1];
      if op.AddUrl? then Add(t, op.url).0 else Del(t, op.url).0
  }

  /** Over every run with nonempty URLs the counter counts the occupied slots. */
  lemma {:induction false} RunKeepsCount(ops: seq<Op>)
    requires forall op :: op in ops ==> op.url != ""
    ensures Valid(After(ops)) && 0 <= After(ops).count <= SLOT_COUNT
  {
    if ops == [] {
      FreshIsValid();
    } else {
      var front, op := ops[..|ops| - 1], ops[|ops| - 1];
      assert ops == front + [op];
      RunKeepsCount(front);
      if op.AddUrl? {
        AddStores(After(front), op.url);
      } else {
        DelRemoves(After(front), op.url);
      }
      StoredSize(After(ops).slots);
    }
  }

  // ----- cameras

  /** What a camera record says of its stream; a cleared record has a zero id. */
  datatype Camera = Camera(id: int, streamUrl: string, remoteUrl: string)

  const CLEARED := Camera(0, "", "")

  /** Copying a string over another without its terminator. */
  function Overlaid(under: string, over: string): string {
    if |under| <= |over| then over else over + under[|over|..]
  }

  function RemoteName(id: nat): string {
    "../../camera/" + PrintNat(id)
  }

  /** The name tells the slots apart. */
  lemma RemoteNameTells(a: nat, b: nat)
    ensures RemoteName(a) == RemoteName(b) <==> a == b
  {
    HornerOfPrint(a);
    HornerOfPrint(b);
    var prefix := "../../camera/";
    assert RemoteName(a)[|prefix|..] == PrintNat(a) && RemoteName(b)[|prefix|..] == PrintNat(b);
  }

  /** The copied string, and behind it what the longer old one held there. Nothing changes exactly when the
      old string starts with it. */
  lemma OverlaidMeans(under: string, over: string)
    ensures var s := Overlaid(under, over);
            && over <= s && (|under| <= |over| ==> s == over) && (|under| > |over| ==> |s| == |under|)
            && (forall i :: |over| <= i < |under| ==> s[i] == under[i])
            && (s == under <==> over <= under)
  {}

  /** A slot takes the first 255 characters. */
  lemma CutMeans(url: string)
    ensures Cut(url) <= url && |Cut(url)| == if |url| < 255 then |url| else 255
  {}

  /** Store a camera's new URL and give up its old one: in that order. */
  function Swap(t: Table, cam: Camera, url: string): (Table, Camera) {
    var a := Add(t, url);
    if a.1.None? then
      (t, cam.(streamUrl := Overlaid(cam.streamUrl, url)))
    else if |cam.remoteUrl| > 1 then
      (Del(a.0, cam.streamUrl).0, Camera(cam.id, url, RemoteName(a.1.value)))
    else
      (a.0, cam.(streamUrl := Overlaid(cam.streamUrl, url),
                 remoteUrl := Overlaid(cam.remoteUrl, RemoteName(a.1.value))))
  }

  /** The swap, with the old URL stored once: the slot the camera is told about holds the new URL if and
      only if the URLs differ or the old one sits in an earlier slot. */
  lemma SwapNamesItsSlot(t: Table, cam: Camera, url: string, j: nat)
    requires Valid(t) && t.count < SLOT_COUNT && 0 < |url| <= FIELD_LIMIT && |cam.remoteUrl| > 1
    requires j < SLOT_COUNT && cam.streamUrl != "" && t.slots[j] == cam.streamUrl
    requires forall k :: 0 <= k < SLOT_COUNT && k != j ==> t.slots[k] != cam.streamUrl
    ensures Add(t, url).1.Some?
    ensures var id := Add(t, url).1.value;
            && 1 <= id <= SLOT_COUNT
            && Swap(t, cam, url).1 == Camera(cam.id, url, RemoteName(id))
            && (Swap(t, cam, url).0.slots[id - 1] == url <==> cam.streamUrl != url || j < id - 1)
  {
    AddStores(t, url);
    var added := Add(t, url).0;
    var i := Add(t, url).1.value - 1;
    FirstAfterAdd(t.slots, i, j, url, cam.streamUrl);
    assert added.slots == t.slots[i := url];
  }

  /** Where a URL that was stored once is found after an addition. */
  lemma FirstAfterAdd(slots: seq<string>, i: nat, j: nat, url: string, was: string)
    requires i < |slots| && j < |slots| && i != j && slots[j] == was
    requires forall k :: 0 <= k < |slots| && k != j ==> slots[k] != was
    ensures FirstIndex(slots[i := url], was) == if was == url && i < j then i else j
  {
    var f := FirstIndex(slots[i := url], was);
    assert slots[i := url][j] == was && f <= j;
    if was == url && i < j {
      assert slots[i := url][i] == was;
      assert f <= i;
    }
    assert f == i || f == j;
  }

  // ----- the slots against the cameras

  /** The URLs of the cameras that were given a slot. */
  ghost function Held(cams: seq<Camera>): multiset<string> {
    if cams == [] then multiset{} else Held(cams[..|cams| - 1]) + Holds(cams[|cams| - 1])
  }

  ghost function Holds(cam: Camera): multiset<string> {
    if |cam.remoteUrl| > 1 then multiset{cam.streamUrl} else multiset{}
  }

  /** Cameras with a slot have a URL, the others have none. */
  ghost predicate Settled(cam: Camera) {
    if |cam.remoteUrl| > 1 then cam.id != 0 && cam.streamUrl != "" else cam.streamUrl == ""
  }

  ghost predicate Matches(t: Table, cams: seq<Camera>) {
    && Valid(t) && Stored(t.slots) == Held(cams)
    && forall k :: 0 <= k < |cams| ==> Settled(cams[k])
  }

  lemma {:induction false} HeldAfterUpdate(cams: seq<Camera>, k: nat, cam: Camera)
    requires k < |cams|
    ensures Held(cams[k := cam]) + Holds(cams[k]) == Held(cams) + Holds(cam)
  {
    var n := |cams| - 1;
    var front := cams[..n];
    if k < n {
      HeldAfterUpdate(front, k, cam);
      assert cams[k := cam][..n] == front[k := cam];
      Replaced(Held(front[k := cam]), Held(front), Holds(cams[n]), Holds(cams[k]), Holds(cam));
    } else {
      assert cams[k := cam][..n] == front;
      Exchanged(Held(front), Holds(cams[n]), Holds(cam));
    }
  }

  lemma RemoteNameIsLong(id: nat)
    ensures |RemoteName(id)| > 1
  {}

  lemma ReAddKeepsMatch(t: Table, cams: seq<Camera>, k: nat, url: string)
    requires Matches(t, cams) && k < |cams| && t.count < SLOT_COUNT && 1 < |url| <= FIELD_LIMIT
    requires |cams[k].remoteUrl| > 1
    ensures Matches(Swap(t, cams[k], url).0, cams[k := Swap(t, cams[k], url).1])
  {
    var cam := cams[k];
    AddStores(t, url);
    var (added, id) := Add(t, url);
    var cam' := Camera(cam.id, url, RemoteName(id.value));
    RemoteNameIsLong(id.value);
    HeldAfterUpdate(cams, k, cam');
    DelRemoves(added, cam.streamUrl);
    HeldHas(cams, k);
    assert cam.streamUrl in Stored(added.slots);
    Cancel(Held(cams[k := cam']), Stored(Del(added, cam.streamUrl).0.slots), multiset{cam.streamUrl});
  }

  lemma {:induction false} HeldHas(cams: seq<Camera>, k: nat)
    requires k < |cams| && |cams[k].remoteUrl| > 1
    ensures cams[k].streamUrl in Held(cams)
  {
    if k < |cams| - 1 {
      HeldHas(cams[..|cams| - 1], k);
    }
  }

  lemma FirstAddKeepsMatch(t: Table, cams: seq<Camera>, k: nat, url: string)
    requires Matches(t, cams) && k < |cams| && t.count < SLOT_COUNT && 1 < |url| <= FIELD_LIMIT
    requires |cams[k].remoteUrl| <= 1 && cams[k].id != 0
    ensures Matches(Swap(t, cams[k], url).0, cams[k := Swap(t, cams[k], url).1])
  {
    var cam := cams[k];
    AddStores(t, url);
    var id := Add(t, url).1;
    var cam' := Swap(t, cam, url).1;
    RemoteNameIsLong(id.value);
    assert cam' == Camera(cam.id, url, cam'.remoteUrl) && |cam'.remoteUrl| > 1;
    HeldAfterUpdate(cams, k, cam');
    Nothing(Held(cams[k := cam']));
  }

  /** With every slot taken the record's URL is overwritten although its slot is not. */
  lemma FullSwapBreaks(t: Table, cams: seq<Camera>, k: nat, url: string)
    requires Matches(t, cams) && k < |cams| && t.count == SLOT_COUNT && url != ""
    requires Swap(t, cams[k], url).1 != cams[k]
    ensures !Matches(t, cams[k := Swap(t, cams[k], url).1])
  {
    var cam := cams[k];
    var cam' := Swap(t, cam, url).1;
    assert cam' == cam.(streamUrl := Overlaid(cam.streamUrl, url));
    if |cam.remoteUrl| > 1 {
      HeldAfterUpdate(cams, k, cam');
      Differs(Held(cams[k := cam']), Held(cams), cam.streamUrl, cam'.streamUrl);
    } else {
      assert cams[k := cam'][k] == cam';
      assert !Settled(cam');
    }
  }

  lemma Differs<T>(a: multiset<T>, b: multiset<T>, x: T, y: T)
    requires a + multiset{x} == b + multiset{y} && x != y
    ensures a != b
  {
    assert (a + multiset{x})[x] == a[x] + 1 && (b + multiset{y})[x] == b[x];
  }

  /** Adding or re-adding a camera keeps the slots and the cameras together exactly when a slot is free
      or the record does not change. */
  lemma SwapKeepsMatch(t: Table, cams: seq<Camera>, k: nat, url: string)
    requires Matches(t, cams) && k < |cams| && cams[k].id != 0 && 1 < |url| <= FIELD_LIMIT
    ensures var (t', cam) := Swap(t, cams[k], url);
            Matches(t', cams[k := cam]) <==> t.count < SLOT_COUNT || cam == cams[k]
  {
    StoredSize(t.slots);
    if t.count < SLOT_COUNT {
      if |cams[k].remoteUrl| > 1 {
        ReAddKeepsMatch(t, cams, k, url);
      } else {
        FirstAddKeepsMatch(t, cams, k, url);
      }
    } else if Swap(t, cams[k], url).1 != cams[k] {
      FullSwapBreaks(t, cams, k, url);
    } else {
      assert cams[k := cams[k]] == cams;
    }
  }

  function FirstCamera(cams: seq<Camera>, id: int): (k: nat)
    ensures k <= |cams|
    ensures forall i :: 0 <= i < k ==> cams[i].id != id
    ensures k < |cams| ==> cams[k].id == id
  {
    if cams == [] || cams[0].id == id then 0 else FirstCamera(cams[1..], id) + 1
  }

  function DropCamera(t: Table, cams: seq<Camera>, k: nat): (Table, seq<Camera>)
    requires k < |cams|
  {
    (Del(t, cams[k].streamUrl).0, cams[k := CLEARED])
  }

  /** Records as they are read from the database: ids, but no URLs. */
  function Loaded(ids: seq<int>): (cams: seq<Camera>)
    ensures |cams| == |ids|
    ensures forall k :: 0 <= k < |ids| ==> cams[k] == Camera(ids[k], "", "")
  {
    seq(|ids|, k requires 0 <= k < |ids| => Camera(ids[k], "", ""))
  }

  /** Deleting an unknown camera loads the records again, with the ids in `stored`. */
  function DelCamera(t: Table, cams: seq<Camera>, id: int, stored: seq<int>): (Table, seq<Camera>, bool) {
    var k := FirstCamera(cams, id);
    if k == |cams| then (t, Loaded(stored), false)
    else
      var d := DropCamera(t, cams, k);
      (d.0, d.1, true)
  }

  lemma DropWithUrl(t: Table, cams: seq<Camera>, k: nat)
    requires Matches(t, cams) && k < |cams| && cams[k].streamUrl != ""
    ensures Matches(DropCamera(t, cams, k).0, cams[k := CLEARED])
  {
    var url := cams[k].streamUrl;
    HeldAfterUpdate(cams, k, CLEARED);
    HeldHas(cams, k);
    DelRemoves(t, url);
    Nothing(Held(cams));
    Cancel(Held(cams[k := CLEARED]), Stored(Del(t, url).0.slots), multiset{url});
  }

  lemma DropWithoutUrl(t: Table, cams: seq<Camera>, k: nat)
    requires Matches(t, cams) && k < |cams| && cams[k].streamUrl == ""
    ensures Matches(DropCamera(t, cams, k).0, cams[k := CLEARED]) <==> t.count == 0 || t.count == SLOT_COUNT
  {
    EmptyUrlDrifts(t);
    if t.count == 0 || t.count == SLOT_COUNT {
      StoredSize(t.slots);
      assert Del(t, "").0 == t;
      ClearKeeps(t, cams, k);
    }
  }

  lemma ClearKeeps(t: Table, cams: seq<Camera>, k: nat)
    requires Matches(t, cams) && k < |cams| && cams[k].streamUrl == ""
    ensures Matches(t, cams[k := CLEARED])
  {
    assert Settled(cams[k]);
    HeldAfterUpdate(cams, k, CLEARED);
    Nothing(Held(cams));
    Nothing(Held(cams[k := CLEARED]));
  }

  /** Deleting a camera keeps the slots and the cameras together exactly when it had a URL, or the empty
      one it is deleted by finds nothing to free. */
  lemma DropKeepsMatch(t: Table, cams: seq<Camera>, k: nat)
    requires Matches(t, cams) && k < |cams|
    ensures Matches(DropCamera(t, cams, k).0, DropCamera(t, cams, k).1) <==>
            cams[k].streamUrl != "" || t.count == 0 || t.count == SLOT_COUNT
  {
    if cams[k].streamUrl != "" {
      DropWithUrl(t, cams, k);
    } else {
      DropWithoutUrl(t, cams, k);
    }
  }

  /** Visit the records from `from` on and delete every one in use. */
  function CleanFrom(t: Table, cams: seq<Camera>, from: nat): (Table, seq<Camera>)
    requires from <= |cams|
    decreases |cams| - from
  {
    if from == |cams| then (t, cams)
    else if cams[from].id != 0 then
      var d := DropCamera(t, cams, from);
      CleanFrom(d.0, d.1, from + 1)
    else CleanFrom(t, cams, from + 1)
  }

  /** No record in use without a URL is visited while some but not all slots are taken. */
  ghost predicate CleanSafe(count: int, cams: seq<Camera>)
    decreases |cams|
  {
    cams == [] ||
    if cams[0].id == 0 then CleanSafe(count, cams[1..])
    else if cams[0].streamUrl != "" then CleanSafe(count - 1, cams[1..])
    else (count == 0 || count == SLOT_COUNT) && CleanSafe(count, cams[1..])
  }

  ghost predicate Behind(t: Table) {
    |t.slots| == SLOT_COUNT && 0 <= t.count < |Stored(t.slots)|
  }

  lemma DelStaysBehind(t: Table, url: string)
    requires Behind(t)
    ensures Behind(Del(t, url).0)
  {
    var i := FirstIndex(t.slots, url);
    if t.count > 0 && i < SLOT_COUNT {
      StoredAfterUpdate(t.slots, i, "");
      var after, before := Stored(t.slots[i := ""]), Stored(t.slots);
      assert |after + One(url)| == |after| + |One(url)|;
      assert |before + One("")| == |before|;
      assert |One(url)| <= 1;
    }
  }

  /** Once the counter is behind, no deletion lets it catch up. */
  lemma {:induction false} DriftStays(t: Table, cams: seq<Camera>, from: nat)
    requires from <= |cams| && Behind(t)
    ensures !Valid(CleanFrom(t, cams, from).0)
    decreases |cams| - from
  {
    if from < |cams| {
      if cams[from].id != 0 {
        DelStaysBehind(t, cams[from].streamUrl);
        DriftStays(Del(t, cams[from].streamUrl).0, cams[from := CLEARED], from + 1);
      } else {
        DriftStays(t, cams, from + 1);
      }
    }
  }

  lemma CleanDrifts(t: Table, cams: seq<Camera>, from: nat)
    requires Matches(t, cams) && from < |cams| && cams[from].id != 0
    requires cams[from].streamUrl == "" && 0 < t.count < SLOT_COUNT
    ensures !Valid(CleanFrom(t, cams, from).0)
  {
    var d := DropCamera(t, cams, from);
    StoredSize(t.slots);
    var i := FirstIndex(t.slots, "");
    StoredAfterUpdate(t.slots, i, "");
    Nothing(Stored(t.slots));
    Nothing(Stored(t.slots[i := ""]));
    DriftStays(d.0, d.1, from + 1);
  }

  ghost predicate ZeroBelow(cams: seq<Camera>, n: nat) {
    n <= |cams| && forall k :: 0 <= k < n ==> cams[k].id == 0
  }

  /** What cleaning up from `from` on leaves. */
  ghost predicate CleanedIff(t: Table, cams: seq<Camera>, from: nat)
    requires from <= |cams|
  {
    var (t', cams') := CleanFrom(t, cams, from);
    && (Matches(t', cams') <==> CleanSafe(t.count, cams[from..]))
    && |cams'| == |cams| && ZeroBelow(cams', |cams|)
    && (Matches(t', cams') ==> t'.count == 0)
  }

  /** Cleaning up keeps the slots and the cameras together exactly when it is safe; then no camera and no
      URL is left. */
  lemma {:induction false} CleanKeepsMatch(t: Table, cams: seq<Camera>, from: nat)
    requires Matches(t, cams) && ZeroBelow(cams, from)
    ensures CleanedIff(t, cams, from)
    decreases |cams| - from
  {
    if from == |cams| {
      CleanDone(t, cams);
    } else if cams[from].id == 0 {
      CleanKeepsMatch(t, cams, from + 1);
      CleanSkips(t, cams, from);
    } else if cams[from].streamUrl != "" || t.count == 0 || t.count == SLOT_COUNT {
      var t', cams' := Del(t, cams[from].streamUrl).0, cams[from := CLEARED];
      DropFine(t, cams, from);
      CleanKeepsMatch(t', cams', from + 1);
      CleanGoesOn(t, cams, from);
    } else {
      CleanStops(t, cams, from);
    }
  }

  lemma CleanDone(t: Table, cams: seq<Camera>)
    requires Matches(t, cams) && ZeroBelow(cams, |cams|)
    ensures CleanedIff(t, cams, |cams|)
  {
    NothingHeld(cams);
  }

  lemma DropFine(t: Table, cams: seq<Camera>, from: nat)
    requires Matches(t, cams) && from < |cams| && ZeroBelow(cams, from)
    requires cams[from].streamUrl != "" || t.count == 0 || t.count == SLOT_COUNT
    ensures Matches(Del(t, cams[from].streamUrl).0, cams[from := CLEARED])
    ensures ZeroBelow(cams[from := CLEARED], from + 1)
  {
    DropKeepsMatch(t, cams, from);
  }

  lemma CleanSkips(t: Table, cams: seq<Camera>, from: nat)
    requires from < |cams| && cams[from].id == 0 && CleanedIff(t, cams, from + 1)
    ensures CleanedIff(t, cams, from)
  {
    assert cams[from..][0] == cams[from] && cams[from..][1..] == cams[from + 1..];
  }

  lemma CleanGoesOn(t: Table, cams: seq<Camera>, from: nat)
    requires Matches(t, cams) && from < |cams| && cams[from].id != 0
    requires cams[from].streamUrl != "" || t.count == 0 || t.count == SLOT_COUNT
    requires CleanedIff(DropCamera(t, cams, from).0, cams[from := CLEARED], from + 1)
    ensures CleanedIff(t, cams, from)
  {
    assert cams[from..][0] == cams[from];
    assert cams[from..][1..] == cams[from := CLEARED][from + 1..];
    DropCounts(t, cams, from);
  }

  lemma CleanStops(t: Table, cams: seq<Camera>, from: nat)
    requires Matches(t, cams) && from < |cams| && cams[from].id != 0
    requires ZeroBelow(cams, from)
    requires cams[from].streamUrl == "" && t.count != 0 && t.count != SLOT_COUNT
    ensures CleanedIff(t, cams, from)
  {
    assert cams[from..][0] == cams[from];
    DropCounts(t, cams, from);
    CleanDrifts(t, cams, from);
    CleanClears(t, cams, from);
  }

  lemma DropCounts(t: Table, cams: seq<Camera>, k: nat)
    requires Matches(t, cams) && k < |cams|
    ensures cams[k].streamUrl != "" ==> DropCamera(t, cams, k).0.count == t.count - 1
    ensures cams[k].streamUrl == "" && (t.count == 0 || t.count == SLOT_COUNT) ==> DropCamera(t, cams, k).0 == t
    ensures 0 <= t.count <= SLOT_COUNT
  {
    StoredSize(t.slots);
    if cams[k].streamUrl != "" {
      HeldHas(cams, k);
      DelRemoves(t, cams[k].streamUrl);
    }
  }

  lemma {:induction false} CleanClears(t: Table, cams: seq<Camera>, from: nat)
    requires ZeroBelow(cams, from)
    ensures |CleanFrom(t, cams, from).1| == |cams| && ZeroBelow(CleanFrom(t, cams, from).1, |cams|)
    decreases |cams| - from
  {
    if from < |cams| {
      if cams[from].id != 0 {
        CleanClears(DropCamera(t, cams, from).0, DropCamera(t, cams, from).1, from + 1);
      } else {
        CleanClears(t, cams, from + 1);
      }
    }
  }

  lemma {:induction false} NothingHeld(cams: seq<Camera>)
    requires forall k :: 0 <= k < |cams| ==> |cams[k].remoteUrl| <= 1
    ensures Held(cams) == multiset{}
  {
    if cams != [] {
      NothingHeld(cams[..|cams| - 1]);
    }
  }

  // ----- whole runs of cameras joining and leaving

  /** How an attempt to add a camera ends: before its URL is stored, at a sensor that cannot be read after
      the swap, with a database that refuses one of the records of the camera and its sensors, or well. */
  datatype Outcome = Refused | SensorFails | NotRecorded | Added {
    /** A new camera is cleared again although the swap was made. */
    predicate TakesBack() {
      SensorFails? || NotRecorded?
    }

    /** Only the attempts that say so count as failures: a refusing database does not. */
    function Returned(): int {
      if Refused? || SensorFails? then -1 else 0
    }
  }

  datatype Event =
    | Join(k: nat, id: int, url: string, outcome: Outcome)
    | Leave(id: int, stored: seq<int>)
    | LeaveAll

  datatype World = World(t: Table, cams: seq<Camera>)

  function JoinAt(w: World, k: nat, id: int, url: string, outcome: Outcome): World
    requires k < |w.cams|
  {
    var isNew := w.cams[k].id == 0;
    var named := if isNew then w.cams[k].(id := id) else w.cams[k];
    if outcome.Refused? then
      if isNew then w.(cams := w.cams[k := CLEARED]) else w
    else
      var r := Swap(w.t, named, url);
      World(r.0, w.cams[k := if isNew && outcome.TakesBack() then CLEARED else r.1])
  }

  /** A new camera that is taken back is cleared, but keeps its slot. */
  function OnEvent(w: World, e: Event): World {
    match e
    case Join(k, id, url, outcome) => if k < |w.cams| then JoinAt(w, k, id, url, outcome) else w
    case Leave(id, stored) =>
      var r := DelCamera(w.t, w.cams, id, stored);
      World(r.0, r.1)
    case LeaveAll =>
      var r := CleanFrom(w.t, w.cams, 0);
      World(r.0, r.1)
  }

  /** New ids are not zero, and URLs fit their fields and are longer than one character. */
  predicate Proper(e: Event) {
    e.Join? ==> e.id != 0 && 1 < |e.url| <= FIELD_LIMIT
  }

  ghost predicate InStep(w: World) {
    Matches(w.t, w.cams)
  }

  /** When an event keeps the slots and the records together: with every slot taken, a URL only if the
      record's own starts with it. */
  ghost predicate Fine(w: World, e: Event) {
    match e
    case Join(k, id, url, outcome) =>
      if k >= |w.cams| || outcome.Refused? then true
      else if outcome.TakesBack() && w.cams[k].id == 0 then w.t.count == SLOT_COUNT
      else w.t.count < SLOT_COUNT || url <= w.cams[k].streamUrl
    case Leave(id, _) =>
      var k := FirstCamera(w.cams, id);
      w.t.count == 0 || (k < |w.cams| && (w.cams[k].streamUrl != "" || w.t.count == SLOT_COUNT))
    case LeaveAll => CleanSafe(w.t.count, w.cams)
  }

  /** An id alone holds no slot. */
  lemma NamingKeeps(t: Table, cams: seq<Camera>, k: nat, cam: Camera)
    requires Matches(t, cams) && k < |cams| && cams[k].id == 0
    requires cam == CLEARED || (cam.id != 0 && cam == cams[k].(id := cam.id))
    ensures Matches(t, cams[k := cam])
  {
    assert Settled(cams[k]);
    HeldAfterUpdate(cams, k, cam);
    Nothing(Held(cams));
    Nothing(Held(cams[k := cam]));
  }

  /** A record without a slot only adds to the slots. */
  lemma NewCameraSwap(w: World, k: nat, id: int, url: string)
    requires InStep(w) && k < |w.cams| && w.cams[k].id == 0
    ensures Swap(w.t, w.cams[k].(id := id), url).0 == Add(w.t, url).0
  {
    assert Settled(w.cams[k]);
  }

  /** A URL that is added for no camera. */
  lemma SwapOrphans(t: Table, cams: seq<Camera>, url: string)
    requires Matches(t, cams) && url != ""
    ensures Matches(Add(t, url).0, cams) <==> t.count == SLOT_COUNT
  {
    AddStores(t, url);
    if t.count < SLOT_COUNT {
      assert |Stored(Add(t, url).0.slots)| == |Stored(t.slots)| + 1;
    }
  }

  /** A new camera that is taken back after the swap leaves its URL behind, unless every slot was taken:
      a refusing database does so although the attempt counts as a success. */
  lemma TakingBackOrphans(w: World, k: nat, id: int, url: string, outcome: Outcome)
    requires InStep(w) && k < |w.cams| && w.cams[k].id == 0 && id != 0 && 1 < |url| <= FIELD_LIMIT
    requires outcome.TakesBack()
    ensures InStep(JoinAt(w, k, id, url, outcome)) <==> w.t.count == SLOT_COUNT
    ensures JoinAt(w, k, id, url, outcome).cams[k] == CLEARED
    ensures outcome.Returned() == 0 <==> outcome.NotRecorded?
  {
    NamingKeeps(w.t, w.cams, k, CLEARED);
    NewCameraSwap(w, k, id, url);
    SwapOrphans(w.t, w.cams[k := CLEARED], url);
  }

  lemma SwapWhenFull(t: Table, cam: Camera, url: string)
    requires Valid(t) && t.count == SLOT_COUNT && url != ""
    ensures Swap(t, cam, url).1 == cam <==> url <= cam.streamUrl
  {
    AddStores(t, url);
    OverlaidMeans(cam.streamUrl, url);
  }

  lemma SwapKeepsMatchNamed(t: Table, cams: seq<Camera>, k: nat, named: Camera, url: string)
    requires k < |cams| && Matches(t, cams[k := named]) && 1 < |url| <= FIELD_LIMIT && named.id != 0
    ensures Matches(Swap(t, named, url).0, cams[k := Swap(t, named, url).1])
            <==> t.count < SLOT_COUNT || url <= named.streamUrl
  {
    var all := cams[k := named];
    SwapKeepsMatch(t, all, k, url);
    assert all[k := Swap(t, named, url).1] == cams[k := Swap(t, named, url).1];
    StoredSize(t.slots);
    if t.count == SLOT_COUNT {
      SwapWhenFull(t, named, url);
    }
  }

  lemma JoinKeepsIff(w: World, k: nat, id: int, url: string, outcome: Outcome)
    requires InStep(w) && Proper(Join(k, id, url, outcome)) && k < |w.cams|
    ensures InStep(JoinAt(w, k, id, url, outcome)) <==> Fine(w, Join(k, id, url, outcome))
  {
    var isNew := w.cams[k].id == 0;
    if outcome.Refused? {
      if isNew {
        NamingKeeps(w.t, w.cams, k, CLEARED);
      }
    } else if isNew && outcome.TakesBack() {
      TakingBackOrphans(w, k, id, url, outcome);
    } else {
      var named := if isNew then w.cams[k].(id := id) else w.cams[k];
      if isNew {
        NamingKeeps(w.t, w.cams, k, named);
      } else {
        assert w.cams[k := named] == w.cams;
      }
      SwapKeepsMatchNamed(w.t, w.cams, k, named, url);
    }
  }

  /** Records without URLs, as after a start or a reload. */
  lemma LoadedMatches(t: Table, ids: seq<int>)
    requires Valid(t)
    ensures Matches(t, Loaded(ids)) <==> t.count == 0
  {
    NothingHeld(Loaded(ids));
    if t.count == 0 {
      assert Stored(t.slots) == multiset{};
    }
  }

  lemma LeaveKeepsIff(w: World, id: int, stored: seq<int>)
    requires InStep(w)
    ensures InStep(OnEvent(w, Leave(id, stored))) <==> Fine(w, Leave(id, stored))
  {
    var k := FirstCamera(w.cams, id);
    if k == |w.cams| {
      LoadedMatches(w.t, stored);
    } else {
      DropKeepsMatch(w.t, w.cams, k);
    }
  }

  /** Each event keeps the slots and the records together if and only if it is fine. */
  lemma EventKeepsIff(w: World, e: Event)
    requires InStep(w) && Proper(e)
    ensures InStep(OnEvent(w, e)) <==> Fine(w, e)
  {
    match e
    case Join(k, id, url, outcome) =>
      if k < |w.cams| {
        JoinKeepsIff(w, k, id, url, outcome);
      }
    case Leave(id, stored) =>
      LeaveKeepsIff(w, id, stored);
    case LeaveAll =>
      assert w.cams[0..] == w.cams;
      CleanKeepsMatch(w.t, w.cams, 0);
  }

  function AfterEvents(w: World, es: seq<Event>): World
    decreases |es|
  {
    if es == [] then w else AfterEvents(OnEvent(w, es[0]), es[1..])
  }

  ghost predicate FineRun(w: World, es: seq<Event>)
    decreases |es|
  {
    es != [] ==> Fine(w, es[0]) && FineRun(OnEvent(w, es[0]), es[1..])
  }

  ghost predicate AlwaysInStep(w: World, es: seq<Event>)
    decreases |es|
  {
    InStep(w) && (es != [] ==> AlwaysInStep(OnEvent(w, es[0]), es[1..]))
  }

  /** Over every run: the occupied slots are at all times exactly the URLs of the cameras that were given
      one, if and only if every event of the run was fine. */
  lemma {:induction false} RunStaysInStepIff(w: World, es: seq<Event>)
    requires InStep(w) && forall e :: e in es ==> Proper(e)
    ensures AlwaysInStep(w, es) <==> FineRun(w, es)
    decreases |es|
  {
    if es != [] {
      assert es[0] in es;
      EventKeepsIff(w, es[0]);
      if Fine(w, es[0]) {
        RunStaysInStepIff(OnEvent(w, es[0]), es[1..]);
      }
    }
  }

  lemma {:induction false} AlwaysMeansEachTime(w: World, es: seq<Event>, i: nat)
    requires AlwaysInStep(w, es) && i <= |es|
    ensures InStep(AfterEvents(w, es[..i]))
    decreases |es|
  {
    if i > 0 {
      assert es[..i][1..] == es[1..][..i - 1];
      AlwaysMeansEachTime(OnEvent(w, es[0]), es[1..], i - 1);
    }
  }

  /** The program starts with empty slots and the records of the database. */
  lemma StartsInStep(ids: seq<int>)
    ensures InStep(World(Fresh(), Loaded(ids)))
  {
    FreshIsValid();
    LoadedMatches(Fresh(), ids);
  }
}
