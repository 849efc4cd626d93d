/** The media URL slots and the camera records as they are updated in place. */
module CameraTables {
  import opened Wrappers
  import opened MediaSlots

  class MediaMap {
    const urls: array<string>
    var count: int

    ghost function State(): Table
      reads this, urls
    {
      Table(urls[..], count)
    }

    constructor ()
      ensures fresh(urls) && State() == Fresh()
    {
      urls := new string[SLOT_COUNT](_ => "");
      count := 0;
    }

    /** Zero and an id, or -1; the id is left alone on failure. */
    method AddMediaUrl(url: string, id: nat) returns (ret: int, id': nat)
      requires urls.Length == SLOT_COUNT
      modifies this, urls
      ensures State() == Add(old(State()), url).0
      ensures ret == (if Add(old(State()), url).1.Some? then 0 else -1)
      ensures id' == match Add(old(State()), url).1 case Some(n) => n case None => id
    {
      if count >= SLOT_COUNT {
        return -1, id;
      }
      for loop := 0 to SLOT_COUNT
        invariant FirstIndex(urls[..], "") == loop + FirstIndex(urls[loop..], "")
      {
        if |urls[loop]| == 0 {
          urls[loop] := Cut(url);
          count := count + 1;
          return 0, loop + 1;
        }
      }
      return -1, id;
    }

    method DelMediaUrl(url: string) returns (ret: int)
      requires urls.Length == SLOT_COUNT
      modifies this, urls
      ensures State() == Del(old(State()), url).0
      ensures ret == (if Del(old(State()), url).1 then 0 else -1)
    {
      if count <= 0 {
        return -1;
      }
      for loop := 0 to SLOT_COUNT
        invariant FirstIndex(urls[..], url) == loop + FirstIndex(urls[loop..], url)
      {
        if urls[loop] == url {
          urls[loop] := "";
          count := count - 1;
          return 0;
        }
      }
      return -1;
    }
  }

  class CameraTable {
    const media: MediaMap
    const cameras: array<Camera>

    ghost predicate Valid()
      reads this, media
    {
      media.urls.Length == SLOT_COUNT
    }

    constructor (media: MediaMap, cameras: array<Camera>)
      ensures this.media == media && this.cameras == cameras
    {
      this.media, this.cameras := media, cameras;
    }

    /** The part of adding a camera that moves it from its old slot to a new one. */
    method SwapUrl(k: nat, url: string)
      requires Valid() && k < cameras.Length
      modifies media, media.urls, cameras
      ensures var r := Swap(old(media.State()), old(cameras[k]), url);
              media.State() == r.0 && cameras[..] == old(cameras[..])[k := r.1]
    {
      var ret, medianum := media.AddMediaUrl(url, 0);
      var camera := cameras[k];
      if ret == 0 {
        var remote := RemoteName(medianum);
        if |camera.remoteUrl| > 1 {
          var _ := media.DelMediaUrl(camera.streamUrl);
          camera := Camera(camera.id, "", "");
        }
        camera := camera.(remoteUrl := Overlaid(camera.remoteUrl, remote));
      }
      cameras[k] := camera.(streamUrl := Overlaid(camera.streamUrl, url));
    }

    method DropAt(k: nat)
      requires Valid() && k < cameras.Length
      modifies media, media.urls, cameras
      ensures (media.State(), cameras[..]) == DropCamera(old(media.State()), old(cameras[..]), k)
    {
      var _ := media.DelMediaUrl(cameras[k].streamUrl);
      cameras[k] := CLEARED;
    }

    /** `stored` are the ids the database holds, for the case that no record has the id. */
    method CameraDel(id: int, stored: seq<int>) returns (ret: int)
      requires Valid() && |stored| == cameras.Length
      modifies media, media.urls, cameras
      ensures var r := DelCamera(old(media.State()), old(cameras[..]), id, stored);
              media.State() == r.0 && cameras[..] == r.1 && ret == if r.2 then 0 else -1
    {
      for i := 0 to cameras.Length
        invariant media.State() == old(media.State()) && cameras[..] == old(cameras[..])
        invariant FirstCamera(cameras[..], id) == i + FirstCamera(cameras[i..], id)
      {
        if cameras[i].id == id {
          DropAt(i);
          return 0;
        }
      }
      CameraInfoInit(stored);
      return -1;
    }

    /** Load the records from the database: their URLs are gone. */
    method CameraInfoInit(stored: seq<int>)
      requires |stored| == cameras.Length
      modifies cameras
      ensures cameras[..] == Loaded(stored)
    {
      forall i | 0 <= i < cameras.Length {
        cameras[i] := Camera(stored[i], "", "");
      }
    }

    /** Only a camera that is reported as added is cleared when the database refuses it. */
    method RecordInDatabase(k: nat, isNew: bool, refused: bool)
      requires k < cameras.Length
      modifies cameras
      ensures cameras[..] ==
              if isNew && refused then old(cameras[..])[k := CLEARED] else old(cameras[..])
    {
      if refused && isNew {
        cameras[k] := CLEARED;
      }
    }

    /** What adding a camera does to its record and slots, by how it ends. A refusing database clears a new
        camera's record without a word to the caller. */
    method CameraAdd(k: nat, id: int, url: string, outcome: Outcome) returns (ret: int)
      requires Valid() && k < cameras.Length
      modifies media, media.urls, cameras
      ensures var w := JoinAt(World(old(media.State()), old(cameras[..])), k, id, url, outcome);
              World(media.State(), cameras[..]) == w
      ensures ret == match outcome
                     case Refused => -1
                     case SensorFails => -1
                     case NotRecorded => 0
                     case Added => 0
    {
      var isNew := cameras[k].id == 0;
      if isNew {
        cameras[k] := cameras[k].(id := id);
      }
      if outcome.Refused? {
        if isNew {
          cameras[k] := CLEARED;
        }
        return -1;
      }
      SwapUrl(k, url);
      if outcome.SensorFails? {
        if isNew {
          cameras[k] := CLEARED;
        }
        return -1;
      }
      RecordInDatabase(k, isNew, outcome.NotRecorded?);
      return 0;
    }

    method CameraCleanAll()
      requires Valid()
      modifies media, media.urls, cameras
      ensures (media.State(), cameras[..]) == CleanFrom(old(media.State()), old(cameras[..]), 0)
    {
      for i := 0 to cameras.Length
        invariant CleanFrom(media.State(), cameras[..], i) == CleanFrom(old(media.State()), old(cameras[..]), 0)
      {
        if cameras[i].id != 0 {
          DropAt(i);
        }
      }
    }
  }
}
