/** The records the playlist worker builds: membership entries read from the
    playlist, and the per-video dictionaries that are merged and saved. */
module Records {
  import opened Wrappers

  /** A wall-clock reading (`time.time()`); it is only stored, never inspected. */
  type Instant = real

  /** One playlist-membership fact: `{"videoId": …, "addList": …}`. The video ID
      type is a parameter: the merge only ever compares IDs for equality. */
  datatype Membership<Id> = Membership(videoId: Id, addList: string)

  /** A per-video dictionary. A `Detail` is built from a video-details response;
      a `Stub` stands for a membership whose video had no detail record.
      `addList` is `None` while the dictionary has no "addList" key. */
  datatype Record<Id> =
    | Detail(id: Id, title: string, upload: string, duration: string,
             viewCount: string, channelId: string, channelName: string,
             requestTime: Instant, addList: Option<string>)
    | Stub(id: Id, requestTime: Instant, addList: Option<string>)
  {
    /** `record["addList"] = a`: sets the key, adding it when it was absent. */
    function WithAddList(a: string): Record<Id> {
      this.(addList := Some(a))
    }
  }

  /** The records as the program builds them, with video IDs as strings. */
  type VideoRecord = Record<string>
  type VideoMembership = Membership<string>

  /** A cell of the saved table: a string, or the float of a `requestTime`. */
  datatype Cell = Text(s: string) | Time(t: Instant)

  const DetailKeys: seq<string> :=
    ["ID", "Title", "upload", "duration", "viewCount", "channelId", "channelName", "requestTime"]
  const StubKeys: seq<string> := ["ID", "requestTime"]
  const AddListKey: string := "addList"

  /** The insertion order of the dictionary's keys; "addList" is inserted last. */
  function Keys<Id>(r: Record<Id>): seq<string> {
    (if r.Detail? then DetailKeys else StubKeys)
      + (if r.addList.Some? then [AddListKey] else [])
  }

  /** `record.get(key)`. */
  function Field(r: VideoRecord, key: string): Option<Cell> {
    if key == "ID" then Some(Text(r.id))
    else if key == "requestTime" then Some(Time(r.requestTime))
    else if key == AddListKey then (if r.addList.Some? then Some(Text(r.addList.value)) else None)
    else if !r.Detail? then None
    else if key == "Title" then Some(Text(r.title))
    else if key == "upload" then Some(Text(r.upload))
    else if key == "duration" then Some(Text(r.duration))
    else if key == "viewCount" then Some(Text(r.viewCount))
    else if key == "channelId" then Some(Text(r.channelId))
    else if key == "channelName" then Some(Text(r.channelName))
    else None
  }

  /** The key list and the lookup describe the same dictionary: a key is listed
      exactly when it has a value, and no key is listed twice. */
  lemma KeysAgreeWithField(r: VideoRecord, key: string)
    ensures key in Keys(r) <==> Field(r, key).Some?
    ensures forall i, j :: 0 <= i < j < |Keys(r)| ==> Keys(r)[i] != Keys(r)[j]
  {
  }

  /** "addList" is among the keys exactly when the dictionary has one. */
  lemma AddListListed<Id>(r: Record<Id>)
    ensures AddListKey in Keys(r) <==> r.addList.Some?
  {
    assert AddListKey !in DetailKeys && AddListKey !in StubKeys;
  }

  /** Every key a detail or a stub can carry is among the nine keys of a
      detail that has been given an "addList". */
  lemma KeysWithinFullDetail<Id>(r: Record<Id>, full: Record<Id>)
    requires full.Detail? && full.addList.Some?
    ensures forall key :: key in Keys(r) ==> key in Keys(full)
  {
  }
}
