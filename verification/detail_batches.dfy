/** Fetching video details: the ID list is cut into requests of at most
    `MaxRequestItem` IDs, each request either answers or fails, and each answered
    item is shaped into a detail record. The network is an oracle parameter. */
module DetailBatches {
  import opened Wrappers
  import opened Records

  /** The most IDs one video-details request may carry. */
  const MaxRequestItem: nat := 50

  function Min(a: int, b: int): int {
    if a <= b then a else b
  }

  /** The number of requests for `n` IDs: `range(0, n, MaxRequestItem)` has
      this many steps, the ceiling of n / MaxRequestItem. */
  function BatchCount(n: nat): (c: nat)
    ensures c * MaxRequestItem >= n
    ensures c > 0 ==> (c - 1) * MaxRequestItem < n
  {
    (n + MaxRequestItem - 1) / MaxRequestItem
  }

  /** Request `k` carries the IDs from position `k * MaxRequestItem` on, at most
      `MaxRequestItem` of them. */
  function Batches<T>(ids: seq<T>): (bs: seq<seq<T>>)
    ensures |bs| == BatchCount(|ids|)
    ensures forall k :: 0 <= k < |bs| ==> 1 <= |bs[k]| <= MaxRequestItem
  {
    seq(BatchCount(|ids|), k requires 0 <= k < BatchCount(|ids|) =>
      ids[k * MaxRequestItem .. Min(k * MaxRequestItem + MaxRequestItem, |ids|)])
  }

  /** Concatenation of a list of lists. */
  function Flatten<T>(xss: seq<seq<T>>): seq<T>
    decreases |xss|
  {
    if |xss| == 0 then [] else Flatten(xss[..|xss| - 1]) + xss[|xss| - 1]
  }

  lemma {:induction false} FlattenAppend<T>(a: seq<seq<T>>, b: seq<seq<T>>)
    ensures Flatten(a + b) == Flatten(a) + Flatten(b)
    decreases |b|
  {
    if |b| == 0 {
      assert a + b == a;
    } else {
      var front := b[..|b| - 1];
      assert (a + b)[..|a + b| - 1] == a + front;
      assert (a + b)[|a + b| - 1] == b[|b| - 1];
      FlattenAppend(a, front);
      assert Flatten(b) == Flatten(front) + b[|b| - 1];
    }
  }

  /** Every request except the last carries exactly `MaxRequestItem` IDs. */
  lemma BatchesFull<T>(ids: seq<T>, k: nat)
    requires k + 1 < |Batches(ids)|
    ensures |Batches(ids)[k]| == MaxRequestItem
  {
  }

  /** When there are more IDs than one request holds, the first request takes
      the first `MaxRequestItem` and the rest are cut from what remains. */
  lemma BatchesUnfold<T>(ids: seq<T>)
    requires |ids| > MaxRequestItem
    ensures Batches(ids) == [ids[..MaxRequestItem]] + Batches(ids[MaxRequestItem..])
  {
    var bs := Batches(ids);
    var rest := Batches(ids[MaxRequestItem..]);
    assert |bs| == 1 + |rest|;
    forall k | 1 <= k < |bs| ensures bs[k] == rest[k - 1] {
      var lo := (k - 1) * MaxRequestItem;
      assert k * MaxRequestItem == MaxRequestItem + lo;
      assert bs[k] == ids[MaxRequestItem + lo .. Min(MaxRequestItem + lo + MaxRequestItem, |ids|)];
      assert rest[k - 1] == ids[MaxRequestItem..][lo .. Min(lo + MaxRequestItem, |ids| - MaxRequestItem)];
    }
  }

  /** The requests, put back together, are the ID list in order. */
  lemma {:induction false} BatchesFlatten<T>(ids: seq<T>)
    ensures Flatten(Batches(ids)) == ids
    decreases |ids|
  {
    if |ids| == 0 {
    } else if |ids| <= MaxRequestItem {
      assert BatchCount(|ids|) == 1;
      assert Batches(ids)[0] == ids[0..|ids|] == ids;
      assert Batches(ids) == [ids];
      assert Flatten([ids]) == Flatten([]) + ids;
    } else {
      BatchesUnfold(ids);
      BatchesFlatten(ids[MaxRequestItem..]);
      FlattenAppend([ids[..MaxRequestItem]], Batches(ids[MaxRequestItem..]));
      assert Flatten([ids[..MaxRequestItem]]) == ids[..MaxRequestItem];
      assert ids[..MaxRequestItem] + ids[MaxRequestItem..] == ids;
    }
  }

  /** One ID over a full request gives a full request and a single-ID request;
      no IDs give no request. */
  lemma BatchBoundary<T>(ids: seq<T>)
    ensures |ids| == MaxRequestItem + 1 ==>
              |Batches(ids)| == 2 && |Batches(ids)[0]| == MaxRequestItem && |Batches(ids)[1]| == 1
    ensures |ids| == 0 ==> Batches(ids) == []
  {
  }

  // ---------------------------------------------------------------------
  // Shaping the answered items.

  datatype Statistics = Statistics(viewCount: Option<string>)

  /** The parts of one returned video item that are read; `None` is a missing key. */
  datatype ApiItem = ApiItem(
    id: Option<string>, title: Option<string>, publishedAt: Option<string>,
    duration: Option<string>, statistics: Option<Statistics>,
    channelId: Option<string>, channelTitle: Option<string>)

  /** An answered item together with the clock reading taken while shaping it. */
  datatype Fetched = Fetched(item: ApiItem, at: Instant)

  /** Whether every key the shaping reads unconditionally is present. */
  predicate WellFormed(it: ApiItem) {
    && it.id.Some? && it.title.Some? && it.publishedAt.Some? && it.duration.Some?
    && it.statistics.Some? && it.channelId.Some? && it.channelTitle.Some?
  }

  /** The detail record of one item; `None` when a key is missing (a KeyError).
      A missing view count alone is not an error: it defaults to "0". */
  function Shape(f: Fetched): (r: Option<VideoRecord>)
    ensures r.Some? <==> WellFormed(f.item)
    ensures r.Some? ==> r.value.Detail? && r.value.addList.None?
    ensures r.Some? ==> r.value.id == f.item.id.value && r.value.requestTime == f.at
    ensures r.Some? ==> r.value.viewCount == f.item.statistics.value.viewCount.GetOr("0")
    ensures r.Some? ==> && r.value.title == f.item.title.value
                        && r.value.upload == f.item.publishedAt.value
                        && r.value.duration == f.item.duration.value
                        && r.value.channelId == f.item.channelId.value
                        && r.value.channelName == f.item.channelTitle.value
  {
    var it := f.item;
    if !WellFormed(it) then None
    else Some(Detail(it.id.value, it.title.value, it.publishedAt.value, it.duration.value,
                     it.statistics.value.viewCount.GetOr("0"), it.channelId.value,
                     it.channelTitle.value, f.at, None))
  }

  /** The records an answered request contributes: items are appended one by one
      inside the `try`, so a malformed item ends the request's contribution but
      keeps the records appended before it. */
  function ShapeAll(fs: seq<Fetched>): (rs: seq<VideoRecord>)
    ensures |rs| <= |fs|
    ensures forall k :: 0 <= k < |rs| ==> Shape(fs[k]) == Some(rs[k])
    ensures |rs| < |fs| ==> Shape(fs[|rs|]).None?
    decreases |fs|
  {
    if |fs| == 0 then []
    else match Shape(fs[0])
      case None => []
      case Some(r) => [r] + ShapeAll(fs[1..])
  }

  /** What one request adds to the detail list: nothing when it failed. */
  function Contribution(answer: Option<seq<Fetched>>): seq<VideoRecord> {
    match answer
    case None => []
    case Some(fs) => ShapeAll(fs)
  }

  /** The video-details endpoint: request number and IDs to an answer, or `None`
      when the call raised. */
  type Api = (nat, seq<string>) -> Option<seq<Fetched>>

  /** The records gathered from the first `n` requests. */
  function Gathered(bs: seq<seq<string>>, api: Api, n: nat): seq<VideoRecord>
    requires n <= |bs|
  {
    if n == 0 then [] else Gathered(bs, api, n - 1) + Contribution(api(n - 1, bs[n - 1]))
  }

  /** All records fetched for `ids`. */
  function Collected(ids: seq<string>, api: Api): seq<VideoRecord> {
    Gathered(Batches(ids), api, |Batches(ids)|)
  }

  /** Request `k` exists exactly when its first position
      `i == k * MaxRequestItem` is inside the list, and it starts there. */
  lemma BatchStart<T>(ids: seq<T>, k: nat, i: nat)
    requires i == k * MaxRequestItem
    ensures k < |Batches(ids)| <==> i < |ids|
    ensures k < |Batches(ids)| ==> Batches(ids)[k] == ids[i .. Min(i + MaxRequestItem, |ids|)]
  {
  }

  /** Gathering one more request appends that request's contribution. */
  lemma GatherStep(ids: seq<string>, api: Api, k: nat, i: nat)
    requires i == k * MaxRequestItem && i < |ids|
    ensures k < |Batches(ids)|
    ensures Gathered(Batches(ids), api, k + 1) ==
              Gathered(Batches(ids), api, k) + Contribution(api(k, ids[i .. Min(i + MaxRequestItem, |ids|)]))
  {
    BatchStart(ids, k, i);
  }

  /** The fetch loop as written: `for i in range(0, len(ids), MaxRequestItem)`. */
  method FetchDetails(ids: seq<string>, api: Api) returns (details: seq<VideoRecord>)
    ensures details == Collected(ids, api)
  {
    ghost var bs := Batches(ids);
    details := [];
    var i := 0;
    var k := 0;
    BatchStart(ids, 0, 0);
    while i < |ids|
      invariant i == k * MaxRequestItem && k <= |bs|
      invariant k < |bs| <==> i < |ids|
      invariant details == Gathered(bs, api, k)
    {
      GatherStep(ids, api, k, i);
      details := details + Contribution(api(k, ids[i .. Min(i + MaxRequestItem, |ids|)]));
      i := i + MaxRequestItem;
      k := k + 1;
      BatchStart(ids, k, i);
    }
  }

  /** Every fetched record is a detail record without an "addList". */
  lemma {:induction false} GatheredAreDetails(bs: seq<seq<string>>, api: Api, n: nat)
    requires n <= |bs|
    ensures forall r :: r in Gathered(bs, api, n) ==> r.Detail? && r.addList.None?
  {
    if n > 0 {
      GatheredAreDetails(bs, api, n - 1);
      ContributionAreDetails(api(n - 1, bs[n - 1]));
    }
  }

  /** Every record a request contributes is a detail record without an "addList". */
  lemma ContributionAreDetails(answer: Option<seq<Fetched>>)
    ensures forall r :: r in Contribution(answer) ==> r.Detail? && r.addList.None?
  {
    if answer.Some? {
      var c := ShapeAll(answer.value);
      forall k | 0 <= k < |c| ensures c[k].Detail? && c[k].addList.None? {
        assert Shape(answer.value[k]) == Some(c[k]);
      }
    }
  }

  /** A failed request is the same as an empty answer: an oracle that answers
      request `j` with no items and every other request as `api` does gathers
      the same records. */
  lemma {:induction false} FailedRequestIsSkipped(bs: seq<seq<string>>, api: Api, other: Api, j: nat, n: nat)
    requires n <= |bs| && j < |bs| && api(j, bs[j]) == None && other(j, bs[j]) == Some([])
    requires forall k :: 0 <= k < |bs| && k != j ==> other(k, bs[k]) == api(k, bs[k])
    ensures Gathered(bs, api, n) == Gathered(bs, other, n)
  {
    if n > 0 {
      FailedRequestIsSkipped(bs, api, other, j, n - 1);
      var mine, theirs := Contribution(api(n - 1, bs[n - 1])), Contribution(other(n - 1, bs[n - 1]));
      if n - 1 == j {
        assert mine == [] == theirs;
      } else {
        assert other(n - 1, bs[n - 1]) == api(n - 1, bs[n - 1]);
      }
      assert Gathered(bs, api, n) == Gathered(bs, api, n - 1) + mine;
      assert Gathered(bs, other, n) == Gathered(bs, other, n - 1) + theirs;
    }
  }

  /** When every request fails, nothing is fetched. */
  lemma {:induction false} AllFailedGathersNothing(bs: seq<seq<string>>, api: Api, n: nat)
    requires n <= |bs| && forall k :: 0 <= k < |bs| ==> api(k, bs[k]).None?
    ensures Gathered(bs, api, n) == []
  {
    if n > 0 {
      AllFailedGathersNothing(bs, api, n - 1);
    }
  }
}
