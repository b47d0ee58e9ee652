/** The merge step of the playlist worker: each membership entry is joined into
    the first detail record with the same video ID, and memberships with no such
    record become stub records appended to the list being scanned. */
module Reconciler {
  import opened Wrappers
  import opened Records

  /** The position of the first record whose ID is `id`. */
  function FindId<Id(==)>(rs: seq<Record<Id>>, id: Id): (k: Option<nat>)
    ensures k.Some? ==> k.value < |rs| && rs[k.value].id == id
    ensures k.Some? ==> forall j :: 0 <= j < k.value ==> rs[j].id != id
    ensures k.None? <==> forall j :: 0 <= j < |rs| ==> rs[j].id != id
  {
    if |rs| == 0 then None
    else if rs[0].id == id then Some(0)
    else match FindId(rs[1..], id)
      case None => None
      case Some(j) => Some(j + 1)
  }

  /** One pass of the outer loop for membership `m`; `t` is the clock reading
      a new stub would get. The flag is only raised inside the scan, so over an
      empty list nothing happens. */
  function Merge<Id(==)>(out: seq<Record<Id>>, m: Membership<Id>, t: Instant): seq<Record<Id>> {
    if |out| == 0 then out
    else match FindId(out, m.videoId)
      case Some(k) => out[k := out[k].WithAddList(m.addList)]
      case None => out + [Stub(m.videoId, t, Some(m.addList))]
  }

  /** A membership whose ID the list first carries at `k` updates that record. */
  lemma MergeAt<Id>(out: seq<Record<Id>>, m: Membership<Id>, t: Instant, k: nat)
    requires FindId(out, m.videoId) == Some(k)
    ensures Merge(out, m, t) == out[k := out[k].WithAddList(m.addList)]
  {
  }

  /** A membership whose ID a non-empty list lacks appends a stub. */
  lemma MergeAppends<Id>(out: seq<Record<Id>>, m: Membership<Id>, t: Instant)
    requires |out| > 0 && FindId(out, m.videoId).None?
    ensures Merge(out, m, t) == out + [Stub(m.videoId, t, Some(m.addList))]
  {
  }

  /** Two records that differ at most in their "addList" key. */
  predicate SameButAddList<Id(==)>(a: Record<Id>, b: Record<Id>) {
    a.(addList := None) == b.(addList := None)
  }

  /** The merge loop over all memberships; `clock(i)` is the reading taken when
      membership `i` creates a stub. */
  function Reconcile<Id(==)>(ms: seq<Membership<Id>>, ds: seq<Record<Id>>, clock: nat -> Instant): (out: seq<Record<Id>>)
    ensures |ds| == 0 ==> out == []
    ensures |ds| <= |out| <= |ds| + |ms|
    ensures forall k :: 0 <= k < |ds| ==> SameButAddList(out[k], ds[k])
    ensures forall k :: |ds| <= k < |out| ==> out[k].Stub? && out[k].addList.Some?
    decreases |ms|
  {
    if |ms| == 0 then ds
    else Merge(Reconcile(ms[..|ms| - 1], ds, clock), ms[|ms| - 1], clock(|ms| - 1))
  }

  /** The merge loop written as in the source: one scan per membership,
      appending to the list that is being scanned. */
  method ReconcileLoop<Id(==)>(ms: seq<Membership<Id>>, ds: seq<Record<Id>>, clock: nat -> Instant)
    returns (out: seq<Record<Id>>)
    ensures out == Reconcile(ms, ds, clock)
  {
    out := ds;
    var i := 0;
    while i < |ms|
      invariant 0 <= i <= |ms|
      invariant out == Reconcile(ms[..i], ds, clock)
    {
      out := MergePass(out, ms[i], clock(i));
      ReconcileStep(ms, ds, clock, i);
      i := i + 1;
    }
    assert ms[..|ms|] == ms;
  }

  /** One pass of the outer loop as written: a scan with a flag and a `break`.
      The flag is raised by every mismatch and lowered by the match, so it is
      up after the scan exactly when the list was non-empty and held no match. */
  method MergePass<Id(==)>(out: seq<Record<Id>>, m: Membership<Id>, t: Instant) returns (merged: seq<Record<Id>>)
    ensures merged == Merge(out, m, t)
  {
    merged := out;
    var flag := false;
    var j := 0;
    while j < |merged|
      invariant 0 <= j <= |merged| && merged == out
      invariant forall k :: 0 <= k < j ==> out[k].id != m.videoId
      invariant flag <==> j > 0
    {
      if m.videoId == merged[j].id {
        flag := false;
        FindIdIs(out, m.videoId, j);
        MergeAt(out, m, t, j);
        merged := merged[j := merged[j].WithAddList(m.addList)];
        break;
      } else {
        flag := true;
      }
      j := j + 1;
    }
    if flag {
      MergeAppends(out, m, t);
      merged := merged + [Stub(m.videoId, t, Some(m.addList))];
    }
  }

  /** The merge after one more membership is one more pass of the outer loop. */
  lemma ReconcileStep<Id>(ms: seq<Membership<Id>>, ds: seq<Record<Id>>, clock: nat -> Instant, i: nat)
    requires i < |ms|
    ensures Reconcile(ms[..i + 1], ds, clock) == Merge(Reconcile(ms[..i], ds, clock), ms[i], clock(i))
  {
    var q := ms[..i + 1];
    assert q[..|q| - 1] == ms[..i];
    assert q[|q| - 1] == ms[i];
  }

  // ---------------------------------------------------------------------
  // A reference description of the merged list, position by position.

  /** The position of the LAST membership naming `id`, if any names it. */
  function LastMention<Id(==)>(ms: seq<Membership<Id>>, id: Id): (i: Option<nat>)
    ensures i.Some? ==> i.value < |ms| && ms[i.value].videoId == id
    ensures i.Some? ==> forall j :: i.value < j < |ms| ==> ms[j].videoId != id
    ensures i.None? <==> forall j :: 0 <= j < |ms| ==> ms[j].videoId != id
    decreases |ms|
  {
    if |ms| == 0 then None
    else if ms[|ms| - 1].videoId == id then Some(|ms| - 1)
    else LastMention(ms[..|ms| - 1], id)
  }

  /** Whether some membership names `id`. */
  predicate Mentioned<Id(==)>(ms: seq<Membership<Id>>, id: Id) {
    LastMention(ms, id).Some?
  }

  /** The "addList" of the last membership naming `id`. */
  function LastAddList<Id(==)>(ms: seq<Membership<Id>>, id: Id): Option<string> {
    match LastMention(ms, id)
    case Some(i) => Some(ms[i].addList)
    case None => None
  }

  /** The memberships that create a stub: the first mention of each ID that no
      detail record carries, as indices into `ms`, in membership order. */
  function NewIds<Id(==)>(ms: seq<Membership<Id>>, ds: seq<Record<Id>>): (ni: seq<nat>)
    ensures forall s :: 0 <= s < |ni| ==> ni[s] < |ms|
    ensures forall s, t :: 0 <= s < t < |ni| ==> ni[s] < ni[t]
    decreases |ms|
  {
    if |ms| == 0 then []
    else
      var n := |ms| - 1;
      var p := ms[..n];
      NewIds(p, ds)
        + (if FindId(ds, ms[n].videoId).None? && !Mentioned(p, ms[n].videoId) then [n] else [])
  }

  /** Every membership that is named by `ms[..n]` stays named by `ms`, and
      a membership's own ID is named. */
  lemma MentionedPrefix<Id>(ms: seq<Membership<Id>>, n: nat, i: nat)
    requires i < n <= |ms|
    ensures Mentioned(ms[..n], ms[i].videoId)
  {
    assert ms[..n][i] == ms[i];
  }

  /** The stub-creating memberships name IDs that no detail record has. */
  lemma {:induction false} NewIdsUnmatched<Id>(ms: seq<Membership<Id>>, ds: seq<Record<Id>>)
    ensures forall s :: 0 <= s < |NewIds(ms, ds)| ==> FindId(ds, ms[NewIds(ms, ds)[s]].videoId).None?
    decreases |ms|
  {
    if |ms| > 0 {
      var n := |ms| - 1;
      var p := ms[..n];
      NewIdsUnmatched(p, ds);
      var nip := NewIds(p, ds);
      var ni := NewIds(ms, ds);
      var isNew := FindId(ds, ms[n].videoId).None? && !Mentioned(p, ms[n].videoId);
      assert ni == nip + (if isNew then [n] else []);
      forall s | 0 <= s < |ni| ensures FindId(ds, ms[ni[s]].videoId).None? {
        if s < |nip| {
          assert ni[s] == nip[s];
          assert nip[s] < |p|;
          assert ms[nip[s]] == p[nip[s]];
          assert FindId(ds, p[nip[s]].videoId).None?;
        } else {
          assert isNew && ni[s] == n;
        }
      }
    }
  }

  /** The stub-creating memberships name pairwise different IDs. */
  lemma {:induction false} NewIdsDistinct<Id>(ms: seq<Membership<Id>>, ds: seq<Record<Id>>)
    ensures forall s, t :: 0 <= s < t < |NewIds(ms, ds)| ==>
              ms[NewIds(ms, ds)[s]].videoId != ms[NewIds(ms, ds)[t]].videoId
    decreases |ms|
  {
    if |ms| > 0 {
      var n := |ms| - 1;
      var p := ms[..n];
      NewIdsDistinct(p, ds);
      var nip := NewIds(p, ds);
      var ni := NewIds(ms, ds);
      var isNew := FindId(ds, ms[n].videoId).None? && !Mentioned(p, ms[n].videoId);
      assert ni == nip + (if isNew then [n] else []);
      forall s, t | 0 <= s < t < |ni| ensures ms[ni[s]].videoId != ms[ni[t]].videoId {
        assert ni[s] == nip[s] && ms[nip[s]] == p[nip[s]];
        if t == |nip| {
          assert isNew && ni[t] == n;
          MentionedPrefix(ms, n, ni[s]);
        } else {
          assert ni[t] == nip[t] && ms[nip[t]] == p[nip[t]];
        }
      }
    }
  }

  /** One instance of `NewIdsDistinct`. */
  lemma NewIdsDistinctAt<Id>(ms: seq<Membership<Id>>, ds: seq<Record<Id>>, s: nat, t: nat)
    requires s < |NewIds(ms, ds)| && t < |NewIds(ms, ds)| && s != t
    ensures ms[NewIds(ms, ds)[s]].videoId != ms[NewIds(ms, ds)[t]].videoId
  {
    NewIdsDistinct(ms, ds);
    if t < s {
      assert ms[NewIds(ms, ds)[t]].videoId != ms[NewIds(ms, ds)[s]].videoId;
    }
  }

  /** Every ID that some membership names and no detail record has is named by
      a stub-creating membership. */
  lemma {:induction false} NewIdsComplete<Id>(ms: seq<Membership<Id>>, ds: seq<Record<Id>>, id: Id) returns (s: nat)
    requires Mentioned(ms, id) && FindId(ds, id).None?
    ensures s < |NewIds(ms, ds)| && ms[NewIds(ms, ds)[s]].videoId == id
    decreases |ms|
  {
    var n := |ms| - 1;
    var p := ms[..n];
    var nip := NewIds(p, ds);
    var ni := NewIds(ms, ds);
    if id == ms[n].videoId && !Mentioned(p, id) {
      s := |nip|;
      assert ms[ni[s]].videoId == id;
    } else {
      assert Mentioned(p, id);
      s := NewIdsComplete(p, ds, id);
      assert ni[s] == nip[s];
      assert ms[ni[s]].videoId == id;
    }
  }


  /** Detail record `k` after the merge: only the first record with its ID can
      gain an "addList", taken from the last membership naming that ID. */
  function Annotated<Id(==)>(ds: seq<Record<Id>>, ms: seq<Membership<Id>>, k: nat): Record<Id>
    requires k < |ds|
  {
    var last := LastAddList(ms, ds[k].id);
    if FindId(ds, ds[k].id) == Some(k) && last.Some? then ds[k].WithAddList(last.value) else ds[k]
  }

  /** The stub created by membership `i`, carrying the last "addList" given for its ID. */
  function StubFor<Id(==)>(ms: seq<Membership<Id>>, i: nat, clock: nat -> Instant): Record<Id>
    requires i < |ms|
  {
    Stub(ms[i].videoId, clock(i), LastAddList(ms, ms[i].videoId))
  }

  /** What the merge loop produces, described without the loop: nothing when no
      detail record arrived; otherwise every detail record in place, followed by
      one stub per unmatched ID. */
  function Expected<Id(==)>(ms: seq<Membership<Id>>, ds: seq<Record<Id>>, clock: nat -> Instant): seq<Record<Id>> {
    if |ds| == 0 then []
    else
      var ni := NewIds(ms, ds);
      seq(|ds|, k requires 0 <= k < |ds| => Annotated(ds, ms, k))
        + seq(|ni|, s requires 0 <= s < |ni| => StubFor(ms, ni[s], clock))
  }

  /** The first match is the position that matches with nothing before it. */
  lemma FindIdIs<Id>(rs: seq<Record<Id>>, id: Id, k: nat)
    requires k < |rs| && rs[k].id == id
    requires forall j :: 0 <= j < k ==> rs[j].id != id
    ensures FindId(rs, id) == Some(k)
  {
  }

  /** The last "addList" for `y` after one more membership. */
  lemma LastAddListStep<Id>(ms: seq<Membership<Id>>, y: Id)
    requires |ms| > 0
    ensures LastAddList(ms, y) ==
              if y == ms[|ms| - 1].videoId then Some(ms[|ms| - 1].addList)
              else LastAddList(ms[..|ms| - 1], y)
  {
    var p := ms[..|ms| - 1];
    if y != ms[|ms| - 1].videoId && LastMention(p, y).Some? {
      assert p[LastMention(p, y).value] == ms[LastMention(p, y).value];
    }
  }

  /** Detail record `j` as described after one more membership. */
  lemma AnnotatedStep<Id>(ms: seq<Membership<Id>>, ds: seq<Record<Id>>, j: nat)
    requires |ms| > 0 && j < |ds|
    ensures Annotated(ds, ms, j) ==
              if FindId(ds, ms[|ms| - 1].videoId) == Some(j)
              then Annotated(ds, ms[..|ms| - 1], j).WithAddList(ms[|ms| - 1].addList)
              else Annotated(ds, ms[..|ms| - 1], j)
  {
    LastAddListStep(ms, ds[j].id);
  }

  /** The stub of membership `i` as described after one more membership. */
  lemma StubForStep<Id>(ms: seq<Membership<Id>>, i: nat, clock: nat -> Instant)
    requires i < |ms| - 1
    ensures StubFor(ms, i, clock) ==
              if ms[i].videoId == ms[|ms| - 1].videoId
              then StubFor(ms[..|ms| - 1], i, clock).WithAddList(ms[|ms| - 1].addList)
              else StubFor(ms[..|ms| - 1], i, clock)
  {
    var p := ms[..|ms| - 1];
    assert p[i] == ms[i];
    MentionedPrefix(ms, |ms| - 1, i);
    LastAddListStep(ms, ms[i].videoId);
  }

  /** `out` is, position by position, the list `Expected` describes. */
  predicate Described<Id(==)>(out: seq<Record<Id>>, ms: seq<Membership<Id>>, ds: seq<Record<Id>>, clock: nat -> Instant) {
    && |out| == |ds| + |NewIds(ms, ds)|
    && (forall k :: 0 <= k < |ds| ==> out[k] == Annotated(ds, ms, k))
    && (forall s :: 0 <= s < |NewIds(ms, ds)| ==> out[|ds| + s] == StubFor(ms, NewIds(ms, ds)[s], clock))
  }

  /** A membership whose ID a detail record carries updates that record only. */
  lemma {:induction false} MergeIntoDetail<Id>(ms: seq<Membership<Id>>, ds: seq<Record<Id>>, clock: nat -> Instant,
                                                out: seq<Record<Id>>, k: nat)
    requires |ms| > 0 && FindId(ds, ms[|ms| - 1].videoId) == Some(k)
    requires Described(out, ms[..|ms| - 1], ds, clock)
    ensures Described(Merge(out, ms[|ms| - 1], clock(|ms| - 1)), ms, ds, clock)
  {
    var n := |ms| - 1;
    var p := ms[..n];
    var x := ms[n].videoId;
    var nip := NewIds(p, ds);
    NewIdsUnmatched(p, ds);
    assert NewIds(ms, ds) == nip;
    forall j | 0 <= j < k ensures out[j].id != x {
      assert out[j] == Annotated(ds, p, j);
    }
    assert out[k] == Annotated(ds, p, k);
    FindIdIs(out, x, k);
    var merged := Merge(out, ms[|ms| - 1], clock(|ms| - 1));
    MergeAt(out, ms[|ms| - 1], clock(|ms| - 1), k);
    forall j | 0 <= j < |ds| ensures merged[j] == Annotated(ds, ms, j) {
      AnnotatedStep(ms, ds, j);
    }
    forall s | 0 <= s < |nip| ensures merged[|ds| + s] == StubFor(ms, nip[s], clock) {
      StubForStep(ms, nip[s], clock);
    }
  }

  /** In a described list, the first record carrying a stub's ID is that stub. */
  lemma StubFound<Id>(ms: seq<Membership<Id>>, ds: seq<Record<Id>>, clock: nat -> Instant,
                      out: seq<Record<Id>>, s: nat)
    requires Described(out, ms, ds, clock) && s < |NewIds(ms, ds)|
    ensures FindId(out, ms[NewIds(ms, ds)[s]].videoId) == Some(|ds| + s)
  {
    var ni := NewIds(ms, ds);
    var x := ms[ni[s]].videoId;
    NewIdsUnmatched(ms, ds);
    forall j | 0 <= j < |ds| + s ensures out[j].id != x {
      if j < |ds| {
        assert out[j] == Annotated(ds, ms, j);
      } else {
        NewIdsDistinctAt(ms, ds, j - |ds|, s);
        assert out[j] == StubFor(ms, ni[j - |ds|], clock);
      }
    }
    assert out[|ds| + s] == StubFor(ms, ni[s], clock);
    FindIdIs(out, x, |ds| + s);
  }

  /** When the new membership's ID is carried only by an earlier stub, that
      stub sits in slot `s` and no new stub is created. */
  lemma StubSlot<Id>(ms: seq<Membership<Id>>, ds: seq<Record<Id>>, clock: nat -> Instant,
                     out: seq<Record<Id>>) returns (s: nat)
    requires |ms| > 0
    requires FindId(ds, ms[|ms| - 1].videoId).None? && Mentioned(ms[..|ms| - 1], ms[|ms| - 1].videoId)
    requires Described(out, ms[..|ms| - 1], ds, clock)
    ensures NewIds(ms, ds) == NewIds(ms[..|ms| - 1], ds)
    ensures s < |NewIds(ms, ds)| && ms[NewIds(ms, ds)[s]].videoId == ms[|ms| - 1].videoId
    ensures FindId(out, ms[|ms| - 1].videoId) == Some(|ds| + s)
  {
    var n := |ms| - 1;
    var p := ms[..n];
    var x := ms[n].videoId;
    var nip := NewIds(p, ds);
    s := NewIdsComplete(p, ds, x);
    assert NewIds(ms, ds) == nip;
    StubFound(p, ds, clock, out, s);
    assert ms[nip[s]] == p[nip[s]];
  }

  /** Giving the stub of slot `s` the new membership's "addList" describes the
      list after that membership. */
  lemma {:induction false} UpdateStub<Id>(ms: seq<Membership<Id>>, ds: seq<Record<Id>>, clock: nat -> Instant,
                                           out: seq<Record<Id>>, s: nat)
    requires |ms| > 0
    requires Described(out, ms[..|ms| - 1], ds, clock)
    requires NewIds(ms, ds) == NewIds(ms[..|ms| - 1], ds)
    requires s < |NewIds(ms, ds)| && ms[NewIds(ms, ds)[s]].videoId == ms[|ms| - 1].videoId
    requires FindId(out, ms[|ms| - 1].videoId) == Some(|ds| + s)
    ensures Described(Merge(out, ms[|ms| - 1], clock(|ms| - 1)), ms, ds, clock)
  {
    UpdateStubKeepsDetails(ms, ds, clock, out, s);
    UpdateStubSetsStubs(ms, ds, clock, out, s);
  }

  /** The detail records are untouched by a stub update. */
  lemma UpdateStubKeepsDetails<Id>(ms: seq<Membership<Id>>, ds: seq<Record<Id>>, clock: nat -> Instant,
                                   out: seq<Record<Id>>, s: nat)
    requires |ms| > 0
    requires Described(out, ms[..|ms| - 1], ds, clock)
    requires NewIds(ms, ds) == NewIds(ms[..|ms| - 1], ds)
    requires s < |NewIds(ms, ds)| && ms[NewIds(ms, ds)[s]].videoId == ms[|ms| - 1].videoId
    requires FindId(out, ms[|ms| - 1].videoId) == Some(|ds| + s)
    ensures forall j :: 0 <= j < |ds| ==> Merge(out, ms[|ms| - 1], clock(|ms| - 1))[j] == Annotated(ds, ms, j)
  {
    var merged := Merge(out, ms[|ms| - 1], clock(|ms| - 1));
    MergeAt(out, ms[|ms| - 1], clock(|ms| - 1), |ds| + s);
    forall j | 0 <= j < |ds| ensures merged[j] == Annotated(ds, ms, j) {
      NewIdsUnmatched(ms, ds);
      AnnotatedStep(ms, ds, j);
    }
  }

  /** After a stub update every stub is the one its slot describes. */
  lemma UpdateStubSetsStubs<Id>(ms: seq<Membership<Id>>, ds: seq<Record<Id>>, clock: nat -> Instant,
                                out: seq<Record<Id>>, s: nat)
    requires |ms| > 0
    requires Described(out, ms[..|ms| - 1], ds, clock)
    requires NewIds(ms, ds) == NewIds(ms[..|ms| - 1], ds)
    requires s < |NewIds(ms, ds)| && ms[NewIds(ms, ds)[s]].videoId == ms[|ms| - 1].videoId
    requires FindId(out, ms[|ms| - 1].videoId) == Some(|ds| + s)
    ensures forall t :: 0 <= t < |NewIds(ms, ds)| ==>
              Merge(out, ms[|ms| - 1], clock(|ms| - 1))[|ds| + t] == StubFor(ms, NewIds(ms, ds)[t], clock)
  {
    var merged := Merge(out, ms[|ms| - 1], clock(|ms| - 1));
    MergeAt(out, ms[|ms| - 1], clock(|ms| - 1), |ds| + s);
    var ni := NewIds(ms, ds);
    forall t | 0 <= t < |ni| ensures merged[|ds| + t] == StubFor(ms, ni[t], clock) {
      StubForStep(ms, ni[t], clock);
      if t != s {
        NewIdsDistinctAt(ms, ds, t, s);
      }
    }
  }

  /** A membership whose ID only an earlier stub carries updates that stub only. */
  lemma {:induction false} MergeIntoStub<Id>(ms: seq<Membership<Id>>, ds: seq<Record<Id>>, clock: nat -> Instant,
                                              out: seq<Record<Id>>)
    requires |ms| > 0
    requires FindId(ds, ms[|ms| - 1].videoId).None? && Mentioned(ms[..|ms| - 1], ms[|ms| - 1].videoId)
    requires Described(out, ms[..|ms| - 1], ds, clock)
    ensures Described(Merge(out, ms[|ms| - 1], clock(|ms| - 1)), ms, ds, clock)
  {
    var s := StubSlot(ms, ds, clock, out);
    UpdateStub(ms, ds, clock, out, s);
  }

  /** A membership whose ID nothing carries yet appends one stub. */
  lemma {:induction false} MergeNewStub<Id>(ms: seq<Membership<Id>>, ds: seq<Record<Id>>, clock: nat -> Instant,
                                             out: seq<Record<Id>>)
    requires |ms| > 0 && |ds| > 0
    requires FindId(ds, ms[|ms| - 1].videoId).None? && !Mentioned(ms[..|ms| - 1], ms[|ms| - 1].videoId)
    requires Described(out, ms[..|ms| - 1], ds, clock)
    ensures Described(Merge(out, ms[|ms| - 1], clock(|ms| - 1)), ms, ds, clock)
  {
    var n := |ms| - 1;
    var p := ms[..n];
    var x := ms[n].videoId;
    var nip := NewIds(p, ds);
    assert NewIds(ms, ds) == nip + [n];
    forall j | 0 <= j < |out| ensures out[j].id != x {
      if j < |ds| {
        assert out[j] == Annotated(ds, p, j);
      } else {
        assert out[j] == StubFor(p, nip[j - |ds|], clock);
        MentionedPrefix(ms, n, nip[j - |ds|]);
      }
    }
    var merged := Merge(out, ms[|ms| - 1], clock(|ms| - 1));
    assert FindId(out, x).None?;
    MergeAppends(out, ms[|ms| - 1], clock(|ms| - 1));
    forall j | 0 <= j < |ds| ensures merged[j] == Annotated(ds, ms, j) {
      AnnotatedStep(ms, ds, j);
    }
    forall t | 0 <= t < |nip| ensures merged[|ds| + t] == StubFor(ms, nip[t], clock) {
      MentionedPrefix(ms, n, nip[t]);
      StubForStep(ms, nip[t], clock);
    }
    LastAddListStep(ms, x);
  }

  /** The merge loop's result is described position by position. */
  lemma {:induction false} ReconcileDescribed<Id>(ms: seq<Membership<Id>>, ds: seq<Record<Id>>, clock: nat -> Instant)
    requires |ds| > 0
    ensures Described(Reconcile(ms, ds, clock), ms, ds, clock)
    decreases |ms|
  {
    if |ms| > 0 {
      var n := |ms| - 1;
      var out := Reconcile(ms[..n], ds, clock);
      assert Reconcile(ms, ds, clock) == Merge(out, ms[|ms| - 1], clock(|ms| - 1));
      ReconcileDescribed(ms[..n], ds, clock);
      match FindId(ds, ms[n].videoId)
      case Some(k) => MergeIntoDetail(ms, ds, clock, out, k);
      case None =>
        if Mentioned(ms[..n], ms[n].videoId) {
          MergeIntoStub(ms, ds, clock, out);
        } else {
          MergeNewStub(ms, ds, clock, out);
        }
    }
  }

  /** The merge loop produces exactly the described list, for all inputs. */
  lemma ReconcileIsExpected<Id>(ms: seq<Membership<Id>>, ds: seq<Record<Id>>, clock: nat -> Instant)
    ensures Reconcile(ms, ds, clock) == Expected(ms, ds, clock)
  {
    if |ds| > 0 {
      ReconcileDescribed(ms, ds, clock);
      var out := Reconcile(ms, ds, clock);
      var e := Expected(ms, ds, clock);
      assert |out| == |e|;
      forall j | 0 <= j < |out| ensures out[j] == e[j] {
        if j >= |ds| {
          assert out[|ds| + (j - |ds|)] == StubFor(ms, NewIds(ms, ds)[j - |ds|], clock);
        }
      }
    }
  }

  /** Position `j < |ds|` of the merged list is detail record `j`, annotated. */
  lemma {:induction false} DetailAt<Id>(ms: seq<Membership<Id>>, ds: seq<Record<Id>>, clock: nat -> Instant, j: nat)
    requires j < |ds|
    ensures j < |Reconcile(ms, ds, clock)| && Reconcile(ms, ds, clock)[j] == Annotated(ds, ms, j)
  {
    ReconcileDescribed(ms, ds, clock);
  }

  /** Position `a >= |ds|` of the merged list is the stub of slot `a - |ds|`. */
  lemma StubAt<Id>(ms: seq<Membership<Id>>, ds: seq<Record<Id>>, clock: nat -> Instant, a: nat)
    requires |ds| <= a < |Reconcile(ms, ds, clock)|
    ensures a - |ds| < |NewIds(ms, ds)|
    ensures Reconcile(ms, ds, clock)[a] == StubFor(ms, NewIds(ms, ds)[a - |ds|], clock)
  {
    ReconcileDescribed(ms, ds, clock);
    var out := Reconcile(ms, ds, clock);
    assert out[|ds| + (a - |ds|)] == StubFor(ms, NewIds(ms, ds)[a - |ds|], clock);
  }

  /** Only the first detail record with a given ID can gain an "addList", and
      it gains the one given by the last membership naming that ID; every other
      detail record keeps what it had. */
  lemma DetailAddList<Id>(ms: seq<Membership<Id>>, ds: seq<Record<Id>>, clock: nat -> Instant, k: nat)
    requires k < |ds|
    ensures Reconcile(ms, ds, clock)[k].addList ==
              if FindId(ds, ds[k].id) == Some(k) && Mentioned(ms, ds[k].id)
              then LastAddList(ms, ds[k].id) else ds[k].addList
  {
    DetailAt(ms, ds, clock, k);
  }

  /** The stub of slot `s` is the first record of the merged list carrying its video. */
  lemma StubIsFirst<Id>(ms: seq<Membership<Id>>, ds: seq<Record<Id>>, clock: nat -> Instant, s: nat)
    requires |ds| > 0 && s < |NewIds(ms, ds)|
    ensures FindId(Reconcile(ms, ds, clock), ms[NewIds(ms, ds)[s]].videoId) == Some(|ds| + s)
  {
    var out := Reconcile(ms, ds, clock);
    var ni := NewIds(ms, ds);
    var x := ms[ni[s]].videoId;
    ReconcileDescribed(ms, ds, clock);
    StubFound(ms, ds, clock, out, s);
  }

  /** A membership matched by detail record `k` is carried first by record `k`. */
  lemma CoveredByDetail<Id>(ms: seq<Membership<Id>>, ds: seq<Record<Id>>, clock: nat -> Instant, i: nat, k: nat)
    requires i < |ms| && FindId(ds, ms[i].videoId) == Some(k)
    ensures FindId(Reconcile(ms, ds, clock), ms[i].videoId) == Some(k)
    ensures Reconcile(ms, ds, clock)[k].addList == LastAddList(ms, ms[i].videoId)
  {
    var out := Reconcile(ms, ds, clock);
    var x := ms[i].videoId;
    assert Mentioned(ms, x);
    forall j | 0 <= j < k ensures out[j].id != x {
      DetailAt(ms, ds, clock, j);
    }
    DetailAt(ms, ds, clock, k);
    FindIdIs(out, x, k);
  }

  /** A membership no detail record matches is carried first by its stub. */
  lemma CoveredByStub<Id>(ms: seq<Membership<Id>>, ds: seq<Record<Id>>, clock: nat -> Instant, i: nat) returns (a: nat)
    requires |ds| > 0 && i < |ms| && FindId(ds, ms[i].videoId).None?
    ensures FindId(Reconcile(ms, ds, clock), ms[i].videoId) == Some(a)
    ensures a < |Reconcile(ms, ds, clock)| && Reconcile(ms, ds, clock)[a].addList == LastAddList(ms, ms[i].videoId)
  {
    var x := ms[i].videoId;
    assert Mentioned(ms, x);
    var s := NewIdsComplete(ms, ds, x);
    a := |ds| + s;
    StubIsFirst(ms, ds, clock, s);
    StubAt(ms, ds, clock, a);
    assert a - |ds| == s;
    assert Reconcile(ms, ds, clock)[a].addList == LastAddList(ms, x);
  }

  /** With at least one detail record, every membership's video is carried by
      the merged list, and the first record carrying it holds the "addList" of
      the last membership naming it. */
  lemma MembershipCovered<Id>(ms: seq<Membership<Id>>, ds: seq<Record<Id>>, clock: nat -> Instant, i: nat) returns (k: nat)
    requires |ds| > 0 && i < |ms|
    ensures FindId(Reconcile(ms, ds, clock), ms[i].videoId) == Some(k)
    ensures k < |Reconcile(ms, ds, clock)| && Reconcile(ms, ds, clock)[k].addList == LastAddList(ms, ms[i].videoId)
  {
    match FindId(ds, ms[i].videoId)
    case Some(j) =>
      CoveredByDetail(ms, ds, clock, i, j);
      k := j;
    case None =>
      k := CoveredByStub(ms, ds, clock, i);
  }

  /** Every stub is for a video that some membership names and no detail record
      carries, and no two stubs share a video: repeated unmatched IDs give one stub. */
  lemma {:induction false} StubsAreNew<Id>(ms: seq<Membership<Id>>, ds: seq<Record<Id>>, clock: nat -> Instant)
    ensures var out := Reconcile(ms, ds, clock);
            forall a :: |ds| <= a < |out| ==> FindId(ds, out[a].id).None? && Mentioned(ms, out[a].id)
    ensures var out := Reconcile(ms, ds, clock);
            forall a, b :: |ds| <= a < b < |out| ==> out[a].id != out[b].id
  {
    var out := Reconcile(ms, ds, clock);
    NewIdsUnmatched(ms, ds);
    forall a | |ds| <= a < |out| ensures FindId(ds, out[a].id).None? && Mentioned(ms, out[a].id) {
      StubAt(ms, ds, clock, a);
      assert ms[NewIds(ms, ds)[a - |ds|]].videoId == out[a].id;
    }
    forall a, b | |ds| <= a < b < |out| ensures out[a].id != out[b].id {
      StubAt(ms, ds, clock, a);
      StubAt(ms, ds, clock, b);
      NewIdsDistinctAt(ms, ds, a - |ds|, b - |ds|);
    }
  }

  /** Whether no two records of `rs` carry the same video. */
  predicate DistinctIds<Id(==)>(rs: seq<Record<Id>>) {
    forall a, b :: 0 <= a < b < |rs| ==> rs[a].id != rs[b].id
  }

  /** Two positions of the merged list carrying the same video are the same
      position, provided the detail records carried pairwise different videos. */
  lemma {:induction false} SameIdSamePlace<Id>(ms: seq<Membership<Id>>, ds: seq<Record<Id>>, clock: nat -> Instant, a: nat, b: nat)
    requires DistinctIds(ds) && a < b < |Reconcile(ms, ds, clock)|
    ensures Reconcile(ms, ds, clock)[a].id != Reconcile(ms, ds, clock)[b].id
  {
    var out := Reconcile(ms, ds, clock);
    if b < |ds| {
      assert SameButAddList(out[a], ds[a]) && SameButAddList(out[b], ds[b]);
      assert out[a].id == ds[a].id && out[b].id == ds[b].id;
    } else if a < |ds| {
      StubsAreNew(ms, ds, clock);
      assert SameButAddList(out[a], ds[a]);
      assert out[a].id == ds[a].id;
      assert FindId(ds, out[b].id).None?;
    } else {
      StubsAreNew(ms, ds, clock);
    }
  }

  /** Merging keeps the videos distinct: when the detail records carry
      pairwise different videos, so does the merged list. */
  lemma MergedIdsDistinct<Id>(ms: seq<Membership<Id>>, ds: seq<Record<Id>>, clock: nat -> Instant)
    requires DistinctIds(ds)
    ensures DistinctIds(Reconcile(ms, ds, clock))
  {
    forall a, b | 0 <= a < b < |Reconcile(ms, ds, clock)|
      ensures Reconcile(ms, ds, clock)[a].id != Reconcile(ms, ds, clock)[b].id
    {
      SameIdSamePlace(ms, ds, clock, a, b);
    }
  }

  /** With at least one detail record, all carrying different videos, every
      membership's video is carried by exactly one merged record, and that
      record holds the last "addList" given for the video. */
  lemma MembershipExactlyOnce<Id>(ms: seq<Membership<Id>>, ds: seq<Record<Id>>, clock: nat -> Instant, i: nat)
    returns (k: nat)
    requires |ds| > 0 && DistinctIds(ds) && i < |ms|
    ensures k < |Reconcile(ms, ds, clock)| && Reconcile(ms, ds, clock)[k].id == ms[i].videoId
    ensures Reconcile(ms, ds, clock)[k].addList == LastAddList(ms, ms[i].videoId)
    ensures forall j :: 0 <= j < |Reconcile(ms, ds, clock)| && Reconcile(ms, ds, clock)[j].id == ms[i].videoId ==> j == k
  {
    k := MembershipCovered(ms, ds, clock, i);
    MergedIdsDistinct(ms, ds, clock);
  }
}
