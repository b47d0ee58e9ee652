/** One playlist's run, end to end: read the memberships, fetch the details of
    their videos, merge the two, and save the result under a timestamped name.
    The outside world comes in as parameters: the file system as `files`, the
    remote playlist listing as `remote`, the details API as `api` (whose
    answers carry the clock reading each detail record stores), the clock
    readings of new stubs as `clock`, the save time as `now`, and whether a
    file of a given name can be created as `creatable`. */
module Worker {
  import opened Wrappers
  import opened Records
  import opened Reconciler
  import opened MembershipFile
  import opened DetailBatches
  import opened Naming
  import opened Exporter

  /** The remote playlist listing, already paged through. */
  type Remote = string -> seq<VideoMembership>

  /** The name the run saves to, and what the save left in that file. */
  datatype Outcome = Outcome(file: string, written: Written)

  /** The video IDs of the memberships, in order. */
  function VideoIds(ms: seq<VideoMembership>): (ids: seq<string>)
    ensures |ids| == |ms|
    ensures forall i :: 0 <= i < |ms| ==> ids[i] == ms[i].videoId
  {
    if |ms| == 0 then [] else VideoIds(ms[..|ms| - 1]) + [ms[|ms| - 1].videoId]
  }

  /** The memberships of a target: read from the file when it ends in ".csv",
      listed remotely otherwise. */
  function Memberships(target: string, files: string -> Option<Rows>, remote: Remote): seq<VideoMembership> {
    match Route(target)
    case FileOrigin(path) => ReadMembershipFile(files(path))
    case RemoteOrigin(id) => remote(id)
  }

  /** The run for one playlist named `name` whose target is `target`.
      `creatable` is whether the file system lets a file of a given name be
      created for writing. */
  function Run(name: string, target: string, files: string -> Option<Rows>, remote: Remote,
               api: Api, clock: nat -> Instant, now: DateTime, creatable: string -> bool): Outcome
    requires ValidDateTime(now)
  {
    var ms := Memberships(target, files, remote);
    var ds := Collected(VideoIds(ms), api);
    var f := OutputName(name, now);
    Outcome(f, Save(creatable(f), Reconcile(ms, ds, clock)))
  }

  /** Some merged record carries an "addList" when there is a membership and
      at least one detail record. */
  lemma SomeRecordAnnotated(ms: seq<VideoMembership>, ds: seq<VideoRecord>, clock: nat -> Instant)
    requires |ms| > 0 && |ds| > 0
    ensures exists i :: 0 <= i < |Reconcile(ms, ds, clock)| && Reconcile(ms, ds, clock)[i].addList.Some?
  {
    var out := Reconcile(ms, ds, clock);
    ReconcileIsExpected(ms, ds, clock);
    var x := ms[0].videoId;
    assert Mentioned(ms, x);
    match FindId(ds, x)
    case Some(k) =>
      assert out[k] == Annotated(ds, ms, k);
    case None =>
      var s := NewIdsComplete(ms, ds, x);
      assert out[|ds| + s] == StubFor(ms, NewIds(ms, ds)[s], clock);
  }

  /** Saving the merged list succeeds exactly when some detail record arrived
      and either there were no memberships or the first detail record's video
      is named by one: otherwise the first record's columns lack "addList"
      while a later record has it. */
  lemma ExportOfReconciled(ms: seq<VideoMembership>, ds: seq<VideoRecord>, clock: nat -> Instant)
    requires forall r :: r in ds ==> r.Detail? && r.addList.None?
    ensures Export(Reconcile(ms, ds, clock)).error.None? <==>
              |ds| > 0 && (|ms| == 0 || Mentioned(ms, ds[0].id))
  {
    var out := Reconcile(ms, ds, clock);
    if |ds| > 0 {
      ReconcileIsExpected(ms, ds, clock);
      assert out[0] == Annotated(ds, ms, 0);
      FindIdIs(ds, ds[0].id, 0);
      if |ms| == 0 {
        forall i | 0 <= i < |out| ensures Fits(out[i], Keys(out[0])) {
          assert out[i] == ds[i] && ds[i] in ds;
        }
      } else if Mentioned(ms, ds[0].id) {
        FullFirstRecordExports(out);
      } else {
        SomeRecordAnnotated(ms, ds, clock);
        var i :| 0 <= i < |out| && out[i].addList.Some?;
        AddListListed(out[i]);
        AddListListed(out[0]);
      }
    }
  }

  /** No membership means no video ID and so no detail record. */
  lemma NoMembershipsNoDetails(api: Api)
    ensures Collected(VideoIds([]), api) == []
  {
    assert Batches(VideoIds([])) == [];
  }

  /** A run's save succeeds exactly when the output file can be created, the
      details API returned at least one record, and the first of them is a
      video the playlist names. When the file cannot be created, nothing is
      written and no file exists. */
  lemma RunSucceeds(name: string, target: string, files: string -> Option<Rows>, remote: Remote,
                    api: Api, clock: nat -> Instant, now: DateTime, creatable: string -> bool)
    requires ValidDateTime(now)
    ensures var ms := Memberships(target, files, remote);
            var ds := Collected(VideoIds(ms), api);
            var w := Run(name, target, files, remote, api, clock, now, creatable).written;
            (w.error.None? <==> creatable(OutputName(name, now)) && |ds| > 0 && Mentioned(ms, ds[0].id))
            && (!creatable(OutputName(name, now)) ==> w == Written([], Some(OpenFailed)))
  {
    var ms := Memberships(target, files, remote);
    var ids := VideoIds(ms);
    var ds := Collected(ids, api);
    GatheredAreDetails(Batches(ids), api, |Batches(ids)|);
    ExportOfReconciled(ms, ds, clock);
    if |ms| == 0 {
      NoMembershipsNoDetails(api);
    }
  }

  /** When no detail record arrives, the save fails whatever the memberships
      were: on the first record, leaving an empty file, when the file could be
      created, and on the `open` otherwise, leaving no file. */
  lemma NoDetailsEmptyFile(name: string, target: string, files: string -> Option<Rows>, remote: Remote,
                           api: Api, clock: nat -> Instant, now: DateTime, creatable: string -> bool)
    requires ValidDateTime(now)
    requires Collected(VideoIds(Memberships(target, files, remote)), api) == []
    ensures Run(name, target, files, remote, api, clock, now, creatable).written ==
              Written([], Some(if creatable(OutputName(name, now)) then IndexError else OpenFailed))
  {
  }

  /** The file name is the playlist name and the run's timestamp, recoverable
      from it. */
  lemma RunFileName(name: string, target: string, files: string -> Option<Rows>, remote: Remote,
                    api: Api, clock: nat -> Instant, now: DateTime, creatable: string -> bool)
    requires ValidDateTime(now)
    ensures var f := Run(name, target, files, remote, api, clock, now, creatable).file;
            |f| >= NameTailWidth && SplitOutputName(f) == (name, Stamp(now)) && EndsWith(f, CsvSuffix)
  {
    OutputNameRoundTrip(name, now);
  }
}
