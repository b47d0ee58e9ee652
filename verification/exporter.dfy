/** Saving the merged records as CSV with a dictionary writer whose columns are
    the first record's keys (restval "", extrasaction "raise"). Quoting and
    encoding are not modelled: the file is its lines of cells. */
module Exporter {
  import opened Wrappers
  import opened Records

  /** `OpenFailed`: `open(filename, "w")` raised (the file system rejected the
      name), so no file was created. `IndexError`: the record list was empty,
      so `data[0]` raised after the file was created. `ExtraFields(i)`: record
      `i` has a key outside the header, so the writer raised a `ValueError` on it. */
  datatype ExportError = OpenFailed | IndexError | ExtraFields(row: nat)

  /** What ends up in the file, and the error that ended the save, if any.
      With `OpenFailed` there is no file, and `lines` is empty. */
  datatype Written = Written(lines: seq<seq<Cell>>, error: Option<ExportError>)

  /** Whether every key of `r` is a column of `header`. */
  predicate Fits(r: VideoRecord, header: seq<string>) {
    forall key :: key in Keys(r) ==> key in header
  }

  /** The first record with a key outside the header. */
  function FirstMisfit(data: seq<VideoRecord>, header: seq<string>): (k: Option<nat>)
    ensures k.Some? ==> k.value < |data| && !Fits(data[k.value], header)
    ensures k.Some? ==> forall j :: 0 <= j < k.value ==> Fits(data[j], header)
    ensures k.None? <==> forall j :: 0 <= j < |data| ==> Fits(data[j], header)
  {
    if |data| == 0 then None
    else if !Fits(data[0], header) then Some(0)
    else match FirstMisfit(data[1..], header)
      case None => None
      case Some(j) => Some(j + 1)
  }

  /** The header line: the column names. */
  function HeaderLine(header: seq<string>): seq<Cell> {
    seq(|header|, j requires 0 <= j < |header| => Text(header[j]))
  }

  /** One record's line: its value under each column, "" where it has none. */
  function Line(r: VideoRecord, header: seq<string>): seq<Cell> {
    seq(|header|, j requires 0 <= j < |header| => Field(r, header[j]).GetOr(Text("")))
  }

  /** The header line followed by the lines of the first `n` records, in order. */
  function Table(data: seq<VideoRecord>, header: seq<string>, n: nat): (lines: seq<seq<Cell>>)
    requires n <= |data|
    ensures |lines| == n + 1 && lines[0] == HeaderLine(header)
    ensures forall j :: 1 <= j < |lines| ==> lines[j] == Line(data[j - 1], header)
  {
    [HeaderLine(header)] + seq(n, i requires 0 <= i < n => Line(data[i], header))
  }

  /** The writing half of `save_to_file`, into a file that was created: the
      header is the first record's key order; the lines before the first misfit
      record are written before the writer raises. */
  function Export(data: seq<VideoRecord>): (w: Written)
    ensures w.error != Some(OpenFailed)
    ensures w.error == Some(IndexError) <==> |data| == 0
    ensures |data| == 0 ==> w.lines == []
    ensures |data| > 0 ==> |w.lines| >= 1 && w.lines[0] == HeaderLine(Keys(data[0]))
    ensures w.error.None? <==> |data| > 0 && forall i :: 0 <= i < |data| ==> Fits(data[i], Keys(data[0]))
    ensures w.error.None? ==> |w.lines| == |data| + 1
    ensures w.error.Some? && w.error.value.ExtraFields? ==>
              var i := w.error.value.row;
              && i < |data| && !Fits(data[i], Keys(data[0]))
              && (forall j :: 0 <= j < i ==> Fits(data[j], Keys(data[0])))
              && |w.lines| == i + 1
    ensures |data| > 0 ==> forall j :: 1 <= j < |w.lines| ==> w.lines[j] == Line(data[j - 1], Keys(data[0]))
  {
    if |data| == 0 then Written([], Some(IndexError))
    else
      var header := Keys(data[0]);
      match FirstMisfit(data, header)
      case None => Written(Table(data, header, |data|), None)
      case Some(i) => Written(Table(data, header, i), Some(ExtraFields(i)))
  }

  /** `save_to_file` in full. `created` is whether the file system lets
      `open(filename, "w")` create the file; when it does not, the call raises
      before anything else happens, and no file exists. */
  function Save(created: bool, data: seq<VideoRecord>): (w: Written)
    ensures w.error == Some(OpenFailed) <==> !created
    ensures !created ==> w.lines == []
    ensures w.error.None? <==> created && |data| > 0 && forall i :: 0 <= i < |data| ==> Fits(data[i], Keys(data[0]))
    ensures created ==> w == Export(data)
  {
    if created then Export(data) else Written([], Some(OpenFailed))
  }

  /** The position of `key` in a header that lists it. */
  function IndexOf(header: seq<string>, key: string): (j: nat)
    requires key in header
    ensures j < |header| && header[j] == key
    ensures forall i :: 0 <= i < j ==> header[i] != key
  {
    if header[0] == key then 0 else 1 + IndexOf(header[1..], key)
  }

  /** Reading a line back by column name, as a dictionary reader would. */
  function ReadBack(header: seq<string>, line: seq<Cell>): map<string, Cell>
    requires |line| == |header|
  {
    map key | key in header :: line[IndexOf(header, key)]
  }

  /** A line read back by column name gives every value the record has and
      "" for the columns it lacks. */
  lemma ReadBackLine(r: VideoRecord, header: seq<string>, key: string)
    requires Fits(r, header)
    ensures key in ReadBack(header, Line(r, header)) <==> key in header
    ensures key in Keys(r) ==> key in header && Field(r, key) == Some(ReadBack(header, Line(r, header))[key])
    ensures key in header && key !in Keys(r) ==> ReadBack(header, Line(r, header))[key] == Text("")
  {
    KeysAgreeWithField(r, key);
  }

  /** Every record line that was written, whether the save succeeded or
      stopped at a later record, can be read back: line `i + 1`, read by column
      name, gives record `i`'s values and "" for the columns it lacks. */
  lemma ExportReadBack(data: seq<VideoRecord>, i: nat, key: string)
    requires i + 1 < |Export(data).lines|
    ensures i < |data| && Fits(data[i], Keys(data[0]))
    ensures Export(data).lines[i + 1] == Line(data[i], Keys(data[0]))
    ensures key in ReadBack(Keys(data[0]), Line(data[i], Keys(data[0]))) <==> key in Keys(data[0])
    ensures key in Keys(data[i]) ==> Field(data[i], key) == Some(ReadBack(Keys(data[0]), Line(data[i], Keys(data[0])))[key])
    ensures key in Keys(data[0]) && key !in Keys(data[i]) ==>
              ReadBack(Keys(data[0]), Line(data[i], Keys(data[0])))[key] == Text("")
  {
    ReadBackLine(data[i], Keys(data[0]), key);
  }

  /** When the first record is a detail carrying "addList", its nine keys cover
      every record, so the save succeeds. */
  lemma FullFirstRecordExports(data: seq<VideoRecord>)
    requires |data| > 0 && data[0].Detail? && data[0].addList.Some?
    ensures Export(data).error.None?
  {
    forall i | 0 <= i < |data| ensures Fits(data[i], Keys(data[0])) {
      KeysWithinFullDetail(data[i], data[0]);
    }
  }

  /** When the first record is a detail without "addList", the first later
      record carrying "addList" makes the save fail there. */
  lemma BareFirstRecordRejectsAddList(data: seq<VideoRecord>, i: nat) returns (k: nat)
    requires i < |data| && data[0].Detail? && data[0].addList.None?
    requires data[i].addList.Some?
    requires forall j :: 0 <= j < i ==> data[j].addList.None?
    ensures k <= i && FirstMisfit(data, Keys(data[0])) == Some(k)
    ensures Export(data).error == Some(ExtraFields(k))
  {
    var h := Keys(data[0]);
    AddListListed(data[i]);
    AddListListed(data[0]);
    assert !Fits(data[i], h);
    k := FirstMisfit(data, h).value;
  }
}
