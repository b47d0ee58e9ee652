/** Reading playlist membership from a local CSV file. The CSV tokeniser is not
    modelled: a file is given as its rows, already split into cells. */
module MembershipFile {
  import opened Wrappers
  import opened Records

  /** A file's rows, as the CSV reader yields them. */
  type Rows = seq<seq<string>>

  /** The membership entry a data row stands for: its first two cells. */
  function Entry(row: seq<string>): VideoMembership
    requires |row| >= 2
  {
    Membership(row[0], row[1])
  }

  /** The data rows, scanned as the reading loop scans them. A row whose width
      differs from the header's is skipped. A row of the header's width becomes
      an entry; if that width is under two, indexing the row raises, which ends
      the scan with the entries collected so far. */
  function AcceptRows(rows: Rows, width: nat): (es: seq<VideoMembership>)
    ensures |es| <= |rows|
  {
    if |rows| == 0 then []
    else if |rows[0]| != width then AcceptRows(rows[1..], width)
    else if width < 2 then []
    else [Entry(rows[0])] + AcceptRows(rows[1..], width)
  }

  /** The entries read from a file: none for a missing file, none for an empty
      file (reading the header raises), otherwise the data rows filtered by the
      header's width. */
  function ReadMembershipFile(file: Option<Rows>): (es: seq<VideoMembership>)
    ensures file.None? ==> es == []
    ensures file.Some? && |file.value| <= 1 ==> es == []
    ensures file.Some? ==> |es| < |file.value| || es == []
  {
    match file
    case None => []
    case Some(rows) => if |rows| == 0 then [] else AcceptRows(rows[1..], |rows[0]|)
  }

  /** The reading loop as written: the header's width is taken first, and the
      exception raised by a too-narrow row ends the loop early. */
  method ReadRows(file: Option<Rows>) returns (videos: seq<VideoMembership>)
    ensures videos == ReadMembershipFile(file)
  {
    videos := [];
    if file.None? {
      return;
    }
    var rows := file.value;
    if |rows| == 0 {
      return;
    }
    var headSize := |rows[0]|;
    var data := rows[1..];
    var i := 0;
    while i < |data|
      invariant 0 <= i <= |data|
      invariant videos + AcceptRows(data[i..], headSize) == AcceptRows(data, headSize)
    {
      var row := data[i];
      assert data[i..][0] == row && data[i..][1..] == data[i + 1..];
      if |row| == headSize {
        if |row| < 2 {
          return;
        }
        videos := videos + [Membership(row[0], row[1])];
      }
      i := i + 1;
    }
  }

  /** With a header of two or more columns, reading rows `a` then rows `b`
      gives the entries of `a` followed by those of `b`. */
  lemma {:induction false} AcceptRowsAppend(a: Rows, b: Rows, width: nat)
    requires width >= 2
    ensures AcceptRows(a + b, width) == AcceptRows(a, width) + AcceptRows(b, width)
    decreases |a|
  {
    if |a| > 0 {
      assert (a + b)[0] == a[0] && (a + b)[1..] == a[1..] + b;
      AcceptRowsAppend(a[1..], b, width);
    } else {
      assert a + b == b;
    }
  }

  /** A single data row yields its entry exactly when its width is the header's. */
  lemma AcceptOneRow(row: seq<string>, width: nat)
    requires width >= 2
    ensures AcceptRows([row], width) == if |row| == width then [Entry(row)] else []
  {
    assert [row][1..] == [];
  }

  /** With a header of two or more columns, the entries are exactly the entries
      of the rows of the header's width. */
  lemma {:induction false} AcceptRowsMembers(rows: Rows, width: nat, e: VideoMembership)
    requires width >= 2
    ensures e in AcceptRows(rows, width) <==> exists i :: 0 <= i < |rows| && |rows[i]| == width && e == Entry(rows[i])
    decreases |rows|
  {
    if |rows| > 0 {
      AcceptRowsMembers(rows[1..], width, e);
      if exists i :: 0 <= i < |rows| && |rows[i]| == width && e == Entry(rows[i]) {
        var i :| 0 <= i < |rows| && |rows[i]| == width && e == Entry(rows[i]);
        if i > 0 {
          assert rows[1..][i - 1] == rows[i];
        }
      }
      if e in AcceptRows(rows[1..], width) {
        var i :| 0 <= i < |rows[1..]| && |rows[1..][i]| == width && e == Entry(rows[1..][i]);
        assert rows[i + 1] == rows[1..][i];
      }
    }
  }

  /** With a header of fewer than two columns, no entry is ever produced: the
      first row of the header's width raises before anything is appended. */
  lemma {:induction false} NarrowHeaderYieldsNothing(rows: Rows, width: nat)
    requires width < 2
    ensures AcceptRows(rows, width) == []
    decreases |rows|
  {
    if |rows| > 0 && |rows[0]| != width {
      NarrowHeaderYieldsNothing(rows[1..], width);
    }
  }

  /** A malformed row between two well-formed ones is skipped, and the
      well-formed ones on either side are kept in order. */
  lemma MalformedRowSkipped(header: seq<string>, r1: seq<string>, bad: seq<string>, r2: seq<string>)
    requires |header| == 2 && |r1| == 2 && |bad| == 3 && |r2| == 2
    ensures ReadMembershipFile(Some([header, r1, bad, r2])) == [Entry(r1), Entry(r2)]
  {
    var data := [header, r1, bad, r2][1..];
    assert data == [r1] + [bad] + [r2];
    AcceptRowsAppend([r1] + [bad], [r2], 2);
    AcceptRowsAppend([r1], [bad], 2);
    AcceptOneRow(r1, 2);
    AcceptOneRow(bad, 2);
    AcceptOneRow(r2, 2);
  }
}
