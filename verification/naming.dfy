/** Choosing where a playlist's membership comes from, and naming the saved file. */
module Naming {

  const CsvSuffix: string := ".csv"

  /** `s.endswith(suffix)`, case-sensitive. */
  predicate EndsWith(s: string, suffix: string) {
    |s| >= |suffix| && s[|s| - |suffix|..] == suffix
  }

  /** Where a playlist's membership entries are read from. */
  datatype Origin = FileOrigin(path: string) | RemoteOrigin(playlistId: string)

  /** A target ending in ".csv" names a local file; anything else is a remote
      playlist identifier. */
  function Route(target: string): Origin {
    if EndsWith(target, CsvSuffix) then FileOrigin(target) else RemoteOrigin(target)
  }

  /** Routing in both directions: every name with the suffix goes to a file,
      and every target routed to a file is some name with the suffix. */
  lemma RouteFile(target: string, stem: string)
    ensures Route(stem + CsvSuffix) == FileOrigin(stem + CsvSuffix)
    ensures Route(target).FileOrigin? ==> target == target[..|target| - |CsvSuffix|] + CsvSuffix
    ensures Route(target).RemoteOrigin? ==> Route(target).playlistId == target
  {
    assert (stem + CsvSuffix)[|stem + CsvSuffix| - |CsvSuffix|..] == CsvSuffix;
  }

  // ---------------------------------------------------------------------
  // The save-time stamp, `strftime("%Y%m%d_%H%M%S")`.

  /** The stamp's length: eight date digits, `_`, six clock digits. */
  const StampWidth := 15

  /** A `datetime`'s calendar and clock fields. */
  datatype DateTime = DateTime(year: int, month: int, day: int, hour: int, minute: int, second: int)

  /** The ranges a `datetime` guarantees for its fields. */
  predicate ValidDateTime(d: DateTime) {
    && 1 <= d.year <= 9999 && 1 <= d.month <= 12 && 1 <= d.day <= 31
    && 0 <= d.hour <= 23 && 0 <= d.minute <= 59 && 0 <= d.second <= 59
  }

  predicate IsDigit(c: char) {
    '0' <= c <= '9'
  }

  function Pow10(w: nat): nat {
    if w == 0 then 1 else 10 * Pow10(w - 1)
  }

  predicate AllDigits(s: string) {
    forall i :: 0 <= i < |s| ==> IsDigit(s[i])
  }

  /** `n` written in decimal with zero padding to exactly `w` digits. */
  function Digits(n: nat, w: nat): (s: string)
    requires n < Pow10(w)
    ensures |s| == w && AllDigits(s)
  {
    if w == 0 then "" else Digits(n / 10, w - 1) + [('0' as int + n % 10) as char]
  }

  /** The number a string of decimal digits denotes. */
  function DigitsValue(s: string): nat
    requires AllDigits(s)
  {
    if |s| == 0 then 0
    else
      assert IsDigit(s[|s| - 1]);
      10 * DigitsValue(s[..|s| - 1]) + (s[|s| - 1] as int - '0' as int)
  }

  /** Zero-padded digits read back as the number they were written from. */
  lemma {:induction false} DigitsRoundTrip(n: nat, w: nat)
    requires n < Pow10(w)
    ensures DigitsValue(Digits(n, w)) == n
  {
    if w > 0 {
      DigitsRoundTrip(n / 10, w - 1);
      var s := Digits(n, w);
      assert s[..|s| - 1] == Digits(n / 10, w - 1);
    }
  }

  /** The date half of the stamp, `YYYYMMDD`. */
  function DatePart(d: DateTime): (s: string)
    requires ValidDateTime(d)
    ensures |s| == 8 && AllDigits(s)
  {
    Digits(d.year, 4) + Digits(d.month, 2) + Digits(d.day, 2)
  }

  /** The clock half of the stamp, `HHMMSS`. */
  function ClockPart(d: DateTime): (s: string)
    requires ValidDateTime(d)
    ensures |s| == 6 && AllDigits(s)
  {
    Digits(d.hour, 2) + Digits(d.minute, 2) + Digits(d.second, 2)
  }

  /** The stamp `YYYYMMDD_HHMMSS`. */
  function Stamp(d: DateTime): (s: string)
    requires ValidDateTime(d)
    ensures |s| == StampWidth && s[8] == '_'
    ensures forall i :: 0 <= i < StampWidth && i != 8 ==> IsDigit(s[i])
  {
    DatePart(d) + "_" + ClockPart(d)
  }

  /** Whether `s` has the stamp's shape. */
  predicate StampShaped(s: string) {
    |s| == StampWidth && s[8] == '_' && AllDigits(s[..8]) && AllDigits(s[9..])
  }

  /** Reading the fields back out of a stamp. */
  function ParseStamp(s: string): DateTime
    requires StampShaped(s)
  {
    var date, clock := s[..8], s[9..];
    DateTime(DigitsValue(date[0..4]), DigitsValue(date[4..6]), DigitsValue(date[6..8]),
             DigitsValue(clock[0..2]), DigitsValue(clock[2..4]), DigitsValue(clock[4..6]))
  }

  lemma DatePartRoundTrip(d: DateTime)
    requires ValidDateTime(d)
    ensures DigitsValue(DatePart(d)[0..4]) == d.year
    ensures DigitsValue(DatePart(d)[4..6]) == d.month
    ensures DigitsValue(DatePart(d)[6..8]) == d.day
  {
    var s := DatePart(d);
    assert s[0..4] == Digits(d.year, 4);
    assert s[4..6] == Digits(d.month, 2);
    assert s[6..8] == Digits(d.day, 2);
    DigitsRoundTrip(d.year, 4);
    DigitsRoundTrip(d.month, 2);
    DigitsRoundTrip(d.day, 2);
  }

  lemma ClockPartRoundTrip(d: DateTime)
    requires ValidDateTime(d)
    ensures DigitsValue(ClockPart(d)[0..2]) == d.hour
    ensures DigitsValue(ClockPart(d)[2..4]) == d.minute
    ensures DigitsValue(ClockPart(d)[4..6]) == d.second
  {
    var s := ClockPart(d);
    assert s[0..2] == Digits(d.hour, 2);
    assert s[2..4] == Digits(d.minute, 2);
    assert s[4..6] == Digits(d.second, 2);
    DigitsRoundTrip(d.hour, 2);
    DigitsRoundTrip(d.minute, 2);
    DigitsRoundTrip(d.second, 2);
  }

  /** A stamp determines the moment it was written from. */
  lemma StampRoundTrip(d: DateTime)
    requires ValidDateTime(d)
    ensures StampShaped(Stamp(d)) && ParseStamp(Stamp(d)) == d
  {
    var s := Stamp(d);
    assert s[..8] == DatePart(d);
    assert s[9..] == ClockPart(d);
    DatePartRoundTrip(d);
    ClockPartRoundTrip(d);
  }

  /** The saved file's name: `{playlist_name}_{stamp}.csv`. */
  function OutputName(name: string, d: DateTime): string
    requires ValidDateTime(d)
  {
    name + "_" + Stamp(d) + CsvSuffix
  }

  /** What a saved file's name adds after the playlist name: `_`, the stamp, ".csv". */
  const NameTailWidth := 1 + StampWidth + |CsvSuffix|

  /** The playlist name and the stamp read back from a saved file's name. */
  function SplitOutputName(f: string): (string, string)
    requires |f| >= NameTailWidth
  {
    (f[..|f| - NameTailWidth], f[|f| - NameTailWidth + 1..|f| - |CsvSuffix|])
  }

  /** A file name gives back the playlist name and the moment it was built
      from, and it ends in ".csv". */
  lemma OutputNameRoundTrip(name: string, d: DateTime)
    requires ValidDateTime(d)
    ensures var f := OutputName(name, d);
            |f| == |name| + NameTailWidth && SplitOutputName(f) == (name, Stamp(d)) && EndsWith(f, CsvSuffix)
  {
    var f := OutputName(name, d);
    assert f == name + ("_" + Stamp(d) + CsvSuffix);
    assert f[..|f| - NameTailWidth] == name;
    assert f[|f| - NameTailWidth + 1..|f| - |CsvSuffix|] == Stamp(d);
    assert f[|f| - |CsvSuffix|..] == CsvSuffix;
  }

  /** Two saves get the same file name only for the same playlist name in the
      same second. */
  lemma OutputNameInjective(n1: string, d1: DateTime, n2: string, d2: DateTime)
    requires ValidDateTime(d1) && ValidDateTime(d2)
    requires OutputName(n1, d1) == OutputName(n2, d2)
    ensures n1 == n2 && d1 == d2
  {
    OutputNameRoundTrip(n1, d1);
    OutputNameRoundTrip(n2, d2);
    StampRoundTrip(d1);
    StampRoundTrip(d2);
  }
}
