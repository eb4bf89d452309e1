/** Parsing the PLC's FTP `LIST` reply (`PLCFile.from_list_line` and the
    comprehension in `list_file_info`). Each reply line has the DOS-style shape
    `MM-DD-YY  HH:MM <size> <name>`; the format is the device's own, since
    section 4.1.3 of RFC 959 leaves `LIST` output system-dependent. */
module Listing {
  import opened Results
  import opened Text

  /** A `datetime.datetime` with seconds and microseconds at zero. */
  datatype DateTime = DateTime(year: int, month: int, day: int, hour: int, minute: int)

  predicate IsLeap(y: int) {
    y % 4 == 0 && (y % 100 != 0 || y % 400 == 0)
  }

  function DaysInMonth(y: int, m: int): int
    requires 1 <= m <= 12
  {
    if m == 2 then (if IsLeap(y) then 29 else 28)
    else if m == 4 || m == 6 || m == 9 || m == 11 then 30
    else 31
  }

  /** The fields `datetime.datetime(...)` accepts: years `MINYEAR`..`MAXYEAR`
      (1..9999), real calendar days, a 24-hour clock. */
  predicate ValidDateTime(d: DateTime) {
    && 1 <= d.year <= 9999
    && 1 <= d.month <= 12
    && 1 <= d.day <= DaysInMonth(d.year, d.month)
    && 0 <= d.hour < 24
    && 0 <= d.minute < 60
  }

  /** One file on the PLC, as learned from the listing. */
  datatype PlcFile = PlcFile(filename: string, createTime: DateTime, size: int)

  /** Why a line was rejected. Each case is a `ValueError` in the source,
      except that `datetime(...)` raises `OverflowError` instead when the
      year is too large for a C integer. */
  datatype ListingError =
    | WrongFieldCount(fields: nat)   // unpacking `line.split()` into four names
    | WrongDateParts(parts: nat)     // unpacking `date.split('-')` into three
    | WrongTimeParts(parts: nat)     // unpacking `time.split(':')` into two
    | NotAnInteger(token: string)    // `int()` refused a token
    | OutOfRange(stamp: DateTime)    // `datetime(...)` refused the fields

  /** `int(token)` as a result. */
  function Int(token: string): Result<int, ListingError> {
    match ParseInt(token)
    case Some(v) => Ok(v)
    case None => Err(NotAnInteger(token))
  }

  /** The record's fields are what `int()` reads from the date pieces, the
      time pieces and the size token, with the two-digit year offset by 2000,
      and its name is the fourth field. */
  predicate ReadsAs(date: string, time: string, size: string, filename: string, f: PlcFile) {
    var p := SplitOn(date, '-');
    var q := SplitOn(time, ':');
    && |p| == 3 && |q| == 2
    && ParseInt(p[0]) == Some(f.createTime.month)
    && ParseInt(p[1]) == Some(f.createTime.day)
    && ParseInt(p[2]) == Some(f.createTime.year - 2000)
    && ParseInt(q[0]) == Some(f.createTime.hour)
    && ParseInt(q[1]) == Some(f.createTime.minute)
    && ParseInt(size) == Some(f.size)
    && f.filename == filename
  }

  /** `PLCFile.from_list_line` once the line is split into its four fields.
      The keyword arguments of `datetime(...)` are evaluated year, month, day,
      hour, minute; then the date is checked; then the size is converted. */
  function ParseFields(date: string, time: string, size: string, filename: string): (r: Result<PlcFile, ListingError>)
    ensures r.Ok? ==> ReadsAs(date, time, size, filename, r.value)
    ensures r.Ok? ==> ValidDateTime(r.value.createTime) && r.value.createTime.year >= 2000
    ensures forall f :: ReadsAs(date, time, size, filename, f) && ValidDateTime(f.createTime) ==> r == Ok(f)
    ensures |SplitOn(date, '-')| != 3 ==> r == Err(WrongDateParts(|SplitOn(date, '-')|))
    ensures |SplitOn(date, '-')| == 3 && |SplitOn(time, ':')| != 2 ==> r == Err(WrongTimeParts(|SplitOn(time, ':')|))
  {
    var dateParts := SplitOn(date, '-');
    if |dateParts| != 3 then Err(WrongDateParts(|dateParts|))
    else
      var timeParts := SplitOn(time, ':');
      if |timeParts| != 2 then Err(WrongTimeParts(|timeParts|))
      else
        var yy :- Int(dateParts[2]);
        var month :- Int(dateParts[0]);
        var day :- Int(dateParts[1]);
        var hour :- Int(timeParts[0]);
        var minute :- Int(timeParts[1]);
        var stamp := DateTime(yy + 2000, month, day, hour, minute);
        if !ValidDateTime(stamp) then Err(OutOfRange(stamp))
        else
          var bytes :- Int(size);
          Ok(PlcFile(filename, stamp, bytes))
  }

  /** `PLCFile.from_list_line(line)`: a line parses only if `line.split()`
      yields exactly four fields; any other count is an error and no record
      is produced. */
  function ParseListLine(line: string): (r: Result<PlcFile, ListingError>)
    ensures |SplitWs(line)| != 4 <==> r == Err(WrongFieldCount(|SplitWs(line)|))
    ensures r.Ok? ==> var t := SplitWs(line); ReadsAs(t[0], t[1], t[2], t[3], r.value)
    ensures r.Ok? ==> ValidDateTime(r.value.createTime) && r.value.createTime.year >= 2000
    ensures r.Ok? ==> r.value.filename == SplitWs(line)[3] && IsToken(r.value.filename)
  {
    var fields := SplitWs(line);
    if |fields| != 4 then Err(WrongFieldCount(|fields|))
    else
      var r := ParseFields(fields[0], fields[1], fields[2], fields[3]);
      assert r != Err(WrongFieldCount(|fields|)) by {
        if r.Err? {
          assert !r.error.WrongFieldCount?;
        }
      }
      r
  }

  /** `list_file_info` after the session: `[PLCFile.from_list_line(line) for
      line in lines]`. Exactly one record per line, in the order received; the
      first malformed line fails the whole call. */
  function ParseListing(lines: seq<string>): (r: Result<seq<PlcFile>, ListingError>)
    ensures r.Ok? <==> forall i :: 0 <= i < |lines| ==> ParseListLine(lines[i]).Ok?
    ensures r.Ok? ==> |r.value| == |lines|
    ensures r.Ok? ==> forall i :: 0 <= i < |lines| ==> ParseListLine(lines[i]) == Ok(r.value[i])
    ensures r.Err? ==> exists i :: 0 <= i < |lines| && ParseListLine(lines[i]) == Err(r.error)
                                   && forall j :: 0 <= j < i ==> ParseListLine(lines[j]).Ok?
  {
    if lines == [] then Ok([])
    else
      var first :- ParseListLine(lines[0]);
      match ParseListing(lines[1..])
      case Err(e) =>
        FirstErrorAfterGoodLine(lines, e);
        Err(e)
      case Ok(rest) => Ok([first] + rest)
  }

  /** A first malformed line among `lines[1..]` is the first one of `lines`
      when `lines[0]` parses. */
  lemma FirstErrorAfterGoodLine(lines: seq<string>, e: ListingError)
    requires lines != [] && ParseListLine(lines[0]).Ok?
    requires exists i :: 0 <= i < |lines| - 1 && ParseListLine(lines[1..][i]) == Err(e)
                         && forall j :: 0 <= j < i ==> ParseListLine(lines[1..][j]).Ok?
    ensures exists i :: 0 <= i < |lines| && ParseListLine(lines[i]) == Err(e)
                        && forall j :: 0 <= j < i ==> ParseListLine(lines[j]).Ok?
  {
    var i :| 0 <= i < |lines| - 1 && ParseListLine(lines[1..][i]) == Err(e)
             && forall j :: 0 <= j < i ==> ParseListLine(lines[1..][j]).Ok?;
    assert ParseListLine(lines[i + 1]) == Err(e);
    forall j | 0 <= j < i + 1
      ensures ParseListLine(lines[j]).Ok?
    {
      if j > 0 {
        assert lines[j] == lines[1..][j - 1];
      }
    }
  }

  // ---------------------------------------------------------------------
  // Writing a line back: the inverse of the parser
  // ---------------------------------------------------------------------

  /** Python's `str(n)` for any integer. */
  function IntString(n: int): string {
    if n < 0 then "-" + NatString(-n) else NatString(n)
  }

  /** A record the device could list: a real date in this century and a
      blank-free name. The size is unconstrained, as in the parser. */
  predicate Listable(f: PlcFile) {
    && ValidDateTime(f.createTime)
    && 2000 <= f.createTime.year < 2100
    && IsToken(f.filename)
  }

  function DateToken(d: DateTime): string
    requires ValidDateTime(d) && 2000 <= d.year < 2100
  {
    JoinOn([Pad2(d.month), Pad2(d.day), Pad2(d.year - 2000)], '-')
  }

  function TimeToken(d: DateTime): string
    requires ValidDateTime(d)
  {
    JoinOn([Pad2(d.hour), Pad2(d.minute)], ':')
  }

  /** The `LIST` line the device would send for `f` (single blanks between
      fields). */
  function FormatListLine(f: PlcFile): string
    requires Listable(f)
  {
    JoinWs([DateToken(f.createTime), TimeToken(f.createTime), IntString(f.size), f.filename])
  }

  lemma IntStringRoundTrip(n: int)
    ensures IsToken(IntString(n)) && ParseInt(IntString(n)) == Some(n)
  {
    if n < 0 {
      NegativeRoundTrip(-n);
    } else {
      ParseIntNatString(n);
      DigitsAreToken(NatString(n));
    }
  }

  lemma NegativeRoundTrip(m: nat)
    requires m > 0
    ensures IsToken("-" + NatString(m)) && ParseInt("-" + NatString(m)) == Some(-(m as int))
  {
    var digits := NatString(m);
    var s := "-" + digits;
    NatStringValue(m);
    DigitsAreToken(digits);
    assert s[1..] == digits;
    assert !IsDigit(s[0]);
    assert IsToken(s) by {
      forall i | 0 <= i < |s|
        ensures !IsSpace(s[i])
      {
        if i > 0 {
          assert s[i] == digits[i - 1];
        }
      }
    }
  }

  lemma DigitsAreToken(s: string)
    requires IsDigits(s)
    ensures IsToken(s)
  {
  }

  lemma JoinOn2(a: string, b: string, sep: char)
    ensures JoinOn([a, b], sep) == a + [sep] + b
  {
    assert [a, b][1..] == [b];
  }

  lemma JoinOn3(a: string, b: string, c: string, sep: char)
    ensures JoinOn([a, b, c], sep) == a + [sep] + (b + [sep] + c)
  {
    assert [a, b, c][1..] == [b, c];
    JoinOn2(b, c, sep);
  }

  lemma DateTokenFields(d: DateTime)
    requires ValidDateTime(d) && 2000 <= d.year < 2100
    ensures IsToken(DateToken(d)) && IsToken(TimeToken(d))
    ensures SplitOn(DateToken(d), '-') == [Pad2(d.month), Pad2(d.day), Pad2(d.year - 2000)]
    ensures SplitOn(TimeToken(d), ':') == [Pad2(d.hour), Pad2(d.minute)]
  {
    JoinOn3(Pad2(d.month), Pad2(d.day), Pad2(d.year - 2000), '-');
    JoinOn2(Pad2(d.hour), Pad2(d.minute), ':');
    SplitOnJoinOn([Pad2(d.month), Pad2(d.day), Pad2(d.year - 2000)], '-');
    SplitOnJoinOn([Pad2(d.hour), Pad2(d.minute)], ':');
  }

  lemma FormatReadsAs(f: PlcFile)
    requires Listable(f)
    ensures ReadsAs(DateToken(f.createTime), TimeToken(f.createTime), IntString(f.size), f.filename, f)
  {
    var d := f.createTime;
    DateTokenFields(d);
    IntStringRoundTrip(f.size);
    ParseIntPad2(d.month);
    ParseIntPad2(d.day);
    ParseIntPad2(d.year - 2000);
    ParseIntPad2(d.hour);
    ParseIntPad2(d.minute);
  }

  /** Parsing the line written for a listable record gives the record back. */
  lemma ParseFormatRoundTrip(f: PlcFile)
    requires Listable(f)
    ensures ParseListLine(FormatListLine(f)) == Ok(f)
  {
    var d := f.createTime;
    DateTokenFields(d);
    IntStringRoundTrip(f.size);
    var tokens := [DateToken(d), TimeToken(d), IntString(f.size), f.filename];
    SplitWsJoinWs(tokens);
    FormatReadsAs(f);
  }

  /** The parser does not check the size for non-negativity: a line with a
      signed size token is accepted and keeps the negative size. */
  lemma NegativeSizeAccepted(f: PlcFile)
    requires Listable(f) && f.size < 0
    ensures ParseListLine(FormatListLine(f)).Ok?
    ensures ParseListLine(FormatListLine(f)).value.size < 0
  {
    ParseFormatRoundTrip(f);
  }

  lemma TwoFields(c: string, p3: string, e: string)
    requires IsToken(c) && IsToken(e) && AllSpace(p3) && p3 != []
    ensures SplitWs(c + (p3 + e)) == [c, e]
  {
    SplitWsSingle(e);
    SplitWsSep(c, p3, e);
  }

  lemma ThreeFields(b: string, p2: string, c: string, p3: string, e: string)
    requires IsToken(b) && IsToken(c) && IsToken(e)
    requires AllSpace(p2) && AllSpace(p3) && p2 != [] && p3 != []
    ensures SplitWs(b + (p2 + (c + (p3 + e)))) == [b, c, e]
  {
    TwoFields(c, p3, e);
    SplitWsSep(b, p2, c + (p3 + e));
  }

  /** Extra blanks between the fields change nothing: `str.split()` sees
      the same four fields as in the single-blank form. */
  lemma BlankRunsBetweenFields(a: string, p1: string, b: string, p2: string, c: string, p3: string, e: string)
    requires IsToken(a) && IsToken(b) && IsToken(c) && IsToken(e)
    requires AllSpace(p1) && AllSpace(p2) && AllSpace(p3)
    requires p1 != [] && p2 != [] && p3 != []
    ensures SplitWs(a + (p1 + (b + (p2 + (c + (p3 + e)))))) == [a, b, c, e]
  {
    ThreeFields(b, p2, c, p3, e);
    SplitWsSep(a, p1, b + (p2 + (c + (p3 + e))));
  }

  /** The sample line in the docstring of `from_list_line` (two blanks after
      the date, sixteen after the time, one after the size), and the record it
      stands for. */
  const SampleLine: string := "11-04-22" + "  " + "13:59" + "                " + "16439" + " " + "kfe-motion.json"
  const SampleFile: PlcFile := PlcFile("kfe-motion.json", DateTime(2022, 11, 4, 13, 59), 16439)

  lemma SampleTokens(f: PlcFile)
    requires f == SampleFile
    ensures DateToken(f.createTime) == "11-04-22"
    ensures TimeToken(f.createTime) == "13:59"
    ensures IntString(f.size) == "16439"
  {
    var d := f.createTime;
    JoinOn3(Pad2(d.month), Pad2(d.day), Pad2(d.year - 2000), '-');
    JoinOn2(Pad2(d.hour), Pad2(d.minute), ':');
    assert Pad2(11) == "11" && Pad2(4) == "04" && Pad2(22) == "22";
    assert Pad2(13) == "13" && Pad2(59) == "59";
  }

  lemma SampleBlanks(a: string, p1: string, b: string, p2: string, c: string, p3: string, e: string)
    requires a == "11-04-22" && b == "13:59" && c == "16439" && e == "kfe-motion.json"
    requires p1 == "  " && p2 == "                " && p3 == " "
    ensures SplitWs(a + (p1 + (b + (p2 + (c + (p3 + e)))))) == [a, b, c, e]
    ensures IsToken(e)
  {
    assert AllSpace(p1) && AllSpace(p3);
    assert AllSpace(p2) by {
      assert forall i :: 0 <= i < |p2| ==> p2[i] == ' ';
    }
    assert IsToken(a) && IsToken(b) && IsToken(c) && IsToken(e);
    BlankRunsBetweenFields(a, p1, b, p2, c, p3, e);
  }

  lemma SampleFields(line: string)
    requires line == SampleLine
    ensures SplitWs(line) == ["11-04-22", "13:59", "16439", "kfe-motion.json"]
    ensures IsToken("kfe-motion.json")
  {
    var a, p1, b, p2, c, p3, e := "11-04-22", "  ", "13:59", "                ", "16439", " ", "kfe-motion.json";
    assert line == a + (p1 + (b + (p2 + (c + (p3 + e)))));
    SampleBlanks(a, p1, b, p2, c, p3, e);
  }

  /** The documented sample parses to `kfe-motion.json`, 16439 bytes,
      2022-11-04 13:59. */
  lemma DocumentedSample(line: string, f: PlcFile)
    requires line == SampleLine && f == SampleFile
    ensures ParseListLine(line) == Ok(f)
  {
    SampleFields(line);
    SampleTokens(f);
    FormatReadsAs(f);
    LineOfFields(line, DateToken(f.createTime), TimeToken(f.createTime), IntString(f.size), f.filename, f);
  }

  /** A line whose four fields read as a valid record parses to it. */
  lemma LineOfFields(line: string, date: string, time: string, size: string, filename: string, f: PlcFile)
    requires SplitWs(line) == [date, time, size, filename]
    requires ReadsAs(date, time, size, filename, f) && ValidDateTime(f.createTime)
    ensures ParseListLine(line) == Ok(f)
  {
  }
}
