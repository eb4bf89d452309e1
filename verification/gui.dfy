/** The decision rules inside the Qt application (`gui.py`), lifted out of
    the widgets: which file belongs to which PLC, where a device's states
    live, how the parameter table's header is built, which beam line a
    device is on, what the upload column shows and when the test mode is
    on. */
module Gui {
  import opened Results
  import opened Text
  import Listing

  // ---------------------------------------------------------------------
  // Hostnames
  // ---------------------------------------------------------------------

  /** `hostname_to_key`: the database key of a PLC is its hostname. */
  function HostnameToKey(hostname: string): string {
    hostname
  }

  const JsonSuffix: string := ".json"

  /** `hostname_to_filename`: the PLC's file is its key with `.json`. */
  function HostnameToFilename(hostname: string): (filename: string)
    ensures |filename| == |hostname| + |JsonSuffix|
    ensures filename[..|hostname|] == HostnameToKey(hostname)
    ensures filename[|hostname|..] == JsonSuffix
  {
    HostnameToKey(hostname) + JsonSuffix
  }

  /** The key back from a file name. */
  function FilenameToKey(filename: string): (key: Option<string>)
    ensures key.Some? <==> |filename| >= |JsonSuffix| && filename[|filename| - |JsonSuffix|..] == JsonSuffix
  {
    if |filename| >= |JsonSuffix| && filename[|filename| - |JsonSuffix|..] == JsonSuffix
    then Some(filename[..|filename| - |JsonSuffix|])
    else None
  }

  /** Every hostname's file name leads back to its key, so no two PLCs
      share a file. */
  lemma FilenameRoundTrip(hostname: string, other: string)
    ensures FilenameToKey(HostnameToFilename(hostname)) == Some(HostnameToKey(hostname))
    ensures HostnameToFilename(hostname) == HostnameToFilename(other) ==> hostname == other
  {
    var f := HostnameToFilename(hostname);
    assert f[..|f| - |JsonSuffix|] == hostname;
    if f == HostnameToFilename(other) {
      assert |other| == |hostname|;
      assert other == HostnameToFilename(other)[..|other|];
    }
  }

  // ---------------------------------------------------------------------
  // Device name to PV prefixes
  // ---------------------------------------------------------------------

  const GasAttenuatorMarker: string := "GAS_MAA"

  /** The device name with every `-` turned into `:`. */
  function PvBase(device: string): (base: string)
    ensures |base| == |device|
    ensures forall i :: 0 <= i < |device| ==> base[i] == if device[i] == '-' then ':' else device[i]
  {
    ReplaceChar(device, '-', ':')
  }

  /** `get_states_prefixes`: a gas attenuator aperture has a Y then an X
      state record; every other device has one motor state record. */
  function StatesPrefixes(device: string): (prefixes: seq<string>)
    ensures |prefixes| == if Contains(device, GasAttenuatorMarker) then 2 else 1
    ensures forall i :: 0 <= i < |prefixes| ==> |prefixes[i]| > |device| && prefixes[i][..|device|] == PvBase(device)
    ensures Contains(device, GasAttenuatorMarker) ==> prefixes[0][|device|..] == ":Y:STATE:" && prefixes[1][|device|..] == ":X:STATE:"
    ensures !Contains(device, GasAttenuatorMarker) ==> prefixes[0][|device|..] == ":MMS:STATE:"
  {
    var base := PvBase(device);
    if Contains(device, GasAttenuatorMarker) then [base + ":Y:STATE:", base + ":X:STATE:"]
    else [base + ":MMS:STATE:"]
  }

  /** The PV part taken from the device name has no `-` left, and turning
      `:` back into `-` restores a name that had no `:`. */
  lemma PvBaseReversible(device: string)
    ensures '-' !in PvBase(device)
    ensures ':' !in device ==> ReplaceChar(PvBase(device), ':', '-') == device
  {
  }

  // ---------------------------------------------------------------------
  // Parameter table header
  // ---------------------------------------------------------------------

  /** `PARAMETER_HEADER_ORDER`: the database's columns in display order. */
  const ParameterHeaderOrder: seq<string> := [
    "name", "id", "nRate", "nBeamClassRange", "neVRange", "nTran",
    "ap_name", "ap_xgap", "ap_xcenter", "ap_ygap", "ap_ycenter",
    "damage_limit", "pulse_energy", "reactive_temp", "reactive_pressure",
    "notes", "special"
  ]

  predicate NoDuplicates(s: seq<string>) {
    forall i, j :: 0 <= i < j < |s| ==> s[i] != s[j]
  }

  /** The position of the first occurrence of `x` in `s`. */
  function FirstIndex(s: seq<string>, x: string): (i: nat)
    requires x in s
    ensures i < |s| && s[i] == x
    ensures forall j :: 0 <= j < i ==> s[j] != x
  {
    if s[0] == x then 0 else 1 + FirstIndex(s[1..], x)
  }

  /** The header merge of `fill_parameter_table`: `base` unchanged, then
      every key of the file not already present, in the order the keys are
      first seen. */
  method MergeHeader(base: seq<string>, fileKeys: seq<string>) returns (header: seq<string>)
    ensures |header| >= |base| && header[..|base|] == base
    ensures forall x :: x in fileKeys ==> x in header
    ensures forall k :: |base| <= k < |header| ==> header[k] in fileKeys && header[k] !in base
    ensures forall a, b :: |base| <= a < b < |header| ==> FirstIndex(fileKeys, header[a]) < FirstIndex(fileKeys, header[b])
    ensures NoDuplicates(base) ==> NoDuplicates(header)
  {
    header := base;
    var i := 0;
    while i < |fileKeys|
      invariant 0 <= i <= |fileKeys|
      invariant |header| >= |base| && header[..|base|] == base
      invariant forall x :: x in fileKeys[..i] ==> x in header
      invariant forall k :: |base| <= k < |header| ==> header[k] in fileKeys[..i] && header[k] !in base
      invariant forall k :: |base| <= k < |header| ==> FirstIndex(fileKeys, header[k]) < i
      invariant forall a, b :: |base| <= a < b < |header| ==> FirstIndex(fileKeys, header[a]) < FirstIndex(fileKeys, header[b])
    {
      var elem := fileKeys[i];
      assert fileKeys[..i + 1] == fileKeys[..i] + [elem];
      if elem !in header {
        assert elem !in fileKeys[..i];
        assert FirstIndex(fileKeys, elem) == i;
        header := header + [elem];
      }
      i := i + 1;
    }
    assert fileKeys[..i] == fileKeys;
    if NoDuplicates(base) {
      forall a, b | 0 <= a < b < |header|
        ensures header[a] != header[b]
      {
        if b >= |base| && a < |base| {
          assert header[a] in base;
        }
      }
    }
  }

  datatype HeaderError = NoStates   // `list(...)[0]` on a device without states

  /** The header of a device's parameter table, from the keys of each of its
      states' rows in file order; the first state's keys decide. */
  method ParameterHeader(stateKeys: seq<seq<string>>) returns (header: Result<seq<string>, HeaderError>)
    ensures header.Err? <==> stateKeys == []
    ensures header.Ok? ==> |header.value| >= |ParameterHeaderOrder|
                           && header.value[..|ParameterHeaderOrder|] == ParameterHeaderOrder
    ensures header.Ok? ==> forall x :: x in stateKeys[0] ==> x in header.value
    ensures header.Ok? ==> forall k :: |ParameterHeaderOrder| <= k < |header.value| ==>
                             header.value[k] in stateKeys[0] && header.value[k] !in ParameterHeaderOrder
  {
    if stateKeys == [] {
      return Err(NoStates);
    }
    var merged := MergeHeader(ParameterHeaderOrder, stateKeys[0]);
    return Ok(merged);
  }

  // ---------------------------------------------------------------------
  // Line letter
  // ---------------------------------------------------------------------

  /** The beam-line letter a character stands for once lower-cased by
      Python's `str.lower()`: besides `L` and `K`, only the Kelvin sign
      lower-cases to one of `l` and `k`. */
  function LetterOf(c: char): (r: Option<char>)
    ensures r.Some? ==> r.value == 'l' || r.value == 'k'
  {
    if c == 'l' || c == 'L' then Some('l')
    else if c == 'k' || c == 'K' || c == '\U{212A}' then Some('k')
    else None
  }

  /** The letter of the last character of `s` that has one, or `current`. */
  function LastLetter(s: string, current: char): (r: char)
    ensures r == current || r == 'l' || r == 'k'
    ensures (forall i :: 0 <= i < |s| ==> LetterOf(s[i]).None?) ==> r == current
    ensures forall i ::
              (0 <= i < |s| && LetterOf(s[i]).Some? && (forall j :: i < j < |s| ==> LetterOf(s[j]).None?)) ==>
              r == LetterOf(s[i]).value
  {
    if s == [] then current
    else
      match LetterOf(s[|s| - 1])
      case Some(letter) => letter
      case None => LastLetter(s[..|s| - 1], current)
  }

  /** The line-letter rule of `fill_parameter_table`: the last `l` or `k`
      of the lower-cased name before its first `-`, or the current letter
      when there is none. Lower-casing never makes or removes a `-`, so
      the name can be split first. */
  function LineLetter(device: string, current: char): (r: char)
    ensures r == current || r == 'l' || r == 'k'
    ensures '-' !in device ==> r == LastLetter(device, current)
  {
    WholeNameBeforeDash(device);
    LastLetter(SplitOn(device, '-')[0], current)
  }

  /** A name without `-` is its own part before the first `-`. */
  lemma WholeNameBeforeDash(device: string)
    ensures '-' !in device ==> SplitOn(device, '-')[0] == device
  {
    if '-' !in device {
      SplitOnPrefix(device, [], '-');
      assert device + [] == device;
    }
  }

  /** Only the part before the first `-` matters. */
  lemma LineLetterBeforeDash(head: string, tail: string, current: char)
    requires '-' !in head
    ensures LineLetter(head + "-" + tail, current) == LastLetter(head, current)
  {
    var rest := "-" + tail;
    assert head + "-" + tail == head + rest;
    SplitOnPrefix(head, rest, '-');
    assert rest[0] == '-' && rest != [];
    assert SplitOn(rest, '-')[0] == [];
    assert head + [] == head;
  }

  // ---------------------------------------------------------------------
  // ctime
  // ---------------------------------------------------------------------

  const WeekdayNames: seq<string> := ["Mon", "Tue", "Wed", "Thu", "Fri", "Sat", "Sun"]
  const MonthNames: seq<string> := ["Jan", "Feb", "Mar", "Apr", "May", "Jun", "Jul", "Aug", "Sep", "Oct", "Nov", "Dec"]

  function DaysBeforeYear(y: int): int
    requires y >= 1
  {
    var p := y - 1;
    p * 365 + p / 4 - p / 100 + p / 400
  }

  function DaysBeforeMonth(y: int, m: int): int
    requires 1 <= m <= 13
  {
    if m == 1 then 0 else DaysBeforeMonth(y, m - 1) + Listing.DaysInMonth(y, m - 1)
  }

  /** `date.toordinal()`: 1 January of year 1 is day 1. */
  function Ordinal(d: Listing.DateTime): int
    requires Listing.ValidDateTime(d)
  {
    DaysBeforeYear(d.year) + DaysBeforeMonth(d.year, d.month) + d.day
  }

  /** `date.weekday()`: Monday is 0. Day 1 was a Monday. */
  function Weekday(d: Listing.DateTime): (w: nat)
    requires Listing.ValidDateTime(d)
    ensures w < 7
  {
    (Ordinal(d) + 6) % 7
  }

  /** The day after `d`, at the same time. */
  function NextDay(d: Listing.DateTime): (n: Listing.DateTime)
    requires Listing.ValidDateTime(d) && d.year < 9999
    ensures Listing.ValidDateTime(n)
  {
    if d.day < Listing.DaysInMonth(d.year, d.month) then d.(day := d.day + 1)
    else if d.month < 12 then d.(month := d.month + 1, day := 1)
    else d.(year := d.year + 1, month := 1, day := 1)
  }

  /** Going from `y - 1` to `y` adds one leap day exactly when `y` is a
      leap year: one multiple of 4, 100 or 400 is passed exactly when the
      number divides `y`. */
  lemma YearLength(y: int)
    requires y >= 1
    ensures DaysBeforeYear(y + 1) - DaysBeforeYear(y) == if Listing.IsLeap(y) then 366 else 365
  {
    var p := y - 1;
    var a, b, c := y / 4 - p / 4, y / 100 - p / 100, y / 400 - p / 400;
    MultiplesPassed4(y);
    MultiplesPassed100(y);
    MultiplesPassed400(y);
    assert DaysBeforeYear(y + 1) - DaysBeforeYear(y) == 365 + a - b + c;
    LeapCases(y);
  }

  lemma MultiplesPassed4(y: int)
    ensures y / 4 - (y - 1) / 4 == if y % 4 == 0 then 1 else 0
  {
  }

  lemma MultiplesPassed100(y: int)
    ensures y / 100 - (y - 1) / 100 == if y % 100 == 0 then 1 else 0
  {
  }

  lemma MultiplesPassed400(y: int)
    ensures y / 400 - (y - 1) / 400 == if y % 400 == 0 then 1 else 0
  {
  }

  lemma LeapCases(y: int)
    ensures y % 400 == 0 ==> y % 100 == 0
    ensures y % 100 == 0 ==> y % 4 == 0
  {
  }

  lemma DaysBeforeDecember(y: int)
    ensures DaysBeforeMonth(y, 13) == if Listing.IsLeap(y) then 366 else 365
  {
    var feb := Listing.DaysInMonth(y, 2);
    assert DaysBeforeMonth(y, 2) == 31;
    assert DaysBeforeMonth(y, 3) == 31 + feb;
    assert DaysBeforeMonth(y, 4) == 62 + feb;
    assert DaysBeforeMonth(y, 5) == 92 + feb;
    assert DaysBeforeMonth(y, 6) == 123 + feb;
    assert DaysBeforeMonth(y, 7) == 153 + feb;
    assert DaysBeforeMonth(y, 8) == 184 + feb;
    assert DaysBeforeMonth(y, 9) == 215 + feb;
    assert DaysBeforeMonth(y, 10) == 245 + feb;
    assert DaysBeforeMonth(y, 11) == 276 + feb;
    assert DaysBeforeMonth(y, 12) == 306 + feb;
    assert DaysBeforeMonth(y, 13) == 337 + feb;
  }

  /** Consecutive days are consecutive ordinals, so the weekday advances by
      one, across month and year ends too. */
  lemma NextDayWeekday(d: Listing.DateTime)
    requires Listing.ValidDateTime(d) && d.year < 9999
    ensures Ordinal(NextDay(d)) == Ordinal(d) + 1
    ensures Weekday(NextDay(d)) == (Weekday(d) + 1) % 7
  {
    if d.day == Listing.DaysInMonth(d.year, d.month) && d.month == 12 {
      YearLength(d.year);
      DaysBeforeDecember(d.year);
    }
  }

  /** `"%2d" % n` for `n < 100`. */
  function SpacePad2(n: nat): (r: string)
    requires n < 100
    ensures |r| == 2
  {
    if n < 10 then [' ', DigitChar(n)] else Pad2(n)
  }

  /** `"%04d" % n` for `n < 10000`. */
  function Pad4(n: nat): (r: string)
    requires n < 10000
    ensures |r| == 4 && IsDigits(r)
  {
    Pad2(n / 100) + Pad2(n % 100)
  }

  /** `datetime.ctime()` for a time with whole minutes, as the listing
      gives them: `Fri Nov  4 13:59:00 2022`. */
  function Ctime(d: Listing.DateTime): (r: string)
    requires Listing.ValidDateTime(d)
    ensures |r| == 24
    ensures r[..3] == WeekdayNames[Weekday(d)] && r[4..7] == MonthNames[d.month - 1]
    ensures r[8..10] == SpacePad2(d.day)
    ensures r[11..13] == Pad2(d.hour) && r[14..16] == Pad2(d.minute) && r[20..] == Pad4(d.year)
    ensures r[3] == ' ' && r[7] == ' ' && r[10] == ' ' && r[13] == ':' && r[16..20] == ":00 "
  {
    WeekdayNames[Weekday(d)] + " " + MonthNames[d.month - 1] + " " + SpacePad2(d.day) + " "
      + Pad2(d.hour) + ":" + Pad2(d.minute) + ":00 " + Pad4(d.year)
  }

  /** The hour, minute and year read back from the text are the stamp's. */
  lemma CtimeReadsBack(d: Listing.DateTime)
    requires Listing.ValidDateTime(d)
    ensures ParseInt(Ctime(d)[11..13]) == Some(d.hour)
    ensures ParseInt(Ctime(d)[14..16]) == Some(d.minute)
    ensures ParseInt(Ctime(d)[20..]) == Some(d.year)
  {
    ParseIntPad2(d.hour);
    ParseIntPad2(d.minute);
    Pad4Value(d.year);
  }

  /** The listing sample's time, 4 November 2022 13:59, reads
      `Fri Nov  4 13:59:00 2022`. */
  lemma CtimeSample(d: Listing.DateTime)
    requires d == Listing.DateTime(2022, 11, 4, 13, 59)
    ensures Listing.ValidDateTime(d)
    ensures Ctime(d) == "Fri Nov  4 13:59:00 2022"
  {
    assert DaysBeforeYear(d.year) == 738155;
    assert DaysBeforeMonth(d.year, 11) == 304 by {
      DaysBeforeDecember(d.year);
    }
    assert Ordinal(d) == 738463;
    assert Weekday(d) == 4;
  }

  lemma Pad4Value(n: nat)
    requires n < 10000
    ensures ParseInt(Pad4(n)) == Some(n)
  {
    var hi, lo := Pad2(n / 100), Pad2(n % 100);
    var s := hi + lo;
    ParseIntPad2(n / 100);
    ParseIntPad2(n % 100);
    assert s[..3] == hi + lo[..1];
    assert s[..2] == hi;
    assert s[..3][..2] == hi;
    assert lo[..1][..0] == [];
    assert DigitsValue(lo[..1]) == DigitValue(lo[0]);
    assert DigitsValue(s[..3]) == DigitsValue(hi) * 10 + DigitValue(lo[0]);
    assert DigitsValue(s) == DigitsValue(s[..3]) * 10 + DigitValue(lo[1]);
    assert DigitsValue(lo) == DigitValue(lo[0]) * 10 + DigitValue(lo[1]);
  }

  // ---------------------------------------------------------------------
  // Upload column
  // ---------------------------------------------------------------------

  const ErrnoPrefix: string := "[Errno"
  const ErrnoClose: string := "] "
  const NoUploadFound: string := "No upload found"

  /** The error clean-up of `update_plc_row`: a `[Errno N] message` text
      keeps only the piece after the first `] ` (up to any next `] `), and
      the result is capitalised. */
  function CleanErrorText(text: string): (r: string)
    ensures StartsWith(text, ErrnoPrefix) && Contains(text, ErrnoClose) ==> r == Capitalize(SecondPiece(text, ErrnoClose))
    ensures !(StartsWith(text, ErrnoPrefix) && Contains(text, ErrnoClose)) ==> r == Capitalize(text)
    ensures |r| <= |text|
  {
    var kept := if Contains(text, ErrnoClose) && StartsWith(text, ErrnoPrefix) then SecondPiece(text, ErrnoClose) else text;
    Capitalize(kept)
  }

  /** An OS error's text `[Errno <code>] <message>` becomes the message,
      capitalised, when neither part contains `] `. */
  lemma ErrnoMessage(code: string, message: string)
    requires ']' !in code && !Contains(message, ErrnoClose)
    ensures CleanErrorText(ErrnoPrefix + code + ErrnoClose + message) == Capitalize(message)
  {
    var head := ErrnoPrefix + code;
    var text := head + ErrnoClose + message;
    assert ']' !in ErrnoPrefix;
    assert ']' !in head;
    assert OccursAt(text, ErrnoClose, |head|) by {
      assert text[|head|..|head| + 2] == ErrnoClose;
    }
    forall j | 0 <= j < |head|
      ensures !OccursAt(text, ErrnoClose, j)
    {
      assert text[j] == head[j] && head[j] != ']';
      if j + 2 <= |text| {
        assert text[j..j + 2][0] != ErrnoClose[0];
      }
    }
    assert IndexOf(text, ErrnoClose) == Some(|head|);
    var front := head + ErrnoClose;
    assert text == front + message && |front| == |head| + 2;
    assert text[|front|..] == message;
    assert StartsWith(text, ErrnoPrefix) by {
      assert text[..|ErrnoPrefix|] == ErrnoPrefix;
    }
  }

  /** The first file of the listing with the given name. */
  function FirstNamed(files: seq<Listing.PlcFile>, filename: string): (r: Option<nat>)
    ensures r.Some? ==> r.value < |files| && files[r.value].filename == filename
                        && forall j :: 0 <= j < r.value ==> files[j].filename != filename
    ensures r.None? ==> forall j :: 0 <= j < |files| ==> files[j].filename != filename
  {
    if files == [] then None
    else if files[0].filename == filename then Some(0)
    else
      match FirstNamed(files[1..], filename)
      case None => None
      case Some(i) => Some(i + 1)
  }

  predicate AllDated(files: seq<Listing.PlcFile>) {
    forall i :: 0 <= i < |files| ==> Listing.ValidDateTime(files[i].createTime)
  }

  /** The upload column of `update_plc_row`: `listing` is the outcome of
      `list_file_info`, with the exception's text on failure. The creation
      time of the first file named after the PLC wins; otherwise a
      successful listing shows `No upload found` and a failed one the
      cleaned error text. */
  function UploadCellText(hostname: string, listing: Result<seq<Listing.PlcFile>, string>): (text: string)
    requires listing.Ok? ==> AllDated(listing.value)
    ensures listing.Err? ==> text == CleanErrorText(listing.error)
    ensures listing.Ok? && FirstNamed(listing.value, HostnameToFilename(hostname)).None? ==> text == NoUploadFound
    ensures listing.Ok? && FirstNamed(listing.value, HostnameToFilename(hostname)).Some? ==>
              text == Ctime(listing.value[FirstNamed(listing.value, HostnameToFilename(hostname)).value].createTime)
  {
    match listing
    case Err(e) => CleanErrorText(e)
    case Ok(files) =>
      match FirstNamed(files, HostnameToFilename(hostname))
      case None => NoUploadFound
      case Some(i) => Ctime(files[i].createTime)
  }

  /** A file record that parsed from a listing line always has a date
      `ctime` can render. */
  lemma ParsedFilesAreDated(lines: seq<string>)
    requires Listing.ParseListing(lines).Ok?
    ensures AllDated(Listing.ParseListing(lines).value)
  {
    var files := Listing.ParseListing(lines).value;
    forall i | 0 <= i < |files|
      ensures Listing.ValidDateTime(files[i].createTime)
    {
      assert Listing.ParseListLine(lines[i]) == Ok(files[i]);
    }
  }

  // ---------------------------------------------------------------------
  // Test mode and default configuration
  // ---------------------------------------------------------------------

  const TestMarker: string := "-tst-"

  /** The test-mode flag of `SummaryTables`: on exactly when some
      configured hostname contains `-tst-`. */
  function TestMode(hostnames: seq<string>): (on: bool)
    ensures on <==> exists i :: 0 <= i < |hostnames| && Contains(hostnames[i], TestMarker)
  {
    if hostnames == [] then false
    else
      var rest := TestMode(hostnames[1..]);
      assert forall i :: 1 <= i < |hostnames| ==> hostnames[i] == hostnames[1..][i - 1];
      Contains(hostnames[0], TestMarker) || rest
  }

  /** The configuration files `PMPSManagerGui` loads: the ones given, or the
      packaged test configuration when none is. */
  function EffectiveConfigs(configs: seq<string>, packageDir: string): (loaded: seq<string>)
    ensures configs != [] ==> loaded == configs
    ensures configs == [] ==> loaded == [packageDir + "/pmpsdb_tst.yml"]
  {
    if configs == [] then [packageDir + "/pmpsdb_tst.yml"] else configs
  }
}
