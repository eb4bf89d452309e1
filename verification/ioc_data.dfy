/** The IOC side of the client (`ioc_data.py`): rendering the EPICS bitmask
    readbacks as bit strings, and collecting the beam parameters of a state
    device's fifteen states into a document shaped like the database's. The
    EPICS reads themselves are inputs. */
module IocData {
  import opened ConfigDoc

  function Pow2(n: nat): (p: int)
    ensures p >= 1
  {
    if n == 0 then 1 else 2 * Pow2(n - 1)
  }

  predicate IsBit(c: char) {
    c == '0' || c == '1'
  }

  predicate IsBits(s: string) {
    forall i :: 0 <= i < |s| ==> IsBit(s[i])
  }

  /** The number a bit string spells in base 2, most significant first. */
  function BitsValue(s: string): nat
    requires IsBits(s)
  {
    if s == [] then 0 else 2 * BitsValue(s[..|s| - 1]) + (if s[|s| - 1] == '1' then 1 else 0)
  }

  function BitChar(b: nat): (c: char)
    requires b < 2
    ensures IsBit(c)
  {
    if b == 0 then '0' else '1'
  }

  /** The digits of `bin(n)` for `n >= 0`: no leading zeros, and `"0"` for
      zero. */
  function Binary(n: nat): (s: string)
    ensures s != [] && IsBits(s)
    ensures |s| > 1 ==> s[0] == '1'
  {
    if n < 2 then [BitChar(n)] else Binary(n / 2) + [BitChar(n % 2)]
  }

  /** `bin(v)[2:]`: for a negative `v`, `bin` writes `-0b…`, so cutting two
      characters leaves `b…`. */
  function BinDigits(v: int): (s: string)
    ensures v >= 0 ==> IsBits(s)
    ensures v < 0 ==> s != [] && s[0] == 'b'
  {
    if v >= 0 then Binary(v) else "b" + Binary(-v)
  }

  function Zeros(n: nat): (z: string)
    ensures |z| == n && IsBits(z)
    ensures forall i :: 0 <= i < n ==> z[i] == '0'
  {
    seq(n, i => '0')
  }

  /** The `while len(bitmask) < width: bitmask = '0' + bitmask` loop. */
  function ZeroPad(s: string, width: nat): (r: string)
    ensures |r| == if |s| >= width then |s| else width
    ensures r == Zeros(|r| - |s|) + s
    decreases width - |s|
  {
    if |s| >= width then
      assert s == [] + s;
      s
    else
      var r := ZeroPad("0" + s, width);
      assert Zeros(|r| - |s|) == Zeros(|r| - |s| - 1) + "0";
      r
  }

  /** The EPICS unsigned-type fix: a negative reading has `2**width` added. */
  function Unsigned(bitmask: int, width: nat): (u: int)
    ensures -Pow2(width) <= bitmask < Pow2(width) ==> 0 <= u < Pow2(width)
    ensures u == bitmask || u == bitmask + Pow2(width)
    ensures bitmask >= 0 <==> u == bitmask
  {
    if bitmask < 0 then bitmask + Pow2(width) else bitmask
  }

  /** `clean_bitmask(bitmask, width)`. */
  function CleanBitmask(bitmask: int, width: nat): (r: string)
    ensures |r| >= width
    ensures bitmask >= -Pow2(width) ==> IsBits(r) && BitsValue(r) == Unsigned(bitmask, width)
    ensures width >= 1 && 0 <= Unsigned(bitmask, width) < Pow2(width) ==> |r| == width
    ensures bitmask < -Pow2(width) ==> 'b' in r && !IsBits(r)
  {
    var raw := BinDigits(Unsigned(bitmask, width));
    var r := ZeroPad(raw, width);
    PaddedValue(bitmask, width);
    PaddedWidth(bitmask, width);
    PaddedBadNegative(bitmask, width);
    r
  }

  lemma PaddedValue(bitmask: int, width: nat)
    ensures var r := ZeroPad(BinDigits(Unsigned(bitmask, width)), width);
            bitmask >= -Pow2(width) ==> IsBits(r) && BitsValue(r) == Unsigned(bitmask, width)
  {
    if bitmask >= -Pow2(width) {
      var u := Unsigned(bitmask, width);
      var raw := BinDigits(u);
      assert raw == Binary(u);
      var r := ZeroPad(raw, width);
      BinaryValue(u);
      LeadingZeros(|r| - |raw|, raw);
    }
  }

  lemma PaddedWidth(bitmask: int, width: nat)
    ensures var r := ZeroPad(BinDigits(Unsigned(bitmask, width)), width);
            width >= 1 && 0 <= Unsigned(bitmask, width) < Pow2(width) ==> |r| == width
  {
    var u := Unsigned(bitmask, width);
    if width >= 1 && 0 <= u < Pow2(width) {
      assert BinDigits(u) == Binary(u);
      BinaryLength(u, width);
    }
  }

  lemma PaddedBadNegative(bitmask: int, width: nat)
    ensures var r := ZeroPad(BinDigits(Unsigned(bitmask, width)), width);
            bitmask < -Pow2(width) ==> 'b' in r && !IsBits(r)
  {
    if bitmask < -Pow2(width) {
      var raw := BinDigits(Unsigned(bitmask, width));
      var r := ZeroPad(raw, width);
      assert r[|r| - |raw|] == 'b';
    }
  }

  /** Reading `bin`'s digits back in base 2 gives the number. */
  lemma {:induction false} BinaryValue(n: nat)
    ensures BitsValue(Binary(n)) == n
  {
    if n >= 2 {
      BinaryValue(n / 2);
      var s := Binary(n);
      assert s[..|s| - 1] == Binary(n / 2);
    }
  }

  /** A number below `2**width` needs at most `width` binary digits. */
  lemma {:induction false} BinaryLength(n: nat, width: nat)
    requires width >= 1 && n < Pow2(width)
    ensures |Binary(n)| <= width
  {
    if n >= 2 {
      BinaryLength(n / 2, width - 1);
    }
  }

  /** Leading zeros do not change a bit string's value. */
  lemma {:induction false} LeadingZeros(k: nat, s: string)
    requires IsBits(s)
    ensures IsBits(Zeros(k) + s) && BitsValue(Zeros(k) + s) == BitsValue(s)
  {
    if s == [] {
      assert Zeros(k) + s == Zeros(k);
      ZerosValue(k);
    } else {
      LeadingZeros(k, s[..|s| - 1]);
      assert (Zeros(k) + s)[..|Zeros(k) + s| - 1] == Zeros(k) + s[..|s| - 1];
    }
  }

  lemma {:induction false} ZerosValue(k: nat)
    ensures BitsValue(Zeros(k)) == 0
  {
    if k > 0 {
      ZerosValue(k - 1);
      assert Zeros(k)[..k - 1] == Zeros(k - 1);
    }
  }

  /** With a reading in the signed or unsigned range of the field, the
      rendering is exactly `width` bits and spells the two's-complement
      pattern of the reading: the one value below `2**width` that differs
      from the reading by a multiple of `2**width`. */
  lemma TwosComplement(bitmask: int, width: nat)
    requires width >= 1 && -Pow2(width) <= bitmask < Pow2(width)
    ensures |CleanBitmask(bitmask, width)| == width
    ensures 0 <= BitsValue(CleanBitmask(bitmask, width)) < Pow2(width)
    ensures BitsValue(CleanBitmask(bitmask, width)) - bitmask in {0, Pow2(width)}
    ensures bitmask >= 0 ==> BitsValue(CleanBitmask(bitmask, width)) == bitmask
  {
  }

  /** A reading of `-1` (all bits set, read through a signed type) renders
      as `width` ones. */
  lemma MinusOneIsAllOnes(width: nat)
    requires width >= 1
    ensures CleanBitmask(-1, width) == seq(width, i => '1')
  {
    AllOnesUnique(CleanBitmask(-1, width), width);
  }

  /** The only `width`-bit string worth `2**width - 1` is all ones. */
  lemma {:induction false} AllOnesUnique(s: string, width: nat)
    requires |s| == width && IsBits(s) && BitsValue(s) == Pow2(width) - 1
    ensures s == seq(width, i => '1')
  {
    if width > 0 {
      var init := s[..|s| - 1];
      BitsBound(init);
      AllOnesUnique(init, width - 1);
      assert s == init + [s[|s| - 1]];
    }
  }

  lemma {:induction false} BitsBound(s: string)
    requires IsBits(s)
    ensures BitsValue(s) < Pow2(|s|)
  {
    if s != [] {
      BitsBound(s[..|s| - 1]);
    }
  }

  // ---------------------------------------------------------------------
  // get_table_data
  // ---------------------------------------------------------------------

  /** The number of `state_NN` components of `AllStateBP`. */
  const StateCount: nat := 15

  /** The EPICS readbacks of one state: its lookup key, rate, beam-class
      bitmask, photon-energy bitmask and transmission. */
  datatype StateReading = StateReading(lookup: string, nRate: Scalar, nBeamClassRange: int, neVRange: int, nTran: Scalar)

  /** One row of the table, with the database's column names as fields.
      The bitmasks are rendered at widths 16 and 32. */
  datatype Row = Row(name: string, nRate: Scalar, nBeamClassRange: string, neVRange: string, nTran: Scalar)

  /** The row built for one state. */
  function Entry(s: StateReading): (row: Row)
    ensures row.name == s.lookup && row.nRate == s.nRate && row.nTran == s.nTran
    ensures |row.nBeamClassRange| >= 16 && |row.neVRange| >= 32
    ensures row.nBeamClassRange == CleanBitmask(s.nBeamClassRange, 16)
    ensures row.neVRange == CleanBitmask(s.neVRange, 32)
  {
    Row(s.lookup, s.nRate, CleanBitmask(s.nBeamClassRange, 16), CleanBitmask(s.neVRange, 32), s.nTran)
  }

  /** The row as the dictionary the source builds. */
  function AsParams(row: Row): (p: Params)
    ensures "name" in p && p["name"] == Str(row.name)
  {
    map["name" := Str(row.name),
        "nRate" := row.nRate,
        "nBeamClassRange" := Str(row.nBeamClassRange),
        "neVRange" := Str(row.neVRange),
        "nTran" := row.nTran]
  }

  /** The index of the last of the first `n` readings whose lookup key is
      `k`, or `-1` when none is. */
  function LastWith(readings: seq<StateReading>, n: nat, k: string): (j: int)
    requires n <= |readings|
    ensures -1 <= j < n
    ensures j >= 0 ==> readings[j].lookup == k
    ensures forall j2 :: j < j2 < n ==> readings[j2].lookup != k
  {
    if n == 0 then -1
    else if readings[n - 1].lookup == k then n - 1
    else LastWith(readings, n - 1, k)
  }

  /** The reading kept under each key after the first `n` states: a later
      state with the same non-empty key replaces an earlier one. */
  function Collect(readings: seq<StateReading>, n: nat): map<string, StateReading>
    requires n <= |readings|
  {
    if n == 0 then map[]
    else
      var kept := Collect(readings, n - 1);
      var name := readings[n - 1].lookup;
      if name != [] then kept[name := readings[n - 1]] else kept
  }

  /** The readings kept from the first `n` states are keyed by exactly their
      non-empty lookup keys. */
  lemma {:induction false} CollectKeys(readings: seq<StateReading>, n: nat)
    requires n <= |readings|
    ensures forall k :: k in Collect(readings, n) <==> k != [] && LastWith(readings, n, k) >= 0
  {
    if n > 0 {
      CollectKeys(readings, n - 1);
      var kept := Collect(readings, n - 1);
      var name := readings[n - 1].lookup;
      assert Collect(readings, n) == if name != [] then kept[name := readings[n - 1]] else kept;
    }
  }

  /** Each state adds at most one key, so `n` states keep at most `n`. */
  lemma {:induction false} CollectSize(readings: seq<StateReading>, n: nat)
    requires n <= |readings|
    ensures |Collect(readings, n)| <= n
  {
    if n > 0 {
      CollectSize(readings, n - 1);
      var kept := Collect(readings, n - 1);
      var name := readings[n - 1].lookup;
      if name != [] {
        var m := kept[name := readings[n - 1]];
        assert Collect(readings, n) == m;
        assert |m| <= |kept| + 1;
      }
    }
  }

  /** Each kept reading is the last one with its key. */
  lemma {:induction false} CollectKeepsLast(readings: seq<StateReading>, n: nat)
    requires n <= |readings|
    ensures forall k :: k in Collect(readings, n) ==>
              LastWith(readings, n, k) >= 0 && Collect(readings, n)[k] == readings[LastWith(readings, n, k)]
  {
    if n > 0 {
      CollectKeys(readings, n - 1);
      CollectKeepsLast(readings, n - 1);
      var kept := Collect(readings, n - 1);
      var name := readings[n - 1].lookup;
      assert Collect(readings, n) == if name != [] then kept[name := readings[n - 1]] else kept;
    }
  }

  /** One row per kept reading. */
  function Rows(kept: map<string, StateReading>): (rows: map<string, Row>)
    ensures rows.Keys == kept.Keys
    ensures forall k :: k in kept ==> rows[k] == Entry(kept[k])
  {
    map k | k in kept :: Entry(kept[k])
  }

  /** The table has a row exactly for the non-empty keys some state reads;
      each row is built from the last such state and is named by its key. */
  lemma TableRows(readings: seq<StateReading>)
    ensures var rows := Rows(Collect(readings, |readings|));
      && (forall k :: k in rows <==> k != [] && exists j :: 0 <= j < |readings| && readings[j].lookup == k)
      && (forall k :: k in rows ==> rows[k] == Entry(readings[LastWith(readings, |readings|, k)]) && rows[k].name == k)
      && |rows| <= |readings|
  {
    var n := |readings|;
    var kept := Collect(readings, n);
    CollectKeys(readings, n);
    CollectSize(readings, n);
    CollectKeepsLast(readings, n);
    forall k
      ensures k in kept <==> k != [] && exists j :: 0 <= j < n && readings[j].lookup == k
    {
      if k != [] && exists j :: 0 <= j < n && readings[j].lookup == k {
        var j :| 0 <= j < n && readings[j].lookup == k;
        assert LastWith(readings, n, k) >= j;
      }
    }
    assert Rows(kept).Keys == kept.Keys;
  }

  /** `AllStateBP.get_table_data`: states 1 to 15 in order, one row per
      non-empty lookup key, a later state overwriting an earlier one with
      the same key. The loop keeps the readings and the rows are built from
      them once it is done, which is the same as building each row as its
      reading is kept. */
  method TableData(readings: seq<StateReading>) returns (data: map<string, Row>)
    requires |readings| == StateCount
    ensures forall k :: k in data <==> k != [] && exists j :: 0 <= j < |readings| && readings[j].lookup == k
    ensures forall k :: k in data ==> data[k] == Entry(readings[LastWith(readings, |readings|, k)])
    ensures forall k :: k in data ==> data[k].name == k
    ensures |data| <= StateCount
  {
    var kept: map<string, StateReading> := map[];
    var i := 0;
    while i < |readings|
      invariant 0 <= i <= |readings|
      invariant kept == Collect(readings, i)
    {
      var name := readings[i].lookup;
      if name != [] {
        kept := kept[name := readings[i]];
      }
      i := i + 1;
    }
    data := Rows(kept);
    TableRows(readings);
  }

  /** The table as the source's dictionary of dictionaries. */
  function AsDocument(data: map<string, Row>): (doc: Document)
    ensures doc.Keys == data.Keys
    ensures forall k :: k in data ==> "name" in doc[k] && doc[k]["name"] == Str(data[k].name)
  {
    map k | k in data :: AsParams(data[k])
  }
}
