/** The beam-class table (`beam_class.py`): the tab-separated text is cut
    into lines and cells, a `-` cell stands for "no value", and each line
    becomes a frozen `BeamClass` record through `from_strs`. */
module BeamClass {
  import opened Results
  import opened Text

  // ---------------------------------------------------------------------
  // Table text to cells
  // ---------------------------------------------------------------------

  /** One cell: a `-` is "no value", anything else is kept as written. */
  function Cell(entry: string): (c: Option<string>)
    ensures c.None? <==> entry == "-"
    ensures c.Some? ==> c.value == entry
  {
    if entry == "-" then None else Some(entry)
  }

  /** A cell written back as table text. */
  function Render(c: Option<string>): string {
    if c.None? then "-" else c.value
  }

  /** Rendering undoes reading; reading undoes rendering except for a
      value that is itself `-`. */
  lemma CellRoundTrip(entry: string, c: Option<string>)
    ensures Render(Cell(entry)) == entry
    ensures (c.None? || c.value != "-") ==> Cell(Render(c)) == c
  {
  }

  /** The cells of one line, split on tabs. */
  function Cells(line: string): (cells: seq<Option<string>>)
    ensures |cells| == |SplitOn(line, '\t')|
    ensures forall i :: 0 <= i < |cells| ==> cells[i] == Cell(SplitOn(line, '\t')[i])
  {
    var entries := SplitOn(line, '\t');
    seq(|entries|, i requires 0 <= i < |entries| => Cell(entries[i]))
  }

  /** The lines of the table that are not empty, in order. */
  function NonEmpty(lines: seq<string>): (kept: seq<string>)
    ensures |kept| <= |lines|
    ensures forall i :: 0 <= i < |kept| ==> kept[i] != [] && kept[i] in lines
  {
    if lines == [] then []
    else if lines[0] == [] then NonEmpty(lines[1..])
    else [lines[0]] + NonEmpty(lines[1..])
  }

  /** The rows the module-level loop builds from the table: one per
      non-empty line, in line order. */
  function TableRows(table: string): (rows: seq<seq<Option<string>>>)
    ensures |rows| == |NonEmpty(SplitOn(table, '\n'))|
    ensures forall i :: 0 <= i < |rows| ==> rows[i] == Cells(NonEmpty(SplitOn(table, '\n'))[i])
  {
    var lines := NonEmpty(SplitOn(table, '\n'));
    seq(|lines|, i requires 0 <= i < |lines| => Cells(lines[i]))
  }

  lemma {:induction false} NonEmptyAll(lines: seq<string>)
    requires forall i :: 0 <= i < |lines| ==> lines[i] != []
    ensures NonEmpty(lines) == lines
  {
    if lines != [] {
      NonEmptyAll(lines[1..]);
    }
  }

  lemma {:induction false} NonEmptyAppend(a: seq<string>, b: seq<string>)
    ensures NonEmpty(a + b) == NonEmpty(a) + NonEmpty(b)
  {
    if a == [] {
      assert a + b == b;
    } else {
      assert (a + b)[0] == a[0];
      assert (a + b)[1..] == a[1..] + b;
      NonEmptyAppend(a[1..], b);
    }
  }

  /** A table written one record per line, with an empty line before and
      after as the module's literal has, reads back as exactly those
      records, in order; each record's cells render back to its line. */
  lemma {:induction false} TableOfLines(lines: seq<string>)
    requires |lines| >= 1
    requires forall i :: 0 <= i < |lines| ==> lines[i] != [] && '\n' !in lines[i]
    ensures TableRows("\n" + JoinOn(lines, '\n') + "\n") == seq(|lines|, i requires 0 <= i < |lines| => Cells(lines[i]))
    ensures forall i :: 0 <= i < |lines| ==> JoinOn(RenderAll(Cells(lines[i])), '\t') == lines[i]
  {
    var pieces := [[]] + lines + [[]];
    forall k | 0 <= k < |pieces|
      ensures '\n' !in pieces[k]
    {
    }
    JoinWrapped(lines, '\n');
    SplitOnJoinOn(pieces, '\n');
    NonEmptyAppend([[]] + lines, [[]]);
    NonEmptyAppend([[]], lines);
    NonEmptyAll(lines);
    forall i | 0 <= i < |lines|
      ensures JoinOn(RenderAll(Cells(lines[i])), '\t') == lines[i]
    {
      RenderCells(lines[i]);
    }
  }

  lemma JoinWrapped(lines: seq<string>, sep: char)
    requires |lines| >= 1
    ensures JoinOn([[]] + lines + [[]], sep) == [sep] + JoinOn(lines, sep) + [sep]
  {
    JoinOnAppendEmpty(lines, sep);
    var inner := lines + [[]];
    var all: seq<string> := [[]] + inner;
    assert [[]] + lines + [[]] == all;
    assert all[1..] == inner;
  }

  lemma {:induction false} JoinOnAppendEmpty(pieces: seq<string>, sep: char)
    requires |pieces| >= 1
    ensures JoinOn(pieces + [[]], sep) == JoinOn(pieces, sep) + [sep]
  {
    if |pieces| == 1 {
      assert (pieces + [[]])[1..] == [[]];
    } else {
      assert (pieces + [[]])[1..] == pieces[1..] + [[]];
      JoinOnAppendEmpty(pieces[1..], sep);
    }
  }

  function RenderAll(cells: seq<Option<string>>): (entries: seq<string>)
    ensures |entries| == |cells|
  {
    seq(|cells|, i requires 0 <= i < |cells| => Render(cells[i]))
  }

  lemma RenderCells(line: string)
    ensures RenderAll(Cells(line)) == SplitOn(line, '\t')
    ensures JoinOn(RenderAll(Cells(line)), '\t') == line
  {
    JoinOnSplitOn(line, '\t');
  }

  // ---------------------------------------------------------------------
  // from_strs
  // ---------------------------------------------------------------------

  /** The frozen `BeamClass` record. Dafny datatypes are immutable, as the
      frozen dataclass is. */
  datatype Beam = Beam(
    index: int,
    name: string,
    chargeTime: Option<real>,
    pulsePeriod: Option<real>,
    charge: Option<int>,
    rateMax: Option<int>,
    current: Option<real>,
    power: Option<real>,
    intEnergy: Option<real>,
    notes: Option<string>)

  const FieldCount := 10

  /** The type constructors `int(...)` and `float(...)` applied to a string;
      their parsing is not modelled, only whether they succeed. */
  datatype Coercions = Coercions(toInt: string -> Result<int, string>, toReal: string -> Result<real, string>)

  datatype BeamError =
    | NotCoercible(field: nat, reason: string)   // `int(...)`/`float(...)` raised
    | NoneForInteger                             // `int(None)` on the index field
    | MissingArguments(given: nat)               // the constructor's arity check

  /** One coerced field value. */
  datatype Value = IntValue(i: int) | StrValue(s: string) | RealValue(r: real) | NoValue

  /** The declared kind of each field, in field order. */
  datatype Kind = IntKind | StrKind | OptionalReal | OptionalInt | OptionalStr

  const Kinds: seq<Kind> := [IntKind, StrKind, OptionalReal, OptionalReal, OptionalInt,
                             OptionalInt, OptionalReal, OptionalReal, OptionalReal, OptionalStr]

  predicate Fits(k: Kind, v: Value) {
    match k
    case IntKind => v.IntValue?
    case StrKind => v.StrValue?
    case OptionalReal => v.RealValue? || v.NoValue?
    case OptionalInt => v.IntValue? || v.NoValue?
    case OptionalStr => v.StrValue? || v.NoValue?
  }

  /** The loop body of `from_strs` for the field at `position`: a plain
      field applies its type (`str(None)` is the text `None`); an
      `Optional` field keeps `None` and applies the inner type otherwise. */
  function Coerce(c: Coercions, position: nat, value: Option<string>): (r: Result<Value, BeamError>)
    requires position < FieldCount
    ensures r.Ok? ==> Fits(Kinds[position], r.value)
    ensures Kinds[position] != IntKind && Kinds[position] != StrKind ==> (value.None? <==> r == Ok(NoValue))
    ensures Kinds[position] == StrKind || Kinds[position] == OptionalStr ==> r.Ok?
  {
    match Kinds[position]
    case IntKind =>
      if value.None? then Err(NoneForInteger)
      else (match c.toInt(value.value)
            case Ok(i) => Ok(IntValue(i))
            case Err(e) => Err(NotCoercible(position, e)))
    case StrKind => Ok(StrValue(if value.None? then "None" else value.value))
    case OptionalStr => if value.None? then Ok(NoValue) else Ok(StrValue(value.value))
    case OptionalInt =>
      if value.None? then Ok(NoValue)
      else (match c.toInt(value.value)
            case Ok(i) => Ok(IntValue(i))
            case Err(e) => Err(NotCoercible(position, e)))
    case OptionalReal =>
      if value.None? then Ok(NoValue)
      else (match c.toReal(value.value)
            case Ok(x) => Ok(RealValue(x))
            case Err(e) => Err(NotCoercible(position, e)))
  }

  /** The `zip(args, fields)` loop: coerce the first `min(|args|, 10)`
      arguments in order, stopping at the first that raises. */
  function CoerceAll(c: Coercions, args: seq<Option<string>>, from: nat): (r: Result<seq<Value>, BeamError>)
    requires from <= |args| && from <= FieldCount
    ensures r.Ok? ==> |r.value| == Min(|args|, FieldCount) - from
    ensures r.Ok? ==> forall i :: 0 <= i < |r.value| ==> Coerce(c, from + i, args[from + i]) == Ok(r.value[i])
    ensures r.Err? <==> exists i :: from <= i < Min(|args|, FieldCount) && Coerce(c, i, args[i]).Err?
    decreases FieldCount - from
  {
    if from == |args| || from == FieldCount then Ok([])
    else
      match Coerce(c, from, args[from])
      case Err(e) => Err(e)
      case Ok(v) =>
        match CoerceAll(c, args, from + 1)
        case Err(e) => Err(e)
        case Ok(vs) => Ok([v] + vs)
  }

  function Min(a: int, b: int): int {
    if a < b then a else b
  }

  function RealField(v: Value): Option<real> {
    if v.RealValue? then Some(v.r) else None
  }

  function IntField(v: Value): Option<int> {
    if v.IntValue? then Some(v.i) else None
  }

  function StrField(v: Value): Option<string> {
    if v.StrValue? then Some(v.s) else None
  }

  /** `BeamClass.from_strs(*args)`: the coercion loop, then the
      constructor, which wants exactly ten values. */
  function FromStrs(c: Coercions, args: seq<Option<string>>): (r: Result<Beam, BeamError>)
    ensures r.Ok? ==> |args| >= FieldCount
    ensures |args| < FieldCount && CoerceAll(c, args, 0).Ok? ==> r == Err(MissingArguments(|args|))
    ensures r.Err? <==> |args| < FieldCount || exists i :: 0 <= i < FieldCount && Coerce(c, i, args[i]).Err?
  {
    match CoerceAll(c, args, 0)
    case Err(e) => Err(e)
    case Ok(vs) =>
      if |vs| < FieldCount then Err(MissingArguments(|vs|))
      else
        Ok(Beam(vs[0].i, vs[1].s,
                RealField(vs[2]), RealField(vs[3]), IntField(vs[4]), IntField(vs[5]),
                RealField(vs[6]), RealField(vs[7]), RealField(vs[8]), StrField(vs[9])))
  }

  /** The plain fields of a built record: the index is `int` of the first
      argument, the name is the second argument as text (`None` for a
      missing one), and the notes are the tenth argument as given. */
  lemma FromStrsPlainFields(c: Coercions, args: seq<Option<string>>)
    requires FromStrs(c, args).Ok?
    ensures args[0].Some? && c.toInt(args[0].value) == Ok(FromStrs(c, args).value.index)
    ensures FromStrs(c, args).value.name == if args[1].None? then "None" else args[1].value
    ensures FromStrs(c, args).value.notes == args[9]
  {
    var vs := CoerceAll(c, args, 0).value;
    assert Coerce(c, 0, args[0]) == Ok(vs[0]);
    assert Coerce(c, 1, args[1]) == Ok(vs[1]);
    assert Coerce(c, 9, args[9]) == Ok(vs[9]);
  }

  /** Every `Optional` field of a built record is `None` exactly when its
      argument was `None`. */
  lemma FromStrsKeepsNone(c: Coercions, args: seq<Option<string>>)
    requires FromStrs(c, args).Ok?
    ensures var b := FromStrs(c, args).value;
      && (b.chargeTime.None? <==> args[2].None?) && (b.pulsePeriod.None? <==> args[3].None?)
      && (b.charge.None? <==> args[4].None?) && (b.rateMax.None? <==> args[5].None?)
      && (b.current.None? <==> args[6].None?) && (b.power.None? <==> args[7].None?)
      && (b.intEnergy.None? <==> args[8].None?) && (b.notes.None? <==> args[9].None?)
  {
    var vs := CoerceAll(c, args, 0).value;
    forall k | 2 <= k < FieldCount
      ensures Coerce(c, k, args[k]) == Ok(vs[k])
    {
    }
  }

  /** Arguments past the tenth are ignored, as `zip` stops at the shorter
      side. */
  lemma ExtraArgumentsIgnored(c: Coercions, args: seq<Option<string>>, extra: seq<Option<string>>)
    requires |args| == FieldCount
    ensures FromStrs(c, args + extra) == FromStrs(c, args)
  {
    CoerceAllPrefix(c, args, extra, 0);
  }

  lemma {:induction false} CoerceAllPrefix(c: Coercions, args: seq<Option<string>>, extra: seq<Option<string>>, from: nat)
    requires |args| == FieldCount && from <= FieldCount
    ensures CoerceAll(c, args + extra, from) == CoerceAll(c, args, from)
    decreases FieldCount - from
  {
    if from < FieldCount {
      assert (args + extra)[from] == args[from];
      CoerceAllPrefix(c, args, extra, from + 1);
    }
  }
}
