/** The parts of Python's `str` behaviour the client relies on: whitespace
    splitting, splitting on a separator, substring search, ASCII case mapping
    and `int()` on a token. Strings are `seq<char>`. */
module Text {
  import opened Results

  // ---------------------------------------------------------------------
  // str.split() with no separator
  // ---------------------------------------------------------------------

  /** The characters Python's `str.isspace()` accepts; `str.split()` with no
      argument splits on runs of them. */
  predicate IsSpace(c: char) {
    || ('\t' <= c <= '\r')
    || ('\U{1C}' <= c <= ' ')
    || c == '\U{85}' || c == '\U{A0}' || c == '\U{1680}'
    || ('\U{2000}' <= c <= '\U{200A}')
    || c == '\U{2028}' || c == '\U{2029}' || c == '\U{202F}'
    || c == '\U{205F}' || c == '\U{3000}'
  }

  predicate AllSpace(s: string) {
    forall i :: 0 <= i < |s| ==> IsSpace(s[i])
  }

  /** One field produced by `str.split()`: non-empty, no whitespace inside. */
  predicate IsToken(w: string) {
    w != [] && forall i :: 0 <= i < |w| ==> !IsSpace(w[i])
  }

  /** `s` with its leading whitespace removed. */
  function DropSpace(s: string): (r: string)
    ensures |r| <= |s|
    ensures r == [] || !IsSpace(r[0])
  {
    if s != [] && IsSpace(s[0]) then DropSpace(s[1..]) else s
  }

  /** The longest whitespace-free prefix of `s`. */
  function Word(s: string): (w: string)
    ensures |w| <= |s|
    ensures s != [] && !IsSpace(s[0]) ==> w != []
    ensures forall i :: 0 <= i < |w| ==> !IsSpace(w[i])
  {
    if s == [] || IsSpace(s[0]) then [] else [s[0]] + Word(s[1..])
  }

  /** Python's `s.split()`: the maximal whitespace-free runs of `s`, in order. */
  function SplitWs(s: string): (r: seq<string>)
    ensures forall k :: 0 <= k < |r| ==> IsToken(r[k])
    decreases |s|
  {
    var t := DropSpace(s);
    if t == [] then []
    else
      var w := Word(t);
      [w] + SplitWs(t[|w|..])
  }

  /** `" ".join(tokens)`. */
  function JoinWs(tokens: seq<string>): string {
    if tokens == [] then []
    else if |tokens| == 1 then tokens[0]
    else tokens[0] + (" " + JoinWs(tokens[1..]))
  }

  lemma {:induction false} DropSpacePrefix(pad: string, rest: string)
    requires AllSpace(pad)
    ensures DropSpace(pad + rest) == DropSpace(rest)
    decreases |pad|
  {
    if pad == [] {
      assert pad + rest == rest;
    } else {
      assert (pad + rest)[1..] == pad[1..] + rest;
      DropSpacePrefix(pad[1..], rest);
    }
  }

  lemma {:induction false} WordOfToken(tok: string, rest: string)
    requires forall i :: 0 <= i < |tok| ==> !IsSpace(tok[i])
    requires rest == [] || IsSpace(rest[0])
    ensures Word(tok + rest) == tok
    decreases |tok|
  {
    if tok == [] {
      assert tok + rest == rest;
    } else {
      assert (tok + rest)[1..] == tok[1..] + rest;
      WordOfToken(tok[1..], rest);
    }
  }

  /** A blank-free field after any amount of whitespace is the next field of
      `str.split()`, whatever follows it after a whitespace character. */
  lemma SplitWsCons(pad: string, tok: string, rest: string)
    requires AllSpace(pad) && IsToken(tok)
    requires rest == [] || IsSpace(rest[0])
    ensures SplitWs(pad + tok + rest) == [tok] + SplitWs(rest)
  {
    assert pad + tok + rest == pad + (tok + rest);
    DropSpacePrefix(pad, tok + rest);
    WordOfToken(tok, rest);
    assert (tok + rest)[|tok|..] == rest;
  }

  /** Leading whitespace does not change the fields. */
  lemma SplitWsPad(pad: string, rest: string)
    requires AllSpace(pad)
    ensures SplitWs(pad + rest) == SplitWs(rest)
  {
    DropSpacePrefix(pad, rest);
  }

  lemma SplitWsField(tok: string, rest: string)
    requires IsToken(tok)
    requires rest == [] || IsSpace(rest[0])
    ensures SplitWs(tok + rest) == [tok] + SplitWs(rest)
  {
    WordOfToken(tok, rest);
    assert (tok + rest)[|tok|..] == rest;
  }

  lemma SplitWsSingle(tok: string)
    requires IsToken(tok)
    ensures SplitWs(tok) == [tok]
  {
    var none: string := [];
    assert tok + none == tok;
    SplitWsField(tok, none);
  }

  /** A field followed by a run of blanks: the rest is split on its own. */
  lemma SplitWsSep(tok: string, pad: string, rest: string)
    requires IsToken(tok) && AllSpace(pad) && pad != []
    ensures SplitWs(tok + (pad + rest)) == [tok] + SplitWs(rest)
  {
    assert (pad + rest)[0] == pad[0];
    SplitWsField(tok, pad + rest);
    SplitWsPad(pad, rest);
  }

  lemma SplitWsSpaced(tok: string, rest: string)
    requires IsToken(tok)
    ensures SplitWs(tok + (" " + rest)) == [tok] + SplitWs(rest)
  {
    var sp: string := " ";
    assert AllSpace(sp) by {
      assert forall i :: 0 <= i < |sp| ==> sp[i] == ' ';
    }
    SplitWsField(tok, sp + rest);
    SplitWsPad(sp, rest);
  }

  /** `str.split()` undoes `" ".join` for any sequence of whitespace-free,
      non-empty fields. */
  lemma {:induction false} SplitWsJoinWs(tokens: seq<string>)
    requires forall k :: 0 <= k < |tokens| ==> IsToken(tokens[k])
    ensures SplitWs(JoinWs(tokens)) == tokens
  {
    if |tokens| == 1 {
      SplitWsSingle(tokens[0]);
    } else if |tokens| >= 2 {
      SplitWsJoinWs(tokens[1..]);
      SplitWsSpaced(tokens[0], JoinWs(tokens[1..]));
    }
  }

  // ---------------------------------------------------------------------
  // str.split(sep) for a one-character separator
  // ---------------------------------------------------------------------

  /** Python's `s.split(sep)` for a single-character `sep`: one more piece
      than there are separators, empty pieces kept. */
  function SplitOn(s: string, sep: char): (r: seq<string>)
    ensures |r| >= 1
    ensures forall k :: 0 <= k < |r| ==> sep !in r[k]
  {
    if s == [] then [[]]
    else
      var rest := SplitOn(s[1..], sep);
      if s[0] == sep then [[]] + rest
      else [[s[0]] + rest[0]] + rest[1..]
  }

  /** Python's `sep.join(pieces)`. */
  function JoinOn(pieces: seq<string>, sep: char): string
    requires |pieces| >= 1
  {
    if |pieces| == 1 then pieces[0]
    else pieces[0] + [sep] + JoinOn(pieces[1..], sep)
  }

  /** Joining the pieces back with the separator restores the text. */
  lemma {:induction false} JoinOnSplitOn(s: string, sep: char)
    ensures JoinOn(SplitOn(s, sep), sep) == s
  {
    if s != [] {
      var rest := SplitOn(s[1..], sep);
      JoinOnSplitOn(s[1..], sep);
      if s[0] == sep {
        assert SplitOn(s, sep)[1..] == rest;
      } else {
        var r := SplitOn(s, sep);
        if |rest| == 1 {
          assert r == [[s[0]] + rest[0]];
        } else {
          assert r[1..] == rest[1..];
          assert JoinOn(r, sep) == [s[0]] + rest[0] + [sep] + JoinOn(rest[1..], sep);
          assert JoinOn(rest, sep) == rest[0] + [sep] + JoinOn(rest[1..], sep);
        }
      }
    }
  }

  lemma {:induction false} SplitOnPrefix(a: string, tail: string, sep: char)
    requires sep !in a
    ensures SplitOn(a + tail, sep) == [a + SplitOn(tail, sep)[0]] + SplitOn(tail, sep)[1..]
    decreases |a|
  {
    if a == [] {
      var r := SplitOn(tail, sep);
      assert a + tail == tail;
      assert a + r[0] == r[0];
      assert r == [r[0]] + r[1..];
    } else {
      assert (a + tail)[1..] == a[1..] + tail;
      SplitOnPrefix(a[1..], tail, sep);
      assert [a[0]] + (a[1..] + SplitOn(tail, sep)[0]) == a + SplitOn(tail, sep)[0];
    }
  }

  /** Splitting undoes joining when no piece contains the separator. */
  lemma {:induction false} SplitOnJoinOn(pieces: seq<string>, sep: char)
    requires |pieces| >= 1
    requires forall k :: 0 <= k < |pieces| ==> sep !in pieces[k]
    ensures SplitOn(JoinOn(pieces, sep), sep) == pieces
  {
    if |pieces| == 1 {
      SplitOnPrefix(pieces[0], [], sep);
      assert pieces[0] + [] == pieces[0];
    } else {
      var tail := [sep] + JoinOn(pieces[1..], sep);
      assert JoinOn(pieces, sep) == pieces[0] + tail;
      SplitOnPrefix(pieces[0], tail, sep);
      SplitOnJoinOn(pieces[1..], sep);
      assert tail[1..] == JoinOn(pieces[1..], sep);
      assert SplitOn(tail, sep) == [[]] + pieces[1..];
      assert pieces[0] + [] == pieces[0];
    }
  }

  // ---------------------------------------------------------------------
  // Substrings
  // ---------------------------------------------------------------------

  /** `sub` occurs in `s` starting at position `j`. */
  predicate OccursAt(s: string, sub: string, j: int) {
    0 <= j && j + |sub| <= |s| && s[j..j + |sub|] == sub
  }

  /** The first position at or after `i` where `sub` occurs in `s`. */
  function IndexFrom(s: string, sub: string, i: nat): (r: Option<nat>)
    requires i <= |s|
    ensures r.Some? ==> i <= r.value && OccursAt(s, sub, r.value)
    ensures r.Some? ==> forall j :: i <= j < r.value ==> !OccursAt(s, sub, j)
    ensures r.None? ==> forall j :: i <= j ==> !OccursAt(s, sub, j)
    decreases |s| - i
  {
    if i + |sub| > |s| then None
    else if s[i..i + |sub|] == sub then Some(i)
    else IndexFrom(s, sub, i + 1)
  }

  /** Python's `s.find(sub)`, as an option. */
  function IndexOf(s: string, sub: string): Option<nat> {
    IndexFrom(s, sub, 0)
  }

  /** Python's `sub in s`. */
  predicate Contains(s: string, sub: string) {
    IndexOf(s, sub).Some?
  }

  /** Python's `s.startswith(p)`. */
  predicate StartsWith(s: string, p: string) {
    |p| <= |s| && s[..|p|] == p
  }

  /** Python's `s.split(sep)[1]` for a `sep` that occurs in `s`: the text
      after the first occurrence, up to the next one. */
  function SecondPiece(s: string, sep: string): (r: string)
    requires sep != [] && Contains(s, sep)
  {
    var i := IndexOf(s, sep).value;
    var rest := s[i + |sep|..];
    match IndexOf(rest, sep)
    case None => rest
    case Some(j) => rest[..j]
  }

  /** Every occurrence of one character replaced by another (Python's
      `s.replace(a, b)` for one-character arguments). */
  function ReplaceChar(s: string, from: char, to: char): string {
    seq(|s|, i requires 0 <= i < |s| => if s[i] == from then to else s[i])
  }

  // ---------------------------------------------------------------------
  // Case mapping (ASCII letters only)
  // ---------------------------------------------------------------------

  predicate IsUpperAscii(c: char) { 'A' <= c <= 'Z' }
  predicate IsLowerAscii(c: char) { 'a' <= c <= 'z' }

  function LowerChar(c: char): char {
    if IsUpperAscii(c) then (c as int + 32) as char else c
  }

  function UpperChar(c: char): char {
    if IsLowerAscii(c) then (c as int - 32) as char else c
  }

  function Lower(s: string): string {
    seq(|s|, i requires 0 <= i < |s| => LowerChar(s[i]))
  }

  /** Python's `s.capitalize()`: first character upper case, the rest lower. */
  function Capitalize(s: string): (r: string)
    ensures |r| == |s|
    ensures r != [] ==> !IsLowerAscii(r[0])
    ensures forall i :: 1 <= i < |r| ==> !IsUpperAscii(r[i])
    ensures forall i :: 0 <= i < |r| ==> LowerChar(r[i]) == LowerChar(s[i])
  {
    if s == [] then [] else [UpperChar(s[0])] + Lower(s[1..])
  }

  /** Capitalizing twice changes nothing more. */
  lemma CapitalizeIdempotent(s: string)
    ensures Capitalize(Capitalize(s)) == Capitalize(s)
  {
    var c := Capitalize(s);
    if s != [] {
      assert Capitalize(c)[1..] == Lower(c[1..]);
      assert Lower(c[1..]) == c[1..];
    }
  }

  // ---------------------------------------------------------------------
  // Decimal digits and Python int()
  // ---------------------------------------------------------------------

  predicate IsDigit(c: char) { '0' <= c <= '9' }

  /** A non-empty run of ASCII decimal digits. */
  predicate IsDigits(s: string) {
    s != [] && forall i :: 0 <= i < |s| ==> IsDigit(s[i])
  }

  /** The base-10 value of a digit string (leading zeros allowed). */
  function DigitValue(c: char): nat
    requires IsDigit(c)
  {
    c as int - '0' as int
  }

  function DigitsValue(s: string): nat
    requires forall i :: 0 <= i < |s| ==> IsDigit(s[i])
  {
    if s == [] then 0
    else DigitsValue(s[..|s| - 1]) * 10 + DigitValue(s[|s| - 1])
  }

  function DigitChar(d: nat): (c: char)
    requires d < 10
    ensures IsDigit(c) && DigitValue(c) == d
  {
    (48 + d) as char
  }

  /** Python's `str(n)` for a natural number. */
  function NatString(n: nat): (r: string)
    ensures IsDigits(r)
  {
    if n < 10 then [DigitChar(n)] else NatString(n / 10) + [DigitChar(n % 10)]
  }

  /** `"%02d" % n` for `n < 100`. */
  function Pad2(n: nat): (r: string)
    requires n < 100
    ensures IsDigits(r) && |r| == 2
  {
    [DigitChar(n / 10), DigitChar(n % 10)]
  }

  /** Python's `int(token)` on a whitespace-free token: an optional sign and
      ASCII digits; anything else raises `ValueError` (here `None`). */
  function ParseInt(s: string): Option<int> {
    if IsDigits(s) then Some(DigitsValue(s))
    else if |s| >= 2 && s[0] == '+' && IsDigits(s[1..]) then Some(DigitsValue(s[1..]))
    else if |s| >= 2 && s[0] == '-' && IsDigits(s[1..]) then
      var magnitude: int := DigitsValue(s[1..]);
      Some(-magnitude)
    else None
  }

  /** `int(str(n)) == n`. */
  lemma {:induction false} ParseIntNatString(n: nat)
    ensures ParseInt(NatString(n)) == Some(n)
  {
    NatStringValue(n);
  }

  lemma {:induction false} NatStringValue(n: nat)
    ensures DigitsValue(NatString(n)) == n
  {
    if n >= 10 {
      var s := NatString(n);
      assert s[..|s| - 1] == NatString(n / 10);
      NatStringValue(n / 10);
    }
  }

  /** `int("%02d" % n) == n`. */
  lemma ParseIntPad2(n: nat)
    requires n < 100
    ensures ParseInt(Pad2(n)) == Some(n)
  {
    var s := Pad2(n);
    assert s[..|s| - 1] == [DigitChar(n / 10)];
    assert s[..|s| - 1][..0] == [];
    assert DigitsValue(s[..|s| - 1]) == n / 10;
  }
}
