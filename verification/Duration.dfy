/** Parsing durations such as `250ms` or `1.5h`, against the grammar they are written in. */
module Duration {
  import opened Prelude
  import opened Decimal

  /** A finite number is milliseconds already; text is parsed. */
  datatype Input = Millis(ms: int) | Text(s: string)

  datatype Unit = Milliseconds | Seconds | Minutes | Hours | Days

  function Multiplier(u: Unit): nat {
    match u
    case Milliseconds => 1
    case Seconds => 1000
    case Minutes => 60_000
    case Hours => 3_600_000
    case Days => 86_400_000
  }

  function Symbol(u: Unit): string {
    match u
    case Milliseconds => "ms"
    case Seconds => "s"
    case Minutes => "m"
    case Hours => "h"
    case Days => "d"
  }

  function Lower(c: char): char {
    if 'A' <= c <= 'Z' then (c as int + 32) as char else c
  }

  function LowerAll(s: string): (r: string)
    ensures |r| == |s| && forall i :: 0 <= i < |s| ==> r[i] == Lower(s[i])
  {
    seq(|s|, i requires 0 <= i < |s| => Lower(s[i]))
  }

  /** Units are read in either case. */
  function UnitOf(s: string): Option<Unit> {
    var l := LowerAll(s);
    if l == "ms" then Some(Milliseconds)
    else if l == "s" then Some(Seconds)
    else if l == "m" then Some(Minutes)
    else if l == "h" then Some(Hours)
    else if l == "d" then Some(Days)
    else None
  }

  /** What JavaScript's trim removes. */
  predicate IsSpace(c: char) {
    c in {'\t', '\n', '\U{000B}', '\U{000C}', '\r', ' ', '\U{00A0}', '\U{1680}', '\U{2028}', '\U{2029}',
          '\U{202F}', '\U{205F}', '\U{3000}', '\U{FEFF}'} || '\U{2000}' <= c <= '\U{200A}'
  }

  /** The white space and line ends of ECMAScript, by code point. */
  lemma SpacesByCodePoint(c: char)
    ensures IsSpace(c) <==>
      c as int in {9, 10, 11, 12, 13, 32, 160, 0x1680, 0x2028, 0x2029, 0x202F, 0x205F, 0x3000, 0xFEFF}
      || 0x2000 <= c as int <= 0x200A
  {
  }

  function TrimLeft(s: string): string {
    if s != "" && IsSpace(s[0]) then TrimLeft(s[1..]) else s
  }

  function TrimRight(s: string): string {
    if s != "" && IsSpace(s[|s| - 1]) then TrimRight(s[..|s| - 1]) else s
  }

  function Trim(s: string): string {
    TrimRight(TrimLeft(s))
  }

  function Pow10(n: nat): nat {
    if n == 0 then 1 else 10 * Pow10(n - 1)
  }

  lemma Pow10Positive(n: nat)
    ensures Pow10(n) > 0
  {
  }

  /** A decimal number: digits and an optional fraction. */
  datatype Number = Number(whole: string, fraction: Option<string>)

  predicate IsNumber(n: Number) {
    n.whole != "" && AllDigits(n.whole)
    && (n.fraction.Some? ==> n.fraction.value != "" && AllDigits(n.fraction.value))
  }

  function Written(n: Number): string {
    n.whole + match n.fraction case Some(f) => "." + f case None => ""
  }

  function Value(n: Number): real
    requires IsNumber(n)
  {
    match n.fraction
    case None => ReadNat(n.whole) as real
    case Some(f) => Pow10Positive(|f|); ReadNat(n.whole) as real + ReadNat(f) as real / Pow10(|f|) as real
  }

  /** Math.round: to the nearest integer, halves up. */
  function Round(x: real): int {
    (x + 0.5).Floor
  }

  function InUnit(value: real, u: Unit): int {
    Round(value * Multiplier(u) as real)
  }

  /** The grammar: a number, then a unit, and nothing else. */
  predicate Matches(t: string, n: Number, symbol: string) {
    IsNumber(n) && UnitOf(symbol).Some? && t == Written(n) + symbol
  }

  // ----- The scanner -----

  function DigitsAt(s: string, from: nat): (to: nat)
    requires from <= |s|
    ensures from <= to <= |s| && AllDigits(s[from..to]) && (to < |s| ==> !IsDigit(s[to]))
    decreases |s| - from
  {
    if from < |s| && IsDigit(s[from]) then
      var to := DigitsAt(s, from + 1);
      assert forall i :: 0 <= i < to - from ==> s[from..to][i] == if i == 0 then s[from] else s[from + 1..to][i - 1];
      to
    else from
  }

  /** The longest number a string starts with, and the rest; no number when it starts with no digit. */
  function Scan(t: string): (r: (Number, string))
    ensures r.0.whole != "" ==> IsNumber(r.0)
  {
    var w := DigitsAt(t, 0);
    assert t[..w] == t[0..w];
    if w < |t| && t[w] == '.' && DigitsAt(t, w + 1) > w + 1 then
      var f := DigitsAt(t, w + 1);
      (Number(t[..w], Some(t[w + 1..f])), t[f..])
    else (Number(t[..w], None), t[w..])
  }

  function ParseDuration(input: Input): Option<int> {
    match input
    case Millis(ms) => Some(ms)
    case Text(s) =>
      var (n, symbol) := Scan(Trim(s));
      var unit := UnitOf(symbol);
      if n.whole != "" && unit.Some? then Some(InUnit(Value(n), unit.value)) else None
  }

  // ----- The scanner finds the only reading -----

  lemma UnitsHaveNoDigits(symbol: string, i: nat)
    requires UnitOf(symbol).Some? && i < |symbol|
    ensures !IsDigit(symbol[i]) && symbol[i] != '.'
  {
  }

  lemma {:induction false} DigitsEnd(s: string, from: nat, to: nat)
    requires from <= to <= |s| && AllDigits(s[from..to]) && (to < |s| ==> !IsDigit(s[to]))
    ensures DigitsAt(s, from) == to
    decreases |s| - from
  {
    if from < to {
      assert s[from] == s[from..to][0];
      assert s[from + 1..to] == s[from..to][1..];
      DigitsEnd(s, from + 1, to);
    }
  }

  /** A string that matches the grammar matches in exactly one way, the one the scanner finds. */
  lemma ScanFindsMatch(t: string, n: Number, symbol: string)
    requires Matches(t, n, symbol)
    ensures Scan(t) == (n, symbol)
  {
    var w := |n.whole|;
    UnitsHaveNoDigits(symbol, 0);
    assert t[0..w] == n.whole;
    match n.fraction
    case None =>
      assert t[w..] == symbol && t[w] == symbol[0];
      DigitsEnd(t, 0, w);
    case Some(f) =>
      var e := w + 1 + |f|;
      assert t[w] == '.' && t[w + 1..e] == f && t[e..] == symbol && t[e] == symbol[0];
      DigitsEnd(t, 0, w);
      DigitsEnd(t, w + 1, e);
  }

  lemma Pieces(t: string, w: nat, e: nat)
    requires w < e <= |t|
    ensures t == t[..w] + ([t[w]] + t[w + 1..e]) + t[e..]
  {
  }

  /** What the scanner reads is what is written: number and rest make up the string. */
  lemma ScanSplits(t: string)
    ensures t == Written(Scan(t).0) + Scan(t).1
  {
    var w := DigitsAt(t, 0);
    if w < |t| && t[w] == '.' && DigitsAt(t, w + 1) > w + 1 {
      Pieces(t, w, DigitsAt(t, w + 1));
    } else {
      assert t[..w] + "" == t[..w];
    }
  }

  /** A text is accepted if and only if its trimmed form has a reading in the grammar. */
  lemma AcceptsExactlyTheGrammar(s: string)
    ensures ParseDuration(Text(s)).Some? <==> exists n: Number, symbol: string :: Matches(Trim(s), n, symbol)
  {
    ScanSplits(Trim(s));
    if ParseDuration(Text(s)).Some? {
      assert Matches(Trim(s), Scan(Trim(s)).0, Scan(Trim(s)).1);
    }
    if n: Number, symbol: string :| Matches(Trim(s), n, symbol) {
      ScanFindsMatch(Trim(s), n, symbol);
    }
  }

  /** The split into number and unit is unique: `5ms` is never five minutes. */
  lemma SplitIsUnique(t: string, n: Number, symbol: string, n': Number, symbol': string)
    requires Matches(t, n, symbol) && Matches(t, n', symbol')
    ensures n == n' && symbol == symbol'
  {
    ScanFindsMatch(t, n, symbol);
    ScanFindsMatch(t, n', symbol');
  }

  /** The result is the exact decimal times the unit, rounded half up. */
  lemma ReadsTheValue(s: string, n: Number, symbol: string, u: Unit)
    requires Matches(Trim(s), n, symbol) && UnitOf(symbol) == Some(u)
    ensures ParseDuration(Text(s)) == Some(InUnit(Value(n), u))
  {
    ScanFindsMatch(Trim(s), n, symbol);
  }

  // ----- Round trip -----

  ghost predicate Blank(s: string) {
    forall c | c in s :: IsSpace(c)
  }

  lemma {:induction false} TrimLeftDrops(pad: string, s: string)
    requires Blank(pad) && s != "" && !IsSpace(s[0])
    ensures TrimLeft(pad + s) == s
  {
    if pad == "" {
      assert pad + s == s;
    } else {
      assert pad[0] in pad && forall c | c in pad[1..] :: c in pad;
      TrimLeftDrops(pad[1..], s);
      assert (pad + s)[1..] == pad[1..] + s;
    }
  }

  lemma {:induction false} TrimRightDrops(s: string, pad: string)
    requires Blank(pad) && s != "" && !IsSpace(s[|s| - 1])
    ensures TrimRight(s + pad) == s
  {
    if pad == "" {
      assert s + pad == s;
    } else {
      var n := |pad| - 1;
      assert pad[n] in pad && forall c | c in pad[..n] :: c in pad;
      TrimRightDrops(s, pad[..n]);
      assert (s + pad)[..|s| + n] == s + pad[..n] && (s + pad)[|s| + n] == pad[n];
    }
  }

  lemma TrimStrips(left: string, s: string, right: string)
    requires Blank(left) && Blank(right) && s != "" && !IsSpace(s[0]) && !IsSpace(s[|s| - 1])
    ensures Trim(left + s + right) == s
  {
    assert left + s + right == left + (s + right);
    TrimLeftDrops(left, s + right);
    TrimRightDrops(s, right);
  }

  lemma UnitIsNotSpace(symbol: string)
    requires UnitOf(symbol).Some?
    ensures !IsSpace(symbol[|symbol| - 1])
  {
  }

  /** A whole number printed with any unit in any case, padded with blanks, parses to that many units. */
  lemma PrintedDurationParses(n: nat, u: Unit, symbol: string, left: string, right: string)
    requires UnitOf(symbol) == Some(u) && Blank(left) && Blank(right)
    ensures ParseDuration(Text(left + (PrintNat(n) + symbol) + right)) == Some(n * Multiplier(u))
  {
    var digits := PrintNat(n);
    var s := digits + symbol;
    UnitIsNotSpace(symbol);
    assert IsDigit(s[0]) && s[|s| - 1] == symbol[|symbol| - 1];
    TrimStrips(left, s, right);
    WholeNumberParses(left + s + right, n, digits, symbol, u);
  }

  lemma WholeValue(n: nat)
    ensures Value(Number(PrintNat(n), None)) == n as real
  {
    ReadPrinted(n);
  }

  lemma WholeTimesUnit(v: real, n: nat, u: Unit)
    requires v == n as real
    ensures InUnit(v, u) == n * Multiplier(u)
  {
  }

  lemma WholeNumberParses(padded: string, n: nat, digits: string, symbol: string, u: Unit)
    requires digits == PrintNat(n) && UnitOf(symbol) == Some(u) && Trim(padded) == digits + symbol
    ensures ParseDuration(Text(padded)) == Some(n * Multiplier(u))
  {
    var number := Number(digits, None);
    assert Matches(Trim(padded), number, symbol) by { assert Written(number) == digits; }
    ReadsTheValue(padded, number, symbol, u);
    WholeValue(n);
    WholeTimesUnit(Value(number), n, u);
  }

  lemma SymbolsAreUnits(u: Unit)
    ensures UnitOf(Symbol(u)) == Some(u)
  {
    assert LowerAll(Symbol(u)) == Symbol(u);
  }
  // ----- Lengths, decimals and rounding written out -----

  /** A millisecond is one; a second is 1000 of them, a minute 60 seconds, an hour 60 minutes, a day 24 hours. */
  lemma UnitLengths()
    ensures Multiplier(Milliseconds) == 1
    ensures Multiplier(Seconds) == 1000 * Multiplier(Milliseconds)
    ensures Multiplier(Minutes) == 60 * Multiplier(Seconds)
    ensures Multiplier(Hours) == 60 * Multiplier(Minutes)
    ensures Multiplier(Days) == 24 * Multiplier(Hours)
  {
  }

  /** The unit texts, in lower and in upper case, and no others. */
  lemma UnitTexts(s: string)
    ensures UnitOf(s) == Some(Milliseconds) <==> s in {"ms", "Ms", "mS", "MS"}
    ensures UnitOf(s) == Some(Seconds) <==> s in {"s", "S"}
    ensures UnitOf(s) == Some(Minutes) <==> s in {"m", "M"}
    ensures UnitOf(s) == Some(Hours) <==> s in {"h", "H"}
    ensures UnitOf(s) == Some(Days) <==> s in {"d", "D"}
  {
    if |s| == 1 {
      assert s == [s[0]];
    } else if |s| == 2 {
      assert s == [s[0], s[1]];
    }
  }

  /** Rounding goes to the nearest whole number, halves up. */
  lemma RoundsToNearest(x: real, n: int)
    ensures Round(x) == n <==> n as real - 0.5 <= x < n as real + 0.5
  {
  }

  /** All the digits of a decimal, read as one whole number. */
  function Digits(w: string, f: string): nat
    requires AllDigits(w) && AllDigits(f)
  {
    JoinedDigits(w, f);
    ReadNat(w + f)
  }

  lemma JoinedDigits(w: string, f: string)
    requires AllDigits(w) && AllDigits(f)
    ensures AllDigits(w + f)
  {
  }

  /** Ten to the number of places of a fraction. */
  function Scale(f: string): (p: nat)
    ensures p > 0
  {
    Pow10Positive(|f|);
    Pow10(|f|)
  }

  lemma {:induction false} ReadJoined(w: string, f: string)
    requires AllDigits(w) && AllDigits(f)
    ensures Digits(w, f) == ReadNat(w) * Scale(f) + ReadNat(f)
  {
    JoinedDigits(w, f);
    if f == "" {
      assert w + f == w;
    } else {
      var n := |f| - 1;
      ReadJoined(w, f[..n]);
      assert (w + f)[..|w + f| - 1] == w + f[..n];
      assert 10 * (ReadNat(w) * Pow10(n)) == ReadNat(w) * (10 * Pow10(n));
    }
  }

  lemma Shifted(value: real, a: nat, b: nat, p: nat, digits: nat)
    requires p > 0 && value == a as real + b as real / p as real && digits == a * p + b
    ensures ShiftsTo(value, p, digits)
  {
    var q := b as real / p as real;
    assert q * p as real == b as real;
    assert (a as real + q) * p as real == a as real * p as real + q * p as real;
    assert a as real * p as real == (a * p) as real;
  }

  lemma ValueOfFraction(w: string, f: string)
    requires IsNumber(Number(w, Some(f)))
    ensures Value(Number(w, Some(f))) == ReadNat(w) as real + ReadNat(f) as real / Scale(f) as real
  {
  }

  predicate ShiftsTo(value: real, scale: nat, digits: nat) {
    value * scale as real == digits as real
  }

  /** The decimal law: shifted by as many places as the fraction has, the value is what all its digits read. */
  lemma DecimalLaw(w: string, f: string)
    requires IsNumber(Number(w, Some(f)))
    ensures ShiftsTo(Value(Number(w, Some(f))), Scale(f), Digits(w, f))
  {
    ValueOfFraction(w, f);
    ReadJoined(w, f);
    Shifted(Value(Number(w, Some(f))), ReadNat(w), ReadNat(f), Scale(f), Digits(w, f));
  }

  /** Each place is worth ten of the next. */
  lemma TenPerPlace(f: string, c: char)
    ensures Scale("") == 1 && Scale(f + [c]) == 10 * Scale(f)
  {
  }

  /** A number is its own milliseconds. */
  lemma NumbersAreMilliseconds(ms: int)
    ensures ParseDuration(Millis(ms)) == Some(ms)
  {
  }

  lemma Scaled(x: real, scale: real, bound: real)
    requires scale > 0.0
    ensures bound <= x <==> bound * scale <= x * scale
  {
    var gap := x - bound;
    assert gap * scale == x * scale - bound * scale;
    assert gap >= 0.0 ==> gap * scale >= 0.0;
    assert gap < 0.0 ==> gap * scale < 0.0;
  }

  lemma Exchange(value: real, unit: real, scale: real)
    ensures value * unit * scale == value * scale * unit
  {
  }

  lemma NearestScaled(value: real, unit: real, scale: real, digits: real, r: int)
    requires scale > 0.0 && value * scale == digits
    ensures Round(value * unit) == r <==> (r as real - 0.5) * scale <= digits * unit < (r as real + 0.5) * scale
  {
    var x := value * unit;
    assert x * scale == digits * unit by { Exchange(value, unit, scale); }
    RoundsToNearest(x, r);
    Scaled(x, scale, r as real - 0.5);
    Scaled(x, scale, r as real + 0.5);
  }

  /** `r` milliseconds are nearest: the digits, times the unit's length, within half of one at that scale. */
  ghost predicate Nearest(digits: nat, scale: nat, u: Unit, r: int) {
    (r as real - 0.5) * scale as real
    <= digits as real * Multiplier(u) as real < (r as real + 0.5) * scale as real
  }

  lemma RoundedIsNearest(value: real, scale: nat, digits: nat, u: Unit, r: int)
    requires scale > 0 && ShiftsTo(value, scale, digits)
    ensures InUnit(value, u) == r <==> Nearest(digits, scale, u, r)
  {
    NearestScaled(value, Multiplier(u) as real, scale as real, digits as real, r);
  }

  /**
   A decimal with any unit, however padded, parses to the nearest whole millisecond, halves up: all its
   digits, times the unit's length, lie within half a millisecond, scaled by the places of the fraction.
   */
  lemma DecimalParsesToNearest(w: string, f: string, u: Unit, symbol: string, s: string, r: int)
    requires IsNumber(Number(w, Some(f))) && Matches(Trim(s), Number(w, Some(f)), symbol) && UnitOf(symbol) == Some(u)
    ensures ParseDuration(Text(s)) == Some(r) <==> Nearest(Digits(w, f), Scale(f), u, r)
  {
    ReadsTheValue(s, Number(w, Some(f)), symbol, u);
    DecimalLaw(w, f);
    RoundedIsNearest(Value(Number(w, Some(f))), Scale(f), Digits(w, f), u, r);
  }
}
