/** Random key bodies: every string over the alphabet is equally likely, counted exactly. */
module KeyBody {
  import opened Prelude

  type Byte = b: int | 0 <= b < 256

  const UPPER := "ABCDEFGHIJKLMNOPQRSTUVWXYZ"
  const LOWER := "abcdefghijklmnopqrstuvwxyz"
  const SIGNS := "0123456789-_"
  const URLSAFE := UPPER + (LOWER + SIGNS)
  const HEX := "0123456789abcdef"
  const BASE32_CROCKFORD := "0123456789ABCDEFGHJKMNPQRSTVWXYZ"

  function Pow(b: nat, e: nat): nat {
    if e == 0 then 1 else Pow(b, e - 1) * b
  }

  /** The characters picked by the bytes, each taken modulo the alphabet's length. */
  function Pick(bytes: seq<Byte>, alphabet: string): (s: string)
    requires alphabet != ""
    ensures |s| == |bytes|
  {
    if bytes == [] then ""
    else
      var n := |bytes| - 1;
      Pick(bytes[..n], alphabet) + [alphabet[bytes[n] % |alphabet|]]
  }

  /** The generator, given the bytes the crypto provider fills the array with. */
  method RandomString(length: int, alphabet: string, random: seq<Byte>) returns (s: string)
    requires alphabet != "" && (length > 0 ==> |random| == length)
    ensures s == if length <= 0 then "" else Pick(random, alphabet)
  {
    if length <= 0 { return ""; }
    var output := "";
    var base := |alphabet|;
    for i := 0 to length
      invariant output == Pick(random[..i], alphabet)
    {
      output := output + [alphabet[random[i] % base]];
      assert random[..i + 1][..i] == random[..i];
    }
    assert random[..length] == random;
    return output;
  }

  // ----- Counting the bytes behind one character -----

  ghost function Residues(base: nat, i: nat, n: nat): set<int>
    requires base > 0
  {
    set b | 0 <= b < n && b % base == i
  }

  lemma MultipleAtLeast(k: int, base: nat)
    requires k >= 1
    ensures k * base >= base
  {
  }

  /** Quotient and remainder are the only ones. */
  lemma DivisionIsUnique(x: nat, base: nat, q: int, r: nat)
    requires r < base && x == q * base + r
    ensures x / base == q && x % base == r
  {
    var p, t := x / base, x % base;
    assert x == p * base + t;
    assert (p - q) * base == r - t;
    if p > q {
      MultipleAtLeast(p - q, base);
    } else if p < q {
      assert (q - p) * base == t - r;
      MultipleAtLeast(q - p, base);
    }
  }

  lemma DivisionStep(x: nat, base: nat)
    requires base > 0
    ensures if x % base + 1 < base
      then (x + 1) / base == x / base && (x + 1) % base == x % base + 1
      else (x + 1) / base == x / base + 1 && (x + 1) % base == 0
  {
    var q, r := x / base, x % base;
    assert x == q * base + r;
    if r + 1 < base {
      DivisionIsUnique(x + 1, base, q, r + 1);
    } else {
      assert (q + 1) * base == q * base + base;
      DivisionIsUnique(x + 1, base, q + 1, 0);
    }
  }

  /** Among the first n numbers, residue `i` occurs n / base times, once more when i < n % base. */
  lemma {:induction false} ResidueCount(base: nat, i: nat, n: nat)
    requires i < base
    ensures |Residues(base, i, n)| == n / base + if i < n % base then 1 else 0
  {
    if n == 0 {
      assert Residues(base, i, 0) == {};
      DivisionIsUnique(0, base, 0, 0);
    } else {
      ResidueCount(base, i, n - 1);
      DivisionStep(n - 1, base);
      var last := if (n - 1) % base == i then {n - 1} else {};
      assert Residues(base, i, n) == Residues(base, i, n - 1) + last;
    }
  }

  predicate NoRepeats(alphabet: string) {
    forall i, j :: 0 <= i < j < |alphabet| ==> alphabet[i] != alphabet[j]
  }

  ghost function BytesFor(c: char, alphabet: string): set<Byte>
    requires alphabet != ""
  {
    set b: Byte | 0 <= b < 256 && alphabet[b % |alphabet|] == c
  }

  lemma BytesForCount(alphabet: string, i: nat)
    requires NoRepeats(alphabet) && i < |alphabet|
    ensures |BytesFor(alphabet[i], alphabet)|
         == 256 / |alphabet| + if i < 256 % |alphabet| then 1 else 0
  {
    var base := |alphabet|;
    assert BytesFor(alphabet[i], alphabet) == Residues(base, i, 256);
    ResidueCount(base, i, 256);
  }

  // ----- Counting the byte arrays behind one string -----

  ghost function Append(heads: set<seq<Byte>>, lasts: set<Byte>): set<seq<Byte>> {
    set h, b | h in heads && b in lasts :: h + [b]
  }

  lemma AppendMember(x: seq<Byte>, heads: set<seq<Byte>>, lasts: set<Byte>)
    requires x != []
    ensures x in Append(heads, lasts) <==> x[..|x| - 1] in heads && x[|x| - 1] in lasts
  {
    assert x == x[..|x| - 1] + [x[|x| - 1]];
  }

  lemma AppendInsert(h: seq<Byte>, lasts: set<Byte>, b: Byte)
    requires b in lasts
    ensures Append({h}, lasts) == Append({h}, lasts - {b}) + {h + [b]}
    ensures h + [b] !in Append({h}, lasts - {b})
  {
    forall x | x != [] ensures x in Append({h}, lasts) <==> x in Append({h}, lasts - {b}) || x == h + [b] {
      AppendMember(x, {h}, lasts);
      AppendMember(x, {h}, lasts - {b});
      assert x == x[..|x| - 1] + [x[|x| - 1]];
    }
    AppendMember(h + [b], {h}, lasts - {b});
  }

  lemma {:induction false} AppendOne(h: seq<Byte>, lasts: set<Byte>)
    ensures |Append({h}, lasts)| == |lasts|
  {
    if lasts == {} {
      assert Append({h}, lasts) == {};
    } else {
      var b :| b in lasts;
      AppendOne(h, lasts - {b});
      AppendInsert(h, lasts, b);
    }
  }

  lemma AppendSplits(heads: set<seq<Byte>>, h: seq<Byte>, lasts: set<Byte>)
    requires h in heads
    ensures Append(heads, lasts) == Append(heads - {h}, lasts) + Append({h}, lasts)
  {
    forall x | x in Append(heads, lasts) ensures x in Append(heads - {h}, lasts) + Append({h}, lasts) {
      var g, b :| g in heads && b in lasts && x == g + [b];
      assert g == h || g in heads - {h};
    }
  }

  lemma AppendDisjoint(heads: set<seq<Byte>>, h: seq<Byte>, lasts: set<Byte>)
    requires h !in heads
    ensures Append(heads, lasts) !! Append({h}, lasts)
  {
    forall x | x in Append(heads, lasts) ensures x !in Append({h}, lasts) {
      AppendMember(x, heads, lasts);
      AppendMember(x, {h}, lasts);
    }
  }

  lemma OneMoreRow(rows: nat, columns: nat)
    ensures rows * columns + columns == (rows + 1) * columns
  {
  }

  lemma {:induction false} AppendCount(heads: set<seq<Byte>>, lasts: set<Byte>)
    ensures |Append(heads, lasts)| == |heads| * |lasts|
  {
    if heads == {} {
      assert Append(heads, lasts) == {};
    } else {
      var h :| h in heads;
      var rest := heads - {h};
      var x, y := Append(rest, lasts), Append({h}, lasts);
      AppendCount(rest, lasts);
      AppendOne(h, lasts);
      assert |x + y| == |x| + |y| by { AppendDisjoint(rest, h, lasts); }
      assert Append(heads, lasts) == x + y by { AppendSplits(heads, h, lasts); }
      OneMoreRow(|rest|, |lasts|);
    }
  }

  /** The byte arrays that the generator turns into `s`. */
  ghost function Preimages(s: string, alphabet: string): set<seq<Byte>>
    requires alphabet != ""
  {
    if s == "" then {[]}
    else Append(Preimages(s[..|s| - 1], alphabet), BytesFor(s[|s| - 1], alphabet))
  }

  lemma {:induction false} PreimagesAreExact(s: string, alphabet: string, bytes: seq<Byte>)
    requires alphabet != ""
    ensures bytes in Preimages(s, alphabet) <==> Pick(bytes, alphabet) == s
  {
    if s != "" && bytes != [] {
      var n, m := |s| - 1, |bytes| - 1;
      var body := Pick(bytes[..m], alphabet);
      PreimagesAreExact(s[..n], alphabet, bytes[..m]);
      AppendMember(bytes, Preimages(s[..n], alphabet), BytesFor(s[n], alphabet));
      var c := alphabet[bytes[m] % |alphabet|];
      assert (body + [c])[..m] == body && s == s[..n] + [s[n]];
      assert body + [c] == s <==> body == s[..n] && c == s[n] by {
        if body + [c] == s { assert s[..n] == (body + [c])[..m]; }
      }
    }
  }

  ghost predicate Over(s: string, alphabet: string) {
    forall c | c in s :: c in alphabet
  }

  /** Every string of length n over the alphabet comes from exactly (256 / base)^n byte arrays. */
  lemma {:induction false} BodiesAreUniform(s: string, alphabet: string)
    requires NoRepeats(alphabet) && alphabet != "" && 256 % |alphabet| == 0
    requires Over(s, alphabet)
    ensures |Preimages(s, alphabet)| == Pow(256 / |alphabet|, |s|)
  {
    if s != "" {
      var n := |s| - 1;
      assert s[n] in s && forall c | c in s[..n] :: c in s;
      BodiesAreUniform(s[..n], alphabet);
      var i: nat :| i < |alphabet| && alphabet[i] == s[n];
      BytesForCount(alphabet, i);
      AppendCount(Preimages(s[..n], alphabet), BytesFor(s[n], alphabet));
    }
  }

  ghost predicate Unbiased(alphabet: string)
    requires alphabet != ""
  {
    forall s: string, t: string | Over(s, alphabet) && Over(t, alphabet) && |s| == |t| ::
      |Preimages(s, alphabet)| == |Preimages(t, alphabet)|
  }

  lemma OneCharacter(alphabet: string, i: nat)
    requires i < |alphabet|
    ensures |Preimages([alphabet[i]], alphabet)| == |BytesFor(alphabet[i], alphabet)|
    ensures Over([alphabet[i]], alphabet)
  {
    assert [alphabet[i]][..0] == "";
    AppendOne([], BytesFor(alphabet[i], alphabet));
  }

  /** The modulo adds no bias if and only if the alphabet's length divides 256. */
  lemma UnbiasedIffDivides(alphabet: string)
    requires NoRepeats(alphabet) && alphabet != ""
    ensures Unbiased(alphabet) <==> 256 % |alphabet| == 0
  {
    if 256 % |alphabet| == 0 {
      forall s: string, t: string | Over(s, alphabet) && Over(t, alphabet) && |s| == |t|
        ensures |Preimages(s, alphabet)| == |Preimages(t, alphabet)|
      {
        BodiesAreUniform(s, alphabet);
        BodiesAreUniform(t, alphabet);
      }
    } else {
      var last := |alphabet| - 1;
      OneCharacter(alphabet, 0);
      OneCharacter(alphabet, last);
      BytesForCount(alphabet, 0);
      BytesForCount(alphabet, last);
      assert |Preimages([alphabet[0]], alphabet)| != |Preimages([alphabet[last]], alphabet)|;
    }
  }

  predicate Ascending(s: string) {
    forall i :: 0 <= i < |s| - 1 ==> s[i] < s[i + 1]
  }

  lemma {:induction false} AscendingTo(s: string, i: nat, j: nat)
    requires Ascending(s) && i < j < |s|
    ensures s[i] < s[j]
  {
    if i < j - 1 { AscendingTo(s, i, j - 1); }
  }

  lemma AscendingHasNoRepeats(s: string)
    requires Ascending(s)
    ensures NoRepeats(s)
  {
    forall i, j | 0 <= i < j < |s| ensures s[i] != s[j] {
      AscendingTo(s, i, j);
    }
  }

  lemma JoinNoRepeats(a: string, b: string)
    requires Ascending(a) && NoRepeats(b)
    requires forall i, j :: 0 <= i < |a| && 0 <= j < |b| ==> a[i] != b[j]
    ensures NoRepeats(a + b)
  {
    AscendingHasNoRepeats(a);
  }

  predicate Outside(s: string, lo: char, hi: char) {
    forall i :: 0 <= i < |s| ==> s[i] < lo || hi < s[i]
  }

  lemma UpperIsRange()
    ensures forall i :: 0 <= i < |UPPER| ==> 'A' <= UPPER[i] <= 'Z'
    ensures |UPPER| == 26 && Ascending(UPPER)
  {
  }

  lemma LowerIsRange()
    ensures forall i :: 0 <= i < |LOWER| ==> 'a' <= LOWER[i] <= 'z'
    ensures |LOWER| == 26 && Ascending(LOWER)
  {
  }

  lemma SignsAreOutside()
    ensures |SIGNS| == 12 && NoRepeats(SIGNS) && Outside(SIGNS, 'A', 'Z') && Outside(SIGNS, 'a', 'z')
  {
  }

  lemma UrlSafeHasNoRepeats()
    ensures NoRepeats(URLSAFE) && |URLSAFE| == 64
  {
    var (upper, lower, signs) := (UPPER, LOWER, SIGNS);
    UpperIsRange();
    LowerIsRange();
    SignsAreOutside();
    JoinNoRepeats(lower, signs);
    assert Outside(lower + signs, 'A', 'Z');
    JoinNoRepeats(upper, lower + signs);
  }

  /** All three alphabets qualify. */
  lemma AlphabetsAreUnbiased()
    ensures NoRepeats(URLSAFE) && NoRepeats(HEX) && NoRepeats(BASE32_CROCKFORD)
    ensures Unbiased(URLSAFE) && Unbiased(HEX) && Unbiased(BASE32_CROCKFORD)
    ensures |URLSAFE| == 64 && |HEX| == 16 && |BASE32_CROCKFORD| == 32
  {
    UrlSafeHasNoRepeats();
    UnbiasedIffDivides(URLSAFE);
    AscendingHasNoRepeats(HEX);
    UnbiasedIffDivides(HEX);
    AscendingHasNoRepeats(BASE32_CROCKFORD);
    UnbiasedIffDivides(BASE32_CROCKFORD);
  }

  // ----- Rendered keys -----

  datatype KeyKind =
    | Uuid(prefix: Option<string>)
    | UrlSafe(length: Option<int>, prefix: Option<string>)
    | Hex(length: Option<int>, prefix: Option<string>)
    | Base32(length: Option<int>, prefix: Option<string>)

  function Alphabet(kind: KeyKind): string
    requires !kind.Uuid?
  {
    if kind.UrlSafe? then URLSAFE else if kind.Hex? then HEX else BASE32_CROCKFORD
  }

  function BodyLength(kind: KeyKind): int
    requires !kind.Uuid?
  {
    Or(kind.length, if kind.UrlSafe? then 32 else if kind.Hex? then 64 else 26)
  }

  function Label(kind: KeyKind, defaultPrefix: string, includePrefix: bool): string {
    if includePrefix then Or(kind.prefix, defaultPrefix) + "_" else ""
  }

  /** Label and body of a key; the body of a uuid kind is the uuid, any other is picked by random bytes. */
  function Rendered(kind: KeyKind, defaultPrefix: string, includePrefix: bool, random: seq<Byte>, uuid: string)
    : string
  {
    Label(kind, defaultPrefix, includePrefix) + if kind.Uuid? then uuid else Pick(random, Alphabet(kind))
  }

  method RenderKey(kind: KeyKind, defaultPrefix: string, includePrefix: bool, random: seq<Byte>, uuid: string)
    returns (key: string)
    requires !kind.Uuid? ==> |random| == Max(0, BodyLength(kind))
    ensures key == Rendered(kind, defaultPrefix, includePrefix, random, uuid)
  {
    var body := uuid;
    if !kind.Uuid? {
      body := RandomString(BodyLength(kind), Alphabet(kind), random);
    }
    if !includePrefix { return body; }
    return Or(kind.prefix, defaultPrefix) + "_" + body;
  }

  lemma AlphabetDivides(kind: KeyKind)
    requires !kind.Uuid?
    ensures NoRepeats(Alphabet(kind)) && 0 < |Alphabet(kind)| <= 256 && 256 % |Alphabet(kind)| == 0
  {
    UrlSafeHasNoRepeats();
    AscendingHasNoRepeats(HEX);
    AscendingHasNoRepeats(BASE32_CROCKFORD);
  }

  lemma PrefixIsConstant(tag: string, picked: string, body: string)
    ensures tag + picked == tag + body <==> picked == body
  {
    assert (tag + picked)[|tag|..] == picked && (tag + body)[|tag|..] == body;
  }

  /** Under any constant prefix each body still comes from the same number of byte arrays. */
  lemma UniformUnderPrefix(alphabet: string, tag: string, body: string)
    requires NoRepeats(alphabet) && alphabet != "" && 256 % |alphabet| == 0 && Over(body, alphabet)
    ensures forall bytes: seq<Byte> ::
      tag + Pick(bytes, alphabet) == tag + body <==> bytes in Preimages(body, alphabet)
    ensures |Preimages(body, alphabet)| == Pow(256 / |alphabet|, |body|)
  {
    BodiesAreUniform(body, alphabet);
    forall bytes: seq<Byte>
      ensures tag + Pick(bytes, alphabet) == tag + body <==> bytes in Preimages(body, alphabet)
    {
      PreimagesAreExact(body, alphabet, bytes);
      PrefixIsConstant(tag, Pick(bytes, alphabet), body);
    }
  }

  /** So every random key that a kind can render comes from exactly (256 / base)^length byte arrays. */
  lemma RenderedKeysAreUniform(
      kind: KeyKind, defaultPrefix: string, includePrefix: bool, uuid: string, alphabet: string, body: string)
    requires !kind.Uuid? && alphabet == Alphabet(kind) && alphabet != "" && Over(body, alphabet)
    ensures forall bytes: seq<Byte> ::
      Rendered(kind, defaultPrefix, includePrefix, bytes, uuid) == Label(kind, defaultPrefix, includePrefix) + body
      <==> bytes in Preimages(body, alphabet)
    ensures |Preimages(body, alphabet)| == Pow(256 / |alphabet|, |body|)
  {
    AlphabetDivides(kind);
    UniformUnderPrefix(alphabet, Label(kind, defaultPrefix, includePrefix), body);
  }
  // ----- The form of a key -----

  /** The characters of each kind: letters, digits and two signs; hexadecimal; Crockford's, without I, L, O and U. */
  predicate InAlphabet(kind: KeyKind, c: char)
    requires !kind.Uuid?
  {
    match kind
    case UrlSafe(_, _) => 'A' <= c <= 'Z' || 'a' <= c <= 'z' || '0' <= c <= '9' || c == '-' || c == '_'
    case Hex(_, _) => '0' <= c <= '9' || 'a' <= c <= 'f'
    case Base32(_, _) => '0' <= c <= '9' || ('A' <= c <= 'Z' && c != 'I' && c != 'L' && c != 'O' && c != 'U')
  }

  lemma LetterAt(c: char)
    ensures 'A' <= c <= 'Z' <==> c in UPPER
    ensures 'a' <= c <= 'z' <==> c in LOWER
  {
    UpperIsRange();
    LowerIsRange();
    if 'A' <= c <= 'Z' { assert UPPER[c as int - 'A' as int] == c; }
    if 'a' <= c <= 'z' { assert LOWER[c as int - 'a' as int] == c; }
  }

  lemma SignAt(c: char)
    ensures '0' <= c <= '9' || c == '-' || c == '_' <==> c in SIGNS
  {
    if '0' <= c <= '9' { assert SIGNS[c as int - '0' as int] == c; }
    assert SIGNS[10] == '-' && SIGNS[11] == '_';
  }

  lemma HexAt(c: char)
    ensures '0' <= c <= '9' || 'a' <= c <= 'f' <==> c in HEX
  {
    if '0' <= c <= '9' { assert HEX[c as int - '0' as int] == c; }
    if 'a' <= c <= 'f' { assert HEX[c as int - 'a' as int + 10] == c; }
  }

  predicate IsCrockford(c: char) {
    '0' <= c <= '9' || ('A' <= c <= 'Z' && c != 'I' && c != 'L' && c != 'O' && c != 'U')
  }

  lemma Base32Only(i: nat)
    requires i < |BASE32_CROCKFORD|
    ensures IsCrockford(BASE32_CROCKFORD[i])
  {
  }

  /** Where a character of Crockford's alphabet stands: the letters left out shift those behind them. */
  function Base32Place(c: char): nat
    requires IsCrockford(c)
  {
    if c <= '9' then c as int - '0' as int
    else if c < 'I' then c as int - 'A' as int + 10
    else if c < 'L' then c as int - 'J' as int + 18
    else if c < 'O' then c as int - 'M' as int + 20
    else if c < 'U' then c as int - 'P' as int + 22
    else c as int - 'V' as int + 27
  }

  lemma Base32Has(c: char)
    requires IsCrockford(c)
    ensures Base32Place(c) < |BASE32_CROCKFORD| && BASE32_CROCKFORD[Base32Place(c)] == c
  {
  }

  lemma Base32At(c: char)
    ensures c in BASE32_CROCKFORD <==> IsCrockford(c)
  {
    if IsCrockford(c) { Base32Has(c); }
    if i: nat :| i < |BASE32_CROCKFORD| && BASE32_CROCKFORD[i] == c { Base32Only(i); }
  }

  /** Each kind draws from just those characters. */
  lemma AlphabetsWrittenOut(kind: KeyKind, c: char)
    requires !kind.Uuid?
    ensures c in Alphabet(kind) <==> InAlphabet(kind, c)
  {
    match kind
    case UrlSafe(_, _) => LetterAt(c); SignAt(c);
    case Hex(_, _) => HexAt(c);
    case Base32(_, _) => Base32At(c);
  }

  lemma {:induction false} PicksFrom(bytes: seq<Byte>, alphabet: string)
    requires alphabet != ""
    ensures forall c | c in Pick(bytes, alphabet) :: c in alphabet
  {
    if bytes != [] { PicksFrom(bytes[..|bytes| - 1], alphabet); }
  }

  /** The length a kind asks for; 32, 64 or 26 characters when it names none. */
  function LengthOf(kind: KeyKind): nat
    requires !kind.Uuid?
  {
    match kind
    case UrlSafe(Some(n), _) => Max(0, n)
    case Hex(Some(n), _) => Max(0, n)
    case Base32(Some(n), _) => Max(0, n)
    case UrlSafe(None, _) => 32
    case Hex(None, _) => 64
    case Base32(None, _) => 26
  }

  /** What a body of this kind may be: the uuid, or that many of its characters. */
  ghost predicate IsBody(kind: KeyKind, body: string, uuid: string) {
    if kind.Uuid? then body == uuid else |body| == LengthOf(kind) && forall c | c in body :: InAlphabet(kind, c)
  }

  /** The prefix in force: the kind's own, else the default. */
  function PrefixInForce(kind: KeyKind, defaultPrefix: string): string {
    match kind.prefix case Some(p) => p case None => defaultPrefix
  }

  /** A rendered key is the prefix in force, an underscore and a body, or the body alone. */
  lemma RenderedForm(
      kind: KeyKind, defaultPrefix: string, includePrefix: bool, random: seq<Byte>, uuid: string)
    returns (body: string)
    requires !kind.Uuid? ==> |random| == LengthOf(kind)
    ensures IsBody(kind, body, uuid)
    ensures Rendered(kind, defaultPrefix, includePrefix, random, uuid)
      == if includePrefix then PrefixInForce(kind, defaultPrefix) + "_" + body else body
  {
    if kind.Uuid? {
      body := uuid;
    } else {
      body := Pick(random, Alphabet(kind));
      PicksFrom(random, Alphabet(kind));
      forall c | c in body ensures InAlphabet(kind, c) {
        AlphabetsWrittenOut(kind, c);
      }
    }
  }

  /** The generator is asked for just that many bytes. */
  lemma BodyLengthWrittenOut(kind: KeyKind)
    requires !kind.Uuid?
    ensures Max(0, BodyLength(kind)) == LengthOf(kind)
  {
  }

  /** Different uuids give different keys. */
  lemma UuidKeysDiffer(
      prefix: Option<string>, defaultPrefix: string, includePrefix: bool, random: seq<Byte>,
      uuid: string, other: string)
    ensures (Rendered(Uuid(prefix), defaultPrefix, includePrefix, random, uuid)
             == Rendered(Uuid(prefix), defaultPrefix, includePrefix, random, other)) <==> uuid == other
  {
    PrefixIsConstant(Label(Uuid(prefix), defaultPrefix, includePrefix), uuid, other);
  }
}
