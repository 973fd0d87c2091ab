/** JavaScript strings as the crawler sees them: sequences of UTF-16 code
    units, with the few string primitives the crawler uses (startsWith,
    includes, and the decimal rendering of a count inside a template). */
module JsText {

  /** One UTF-16 code unit. JavaScript strings, and the regular expressions
      without the `u` flag that run over them, work unit by unit. */
  newtype CodeUnit = x: int | 0 <= x < 0x1_0000

  type JsString = seq<CodeUnit>

  /** The code units of one Unicode scalar value: itself when it lies in the
      Basic Multilingual Plane, otherwise a surrogate pair. */
  function EncodeScalar(c: char): (r: JsString)
    ensures |r| == if c as int < 0x1_0000 then 1 else 2
    ensures c as int < 0x1_0000 ==> r[0] as int == c as int
    ensures c as int >= 0x1_0000 ==> 0xD800 <= r[0] as int < 0xDC00 <= r[1] as int < 0xE000
  {
    var v := c as int;
    if v < 0x1_0000 then [v as CodeUnit]
    else
      var w := v - 0x1_0000;
      [(0xD800 + w / 0x400) as CodeUnit, (0xDC00 + w % 0x400) as CodeUnit]
  }

  /** The JavaScript string a string literal of the source denotes: the code
      units of its characters, one after another. */
  function Utf16(s: string): JsString {
    Concat(seq(|s|, i requires 0 <= i < |s| => EncodeScalar(s[i])))
  }

  /** A literal's first code unit is that of its first character. */
  lemma Utf16Head(s: string)
    requires s != [] && s[0] as int < 0x1_0000
    ensures Utf16(s) != [] && Utf16(s)[0] as int == s[0] as int
  {
    ConcatHead(seq(|s|, i requires 0 <= i < |s| => EncodeScalar(s[i])));
  }

  /** `s.startsWith(p)`. */
  predicate StartsWith(s: JsString, p: JsString) {
    |p| <= |s| && s[..|p|] == p
  }

  /** Regrouping a concatenation. The solver's theory of sequences has no
      associativity rule, so steps that regroup text call this. */
  lemma Assoc(a: JsString, b: JsString, c: JsString)
    ensures a + (b + c) == (a + b) + c
  {
  }

  lemma TakeSnoc<T>(s: seq<T>, i: nat)
    requires i < |s|
    ensures s[..i + 1] == s[..i] + [s[i]]
  {
  }

  lemma TakeAll<T>(s: seq<T>)
    ensures s[..|s|] == s
  {
  }

  lemma StartsWithAppend(a: JsString, b: JsString)
    ensures StartsWith(a + b, a)
  {
    assert (a + b)[..|a|] == a;
  }

  lemma StartsWithTrans(s: JsString, p: JsString, q: JsString)
    requires StartsWith(s, p) && StartsWith(p, q)
    ensures StartsWith(s, q)
  {
    assert s[..|q|] == s[..|p|][..|q|];
  }

  /** Putting the same text in front keeps a prefix a prefix. */
  lemma StartsWithUnderPrefix(x: JsString, s: JsString, p: JsString)
    requires StartsWith(s, p)
    ensures StartsWith(x + s, x + p)
  {
    assert (x + s)[..|x| + |p|] == x + s[..|p|];
  }

  /** The concatenation of a sequence of strings, left to right. */
  function Concat(parts: seq<JsString>): JsString {
    if parts == [] then [] else Concat(parts[..|parts| - 1]) + parts[|parts| - 1]
  }

  /** A concatenation whose first part is not empty starts with that part's
      first code unit. */
  lemma {:induction false} ConcatHead(parts: seq<JsString>)
    requires parts != [] && parts[0] != []
    ensures Concat(parts) != [] && Concat(parts)[0] == parts[0][0]
  {
    if |parts| > 1 {
      var init := parts[..|parts| - 1];
      ConcatHead(init);
    }
  }

  // Decimal digits, as JavaScript writes a non-negative integer below 2^53.

  const Zero: CodeUnit := 0x30

  function Digit(d: nat): (u: CodeUnit)
    requires d < 10
  {
    (0x30 + d) as CodeUnit
  }

  predicate IsDigit(u: CodeUnit) {
    0x30 <= u <= 0x39
  }

  predicate AllDigits(s: JsString) {
    forall i | 0 <= i < |s| :: IsDigit(s[i])
  }

  /** `${n}` for an array length or index: the shortest decimal numeral. */
  function Decimal(n: nat): (r: JsString)
    ensures |r| >= 1 && AllDigits(r)
    ensures |r| > 1 ==> r[0] != Zero
    ensures n < 10 <==> |r| == 1
  {
    if n < 10 then [Digit(n)] else Decimal(n / 10) + [Digit(n % 10)]
  }

  /** The value of a numeral; the reference definition Decimal is checked against. */
  function DecimalValue(s: JsString): nat
    requires AllDigits(s)
  {
    if s == [] then 0 else DecimalValue(s[..|s| - 1]) * 10 + (s[|s| - 1] as int - 0x30)
  }

  /** Reading back the numeral of n gives n: the count and the numbering are
      rendered without loss. */
  lemma {:induction false} DecimalRoundTrip(n: nat)
    ensures DecimalValue(Decimal(n)) == n
  {
    if n >= 10 {
      var r := Decimal(n);
      assert r[..|r| - 1] == Decimal(n / 10);
      DecimalRoundTrip(n / 10);
    }
  }

  /** Distinct numbers have distinct numerals. */
  lemma DecimalInjective(m: nat, n: nat)
    requires Decimal(m) == Decimal(n)
    ensures m == n
  {
    DecimalRoundTrip(m);
    DecimalRoundTrip(n);
  }
}
