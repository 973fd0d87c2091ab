/** The name of the directory the report is written into:
    `url.replace(/[^a-z0-9]/gi, '_').toLowerCase()`. */
module Sanitize {
  import opened JsText

  const Underscore: CodeUnit := 0x5F

  predicate IsUpper(u: CodeUnit) { 0x41 <= u <= 0x5A }
  predicate IsLower(u: CodeUnit) { 0x61 <= u <= 0x7A }

  /** The class `[a-z0-9]` under the `i` flag. Without the `u` flag the
      regular expression canonicalises by upper-casing and never maps a
      non-ASCII unit onto an ASCII one, so the class is exactly the ASCII
      letters of either case and the ASCII digits. */
  predicate IsAsciiAlnum(u: CodeUnit) { IsUpper(u) || IsLower(u) || IsDigit(u) }

  /** The alphabet of a directory name: `[a-z0-9_]`. */
  predicate IsDirNameUnit(u: CodeUnit) { IsLower(u) || IsDigit(u) || u == Underscore }

  /** The global replace: every code unit outside the class becomes `_`. */
  function ReplaceNonAlnum(s: JsString): JsString {
    if s == [] then []
    else (if IsAsciiAlnum(s[0]) then [s[0]] else [Underscore]) + ReplaceNonAlnum(s[1..])
  }

  function LowerUnit(u: CodeUnit): CodeUnit {
    if IsUpper(u) then u + 0x20 else u
  }

  /** `toLowerCase` on a string of ASCII code units, which is all it receives
      here: after the replace only `[A-Za-z0-9_]` remain. */
  function LowerAscii(s: JsString): JsString {
    if s == [] then [] else [LowerUnit(s[0])] + LowerAscii(s[1..])
  }

  function SanitizeDirectoryName(url: JsString): JsString {
    LowerAscii(ReplaceNonAlnum(url))
  }

  lemma {:induction false} ReplaceNonAlnumAt(s: JsString)
    ensures |ReplaceNonAlnum(s)| == |s|
    ensures forall i | 0 <= i < |s| ::
              ReplaceNonAlnum(s)[i] == if IsAsciiAlnum(s[i]) then s[i] else Underscore
  {
    if s != [] {
      ReplaceNonAlnumAt(s[1..]);
    }
  }

  lemma {:induction false} LowerAsciiAt(s: JsString)
    ensures |LowerAscii(s)| == |s|
    ensures forall i | 0 <= i < |s| :: LowerAscii(s)[i] == LowerUnit(s[i])
  {
    if s != [] {
      LowerAsciiAt(s[1..]);
    }
  }

  /** The whole map, code unit by code unit: the length is kept, letters and
      digits keep their place (letters lower-cased) and everything else
      becomes `_`. */
  lemma SanitizeAt(url: JsString)
    ensures |SanitizeDirectoryName(url)| == |url|
    ensures forall i | 0 <= i < |url| ::
              SanitizeDirectoryName(url)[i] ==
                if IsAsciiAlnum(url[i]) then LowerUnit(url[i]) else Underscore
  {
    ReplaceNonAlnumAt(url);
    LowerAsciiAt(ReplaceNonAlnum(url));
  }

  /** A directory name uses only `[a-z0-9_]`. */
  lemma SanitizeAlphabet(url: JsString)
    ensures forall i | 0 <= i < |SanitizeDirectoryName(url)| :: IsDirNameUnit(SanitizeDirectoryName(url)[i])
  {
    SanitizeAt(url);
  }

  /** Sanitising a directory name changes nothing. */
  lemma SanitizeIdempotent(url: JsString)
    ensures SanitizeDirectoryName(SanitizeDirectoryName(url)) == SanitizeDirectoryName(url)
  {
    var d := SanitizeDirectoryName(url);
    SanitizeAt(url);
    SanitizeAt(d);
    assert forall i | 0 <= i < |d| :: SanitizeDirectoryName(d)[i] == d[i] by {
      forall i | 0 <= i < |d| ensures SanitizeDirectoryName(d)[i] == d[i] {
        assert IsDirNameUnit(d[i]);
      }
    }
  }

  /** The replace step alone decides the outcome: two URLs get the same
      directory exactly when they agree up to letter case and up to which
      non-alphanumeric unit stands at each place. */
  lemma SanitizeSameIff(a: JsString, b: JsString)
    ensures SanitizeDirectoryName(a) == SanitizeDirectoryName(b) <==>
              |a| == |b| &&
              forall i | 0 <= i < |a| ::
                (IsAsciiAlnum(a[i]) <==> IsAsciiAlnum(b[i])) &&
                (IsAsciiAlnum(a[i]) ==> LowerUnit(a[i]) == LowerUnit(b[i]))
  {
    SanitizeAt(a);
    SanitizeAt(b);
    var da, db := SanitizeDirectoryName(a), SanitizeDirectoryName(b);
    if da == db {
      forall i | 0 <= i < |a|
        ensures (IsAsciiAlnum(a[i]) <==> IsAsciiAlnum(b[i]))
        ensures (IsAsciiAlnum(a[i]) ==> LowerUnit(a[i]) == LowerUnit(b[i]))
      {
        assert da[i] == db[i];
      }
    }
  }
}
