/** The link list of the root page: the absolute `href` of every anchor, in
    document order, kept when it starts with the page's origin and has no
    `#`, then deduplicated through a `Set`, which keeps first-seen order. */
module Links {
  import opened JsText

  const Hash: CodeUnit := 0x23

  /** `href.startsWith(origin) && !href.includes('#')`: a plain prefix test
      on the text, not a comparison of parsed origins. */
  predicate Keep(href: JsString, origin: JsString) {
    StartsWith(href, origin) && Hash !in href
  }

  function FilterLinks(hrefs: seq<JsString>, origin: JsString): seq<JsString> {
    if hrefs == [] then []
    else
      var rest := FilterLinks(hrefs[..|hrefs| - 1], origin);
      var last := hrefs[|hrefs| - 1];
      if Keep(last, origin) then rest + [last] else rest
  }

  /** `[...new Set(s)]`: each value once, where it was first added. */
  function Dedup(s: seq<JsString>): seq<JsString> {
    if s == [] then []
    else
      var d := Dedup(s[..|s| - 1]);
      var last := s[|s| - 1];
      if last in d then d else d + [last]
  }

  function CollectLinks(hrefs: seq<JsString>, origin: JsString): seq<JsString> {
    Dedup(FilterLinks(hrefs, origin))
  }

  predicate NoDuplicates(s: seq<JsString>) {
    forall i, j | 0 <= i < j < |s| :: s[i] != s[j]
  }

  /** The index at which x first occurs in s. */
  function FirstIndex(s: seq<JsString>, x: JsString): (k: nat)
    requires x in s
    ensures k < |s| && s[k] == x && x !in s[..k]
  {
    var init := s[..|s| - 1];
    if x in init then
      var k := FirstIndex(init, x);
      assert s[..k] == init[..k];
      k
    else
      |s| - 1
  }

  // Filtering

  /** An href is collected exactly when it is one of the page's hrefs and
      passes the origin and fragment test. */
  lemma {:induction false} FilterLinksMembers(hrefs: seq<JsString>, origin: JsString)
    ensures forall x :: x in FilterLinks(hrefs, origin) <==> x in hrefs && Keep(x, origin)
  {
    if hrefs != [] {
      var init := hrefs[..|hrefs| - 1];
      FilterLinksMembers(init, origin);
      assert hrefs == init + [hrefs[|hrefs| - 1]];
    }
  }

  /** Filtering a list that passes the test already leaves it as it is. */
  lemma {:induction false} FilterLinksKeepsKept(hrefs: seq<JsString>, origin: JsString)
    requires forall i | 0 <= i < |hrefs| :: Keep(hrefs[i], origin)
    ensures FilterLinks(hrefs, origin) == hrefs
  {
    if hrefs != [] {
      var init := hrefs[..|hrefs| - 1];
      FilterLinksKeepsKept(init, origin);
      assert init + [hrefs[|hrefs| - 1]] == hrefs;
    }
  }

  // Deduplication

  lemma {:induction false} DedupMembers(s: seq<JsString>)
    ensures forall x :: x in Dedup(s) <==> x in s
  {
    if s != [] {
      var init := s[..|s| - 1];
      DedupMembers(init);
      assert s == init + [s[|s| - 1]];
    }
  }

  lemma {:induction false} DedupNoDuplicates(s: seq<JsString>)
    ensures NoDuplicates(Dedup(s))
  {
    if s != [] {
      DedupNoDuplicates(s[..|s| - 1]);
    }
  }

  /** The deduplicated list keeps the values in the order of their first
      occurrence in the input. */
  lemma {:induction false} DedupFirstSeenOrder(s: seq<JsString>)
    ensures forall x | x in Dedup(s) :: x in s
    ensures forall i, j | 0 <= i < j < |Dedup(s)| ::
              FirstIndex(s, Dedup(s)[i]) < FirstIndex(s, Dedup(s)[j])
  {
    DedupMembers(s);
    if s != [] {
      var init := s[..|s| - 1];
      var last := s[|s| - 1];
      var d := Dedup(init);
      DedupFirstSeenOrder(init);
      DedupMembers(init);
      var r := Dedup(s);
      forall i, j | 0 <= i < j < |r|
        ensures FirstIndex(s, r[i]) < FirstIndex(s, r[j])
      {
        assert r[i] == d[i];
        FirstIndexOfSnocAt(s, d[i]);
        if j < |d| {
          assert r[j] == d[j];
          FirstIndexOfSnocAt(s, d[j]);
        } else {
          FirstIndexOfLast(s);
        }
      }
    }
  }

  /** A list without duplicates is its own deduplication. */
  lemma {:induction false} DedupOfDistinct(s: seq<JsString>)
    requires NoDuplicates(s)
    ensures Dedup(s) == s
  {
    if s != [] {
      var init := s[..|s| - 1];
      DedupOfDistinct(init);
      assert init + [s[|s| - 1]] == s;
      assert s[|s| - 1] !in init;
    }
  }

  // The collected list

  /** Every collected link starts with the origin and holds no `#`; every
      href of the page that does both is collected; none twice; in the
      order of their first appearance among the page's hrefs. */
  lemma CollectLinksSpec(hrefs: seq<JsString>, origin: JsString)
    ensures forall x :: x in CollectLinks(hrefs, origin) <==> x in hrefs && Keep(x, origin)
    ensures NoDuplicates(CollectLinks(hrefs, origin))
    ensures forall i, j | 0 <= i < j < |CollectLinks(hrefs, origin)| ::
              FirstIndex(hrefs, CollectLinks(hrefs, origin)[i]) < FirstIndex(hrefs, CollectLinks(hrefs, origin)[j])
  {
    var f := FilterLinks(hrefs, origin);
    var r := CollectLinks(hrefs, origin);
    FilterLinksMembers(hrefs, origin);
    DedupMembers(f);
    DedupNoDuplicates(f);
    DedupFirstSeenOrder(f);
    forall i, j | 0 <= i < j < |r| ensures FirstIndex(hrefs, r[i]) < FirstIndex(hrefs, r[j]) {
      FilterPreservesFirstOrder(hrefs, origin, r[i], r[j]);
    }
  }

  /** Filtering by a test on values keeps the relative order of the first
      occurrences of the values it keeps. */
  lemma {:induction false} FilterPreservesFirstOrder(hrefs: seq<JsString>, origin: JsString, x: JsString, y: JsString)
    requires x in FilterLinks(hrefs, origin) && y in FilterLinks(hrefs, origin)
    ensures x in hrefs && y in hrefs
    ensures FirstIndex(FilterLinks(hrefs, origin), x) < FirstIndex(FilterLinks(hrefs, origin), y) <==>
              FirstIndex(hrefs, x) < FirstIndex(hrefs, y)
  {
    FilterLinksMembers(hrefs, origin);
    var init := hrefs[..|hrefs| - 1];
    var last := hrefs[|hrefs| - 1];
    var f, fi := FilterLinks(hrefs, origin), FilterLinks(init, origin);
    FilterLinksMembers(init, origin);
    FirstIndexOfSnoc(hrefs);
    if Keep(last, origin) {
      FirstIndexOfSnoc(f);
    }
    if x in fi && y in fi {
      FilterPreservesFirstOrder(init, origin, x, y);
    }
  }

  /** How the first index changes when one value is appended. */
  lemma FirstIndexOfSnoc(s: seq<JsString>)
    requires s != []
    ensures forall x | x in s[..|s| - 1] :: FirstIndex(s, x) == FirstIndex(s[..|s| - 1], x)
    ensures s[|s| - 1] !in s[..|s| - 1] ==> FirstIndex(s, s[|s| - 1]) == |s| - 1
  {
  }

  lemma FirstIndexOfSnocAt(s: seq<JsString>, x: JsString)
    requires s != [] && x in s[..|s| - 1]
    ensures x in s && FirstIndex(s, x) == FirstIndex(s[..|s| - 1], x) < |s| - 1
  {
  }

  lemma FirstIndexOfLast(s: seq<JsString>)
    requires s != [] && s[|s| - 1] !in s[..|s| - 1]
    ensures FirstIndex(s, s[|s| - 1]) == |s| - 1
  {
  }

  /** Collecting from an already collected list gives it back. */
  lemma CollectLinksIdempotent(hrefs: seq<JsString>, origin: JsString)
    ensures CollectLinks(CollectLinks(hrefs, origin), origin) == CollectLinks(hrefs, origin)
  {
    var r := CollectLinks(hrefs, origin);
    CollectLinksSpec(hrefs, origin);
    FilterLinksKeepsKept(r, origin);
    DedupOfDistinct(r);
  }
}
