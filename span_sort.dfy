/**
 * The `span-sort` plug-in of www/default.js: the sort key of a cost cell is
 * the number in the first `sort="..."` attribute of its markup, and the
 * ascending and descending comparators order those keys.
 */
module SpanSort {
  import opened Wrappers
  import opened JsString
  import opened JsNumber
  import opened PriceProjector

  /** The characters a regular-expression `.` does not match. */
  predicate IsLineTerminator(c: char)
  {
    c == '\n' || c == '\r' || c == '\U{2028}' || c == '\U{2029}'
  }

  /** Text the lazy group `(.*?)` can capture whole: no quote, no line terminator. */
  predicate Capturable(x: string)
  {
    forall j :: 0 <= j < |x| ==> x[j] != '"' && !IsLineTerminator(x[j])
  }

  /**
   * Where `(.*?)"` stops when it starts at the front of `t`: the first `"`,
   * provided no line terminator comes before it.
   */
  function ClosingQuote(t: string): (r: Option<nat>)
    ensures r.Some? ==> r.value < |t| && t[r.value] == '"' && Capturable(t[..r.value])
  {
    if t == [] then None
    else if t[0] == '"' then Some(0)
    else if IsLineTerminator(t[0]) then None
    else match ClosingQuote(t[1..])
      case Some(k) => (assert t[..k + 1] == [t[0]] + t[1..][..k]; Some(k + 1))
      case None => None
  }

  const SortOpen: string := "sort=\""

  /**
   * `elem.match(/sort="(.*?)"/)`: the group of the leftmost match, found by
   * trying each starting position in turn; None when there is no match.
   */
  function SortCapture(s: string): (r: Option<string>)
    ensures r.Some? ==> Capturable(r.value)
    decreases |s|
  {
    if s == [] then None
    else if StartsWith(s, SortOpen) && ClosingQuote(s[|SortOpen|..]).Some? then
      Some(s[|SortOpen|..][..ClosingQuote(s[|SortOpen|..]).value])
    else SortCapture(s[1..])
  }

  /** `span-sort-pre`: `parseFloat` of the captured text, or 0 when nothing matches. */
  function SpanSortPre(elem: string): Number
  {
    match SortCapture(elem)
    case Some(x) => ParseFloat(x)
    case None => Finite(0.0)
  }

  /** `span-sort-asc`: -1, 0 or 1 by JavaScript's `<` and `>`. */
  function Asc(a: Number, b: Number): (r: int)
    ensures -1 <= r <= 1
  {
    if Less(a, b) then -1 else if Less(b, a) then 1 else 0
  }

  /** `span-sort-desc`. */
  function Desc(a: Number, b: Number): (r: int)
    ensures -1 <= r <= 1
  {
    if Less(a, b) then 1 else if Less(b, a) then -1 else 0
  }

  /**
   * The markup `change_cost` writes into a cell: the number as `toFixed(6)`
   * prints it (the parameter `fixed`) in the `sort` attribute and in the text,
   * followed by the measuring-unit suffix.
   */
  function CellMarkup(c: Cell, fixed: real -> string, suffix: string): string
  {
    match c
    case Priced(a) => "<span " + SortOpen + fixed(a) + "\"" + (">$" + fixed(a) + suffix + "</span>")
    case NotANumber => "<span " + SortOpen + "NaN" + "\"" + (">$NaN" + suffix + "</span>")
    case Unavailable => "<span " + SortOpen + "999999" + "\"" + ">unavailable</span>"
  }

  // ---------------------------------------------------------------------------
  // Properties

  /** The comparators agree with `<`: -1 exactly when a < b, 1 exactly when b < a, else 0. */
  lemma AscMatchesLess(a: Number, b: Number)
    ensures Asc(a, b) == -1 <==> Less(a, b)
    ensures Asc(a, b) == 1 <==> Less(b, a)
    ensures Asc(a, b) == 0 <==> !Less(a, b) && !Less(b, a)
  {
  }

  /** Descending is ascending negated. */
  lemma DescNegatesAsc(a: Number, b: Number)
    ensures Desc(a, b) == -Asc(a, b)
  {
  }

  /** Swapping the arguments negates the answer. */
  lemma AscAntisymmetric(a: Number, b: Number)
    ensures Asc(a, b) == -Asc(b, a)
  {
  }

  /** On numbers (not NaN) the comparator is transitive, so sorting by it is consistent. */
  lemma AscTransitive(a: Number, b: Number, c: Number)
    requires a.Finite? && b.Finite? && c.Finite?
    requires Asc(a, b) <= 0 && Asc(b, c) <= 0
    ensures Asc(a, c) <= 0
  {
  }

  /** NaN ties with every key, which is why it has no place of its own in the order. */
  lemma NaNTiesWithEverything(b: Number)
    ensures Asc(NaN, b) == 0 && Desc(NaN, b) == 0
  {
  }

  /** The lazy group stops at the first quote of `x + "\"" + rest`. */
  lemma {:induction false} ClosingQuoteAfter(x: string, rest: string)
    requires Capturable(x)
    ensures ClosingQuote(x + "\"" + rest) == Some(|x|)
    decreases |x|
  {
    if x != [] {
      ClosingQuoteAfter(x[1..], rest);
      assert (x + "\"" + rest)[1..] == x[1..] + "\"" + rest;
    }
  }

  /** No match can start inside `p`, so the search goes on in `t`. */
  lemma {:induction false} SortCaptureSkip(p: string, t: string)
    requires forall i :: 0 <= i < |p| ==> !StartsWith((p + t)[i..], SortOpen)
    ensures SortCapture(p + t) == SortCapture(t)
    decreases |p|
  {
    if p != [] {
      assert !StartsWith((p + t)[0..], SortOpen);
      assert (p + t)[0..] == p + t;
      assert SortCapture(p + t) == SortCapture((p + t)[1..]);
      assert (p + t)[1..] == p[1..] + t;
      forall i | 0 <= i < |p[1..]|
        ensures !StartsWith((p[1..] + t)[i..], SortOpen)
      {
        assert (p[1..] + t)[i..] == (p + t)[i + 1..];
      }
      SortCaptureSkip(p[1..], t);
    } else {
      assert p + t == t;
    }
  }

  /** A match at the front of `s` captures up to the first quote. */
  lemma CaptureAtFront(x: string, rest: string)
    requires Capturable(x)
    ensures SortCapture(SortOpen + x + "\"" + rest) == Some(x)
  {
    var s := SortOpen + x + "\"" + rest;
    assert StartsWith(s, SortOpen);
    assert s[|SortOpen|..] == x + "\"" + rest;
    ClosingQuoteAfter(x, rest);
    assert s[|SortOpen|..][..|x|] == x;
  }

  /** The sort key of `<span sort="x"...` is `parseFloat(x)`. */
  lemma PreOfSpan(x: string, rest: string)
    requires Capturable(x)
    ensures SpanSortPre("<span " + SortOpen + x + "\"" + rest) == ParseFloat(x)
  {
    var p := "<span ";
    var t := SortOpen + x + "\"" + rest;
    assert p + t == "<span " + SortOpen + x + "\"" + rest;
    forall i | 0 <= i < |p|
      ensures !StartsWith((p + t)[i..], SortOpen)
    {
      assert (p + t)[i] == p[i];
      if i == 1 {
        assert (p + t)[2] == 'p';
        assert (p + t)[i..][1] == 'p';
      }
    }
    SortCaptureSkip(p, t);
    CaptureAtFront(x, rest);
  }

  /** Markup without any `sort="` attribute sorts as 0. */
  lemma PreWithoutAttribute(elem: string)
    requires forall i :: 0 <= i <= |elem| ==> !StartsWith(elem[i..], SortOpen)
    ensures SpanSortPre(elem) == Finite(0.0)
  {
    assert elem + [] == elem;
    forall i | 0 <= i < |elem|
      ensures !StartsWith((elem + [])[i..], SortOpen)
    {
    }
    SortCaptureSkip(elem, []);
  }

  lemma ParseNaN()
    ensures ParseFloat("NaN") == NaN
  {
    assert LeadingWhiteSpace("NaN") == 0;
    assert "NaN"[0..] == "NaN";
    assert LeadingDigits("NaN") == 0;
  }

  lemma ParseUnavailableKey()
    ensures ParseFloat("999999") == Finite(UnavailableSortKey)
  {
    assert NatToString(9) == "9";
    assert NatToString(99) == "99";
    assert NatToString(999) == "999";
    assert NatToString(9999) == "9999";
    assert NatToString(99999) == "99999";
    assert NatToString(999999) == "999999";
    ParseFloatNatToString(999999);
  }

  lemma PricedSortKey(a: real, fixed: real -> string, suffix: string)
    requires Capturable(fixed(a)) && ParseFloat(fixed(a)) == Finite(a)
    ensures SpanSortPre(CellMarkup(Priced(a), fixed, suffix)) == Finite(a)
  {
    PreOfSpan(fixed(a), ">$" + fixed(a) + suffix + "</span>");
  }

  lemma NotANumberSortKey(fixed: real -> string, suffix: string)
    ensures SpanSortPre(CellMarkup(NotANumber, fixed, suffix)) == NaN
  {
    LiteralKeysCapturable();
    PreOfSpan("NaN", ">$NaN" + suffix + "</span>");
    ParseNaN();
  }

  lemma LiteralKeysCapturable()
    ensures Capturable("999999") && Capturable("NaN")
  {
  }

  lemma UnavailableSortKeyReadBack(fixed: real -> string, suffix: string)
    ensures SpanSortPre(CellMarkup(Unavailable, fixed, suffix)) == Finite(UnavailableSortKey)
  {
    LiteralKeysCapturable();
    PreOfSpan("999999", ">unavailable</span>");
    ParseUnavailableKey();
  }

  /**
   * What `change_cost` writes, `span-sort-pre` reads back: the key of a priced
   * cell is its amount (when the printed number reads back as itself), of an
   * arithmetic failure NaN, and of an unavailable cell 999999.
   */
  lemma CellSortKeyRoundTrip(c: Cell, fixed: real -> string, suffix: string)
    requires c.Priced? ==> Capturable(fixed(c.amount)) && ParseFloat(fixed(c.amount)) == Finite(c.amount)
    ensures SpanSortPre(CellMarkup(c, fixed, suffix)) == c.SortKey()
  {
    match c
    case Priced(a) => PricedSortKey(a, fixed, suffix);
    case NotANumber => NotANumberSortKey(fixed, suffix);
    case Unavailable => UnavailableSortKeyReadBack(fixed, suffix);
  }
}
