/**
 * The booklet viewer's page arithmetic: how many spreads a document has, which
 * pages a spread shows, and the label under the spread. Spread 0 is the cover
 * (page 1 alone, on the right); spread n >= 1 shows pages 2n and 2n+1, each
 * only when the document has it.
 */
module Pagination {
  import opened Optional

  /** The pages shown on one spread; `None` is an empty half. */
  datatype Spread = Spread(left: Option<int>, right: Option<int>)

  /** Integer ceiling of n / 2, the value `Math.ceil(n / 2)` gives for n >= 0: the least q with 2q >= n. */
  function CeilHalf(n: nat): (q: nat)
    ensures 2 * q >= n
    ensures q == 0 || 2 * (q - 1) < n
  {
    (n + 1) / 2
  }

  /** Number of spreads of a document of `totalPages` pages: none for an empty document,
      otherwise the cover plus enough two-page spreads to reach the last page. */
  function TotalSpreads(totalPages: int): (r: nat)
    ensures r == 0 <==> totalPages <= 0
    ensures totalPages >= 1 ==> 2 * r - 2 <= totalPages <= 2 * r - 1
  {
    if totalPages > 0 then CeilHalf(totalPages - 1) + 1 else 0
  }

  /** The pages of `spread` in a document of `totalPages` pages. The cover is (none, 1)
      whatever the page count; other spreads hold 2n and 2n+1, each clipped to the page count. */
  function SpreadPages(spread: int, totalPages: int): (r: Spread)
    ensures spread == 0 ==> r == Spread(None, Some(1))
    ensures spread != 0 ==> (r.left.Some? <==> 2 * spread <= totalPages)
    ensures spread != 0 ==> (r.right.Some? <==> 2 * spread + 1 <= totalPages)
    ensures spread != 0 && r.left.Some? ==> r.left.value == 2 * spread
    ensures spread != 0 && r.right.Some? ==> r.right.value == 2 * spread + 1
  {
    if spread == 0 then Spread(None, Some(1))
    else
      var base := (spread - 1) * 2 + 2;
      Spread(if base <= totalPages then Some(base) else None,
             if base + 1 <= totalPages then Some(base + 1) else None)
  }

  /** The set of page numbers a spread shows. */
  function PagesOf(sp: Spread): set<int> {
    (if sp.left.Some? then {sp.left.value} else {}) + (if sp.right.Some? then {sp.right.value} else {})
  }

  /** Every page shown by spreads 0 .. n-1. */
  function PagesUpTo(n: nat, totalPages: int): set<int> {
    if n == 0 then {} else PagesUpTo(n - 1, totalPages) + PagesOf(SpreadPages(n - 1, totalPages))
  }

  /** The spread a page belongs to: the cover for page 1, spread n for pages 2n and 2n+1. */
  function SpreadOfPage(page: int): int {
    page / 2
  }

  /** The page numbers 1 .. k. */
  function FirstPages(k: int): (r: set<int>)
    ensures forall p :: p in r <==> 1 <= p <= k
    decreases k
  {
    if k <= 0 then {} else FirstPages(k - 1) + {k}
  }

  function Min(a: int, b: int): int {
    if a <= b then a else b
  }

  /** Spreads 0 .. n-1 of a non-empty document show exactly the pages 1 .. min(2n-1, totalPages). */
  lemma {:induction false} PagesUpToExact(n: nat, totalPages: int)
    requires totalPages >= 1
    ensures PagesUpTo(n, totalPages) == FirstPages(Min(totalPages, 2 * n - 1))
  {
    if n > 0 {
      PagesUpToExact(n - 1, totalPages);
      var sp := SpreadPages(n - 1, totalPages);
      forall p | p in PagesOf(sp)
        ensures 1 <= p <= totalPages && p <= 2 * n - 1
      {
      }
      forall p | 1 <= p <= totalPages && p <= 2 * n - 1 && p > 2 * (n - 1) - 1
        ensures p in PagesOf(sp)
      {
        if n - 1 == 0 {
          assert p == 1;
        } else if p == 2 * (n - 1) {
          assert sp.left == Some(p);
        } else {
          assert p == 2 * (n - 1) + 1;
          assert sp.right == Some(p);
        }
      }
    }
  }

  /** Coverage: the spreads of a non-empty document together show every page 1 .. totalPages and nothing else. */
  lemma AllPagesShown(totalPages: int)
    requires totalPages >= 1
    ensures PagesUpTo(TotalSpreads(totalPages), totalPages) == FirstPages(totalPages)
  {
    PagesUpToExact(TotalSpreads(totalPages), totalPages);
  }

  /** Every spread of a non-empty document shows only pages of the document. */
  lemma SpreadPagesInRange(spread: nat, totalPages: int)
    requires totalPages >= 1
    ensures forall p :: p in PagesOf(SpreadPages(spread, totalPages)) ==> 1 <= p <= totalPages
  {
  }

  /** Each page of the document is on exactly one spread, the one `SpreadOfPage` names,
      and that spread is one of the document's spreads. */
  lemma PageOnExactlyOneSpread(page: int, totalPages: int)
    requires 1 <= page <= totalPages
    ensures 0 <= SpreadOfPage(page) < TotalSpreads(totalPages)
    ensures page in PagesOf(SpreadPages(SpreadOfPage(page), totalPages))
    ensures forall s :: page in PagesOf(SpreadPages(s, totalPages)) ==> s == SpreadOfPage(page)
  {
  }

  /** The dash between the two page numbers of a spread label (an en dash, U+2013). */
  const PageSeparator: string := " \U{2013} "

  /** A decimal digit as a character. */
  function DigitChar(d: nat): char
    requires d < 10
  {
    ('0' as int + d) as char
  }

  predicate IsDigit(c: char) {
    '0' <= c <= '9'
  }

  /** The decimal numeral of `n`, without leading zeros, as JavaScript writes a non-negative integer. */
  function NatToString(n: nat): (s: string)
    ensures |s| >= 1
    ensures forall i :: 0 <= i < |s| ==> IsDigit(s[i])
    ensures |s| > 1 ==> s[0] != '0'
  {
    if n < 10 then [DigitChar(n)] else NatToString(n / 10) + [DigitChar(n % 10)]
  }

  /** The value of a string of decimal digits. */
  function DigitsValue(s: string): nat
    requires forall i :: 0 <= i < |s| ==> IsDigit(s[i])
  {
    if s == [] then 0
    else
      assert IsDigit(s[|s| - 1]);
      DigitsValue(s[..|s| - 1]) * 10 + (s[|s| - 1] as int - '0' as int)
  }

  /** Reading a numeral back gives the number: the numeral determines the number. */
  lemma {:induction false} NatToStringRoundTrip(n: nat)
    ensures DigitsValue(NatToString(n)) == n
  {
    if n >= 10 {
      var s := NatToString(n);
      assert s[..|s| - 1] == NatToString(n / 10);
      NatToStringRoundTrip(n / 10);
    }
  }

  /** Distinct numbers have distinct numerals. */
  lemma NatToStringInjective(a: nat, b: nat)
    requires NatToString(a) == NatToString(b)
    ensures a == b
  {
    NatToStringRoundTrip(a);
    NatToStringRoundTrip(b);
  }

  /** The numeral of an integer as a JavaScript template literal writes it (minus sign for negatives). */
  function IntToString(i: int): (s: string)
    ensures i >= 0 ==> s == NatToString(i)
    ensures i < 0 ==> s == "-" + NatToString(-i)
  {
    if i < 0 then "-" + NatToString(-i) else NatToString(i)
  }

  /** Distinct integers have distinct numerals: a page number is recovered from its text, sign included. */
  lemma IntToStringInjective(a: int, b: int)
    requires IntToString(a) == IntToString(b)
    ensures a == b
  {
    var s := IntToString(a);
    // a numeral starts with '-' exactly when its number is negative
    assert (a < 0 || b < 0) ==> s[0] == '-';
    assert (a >= 0 || b >= 0) ==> IsDigit(s[0]);
    if a < 0 && b < 0 {
      assert NatToString(-a) == s[1..] == NatToString(-b);
      NatToStringInjective(-a, -b);
    } else if a >= 0 && b >= 0 {
      NatToStringInjective(a, b);
    }
  }

  /** The label under a spread: "Cover" for spread 0; otherwise "Pages l – r", "Page r" or "Page l"
      for whichever of its pages exist, and the empty string when it shows none. */
  function PageLabel(spread: int, totalPages: int): (text: string)
    ensures text == "Cover" <==> spread == 0
    ensures text == "" <==> PagesOf(SpreadPages(spread, totalPages)) == {}
  {
    if spread == 0 then "Cover"
    else
      match SpreadPages(spread, totalPages)
      case Spread(Some(l), Some(r)) => "Pages " + IntToString(l) + PageSeparator + IntToString(r)
      case Spread(None, Some(r)) => "Page " + IntToString(r)
      case Spread(Some(l), None) => "Page " + IntToString(l)
      case Spread(None, None) => ""
  }

  /** On every non-cover spread of the document the label is "Pages 2n – 2n+1", or "Page 2n" on a
      final half-empty spread: the "right page only" form and the empty label never appear. */
  lemma LabelOfListedSpread(spread: int, totalPages: int)
    requires 1 <= spread < TotalSpreads(totalPages)
    ensures PageLabel(spread, totalPages) ==
      if 2 * spread + 1 <= totalPages
      then "Pages " + NatToString(2 * spread) + PageSeparator + NatToString(2 * spread + 1)
      else "Page " + NatToString(2 * spread)
  {
  }

  /** Two different spreads of a document never carry the same label. */
  lemma {:induction false} LabelsDistinguishSpreads(s1: int, s2: int, totalPages: int)
    requires 0 <= s1 < TotalSpreads(totalPages)
    requires 0 <= s2 < TotalSpreads(totalPages)
    requires PageLabel(s1, totalPages) == PageLabel(s2, totalPages)
    ensures s1 == s2
  {
    if s1 != 0 && s2 != 0 {
      LabelOfListedSpread(s1, totalPages);
      LabelOfListedSpread(s2, totalPages);
      // "Pages …" and "Page …" differ at index 4, so both labels have the same form
      LabelFormMarker(s1, totalPages);
      LabelFormMarker(s2, totalPages);
      if 2 * s1 + 1 <= totalPages {
        PairLabelsAgree(NatToString(2 * s1), NatToString(2 * s1 + 1),
                        NatToString(2 * s2), NatToString(2 * s2 + 1));
      } else {
        SingleLabelsAgree(NatToString(2 * s1), NatToString(2 * s2));
      }
      NatToStringInjective(2 * s1, 2 * s2);
    }
  }

  /** Two-page labels with equal text name the same left page. */
  lemma PairLabelsAgree(a1: string, b1: string, a2: string, b2: string)
    requires forall i :: 0 <= i < |a1| ==> IsDigit(a1[i])
    requires forall i :: 0 <= i < |a2| ==> IsDigit(a2[i])
    requires "Pages " + a1 + PageSeparator + b1 == "Pages " + a2 + PageSeparator + b2
    ensures a1 == a2
  {
    assert "Pages " + a1 + PageSeparator + b1 == "Pages " + a1 + (PageSeparator + b1);
    assert "Pages " + a2 + PageSeparator + b2 == "Pages " + a2 + (PageSeparator + b2);
    LeadingNumeral("Pages ", a1, PageSeparator + b1, a2, PageSeparator + b2);
  }

  /** One-page labels with equal text name the same page. */
  lemma SingleLabelsAgree(a1: string, a2: string)
    requires "Page " + a1 == "Page " + a2
    ensures a1 == a2
  {
    assert a1 == ("Page " + a1)[5..];
  }

  /** Character 4 of a non-cover label tells "Pages …" ('s') from "Page …" (' '). */
  lemma LabelFormMarker(spread: int, totalPages: int)
    requires 1 <= spread < TotalSpreads(totalPages)
    ensures |PageLabel(spread, totalPages)| > 4
    ensures PageLabel(spread, totalPages)[4] == if 2 * spread + 1 <= totalPages then 's' else ' '
  {
    LabelOfListedSpread(spread, totalPages);
  }

  /** A numeral followed by a separator starting with a space is read back unambiguously. */
  lemma LeadingNumeral(prefix: string, a1: string, rest1: string, a2: string, rest2: string)
    requires forall i :: 0 <= i < |a1| ==> IsDigit(a1[i])
    requires forall i :: 0 <= i < |a2| ==> IsDigit(a2[i])
    requires |rest1| > 0 && rest1[0] == ' ' && |rest2| > 0 && rest2[0] == ' '
    requires prefix + a1 + rest1 == prefix + a2 + rest2
    ensures a1 == a2
  {
    var s := prefix + a1 + rest1;
    assert s[|prefix| + |a1|] == ' ';
    assert s[|prefix| + |a2|] == ' ';
    assert a1 == s[|prefix|..|prefix| + |a1|] == a2;
  }

  /** The spread counts of small documents: 5 pages and 4 pages both give 3 spreads. */
  lemma SpreadCountExamples()
    ensures TotalSpreads(5) == 3 && TotalSpreads(4) == 3 && TotalSpreads(1) == 1 && TotalSpreads(0) == 0
  {
  }

  /** The spreads of a 5-page document are (-, 1), (2, 3), (4, 5); a 4-page one ends on (4, -). */
  lemma SpreadContentExamples()
    ensures SpreadPages(0, 5) == Spread(None, Some(1))
    ensures SpreadPages(1, 5) == Spread(Some(2), Some(3))
    ensures SpreadPages(2, 5) == Spread(Some(4), Some(5))
    ensures SpreadPages(2, 4) == Spread(Some(4), None)
  {
  }
}
