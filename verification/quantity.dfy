/** The free-text quantity parser of `AnimalShelter`: `_parse_weight` and
    `_parse_age`, with the fraction-glyph table they share, and the two
    numeric conversions around them: `str()` of a computed value and the
    `float()` the eligibility filter applies to what was stored.
 */
module Quantity {
  import opened Text
  import opened Pattern

  /** What the parsers return. Python returns a `str` either way: `Exact` is
      a number the parser computed (returned as `str(float)`), `Verbatim` is
      text the parser copied out of its input. */
  datatype Quantity = Exact(value: real) | Verbatim(text: string)

  /** The fraction table: each glyph's exact value. */
  function GlyphValue(c: char): (v: real)
    requires IsGlyph(c)
    ensures 0.0 < v < 1.0
  {
    if c == '½' then 1.0 / 2.0
    else if c == '⅓' then 1.0 / 3.0
    else if c == '⅔' then 2.0 / 3.0
    else if c == '¼' then 1.0 / 4.0
    else if c == '¾' then 3.0 / 4.0
    else if c == '⅛' then 1.0 / 8.0
    else if c == '⅜' then 3.0 / 8.0
    else if c == '⅝' then 5.0 / 8.0
    else 7.0 / 8.0
  }

  // ---------------------------------------------------------------------
  // Patterns

  /** `(\d+)\s*<unit>s?` */
  function Amount(unit: string): seq<Token> {
    [Digits, Blank, Lit(unit), Opt('s')]
  }

  /** `(\d+)\s*([½⅓⅔¼¾⅛⅜⅝⅞])` */
  const WholeAndGlyph: seq<Token> := [Digits, Blank, Glyph]

  const YearsMonthsWeeks: seq<Token> := Amount("year") + [Blank] + Amount("month") + [Blank] + Amount("week")
  const YearsMonths: seq<Token> := Amount("year") + [Blank] + Amount("month")
  const MonthsWeeks: seq<Token> := Amount("month") + [Blank] + Amount("week")
  const YearsWeeks: seq<Token> := Amount("year") + [Blank] + Amount("week")
  /** `(\d+)\s*([½⅓⅔¼¾⅛⅜⅝⅞]?)\s*years?` */
  const YearsWithGlyph: seq<Token> := [Digits, Blank, OptGlyph, Blank, Lit("year"), Opt('s')]
  const MonthsOnly: seq<Token> := Amount("month")
  const WeeksOnly: seq<Token> := Amount("week")

  lemma AmountWellFormed(unit: string)
    requires |unit| > 0 && unit[0] != 's' && !IsDigit(unit[0]) && !IsSpace(unit[0])
    ensures WellFormed(Amount(unit))
  {
    WellFormedCons(Opt('s'), []);
    WellFormedCons(Lit(unit), [Opt('s')]);
    WellFormedCons(Blank, [Lit(unit), Opt('s')]);
    WellFormedCons(Digits, [Blank, Lit(unit), Opt('s')]);
  }

  /** An amount followed by blanks and another well-formed pattern that
      starts with digits is well formed. */
  lemma AmountThenWellFormed(unit: string, q: seq<Token>)
    requires |unit| > 0 && unit[0] != 's' && !IsDigit(unit[0]) && !IsSpace(unit[0])
    requires WellFormed(q) && |q| > 0 && q[0] == Digits
    ensures WellFormed(Amount(unit) + [Blank] + q)
  {
    PluralThenWellFormed(q);
    UnitWordWellFormed(unit, [Opt('s'), Blank] + q);
    AmountThenShape(unit, q);
  }

  lemma AmountThenShape(unit: string, q: seq<Token>)
    ensures Amount(unit) + [Blank] + q == [Digits, Blank, Lit(unit)] + ([Opt('s'), Blank] + q)
  {
  }

  /** `s?\s*` before digits. */
  lemma PluralThenWellFormed(q: seq<Token>)
    requires WellFormed(q) && |q| > 0 && q[0] == Digits
    ensures WellFormed([Opt('s'), Blank] + q)
  {
    var q1 := [Blank] + q;
    assert FirstSafe(q, SpaceClass) && FirstSafe(q, Single('s'));
    WellFormedCons(Blank, q);
    assert q1[1..] == q;
    WellFormedCons(Opt('s'), q1);
    assert [Opt('s')] + q1 == [Opt('s'), Blank] + q;
  }

  /** `(\d+)\s*unit` before any well-formed rest. */
  lemma UnitWordWellFormed(unit: string, r: seq<Token>)
    requires |unit| > 0 && !IsDigit(unit[0]) && !IsSpace(unit[0])
    requires WellFormed(r)
    ensures WellFormed([Digits, Blank, Lit(unit)] + r)
  {
    var r1 := [Lit(unit)] + r;
    var r2 := [Blank] + r1;
    WellFormedCons(Lit(unit), r);
    assert FirstSafe(r1, SpaceClass);
    WellFormedCons(Blank, r1);
    assert r2[1..] == r1;
    WellFormedCons(Digits, r2);
    assert [Digits] + r2 == [Digits, Blank, Lit(unit)] + r;
  }

  lemma WholeAndGlyphWellFormed()
    ensures WellFormed(WholeAndGlyph)
  {
    WellFormedCons(Glyph, []);
    WellFormedCons(Blank, [Glyph]);
    WellFormedCons(Digits, [Blank, Glyph]);
  }

  lemma YearsWithGlyphWellFormed()
    ensures WellFormed(YearsWithGlyph)
  {
    var w := [Lit("year"), Opt('s')];
    WellFormedCons(Opt('s'), []);
    WellFormedCons(Lit("year"), [Opt('s')]);
    WellFormedCons(Blank, w);
    assert FirstSafe([Blank] + w, GlyphClass);
    WellFormedCons(OptGlyph, [Blank] + w);
    assert SpaceAbsorbing([OptGlyph] + ([Blank] + w));
    WellFormedCons(Blank, [OptGlyph] + ([Blank] + w));
    assert FirstSafe([Blank] + w, DigitClass);
    assert FirstSafe([OptGlyph] + ([Blank] + w), DigitClass);
    assert FirstSafe([Blank] + ([OptGlyph] + ([Blank] + w)), DigitClass);
    WellFormedCons(Digits, [Blank] + ([OptGlyph] + ([Blank] + w)));
    assert [Digits] + ([Blank] + ([OptGlyph] + ([Blank] + w))) == YearsWithGlyph;
  }

  lemma TwoAmountsWellFormed(u1: string, u2: string)
    requires |u1| > 0 && u1[0] != 's' && !IsDigit(u1[0]) && !IsSpace(u1[0])
    requires |u2| > 0 && u2[0] != 's' && !IsDigit(u2[0]) && !IsSpace(u2[0])
    ensures WellFormed(Amount(u1) + [Blank] + Amount(u2))
  {
    AmountWellFormed(u2);
    AmountThenWellFormed(u1, Amount(u2));
  }

  lemma ThreeAmountsWellFormed(u1: string, u2: string, u3: string)
    requires |u1| > 0 && u1[0] != 's' && !IsDigit(u1[0]) && !IsSpace(u1[0])
    requires |u2| > 0 && u2[0] != 's' && !IsDigit(u2[0]) && !IsSpace(u2[0])
    requires |u3| > 0 && u3[0] != 's' && !IsDigit(u3[0]) && !IsSpace(u3[0])
    ensures WellFormed(Amount(u1) + [Blank] + Amount(u2) + [Blank] + Amount(u3))
  {
    var q := Amount(u2) + [Blank] + Amount(u3);
    TwoAmountsWellFormed(u2, u3);
    AmountThenWellFormed(u1, q);
    assert Amount(u1) + [Blank] + q == Amount(u1) + [Blank] + Amount(u2) + [Blank] + Amount(u3);
  }

  /** Every pattern of the age cascade is well formed. */
  lemma AgePatternsWellFormed()
    ensures forall k :: 0 <= k < |AgePatterns| ==> WellFormed(AgePatterns[k])
  {
    ThreeAmountsWellFormed("year", "month", "week");
    TwoAmountsWellFormed("year", "month");
    TwoAmountsWellFormed("month", "week");
    TwoAmountsWellFormed("year", "week");
    YearsWithGlyphWellFormed();
    AmountWellFormed("month");
    AmountWellFormed("week");
  }

  /** The value of the `k`-th group when it is a run of digits, else 0. */
  function Whole(g: seq<string>, k: nat): (v: real)
    ensures v >= 0.0
    ensures k < |g| && AllDigits(g[k]) ==> v == DigitsValue(g[k]) as real
  {
    if k < |g| && AllDigits(g[k]) then DigitsValue(g[k]) as real else 0.0
  }

  /** The table value of the `k`-th group when it is one glyph, else 0 (an
      empty optional group adds nothing). */
  function Fraction(g: seq<string>, k: nat): (v: real)
    ensures 0.0 <= v < 1.0
    ensures k < |g| && |g[k]| == 1 && IsGlyph(g[k][0]) ==> v == GlyphValue(g[k][0])
  {
    if k < |g| && |g[k]| == 1 && IsGlyph(g[k][0]) then GlyphValue(g[k][0]) else 0.0
  }

  // ---------------------------------------------------------------------
  // _parse_weight

  /** Length of a `\blbs?\b` match at `i`, 0 if there is none. */
  function UnitLength(s: string, i: nat): (n: nat)
    requires i <= |s|
    ensures n == 0 || n == 2 || n == 3
    ensures n > 0 ==> i + n <= |s| && s[i] == 'l'
  {
    if i + 2 <= |s| && s[i] == 'l' && s[i + 1] == 'b' && Boundary(s, i) then
      if i + 3 <= |s| && s[i + 2] == 's' && Boundary(s, i + 3) then 3
      else if Boundary(s, i + 2) then 2
      else 0
    else 0
  }

  function RemoveUnitsFrom(s: string, i: nat): (r: string)
    requires i <= |s|
    ensures |r| <= |s| - i
    decreases |s| - i
  {
    if i == |s| then []
    else
      var n := UnitLength(s, i);
      if n > 0 then RemoveUnitsFrom(s, i + n) else [s[i]] + RemoveUnitsFrom(s, i + 1)
  }

  /** `re.sub(r'\blbs?\b', '', s)`: every standalone "lb" or "lbs" removed,
      scanning left to right as `re.sub` does. */
  function RemoveUnits(s: string): string {
    RemoveUnitsFrom(s, 0)
  }

  lemma {:induction false} RemoveUnitsCopies(s: string, i: nat, j: nat)
    requires i <= j <= |s| && 'l' !in s[i..j]
    ensures RemoveUnitsFrom(s, i) == s[i..j] + RemoveUnitsFrom(s, j)
    decreases j - i
  {
    if i < j {
      assert s[i] == s[i..j][0];
      assert s[i + 1..j] == s[i..j][1..];
      RemoveUnitsCopies(s, i + 1, j);
      assert s[i..j] == [s[i]] + s[i + 1..j];
    }
  }

  /** A text without the letter l has no unit to remove. */
  lemma RemoveUnitsNoL(s: string)
    requires 'l' !in s
    ensures RemoveUnits(s) == s
  {
    assert s[0..|s|] == s;
    RemoveUnitsCopies(s, 0, |s|);
  }

  /** A standalone "lb" (`n` = 2) or "lbs" (`n` = 3) at `p`: a word
      boundary on both sides. */
  predicate UnitMatch(s: string, p: nat, n: nat) {
    && (n == 2 || n == 3) && p + n <= |s|
    && s[p] == 'l' && s[p + 1] == 'b' && (n == 3 ==> s[p + 2] == 's')
    && Boundary(s, p) && Boundary(s, p + n)
  }

  /** Position `k` lies inside a standalone unit word. */
  ghost predicate Covered(s: string, k: nat) {
    exists p: nat, n: nat :: p <= k < p + n && UnitMatch(s, p, n)
  }

  /** The characters of `s` from `i` on that lie inside no standalone unit
      word, in order. */
  ghost function Uncovered(s: string, i: nat): string
    requires i <= |s|
    decreases |s| - i
  {
    if i == |s| then [] else (if Covered(s, i) then [] else [s[i]]) + Uncovered(s, i + 1)
  }

  /** The scan finds a unit at `i` exactly when one stands there. */
  lemma UnitLengthIff(s: string, i: nat, n: nat)
    requires i <= |s|
    ensures UnitMatch(s, i, n) <==> n > 0 && UnitLength(s, i) == n
  {
  }

  /** `RemoveUnits` drops exactly the characters inside a standalone "lb"
      or "lbs" and keeps every other character, in order. */
  lemma RemoveUnitsSpec(s: string)
    ensures RemoveUnits(s) == Uncovered(s, 0)
  {
    RemoveUnitsUncovered(s, 0);
  }

  lemma {:induction false} RemoveUnitsUncovered(s: string, i: nat)
    requires i <= |s|
    requires forall p: nat, n: nat :: p < i < p + n ==> !UnitMatch(s, p, n)
    ensures RemoveUnitsFrom(s, i) == Uncovered(s, i)
    decreases |s| - i
  {
    if i < |s| {
      var n := UnitLength(s, i);
      if n > 0 {
        UnitSkipped(s, i, n);
        RemoveUnitsUncovered(s, i + n);
      } else {
        NoUnitHere(s, i);
        RemoveUnitsUncovered(s, i + 1);
      }
    }
  }

  /** A unit found at `i` covers its characters, and no unit straddles its
      end, since neither 'b' nor 's' starts one. */
  lemma UnitSkipped(s: string, i: nat, n: nat)
    requires i < |s| && n > 0 && UnitLength(s, i) == n
    requires forall p: nat, m: nat :: p < i < p + m ==> !UnitMatch(s, p, m)
    ensures i + n <= |s| && Uncovered(s, i) == Uncovered(s, i + n)
    ensures forall p: nat, m: nat :: p < i + n < p + m ==> !UnitMatch(s, p, m)
  {
    UnitLengthIff(s, i, n);
    UnitCovered(s, i, n);
    NoStraddleAfter(s, i, n);
  }

  lemma UnitCovered(s: string, i: nat, n: nat)
    requires UnitMatch(s, i, n)
    ensures Uncovered(s, i) == Uncovered(s, i + n)
  {
    assert Covered(s, i) && Covered(s, i + 1);
    assert Uncovered(s, i) == Uncovered(s, i + 1) == Uncovered(s, i + 2);
    if n == 3 {
      assert Covered(s, i + 2);
    }
  }

  lemma NoStraddleAfter(s: string, i: nat, n: nat)
    requires UnitMatch(s, i, n)
    requires forall p: nat, m: nat :: p < i < p + m ==> !UnitMatch(s, p, m)
    ensures forall p: nat, m: nat :: p < i + n < p + m ==> !UnitMatch(s, p, m)
  {
    forall p: nat, m: nat | p < i + n < p + m
      ensures !UnitMatch(s, p, m)
    {
      if p == i {
        UnitLengthIff(s, i, m);
        UnitLengthIff(s, i, n);
      }
    }
  }

  /** Where the scan finds no unit, the character is kept and no unit
      straddles the next position. */
  lemma NoUnitHere(s: string, i: nat)
    requires i < |s| && UnitLength(s, i) == 0
    requires forall p: nat, n: nat :: p < i < p + n ==> !UnitMatch(s, p, n)
    ensures !Covered(s, i)
    ensures forall p: nat, m: nat :: p < i + 1 < p + m ==> !UnitMatch(s, p, m)
  {
    forall p: nat, m: nat | p <= i < p + m
      ensures !UnitMatch(s, p, m)
    {
      if p == i {
        UnitLengthIff(s, i, m);
      }
    }
  }

  /** Where the leftmost `\d+\.?\d*` lies in `t`: greedy, so it takes every
      digit after the first, then a point and every digit after that. */
  function NumeralSpan(t: string): (r: Option<(nat, nat)>)
    ensures r.None? <==> forall k :: 0 <= k < |t| ==> !IsDigit(t[k])
    ensures r.Some? ==>
              var (i, e) := r.value;
              && i < e <= |t| && IsDigit(t[i])
              && (forall k :: 0 <= k < i ==> !IsDigit(t[k]))
              && IsNumeral(t[i..e])
              && (e == |t| || !IsDigit(t[e]))
              && ('.' !in t[i..e] ==> e == |t| || t[e] != '.')
  {
    var i := RunEnd(t, 0, c => !IsDigit(c));
    if i == |t| then None
    else
      var d := RunEnd(t, i, IsDigit);
      if d < |t| && t[d] == '.' then
        var e := RunEnd(t, d + 1, IsDigit);
        NumeralWithPoint(t, i, d, e);
        Some((i, e))
      else
        NumeralWithoutPoint(t, i, d);
        Some((i, d))
  }

  lemma NumeralWithPoint(t: string, i: nat, d: nat, e: nat)
    requires i < d < e <= |t| && t[d] == '.'
    requires forall k :: i <= k < d ==> IsDigit(t[k])
    requires forall k :: d < k < e ==> IsDigit(t[k])
    ensures IsNumeral(t[i..e]) && '.' in t[i..e]
  {
    var n := t[i..e];
    RunEndUnique(n, 0, d - i, IsDigit);
    assert n[d - i] == '.';
    assert AllDigits(n[d - i + 1..]) by {
      assert n[d - i + 1..] == t[d + 1..e];
    }
  }

  lemma NumeralWithoutPoint(t: string, i: nat, d: nat)
    requires i < d <= |t|
    requires forall k :: i <= k < d ==> IsDigit(t[k])
    ensures IsNumeral(t[i..d]) && '.' !in t[i..d]
  {
    var n := t[i..d];
    RunEndUnique(n, 0, d - i, IsDigit);
  }

  /** A run of digits, then optionally a point and more digits. */
  predicate IsNumeral(n: string) {
    var d := RunEnd(n, 0, IsDigit);
    d > 0 && (d == |n| || (n[d] == '.' && AllDigits(n[d + 1..])))
  }

  /** `_parse_weight` after the units are removed and the ends stripped. */
  function WeightOf(t: string): (r: Quantity)
    ensures r.Exact? ==> r.value >= 0.0
  {
    match Search(WholeAndGlyph, t)
    case Some(m) => Exact(Whole(m.groups, 0) + Fraction(m.groups, 1))
    case None =>
      match NumeralSpan(t)
      case Some((i, e)) => Verbatim(t[i..e])
      case None => Verbatim(t)
  }

  /** `AnimalShelter._parse_weight`. */
  function ParseWeight(s: string): (r: Quantity)
    ensures s == "" ==> r == Verbatim("")
    ensures r.Exact? ==> r.value >= 0.0
  {
    if s == "" then Verbatim("") else WeightOf(Strip(RemoveUnits(s)))
  }

  /** A match of `(\d+)\s*([glyphs])` has a numeral for its first group and
      one glyph for its second. */
  lemma WholeAndGlyphGroups(s: string, i: nat, j: nat, g: seq<string>)
    requires Ends(WholeAndGlyph, s, i, j, g)
    ensures |g| == 2 && |g[0]| > 0 && AllDigits(g[0]) && |g[1]| == 1 && IsGlyph(g[1][0])
  {
    var p := WholeAndGlyph;
    var k: nat :| i < k <= j && AllIn(s, i, k, DigitClass) && g[0] == s[i..k] && Ends(p[1..], s, k, j, g[1..]);
    assert p[1..] == [Blank, Glyph] && [Blank, Glyph][1..] == [Glyph];
    var k2: nat :| k <= k2 <= j && AllIn(s, k, k2, SpaceClass) && Ends([Glyph], s, k2, j, g[1..]);
    assert Ends([], s, k2 + 1, j, g[1..][1..]);
    assert AllDigits(g[0]) by {
      forall m | 0 <= m < |g[0]|
        ensures IsDigit(g[0][m])
      {
        assert g[0][m] == s[i + m];
      }
    }
  }

  /** `i` and `e` bound the leftmost `\d+\.?\d*` in `t`: it starts at the first
      digit, and neither a digit nor (when it has no point yet) a point follows it. */
  predicate LeftmostNumeral(t: string, i: nat, e: nat) {
    && i < e <= |t| && IsDigit(t[i])
    && (forall k :: 0 <= k < i ==> !IsDigit(t[k]))
    && IsNumeral(t[i..e])
    && (e == |t| || !IsDigit(t[e]))
    && ('.' !in t[i..e] ==> e == |t| || t[e] != '.')
  }

  /** First outcome of `_parse_weight`: when a number followed by a glyph is
      found, the value is the whole number of the leftmost such match plus
      the glyph's table value. */
  lemma WeightOfGlyph(t: string, i: nat, g: seq<string>)
    requires Leftmost(WholeAndGlyph, t, i, g)
    ensures |g| == 2 && AllDigits(g[0]) && |g[1]| == 1 && IsGlyph(g[1][0])
    ensures WeightOf(t) == Exact(DigitsValue(g[0]) as real + GlyphValue(g[1][0]))
  {
    var j: nat :| Ends(WholeAndGlyph, t, i, j, g);
    WholeAndGlyphGroups(t, i, j, g);
    assert Search(WholeAndGlyph, t).Some? && Search(WholeAndGlyph, t).value.groups == g by {
      WholeAndGlyphWellFormed();
      SearchFindsLeftmost(WholeAndGlyph, t);
    }
  }

  /** The other two outcomes: with no number-and-glyph found, the leftmost
      decimal numeral comes back as written, and with no digit at all the
      cleaned text does. */
  lemma WeightOfVerbatim(t: string)
    requires !Matches(WholeAndGlyph, t)
    ensures WeightOf(t).Verbatim?
    ensures (forall k :: 0 <= k < |t| ==> !IsDigit(t[k])) ==> WeightOf(t).text == t
    ensures forall k :: 0 <= k < |t| && IsDigit(t[k]) ==>
              exists i: nat, e: nat :: LeftmostNumeral(t, i, e) && WeightOf(t).text == t[i..e]
  {
    WholeAndGlyphWellFormed();
    SearchFindsLeftmost(WholeAndGlyph, t);
  }

  /** The leftmost numeral is unique: two spans that both qualify coincide. */
  lemma LeftmostNumeralUnique(t: string, i: nat, e: nat, i': nat, e': nat)
    requires LeftmostNumeral(t, i, e) && LeftmostNumeral(t, i', e')
    ensures i == i' && e == e'
  {
    NumeralEnd(t, i, e);
    NumeralEnd(t, i, e');
  }

  /** Where a maximal numeral starting at `i` must end. */
  lemma NumeralEnd(t: string, i: nat, e: nat)
    requires LeftmostNumeral(t, i, e)
    ensures var d := RunEnd(t, i, IsDigit);
            e == if d < |t| && t[d] == '.' then RunEnd(t, d + 1, IsDigit) else d
  {
    var n := t[i..e];
    var dn := RunEnd(n, 0, IsDigit);
    forall k | i <= k < i + dn
      ensures IsDigit(t[k])
    {
      assert t[k] == n[k - i];
    }
    if dn == |n| {
      RunEndUnique(t, i, e, IsDigit);
      assert '.' !in n by {
        forall k | 0 <= k < |n|
          ensures n[k] != '.'
        {
          assert IsDigit(n[k]);
        }
      }
    } else {
      assert t[i + dn] == n[dn] && !IsDigit(n[dn]);
      RunEndUnique(t, i, i + dn, IsDigit);
      forall k | i + dn + 1 <= k < e
        ensures IsDigit(t[k])
      {
        assert t[k] == n[dn + 1..][k - i - dn - 1];
      }
      RunEndUnique(t, i + dn + 1, e, IsDigit);
    }
  }

  /** A text ending in a standalone "lbs" loses just that word. */
  lemma RemoveTrailingUnit(x: string)
    requires 'l' !in x && (x == [] || !IsWordChar(x[|x| - 1]))
    ensures RemoveUnits(x + "lbs") == x
  {
    var s := x + "lbs";
    assert s[0..|x|] == x && s[|x|] == 'l' && s[|x| + 1] == 'b' && s[|x| + 2] == 's';
    assert 'l' !in s[0..|x|];
    RemoveUnitsCopies(s, 0, |x|);
    assert Boundary(s, |x|) && Boundary(s, |x| + 3);
    assert UnitLength(s, |x|) == 3;
  }

  // ---------------------------------------------------------------------
  // _parse_age

  /** The eight searches of `_parse_age` in the order it tries them; the
      last repeats the sixth. */
  const AgePatterns: seq<seq<Token>> :=
    [YearsMonthsWeeks, YearsMonths, MonthsWeeks, YearsWeeks, YearsWithGlyph, MonthsOnly, WeeksOnly, MonthsOnly]

  /** The age in years that the `k`-th branch computes from its groups. */
  function AgeValue(k: nat, g: seq<string>): (v: real)
    requires k < |AgePatterns|
    ensures v >= 0.0
  {
    if k == 0 then Whole(g, 0) + Whole(g, 1) / 12.0 + Whole(g, 2) / 52.0
    else if k == 1 then Whole(g, 0) + Whole(g, 1) / 12.0
    else if k == 2 then Whole(g, 0) / 12.0 + Whole(g, 1) / 52.0
    else if k == 3 then Whole(g, 0) + Whole(g, 1) / 52.0
    else if k == 4 then Whole(g, 0) + Fraction(g, 1)
    else if k == 6 then Whole(g, 0) / 52.0
    else Whole(g, 0) / 12.0
  }

  /** The cascade from the `k`-th search on: the first pattern found anywhere
      in `t` decides, and with none found `t` comes back. */
  function AgeFrom(t: string, k: nat): (r: Quantity)
    requires k <= |AgePatterns|
    ensures r.Exact? ==> r.value >= 0.0
    ensures r.Verbatim? ==> r.text == t
    decreases |AgePatterns| - k
  {
    if k == |AgePatterns| then Verbatim(t)
    else
      match Search(AgePatterns[k], t)
      case Some(m) => Exact(AgeValue(k, m.groups))
      case None => AgeFrom(t, k + 1)
  }

  /** `_parse_age` after lower-casing and stripping. */
  function AgeOf(t: string): (r: Quantity)
    ensures r.Exact? ==> r.value >= 0.0
    ensures r.Verbatim? ==> r.text == t
  {
    AgeFrom(t, 0)
  }

  /** `AnimalShelter._parse_age`. */
  function ParseAge(s: string): (r: Quantity)
    ensures s == "" ==> r == Verbatim("")
    ensures r.Exact? ==> r.value >= 0.0
    ensures s != "" && r.Verbatim? ==> r.text == Strip(Lower(s))
  {
    if s == "" then Verbatim("") else AgeOf(Strip(Lower(s)))
  }

  lemma {:induction false} AgeFromSkips(t: string, k0: nat, k: nat)
    requires k0 <= k <= |AgePatterns|
    requires forall k' :: k0 <= k' < k ==> Search(AgePatterns[k'], t).None?
    ensures AgeFrom(t, k0) == AgeFrom(t, k)
    decreases k - k0
  {
    if k0 < k {
      AgeFromSkips(t, k0 + 1, k);
    }
  }

  lemma {:induction false} AgeFromVerbatim(t: string, k: nat)
    requires k <= |AgePatterns| && AgeFrom(t, k).Verbatim?
    ensures forall k' :: k <= k' < |AgePatterns| ==> Search(AgePatterns[k'], t).None?
    decreases |AgePatterns| - k
  {
    if k < |AgePatterns| {
      AgeFromVerbatim(t, k + 1);
    }
  }

  /** First match wins: when the `k`-th pattern is the first of the cascade
      found anywhere in `t`, the age is that branch's value computed from
      the groups of the leftmost match. Only the first seven branches can
      win, as the eighth repeats the sixth. */
  lemma AgeFirstMatchWins(t: string, k: nat)
    requires k < 7 && Matches(AgePatterns[k], t)
    requires forall k' :: 0 <= k' < k ==> !Matches(AgePatterns[k'], t)
    ensures exists i: nat, g :: Leftmost(AgePatterns[k], t, i, g)
    ensures forall i: nat, g :: Leftmost(AgePatterns[k], t, i, g) ==> AgeOf(t) == Exact(AgeValue(k, g))
  {
    AgePatternsWellFormed();
    forall k' | 0 <= k' <= k
      ensures Search(AgePatterns[k'], t).None? <==> !Matches(AgePatterns[k'], t)
    {
      SearchFindsLeftmost(AgePatterns[k'], t);
    }
    AgeFromSkips(t, 0, k);
    SearchFindsLeftmost(AgePatterns[k], t);
  }

  /** The text comes back unchanged exactly when none of the seven distinct
      patterns is found in it. */
  lemma AgeEchoIff(t: string)
    ensures AgeOf(t).Verbatim? <==> forall k :: 0 <= k < 7 ==> !Matches(AgePatterns[k], t)
    ensures AgeOf(t).Verbatim? ==> AgeOf(t) == Verbatim(t)
  {
    AgePatternsWellFormed();
    forall k | 0 <= k < |AgePatterns|
      ensures Search(AgePatterns[k], t).None? <==> !Matches(AgePatterns[k], t)
    {
      SearchFindsLeftmost(AgePatterns[k], t);
    }
    if forall k :: 0 <= k < 7 ==> !Matches(AgePatterns[k], t) {
      assert AgePatterns[7] == AgePatterns[5];
      AgeFromSkips(t, 0, |AgePatterns|);
    }
    if AgeOf(t).Verbatim? {
      AgeFromVerbatim(t, 0);
    }
  }

  /** The initials of the unit words the `k`-th pattern spells out all occur
      in `t`: "y" for year, "m" for month, "w" for week. */
  predicate Mentions(k: nat, t: string) {
    if k == 0 then 'y' in t && 'm' in t && 'w' in t
    else if k == 1 then 'y' in t && 'm' in t
    else if k == 2 then 'm' in t && 'w' in t
    else if k == 3 then 'y' in t && 'w' in t
    else if k == 4 then 'y' in t
    else if k == 6 then 'w' in t
    else 'm' in t
  }

  lemma WordNeeded(p: seq<Token>, n: nat, w: string, t: string)
    requires n < |p| && p[n] == Lit(w) && |w| > 0 && w[0] !in t
    ensures !Matches(p, t)
  {
    NoMatchWithoutLetter(p, w, t);
  }

  /** A pattern is found only in a text that has the initial of every unit
      word it spells out. */
  lemma AgeMatchMentions(t: string, k: nat)
    requires k < |AgePatterns| && Matches(AgePatterns[k], t)
    ensures Mentions(k, t)
  {
    var p := AgePatterns[k];
    if k == 0 {
      assert p == YearsMonthsWeeks;
      if 'y' !in t { WordNeeded(p, 2, "year", t); }
      if 'm' !in t { WordNeeded(p, 7, "month", t); }
      if 'w' !in t { WordNeeded(p, 12, "week", t); }
    } else if k == 1 || k == 3 {
      assert p == YearsMonths || p == YearsWeeks;
      if 'y' !in t { WordNeeded(p, 2, "year", t); }
      if k == 1 && 'm' !in t { WordNeeded(p, 7, "month", t); }
      if k == 3 && 'w' !in t { WordNeeded(p, 7, "week", t); }
    } else if k == 2 {
      assert p == MonthsWeeks;
      if 'm' !in t { WordNeeded(p, 2, "month", t); }
      if 'w' !in t { WordNeeded(p, 7, "week", t); }
    } else if k == 4 {
      assert p == YearsWithGlyph;
      if 'y' !in t { WordNeeded(p, 4, "year", t); }
    } else if k == 6 {
      assert p == WeeksOnly;
      if 'w' !in t { WordNeeded(p, 2, "week", t); }
    } else {
      assert p == MonthsOnly;
      if 'm' !in t { WordNeeded(p, 2, "month", t); }
    }
  }

  /** A text matched whole by the `k`-th pattern, lacking an initial of every
      earlier pattern, gets that branch's value. */
  lemma AgeFirstMentioned(t: string, k: nat, g: seq<string>)
    requires k < 7 && Ends(AgePatterns[k], t, 0, |t|, g)
    requires forall k' :: 0 <= k' < k ==> !Mentions(k', t)
    ensures AgeOf(t) == Exact(AgeValue(k, g))
  {
    forall k' | 0 <= k' < k
      ensures !Matches(AgePatterns[k'], t)
    {
      if Matches(AgePatterns[k'], t) {
        AgeMatchMentions(t, k');
      }
    }
    assert Leftmost(AgePatterns[k], t, 0, g);
    AgeFirstMatchWins(t, k);
  }

  // ---------------------------------------------------------------------
  // str() and float()

  function Pow10(n: nat): (r: nat)
    ensures r >= 1
  {
    if n == 0 then 1 else 10 * Pow10(n - 1)
  }

  predicate IsWhole(x: real) {
    x == x.Floor as real
  }

  /** The value of the digits after a decimal point. */
  function FracValue(s: string): (v: real)
    requires AllDigits(s)
    ensures 0.0 <= v < 1.0
  {
    DigitsBound(s);
    RatioBelowOne(DigitsValue(s), Pow10(|s|));
    DigitsValue(s) as real / Pow10(|s|) as real
  }

  lemma RatioBelowOne(x: nat, p: nat)
    requires x < p
    ensures 0.0 <= x as real / p as real < 1.0
  {
    assert (x as real / p as real) * p as real == x as real;
  }


  lemma {:induction false} DigitsBound(s: string)
    requires AllDigits(s)
    ensures DigitsValue(s) < Pow10(|s|)
  {
    if s != [] {
      DigitsBound(s[..|s| - 1]);
    }
  }

  /** The last `n` decimal digits of `m`, leading zeros kept. */
  function FracDigits(m: nat, n: nat): (r: string)
    requires m < Pow10(n)
    ensures |r| == n && AllDigits(r) && DigitsValue(r) == m
  {
    if n == 0 then []
    else
      var r := FracDigits(m / 10, n - 1) + [DigitChar(m % 10)];
      assert r[..|r| - 1] == FracDigits(m / 10, n - 1);
      r
  }

  predicate IsZeroDigit(c: char) {
    c == '0'
  }

  /** How many fraction digits `str()` shows at most. */
  const Precision: nat := 16

  /** Ten to the `Precision`. */
  const Scale: nat := 10000000000000000

  lemma ScaleIsPow()
    ensures Pow10(Precision) == Scale
  {
    assert Pow10(4) == 10000;
    assert Pow10(8) == 100000000;
    assert Pow10(12) == 1000000000000;
  }

  /** The fraction of `v`, cut to `Precision` digits, as a whole number. */
  function Scaled(v: real): (m: nat)
    ensures m < Scale
  {
    var x := v - v.Floor as real;
    assert x * Scale as real < Scale as real;
    (x * Scale as real).Floor
  }

  /** Cutting loses nothing when `v` has at most `Precision` decimal digits. */
  lemma ScaledExact(v: real)
    requires IsWhole(v * Scale as real)
    ensures Scaled(v) as real / Scale as real == v - v.Floor as real
  {
    var w := v.Floor;
    var z := (v * Scale as real).Floor;
    var x := v - w as real;
    assert 0.0 <= x < 1.0;
    assert x * Scale as real == (z - w * Scale) as real;
    assert (x * Scale as real).Floor == z - w * Scale;
  }

  /** `str(v)` for a float below 10^16, where Python writes no exponent: the
      whole part, a point, and the fraction digits without trailing zeros
      ("45.5", "3.0"). */
  function FloatText(v: real): (r: string) {
    if v < 0.0 then "-" + FixedText(-v) else FixedText(v)
  }

  function FixedText(v: real): (r: string)
    requires v >= 0.0
  {
    NatText(v.Floor) + "." + FracText(Scaled(v))
  }

  /** The `Precision` fraction digits of `m` without trailing zeros, or a
      single zero when nothing is left. */
  function FracText(m: nat): (r: string)
    requires m < Scale
  {
    ScaleIsPow();
    var digits := TrimEnd(FracDigits(m, Precision), IsZeroDigit);
    if digits == [] then "0" else digits
  }

  /** The fraction digits read back as the fraction they were written for. */
  lemma FracTextValue(m: nat)
    requires m < Scale
    ensures |FracText(m)| > 0 && AllDigits(FracText(m))
    ensures FracValue(FracText(m)) == m as real / Scale as real
  {
    ScaleIsPow();
    var digits := FracDigits(m, Precision);
    assert FracValue(digits) == m as real / Scale as real;
    FracValueTrimmed(digits);
    var t := TrimEnd(digits, IsZeroDigit);
    assert FracText(m) == if t == [] then "0" else t;
    if t == [] {
      assert FracValue(t) == 0.0;
      assert FracValue("0") == 0.0;
    }
  }

  /** The text a parser result becomes when it is stored on a listing. */
  function Show(q: Quantity): string {
    match q
    case Exact(v) => FloatText(v)
    case Verbatim(t) => t
  }

  /** An unsigned decimal: digits, optionally followed by a point and more
      digits, or a point and at least one digit. */
  function UnsignedValue(body: string): Option<real> {
    var d := RunEnd(body, 0, IsDigit);
    if d == |body| then
      if d == 0 then None else Some(DigitsValue(body) as real)
    else if body[d] != '.' || !AllDigits(body[d + 1..]) || (d == 0 && d + 1 == |body|) then None
    else Some(DigitsValue(body[..d]) as real + FracValue(body[d + 1..]))
  }

  /** `float(text)` on decimal notation: surrounding blanks, a sign, then an
      unsigned decimal. `None` is the `ValueError` Python raises. */
  function DecimalValue(text: string): Option<real> {
    var t := Strip(text);
    if |t| > 0 && (t[0] == '-' || t[0] == '+') then
      match UnsignedValue(t[1..])
      case None => None
      case Some(m) => Some(if t[0] == '-' then -m else m)
    else UnsignedValue(t)
  }

  /** `float()` of a parser result: a computed value is read back as itself. */
  function AsFloat(q: Quantity): Option<real> {
    match q
    case Exact(v) => Some(v)
    case Verbatim(t) => DecimalValue(t)
  }

  /** Zeros at the end of a fraction's digits add nothing. */
  lemma FracValueZeroTail(s: string)
    requires AllDigits(s)
    ensures FracValue(s + "0") == FracValue(s)
  {
    var t := s + "0";
    assert t[..|t| - 1] == s;
    assert DigitsValue(t) == 10 * DigitsValue(s) && Pow10(|t|) == 10 * Pow10(|s|);
    ScaleDown(DigitsValue(s), Pow10(|s|));
  }

  lemma ScaleDown(x: nat, p: nat)
    requires p >= 1
    ensures (10 * x) as real / (10 * p) as real == x as real / p as real
  {
  }

  lemma {:induction false} FracValueTrimmed(s: string)
    requires AllDigits(s)
    ensures FracValue(TrimEnd(s, IsZeroDigit)) == FracValue(s)
    decreases |s|
  {
    if s != [] && IsZeroDigit(s[|s| - 1]) {
      var a := s[..|s| - 1];
      assert s == a + "0";
      FracValueZeroTail(a);
      FracValueTrimmed(a);
    }
  }

  /** A numeral with a point reads as its whole part plus its fraction. */
  lemma PointedValue(a: string, b: string)
    requires |a| > 0 && AllDigits(a) && |b| > 0 && AllDigits(b)
    ensures DecimalValue(a + "." + b) == Some(DigitsValue(a) as real + FracValue(b))
  {
    var t := a + "." + b;
    assert t[0] == a[0] && t[|t| - 1] == b[|b| - 1];
    StripNoEdgeSpace(t);
    PointedUnsigned(a, b);
  }

  lemma PointedUnsigned(a: string, b: string)
    requires |a| > 0 && AllDigits(a) && AllDigits(b)
    ensures UnsignedValue(a + "." + b) == Some(DigitsValue(a) as real + FracValue(b))
  {
    var t := a + "." + b;
    assert t[..|a|] == a && t[|a| + 1..] == b && t[|a|] == '.';
    forall k | 0 <= k < |a|
      ensures IsDigit(t[k])
    {
      assert t[k] == a[k];
    }
    RunEndUnique(t, 0, |a|, IsDigit);
  }

  /** `float(str(v))` gives back `v` for a non-negative value with at most
      sixteen decimal digits, as every glyph sum except the thirds has. */
  lemma FloatTextRoundTrip(v: real)
    requires v >= 0.0 && IsWhole(v * Scale as real)
    ensures DecimalValue(FloatText(v)) == Some(v)
  {
    var w, m := v.Floor, Scaled(v);
    var a, b := NatText(w), FracText(m);
    FloatTextParts(v);
    FracTextValue(m);
    NatTextRoundTrip(w);
    ScaledExact(v);
    WholePlusFraction(v, DigitsValue(a), FracValue(b));
    ReadBack(FloatText(v), a, b, v);
  }

  /** A text made of a numeral, a point and fraction digits reads as their sum. */
  lemma ReadBack(s: string, a: string, b: string, v: real)
    requires s == a + "." + b
    requires |a| > 0 && AllDigits(a) && |b| > 0 && AllDigits(b)
    requires DigitsValue(a) as real + FracValue(b) == v
    ensures DecimalValue(s) == Some(v)
  {
    PointedValue(a, b);
    var d := DecimalValue(a + "." + b);
    assert d == Some(DigitsValue(a) as real + FracValue(b));
    assert d.Some?;
    assert d.value == DigitsValue(a) as real + FracValue(b);
    assert d.value == v;
  }

  lemma FloatTextParts(v: real)
    requires v >= 0.0
    ensures FloatText(v) == NatText(v.Floor) + "." + FracText(Scaled(v))
  {
  }

  lemma WholePlusFraction(v: real, w: nat, f: real)
    requires w == v.Floor && f == v - v.Floor as real
    ensures w as real + f == v
  {
  }

  /** What a listing stores for a parser result reads back, under `float()`,
      as the parser's value. */
  lemma ShowReadsBack(q: Quantity)
    requires q.Exact? ==> q.value >= 0.0 && IsWhole(q.value * Scale as real)
    ensures DecimalValue(Show(q)) == AsFloat(q)
  {
    if q.Exact? {
      FloatTextRoundTrip(q.value);
    }
  }
}
