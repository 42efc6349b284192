/** What the quantity parser makes of the texts shelters actually write:
    "2 years 6 months", "5 ½ years", "10 weeks", "45 ½ lbs". Each lemma builds
    the whole-text match of one pattern and shows that no pattern tried
    before it is found anywhere, so the cascade reaches it.
 */
module Shapes {
  import opened Text
  import opened Pattern
  import opened Quantity

  /** "N units": a number, one blank, and a unit word in the plural. */
  function Phrase(n: nat, unit: string): (r: string)
    ensures |r| > 0 && IsDigit(r[0]) && (unit == [] || r[|r| - 1] == 's')
  {
    NatText(n) + " " + unit + "s"
  }

  /** "N c units", with `c` a fraction glyph between number and unit. */
  function GlyphPhrase(n: nat, c: char, unit: string): (r: string)
    ensures |r| > 0 && IsDigit(r[0]) && r[|r| - 1] == 's'
  {
    NatText(n) + " " + [c] + " " + unit + "s"
  }

  /** `(\d+)\s*([glyphs]?)\s*units?` */
  function GlyphAmount(unit: string): seq<Token> {
    [Digits, Blank, OptGlyph, Blank, Lit(unit), Opt('s')]
  }

  // ---------------------------------------------------------------------
  // Building whole-text matches

  /** `(\d+)\s*` consumes a numeral and the blank after it. */
  lemma NumberBlank(d: string)
    requires |d| > 0 && AllDigits(d)
    ensures Ends([Digits, Blank], d + " ", 0, |d| + 1, [d])
  {
    var x := d + " ";
    assert x[0..|d|] == d;
    EndsDigits(x, 0, d);
    EndsOneBlank(x, |d|);
    EndsConcat([Digits], [Blank], x, 0, |d|, |d| + 1, [d], []);
    assert [Digits] + [Blank] == [Digits, Blank];
  }

  /** `unit s?` consumes the plural of the unit word. */
  lemma WordPlural(u: string)
    requires |u| > 0
    ensures Ends([Lit(u), Opt('s')], u + "s", 0, |u| + 1, [])
  {
    assert (u + "s")[0..|u|] == u;
    EndsWord(u + "s", 0, u);
  }

  lemma AmountPhrase(n: nat, unit: string)
    requires |unit| > 0
    ensures Ends(Amount(unit), Phrase(n, unit), 0, |Phrase(n, unit)|, [NatText(n)])
  {
    var d := NatText(n);
    NumberBlank(d);
    WordPlural(unit);
    EndsJoin([Digits, Blank], [Lit(unit), Opt('s')], d + " ", unit + "s", [d], []);
    assert [Digits, Blank] + [Lit(unit), Opt('s')] == Amount(unit);
    assert (d + " ") + (unit + "s") == Phrase(n, unit);
    assert [d] + [] == [d];
  }

  /** Two whole-text matches separated by one blank make a match of the
      patterns joined by `\s*`. */
  lemma JoinWithBlank(p1: seq<Token>, p2: seq<Token>, x: string, y: string, g1: seq<string>, g2: seq<string>)
    requires Ends(p1, x, 0, |x|, g1) && Ends(p2, y, 0, |y|, g2)
    ensures Ends(p1 + [Blank] + p2, x + " " + y, 0, |x + " " + y|, g1 + g2)
  {
    EndsOneBlank(" ", 0);
    EndsJoin(p1, [Blank], x, " ", g1, []);
    EndsJoin(p1 + [Blank], p2, x + " ", y, g1 + [], g2);
    assert g1 + [] + g2 == g1 + g2;
  }

  lemma TwoPhrases(x: nat, y: nat, u1: string, u2: string)
    requires |u1| > 0 && |u2| > 0
    ensures var t := Phrase(x, u1) + " " + Phrase(y, u2);
            Ends(Amount(u1) + [Blank] + Amount(u2), t, 0, |t|, [NatText(x), NatText(y)])
  {
    AmountPhrase(x, u1);
    AmountPhrase(y, u2);
    JoinWithBlank(Amount(u1), Amount(u2), Phrase(x, u1), Phrase(y, u2), [NatText(x)], [NatText(y)]);
  }

  lemma ThreePhrases(x: nat, y: nat, z: nat, u1: string, u2: string, u3: string)
    requires |u1| > 0 && |u2| > 0 && |u3| > 0
    ensures var t := Phrase(x, u1) + " " + Phrase(y, u2) + " " + Phrase(z, u3);
            Ends(Amount(u1) + [Blank] + Amount(u2) + [Blank] + Amount(u3), t, 0, |t|, [NatText(x), NatText(y), NatText(z)])
  {
    var a := Phrase(x, u1) + " " + Phrase(y, u2);
    TwoPhrases(x, y, u1, u2);
    AmountPhrase(z, u3);
    JoinWithBlank(Amount(u1) + [Blank] + Amount(u2), Amount(u3), a, Phrase(z, u3), [NatText(x), NatText(y)], [NatText(z)]);
    assert [NatText(x), NatText(y)] + [NatText(z)] == [NatText(x), NatText(y), NatText(z)];
  }

  lemma GlyphPhraseEnds(y: nat, c: char, u: string)
    requires IsGlyph(c) && |u| > 0
    ensures Ends(GlyphAmount(u), GlyphPhrase(y, c, u), 0, |GlyphPhrase(y, c, u)|, [NatText(y), [c]])
  {
    var d := NatText(y);
    NumberBlank(d);
    EndsGlyph([c], 0);
    EndsJoin([Digits, Blank], [OptGlyph], d + " ", [c], [d], [[c]]);
    WordPlural(u);
    JoinWithBlank([Digits, Blank] + [OptGlyph], [Lit(u), Opt('s')], d + " " + [c], u + "s", [d] + [[c]], []);
    GlyphPhraseShape(y, c, u);
  }

  lemma GlyphPhraseShape(y: nat, c: char, u: string)
    ensures [Digits, Blank] + [OptGlyph] + [Blank] + [Lit(u), Opt('s')] == GlyphAmount(u)
    ensures NatText(y) + " " + [c] + " " + (u + "s") == GlyphPhrase(y, c, u)
    ensures [NatText(y)] + [[c]] + [] == [NatText(y), [c]]
  {
  }

  lemma PlainGlyphAmount(y: nat, u: string)
    requires |u| > 0
    ensures Ends(GlyphAmount(u), Phrase(y, u), 0, |Phrase(y, u)|, [NatText(y), []])
  {
    var d := NatText(y);
    NumberBlank(d);
    WordPlural(u);
    assert Ends([OptGlyph, Blank], "", 0, 0, [[]]) by {
      assert AllIn("", 0, 0, SpaceClass);
      assert Ends([Blank], "", 0, 0, []);
    }
    EndsJoin([Digits, Blank], [OptGlyph, Blank], d + " ", "", [d], [[]]);
    EndsJoin([Digits, Blank] + [OptGlyph, Blank], [Lit(u), Opt('s')], d + " " + "", u + "s", [d] + [[]], []);
    PlainGlyphShape(y, u);
  }

  lemma PlainGlyphShape(y: nat, u: string)
    ensures [Digits, Blank] + [OptGlyph, Blank] + [Lit(u), Opt('s')] == GlyphAmount(u)
    ensures [NatText(y)] + [[]] + [] == [NatText(y), []]
    ensures (NatText(y) + " " + "") + (u + "s") == Phrase(y, u)
  {
  }

  // ---------------------------------------------------------------------
  // Texts the age parser sees unchanged

  /** Lower-case, with no blank at either end. */
  predicate Settled(t: string) {
    t != [] && !IsSpace(t[0]) && !IsSpace(t[|t| - 1]) && Lower(t) == t
  }

  lemma PhraseSettled(n: nat, unit: string)
    requires IsLowerCase(unit)
    ensures Settled(Phrase(n, unit))
  {
    assert forall c :: c in unit ==> !IsUpper(c);
    LowerFixed(Phrase(n, unit));
  }

  lemma GlyphPhraseSettled(n: nat, c: char, unit: string)
    requires IsGlyph(c) && IsLowerCase(unit)
    ensures Settled(GlyphPhrase(n, c, unit))
  {
    assert forall ch :: ch in unit ==> !IsUpper(ch);
    assert forall ch :: ch in GlyphPhrase(n, c, unit) ==> !IsUpper(ch);
    LowerFixed(GlyphPhrase(n, c, unit));
  }

  /** Two settled texts joined by a blank make a settled text. */
  lemma JoinSettled(a: string, b: string)
    requires Settled(a) && Settled(b)
    ensures Settled(a + " " + b)
  {
    var t := a + " " + b;
    assert Lower(" ") == " ";
    LowerAppend(a, " ");
    LowerAppend(a + " ", b);
    assert t[0] == a[0] && t[|t| - 1] == b[|b| - 1];
  }

  /** A letter that is no digit, blank or "s", and not in the unit word, does
      not occur in the phrase. */
  lemma PhraseLacks(n: nat, unit: string, c: char)
    requires !IsDigit(c) && c != ' ' && c != 's' && c !in unit
    ensures c !in Phrase(n, unit)
  {
  }

  /** A group holding a numeral written by `NatText` reads back as that number. */
  lemma WholeOfNat(g: seq<string>, k: nat, n: nat)
    requires k < |g| && g[k] == NatText(n)
    ensures Whole(g, k) == n as real
  {
    NatTextRoundTrip(n);
  }

  lemma GlyphPhraseLacks(n: nat, c: char, unit: string, x: char)
    requires IsGlyph(c) && !IsDigit(x) && x != ' ' && x != 's' && x !in unit && !IsGlyph(x)
    ensures x !in GlyphPhrase(n, c, unit)
  {
  }

  // ---------------------------------------------------------------------
  // _parse_age on the usual phrasings

  /** Stripping and lower-casing leave a settled text as it is. */
  lemma SettledAge(t: string)
    requires Settled(t)
    ensures ParseAge(t) == AgeOf(t)
  {
    StripNoEdgeSpace(t);
  }

  lemma AgeOfYearsMonthsWeeks(y: nat, m: nat, w: nat)
    ensures AgeOf(Phrase(y, "year") + " " + Phrase(m, "month") + " " + Phrase(w, "week")) == Exact(y as real + m as real / 12.0 + w as real / 52.0)
  {
    var t := Phrase(y, "year") + " " + Phrase(m, "month") + " " + Phrase(w, "week");
    var g := [NatText(y), NatText(m), NatText(w)];
    ThreePhrases(y, m, w, "year", "month", "week");
    assert AgePatterns[0] == Amount("year") + [Blank] + Amount("month") + [Blank] + Amount("week");
    assert AgeValue(0, g) == y as real + m as real / 12.0 + w as real / 52.0 by {
      WholeOfNat(g, 0, y);
      WholeOfNat(g, 1, m);
      WholeOfNat(g, 2, w);
    }
    AgeFirstMentioned(t, 0, g);
  }

  lemma ParseAgeYearsMonthsWeeks(y: nat, m: nat, w: nat)
    ensures ParseAge(Phrase(y, "year") + " " + Phrase(m, "month") + " " + Phrase(w, "week"))
         == Exact(y as real + m as real / 12.0 + w as real / 52.0)
  {
    AgeOfYearsMonthsWeeks(y, m, w);
    PhraseSettled(y, "year");
    PhraseSettled(m, "month");
    PhraseSettled(w, "week");
    JoinSettled(Phrase(y, "year"), Phrase(m, "month"));
    JoinSettled(Phrase(y, "year") + " " + Phrase(m, "month"), Phrase(w, "week"));
    SettledAge(Phrase(y, "year") + " " + Phrase(m, "month") + " " + Phrase(w, "week"));
  }

  lemma AgeOfYearsMonths(y: nat, m: nat)
    ensures AgeOf(Phrase(y, "year") + " " + Phrase(m, "month")) == Exact(y as real + m as real / 12.0)
  {
    var t := Phrase(y, "year") + " " + Phrase(m, "month");
    var g := [NatText(y), NatText(m)];
    TwoPhrases(y, m, "year", "month");
    assert AgePatterns[1] == Amount("year") + [Blank] + Amount("month");
    assert 'w' !in t by {
      PhraseLacks(y, "year", 'w');
      PhraseLacks(m, "month", 'w');
    }
    assert AgeValue(1, g) == y as real + m as real / 12.0 by {
      WholeOfNat(g, 0, y);
      WholeOfNat(g, 1, m);
    }
    AgeFirstMentioned(t, 1, g);
  }

  lemma ParseAgeYearsMonths(y: nat, m: nat)
    ensures ParseAge(Phrase(y, "year") + " " + Phrase(m, "month")) == Exact(y as real + m as real / 12.0)
  {
    AgeOfYearsMonths(y, m);
    PhraseSettled(y, "year");
    PhraseSettled(m, "month");
    JoinSettled(Phrase(y, "year"), Phrase(m, "month"));
    SettledAge(Phrase(y, "year") + " " + Phrase(m, "month"));
  }

  lemma AgeOfMonthsWeeks(m: nat, w: nat)
    ensures AgeOf(Phrase(m, "month") + " " + Phrase(w, "week")) == Exact(m as real / 12.0 + w as real / 52.0)
  {
    var t := Phrase(m, "month") + " " + Phrase(w, "week");
    var g := [NatText(m), NatText(w)];
    TwoPhrases(m, w, "month", "week");
    assert AgePatterns[2] == Amount("month") + [Blank] + Amount("week");
    assert 'y' !in t by {
      PhraseLacks(m, "month", 'y');
      PhraseLacks(w, "week", 'y');
    }
    assert AgeValue(2, g) == m as real / 12.0 + w as real / 52.0 by {
      WholeOfNat(g, 0, m);
      WholeOfNat(g, 1, w);
    }
    AgeFirstMentioned(t, 2, g);
  }

  lemma ParseAgeMonthsWeeks(m: nat, w: nat)
    ensures ParseAge(Phrase(m, "month") + " " + Phrase(w, "week")) == Exact(m as real / 12.0 + w as real / 52.0)
  {
    AgeOfMonthsWeeks(m, w);
    PhraseSettled(m, "month");
    PhraseSettled(w, "week");
    JoinSettled(Phrase(m, "month"), Phrase(w, "week"));
    SettledAge(Phrase(m, "month") + " " + Phrase(w, "week"));
  }

  lemma AgeOfYearsWeeks(y: nat, w: nat)
    ensures AgeOf(Phrase(y, "year") + " " + Phrase(w, "week")) == Exact(y as real + w as real / 52.0)
  {
    var t := Phrase(y, "year") + " " + Phrase(w, "week");
    var g := [NatText(y), NatText(w)];
    TwoPhrases(y, w, "year", "week");
    assert AgePatterns[3] == Amount("year") + [Blank] + Amount("week");
    assert 'm' !in t by {
      PhraseLacks(y, "year", 'm');
      PhraseLacks(w, "week", 'm');
    }
    assert AgeValue(3, g) == y as real + w as real / 52.0 by {
      WholeOfNat(g, 0, y);
      WholeOfNat(g, 1, w);
    }
    AgeFirstMentioned(t, 3, g);
  }

  lemma ParseAgeYearsWeeks(y: nat, w: nat)
    ensures ParseAge(Phrase(y, "year") + " " + Phrase(w, "week")) == Exact(y as real + w as real / 52.0)
  {
    AgeOfYearsWeeks(y, w);
    PhraseSettled(y, "year");
    PhraseSettled(w, "week");
    JoinSettled(Phrase(y, "year"), Phrase(w, "week"));
    SettledAge(Phrase(y, "year") + " " + Phrase(w, "week"));
  }

  lemma AgeOfYearsGlyph(y: nat, c: char)
    requires IsGlyph(c)
    ensures AgeOf(GlyphPhrase(y, c, "year")) == Exact(y as real + GlyphValue(c))
  {
    GlyphPhraseEnds(y, c, "year");
    assert AgePatterns[4] == GlyphAmount("year");
    GlyphPhraseLacks(y, c, "year", 'm');
    GlyphPhraseLacks(y, c, "year", 'w');
    YearsGlyphAge(GlyphPhrase(y, c, "year"), y, [c]);
  }

  /** A text with neither "m" nor "w" that the years-with-fraction pattern
      reads as `y` and an optional glyph is `y` years plus the glyph's value. */
  lemma YearsGlyphAge(t: string, y: nat, glyph: string)
    requires Ends(AgePatterns[4], t, 0, |t|, [NatText(y), glyph]) && 'm' !in t && 'w' !in t
    ensures AgeOf(t) == Exact(y as real + Fraction([NatText(y), glyph], 1))
  {
    WholeOfNat([NatText(y), glyph], 0, y);
    AgeFirstMentioned(t, 4, [NatText(y), glyph]);
  }

  lemma ParseAgeYearsGlyph(y: nat, c: char)
    requires IsGlyph(c)
    ensures ParseAge(GlyphPhrase(y, c, "year")) == Exact(y as real + GlyphValue(c))
  {
    AgeOfYearsGlyph(y, c);
    GlyphPhraseSettled(y, c, "year");
    SettledAge(GlyphPhrase(y, c, "year"));
  }

  lemma AgeOfYears(y: nat)
    ensures AgeOf(Phrase(y, "year")) == Exact(y as real)
  {
    PlainGlyphAmount(y, "year");
    assert AgePatterns[4] == GlyphAmount("year");
    PhraseLacks(y, "year", 'm');
    PhraseLacks(y, "year", 'w');
    YearsGlyphAge(Phrase(y, "year"), y, []);
  }

  lemma ParseAgeYears(y: nat)
    ensures ParseAge(Phrase(y, "year")) == Exact(y as real)
  {
    AgeOfYears(y);
    PhraseSettled(y, "year");
    SettledAge(Phrase(y, "year"));
  }


  lemma AgeOfMonths(m: nat)
    ensures AgeOf(Phrase(m, "month")) == Exact(m as real / 12.0)
  {
    SixthPatternEnds(m);
    PhraseLacks(m, "month", 'y');
    PhraseLacks(m, "month", 'w');
    MonthsOnlyAge(Phrase(m, "month"), m);
  }

  /** A text with neither "y" nor "w" that the months-only pattern reads as `m` is `m` months old. */
  lemma MonthsOnlyAge(t: string, m: nat)
    requires Ends(AgePatterns[5], t, 0, |t|, [NatText(m)]) && 'y' !in t && 'w' !in t
    ensures AgeOf(t) == Exact(m as real / 12.0)
  {
    WholeOfNat([NatText(m)], 0, m);
    AgeFirstMentioned(t, 5, [NatText(m)]);
  }

  lemma SixthPatternEnds(m: nat)
    ensures Ends(AgePatterns[5], Phrase(m, "month"), 0, |Phrase(m, "month")|, [NatText(m)])
  {
    AmountPhrase(m, "month");
    assert AgePatterns[5] == Amount("month");
  }

  lemma ParseAgeMonths(m: nat)
    ensures ParseAge(Phrase(m, "month")) == Exact(m as real / 12.0)
  {
    AgeOfMonths(m);
    PhraseSettled(m, "month");
    SettledAge(Phrase(m, "month"));
  }

  lemma AgeOfWeeks(w: nat)
    ensures AgeOf(Phrase(w, "week")) == Exact(w as real / 52.0)
  {
    SeventhPatternEnds(w);
    PhraseLacks(w, "week", 'y');
    PhraseLacks(w, "week", 'm');
    WeeksOnlyAge(Phrase(w, "week"), w);
  }

  /** A text with neither "y" nor "m" that the weeks-only pattern reads as `w` is `w` weeks old. */
  lemma WeeksOnlyAge(t: string, w: nat)
    requires Ends(AgePatterns[6], t, 0, |t|, [NatText(w)]) && 'y' !in t && 'm' !in t
    ensures AgeOf(t) == Exact(w as real / 52.0)
  {
    WholeOfNat([NatText(w)], 0, w);
    AgeFirstMentioned(t, 6, [NatText(w)]);
  }

  lemma SeventhPatternEnds(w: nat)
    ensures Ends(AgePatterns[6], Phrase(w, "week"), 0, |Phrase(w, "week")|, [NatText(w)])
  {
    AmountPhrase(w, "week");
    assert AgePatterns[6] == Amount("week");
  }

  lemma ParseAgeWeeks(w: nat)
    ensures ParseAge(Phrase(w, "week")) == Exact(w as real / 52.0)
  {
    AgeOfWeeks(w);
    PhraseSettled(w, "week");
    SettledAge(Phrase(w, "week"));
  }

  // ---------------------------------------------------------------------
  // Weights

  /** "45 ½ lbs" weighs 45.5: the unit goes, and the number with its glyph is read. */
  lemma WeightWithGlyph(n: nat, c: char)
    requires IsGlyph(c)
    ensures ParseWeight(NatText(n) + " " + [c] + " lbs") == Exact(n as real + GlyphValue(c))
  {
    var d := NatText(n);
    CleanGlyphWeight(d, c);
    NumberGlyph(d, c);
    WeightOfGlyph(d + " " + [c], 0, [d, [c]]);
    NatTextRoundTrip(n);
  }

  /** Removing the unit and stripping leaves the number and the glyph. */
  lemma CleanGlyphWeight(d: string, c: char)
    requires |d| > 0 && AllDigits(d) && IsGlyph(c)
    ensures Strip(RemoveUnits(d + " " + [c] + " lbs")) == d + " " + [c]
  {
    var t := d + " " + [c];
    GlyphIsNeither(c);
    assert 'l' !in t + " " && !IsWordChar((t + " ")[|t|]);
    RemoveTrailingUnit(t + " ");
    StripTrailingBlank(t);
    assert d + " " + [c] + " lbs" == t + " " + "lbs";
  }

  lemma NumberGlyph(d: string, c: char)
    requires |d| > 0 && AllDigits(d) && IsGlyph(c)
    ensures Leftmost(WholeAndGlyph, d + " " + [c], 0, [d, [c]])
  {
    NumberBlank(d);
    EndsGlyph([c], 0);
    EndsJoin([Digits, Blank], [Glyph], d + " ", [c], [d], [[c]]);
    assert [Digits, Blank] + [Glyph] == WholeAndGlyph;
    assert [d] + [[c]] == [d, [c]];
  }

  /** "45 lbs" has no glyph, so the numeral comes back as written. */
  lemma WeightWhole(n: nat)
    ensures ParseWeight(NatText(n) + " lbs") == Verbatim(NatText(n))
  {
    var d := NatText(n);
    assert 'l' !in d + " " && !IsWordChar((d + " ")[|d|]);
    RemoveTrailingUnit(d + " ");
    StripTrailingBlank(d);
    assert d + " lbs" == d + " " + "lbs";
    forall i: nat, j: nat, g | Ends(WholeAndGlyph, d, i, j, g)
      ensures false
    {
      GlyphNeeded(WholeAndGlyph, d, i, j, g);
      var k :| i <= k < j && IsGlyph(d[k]);
      GlyphIsNeither(d[k]);
    }
    WeightOfVerbatim(d);
    var i: nat, e: nat :| LeftmostNumeral(d, i, e) && WeightOf(d).text == d[i..e];
    assert d[..|d|] == d;
  }
}
