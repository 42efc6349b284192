/** The sex field of the Helen Woodward extractor: the text is lower-cased
    and then the spay and neuter suffixes are removed, in that order.
 */
module SexField {
  import opened Text

  /** The sex from the stripped text of its detail: lower-cased, then each
      suffix removed with the result stripped. */
  function SexRule(text: string, first: string, second: string): string
    requires |first| > 0 && |second| > 0
  {
    Strip(RemoveAll(Strip(RemoveAll(Lower(text), first)), second))
  }

  /** The sex as the extractor computes it: lower-cased first, so removing the
      capitalised " - Spayed" and " - Neutered" never finds anything. */
  function SexAsWritten(text: string): string {
    SexRule(text, " - Spayed", " - Neutered")
  }

  /** The sex as the extractor evidently means to compute it: the suffixes
      removed in the case they have after lower-casing. */
  function SexCorrected(text: string): string {
    SexRule(text, " - spayed", " - neutered")
  }

  /** As written, the two removals never change anything: the sex is just
      the lower-cased text. */
  lemma SexReplaceIsNoOp(text: string)
    ensures SexAsWritten(Strip(text)) == Lower(Strip(text))
  {
    var x := Strip(text);
    var y := Lower(x);
    StripTwice(text);
    LowerKeepsStripped(x);
    LowerIsLowerCase(x);
    KeepsLowerCase(y);
  }

  /** Neither capitalised suffix occurs in a lower-case text. */
  lemma KeepsLowerCase(y: string)
    requires IsLowerCase(y)
    ensures RemoveAll(y, " - Spayed") == y && RemoveAll(y, " - Neutered") == y
  {
    assert " - " + ['S'] + "payed" == " - Spayed";
    LowerCaseKeeps(y, " - ", 'S', "payed");
    assert " - " + ['N'] + "eutered" == " - Neutered";
    LowerCaseKeeps(y, " - ", 'N', "eutered");
  }

  /** So "Female - Spayed" is stored as "female - spayed", which a filter on
      the sex "female" rejects. */
  lemma SpayedSuffixKept(base: string)
    requires base != [] && Unpadded(base)
    ensures SexAsWritten(base + " - Spayed") == Lower(base) + " - spayed"
  {
    var t := base + " - Spayed";
    calc {
      SexAsWritten(t);
    == { assert t[0] == base[0] && t[|t| - 1] == 'd';
         StripNoEdgeSpace(t);
         SexReplaceIsNoOp(t); }
      Lower(t);
    == { LowerAppend(base, " - Spayed"); }
      Lower(base) + Lower(" - Spayed");
    == { LowerSuffixes(); }
      Lower(base) + " - spayed";
    }
  }

  /** The two suffixes of the source, lower-cased. */
  lemma LowerSuffixes()
    ensures Lower(" - Spayed") == " - spayed" && Lower(" - Neutered") == " - neutered"
  {
    SuffixWords();
    LowerSuffix('S', "payed");
    LowerSuffix('N', "eutered");
  }

  /** Each suffix is " - ", its capital and a lower-case rest. */
  lemma SuffixWords()
    ensures " - Spayed" == " - " + ['S'] + "payed" && " - spayed" == " - " + [LowerChar('S')] + "payed"
    ensures " - Neutered" == " - " + ['N'] + "eutered" && " - neutered" == " - " + [LowerChar('N')] + "eutered"
    ensures IsLowerCase("payed") && IsLowerCase("eutered")
  {
  }

  /** " - " followed by a word whose first letter `c` alone may be a capital,
      lower-cased: only that letter changes. */
  lemma LowerSuffix(c: char, rest: string)
    requires IsLowerCase(rest)
    ensures Lower(" - " + [c] + rest) == " - " + [LowerChar(c)] + rest
  {
    LowerOneCapital(" - ", c, rest);
  }

  /** A lower-cased text without a hyphen. */
  lemma LowerNoHyphen(base: string)
    requires '-' !in base
    ensures '-' !in Lower(base) && IsLowerCase(Lower(base))
  {
    LowerAt(base);
    LowerIsLowerCase(base);
  }

  /** In `x + " - " + u`, with neither `x` nor `u` holding a hyphen, a word
      " - v" can only occur where the one hyphen is, and occurs there exactly
      when `v` starts `u`. */
  lemma DashOnce(x: string, u: string, v: string)
    requires '-' !in x && '-' !in u
    ensures forall p :: p != |x| ==> !OccursAt(x + (" - " + u), " - " + v, p)
    ensures OccursAt(x + (" - " + u), " - " + v, |x|) <==> |v| <= |u| && u[..|v|] == v
  {
    var s, n := x + (" - " + u), " - " + v;
    assert n[1] == '-';
    forall p | p != |x| && 0 <= p && p + |n| <= |s|
      ensures !OccursAt(s, n, p)
    {
      assert s[p + 1] != '-' by {
        if p + 1 < |x| {
          assert s[p + 1] == x[p + 1];
        } else if p + 1 == |x| {
          assert s[p + 1] == ' ';
        } else if p + 1 == |x| + 2 {
          assert s[p + 1] == ' ';
        } else {
          assert s[p + 1] == u[p + 1 - |x| - 3];
        }
      }
      assert s[p..p + |n|][1] == s[p + 1];
    }
    if |v| <= |u| {
      var m := " - " + u[..|v|];
      assert s[|x|..|x| + |n|] == m;
      if m == n {
        assert m[3..] == u[..|v|] && n[3..] == v;
      }
    }
  }

  /** A text without a hyphen holds no word " - v". */
  lemma DashAbsent(x: string, v: string)
    requires '-' !in x
    ensures !Contains(x, " - " + v)
  {
    var n := " - " + v;
    assert n[1] == '-';
    forall p | 0 <= p && p + |n| <= |x|
      ensures !OccursAt(x, n, p)
    {
      assert x[p..p + |n|][1] == x[p + 1];
    }
  }

  /** The sex text with a suffix " - u" appended, lower-cased. */
  lemma LowerWithSuffix(base: string, w: string, u: string)
    requires Lower(w) == " - " + u
    ensures Lower(base + w) == Lower(base) + (" - " + u)
  {
    LowerAppend(base, w);
  }

  /** What the rule needs of a plain sex: no blank at either end and no
      hyphen. */
  predicate PlainSex(base: string) {
    Unpadded(base) && '-' !in base
  }

  /** What the rule needs of a suffix word: no hyphen, and a last character
      that is not blank. */
  predicate SuffixWord(u: string) {
    u != [] && '-' !in u && !IsSpace(u[|u| - 1])
  }

  lemma PlainLower(base: string)
    requires PlainSex(base)
    ensures PlainSex(Lower(base))
  {
    LowerNoHyphen(base);
    LowerAt(base);
  }

  /** Removing words " - u1" and " - u2" leaves a plain sex as it is. */
  lemma RuleKeepsPlain(base: string, u1: string, u2: string)
    requires PlainSex(base)
    ensures SexRule(base, " - " + u1, " - " + u2) == Lower(base)
  {
    var x := Lower(base);
    PlainLower(base);
    StripNoEdgeSpace(x);
    DashAbsent(x, u1);
    DashAbsent(x, u2);
    RemoveAllAbsent(x, " - " + u1);
    RemoveAllAbsent(x, " - " + u2);
  }

  /** A suffix " - u1" is removed, and then there is nothing left for the
      second word to remove. */
  lemma RuleDropsFirst(base: string, w: string, u1: string, u2: string)
    requires PlainSex(base) && SuffixWord(u1) && Lower(w) == " - " + u1
    ensures SexRule(base + w, " - " + u1, " - " + u2) == Lower(base)
  {
    var x := Lower(base);
    PlainLower(base);
    LowerWithSuffix(base, w, u1);
    SuffixRemoved(x, u1);
    StripNoEdgeSpace(x);
    DashAbsent(x, u2);
    RemoveAllAbsent(x, " - " + u2);
  }

  /** A suffix " - u2" survives the first removal when `u1` does not start
      it, and the second removal takes it off. */
  lemma RuleDropsSecond(base: string, w: string, u1: string, u2: string)
    requires PlainSex(base) && base != [] && SuffixWord(u2) && Lower(w) == " - " + u2
    requires u1 != [] && u1[0] != u2[0]
    ensures SexRule(base + w, " - " + u1, " - " + u2) == Lower(base)
  {
    PlainLower(base);
    LowerWithSuffix(base, w, u2);
    SecondOnLowered(Lower(base), u1, u2);
  }

  lemma SecondOnLowered(x: string, u1: string, u2: string)
    requires PlainSex(x) && x != [] && SuffixWord(u2) && u1 != [] && u1[0] != u2[0]
    ensures var t := x + (" - " + u2);
            Strip(RemoveAll(Strip(RemoveAll(t, " - " + u1)), " - " + u2)) == x
  {
    var t := x + (" - " + u2);
    OtherSuffixKept(x, u1, u2);
    StripSuffixed(x, u2);
    StripNoEdgeSpace(x);
    SuffixRemoved(x, u2);
  }

  /** Removing " - u1" from `x + " - u2"` changes nothing when the words
      start differently. */
  lemma OtherSuffixKept(x: string, u1: string, u2: string)
    requires '-' !in x && '-' !in u2 && u1 != [] && u2 != [] && u1[0] != u2[0]
    ensures RemoveAll(x + (" - " + u2), " - " + u1) == x + (" - " + u2)
  {
    DashOnce(x, u2, u1);
    FirstCharDiffers(u1, u2);
    RemoveAllAbsent(x + (" - " + u2), " - " + u1);
  }

  /** Removing " - u" from `x + " - u"` gives back `x`. */
  lemma SuffixRemoved(x: string, u: string)
    requires '-' !in x && '-' !in u
    ensures RemoveAll(x + (" - " + u), " - " + u) == x
  {
    DashOnce(x, u, u);
    RemoveAllTail(x, " - " + u);
  }

  /** The facts about the two lower-case suffixes the proofs below use. */
  lemma CorrectedWords()
    ensures " - spayed" == " - " + "spayed" && " - neutered" == " - " + "neutered"
    ensures SuffixWord("spayed") && SuffixWord("neutered") && "spayed"[0] != "neutered"[0]
  {
  }

  lemma FirstCharDiffers(u1: string, u2: string)
    requires u1 != [] && u2 != [] && u1[0] != u2[0]
    ensures !(|u1| <= |u2| && u2[..|u1|] == u1)
  {
    if |u1| <= |u2| {
      assert u2[..|u1|][0] == u2[0];
    }
  }

  /** A text that starts and ends without a blank stays as it is when
      stripped, with a suffix " - u" or without. */
  lemma StripSuffixed(x: string, u: string)
    requires x != [] && !IsSpace(x[0]) && u != [] && !IsSpace(u[|u| - 1])
    ensures Strip(x + (" - " + u)) == x + (" - " + u)
  {
    var t := x + (" - " + u);
    assert t[0] == x[0] && t[|t| - 1] == u[|u| - 1];
    StripNoEdgeSpace(t);
  }

  /** The corrected rule leaves a plain sex lower-cased... */
  lemma SexCorrectedPlain(base: string)
    requires PlainSex(base)
    ensures SexCorrected(base) == Lower(base)
  {
    CorrectedWords();
    RuleKeepsPlain(base, "spayed", "neutered");
  }

  /** ...removes a spay suffix... */
  lemma SexCorrectedSpayed(base: string)
    requires PlainSex(base)
    ensures SexCorrected(base + " - Spayed") == Lower(base)
  {
    CorrectedWords();
    LowerSuffixes();
    RuleDropsFirst(base, " - Spayed", "spayed", "neutered");
  }

  /** ...and removes a neuter suffix from a sex that is not empty. */
  lemma SexCorrectedNeutered(base: string)
    requires PlainSex(base) && base != []
    ensures SexCorrected(base + " - Neutered") == Lower(base)
  {
    CorrectedWords();
    LowerSuffixes();
    RuleDropsSecond(base, " - Neutered", "spayed", "neutered");
  }
}
