/** Character classes and string helpers shared by every other module.

    Python's `str` methods and `re` classes are modelled on `seq<char>` with
    `--unicode-char`, so one `char` is one code point, as in Python.
 */
module Text {

  datatype Option<+T> = None | Some(value: T)

  /** A value, or the exception Python would raise instead. */
  datatype Result<+T, +E> = Ok(value: T) | Err(error: E)

  /** `\d`, restricted to the ASCII digits. */
  predicate IsDigit(c: char) {
    '0' <= c <= '9'
  }

  predicate IsUpper(c: char) {
    'A' <= c <= 'Z'
  }

  predicate IsLetter(c: char) {
    IsUpper(c) || 'a' <= c <= 'z'
  }

  /** Exactly the characters for which Python's `str.isspace()` holds; the
      same set is matched by `\s` in a `str` pattern and removed by `strip()`. */
  predicate IsSpace(c: char) {
    || c == ' '
    || '\t' <= c <= '\r'
    || '\U{1C}' <= c <= '\U{1F}'
    || c == '\U{85}'
    || c == '\U{A0}'
    || c == '\U{1680}'
    || '\U{2000}' <= c <= '\U{200A}'
    || c == '\U{2028}'
    || c == '\U{2029}'
    || c == '\U{202F}'
    || c == '\U{205F}'
    || c == '\U{3000}'
  }

  /** The nine vulgar-fraction glyphs the quantity parser understands. */
  const Glyphs: string := "½⅓⅔¼¾⅛⅜⅝⅞"

  predicate IsGlyph(c: char) {
    c in Glyphs
  }

  /** `\w`: ASCII letters and digits, the underscore, and the fraction glyphs
      (Python counts them as word characters because they are numeric). */
  predicate IsWordChar(c: char) {
    IsLetter(c) || IsDigit(c) || c == '_' || IsGlyph(c)
  }

  /** `\b` at position `i` of `s`: a word character on exactly one side. */
  predicate Boundary(s: string, i: nat)
    requires i <= |s|
  {
    (i > 0 && IsWordChar(s[i - 1])) != (i < |s| && IsWordChar(s[i]))
  }

  function LowerChar(c: char): (r: char)
    ensures !IsUpper(r)
    ensures IsSpace(r) <==> IsSpace(c)
    ensures IsDigit(r) <==> IsDigit(c)
    ensures IsWordChar(r) <==> IsWordChar(c)
  {
    if IsUpper(c) then (c as int + 32) as char else c
  }

  /** `str.lower()` on the ASCII letters. */
  function Lower(s: string): (r: string)
    ensures |r| == |s|
  {
    if s == [] then [] else [LowerChar(s[0])] + Lower(s[1..])
  }

  /** `lower()` maps each character on its own. */
  lemma {:induction false} LowerAt(s: string)
    ensures forall i :: 0 <= i < |s| ==> Lower(s)[i] == LowerChar(s[i])
  {
    if s != [] {
      var r := Lower(s[1..]);
      LowerAt(s[1..]);
      assert Lower(s) == [LowerChar(s[0])] + r;
      forall i | 1 <= i < |s|
        ensures Lower(s)[i] == LowerChar(s[i])
      {
        assert Lower(s)[i] == r[i - 1] && s[1..][i - 1] == s[i];
      }
    }
  }

  predicate IsLowerCase(s: string) {
    forall i :: 0 <= i < |s| ==> !IsUpper(s[i])
  }

  lemma LowerIsLowerCase(s: string)
    ensures IsLowerCase(Lower(s))
    ensures Lower(s) == s <==> IsLowerCase(s)
  {
    LowerAt(s);
    if IsLowerCase(s) {
      assert forall i :: 0 <= i < |s| ==> Lower(s)[i] == s[i];
    }
  }

  lemma LowerAppend(a: string, b: string)
    ensures Lower(a + b) == Lower(a) + Lower(b)
  {
    LowerAt(a);
    LowerAt(b);
    LowerAt(a + b);
    assert forall i :: 0 <= i < |a + b| ==> Lower(a + b)[i] == (Lower(a) + Lower(b))[i];
  }

  /** A text without capital letters is its own lower-case form. */
  lemma LowerFixed(s: string)
    requires forall c :: c in s ==> !IsUpper(c)
    ensures Lower(s) == s
  {
    LowerIsLowerCase(s);
  }

  // ---------------------------------------------------------------------
  // strip

  /** Drops the leading characters satisfying `drop`. */
  function TrimStart(s: string, drop: char -> bool): (r: string)
    ensures |r| <= |s| && r == s[|s| - |r|..]
    ensures r == [] || !drop(r[0])
    ensures forall k :: 0 <= k < |s| - |r| ==> drop(s[k])
  {
    if s == [] || !drop(s[0]) then s else TrimStart(s[1..], drop)
  }

  /** Drops the trailing characters satisfying `drop`. */
  function TrimEnd(s: string, drop: char -> bool): (r: string)
    ensures |r| <= |s| && r == s[..|r|]
    ensures r == [] || !drop(r[|r| - 1])
    ensures forall k :: |r| <= k < |s| ==> drop(s[k])
  {
    if s == [] || !drop(s[|s| - 1]) then s else TrimEnd(s[..|s| - 1], drop)
  }

  /** `s.strip(chars)` where `drop` tells the characters in `chars`. */
  function Trim(s: string, drop: char -> bool): (r: string)
    ensures r == [] || (!drop(r[0]) && !drop(r[|r| - 1]))
    ensures |r| <= |s|
  {
    TrimEnd(TrimStart(s, drop), drop)
  }

  /** Trimming keeps a property every character has. */
  lemma TrimKeeps(s: string, drop: char -> bool, q: char -> bool)
    ensures (forall k :: 0 <= k < |s| ==> q(s[k])) ==> forall k :: 0 <= k < |Trim(s, drop)| ==> q(Trim(s, drop)[k])
  {
    if forall k :: 0 <= k < |s| ==> q(s[k]) {
      TrimStartKeeps(s, drop, q);
      TrimEndKeeps(TrimStart(s, drop), drop, q);
    }
  }

  lemma {:induction false} TrimStartKeeps(s: string, drop: char -> bool, q: char -> bool)
    requires forall k :: 0 <= k < |s| ==> q(s[k])
    ensures forall k :: 0 <= k < |TrimStart(s, drop)| ==> q(TrimStart(s, drop)[k])
  {
    if s != [] && drop(s[0]) {
      assert forall k :: 0 <= k < |s[1..]| ==> s[1..][k] == s[k + 1];
      TrimStartKeeps(s[1..], drop, q);
    }
  }

  lemma {:induction false} TrimEndKeeps(s: string, drop: char -> bool, q: char -> bool)
    requires forall k :: 0 <= k < |s| ==> q(s[k])
    ensures forall k :: 0 <= k < |TrimEnd(s, drop)| ==> q(TrimEnd(s, drop)[k])
  {
    if s != [] && drop(s[|s| - 1]) {
      assert forall k :: 0 <= k < |s| - 1 ==> s[..|s| - 1][k] == s[k];
      TrimEndKeeps(s[..|s| - 1], drop, q);
    }
  }

  /** Trimming a text whose ends are kept changes nothing. */
  lemma TrimClean(s: string, drop: char -> bool)
    requires s == [] || (!drop(s[0]) && !drop(s[|s| - 1]))
    ensures Trim(s, drop) == s
  {
  }

  /** Neither end of the text is blank. */
  predicate Unpadded(s: string) {
    s == [] || (!IsSpace(s[0]) && !IsSpace(s[|s| - 1]))
  }

  /** `s.strip()` with no argument. */
  function Strip(s: string): (r: string)
    ensures Unpadded(r)
  {
    Trim(s, IsSpace)
  }

  lemma StripNoEdgeSpace(s: string)
    requires Unpadded(s)
    ensures Strip(s) == s
  {
  }

  /** A text is its own strip exactly when neither end is blank. */
  lemma StrippedIff(s: string)
    ensures Strip(s) == s <==> Unpadded(s)
  {
  }

  /** Stripping a text with one trailing blank removes just that blank. */
  lemma StripTrailingBlank(s: string)
    requires s != [] && !IsSpace(s[0]) && !IsSpace(s[|s| - 1])
    ensures Strip(s + " ") == s
  {
    assert TrimStart(s + " ", IsSpace) == s + " ";
    assert (s + " ")[..|s|] == s;
    assert TrimEnd(s + " ", IsSpace) == TrimEnd(s, IsSpace);
  }

  /** Stripping twice strips nothing more. */
  lemma StripTwice(s: string)
    ensures Strip(Strip(s)) == Strip(s)
  {
    StripNoEdgeSpace(Strip(s));
  }

  /** Lower-casing keeps a text stripped. */
  lemma LowerKeepsStripped(s: string)
    requires Strip(s) == s
    ensures Strip(Lower(s)) == Lower(s)
  {
    LowerAt(s);
    StripNoEdgeSpace(Lower(s));
  }

  // ---------------------------------------------------------------------
  // substring search: Python's `needle in hay`

  predicate OccursAt(hay: string, needle: string, i: int) {
    0 <= i && i + |needle| <= |hay| && hay[i..i + |needle|] == needle
  }

  predicate Contains(hay: string, needle: string) {
    exists i | 0 <= i <= |hay| - |needle| :: OccursAt(hay, needle, i)
  }

  /** `s.replace(w, "")`: every occurrence of `w` removed, scanning from the
      left and never overlapping. */
  function RemoveAll(s: string, w: string): (r: string)
    requires |w| > 0
    ensures |r| <= |s|
  {
    if |s| < |w| then s
    else if s[..|w|] == w then RemoveAll(s[|w|..], w)
    else [s[0]] + RemoveAll(s[1..], w)
  }

  /** With no occurrence to remove, `replace` changes nothing. */
  lemma {:induction false} RemoveAllAbsent(s: string, w: string)
    requires |w| > 0 && !Contains(s, w)
    ensures RemoveAll(s, w) == s
  {
    if |s| >= |w| {
      assert !OccursAt(s, w, 0);
      forall i | 0 <= i <= |s[1..]| - |w|
        ensures !OccursAt(s[1..], w, i)
      {
        assert !OccursAt(s, w, i + 1);
        assert s[1..][i..i + |w|] == s[i + 1..i + 1 + |w|];
      }
      RemoveAllAbsent(s[1..], w);
    }
  }

  /** An occurrence only at the very end is removed, and nothing else is. */
  lemma RemoveAllTail(x: string, w: string)
    requires |w| > 0
    requires forall p :: 0 <= p < |x| ==> !OccursAt(x + w, w, p)
    ensures RemoveAll(x + w, w) == x
  {
    var s := x + w;
    assert s[0..] == s && s[|x|..] == w && s[0..|x|] == x;
    RemoveAllTailFrom(s, w, 0);
  }

  lemma {:induction false} RemoveAllTailFrom(s: string, w: string, i: nat)
    requires |w| > 0 && i + |w| <= |s| && s[|s| - |w|..] == w
    requires forall p :: i <= p < |s| - |w| ==> !OccursAt(s, w, p)
    ensures RemoveAll(s[i..], w) == s[i..|s| - |w|]
    decreases |s| - i
  {
    var t := s[i..];
    if i + |w| == |s| {
      assert t == w && t[..|w|] == w && t[|w|..] == [];
    } else {
      assert !OccursAt(s, w, i);
      assert t[..|w|] == s[i..i + |w|];
      assert t[1..] == s[i + 1..];
      RemoveAllTailFrom(s, w, i + 1);
      assert s[i..|s| - |w|] == [s[i]] + s[i + 1..|s| - |w|];
    }
  }

  /** A lower-case text holds no word with a capital letter in it. */
  lemma LowerCaseLacks(s: string, w: string, k: nat)
    requires IsLowerCase(s) && k < |w| && IsUpper(w[k])
    ensures !Contains(s, w)
  {
  }

  /** Lower-casing a word whose one capital sits between lower-case parts. */
  lemma LowerOneCapital(a: string, c: char, b: string)
    requires IsLowerCase(a) && IsLowerCase(b)
    ensures Lower(a + [c] + b) == a + [LowerChar(c)] + b
  {
    LowerAppend(a + [c], b);
    LowerAppend(a, [c]);
    LowerIsLowerCase(a);
    LowerIsLowerCase(b);
  }

  /** So replacing such a word in a lower-case text changes nothing. */
  lemma LowerCaseKeeps(s: string, a: string, c: char, b: string)
    requires IsLowerCase(s) && IsUpper(c)
    ensures RemoveAll(s, a + [c] + b) == s
  {
    LowerCaseLacks(s, a + [c] + b, |a|);
    RemoveAllAbsent(s, a + [c] + b);
  }

  // ---------------------------------------------------------------------
  // runs of one class of characters

  /** The end of the longest run of `cls` characters starting at `i`. */
  function RunEnd(s: string, i: nat, cls: char -> bool): (j: nat)
    requires i <= |s|
    ensures i <= j <= |s|
    ensures forall k :: i <= k < j ==> cls(s[k])
    ensures j == |s| || !cls(s[j])
    decreases |s| - i
  {
    if i < |s| && cls(s[i]) then RunEnd(s, i + 1, cls) else i
  }

  lemma RunEndUnique(s: string, i: nat, j: nat, cls: char -> bool)
    requires i <= j <= |s|
    requires forall k :: i <= k < j ==> cls(s[k])
    requires j == |s| || !cls(s[j])
    ensures RunEnd(s, i, cls) == j
    decreases j - i
  {
    if i < j {
      RunEndUnique(s, i + 1, j, cls);
    }
  }

  // ---------------------------------------------------------------------
  // decimal numerals

  function DigitValue(c: char): nat
    requires IsDigit(c)
  {
    c as int - '0' as int
  }

  function DigitChar(d: nat): (c: char)
    requires d < 10
    ensures IsDigit(c) && DigitValue(c) == d
  {
    ('0' as int + d) as char
  }

  predicate AllDigits(s: string) {
    forall i :: 0 <= i < |s| ==> IsDigit(s[i])
  }

  /** The value of a run of digits, as `int()` reads it. */
  function DigitsValue(s: string): nat
    requires AllDigits(s)
  {
    if s == [] then 0 else DigitsValue(s[..|s| - 1]) * 10 + DigitValue(s[|s| - 1])
  }

  /** `str(n)` for a natural number. */
  function NatText(n: nat): (r: string)
    ensures |r| > 0 && AllDigits(r)
    ensures forall c :: c in r ==> IsDigit(c)
  {
    if n < 10 then [DigitChar(n)] else NatText(n / 10) + [DigitChar(n % 10)]
  }

  lemma {:induction false} NatTextRoundTrip(n: nat)
    ensures DigitsValue(NatText(n)) == n
  {
    if n >= 10 {
      var t := NatText(n);
      assert t[..|t| - 1] == NatText(n / 10);
      NatTextRoundTrip(n / 10);
    }
  }

  // ---------------------------------------------------------------------
  // split and join

  /** `sep.join(xs)`. */
  function Join(xs: seq<string>, sep: string): string {
    if xs == [] then ""
    else if |xs| == 1 then xs[0]
    else xs[0] + sep + Join(xs[1..], sep)
  }

  /** Every occurrence of `c` in `s` is `sep`-free: no element of `xs` holds `c`. */
  predicate NoneHolds(xs: seq<string>, c: char) {
    forall i :: 0 <= i < |xs| ==> c !in xs[i]
  }

  /** `s.split(sep)` for a one-character separator: never empty. */
  function Split(s: string, sep: char): (r: seq<string>)
    ensures |r| >= 1
  {
    if s == [] then [""]
    else
      var rest := Split(s[1..], sep);
      if s[0] == sep then [""] + rest else [[s[0]] + rest[0]] + rest[1..]
  }

  lemma {:induction false} SplitFree(s: string, sep: char)
    requires sep !in s
    ensures Split(s, sep) == [s]
  {
    if s != [] {
      SplitFree(s[1..], sep);
      assert [s[0]] + s[1..] == s;
    }
  }

  lemma {:induction false} SplitAt(a: string, b: string, sep: char)
    requires sep !in a
    ensures Split(a + [sep] + b, sep) == [a] + Split(b, sep)
  {
    if a == [] {
      assert a + [sep] + b == [sep] + b;
      assert ([sep] + b)[1..] == b;
    } else {
      assert (a + [sep] + b)[1..] == a[1..] + [sep] + b;
      SplitAt(a[1..], b, sep);
      assert [a[0]] + a[1..] == a;
    }
  }

  /** Splitting a join recovers the pieces when none holds the separator. */
  lemma {:induction false} SplitJoin(xs: seq<string>, sep: char)
    requires |xs| >= 1 && NoneHolds(xs, sep)
    ensures Split(Join(xs, [sep]), sep) == xs
  {
    if |xs| == 1 {
      SplitFree(xs[0], sep);
    } else {
      SplitAt(xs[0], Join(xs[1..], [sep]), sep);
      SplitJoin(xs[1..], sep);
    }
  }

  /** Joining two lists is joining their joins. */
  lemma {:induction false} JoinAppend(xs: seq<string>, ys: seq<string>, sep: string)
    requires |xs| > 0 && |ys| > 0
    ensures Join(xs + ys, sep) == Join(xs, sep) + sep + Join(ys, sep)
  {
    if |xs| == 1 {
      assert (xs + ys)[1..] == ys;
    } else {
      assert (xs + ys)[1..] == xs[1..] + ys;
      JoinAppend(xs[1..], ys, sep);
    }
  }
}
