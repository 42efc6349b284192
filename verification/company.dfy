/** The company side of the job scraper: the experience test on a job's
    qualifications, the extraction of those qualifications from a posting's
    description, and the Viasat postings feed.
 */
module Company {
  import opened Text
  import opened Seqs
  import opened Listings

  // ---------------------------------------------------------------------
  // requires_excessive_experience

  /** The end of `([4-9]|10)` matched at `i`: one digit from four to nine, or
      the two characters "10". The alternatives cannot both match. */
  function NumberEnd(t: string, i: nat): (r: Option<nat>)
    requires i <= |t|
    ensures r.Some? ==> i < r.value <= |t|
  {
    if i < |t| && '4' <= t[i] <= '9' then Some(i + 1)
    else if i + 2 <= |t| && t[i] == '1' && t[i + 1] == '0' then Some(i + 2)
    else None
  }

  /** The word "years" at `s`. */
  predicate YearsAt(t: string, s: nat) {
    s + 5 <= |t| && t[s] == 'y' && t[s + 1] == 'e' && t[s + 2] == 'a' && t[s + 3] == 'r' && t[s + 4] == 's'
  }

  /** The word "yrs" at `s`. */
  predicate YrsAt(t: string, s: nat) {
    s + 3 <= |t| && t[s] == 'y' && t[s + 1] == 'r' && t[s + 2] == 's'
  }

  /** The end of `(years|yrs)\b` matched at `s`: "years" is tried first, and
      "yrs" when it or the boundary after it fails. */
  function UnitEnd(t: string, s: nat): (r: Option<nat>)
    requires s <= |t|
    ensures r.Some? ==> s < r.value <= |t| && Boundary(t, r.value)
  {
    if YearsAt(t, s) && Boundary(t, s + 5) then Some(s + 5)
    else if YrsAt(t, s) && Boundary(t, s + 3) then Some(s + 3)
    else None
  }

  /** The experience pattern `\b([4-9]|10)\+?\s*(years|yrs)\b` tried at `i`.
      The optional plus and the blanks are taken greedily: giving either
      back would leave a plus or a blank where the unit must start, so
      backtracking never finds another match. */
  predicate ExperienceAt(t: string, i: nat)
    requires i <= |t|
  {
    && Boundary(t, i)
    && match NumberEnd(t, i)
       case None => false
       case Some(n) =>
         var p := if n < |t| && t[n] == '+' then n + 1 else n;
         UnitEnd(t, RunEnd(t, p, IsSpace)).Some?
  }

  /** `re.search` for the experience pattern from position `i` on. */
  predicate ExperienceFrom(t: string, i: nat)
    requires i <= |t|
    decreases |t| - i
  {
    ExperienceAt(t, i) || (i < |t| && ExperienceFrom(t, i + 1))
  }

  /** The pattern matches `t[i..w]`, with the number ending at `n`, the
      optional plus at `n..p`, the blanks at `p..s` and the unit at `s..w`:
      the pattern's meaning, with every split point chosen freely. */
  ghost predicate ExperienceShape(t: string, i: nat, n: nat, p: nat, s: nat, w: nat) {
    && i <= n <= p <= s <= w <= |t|
    && Boundary(t, i) && Boundary(t, w)
    && ((n == i + 1 && '4' <= t[i] <= '9') || (n == i + 2 && t[i] == '1' && t[i + 1] == '0'))
    && (p == n || (p == n + 1 && t[n] == '+'))
    && (forall k :: p <= k < s ==> IsSpace(t[k]))
    && ((w == s + 5 && YearsAt(t, s)) || (w == s + 3 && YrsAt(t, s)))
  }

  ghost predicate MentionsExperience(t: string) {
    exists i, n, p, s, w :: ExperienceShape(t, i, n, p, s, w)
  }

  /** The greedy matcher at `i` succeeds exactly when some split matches. */
  lemma ExperienceAtIff(t: string, i: nat)
    requires i <= |t|
    ensures ExperienceAt(t, i) <==> exists n, p, s, w :: ExperienceShape(t, i, n, p, s, w)
  {
    if ExperienceAt(t, i) {
      GreedyHasShape(t, i);
    }
    if exists n, p, s, w :: ExperienceShape(t, i, n, p, s, w) {
      var n, p, s, w :| ExperienceShape(t, i, n, p, s, w);
      ShapeIsGreedy(t, i, n, p, s, w);
    }
  }

  lemma GreedyHasShape(t: string, i: nat)
    requires i <= |t| && ExperienceAt(t, i)
    ensures exists n, p, s, w :: ExperienceShape(t, i, n, p, s, w)
  {
    var n := NumberEnd(t, i).value;
    var p := if n < |t| && t[n] == '+' then n + 1 else n;
    var s := RunEnd(t, p, IsSpace);
    var w := UnitEnd(t, s).value;
    assert (n == i + 1 && '4' <= t[i] <= '9') || (n == i + 2 && t[i] == '1' && t[i + 1] == '0');
    assert (w == s + 5 && YearsAt(t, s)) || (w == s + 3 && YrsAt(t, s));
    assert ExperienceShape(t, i, n, p, s, w);
  }

  lemma ShapeIsGreedy(t: string, i: nat, n: nat, p: nat, s: nat, w: nat)
    requires ExperienceShape(t, i, n, p, s, w)
    ensures ExperienceAt(t, i)
  {
    NumberIsGreedy(t, i, n);
    PlusIsGreedy(t, n, p, s, w);
    RunEndUnique(t, p, s, IsSpace);
    UnitIsGreedy(t, s, w);
  }

  lemma NumberIsGreedy(t: string, i: nat, n: nat)
    requires n <= |t|
    requires (n == i + 1 && '4' <= t[i] <= '9') || (n == i + 2 && t[i] == '1' && t[i + 1] == '0')
    ensures NumberEnd(t, i) == Some(n)
  {
  }

  lemma PlusIsGreedy(t: string, n: nat, p: nat, s: nat, w: nat)
    requires n <= p <= s <= w <= |t|
    requires p == n || (p == n + 1 && t[n] == '+')
    requires forall k :: p <= k < s ==> IsSpace(t[k])
    requires (w == s + 5 && YearsAt(t, s)) || (w == s + 3 && YrsAt(t, s))
    ensures p == (if n < |t| && t[n] == '+' then n + 1 else n)
  {
    if p == n && s > p {
      assert IsSpace(t[p]);
    }
  }

  lemma UnitIsGreedy(t: string, s: nat, w: nat)
    requires w <= |t| && Boundary(t, w)
    requires (w == s + 5 && YearsAt(t, s)) || (w == s + 3 && YrsAt(t, s))
    ensures UnitEnd(t, s) == Some(w)
  {
  }

  /** The search from `i` succeeds exactly when a match starts at or after
      `i`. */
  lemma ExperienceFromIff(t: string, i: nat)
    requires i <= |t|
    ensures ExperienceFrom(t, i) <==> exists j, n, p, s, w :: i <= j && ExperienceShape(t, j, n, p, s, w)
  {
    if ExperienceFrom(t, i) {
      ExperienceFromSound(t, i);
    }
    if exists j, n, p, s, w :: i <= j && ExperienceShape(t, j, n, p, s, w) {
      var j, n, p, s, w :| i <= j && ExperienceShape(t, j, n, p, s, w);
      ShapeIsGreedy(t, j, n, p, s, w);
      ExperienceFromComplete(t, i, j);
    }
  }

  lemma {:induction false} ExperienceFromSound(t: string, i: nat)
    requires i <= |t| && ExperienceFrom(t, i)
    ensures exists j, n, p, s, w :: i <= j && ExperienceShape(t, j, n, p, s, w)
    decreases |t| - i
  {
    if ExperienceAt(t, i) {
      GreedyHasShape(t, i);
      var n, p, s, w :| ExperienceShape(t, i, n, p, s, w);
      assert i <= i && ExperienceShape(t, i, n, p, s, w);
    } else {
      ExperienceFromSound(t, i + 1);
      var j, n, p, s, w :| i + 1 <= j && ExperienceShape(t, j, n, p, s, w);
      assert i <= j && ExperienceShape(t, j, n, p, s, w);
    }
  }

  lemma {:induction false} ExperienceFromComplete(t: string, i: nat, j: nat)
    requires i <= j <= |t| && ExperienceAt(t, j)
    ensures ExperienceFrom(t, i)
    decreases j - i
  {
    if j > i {
      ExperienceFromComplete(t, i + 1, j);
    }
  }

  /** `requires_excessive_experience`: false for a missing or empty list;
      otherwise whether the pattern occurs in the lower-cased qualifications
      joined with single spaces. */
  function RequiresExcessiveExperience(qualifications: Option<seq<string>>): (r: bool)
    ensures qualifications.None? || qualifications.value == [] ==> !r
    ensures r <==> && qualifications.Some? && qualifications.value != []
                   && MentionsExperience(Lower(Join(qualifications.value, " ")))
  {
    if qualifications.None? || qualifications.value == [] then false
    else
      var t := Lower(Join(qualifications.value, " "));
      ExperienceFromIff(t, 0);
      ExperienceFrom(t, 0)
  }

  /** A digit right after a word character never starts a match: "14 years"
      is not four years. */
  lemma NoMatchInsideNumber(t: string, i: nat)
    requires 0 < i < |t| && IsWordChar(t[i - 1]) && IsDigit(t[i])
    ensures !ExperienceAt(t, i)
  {
  }

  /** "10+ yrs" asks for too much experience. */
  lemma TenPlusYears()
    ensures RequiresExcessiveExperience(Some(["10+ yrs"]))
  {
    var t := "10+ yrs";
    assert Join([t], " ") == t;
    LowerFixed(t);
    TenPlusYrsAt(t);
  }

  lemma TenPlusYrsAt(t: string)
    requires |t| == 7 && t[0] == '1' && t[1] == '0' && t[2] == '+' && t[3] == ' '
    requires t[4] == 'y' && t[5] == 'r' && t[6] == 's'
    ensures ExperienceFrom(t, 0)
  {
    RunEndUnique(t, 3, 4, IsSpace);
    assert ExperienceAt(t, 0);
  }

  /** The number and the unit may come from two qualifications: the join
      puts a blank between them. */
  lemma AcrossQualifications()
    ensures RequiresExcessiveExperience(Some(["5", "years"]))
  {
    var t := "5 years";
    assert Join(["5", "years"], " ") == t;
    LowerFixed(t);
    FiveYearsAt(t);
  }

  lemma FiveYearsAt(t: string)
    requires |t| == 7 && t[0] == '5' && t[1] == ' '
    requires t[2] == 'y' && t[3] == 'e' && t[4] == 'a' && t[5] == 'r' && t[6] == 's'
    ensures ExperienceFrom(t, 0)
  {
    RunEndUnique(t, 1, 2, IsSpace);
    assert ExperienceAt(t, 0);
  }

  /** "14 years" does not ask for four years: the four is inside a number. */
  lemma FourteenYears()
    ensures !RequiresExcessiveExperience(Some(["14 years"]))
  {
    var t := "14 years";
    assert Join([t], " ") == t;
    LowerFixed(t);
    NoShapeInFourteen(t);
  }

  lemma NoShapeInFourteen(t: string)
    requires |t| == 8 && t[0] == '1' && t[1] == '4' && t[2] == ' ' && t[3] == 'y'
    requires t[4] == 'e' && t[5] == 'a' && t[6] == 'r' && t[7] == 's'
    ensures !MentionsExperience(t)
  {
    forall i: nat, n: nat, p: nat, s: nat, w: nat
      ensures !ExperienceShape(t, i, n, p, s, w)
    {
      if 2 <= i < |t| {
        assert !IsDigit(t[i]);
      }
    }
  }

  // ---------------------------------------------------------------------
  // _extract_qualifications

  /** The two spellings of the section header, in lower case. */
  const ShortHeader: string := "what you'll need"
  const LongHeader: string := "what you will need"

  /** The lower-case word `w` occurs at `i` of `t` when case is ignored. */
  predicate OccursIgnoringCase(t: string, w: string, i: nat) {
    i + |w| <= |t| && Lower(t[i..i + |w|]) == w
  }

  /** The end of the header `what you(?:'| wi)ll need` matched at `i`,
      ignoring case. */
  function HeaderEnd(t: string, i: nat): (r: Option<nat>)
    ensures r.Some? ==> i < r.value <= |t|
  {
    if OccursIgnoringCase(t, ShortHeader, i) then Some(i + |ShortHeader|)
    else if OccursIgnoringCase(t, LongHeader, i) then Some(i + |LongHeader|)
    else None
  }

  /** `re.search` for the header from `i` on: the end of the leftmost
      header. */
  function FindHeader(t: string, i: nat): (r: Option<nat>)
    requires i <= |t|
    ensures r.Some? ==> exists j :: i <= j <= |t| && HeaderEnd(t, j) == r && forall k :: i <= k < j ==> HeaderEnd(t, k).None?
    ensures r.None? ==> forall j :: i <= j <= |t| ==> HeaderEnd(t, j).None?
    decreases |t| - i
  {
    if HeaderEnd(t, i).Some? then HeaderEnd(t, i)
    else if i == |t| then None
    else FindHeader(t, i + 1)
  }

  /** `[A-Za-z ]`. */
  predicate IsTitleChar(c: char) {
    IsLetter(c) || c == ' '
  }

  /** The next-section pattern `\n\s*[A-Z][A-Za-z ]{3,}\n` tried at `p`.
      Both runs are taken greedily; giving back a blank would leave a blank
      where the capital must be, and giving back a title character would
      leave it where the line break must be. */
  predicate StopAt(s: string, p: nat)
    requires p <= |s|
  {
    p < |s| && s[p] == '\n' && TitleLineAt(s, RunEnd(s, p + 1, IsSpace))
  }

  /** `[A-Z][A-Za-z ]{3,}\n` at `q`. */
  predicate TitleLineAt(s: string, q: nat)
    requires q <= |s|
  {
    && q < |s| && IsUpper(s[q])
    && var r := RunEnd(s, q + 1, IsTitleChar);
       r >= q + 4 && r < |s| && s[r] == '\n'
  }

  /** The position of the leftmost next-section match at or after `p`, or
      the end of the text. */
  function FirstStop(s: string, p: nat): (r: nat)
    requires p <= |s|
    ensures p <= r <= |s|
    ensures r < |s| ==> StopAt(s, r)
    ensures forall k :: p <= k < r ==> !StopAt(s, k)
    decreases |s| - p
  {
    if p == |s| || StopAt(s, p) then p else FirstStop(s, p + 1)
  }

  /** `re.split(...)[0]`: the text before the next section. */
  function SectionOf(s: string): string {
    s[..FirstStop(s, 0)]
  }

  /** The characters at which `str.splitlines` breaks a line. */
  predicate IsLineBreak(c: char) {
    || c == '\n' || c == '\r' || c == '\U{B}' || c == '\U{C}'
    || '\U{1C}' <= c <= '\U{1E}'
    || c == '\U{85}' || c == '\U{2028}' || c == '\U{2029}'
  }

  predicate OneLine(l: string) {
    forall k :: 0 <= k < |l| ==> !IsLineBreak(l[k])
  }

  /** The pieces between line breaks. Unlike `str.splitlines` this keeps an
      empty last piece after a final break (and gives one empty piece for an
      empty text); the bullet filter drops every such piece. */
  function SplitLines(s: string): (r: seq<string>)
    ensures |r| >= 1
    ensures forall i :: 0 <= i < |r| ==> OneLine(r[i])
  {
    if s == [] then [""]
    else
      var rest := SplitLines(s[1..]);
      if IsLineBreak(s[0]) then [""] + rest else [[s[0]] + rest[0]] + rest[1..]
  }

  /** The characters `strip("•- \t")` removes. */
  predicate IsBulletEdge(c: char) {
    c == '•' || c == '-' || c == ' ' || c == '\t'
  }

  predicate NotLineBreak(c: char) {
    !IsLineBreak(c)
  }

  function TrimBullet(line: string): (r: string)
    ensures OneLine(line) ==> CleanBullet(r)
  {
    TrimKeeps(line, IsBulletEdge, NotLineBreak);
    Trim(line, IsBulletEdge)
  }

  /** A bullet kept from a section: longer than three characters, on one
      line, with no bullet mark, dash or blank at either end. */
  predicate CleanBullet(b: string) {
    OneLine(b) && (b == [] || (!IsBulletEdge(b[0]) && !IsBulletEdge(b[|b| - 1])))
  }

  predicate LongEnough(b: string) {
    |b| > 3
  }

  lemma CleanLines(ls: seq<string>)
    requires forall i :: 0 <= i < |ls| ==> OneLine(ls[i])
    ensures forall i :: 0 <= i < |ls| ==> CleanBullet(Map(ls, TrimBullet)[i])
  {
  }

  /** The bullet loop: each line stripped of bullet marks, and kept when
      longer than three characters. */
  function Bullets(section: string): (r: seq<string>)
    ensures forall i :: 0 <= i < |r| ==> LongEnough(r[i]) && CleanBullet(r[i])
  {
    var lines := Map(SplitLines(section), TrimBullet);
    CleanLines(SplitLines(section));
    KeepPreserves(lines, LongEnough, CleanBullet);
    Keep(lines, LongEnough)
  }

  /** The description field chosen: `description`, or when that is missing
      or empty `description_html`, or else nothing. */
  function RawDescription(description: Option<string>, descriptionHtml: Option<string>): string {
    if description.Some? && description.value != [] then description.value
    else if descriptionHtml.Some? && descriptionHtml.value != [] then descriptionHtml.value
    else ""
  }

  predicate NotCarriageReturn(c: char) {
    c != '\r'
  }

  /** The bullets under the first header of a description text. */
  function QualificationsIn(text: string): (r: seq<string>)
    ensures FindHeader(text, 0).None? ==> r == []
    ensures forall i :: 0 <= i < |r| ==> LongEnough(r[i]) && CleanBullet(r[i])
  {
    match FindHeader(text, 0)
    case None => []
    case Some(e) => Bullets(SectionOf(text[RunEnd(text, e, IsSpace)..]))
  }

  /** `_extract_qualifications`: no description gives no bullets; a
      description with a '<' in it is first turned into text by
      `htmlToText` (the HTML parser, not modelled); carriage returns are
      removed; then the bullets of the first header's section. */
  function ExtractQualifications(description: Option<string>, descriptionHtml: Option<string>, htmlToText: string -> string): (r: seq<string>)
    ensures RawDescription(description, descriptionHtml) == [] ==> r == []
    ensures forall i :: 0 <= i < |r| ==> LongEnough(r[i]) && CleanBullet(r[i])
  {
    var raw := RawDescription(description, descriptionHtml);
    if raw == [] then []
    else
      var page := if '<' in raw then htmlToText(raw) else raw;
      QualificationsIn(Keep(page, NotCarriageReturn))
  }

  // ---------------------------------------------------------------------
  // what the extraction recovers

  /** A line that looks like the next section's header: a capital, then at
      least three letters or blanks and nothing else. */
  predicate TitleLike(l: string) {
    |l| >= 4 && IsUpper(l[0]) && forall k :: 1 <= k < |l| ==> IsTitleChar(l[k])
  }

  /** A bullet the extraction gives back unchanged: kept by the length test,
      clean at both ends, starting with no blank, and not taken for a
      header. */
  predicate PlainLine(l: string) {
    LongEnough(l) && CleanBullet(l) && !IsSpace(l[0]) && !TitleLike(l)
  }

  lemma {:induction false} SplitLinesFree(a: string)
    requires OneLine(a)
    ensures SplitLines(a) == [a]
  {
    if a != [] {
      SplitLinesFree(a[1..]);
      assert [a[0]] + a[1..] == a;
    }
  }

  lemma {:induction false} SplitLinesAt(a: string, b: string)
    requires OneLine(a)
    ensures SplitLines(a + "\n" + b) == [a] + SplitLines(b)
  {
    if a == [] {
      assert a + "\n" + b == "\n" + b;
      assert ("\n" + b)[1..] == b;
    } else {
      assert (a + "\n" + b)[1..] == a[1..] + "\n" + b;
      SplitLinesAt(a[1..], b);
      assert [a[0]] + a[1..] == a;
    }
  }

  /** Splitting lines joined with '\n' gives the lines back. */
  lemma {:induction false} SplitLinesJoin(ls: seq<string>)
    requires |ls| >= 1 && forall i :: 0 <= i < |ls| ==> OneLine(ls[i])
    ensures SplitLines(Join(ls, "\n")) == ls
  {
    if |ls| == 1 {
      SplitLinesFree(ls[0]);
    } else {
      SplitLinesAt(ls[0], Join(ls[1..], "\n"));
      SplitLinesJoin(ls[1..]);
    }
  }

  /** The bullet loop keeps plain lines exactly as they are. */
  lemma BulletsOfJoin(ls: seq<string>)
    requires ls != [] && forall i :: 0 <= i < |ls| ==> PlainLine(ls[i])
    ensures Bullets(Join(ls, "\n")) == ls
  {
    LongLines(ls);
    TrimsFixed(ls);
    SplitLinesJoin(ls);
    BulletsOf(Join(ls, "\n"), ls);
  }

  /** Any lines, marked or short ones included: each line loses the bullet
      marks, dashes and blanks at both of its ends, and exactly the results
      longer than three characters remain, in order. */
  lemma BulletsOfLines(ls: seq<string>)
    requires ls != [] && forall i :: 0 <= i < |ls| ==> OneLine(ls[i])
    ensures Bullets(Join(ls, "\n")) == Keep(Map(ls, TrimBullet), LongEnough)
  {
    SplitLinesJoin(ls);
  }

  /** A line of bullet marks, dashes and blanks followed by a word that
      neither starts nor ends with one loses exactly the marks. */
  lemma {:induction false} TrimMarks(m: string, w: string)
    requires forall k :: 0 <= k < |m| ==> IsBulletEdge(m[k])
    requires w != [] && !IsBulletEdge(w[0]) && !IsBulletEdge(w[|w| - 1])
    ensures TrimStart(m + w, IsBulletEdge) == w && TrimBullet(m + w) == w
    decreases |m|
  {
    if m == [] {
      assert m + w == w;
    } else {
      assert (m + w)[0] == m[0];
      DropAppend(m, w, 1);
      TrimMarks(m[1..], w);
    }
  }

  /** A word long enough to be a bullet, with nothing to strip at its ends. */
  predicate BulletWord(w: string) {
    OneLine(w) && w != [] && !IsBulletEdge(w[0]) && !IsBulletEdge(w[|w| - 1])
  }

  /** A line marked "• " loses its mark and is kept; a line marked "- " with
      at most three characters after the mark, and the empty piece after the
      final break, are dropped. */
  lemma BulletsMarked(w: string, short: string)
    requires BulletWord(w) && LongEnough(w)
    requires BulletWord(short) && !LongEnough(short)
    ensures Bullets("• " + w + "\n" + "- " + short + "\n") == [w]
  {
    var l0, l1 := "• " + w, "- " + short;
    var ls := [l0, l1, ""];
    calc {
      Bullets("• " + w + "\n" + "- " + short + "\n");
    == { ConcatAssoc(l0 + "\n", "- ", short); ConcatAssoc(l0 + "\n", l1, "\n"); }
      Bullets(l0 + "\n" + (l1 + "\n"));
    == { MarkedLines(l0, l1); }
      Bullets(Join(ls, "\n"));
    == { MarkedOneLine(w, short); BulletsOfLines(ls); }
      Keep(Map(ls, TrimBullet), LongEnough);
    == { MarkedTrims(w, short); }
      Keep([w, short, ""], LongEnough);
    == { KeepThree(w, short); }
      [w];
    }
  }

  lemma MarkedOneLine(w: string, short: string)
    requires OneLine(w) && OneLine(short)
    ensures OneLine("• " + w) && OneLine("- " + short) && OneLine("")
  {
  }

  lemma MarkedTrims(w: string, short: string)
    requires BulletWord(w) && BulletWord(short)
    ensures Map(["• " + w, "- " + short, ""], TrimBullet) == [w, short, ""]
  {
    calc {
      Map(["• " + w, "- " + short, ""], TrimBullet);
    == { MapThree("• " + w, "- " + short, "", TrimBullet); }
      [TrimBullet("• " + w), TrimBullet("- " + short), TrimBullet("")];
    == { TrimMarks("• ", w); }
      [w, TrimBullet("- " + short), TrimBullet("")];
    == { TrimMarks("- ", short); }
      [w, short, TrimBullet("")];
    == { assert TrimBullet("") == ""; }
      [w, short, ""];
    }
  }

  lemma KeepThree(w: string, short: string)
    requires LongEnough(w) && !LongEnough(short)
    ensures Keep([w, short, ""], LongEnough) == [w]
  {
    var ts := [w, short, ""];
    KeepFirst(ts, LongEnough);
    assert ts[1..] == [short, ""];
    KeepFirst([short, ""], LongEnough);
    assert [short, ""][1..] == [""];
    KeepFirst([""], LongEnough);
    assert [""][1..] == [];
  }

  lemma MarkedLines(l0: string, l1: string)
    ensures Join([l0, l1, ""], "\n") == l0 + "\n" + (l1 + "\n")
  {
    var ls := [l0, l1, ""];
    assert ls[1..] == [l1, ""];
    assert [l1, ""][1..] == [""];
    assert Join([l1, ""], "\n") == l1 + "\n" + "";
    assert l1 + "\n" + "" == l1 + "\n";
  }

  lemma BulletsOf(section: string, ls: seq<string>)
    requires SplitLines(section) == ls && Map(ls, TrimBullet) == ls && Keep(ls, LongEnough) == ls
    ensures Bullets(section) == ls
  {
  }

  lemma LongLines(ls: seq<string>)
    requires forall i :: 0 <= i < |ls| ==> PlainLine(ls[i])
    ensures Keep(ls, LongEnough) == ls
  {
    KeepAll(ls, LongEnough);
  }

  lemma TrimsFixed(ls: seq<string>)
    requires forall i :: 0 <= i < |ls| ==> PlainLine(ls[i])
    ensures Map(ls, TrimBullet) == ls
  {
    forall i | 0 <= i < |ls|
      ensures TrimBullet(ls[i]) == ls[i]
    {
      TrimClean(ls[i], IsBulletEdge);
    }
    MapFixed(ls, TrimBullet);
  }

  lemma {:induction false} RunEndShift(s: string, off: nat, i: nat, cls: char -> bool)
    requires off + i <= |s|
    ensures RunEnd(s, off + i, cls) == off + RunEnd(s[off..], i, cls)
  {
    var t := s[off..];
    var j := RunEnd(t, i, cls);
    assert forall k :: off + i <= k < off + j ==> s[k] == t[k - off];
    assert off + j < |s| ==> s[off + j] == t[j];
    RunEndUnique(s, off + i, off + j, cls);
  }

  /** Whether the next-section pattern matches at a position does not depend
      on the text before it. */
  lemma StopAtShift(s: string, off: nat, p: nat)
    requires off + p <= |s|
    ensures StopAt(s, off + p) == StopAt(s[off..], p)
  {
    var t := s[off..];
    if p < |t| {
      assert s[off + p] == t[p];
      RunEndShift(s, off, p + 1, IsSpace);
      TitleLineShift(s, off, RunEnd(t, p + 1, IsSpace));
    }
  }

  lemma TitleLineShift(s: string, off: nat, q: nat)
    requires off + q <= |s|
    ensures TitleLineAt(s, off + q) == TitleLineAt(s[off..], q)
  {
    var t := s[off..];
    if q < |t| {
      assert s[off + q] == t[q];
      RunEndShift(s, off, q + 1, IsTitleChar);
      var r := RunEnd(t, q + 1, IsTitleChar);
      assert r < |t| ==> s[off + r] == t[r];
    }
  }

  /** A line break followed by a line that is not header-like is no
      next-section match. */
  lemma NoStopAfterBreak(s: string, p: nat, l: string, rest: string)
    requires p < |s| && s[p] == '\n' && s[p + 1..] == l + rest
    requires l != [] && OneLine(l) && !IsSpace(l[0]) && !TitleLike(l)
    requires rest == [] || rest[0] == '\n'
    ensures !StopAt(s, p)
  {
    assert forall j :: 0 <= j < |l| ==> s[p + 1 + j] == l[j];
    assert p + 1 + |l| < |s| ==> s[p + 1 + |l|] == rest[0];
    RunEndUnique(s, p + 1, p + 1, IsSpace);
    if IsUpper(l[0]) {
      var r := RunEnd(s, p + 2, IsTitleChar);
      assert r <= p + 1 + |l|;
      if |l| >= 4 {
        var k :| 1 <= k < |l| && !IsTitleChar(l[k]);
        assert r <= p + 1 + k;
      }
    }
  }

  /** No next-section match starts inside lines joined with '\n', when the
      text after them is empty or starts a new line. */
  lemma {:induction false} NoStopInJoin(ls: seq<string>, suffix: string)
    requires ls != [] && forall i :: 0 <= i < |ls| ==> PlainLine(ls[i])
    requires suffix == [] || suffix[0] == '\n'
    ensures forall p :: 0 <= p < |Join(ls, "\n")| ==> !StopAt(Join(ls, "\n") + suffix, p)
  {
    var s := Join(ls, "\n") + suffix;
    var a := ls[0];
    if |ls| == 1 {
      assert forall p :: 0 <= p < |a| ==> s[p] == a[p];
    } else {
      var rest := Join(ls[1..], "\n") + suffix;
      NoStopInJoin(ls[1..], suffix);
      assert s == a + "\n" + rest;
      NoStopAtSecondLine(ls, suffix);
      forall p | 0 <= p < |Join(ls, "\n")|
        ensures !StopAt(s, p)
      {
        if p < |a| {
          assert s[p] == a[p];
        } else if p > |a| {
          ShiftNoStop(a, rest, p);
        }
      }
    }
  }

  /** A position after the first line is judged on the text after it. */
  lemma ShiftNoStop(a: string, rest: string, p: nat)
    requires |a| < p < |a| + 1 + |rest| && !StopAt(rest, p - |a| - 1)
    ensures !StopAt(a + "\n" + rest, p)
  {
    var s := a + "\n" + rest;
    AfterBreak(a, rest);
    StopAtShift(s, |a| + 1, p - |a| - 1);
  }

  lemma AfterBreak(a: string, rest: string)
    ensures (a + "\n" + rest)[|a| + 1..] == rest
  {
  }

  /** The break after the first line is no match: the second line is not
      header-like. */
  lemma NoStopAtSecondLine(ls: seq<string>, suffix: string)
    requires |ls| >= 2 && forall i :: 0 <= i < |ls| ==> PlainLine(ls[i])
    requires suffix == [] || suffix[0] == '\n'
    ensures !StopAt(Join(ls, "\n") + suffix, |ls[0]|)
  {
    var s := Join(ls, "\n") + suffix;
    var rest := if |ls| == 2 then suffix else "\n" + Join(ls[2..], "\n") + suffix;
    assert Join(ls[1..], "\n") == if |ls| == 2 then ls[1] else ls[1] + "\n" + Join(ls[2..], "\n");
    assert s == ls[0] + "\n" + (ls[1] + rest);
    assert s[|ls[0]| + 1..] == ls[1] + rest;
    NoStopAfterBreak(s, |ls[0]|, ls[1], rest);
  }

  /** A header-like line between two line breaks is a next-section match. */
  lemma TitleStops(a: string, title: string, after: string)
    requires TitleLike(title)
    ensures StopAt(a + ("\n" + title + "\n" + after), |a|)
  {
    var s, p := a + ("\n" + title + "\n" + after), |a|;
    assert s[p] == '\n' && s[p + 1 + |title|] == '\n';
    assert forall j :: 0 <= j < |title| ==> s[p + 1 + j] == title[j];
    RunEndUnique(s, p + 1, p + 1, IsSpace);
    RunEndUnique(s, p + 2, p + 1 + |title|, IsTitleChar);
  }

  lemma HeaderWords()
    ensures |ShortHeader| == 16 && |LongHeader| == 18
    ensures ShortHeader[8] == '\'' && LongHeader[8] == ' '
  {
  }

  /** A header in any capitalisation at the start of the text is the header
      found. */
  lemma HeaderAtStart(header: string, rest: string)
    requires Lower(header) == ShortHeader || Lower(header) == LongHeader
    ensures FindHeader(header + rest, 0) == Some(|header|)
  {
    var t := header + rest;
    HeaderWords();
    assert t[0..|header|] == header;
    if Lower(header) == LongHeader {
      var short := t[0..|ShortHeader|];
      LowerAt(short);
      assert short[8] == header[8];
      LowerAt(header);
      assert Lower(short)[8] == ' ';
      assert !OccursIgnoringCase(t, ShortHeader, 0);
    }
    assert HeaderEnd(t, 0) == Some(|header|);
  }

  /** After a header and a line break, the section is what follows up to the
      next section. */
  lemma AfterHeader(header: string, body: string)
    requires Lower(header) == ShortHeader || Lower(header) == LongHeader
    requires body != [] && !IsSpace(body[0])
    ensures QualificationsIn(header + "\n" + body) == Bullets(SectionOf(body))
  {
    var t := header + "\n" + body;
    var e := |header|;
    assert FindHeader(t, 0) == Some(e) by {
      assert t == header + ("\n" + body);
      HeaderAtStart(header, "\n" + body);
    }
    assert RunEnd(t, e, IsSpace) == e + 1 by {
      assert t[e] == '\n' && t[e + 1] == body[0];
      RunEndUnique(t, e, e + 1, IsSpace);
    }
    assert t[e + 1..] == body;
  }

  lemma JoinStart(ls: seq<string>, sep: string)
    requires ls != [] && ls[0] != []
    ensures Join(ls, sep) != [] && Join(ls, sep)[0] == ls[0][0]
  {
  }

  /** Under a header, lines joined with '\n' come back as the
      qualifications, each unchanged and in order. */
  lemma QualificationsRoundTrip(header: string, ls: seq<string>)
    requires Lower(header) == ShortHeader || Lower(header) == LongHeader
    requires ls != [] && forall i :: 0 <= i < |ls| ==> PlainLine(ls[i])
    ensures QualificationsIn(header + "\n" + Join(ls, "\n")) == ls
  {
    BulletsOfJoin(ls);
    WholeSection(ls);
    JoinStart(ls, "\n");
    AfterHeader(header, Join(ls, "\n"));
  }

  /** A header-like line ends the section: the lines after it are not
      qualifications, however they look. */
  lemma SectionEndsAtTitle(header: string, ls: seq<string>, title: string, more: seq<string>)
    requires Lower(header) == ShortHeader || Lower(header) == LongHeader
    requires ls != [] && forall i :: 0 <= i < |ls| ==> PlainLine(ls[i])
    requires TitleLike(title) && more != []
    ensures QualificationsIn(header + "\n" + Join(ls + [title] + more, "\n")) == ls
  {
    var a := Join(ls, "\n");
    var suffix := "\n" + title + "\n" + Join(more, "\n");
    BulletsOfJoin(ls);
    SectionBeforeTitle(ls, title, Join(more, "\n"));
    TitledJoin(ls, title, more);
    JoinStart(ls, "\n");
    AfterHeader(header, a + suffix);
  }

  /** Plain lines make up a whole section. */
  lemma WholeSection(ls: seq<string>)
    requires ls != [] && forall i :: 0 <= i < |ls| ==> PlainLine(ls[i])
    ensures SectionOf(Join(ls, "\n")) == Join(ls, "\n")
  {
    var body := Join(ls, "\n");
    NoStopInJoin(ls, []);
    assert body + [] == body;
    assert FirstStop(body, 0) == |body|;
  }

  /** Plain lines followed by a header-like line make up the section. */
  lemma SectionBeforeTitle(ls: seq<string>, title: string, after: string)
    requires ls != [] && forall i :: 0 <= i < |ls| ==> PlainLine(ls[i])
    requires TitleLike(title)
    ensures var a := Join(ls, "\n"); SectionOf(a + ("\n" + title + "\n" + after)) == a
  {
    var a := Join(ls, "\n");
    var suffix := "\n" + title + "\n" + after;
    NoStopInJoin(ls, suffix);
    TitleStops(a, title, after);
    FirstStopIs(a + suffix, |a|);
  }

  lemma FirstStopIs(s: string, p: nat)
    requires p < |s| && StopAt(s, p) && forall k :: 0 <= k < p ==> !StopAt(s, k)
    ensures FirstStop(s, 0) == p
  {
  }

  lemma TitledJoin(ls: seq<string>, title: string, more: seq<string>)
    requires ls != [] && more != []
    ensures Join(ls + [title] + more, "\n") == Join(ls, "\n") + ("\n" + title + "\n" + Join(more, "\n"))
  {
    JoinAppend(ls, [title] + more, "\n");
    assert ls + [title] + more == ls + ([title] + more);
    assert ([title] + more)[1..] == more;
  }

  /** A character found in neither the pieces nor the separator is not in
      their join. */
  lemma {:induction false} JoinLacks(ls: seq<string>, sep: string, c: char)
    requires c !in sep && forall i :: 0 <= i < |ls| ==> c !in ls[i]
    ensures c !in Join(ls, sep)
  {
    if |ls| > 1 {
      JoinLacks(ls[1..], sep, c);
    }
  }

  /** The whole extraction on a plain-text description with a header and
      plain lines: whatever `description_html` holds, the lines come back. */
  lemma ExtractRoundTrip(header: string, ls: seq<string>, descriptionHtml: Option<string>, htmlToText: string -> string)
    requires Lower(header) == ShortHeader || Lower(header) == LongHeader
    requires '<' !in header && '\r' !in header
    requires ls != [] && forall i :: 0 <= i < |ls| ==> PlainLine(ls[i]) && '<' !in ls[i]
    ensures ExtractQualifications(Some(header + "\n" + Join(ls, "\n")), descriptionHtml, htmlToText) == ls
  {
    var t := header + "\n" + Join(ls, "\n");
    JoinLacks(ls, "\n", '<');
    JoinLacks(ls, "\n", '\r');
    assert '<' !in t;
    KeepAll(t, NotCarriageReturn);
    QualificationsRoundTrip(header, ls);
  }

  // ---------------------------------------------------------------------
  // Viasat.scrape_jobs

  /** One posting of the feed, as the fields the scraper reads from its
      `data` object; a missing title reads as the empty text. */
  datatype Posting = Posting(
    title: string,
    location: Option<string>,
    reqId: string,
    url: string,
    description: Option<string>,
    descriptionHtml: Option<string>)

  /** The location and keyword tests: a Carlsbad posting whose lower-cased
      title mentions software or devops. */
  predicate PostingKept(p: Posting) {
    p.location == Some("Carlsbad") && (Contains(Lower(p.title), "software") || Contains(Lower(p.title), "devops"))
  }

  /** The job built from a kept posting: the title as published, not
      lower-cased, and the qualifications extracted from its description. */
  function PostingJob(p: Posting, htmlToText: string -> string): (j: Job)
    ensures j.company == "Viasat" && j.title == p.title && j.reqId == p.reqId && j.url == p.url
    ensures j.qualifications == ExtractQualifications(p.description, p.descriptionHtml, htmlToText)
  {
    NewJob("Viasat", p.title, p.url, p.reqId, Some(ExtractQualifications(p.description, p.descriptionHtml, htmlToText)))
  }

  function JobFrom(htmlToText: string -> string): Posting -> Job {
    (p: Posting) => PostingJob(p, htmlToText)
  }

  /** The paging loop: pages are requested in order and the loop stops at
      the first empty page; `pages[k]` is the answer to the request for page
      `k + 1` (`Err` when the request or its JSON fails), and every page past
      the end is empty. */
  function PagesRead(pages: seq<Result<seq<Posting>, string>>): (r: Result<seq<seq<Posting>>, string>)
    ensures r.Ok? ==> |r.value| <= |pages|
    ensures r.Ok? ==> forall k :: 0 <= k < |r.value| ==> pages[k] == Ok(r.value[k]) && r.value[k] != []
  {
    if pages == [] then Ok([])
    else match pages[0]
      case Err(e) => Err(e)
      case Ok(ps) =>
        if ps == [] then Ok([])
        else match PagesRead(pages[1..])
          case Err(e) => Err(e)
          case Ok(rest) => Ok([ps] + rest)
  }

  /** Nothing after the first empty page is ever requested: what comes after
      it, even a failing request, changes nothing. */
  lemma {:induction false} StopsAtEmptyPage(pre: seq<Result<seq<Posting>, string>>, more: seq<Result<seq<Posting>, string>>)
    requires forall k :: 0 <= k < |pre| ==> pre[k].Ok? && pre[k].value != []
    ensures PagesRead(pre + [Ok([])] + more) == PagesRead(pre)
  {
    if pre == [] {
      assert ([] + [Ok([])] + more)[0] == Ok([]);
    } else {
      assert (pre + [Ok([])] + more)[1..] == pre[1..] + [Ok([])] + more;
      StopsAtEmptyPage(pre[1..], more);
    }
  }

  /** Non-empty pages are all read, each one unchanged and in order. */
  lemma {:induction false} ReadsAll(pre: seq<Result<seq<Posting>, string>>)
    requires forall k :: 0 <= k < |pre| ==> pre[k].Ok? && pre[k].value != []
    ensures var r := PagesRead(pre);
      r.Ok? && |r.value| == |pre| && forall k :: 0 <= k < |pre| ==> pre[k] == Ok(r.value[k])
  {
    if pre != [] {
      ReadsAll(pre[1..]);
    }
  }

  /** The read stops at the first empty page with every page before it. */
  lemma ReadUntilEmpty(pre: seq<Result<seq<Posting>, string>>, more: seq<Result<seq<Posting>, string>>)
    requires forall k :: 0 <= k < |pre| ==> pre[k].Ok? && pre[k].value != []
    ensures var r := PagesRead(pre + [Ok([])] + more);
      r.Ok? && |r.value| == |pre| && forall k :: 0 <= k < |pre| ==> pre[k] == Ok(r.value[k])
  {
    StopsAtEmptyPage(pre, more);
    ReadsAll(pre);
  }

  /** A failing request before any empty page fails the whole read with its
      error, whatever comes after it. */
  lemma {:induction false} ReadFailsAt(pre: seq<Result<seq<Posting>, string>>, e: string, more: seq<Result<seq<Posting>, string>>)
    requires forall k :: 0 <= k < |pre| ==> pre[k].Ok? && pre[k].value != []
    ensures PagesRead(pre + [Err(e)] + more) == Err(e)
  {
    if pre == [] {
      assert ([] + [Err(e)] + more)[0] == Err(e);
    } else {
      assert (pre + [Err(e)] + more)[1..] == pre[1..] + [Err(e)] + more;
      ReadFailsAt(pre[1..], e, more);
    }
  }

  /** `Viasat.scrape_jobs`: the jobs of the kept postings of every page read,
      in order, or the error of a failed request. */
  function ViasatJobs(pages: seq<Result<seq<Posting>, string>>, htmlToText: string -> string): (r: Result<seq<Job>, string>)
    ensures PagesRead(pages).Err? <==> r.Err?
    ensures r.Ok? ==> var kept := Keep(Flatten(PagesRead(pages).value), PostingKept);
                      |r.value| == |kept| && forall i :: 0 <= i < |kept| ==> r.value[i] == PostingJob(kept[i], htmlToText)
  {
    match PagesRead(pages)
    case Err(e) => Err(e)
    case Ok(read) =>
      KeepMapAt(Flatten(read), PostingKept, JobFrom(htmlToText));
      Ok(KeepMap(Flatten(read), PostingKept, JobFrom(htmlToText)))
  }

  /** Every job comes from a Carlsbad posting about software or devops, and
      carries that posting's title. */
  lemma ViasatJobsKept(pages: seq<Result<seq<Posting>, string>>, htmlToText: string -> string, i: nat)
    requires ViasatJobs(pages, htmlToText).Ok? && i < |ViasatJobs(pages, htmlToText).value|
    ensures exists p :: p in Flatten(PagesRead(pages).value) && PostingKept(p) && ViasatJobs(pages, htmlToText).value[i] == PostingJob(p, htmlToText)
  {
    var kept := Keep(Flatten(PagesRead(pages).value), PostingKept);
    assert kept[i] in kept;
  }
}
