/** The fragment of Python's `re` that the quantity parser uses.

    A pattern is a sequence of tokens. `Ends` is the declarative meaning of a
    pattern, the one a backtracking engine searches: the pattern can consume
    `s[i..j]` producing the groups `g`. `Greedy` is the way the patterns in this
    project can be run without backtracking: every quantifier takes as much as
    it can. `GreedyComplete` shows the two agree on well-formed patterns, and
    `SearchIsLeftmostMatch` lifts that to `re.search`: the leftmost start, with
    groups that every match at that start shares.
 */
module Pattern {
  import opened Text

  /** A character class, used to say what a token may begin with. */
  datatype Class = DigitClass | SpaceClass | GlyphClass | Single(c: char)

  predicate InClass(c: char, cls: Class) {
    match cls
    case DigitClass => IsDigit(c)
    case SpaceClass => IsSpace(c)
    case GlyphClass => IsGlyph(c)
    case Single(x) => c == x
  }

  lemma GlyphIsNeither(c: char)
    requires IsGlyph(c)
    ensures !IsDigit(c) && !IsSpace(c)
  {
    var k :| 0 <= k < |Glyphs| && Glyphs[k] == c;
    assert k < 9;
  }

  /** A conservative test that no character is in both classes. */
  predicate Disjoint(a: Class, b: Class) {
    match (a, b)
    case (Single(x), _) => !InClass(x, b)
    case (_, Single(y)) => !InClass(y, a)
    case _ => a != b
  }

  lemma DisjointSound(a: Class, b: Class, c: char)
    requires Disjoint(a, b) && InClass(c, a)
    ensures !InClass(c, b)
  {
    if IsGlyph(c) {
      GlyphIsNeither(c);
    }
  }

  datatype Token =
    | Digits          // (\d+), a group
    | Blank           // \s*
    | Lit(word: string)
    | Opt(c: char)    // the character c, optionally
    | Glyph           // ([½⅓⅔¼¾⅛⅜⅝⅞]), a group
    | OptGlyph        // ([½⅓⅔¼¾⅛⅜⅝⅞]?), a group, empty when absent

  /** The number of groups a pattern produces. */
  function GroupCount(p: seq<Token>): nat {
    if p == [] then 0
    else (if p[0].Digits? || p[0].Glyph? || p[0].OptGlyph? then 1 else 0) + GroupCount(p[1..])
  }

  ghost predicate AllIn(s: string, i: nat, k: nat, cls: Class)
    requires i <= k <= |s|
  {
    forall m :: i <= m < k ==> InClass(s[m], cls)
  }

  /** The pattern `p` can consume exactly `s[i..j]`, yielding the groups `g`. */
  ghost predicate Ends(p: seq<Token>, s: string, i: nat, j: nat, g: seq<string>)
    decreases |p|
  {
    i <= j <= |s| &&
    if p == [] then i == j && g == []
    else match p[0]
      case Digits =>
        |g| > 0 &&
        exists k: nat :: i < k <= j && AllIn(s, i, k, DigitClass) && g[0] == s[i..k] && Ends(p[1..], s, k, j, g[1..])
      case Blank =>
        exists k: nat :: i <= k <= j && AllIn(s, i, k, SpaceClass) && Ends(p[1..], s, k, j, g)
      case Lit(w) =>
        i + |w| <= j && s[i..i + |w|] == w && Ends(p[1..], s, i + |w|, j, g)
      case Opt(c) =>
        Ends(p[1..], s, i, j, g) || (i < j && s[i] == c && Ends(p[1..], s, i + 1, j, g))
      case Glyph =>
        |g| > 0 && i < j && IsGlyph(s[i]) && g[0] == [s[i]] && Ends(p[1..], s, i + 1, j, g[1..])
      case OptGlyph =>
        |g| > 0 &&
        ((g[0] == [] && Ends(p[1..], s, i, j, g[1..])) ||
         (i < j && IsGlyph(s[i]) && g[0] == [s[i]] && Ends(p[1..], s, i + 1, j, g[1..])))
  }

  datatype Hit = Hit(end: nat, groups: seq<string>)

  function Prepend(x: string, h: Option<Hit>): Option<Hit> {
    match h
    case None => None
    case Some(Hit(e, g)) => Some(Hit(e, [x] + g))
  }

  /** Runs `p` at position `i`, every quantifier taking as much as it can. */
  function Greedy(p: seq<Token>, s: string, i: nat): (r: Option<Hit>)
    requires i <= |s|
    ensures r.Some? ==> i <= r.value.end <= |s| && |r.value.groups| == GroupCount(p)
    decreases |p|
  {
    if p == [] then Some(Hit(i, []))
    else match p[0]
      case Digits =>
        var k := RunEnd(s, i, IsDigit);
        if k == i then None else Prepend(s[i..k], Greedy(p[1..], s, k))
      case Blank =>
        Greedy(p[1..], s, RunEnd(s, i, IsSpace))
      case Lit(w) =>
        if i + |w| <= |s| && s[i..i + |w|] == w then Greedy(p[1..], s, i + |w|) else None
      case Opt(c) =>
        if i < |s| && s[i] == c then Greedy(p[1..], s, i + 1) else Greedy(p[1..], s, i)
      case Glyph =>
        if i < |s| && IsGlyph(s[i]) then Prepend([s[i]], Greedy(p[1..], s, i + 1)) else None
      case OptGlyph =>
        if i < |s| && IsGlyph(s[i]) then Prepend([s[i]], Greedy(p[1..], s, i + 1))
        else Prepend([], Greedy(p[1..], s, i))
  }

  lemma {:induction false} GreedySound(p: seq<Token>, s: string, i: nat)
    requires i <= |s| && Greedy(p, s, i).Some?
    ensures Ends(p, s, i, Greedy(p, s, i).value.end, Greedy(p, s, i).value.groups)
    decreases |p|
  {
    var h := Greedy(p, s, i).value;
    if p != [] {
      match p[0]
      case Digits =>
        var k := RunEnd(s, i, IsDigit);
        GreedySound(p[1..], s, k);
        assert AllIn(s, i, k, DigitClass);
      case Blank =>
        var k := RunEnd(s, i, IsSpace);
        GreedySound(p[1..], s, k);
        assert AllIn(s, i, k, SpaceClass);
      case Lit(w) =>
        GreedySound(p[1..], s, i + |w|);
      case Opt(c) =>
        if i < |s| && s[i] == c {
          GreedySound(p[1..], s, i + 1);
        } else {
          GreedySound(p[1..], s, i);
        }
      case Glyph =>
        GreedySound(p[1..], s, i + 1);
      case OptGlyph =>
        if i < |s| && IsGlyph(s[i]) {
          GreedySound(p[1..], s, i + 1);
        } else {
          GreedySound(p[1..], s, i);
        }
    }
  }

  // ---------------------------------------------------------------------
  // Well-formedness: when greedy choices are forced

  /** Every way `p` matches consumes a first character, and it is not in `cls`. */
  predicate FirstSafe(p: seq<Token>, cls: Class)
    decreases |p|
  {
    p != [] &&
    match p[0]
    case Digits => Disjoint(DigitClass, cls)
    case Blank => Disjoint(SpaceClass, cls) && FirstSafe(p[1..], cls)
    case Lit(w) => |w| > 0 && !InClass(w[0], cls)
    case Opt(c) => !InClass(c, cls) && FirstSafe(p[1..], cls)
    case Glyph => Disjoint(GlyphClass, cls)
    case OptGlyph => Disjoint(GlyphClass, cls) && FirstSafe(p[1..], cls)
  }

  lemma {:induction false} FirstSafeConsumes(p: seq<Token>, cls: Class, s: string, i: nat, j: nat, g: seq<string>)
    requires FirstSafe(p, cls) && Ends(p, s, i, j, g)
    ensures i < j && !InClass(s[i], cls)
    decreases |p|
  {
    match p[0]
    case Digits =>
      DisjointSound(DigitClass, cls, s[i]);
    case Blank =>
      var k: nat :| i <= k <= j && AllIn(s, i, k, SpaceClass) && Ends(p[1..], s, k, j, g);
      if k == i {
        FirstSafeConsumes(p[1..], cls, s, i, j, g);
      } else {
        DisjointSound(SpaceClass, cls, s[i]);
      }
    case Lit(w) =>
    case Opt(c) =>
      if !(i < j && s[i] == c && Ends(p[1..], s, i + 1, j, g)) {
        FirstSafeConsumes(p[1..], cls, s, i, j, g);
      }
    case Glyph =>
      DisjointSound(GlyphClass, cls, s[i]);
    case OptGlyph =>
      if i < j && IsGlyph(s[i]) && g[0] == [s[i]] && Ends(p[1..], s, i + 1, j, g[1..]) {
        DisjointSound(GlyphClass, cls, s[i]);
      } else {
        FirstSafeConsumes(p[1..], cls, s, i, j, g[1..]);
      }
  }

  /** A match of `p` that starts inside a run of blanks can start at its end instead. */
  predicate SpaceAbsorbing(p: seq<Token>)
    decreases |p|
  {
    || FirstSafe(p, SpaceClass)
    || (p != [] && (p[0].Blank? || p[0].OptGlyph? || (p[0].Opt? && !IsSpace(p[0].c))) && SpaceAbsorbing(p[1..]))
  }

  lemma {:induction false} SpaceShift(p: seq<Token>, s: string, k: nat, big: nat, j: nat, g: seq<string>)
    requires SpaceAbsorbing(p) && Ends(p, s, k, j, g)
    requires k <= big <= |s| && AllIn(s, k, big, SpaceClass) && (big == |s| || !IsSpace(s[big]))
    ensures exists j': nat :: Ends(p, s, big, j', g)
    decreases |p|
  {
    if FirstSafe(p, SpaceClass) {
      FirstSafeConsumes(p, SpaceClass, s, k, j, g);
      assert k == big;
    } else if p[0].Blank? {
      var m: nat :| k <= m <= j && AllIn(s, k, m, SpaceClass) && Ends(p[1..], s, m, j, g);
      assert m <= big;
      SpaceShift(p[1..], s, m, big, j, g);
      var j': nat :| Ends(p[1..], s, big, j', g);
      assert AllIn(s, big, big, SpaceClass);
      assert Ends(p, s, big, j', g);
    } else if p[0].OptGlyph? {
      if TookGlyph(p, s, k, j, g) {
        if k < big {
          GlyphIsNeither(s[k]);
        }
      } else {
        SpaceShift(p[1..], s, k, big, j, g[1..]);
        var j': nat :| Ends(p[1..], s, big, j', g[1..]);
        assert Ends(p, s, big, j', g);
      }
    } else {
      if k < j && s[k] == p[0].c && Ends(p[1..], s, k + 1, j, g) {
        assert k == big;
      } else {
        SpaceShift(p[1..], s, k, big, j, g);
        var j': nat :| Ends(p[1..], s, big, j', g);
        assert Ends(p, s, big, j', g);
      }
    }
  }

  /** The optional glyph at the head of `p` was present in this match. */
  ghost predicate TookGlyph(p: seq<Token>, s: string, k: nat, j: nat, g: seq<string>)
    requires p != [] && p[0].OptGlyph? && |g| > 0
  {
    k < j && j <= |s| && IsGlyph(s[k]) && g[0] == [s[k]] && Ends(p[1..], s, k + 1, j, g[1..])
  }

  /** The token `t` may stand before the rest `q` without a greedy choice of
      `t` costing a match of `q`. */
  predicate Admits(t: Token, q: seq<Token>) {
    match t
    case Digits => FirstSafe(q, DigitClass)
    case Blank => SpaceAbsorbing(q)
    case Lit(w) => true
    case Opt(c) => q == [] || FirstSafe(q, Single(c))
    case Glyph => true
    case OptGlyph => FirstSafe(q, GlyphClass)
  }

  /** No greedy choice of `p` can cost a match or change a group. */
  predicate WellFormed(p: seq<Token>)
    decreases |p|
  {
    p == [] || (WellFormed(p[1..]) && Admits(p[0], p[1..]))
  }

  lemma WellFormedCons(t: Token, q: seq<Token>)
    requires WellFormed(q) && Admits(t, q)
    ensures WellFormed([t] + q)
  {
    assert ([t] + q)[1..] == q;
  }

  /** On a well-formed pattern the greedy run finds every match, with the same groups. */
  lemma {:induction false} GreedyComplete(p: seq<Token>, s: string, i: nat, j: nat, g: seq<string>)
    requires WellFormed(p) && Ends(p, s, i, j, g)
    ensures Greedy(p, s, i).Some? && Greedy(p, s, i).value.groups == g
    decreases |p|, 1
  {
    if p == [] {
    } else if p[0].Digits? || p[0].Blank? {
      GreedyRunHead(p, s, i, j, g);
    } else if p[0].Opt? || p[0].OptGlyph? {
      GreedyOptHead(p, s, i, j, g);
    } else if p[0].Lit? {
      GreedyComplete(p[1..], s, i + |p[0].word|, j, g);
    } else {
      GreedyComplete(p[1..], s, i + 1, j, g[1..]);
    }
  }

  /** `GreedyComplete` when the pattern starts with `\d+` or `\s*`. */
  lemma {:induction false} GreedyRunHead(p: seq<Token>, s: string, i: nat, j: nat, g: seq<string>)
    requires WellFormed(p) && Ends(p, s, i, j, g) && p != [] && (p[0].Digits? || p[0].Blank?)
    ensures Greedy(p, s, i).Some? && Greedy(p, s, i).value.groups == g
    decreases |p|, 0
  {
    if p[0].Digits? {
      var k: nat :| i < k <= j && AllIn(s, i, k, DigitClass) && g[0] == s[i..k] && Ends(p[1..], s, k, j, g[1..]);
      FirstSafeConsumes(p[1..], DigitClass, s, k, j, g[1..]);
      RunEndUnique(s, i, k, IsDigit);
      GreedyComplete(p[1..], s, k, j, g[1..]);
    } else {
      var k: nat :| i <= k <= j && AllIn(s, i, k, SpaceClass) && Ends(p[1..], s, k, j, g);
      var big := RunEnd(s, i, IsSpace);
      assert k <= big;
      SpaceShift(p[1..], s, k, big, j, g);
      var j': nat :| Ends(p[1..], s, big, j', g);
      GreedyComplete(p[1..], s, big, j', g);
    }
  }

  /** `GreedyComplete` when the pattern starts with an optional character or glyph. */
  lemma {:induction false} GreedyOptHead(p: seq<Token>, s: string, i: nat, j: nat, g: seq<string>)
    requires WellFormed(p) && Ends(p, s, i, j, g) && p != [] && (p[0].Opt? || p[0].OptGlyph?)
    ensures Greedy(p, s, i).Some? && Greedy(p, s, i).value.groups == g
    decreases |p|, 0
  {
    if p[0].Opt? {
      var c := p[0].c;
      if i < j && s[i] == c && Ends(p[1..], s, i + 1, j, g) {
        GreedyComplete(p[1..], s, i + 1, j, g);
      } else if i < |s| && s[i] == c {
        if p[1..] == [] {
          assert g == [];
        } else {
          FirstSafeConsumes(p[1..], Single(c), s, i, j, g);
        }
      } else {
        GreedyComplete(p[1..], s, i, j, g);
      }
    } else {
      if i < j && IsGlyph(s[i]) && g[0] == [s[i]] && Ends(p[1..], s, i + 1, j, g[1..]) {
        GreedyComplete(p[1..], s, i + 1, j, g[1..]);
      } else if i < |s| && IsGlyph(s[i]) {
        FirstSafeConsumes(p[1..], GlyphClass, s, i, j, g[1..]);
      } else {
        GreedyComplete(p[1..], s, i, j, g[1..]);
      }
    }
  }

  // ---------------------------------------------------------------------
  // re.search

  datatype Match = Match(start: nat, end: nat, groups: seq<string>)

  function SearchFrom(p: seq<Token>, s: string, i: nat): (r: Option<Match>)
    ensures r.Some? ==> i <= r.value.start <= r.value.end <= |s| && |r.value.groups| == GroupCount(p)
    decreases |s| + 1 - i
  {
    if i > |s| then None
    else match Greedy(p, s, i)
      case Some(h) => Some(Match(i, h.end, h.groups))
      case None => SearchFrom(p, s, i + 1)
  }

  /** `re.search(p, s)`: the first position where the pattern matches. */
  function Search(p: seq<Token>, s: string): (r: Option<Match>)
    ensures r.Some? ==> r.value.start <= r.value.end <= |s| && |r.value.groups| == GroupCount(p)
  {
    SearchFrom(p, s, 0)
  }

  lemma {:induction false} SearchFromSpec(p: seq<Token>, s: string, i: nat)
    requires WellFormed(p)
    requires forall i': nat, j: nat, g :: i' < i ==> !Ends(p, s, i', j, g)
    ensures SearchFrom(p, s, i).None? ==> forall i': nat, j: nat, g :: !Ends(p, s, i', j, g)
    ensures SearchFrom(p, s, i).Some? ==>
              var m := SearchFrom(p, s, i).value;
              && Ends(p, s, m.start, m.end, m.groups)
              && (forall i': nat, j: nat, g :: i' < m.start ==> !Ends(p, s, i', j, g))
              && (forall j: nat, g :: Ends(p, s, m.start, j, g) ==> g == m.groups)
    decreases |s| + 1 - i
  {
    if i > |s| {
    } else if Greedy(p, s, i).Some? {
      GreedySound(p, s, i);
      forall j: nat, g | Ends(p, s, i, j, g)
        ensures g == Greedy(p, s, i).value.groups
      {
        GreedyComplete(p, s, i, j, g);
      }
    } else {
      forall j: nat, g | Ends(p, s, i, j, g)
        ensures false
      {
        GreedyComplete(p, s, i, j, g);
      }
      SearchFromSpec(p, s, i + 1);
    }
  }

  /** `Search` is `re.search` for a well-formed pattern: it reports the leftmost
      position where some match exists (none at all when it finds nothing), a
      match there, and groups that every match at that position shares. */
  lemma SearchIsLeftmostMatch(p: seq<Token>, s: string)
    requires WellFormed(p)
    ensures Search(p, s).None? ==> forall i: nat, j: nat, g :: !Ends(p, s, i, j, g)
    ensures forall i: nat, j: nat, g :: Ends(p, s, i, j, g) ==> Search(p, s).Some?
    ensures Search(p, s).Some? ==>
              var m := Search(p, s).value;
              && Ends(p, s, m.start, m.end, m.groups)
              && (forall i: nat, j: nat, g :: i < m.start ==> !Ends(p, s, i, j, g))
              && (forall j: nat, g :: Ends(p, s, m.start, j, g) ==> g == m.groups)
  {
    SearchFromSpec(p, s, 0);
    if Search(p, s).Some? {
      var m := Search(p, s).value;
      assert Ends(p, s, m.start, m.end, m.groups);
    }
  }

  /** The pattern matches somewhere in `s`. */
  ghost predicate Matches(p: seq<Token>, s: string) {
    exists i: nat, j: nat, g :: Ends(p, s, i, j, g)
  }

  /** `i` is the leftmost position where `p` matches, and `g` is a grouping
      of some match there. */
  ghost predicate Leftmost(p: seq<Token>, s: string, i: nat, g: seq<string>) {
    && (exists j: nat :: Ends(p, s, i, j, g))
    && (forall i': nat, j: nat, g' :: i' < i ==> !Ends(p, s, i', j, g'))
  }

  /** What `Search` reports is the leftmost match, and nothing else is. */
  lemma SearchFindsLeftmost(p: seq<Token>, s: string)
    requires WellFormed(p)
    ensures Search(p, s).None? <==> !Matches(p, s)
    ensures Search(p, s).Some? ==> Leftmost(p, s, Search(p, s).value.start, Search(p, s).value.groups)
    ensures forall i: nat, g :: Leftmost(p, s, i, g) ==>
              Search(p, s).Some? && Search(p, s).value.start == i && Search(p, s).value.groups == g
  {
    SearchIsLeftmostMatch(p, s);
    if Matches(p, s) {
      var i: nat, j: nat, g: seq<string> :| Ends(p, s, i, j, g);
    }
    forall i: nat, g | Leftmost(p, s, i, g)
      ensures Search(p, s).Some? && Search(p, s).value.start == i && Search(p, s).value.groups == g
    {
      var j: nat :| Ends(p, s, i, j, g);
      var m := Search(p, s).value;
      assert Ends(p, s, m.start, m.end, m.groups);
      assert m.start >= i;
    }
  }

  /** A literal of the pattern shows up in any text the pattern matches. */
  lemma {:induction false} LitNeeded(p: seq<Token>, w: string, s: string, i: nat, j: nat, g: seq<string>)
    requires Lit(w) in p && |w| > 0 && Ends(p, s, i, j, g)
    ensures w[0] in s
    decreases |p|
  {
    if p[0] == Lit(w) {
      assert s[i] == w[0];
    } else {
      assert Lit(w) in p[1..] by {
        var k :| 0 <= k < |p| && p[k] == Lit(w);
        assert k > 0 && p[1..][k - 1] == Lit(w);
      }
      match p[0]
      case Digits =>
        var k: nat :| i < k <= j && AllIn(s, i, k, DigitClass) && g[0] == s[i..k] && Ends(p[1..], s, k, j, g[1..]);
        LitNeeded(p[1..], w, s, k, j, g[1..]);
      case Blank =>
        var k: nat :| i <= k <= j && AllIn(s, i, k, SpaceClass) && Ends(p[1..], s, k, j, g);
        LitNeeded(p[1..], w, s, k, j, g);
      case Lit(x) =>
        LitNeeded(p[1..], w, s, i + |x|, j, g);
      case Opt(c) =>
        if Ends(p[1..], s, i, j, g) {
          LitNeeded(p[1..], w, s, i, j, g);
        } else {
          LitNeeded(p[1..], w, s, i + 1, j, g);
        }
      case Glyph =>
        LitNeeded(p[1..], w, s, i + 1, j, g[1..]);
      case OptGlyph =>
        if g[0] == [] && Ends(p[1..], s, i, j, g[1..]) {
          LitNeeded(p[1..], w, s, i, j, g[1..]);
        } else {
          LitNeeded(p[1..], w, s, i + 1, j, g[1..]);
        }
    }
  }

  /** A pattern with a mandatory glyph only matches text holding a glyph. */
  lemma {:induction false} GlyphNeeded(p: seq<Token>, s: string, i: nat, j: nat, g: seq<string>)
    requires Glyph in p && Ends(p, s, i, j, g)
    ensures exists k :: i <= k < j && IsGlyph(s[k])
    decreases |p|
  {
    if p[0] == Glyph {
      assert IsGlyph(s[i]);
    } else {
      assert Glyph in p[1..] by {
        var k :| 0 <= k < |p| && p[k] == Glyph;
        assert k > 0 && p[1..][k - 1] == Glyph;
      }
      match p[0]
      case Digits =>
        var k: nat :| i < k <= j && AllIn(s, i, k, DigitClass) && g[0] == s[i..k] && Ends(p[1..], s, k, j, g[1..]);
        GlyphNeeded(p[1..], s, k, j, g[1..]);
      case Blank =>
        var k: nat :| i <= k <= j && AllIn(s, i, k, SpaceClass) && Ends(p[1..], s, k, j, g);
        GlyphNeeded(p[1..], s, k, j, g);
      case Lit(x) =>
        GlyphNeeded(p[1..], s, i + |x|, j, g);
      case Opt(c) =>
        if Ends(p[1..], s, i, j, g) {
          GlyphNeeded(p[1..], s, i, j, g);
        } else {
          GlyphNeeded(p[1..], s, i + 1, j, g);
        }
      case OptGlyph =>
        if g[0] == [] && Ends(p[1..], s, i, j, g[1..]) {
          GlyphNeeded(p[1..], s, i, j, g[1..]);
        } else {
          GlyphNeeded(p[1..], s, i + 1, j, g[1..]);
        }
    }
  }

  /** A pattern with a literal whose first letter the text lacks finds nothing. */
  lemma NoMatchWithoutLetter(p: seq<Token>, w: string, s: string)
    requires Lit(w) in p && |w| > 0 && w[0] !in s
    ensures !Matches(p, s)
  {
    forall i: nat, j: nat, g | Ends(p, s, i, j, g)
      ensures false
    {
      LitNeeded(p, w, s, i, j, g);
    }
  }

  // ---------------------------------------------------------------------
  // Building matches piece by piece

  lemma {:induction false} EndsConcat(p1: seq<Token>, p2: seq<Token>, s: string, i: nat, m: nat, j: nat, g1: seq<string>, g2: seq<string>)
    requires Ends(p1, s, i, m, g1) && Ends(p2, s, m, j, g2)
    ensures Ends(p1 + p2, s, i, j, g1 + g2)
    decreases |p1|, 1
  {
    if p1 == [] {
      assert p1 + p2 == p2 && g1 + g2 == g2;
    } else if p1[0].Digits? || p1[0].Glyph? || p1[0].OptGlyph? {
      ConcatGroupHead(p1, p2, s, i, m, j, g1, g2);
    } else {
      ConcatPlainHead(p1, p2, s, i, m, j, g1, g2);
    }
  }

  /** `EndsConcat` when the first token captures a group. */
  lemma {:induction false} ConcatGroupHead(p1: seq<Token>, p2: seq<Token>, s: string, i: nat, m: nat, j: nat, g1: seq<string>, g2: seq<string>)
    requires Ends(p1, s, i, m, g1) && Ends(p2, s, m, j, g2)
    requires p1 != [] && (p1[0].Digits? || p1[0].Glyph? || p1[0].OptGlyph?)
    ensures Ends(p1 + p2, s, i, j, g1 + g2)
    decreases |p1|, 0
  {
    var p := p1 + p2;
    var g := g1 + g2;
    assert p[0] == p1[0] && p[1..] == p1[1..] + p2;
    assert g[0] == g1[0] && g[1..] == g1[1..] + g2;
    match p1[0]
    case Digits =>
      var k: nat :| i < k <= m && AllIn(s, i, k, DigitClass) && g1[0] == s[i..k] && Ends(p1[1..], s, k, m, g1[1..]);
      EndsConcat(p1[1..], p2, s, k, m, j, g1[1..], g2);
      assert Ends(p[1..], s, k, j, g[1..]);
    case Glyph =>
      EndsConcat(p1[1..], p2, s, i + 1, m, j, g1[1..], g2);
    case OptGlyph =>
      if g1[0] == [] && Ends(p1[1..], s, i, m, g1[1..]) {
        EndsConcat(p1[1..], p2, s, i, m, j, g1[1..], g2);
      } else {
        EndsConcat(p1[1..], p2, s, i + 1, m, j, g1[1..], g2);
      }
  }

  /** `EndsConcat` when the first token captures nothing. */
  lemma {:induction false} ConcatPlainHead(p1: seq<Token>, p2: seq<Token>, s: string, i: nat, m: nat, j: nat, g1: seq<string>, g2: seq<string>)
    requires Ends(p1, s, i, m, g1) && Ends(p2, s, m, j, g2)
    requires p1 != [] && !(p1[0].Digits? || p1[0].Glyph? || p1[0].OptGlyph?)
    ensures Ends(p1 + p2, s, i, j, g1 + g2)
    decreases |p1|, 0
  {
    var p := p1 + p2;
    assert p[0] == p1[0] && p[1..] == p1[1..] + p2;
    match p1[0]
    case Blank =>
      var k: nat :| i <= k <= m && AllIn(s, i, k, SpaceClass) && Ends(p1[1..], s, k, m, g1);
      EndsConcat(p1[1..], p2, s, k, m, j, g1, g2);
      assert Ends(p[1..], s, k, j, g1 + g2);
    case Lit(w) =>
      EndsConcat(p1[1..], p2, s, i + |w|, m, j, g1, g2);
    case Opt(c) =>
      if Ends(p1[1..], s, i, m, g1) {
        EndsConcat(p1[1..], p2, s, i, m, j, g1, g2);
      } else {
        EndsConcat(p1[1..], p2, s, i + 1, m, j, g1, g2);
      }
  }

  /** A match depends only on the characters it consumes: it survives being
      moved to any text holding the same characters at an offset. */
  lemma {:induction false} EndsTransfer(p: seq<Token>, s: string, i: nat, j: nat, g: seq<string>, t: string, o: int)
    requires Ends(p, s, i, j, g)
    requires 0 <= i + o && j + o <= |t|
    requires forall m :: i <= m < j ==> t[m + o] == s[m]
    ensures Ends(p, t, i + o, j + o, g)
    decreases |p|, 1
  {
    if p == [] {
    } else if p[0].Digits? || p[0].Blank? {
      TransferRunHead(p, s, i, j, g, t, o);
    } else {
      match p[0]
      case Lit(w) =>
        EndsTransfer(p[1..], s, i + |w|, j, g, t, o);
        assert t[i + o..i + o + |w|] == s[i..i + |w|];
      case Opt(c) =>
        if Ends(p[1..], s, i, j, g) {
          EndsTransfer(p[1..], s, i, j, g, t, o);
        } else {
          EndsTransfer(p[1..], s, i + 1, j, g, t, o);
        }
      case Glyph =>
        EndsTransfer(p[1..], s, i + 1, j, g[1..], t, o);
      case OptGlyph =>
        if g[0] == [] && Ends(p[1..], s, i, j, g[1..]) {
          EndsTransfer(p[1..], s, i, j, g[1..], t, o);
        } else {
          EndsTransfer(p[1..], s, i + 1, j, g[1..], t, o);
        }
    }
  }

  /** `EndsTransfer` when the pattern starts with `\d+` or `\s*`. */
  lemma {:induction false} TransferRunHead(p: seq<Token>, s: string, i: nat, j: nat, g: seq<string>, t: string, o: int)
    requires Ends(p, s, i, j, g) && p != [] && (p[0].Digits? || p[0].Blank?)
    requires 0 <= i + o && j + o <= |t|
    requires forall m :: i <= m < j ==> t[m + o] == s[m]
    ensures Ends(p, t, i + o, j + o, g)
    decreases |p|, 0
  {
    if p[0].Digits? {
      var k: nat :| i < k <= j && AllIn(s, i, k, DigitClass) && g[0] == s[i..k] && Ends(p[1..], s, k, j, g[1..]);
      EndsTransfer(p[1..], s, k, j, g[1..], t, o);
      assert t[i + o..k + o] == s[i..k];
      assert AllIn(t, i + o, k + o, DigitClass) by {
        forall m | i + o <= m < k + o ensures IsDigit(t[m]) {
          assert t[(m - o) + o] == s[m - o];
        }
      }
    } else {
      var k: nat :| i <= k <= j && AllIn(s, i, k, SpaceClass) && Ends(p[1..], s, k, j, g);
      EndsTransfer(p[1..], s, k, j, g, t, o);
      assert AllIn(t, i + o, k + o, SpaceClass) by {
        forall m | i + o <= m < k + o ensures IsSpace(t[m]) {
          assert t[(m - o) + o] == s[m - o];
        }
      }
    }
  }

  /** Whole-text matches of two patterns join into a whole-text match of the
      joined pattern on the joined text. */
  lemma EndsJoin(p1: seq<Token>, p2: seq<Token>, x: string, y: string, g1: seq<string>, g2: seq<string>)
    requires Ends(p1, x, 0, |x|, g1) && Ends(p2, y, 0, |y|, g2)
    ensures Ends(p1 + p2, x + y, 0, |x + y|, g1 + g2)
  {
    EndsTransfer(p1, x, 0, |x|, g1, x + y, 0);
    EndsTransfer(p2, y, 0, |y|, g2, x + y, |x|);
    EndsConcat(p1, p2, x + y, 0, |x|, |x + y|, g1, g2);
  }

  lemma EndsDigits(s: string, i: nat, d: string)
    requires |d| > 0 && AllDigits(d) && i + |d| <= |s| && s[i..i + |d|] == d
    ensures Ends([Digits], s, i, i + |d|, [d])
  {
    assert AllIn(s, i, i + |d|, DigitClass) by {
      forall m | i <= m < i + |d| ensures IsDigit(s[m]) {
        assert s[m] == d[m - i];
      }
    }
    assert Ends([Digits][1..], s, i + |d|, i + |d|, [d][1..]);
  }

  lemma EndsOneBlank(s: string, i: nat)
    requires i < |s| && IsSpace(s[i])
    ensures Ends([Blank], s, i, i + 1, [])
  {
    assert AllIn(s, i, i + 1, SpaceClass);
    assert Ends([Blank][1..], s, i + 1, i + 1, []);
  }

  lemma EndsWord(s: string, i: nat, w: string)
    requires i + |w| + 1 <= |s| && s[i..i + |w|] == w && s[i + |w|] == 's'
    ensures Ends([Lit(w), Opt('s')], s, i, i + |w| + 1, [])
  {
    var p := [Lit(w), Opt('s')];
    assert p[1..] == [Opt('s')] && p[1..][1..] == [];
    assert Ends([], s, i + |w| + 1, i + |w| + 1, []);
    assert Ends([Opt('s')], s, i + |w|, i + |w| + 1, []);
  }

  lemma EndsGlyph(s: string, i: nat)
    requires i < |s| && IsGlyph(s[i])
    ensures Ends([Glyph], s, i, i + 1, [[s[i]]])
    ensures Ends([OptGlyph], s, i, i + 1, [[s[i]]])
  {
  }
}
