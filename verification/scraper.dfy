/** The two scrapers' own logic: what a failed fetch yields, the dog
    eligibility filter, the job keyword filter, and text normalisation.
 */
module Scraper {
  import opened Text
  import opened Seqs
  import opened Quantity
  import opened Listings

  // ---------------------------------------------------------------------
  // fetching

  /** The dog scraper for one shelter: `response` is what the HTTP helper
      returned (`None` for any exception or error status) and `extract` is
      the shelter's extractor applied to the page. */
  function ScrapeDogs(response: Option<string>, extract: string -> seq<Dog>): (r: seq<Dog>)
    ensures response.None? ==> r == []
    ensures response.Some? ==> r == extract(response.value)
  {
    match response
    case None => []
    case Some(page) => extract(page)
  }

  /** The job scraper for one company: `probe` is the response to the GET of
      the company's page; only when it succeeded is the company's own scraper
      run, whose outcome (a list or an exception) is `companyJobs`. */
  function ScrapeJobs(probe: Option<string>, companyJobs: Result<seq<Job>, string>): (r: Result<seq<Job>, string>)
    ensures probe.None? ==> r == Ok([])
    ensures probe.Some? ==> r == companyJobs
  {
    if probe.None? then Ok([]) else companyJobs
  }

  /** A failed probe hides whatever the company's scraper would have done,
      including raising. */
  lemma FailedProbeHidesErrors(companyJobs: Result<seq<Job>, string>, other: Result<seq<Job>, string>)
    ensures ScrapeJobs(None, companyJobs) == ScrapeJobs(None, other) == Ok([])
  {
  }

  // ---------------------------------------------------------------------
  // word lists

  /** The loop that sets a flag when any word of `words` occurs in `text`
      and never clears it. */
  function AnyOccurs(words: seq<string>, text: string): bool {
    if words == [] then false
    else Contains(text, words[0]) || AnyOccurs(words[1..], text)
  }

  /** The flag ends up set exactly when some word occurs. */
  lemma {:induction false} AnyOccursIff(words: seq<string>, text: string)
    ensures AnyOccurs(words, text) <==> exists k :: 0 <= k < |words| && Contains(text, words[k])
  {
    if words != [] {
      AnyOccursIff(words[1..], text);
      if exists k :: 0 <= k < |words| && Contains(text, words[k]) {
        var k :| 0 <= k < |words| && Contains(text, words[k]);
        if k > 0 {
          assert words[1..][k - 1] == words[k];
        }
      }
      if AnyOccurs(words[1..], text) {
        var k :| 0 <= k < |words[1..]| && Contains(text, words[1..][k]);
        assert Contains(text, words[k + 1]);
      }
    }
  }

  /** Adding words can only set the flag more often. */
  lemma MoreWordsOccur(words: seq<string>, extra: seq<string>, text: string)
    requires AnyOccurs(words, text)
    ensures AnyOccurs(words + extra, text)
  {
    AnyOccursIff(words, text);
    AnyOccursIff(words + extra, text);
    var k :| 0 <= k < |words| && Contains(text, words[k]);
    assert (words + extra)[k] == words[k];
  }

  // ---------------------------------------------------------------------
  // dogs

  /** The configured limits the dog filter reads: the wanted sex (lower
      case), the heaviest weight and oldest age allowed, and the breed words
      of which one must occur in the lower-cased breed. */
  datatype DogRules = DogRules(sex: string, maxWeight: real, maxAge: real, breeds: seq<string>)

  /** One pass of the filter's loop body: `Ok(true)` keeps the dog, `Ok(false)`
      skips it, and `Err` is the `ValueError` that `float()` raises, which
      ends the whole filter. The tests run in the order the loop makes them,
      so a later test is never reached after an earlier one skips the dog. */
  function CheckDog(d: Dog, rules: DogRules): (r: Result<bool, string>)
    ensures r == Ok(true) ==> Lower(d.sex) == rules.sex
    ensures r.Err? ==> Lower(d.sex) == rules.sex
  {
    if Lower(d.sex) != rules.sex then Ok(false)
    else match DecimalValue(d.weight)
      case None => Err("ValueError")
      case Some(w) =>
        if w > rules.maxWeight then Ok(false)
        else match AsFloat(ParseAge(d.age))
          case None => Err("ValueError")
          case Some(a) =>
            if a > rules.maxAge then Ok(false)
            else Ok(AnyOccurs(rules.breeds, Lower(d.breed)))
  }

  predicate Eligible(d: Dog, rules: DogRules) {
    CheckDog(d, rules) == Ok(true)
  }

  function EligibleUnder(rules: DogRules): Dog -> bool {
    (d: Dog) => Eligible(d, rules)
  }

  /** A dog is kept exactly when all four conditions hold. */
  lemma EligibleIff(d: Dog, rules: DogRules)
    ensures Eligible(d, rules) <==>
              && Lower(d.sex) == rules.sex
              && DecimalValue(d.weight).Some?
              && DecimalValue(d.weight).value <= rules.maxWeight
              && AsFloat(ParseAge(d.age)).Some?
              && AsFloat(ParseAge(d.age)).value <= rules.maxAge
              && exists k :: 0 <= k < |rules.breeds| && Contains(Lower(d.breed), rules.breeds[k])
  {
    AnyOccursIff(rules.breeds, Lower(d.breed));
  }

  /** The filter raises on a dog exactly when the sex matches and the weight
      is not a number, or the weight passes and the age is not a number. */
  lemma RaisesIff(d: Dog, rules: DogRules)
    ensures CheckDog(d, rules).Err? <==>
              && Lower(d.sex) == rules.sex
              && (|| DecimalValue(d.weight).None?
                  || (DecimalValue(d.weight).value <= rules.maxWeight && AsFloat(ParseAge(d.age)).None?))
  {
  }

  /** `filter_adoptable_dogs`: the eligible dogs in their order, or the error
      of the first dog on which `float()` raises. */
  function FilterAdoptable(dogs: seq<Dog>, rules: DogRules): (r: Result<seq<Dog>, string>)
    ensures r.Ok? <==> forall i :: 0 <= i < |dogs| ==> CheckDog(dogs[i], rules).Ok?
    ensures r.Ok? ==> r.value == Keep(dogs, EligibleUnder(rules))
  {
    if dogs == [] then Ok([])
    else match CheckDog(dogs[0], rules)
      case Err(e) => Err(e)
      case Ok(keep) =>
        var rest := FilterAdoptable(dogs[1..], rules);
        ChecksOfRest(dogs, rules);
        match rest
        case Err(e) => Err(e)
        case Ok(tail) =>
          assert EligibleUnder(rules)(dogs[0]) == keep;
          KeepFirst(dogs, EligibleUnder(rules));
          Ok(if keep then [dogs[0]] + tail else tail)
  }

  /** Every check passes exactly when the first one and those of the rest
      pass. */
  lemma ChecksOfRest(dogs: seq<Dog>, rules: DogRules)
    requires dogs != []
    ensures (forall i :: 0 <= i < |dogs| ==> CheckDog(dogs[i], rules).Ok?) <==>
            CheckDog(dogs[0], rules).Ok? && forall i :: 0 <= i < |dogs[1..]| ==> CheckDog(dogs[1..][i], rules).Ok?
  {
    assert forall i :: 1 <= i < |dogs| ==> dogs[1..][i - 1] == dogs[i];
  }

  /** What the filter returns is the input with dogs deleted, each of them
      meeting all four conditions, and every dog meeting them is returned. */
  lemma FilterAdoptableSpec(dogs: seq<Dog>, rules: DogRules)
    requires FilterAdoptable(dogs, rules).Ok?
    ensures IsSubseq(FilterAdoptable(dogs, rules).value, dogs)
    ensures forall d :: d in FilterAdoptable(dogs, rules).value <==> d in dogs && Eligible(d, rules)
  {
    KeepIsSubseq(dogs, EligibleUnder(rules));
  }

  /** A dog that makes `float()` raise makes the whole filter raise. */
  lemma FilterRaises(dogs: seq<Dog>, rules: DogRules, i: nat)
    requires i < |dogs| && CheckDog(dogs[i], rules).Err?
    ensures FilterAdoptable(dogs, rules).Err?
  {
  }

  /** With no breed configured, no dog is ever adoptable. */
  lemma NoBreedsNoDogs(dogs: seq<Dog>, rules: DogRules)
    requires rules.breeds == [] && FilterAdoptable(dogs, rules).Ok?
    ensures FilterAdoptable(dogs, rules).value == []
  {
    forall d | d in dogs
      ensures !EligibleUnder(rules)(d)
    {
      NoBreedIneligible(d, rules);
    }
    KeepNone(dogs, EligibleUnder(rules));
  }

  lemma NoBreedIneligible(d: Dog, rules: DogRules)
    requires rules.breeds == []
    ensures !Eligible(d, rules)
  {
  }

  /** Filtering again changes nothing: the dogs kept pass every test again. */
  lemma FilterAdoptableTwice(dogs: seq<Dog>, rules: DogRules)
    requires FilterAdoptable(dogs, rules).Ok?
    ensures FilterAdoptable(FilterAdoptable(dogs, rules).value, rules) == FilterAdoptable(dogs, rules)
  {
    var kept := FilterAdoptable(dogs, rules).value;
    assert forall i :: 0 <= i < |kept| ==> Eligible(kept[i], rules);
    KeepAll(kept, EligibleUnder(rules));
  }

  /** A weight the extractors stored from a computed number passes `float()`
      and is compared as that number. */
  lemma StoredWeightCompared(d: Dog, q: Quantity, rules: DogRules)
    requires q.Exact? && q.value >= 0.0 && IsWhole(q.value * Scale as real)
    requires d.weight == Show(q)
    ensures DecimalValue(d.weight) == Some(q.value)
    ensures q.value > rules.maxWeight ==> CheckDog(d, rules) == Ok(false)
  {
    ShowReadsBack(q);
  }

  // ---------------------------------------------------------------------
  // jobs

  /** A job is applicable when no blocked word occurs in its lower-cased
      title. */
  function Applicable(blocklist: seq<string>): Job -> bool {
    (j: Job) => !AnyOccurs(blocklist, Lower(j.title))
  }

  lemma ApplicableIff(blocklist: seq<string>)
    ensures forall j :: Applicable(blocklist)(j) <==> forall k :: 0 <= k < |blocklist| ==> !Contains(Lower(j.title), blocklist[k])
  {
    forall j
      ensures Applicable(blocklist)(j) <==> forall k :: 0 <= k < |blocklist| ==> !Contains(Lower(j.title), blocklist[k])
    {
      AnyOccursIff(blocklist, Lower(j.title));
    }
  }

  /** `filter_applicable_jobs`: the applicable jobs, in their order. */
  function FilterJobs(jobs: seq<Job>, blocklist: seq<string>): (r: seq<Job>)
    ensures forall j :: j in r <==> j in jobs && forall k :: 0 <= k < |blocklist| ==> !Contains(Lower(j.title), blocklist[k])
  {
    ApplicableIff(blocklist);
    Keep(jobs, Applicable(blocklist))
  }

  /** The filter only deletes jobs. */
  lemma FilterJobsSubseq(jobs: seq<Job>, blocklist: seq<string>)
    ensures IsSubseq(FilterJobs(jobs, blocklist), jobs)
  {
    KeepIsSubseq(jobs, Applicable(blocklist));
  }

  /** With nothing blocked every job is kept. */
  lemma EmptyBlocklist(jobs: seq<Job>)
    ensures FilterJobs(jobs, []) == jobs
  {
    KeepAll(jobs, Applicable([]));
  }

  /** Filtering twice is filtering once. */
  lemma FilterJobsTwice(jobs: seq<Job>, blocklist: seq<string>)
    ensures FilterJobs(FilterJobs(jobs, blocklist), blocklist) == FilterJobs(jobs, blocklist)
  {
    KeepTwice(jobs, Applicable(blocklist));
  }

  /** Blocking more words keeps a selection of what was kept before. */
  lemma MoreBlockedWords(jobs: seq<Job>, blocklist: seq<string>, extra: seq<string>)
    ensures IsSubseq(FilterJobs(jobs, blocklist + extra), FilterJobs(jobs, blocklist))
  {
    forall j | Applicable(blocklist + extra)(j)
      ensures Applicable(blocklist)(j)
    {
      if AnyOccurs(blocklist, Lower(j.title)) {
        MoreWordsOccur(blocklist, extra, Lower(j.title));
      }
    }
    KeepStricter(jobs, Applicable(blocklist + extra), Applicable(blocklist));
  }

  // ---------------------------------------------------------------------
  // text normalisation

  /** Every blank is a plain space and is not followed by another blank. */
  predicate SingleSpaced(s: string)
    decreases |s|
  {
    || s == []
    || (&& (IsSpace(s[0]) ==> s[0] == ' ' && (|s| == 1 || !IsSpace(s[1])))
        && SingleSpaced(s[1..]))
  }

  predicate NotSpace(c: char) {
    !IsSpace(c)
  }

  /** `re.sub(r"\s+", " ", s)`: each maximal run of blanks becomes one
      space. */
  function Collapse(s: string): (r: string)
    ensures SingleSpaced(r)
    ensures s != [] ==> r != [] && (IsSpace(s[0]) ==> r[0] == ' ') && (!IsSpace(s[0]) ==> r[0] == s[0])
    decreases |s|
  {
    if s == [] then []
    else if IsSpace(s[0]) then
      var e := RunEnd(s, 1, IsSpace);
      " " + Collapse(s[e..])
    else [s[0]] + Collapse(s[1..])
  }

  /** Collapsing keeps every other character, in order. */
  lemma {:induction false} CollapseKeepsWords(s: string)
    ensures Keep(Collapse(s), NotSpace) == Keep(s, NotSpace)
    decreases |s|
  {
    if s != [] {
      if IsSpace(s[0]) {
        var e := RunEnd(s, 1, IsSpace);
        CollapseKeepsWords(s[e..]);
        assert Keep(" " + Collapse(s[e..]), NotSpace) == Keep(Collapse(s[e..]), NotSpace);
        SkipBlanks(s, e);
      } else {
        CollapseKeepsWords(s[1..]);
        assert ([s[0]] + Collapse(s[1..]))[1..] == Collapse(s[1..]);
      }
    }
  }

  /** Leading blanks contribute nothing to the kept characters. */
  lemma {:induction false} SkipBlanks(s: string, e: nat)
    requires e <= |s| && forall k :: 0 <= k < e ==> IsSpace(s[k])
    ensures Keep(s, NotSpace) == Keep(s[e..], NotSpace)
  {
    if e > 0 {
      SkipBlanks(s[1..], e - 1);
      assert s[1..][e - 1..] == s[e..];
    }
  }

  /** The blank run between two words becomes exactly one space: the words
      on either side are never merged. */
  lemma {:induction false} CollapseRun(a: string, ws: string, b: string)
    requires a == [] || !IsSpace(a[|a| - 1])
    requires ws != [] && forall k :: 0 <= k < |ws| ==> IsSpace(ws[k])
    requires b == [] || !IsSpace(b[0])
    ensures Collapse(a + ws + b) == Collapse(a) + " " + Collapse(b)
    decreases |a|, 1
  {
    if a == [] {
      CollapseRunEmpty(a, ws, b);
    } else if IsSpace(a[0]) {
      CollapseRunBlank(a, ws, b);
    } else {
      CollapseRunWord(a, ws, b);
    }
  }

  /** `CollapseRun` when `a` is empty. */
  lemma CollapseRunEmpty(a: string, ws: string, b: string)
    requires a == []
    requires ws != [] && forall k :: 0 <= k < |ws| ==> IsSpace(ws[k])
    requires b == [] || !IsSpace(b[0])
    ensures Collapse(a + ws + b) == Collapse(a) + " " + Collapse(b)
  {
    calc {
      Collapse(a + ws + b);
    == { assert a + ws + b == ws + b; }
      Collapse(ws + b);
    == { LeadingRun(ws, b); }
      " " + Collapse(b);
    == { assert Collapse(a) == []; }
      Collapse(a) + " " + Collapse(b);
    }
  }

  /** A blank run in front of a word collapses to one space. */
  lemma LeadingRun(ws: string, b: string)
    requires ws != [] && forall k :: 0 <= k < |ws| ==> IsSpace(ws[k])
    requires b == [] || !IsSpace(b[0])
    ensures Collapse(ws + b) == " " + Collapse(b)
  {
    var s := ws + b;
    forall k | 0 <= k < |ws| ensures IsSpace(s[k]) {
      assert s[k] == ws[k];
    }
    assert |ws| < |s| ==> s[|ws|] == b[0];
    BlankHead(s, |ws|);
    assert s[|ws|..] == b;
  }

  /** `CollapseRun` when `a` itself starts with blanks. */
  lemma {:induction false} CollapseRunBlank(a: string, ws: string, b: string)
    requires a != [] && IsSpace(a[0]) && !IsSpace(a[|a| - 1])
    requires ws != [] && forall k :: 0 <= k < |ws| ==> IsSpace(ws[k])
    requires b == [] || !IsSpace(b[0])
    ensures Collapse(a + ws + b) == Collapse(a) + " " + Collapse(b)
    decreases |a|, 0
  {
    var e := RunEnd(a, 1, IsSpace);
    var c, d := Collapse(a[e..]), Collapse(b);
    calc {
      Collapse(a + ws + b);
    == { ConcatAssoc(a, ws, b); }
      Collapse(a + (ws + b));
    == { BlankHeadJoin(a, ws + b); }
      " " + Collapse(a[e..] + (ws + b));
    == { ConcatAssoc(a[e..], ws, b); }
      " " + Collapse(a[e..] + ws + b);
    == { CollapseRun(a[e..], ws, b); }
      " " + (c + " " + d);
    == { ConcatAssoc(" ", c + " ", d); ConcatAssoc(" ", c, " "); }
      " " + c + " " + d;
    == { BlankHeadJoin(a, ws + b); }
      Collapse(a) + " " + d;
    }
  }

  /** The leading blank run of `a`, which ends before `a` does, collapses to
      one space whether or not something follows `a`. */
  lemma BlankHeadJoin(a: string, t: string)
    requires a != [] && IsSpace(a[0]) && !IsSpace(a[|a| - 1])
    ensures var e := RunEnd(a, 1, IsSpace);
      e < |a| && Collapse(a) == " " + Collapse(a[e..]) && Collapse(a + t) == " " + Collapse(a[e..] + t)
  {
    var e := RunEnd(a, 1, IsSpace);
    assert e < |a|;
    BlankHead(a, e);
    var s := a + t;
    forall k | 0 <= k <= e ensures s[k] == a[k] {
    }
    BlankHead(s, e);
    DropAppend(a, t, e);
  }

  /** `CollapseRun` when `a` starts with a word character. */
  lemma {:induction false} CollapseRunWord(a: string, ws: string, b: string)
    requires a != [] && !IsSpace(a[0]) && !IsSpace(a[|a| - 1])
    requires ws != [] && forall k :: 0 <= k < |ws| ==> IsSpace(ws[k])
    requires b == [] || !IsSpace(b[0])
    ensures Collapse(a + ws + b) == Collapse(a) + " " + Collapse(b)
    decreases |a|, 0
  {
    var s := a + ws + b;
    var c := Collapse(a[1..]);
    calc {
      Collapse(s);
    == { assert s[0] == a[0]; }
      [a[0]] + Collapse(s[1..]);
    == { DropJoin(a, ws, b, 1); }
      [a[0]] + Collapse(a[1..] + ws + b);
    == { CollapseRun(a[1..], ws, b); }
      [a[0]] + (c + " " + Collapse(b));
    == { ConcatAssoc([a[0]], c + " ", Collapse(b)); ConcatAssoc([a[0]], c, " "); }
      [a[0]] + c + " " + Collapse(b);
    }
  }

  /** A text starting with the blank run `s[..e]` collapses to one space and
      the rest. */
  lemma BlankHead(s: string, e: nat)
    requires 0 < e <= |s| && forall k :: 0 <= k < e ==> IsSpace(s[k])
    requires e == |s| || !IsSpace(s[e])
    ensures Collapse(s) == " " + Collapse(s[e..])
  {
    RunEndUnique(s, 1, e, IsSpace);
  }

  /** The last character of the collapsed text is blank exactly when the
      text ends in a blank. */
  lemma {:induction false} CollapseLast(s: string)
    requires s != []
    ensures var c := Collapse(s); c != [] && (IsSpace(c[|c| - 1]) <==> IsSpace(s[|s| - 1]))
    decreases |s|, 1
  {
    if IsSpace(s[0]) {
      CollapseLastBlank(s);
    } else {
      CollapseLastWord(s);
    }
  }

  lemma {:induction false} CollapseLastBlank(s: string)
    requires s != [] && IsSpace(s[0])
    ensures var c := Collapse(s); c != [] && (IsSpace(c[|c| - 1]) <==> IsSpace(s[|s| - 1]))
    decreases |s|, 0
  {
    var e := RunEnd(s, 1, IsSpace);
    var t := Collapse(s[e..]);
    assert Collapse(s) == " " + t;
    if e < |s| {
      CollapseLast(s[e..]);
      LastOfAppend(" ", t);
      assert s[e..][|s[e..]| - 1] == s[|s| - 1];
    } else {
      assert IsSpace(s[|s| - 1]);
    }
  }

  lemma {:induction false} CollapseLastWord(s: string)
    requires s != [] && !IsSpace(s[0])
    ensures var c := Collapse(s); c != [] && (IsSpace(c[|c| - 1]) <==> IsSpace(s[|s| - 1]))
    decreases |s|, 0
  {
    var t := Collapse(s[1..]);
    assert Collapse(s) == [s[0]] + t;
    if |s| > 1 {
      CollapseLast(s[1..]);
      LastOfAppend([s[0]], t);
      assert s[1..][|s[1..]| - 1] == s[|s| - 1];
    }
  }

  /** A text already single-spaced is left as it is. */
  lemma {:induction false} CollapseFixed(s: string)
    requires SingleSpaced(s)
    ensures Collapse(s) == s
    decreases |s|
  {
    if s != [] {
      assert SingleSpaced(s[1..]) by {
        assert forall i :: 0 <= i < |s[1..]| ==> s[1..][i] == s[i + 1];
      }
      if IsSpace(s[0]) {
        RunEndUnique(s, 1, 1, IsSpace);
        CollapseFixed(s[1..]);
        assert " " + s[1..] == s;
      } else {
        CollapseFixed(s[1..]);
      }
    }
  }

  lemma SingleSpacedSlice(s: string, a: nat, b: nat)
    requires SingleSpaced(s) && a <= b <= |s|
    ensures SingleSpaced(s[a..b])
  {
    SingleSpacedDrop(s, a);
    SingleSpacedTake(s[a..], b - a);
    assert s[a..][..b - a] == s[a..b];
  }

  lemma {:induction false} SingleSpacedDrop(s: string, a: nat)
    requires SingleSpaced(s) && a <= |s|
    ensures SingleSpaced(s[a..])
    decreases a
  {
    if a > 0 {
      SingleSpacedDrop(s[1..], a - 1);
      assert s[1..][a - 1..] == s[a..];
    }
  }

  lemma {:induction false} SingleSpacedTake(s: string, n: nat)
    requires SingleSpaced(s) && n <= |s|
    ensures SingleSpaced(s[..n])
    decreases n
  {
    if n > 0 {
      var t := s[..n];
      SingleSpacedTake(s[1..], n - 1);
      assert t[1..] == s[1..][..n - 1];
      assert t[0] == s[0] && (n > 1 ==> t[1] == s[1]);
    }
  }

  /** Stripping a single-spaced text keeps it single-spaced. */
  lemma StripSingleSpaced(s: string)
    requires SingleSpaced(s)
    ensures SingleSpaced(Strip(s))
  {
    var u := TrimStart(s, IsSpace);
    SingleSpacedSlice(s, |s| - |u|, |s|);
    var v := TrimEnd(u, IsSpace);
    SingleSpacedSlice(u, 0, |v|);
  }

  lemma LowerSingleSpaced(s: string)
    requires SingleSpaced(s) && Unpadded(s)
    ensures SingleSpaced(Lower(s)) && Unpadded(Lower(s))
  {
    LowerAt(s);
    LowerKeepsSingle(s);
  }

  lemma {:induction false} LowerKeepsSingle(s: string)
    requires SingleSpaced(s)
    ensures SingleSpaced(Lower(s))
    decreases |s|
  {
    if s != [] {
      var r := Lower(s);
      LowerKeepsSingle(s[1..]);
      LowerAt(s);
      assert r[1..] == Lower(s[1..]);
    }
  }

  /** `_normalize_text`: an empty or missing text gives the empty text;
      otherwise blanks are collapsed to single spaces, the ends stripped and
      the letters lower-cased. */
  function NormalizeText(t: Option<string>): (r: string)
    ensures t.None? || t.value == [] ==> r == []
    ensures Unpadded(r) && SingleSpaced(r) && IsLowerCase(r)
    ensures t.Some? ==> Keep(r, NotSpace) == Lower(Keep(t.value, NotSpace))
  {
    if t.None? || t.value == [] then ""
    else
      var c := Collapse(t.value);
      StripSingleSpaced(c);
      LowerSingleSpaced(Strip(c));
      LowerIsLowerCase(Strip(c));
      CollapseKeepsWords(t.value);
      StripKeepsWords(c);
      LowerKeepsWords(Strip(c));
      Lower(Strip(c))
  }

  /** Stripping removes only blanks. */
  lemma StripKeepsWords(s: string)
    ensures Keep(Strip(s), NotSpace) == Keep(s, NotSpace)
  {
    var u := TrimStart(s, IsSpace);
    SkipBlanks(s, |s| - |u|);
    var v := TrimEnd(u, IsSpace);
    DropBlanks(u, |v|);
  }

  /** Trailing blanks contribute nothing to the kept characters. */
  lemma {:induction false} DropBlanks(s: string, e: nat)
    requires e <= |s| && forall k :: e <= k < |s| ==> IsSpace(s[k])
    ensures Keep(s, NotSpace) == Keep(s[..e], NotSpace)
  {
    if e < |s| {
      assert s == s[..e] + s[e..];
      KeepAppend(s[..e], s[e..], NotSpace);
      SkipBlanks(s[e..], |s| - e);
      assert s[e..][|s| - e..] == [];
    } else {
      assert s[..e] == s;
    }
  }

  /** Lower-casing commutes with keeping the non-blanks. */
  lemma {:induction false} LowerKeepsWords(s: string)
    ensures Keep(Lower(s), NotSpace) == Lower(Keep(s, NotSpace))
  {
    if s != [] {
      LowerKeepsWords(s[1..]);
      assert Lower(s)[1..] == Lower(s[1..]);
      if NotSpace(s[0]) {
        assert Keep(s, NotSpace) == [s[0]] + Keep(s[1..], NotSpace);
        assert Lower([s[0]] + Keep(s[1..], NotSpace)) == [LowerChar(s[0])] + Lower(Keep(s[1..], NotSpace));
      }
    }
  }

  /** Two words separated by any blank run normalise to their normal forms
      joined by one space. */
  lemma NormalizeRun(a: string, ws: string, b: string)
    requires a != [] && Unpadded(a) && b != [] && Unpadded(b)
    requires ws != [] && forall k :: 0 <= k < |ws| ==> IsSpace(ws[k])
    ensures NormalizeText(Some(a + ws + b)) == NormalizeText(Some(a)) + " " + NormalizeText(Some(b))
  {
    CollapseLast(a);
    CollapseLast(b);
    var ca, cb := Collapse(a), Collapse(b);
    StripNoEdgeSpace(ca);
    StripNoEdgeSpace(cb);
    calc {
      NormalizeText(Some(a + ws + b));
      Lower(Strip(Collapse(a + ws + b)));
    == { CollapseRun(a, ws, b); }
      Lower(Strip(ca + " " + cb));
    == { JoinUnpadded(ca, cb); }
      Lower(ca + " " + cb);
    == { LowerAppend(ca + " ", cb); LowerAppend(ca, " "); }
      Lower(ca) + " " + Lower(cb);
      NormalizeText(Some(a)) + " " + NormalizeText(Some(b));
    }
  }

  /** Two unpadded non-empty texts joined by one space form an unpadded
      text. */
  lemma JoinUnpadded(x: string, y: string)
    requires x != [] && Unpadded(x) && y != [] && Unpadded(y)
    ensures Strip(x + " " + y) == x + " " + y
  {
    var c := x + " " + y;
    assert c[0] == x[0] && c[|c| - 1] == y[|y| - 1];
    StripNoEdgeSpace(c);
  }

  /** Normalising a normalised text changes nothing. */
  lemma NormalizeTwice(t: Option<string>)
    ensures NormalizeText(Some(NormalizeText(t))) == NormalizeText(t)
  {
    NormalizedFixed(NormalizeText(t));
  }

  /** A text that is unpadded, single-spaced and lower-case is its own
      normal form. */
  lemma NormalizedFixed(r: string)
    requires Unpadded(r) && SingleSpaced(r) && IsLowerCase(r)
    ensures NormalizeText(Some(r)) == r
  {
    if r != [] {
      CollapseFixed(r);
      StripNoEdgeSpace(r);
      LowerIsLowerCase(r);
    }
  }
}
