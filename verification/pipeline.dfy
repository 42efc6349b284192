/** `NotificationGenerator.run`: load the dogs already notified, gather the
    dogs of every shelter, filter them, keep the ones not notified before,
    send a notification for each, and register them.

    The shelters, the filter, the messenger and the file are parameters: a
    shelter is its fetched page (or the failure to fetch it) with its
    extractor, the filter is any function that may raise, and a
    notification reports whether it was delivered, which never stops the
    run.
 */
module Pipeline {
  import opened Text
  import opened Seqs
  import opened Listings
  import opened Store
  import opened Scraper

  /** A shelter as the run sees it: the page fetched, or `None` when the
      fetch failed, and the extractor for its pages. */
  datatype Source = Source(response: Option<string>, extract: string -> seq<Dog>)

  function ScrapeSource(s: Source): seq<Dog> {
    ScrapeDogs(s.response, s.extract)
  }

  predicate Responded(s: Source) {
    s.response.Some?
  }

  /** The dogs of every shelter, shelter by shelter, in order. */
  function Gathered(sources: seq<Source>): (r: seq<Dog>)
    ensures forall i :: 0 <= i < |sources| && Responded(sources[i]) ==>
              forall d :: d in sources[i].extract(sources[i].response.value) ==> d in r
  {
    Flatten(Map(sources, ScrapeSource))
  }

  /** A dog is gathered exactly when some shelter that answered lists it. */
  lemma GatheredIff(sources: seq<Source>, d: Dog)
    ensures d in Gathered(sources) <==>
            exists i :: 0 <= i < |sources| && Responded(sources[i]) && d in sources[i].extract(sources[i].response.value)
  {
    if d in Gathered(sources) {
      FlattenMembers(Map(sources, ScrapeSource), d);
    }
  }

  /** A shelter whose fetch failed adds nothing: the run goes on with the
      others as if it were not there. */
  lemma {:induction false} FailedSourcesSkipped(sources: seq<Source>)
    ensures Gathered(sources) == Gathered(Keep(sources, Responded))
  {
    if sources != [] {
      FailedSourcesSkipped(sources[1..]);
      var tail := Keep(sources[1..], Responded);
      assert Map(sources, ScrapeSource)[1..] == Map(sources[1..], ScrapeSource);
      if Responded(sources[0]) {
        var kept := Keep(sources, Responded);
        assert kept == [sources[0]] + tail;
        assert Map(kept, ScrapeSource)[1..] == Map(tail, ScrapeSource);
      }
    }
  }

  /** The result of a run that did not raise: the dogs found new, whether
      each notification was delivered, and the file written. */
  datatype Outcome = Outcome(newDogs: seq<Dog>, delivered: seq<bool>, file: FileState)

  /** Not among the dogs already notified (`dog not in previously_notified_dogs`). */
  function Unseen(known: set<DogKey>): Dog -> bool {
    (d: Dog) => Key(d) !in known
  }

  /** What a run promises of its outcome `o`, given the dogs that passed
      the filter: the new dogs are those of `adoptable`, in order, that
      were not notified before; each is sent, in order; and the file then
      holds the earlier dogs and the new ones. */
  predicate Promised(file: FileState, adoptable: seq<Dog>, notify: Dog -> bool, o: Outcome) {
    var known := Keys(Load(file));
    && IsSubseq(o.newDogs, adoptable)
    && (forall i :: 0 <= i < |o.newDogs| ==> Key(o.newDogs[i]) !in known)
    && (forall d :: d in adoptable && Key(d) !in known ==> d in o.newDogs)
    && |o.delivered| == |o.newDogs|
    && (forall i :: 0 <= i < |o.newDogs| ==> o.delivered[i] == notify(o.newDogs[i]))
    && Keys(Load(o.file)) == known + Keys(o.newDogs)
  }

  /** The outcome built from the dogs that passed the filter. */
  function Notify(file: FileState, adoptable: seq<Dog>, notify: Dog -> bool): (o: Outcome)
    ensures Promised(file, adoptable, notify, o)
  {
    var newDogs := Keep(adoptable, Unseen(Keys(Load(file))));
    KeepIsSubseq(adoptable, Unseen(Keys(Load(file))));
    RegisterIsUnion(file, newDogs);
    Outcome(newDogs, Map(newDogs, notify), Register(file, newDogs))
  }

  /** One run over the file `file`. An error raised by the filter ends the
      run before anything is sent or written. */
  function Run(file: FileState, sources: seq<Source>, filter: seq<Dog> -> Result<seq<Dog>, string>,
               notify: Dog -> bool): (r: Result<Outcome, string>)
    ensures r.Err? <==> filter(Gathered(sources)).Err?
    ensures r.Ok? ==> Promised(file, filter(Gathered(sources)).value, notify, r.value)
  {
    match filter(Gathered(sources))
    case Err(e) => Err(e)
    case Ok(adoptable) => Ok(Notify(file, adoptable, notify))
  }

  /** Every new dog is registered, whether or not its notification was
      delivered, and the file written does not depend on the messenger. */
  lemma RegisteredWhateverDelivered(file: FileState, sources: seq<Source>, filter: seq<Dog> -> Result<seq<Dog>, string>,
                                    notify: Dog -> bool, other: Dog -> bool)
    requires Run(file, sources, filter, notify).Ok?
    ensures var o := Run(file, sources, filter, notify).value;
            forall i :: 0 <= i < |o.newDogs| ==> Key(o.newDogs[i]) in Keys(Load(o.file))
    ensures Run(file, sources, filter, other).Ok?
    ensures Run(file, sources, filter, notify).value.file == Run(file, sources, filter, other).value.file
  {
    var o := Run(file, sources, filter, notify).value;
    forall i | 0 <= i < |o.newDogs|
      ensures Key(o.newDogs[i]) in Keys(Load(o.file))
    {
      KeyIn(o.newDogs, o.newDogs[i]);
    }
  }

  /** Run again over the file it wrote, with the same shelters and filter,
      the run finds nothing new and sends nothing. */
  lemma SecondRunSendsNothing(file: FileState, sources: seq<Source>, filter: seq<Dog> -> Result<seq<Dog>, string>,
                              notify: Dog -> bool, later: Dog -> bool)
    requires Run(file, sources, filter, notify).Ok?
    ensures var again := Run(Run(file, sources, filter, notify).value.file, sources, filter, later);
            again.Ok? && again.value.newDogs == [] && again.value.delivered == []
  {
    var o := Run(file, sources, filter, notify).value;
    var adoptable := filter(Gathered(sources)).value;
    var known := Keys(Load(o.file));
    forall d | d in adoptable
      ensures !Unseen(known)(d)
    {
      if Key(d) !in Keys(Load(file)) {
        KeyIn(o.newDogs, d);
      }
    }
    KeepNone(adoptable, Unseen(known));
  }

  /** Over two runs in a row, whatever the shelters and filters of each, no
      dog is notified by both. */
  lemma NeverNotifiedTwice(file: FileState,
                           sources1: seq<Source>, filter1: seq<Dog> -> Result<seq<Dog>, string>, notify1: Dog -> bool,
                           sources2: seq<Source>, filter2: seq<Dog> -> Result<seq<Dog>, string>, notify2: Dog -> bool)
    requires Run(file, sources1, filter1, notify1).Ok?
    requires Run(Run(file, sources1, filter1, notify1).value.file, sources2, filter2, notify2).Ok?
    ensures var first := Run(file, sources1, filter1, notify1).value;
            var second := Run(first.file, sources2, filter2, notify2).value;
            forall i, j :: 0 <= i < |first.newDogs| && 0 <= j < |second.newDogs| ==> Key(first.newDogs[i]) != Key(second.newDogs[j])
  {
    var first := Run(file, sources1, filter1, notify1).value;
    forall i | 0 <= i < |first.newDogs|
      ensures Key(first.newDogs[i]) in Keys(Load(first.file))
    {
      KeyIn(first.newDogs, first.newDogs[i]);
    }
  }

  /** A dog listed twice is sent twice, every copy of it, but stored once. */
  lemma DuplicatesSentStoredOnce(file: FileState, sources: seq<Source>, filter: seq<Dog> -> Result<seq<Dog>, string>,
                                 notify: Dog -> bool, d: Dog)
    requires Run(file, sources, filter, notify).Ok?
    requires d in filter(Gathered(sources)).value && Key(d) !in Keys(Load(file))
    ensures var o := Run(file, sources, filter, notify).value;
            && Count(o.newDogs, d) == Count(filter(Gathered(sources)).value, d)
            && Distinct(Load(o.file)) && Key(d) in Keys(Load(o.file))
  {
    var o := Run(file, sources, filter, notify).value;
    KeepCount(filter(Gathered(sources)).value, Unseen(Keys(Load(file))), d);
    KeyIn(o.newDogs, d);
  }

  /** The eligibility filter of the scraper, as the filter of a run. */
  function RulesFilter(rules: DogRules): seq<Dog> -> Result<seq<Dog>, string> {
    (ds: seq<Dog>) => FilterAdoptable(ds, rules)
  }

  /** With the eligibility filter of the scraper, every dog sent is
      eligible, and the run fails exactly when some gathered dog makes the
      filter raise. */
  lemma RunWithRules(file: FileState, sources: seq<Source>, rules: DogRules, notify: Dog -> bool)
    ensures var r := Run(file, sources, RulesFilter(rules), notify);
            && (r.Err? <==> exists i :: 0 <= i < |Gathered(sources)| && CheckDog(Gathered(sources)[i], rules).Err?)
            && (r.Ok? ==> forall i :: 0 <= i < |r.value.newDogs| ==> Eligible(r.value.newDogs[i], rules))
  {
    RulesRunFails(file, sources, rules, notify);
    RulesRunEligible(file, sources, rules, notify);
  }

  lemma RulesRunFails(file: FileState, sources: seq<Source>, rules: DogRules, notify: Dog -> bool)
    ensures Run(file, sources, RulesFilter(rules), notify).Err?
            <==> exists i :: 0 <= i < |Gathered(sources)| && CheckDog(Gathered(sources)[i], rules).Err?
  {
    var g := Gathered(sources);
    assert RulesFilter(rules)(g) == FilterAdoptable(g, rules);
  }

  lemma RulesRunEligible(file: FileState, sources: seq<Source>, rules: DogRules, notify: Dog -> bool)
    ensures var r := Run(file, sources, RulesFilter(rules), notify);
            r.Ok? ==> forall i :: 0 <= i < |r.value.newDogs| ==> Eligible(r.value.newDogs[i], rules)
  {
    var g := Gathered(sources);
    assert RulesFilter(rules)(g) == FilterAdoptable(g, rules);
    var r := Run(file, sources, RulesFilter(rules), notify);
    if r.Ok? {
      var adoptable := FilterAdoptable(g, rules).value;
      assert r.value.newDogs == Keep(adoptable, Unseen(Keys(Load(file))));
      forall i | 0 <= i < |r.value.newDogs|
        ensures Eligible(r.value.newDogs[i], rules)
      {
        var d := r.value.newDogs[i];
        assert d in adoptable;
        assert EligibleUnder(rules)(d);
      }
    }
  }
}
