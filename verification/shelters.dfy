/** The two shelter extractors of `animal_shelter.py`, from the point where
    the page has already been taken apart: Helen Woodward lists products with
    labelled details, Rancho Coastal lists articles whose text carries the
    details on the lines after the dog's name.
 */
module Shelters {
  import opened Text
  import opened Seqs
  import opened Quantity
  import opened Listings
  import opened SexField

  const HelenWoodwardName: string := "Helen Woodward Animal Center"
  const HelenWoodwardUrl: string := "https://animalcenter.org/pet-adoption/adoptable-dogs/"
  const RanchoCoastalName: string := "Rancho Coastal Humane Society"
  const RanchoCoastalUrl: string := "https://rchumanesociety.org/dogs-for-adoption/"

  // ---------------------------------------------------------------------
  // Helen Woodward Animal Center

  /** One `li.class-li`: the texts of its heading span and its text span,
      each absent when the span is. */
  datatype Detail = Detail(heading: Option<string>, text: Option<string>)

  /** One `div.product_content`: the text of its `h3.modal-title`, the image
      source found beside it ("" when none), the text of its `h4.span-desc`,
      and its details. */
  datatype Product = Product(title: Option<string>, image: string, breed: Option<string>, details: seq<Detail>)

  /** What the details of one product say. */
  datatype Traits = Traits(sex: string, age: string, weight: string)

  const NoTraits := Traits("", "", "")

  /** The detail has both spans and its heading, stripped and lower-cased,
      holds `word`. */
  predicate Labels(d: Detail, word: string) {
    d.heading.Some? && d.text.Some? && Contains(Lower(Strip(d.heading.value)), word)
  }

  /** The details that set each trait: a heading naming "sex"; one naming
      "age" but not "sex"; one naming "weight" but neither of the others. */
  predicate SetsSex(d: Detail) {
    Labels(d, "sex")
  }

  predicate SetsAge(d: Detail) {
    !Labels(d, "sex") && Labels(d, "age")
  }

  predicate SetsWeight(d: Detail) {
    !Labels(d, "sex") && !Labels(d, "age") && Labels(d, "weight")
  }

  /** The stripped text of a detail ("" when it has no text span). */
  function TextOf(d: Detail): string {
    if d.text.Some? then Strip(d.text.value) else ""
  }

  /** The details read in order into the traits, each later one overriding:
      `isSex`, `isAge` and `isWeight` decide, in that order, which trait a
      detail sets, and a detail none of them holds for is ignored. */
  function Gather(ds: seq<Detail>, sexRule: string -> string,
                  isSex: Detail -> bool, isAge: Detail -> bool, isWeight: Detail -> bool): Traits
  {
    if ds == [] then NoTraits
    else
      var t, d := Gather(ds[..|ds| - 1], sexRule, isSex, isAge, isWeight), ds[|ds| - 1];
      if isSex(d) then t.(sex := sexRule(TextOf(d)))
      else if isAge(d) then t.(age := TextOf(d))
      else if isWeight(d) then t.(weight := Show(ParseWeight(TextOf(d))))
      else t
  }

  /** The details of one product read as the extractor reads them. */
  function ReadDetails(ds: seq<Detail>, sexRule: string -> string): Traits {
    Gather(ds, sexRule, SetsSex, SetsAge, SetsWeight)
  }

  /** The position of the last detail that satisfies `p`. */
  function Last(ds: seq<Detail>, p: Detail -> bool): (r: Option<nat>)
    ensures r.Some? ==> r.value < |ds| && p(ds[r.value])
    ensures r.Some? ==> forall j :: r.value < j < |ds| ==> !p(ds[j])
    ensures r.None? ==> forall j :: 0 <= j < |ds| ==> !p(ds[j])
  {
    if ds == [] then None
    else if p(ds[|ds| - 1]) then Some(|ds| - 1)
    else Last(ds[..|ds| - 1], p)
  }

  /** The stripped text of the detail at `k`, when there is one. */
  function TextAt(ds: seq<Detail>, k: Option<nat>): Option<string> {
    if k.Some? && k.value < |ds| then Some(TextOf(ds[k.value])) else None
  }

  /** When the last detail does not satisfy `p`, the last one that does is
      found among the others, with the same text. */
  lemma LastOfInit(ds: seq<Detail>, p: Detail -> bool)
    requires ds != []
    ensures !p(ds[|ds| - 1]) ==> TextAt(ds, Last(ds, p)) == TextAt(ds[..|ds| - 1], Last(ds[..|ds| - 1], p))
  {
  }

  /** The sex comes from the last detail that sets it, through the rule, and
      is "" when there is none. */
  lemma {:induction false} GatherSex(ds: seq<Detail>, sexRule: string -> string,
                                     isSex: Detail -> bool, isAge: Detail -> bool, isWeight: Detail -> bool)
    ensures Gather(ds, sexRule, isSex, isAge, isWeight).sex
            == (match TextAt(ds, Last(ds, isSex)) case Some(x) => sexRule(x) case None => "")
  {
    if ds != [] {
      GatherSex(ds[..|ds| - 1], sexRule, isSex, isAge, isWeight);
      LastOfInit(ds, isSex);
    }
  }

  /** The age is the text of the last detail that sets it, and "" when there
      is none, provided no detail that sets the sex sets the age. */
  lemma {:induction false} GatherAge(ds: seq<Detail>, sexRule: string -> string,
                                     isSex: Detail -> bool, isAge: Detail -> bool, isWeight: Detail -> bool)
    requires forall d :: isAge(d) ==> !isSex(d)
    ensures Gather(ds, sexRule, isSex, isAge, isWeight).age
            == (match TextAt(ds, Last(ds, isAge)) case Some(x) => x case None => "")
  {
    if ds != [] {
      GatherAge(ds[..|ds| - 1], sexRule, isSex, isAge, isWeight);
      LastOfInit(ds, isAge);
    }
  }

  /** The weight is the parsed text of the last detail that sets it, and ""
      when there is none, provided a detail that sets the weight sets
      neither of the others. */
  lemma {:induction false} GatherWeight(ds: seq<Detail>, sexRule: string -> string,
                                        isSex: Detail -> bool, isAge: Detail -> bool, isWeight: Detail -> bool)
    requires forall d :: isWeight(d) ==> !isSex(d) && !isAge(d)
    ensures Gather(ds, sexRule, isSex, isAge, isWeight).weight
            == (match TextAt(ds, Last(ds, isWeight)) case Some(x) => Show(ParseWeight(x)) case None => "")
  {
    if ds != [] {
      GatherWeight(ds[..|ds| - 1], sexRule, isSex, isAge, isWeight);
      LastOfInit(ds, isWeight);
    }
  }

  /** A product is listed when it has a title and a breed that is not blank. */
  predicate Listed(p: Product) {
    p.title.Some? && p.breed.Some? && Strip(p.breed.value) != ""
  }

  /** The dog a product describes; a listed product has the title and the
      breed read here. */
  function ProductDog(p: Product, sexRule: string -> string): (d: Dog)
    ensures d.shelter == HelenWoodwardName && d.url == HelenWoodwardUrl && d.image == p.image
    ensures Listed(p) ==> d.name == Strip(p.title.value) && d.breed == Strip(p.breed.value) && d.breed != ""
    ensures d.sex == (match TextAt(p.details, Last(p.details, SetsSex)) case Some(x) => sexRule(x) case None => "")
    ensures d.age == (match TextAt(p.details, Last(p.details, SetsAge)) case Some(x) => x case None => "")
    ensures d.weight == (match TextAt(p.details, Last(p.details, SetsWeight)) case Some(x) => Show(ParseWeight(x)) case None => "")
  {
    var t := ReadDetails(p.details, sexRule);
    GatherSex(p.details, sexRule, SetsSex, SetsAge, SetsWeight);
    GatherAge(p.details, sexRule, SetsSex, SetsAge, SetsWeight);
    GatherWeight(p.details, sexRule, SetsSex, SetsAge, SetsWeight);
    var name := if p.title.Some? then Strip(p.title.value) else "";
    var breed := if p.breed.Some? then Strip(p.breed.value) else "";
    Dog(HelenWoodwardName, name, breed, t.sex, t.age, t.weight, p.image, HelenWoodwardUrl)
  }

  /** `HelenWoodwardAnimalCenter.scrape_dogs`, with the rule for the sex as a
      parameter: the loop over the products skips those without a title or
      a breed and builds one dog from each of the others, so the dogs are
      the listed products' dogs, one each, in page order. */
  function HelenWoodwardWith(ps: seq<Product>, sexRule: string -> string): (r: seq<Dog>)
    ensures |r| == |Keep(ps, Listed)|
    ensures forall i :: 0 <= i < |r| ==> r[i] == ProductDog(Keep(ps, Listed)[i], sexRule)
  {
    KeepMapAt(ps, Listed, p => ProductDog(p, sexRule));
    KeepMap(ps, Listed, p => ProductDog(p, sexRule))
  }

  /** The extractor as it is written. */
  function HelenWoodwardAsWritten(ps: seq<Product>): seq<Dog> {
    HelenWoodwardWith(ps, SexAsWritten)
  }

  /** The extractor with the suffix removal it evidently intends. */
  function HelenWoodward(ps: seq<Product>): seq<Dog> {
    HelenWoodwardWith(ps, SexCorrected)
  }

  // ---------------------------------------------------------------------
  // Rancho Coastal Humane Society

  /** One `article.post`: the text of the link in its `h2.entry-title` (absent
      when the heading or the link is), the image source of its thumbnail
      ("" when none), and the text of its `div.entry-content` when present. */
  datatype Article = Article(title: Option<string>, image: string, content: Option<string>)

  datatype Fields = Fields(breed: string, sex: string, age: string, weight: string)

  const NoFields := Fields("", "", "", "")

  predicate NonBlank(s: string) {
    s != []
  }

  /** The stripped, non-blank lines of a text, in order. */
  function ContentLines(content: string): (r: seq<string>)
    ensures forall i :: 0 <= i < |r| ==> NonBlank(r[i]) && Unpadded(r[i])
  {
    var lines := Map(Split(content, '\n'), Strip);
    KeepPreserves(lines, NonBlank, Unpadded);
    Keep(lines, NonBlank)
  }

  /** Lines that are already stripped and not blank come back out of the
      text they are joined into. */
  lemma ContentLinesOfJoin(ls: seq<string>)
    requires ls != [] && NoneHolds(ls, '\n')
    requires forall i :: 0 <= i < |ls| ==> NonBlank(ls[i]) && Unpadded(ls[i])
    ensures ContentLines(Join(ls, "\n")) == ls
  {
    SplitJoin(ls, '\n');
    StripEach(ls);
    KeepAll(ls, NonBlank);
  }

  lemma StripEach(ls: seq<string>)
    requires forall i :: 0 <= i < |ls| ==> Unpadded(ls[i])
    ensures Map(ls, Strip) == ls
  {
    var lines := Map(ls, Strip);
    forall i | 0 <= i < |ls|
      ensures lines[i] == ls[i]
    {
      StripNoEdgeSpace(ls[i]);
    }
  }

  predicate Mentions(line: string, name: string) {
    Contains(Lower(line), Lower(name))
  }

  /** The first line that mentions the name, ignoring case. */
  function FirstMention(lines: seq<string>, name: string): (r: Option<nat>)
    ensures r.None? ==> forall i :: 0 <= i < |lines| ==> !Mentions(lines[i], name)
    ensures r.Some? ==> r.value < |lines| && Mentions(lines[r.value], name)
    ensures r.Some? ==> forall i :: 0 <= i < r.value ==> !Mentions(lines[i], name)
  {
    if lines == [] then None
    else if Mentions(lines[0], name) then Some(0)
    else match FirstMention(lines[1..], name)
      case None => None
      case Some(i) => Some(i + 1)
  }

  /** The line at `k`, or "" past the end. */
  function LineAt(lines: seq<string>, k: nat): string {
    if k < |lines| then lines[k] else ""
  }

  /** The parsed weight on the line at `k`, or "" past the end. */
  function WeightLine(lines: seq<string>, k: nat): string {
    if k < |lines| then Show(ParseWeight(lines[k])) else ""
  }

  /** The four lines after the first mention of the name are breed, sex,
      age and weight; the weight goes through the weight parser. */
  function Window(lines: seq<string>, name: string): (f: Fields)
    ensures match FirstMention(lines, name)
            case None => f == NoFields
            case Some(i) => f == Fields(LineAt(lines, i + 1), LineAt(lines, i + 2), LineAt(lines, i + 3), WeightLine(lines, i + 4))
  {
    match FirstMention(lines, name)
    case None => NoFields
    case Some(i) => Fields(LineAt(lines, i + 1), LineAt(lines, i + 2), LineAt(lines, i + 3), WeightLine(lines, i + 4))
  }

  /** In a text whose first mention of the name is followed by four more
      lines, those lines are the breed, the sex, the age and the weight. */
  lemma WindowAfterName(before: seq<string>, line: string, after: seq<string>, name: string)
    requires forall k :: 0 <= k < |before| ==> !Mentions(before[k], name)
    requires Mentions(line, name) && |after| >= 4
    ensures Window(before + [line] + after, name)
            == Fields(after[0], after[1], after[2], Show(ParseWeight(after[3])))
  {
    var lines := before + [line] + after;
    assert lines[|before|] == line;
    assert forall k :: 0 <= k < |before| ==> lines[k] == before[k];
    assert FirstMention(lines, name) == Some(|before|);
    assert forall k :: 0 <= k < 4 ==> lines[|before| + 1 + k] == after[k];
  }

  predicate Named(a: Article) {
    a.title.Some?
  }

  /** The stripped name of a named article ("" for one without). */
  function TitleOf(a: Article): string {
    if a.title.Some? then Strip(a.title.value) else ""
  }

  /** A shelter's name and page, as the dogs it lists carry them. */
  datatype Site = Site(name: string, url: string)

  const RanchoCoastalSite := Site(RanchoCoastalName, RanchoCoastalUrl)

  function ArticleDog(site: Site, name: string, image: string, f: Fields): Dog {
    Dog(site.name, name, f.breed, f.sex, f.age, f.weight, image, site.url)
  }

  /** What an article's own text says about the dog it names: the window
      after the first line that mentions the name, and nothing when the
      article has no text. */
  function ArticleFields(a: Article): (f: Fields)
    ensures a.content.None? ==> f == NoFields
    ensures a.content.Some? ==> f == Window(ContentLines(a.content.value), TitleOf(a))
  {
    match a.content
    case Some(c) => Window(ContentLines(c), TitleOf(a))
    case None => NoFields
  }

  /** The dog an article describes, with the fields of its own text. */
  function NamedDog(a: Article): (d: Dog)
    ensures d.shelter == RanchoCoastalName && d.url == RanchoCoastalUrl
    ensures d.name == TitleOf(a) && d.image == a.image
    ensures Fields(d.breed, d.sex, d.age, d.weight) == ArticleFields(a)
  {
    ArticleDog(RanchoCoastalSite, TitleOf(a), a.image, ArticleFields(a))
  }

  /** `RanchoCoastalHumaneSociety.scrape_dogs` as evidently intended: the
      loop over the articles skips those without a linked title and builds
      one dog from each of the others, with the fields its own text gives
      ("" for an article without text). */
  function RanchoCoastal(articles: seq<Article>): (r: seq<Dog>)
    ensures |r| == |Keep(articles, Named)|
    ensures forall i :: 0 <= i < |r| ==> r[i] == NamedDog(Keep(articles, Named)[i])
  {
    KeepMapAt(articles, Named, NamedDog);
    KeepMap(articles, Named, NamedDog)
  }

  /** The extractor as written, with `own` giving the fields an article's
      text yields: the four fields are only assigned when the article has a
      text, so an article without one reuses the fields last assigned
      (`carry`), or raises `UnboundLocalError` when no article before it had
      a text. */
  function AsWrittenScan(articles: seq<Article>, carry: Option<Fields>, own: Article -> Fields, site: Site): Result<seq<Dog>, string> {
    if articles == [] then Ok([])
    else
      var a := articles[0];
      if !Named(a) then AsWrittenScan(articles[1..], carry, own, site)
      else
        var fields := if a.content.Some? then Some(own(a)) else carry;
        match fields
        case None => Err("UnboundLocalError")
        case Some(f) =>
          match AsWrittenScan(articles[1..], fields, own, site)
          case Err(e) => Err(e)
          case Ok(ds) => Ok([ArticleDog(site, TitleOf(a), a.image, f)] + ds)
  }

  function RanchoCoastalAsWritten(articles: seq<Article>): Result<seq<Dog>, string> {
    AsWrittenScan(articles, None, ArticleFields, RanchoCoastalSite)
  }

  /** When every named article has a text, the code as written and the
      corrected extractor agree. */
  lemma {:induction false} RanchoAgreesWithText(articles: seq<Article>, carry: Option<Fields>)
    requires forall i :: 0 <= i < |articles| && Named(articles[i]) ==> articles[i].content.Some?
    ensures AsWrittenScan(articles, carry, ArticleFields, RanchoCoastalSite) == Ok(RanchoCoastal(articles))
  {
    if articles != [] {
      var a := articles[0];
      RanchoAgreesWithText(articles[1..], if Named(a) then Some(ArticleFields(a)) else carry);
      if Named(a) {
        assert KeepMap(articles, Named, NamedDog) == [NamedDog(a)] + KeepMap(articles[1..], Named, NamedDog);
      }
    }
  }

  /** A named article without text, with no text before it, makes the
      extractor raise. */
  lemma RanchoUnboundField(a: Article, rest: seq<Article>)
    requires Named(a) && a.content.None?
    ensures RanchoCoastalAsWritten([a] + rest).Err?
  {
    assert ([a] + rest)[0] == a;
  }

  /** An article without text takes all four fields of the article before
      it: the second dog is stored with the first dog's breed, sex, age and
      weight, where its own page gives none. */
  lemma RanchoStaleField(first: Article, second: Article)
    requires Named(first) && first.content.Some? && Named(second) && second.content.None?
    ensures RanchoCoastalAsWritten([first, second])
            == Ok([NamedDog(first), ArticleDog(RanchoCoastalSite, TitleOf(second), second.image, ArticleFields(first))])
  {
    var d1 := ArticleDog(RanchoCoastalSite, TitleOf(first), first.image, ArticleFields(first));
    var d2 := ArticleDog(RanchoCoastalSite, TitleOf(second), second.image, ArticleFields(first));
    assert RanchoCoastalAsWritten([first, second]) == Ok([d1] + [d2]) by {
      ScanStale(first, second, ArticleFields, RanchoCoastalSite);
    }
    assert NamedDog(first) == d1;
    PairConcat(d1, d2);
  }

  lemma ScanStale(first: Article, second: Article, own: Article -> Fields, site: Site)
    requires Named(first) && first.content.Some? && Named(second) && second.content.None?
    ensures AsWrittenScan([first, second], None, own, site)
            == Ok([ArticleDog(site, TitleOf(first), first.image, own(first))] + [ArticleDog(site, TitleOf(second), second.image, own(first))])
  {
    var s := [first, second];
    assert s[0] == first;
    assert s[1..] == [second];
    ScanCarried(second, own(first), own, site);
  }

  /** A last article without text takes the carried fields. */
  lemma ScanCarried(a: Article, f: Fields, own: Article -> Fields, site: Site)
    requires Named(a) && a.content.None?
    ensures AsWrittenScan([a], Some(f), own, site) == Ok([ArticleDog(site, TitleOf(a), a.image, f)])
  {
    var s := [a];
    assert s[0] == a;
    assert s[1..] == [];
    assert AsWrittenScan(s[1..], Some(f), own, site) == Ok([]);
    var d := ArticleDog(site, TitleOf(a), a.image, f);
    assert [d] + [] == [d];
  }

  /** The corrected extractor leaves the fields of an article without text
      empty. */
  lemma RanchoNoStaleField(first: Article, second: Article)
    requires Named(first) && Named(second) && second.content.None?
    ensures RanchoCoastal([first, second]) == [NamedDog(first), ArticleDog(RanchoCoastalSite, TitleOf(second), second.image, NoFields)]
  {
    var s := [first, second];
    assert s[1..] == [second] && [second][1..] == [];
    assert Keep(s, Named) == s;
  }
}
