/** The two kinds of listing, `AdoptableDog` and `Job`, with the identity each
    one's `__eq__` and `__hash__` use and the text each one describes itself
    with.
 */
module Listings {
  import opened Text
  import opened Seqs

  // ---------------------------------------------------------------------
  // Dogs

  /** `AdoptableDog`: every field as the extractor stored it. `age` and
      `weight` are texts: a weight is what the quantity parser returned. */
  datatype Dog = Dog(
    shelter: string,
    name: string,
    breed: string,
    sex: string,
    age: string,
    weight: string,
    image: string,
    url: string)

  /** The fields `AdoptableDog.__eq__` compares: all but the image. */
  datatype DogKey = DogKey(
    shelter: string,
    name: string,
    breed: string,
    sex: string,
    age: string,
    weight: string,
    url: string)

  function Key(d: Dog): DogKey {
    DogKey(d.shelter, d.name, d.breed, d.sex, d.age, d.weight, d.url)
  }

  /** The values `__eq__` may be handed: a dog, a job, or anything else. */
  datatype Object = DogObject(dog: Dog) | JobObject(job: Job) | OtherObject

  /** `AdoptableDog.__eq__`. */
  predicate DogEquals(self: Dog, other: Object) {
    other.DogObject? && Key(self) == Key(other.dog)
  }

  /** Two dogs are equal exactly when the seven compared fields agree; the
      image never matters, and no other kind of object is ever equal. */
  lemma DogEqualsIff(self: Dog, other: Object)
    ensures DogEquals(self, other) <==>
              && other.DogObject?
              && self.shelter == other.dog.shelter
              && self.name == other.dog.name
              && self.breed == other.dog.breed
              && self.sex == other.dog.sex
              && self.age == other.dog.age
              && self.weight == other.dog.weight
              && self.url == other.dog.url
    ensures !other.DogObject? ==> !DogEquals(self, other)
    ensures other.DogObject? ==> DogEquals(self, DogObject(other.dog.(image := self.image))) == DogEquals(self, other)
  {
  }

  /** Dog equality is an equivalence relation on dogs. */
  lemma DogEqualsEquivalence(a: Dog, b: Dog, c: Dog)
    ensures DogEquals(a, DogObject(a))
    ensures DogEquals(a, DogObject(b)) <==> DogEquals(b, DogObject(a))
    ensures DogEquals(a, DogObject(b)) && DogEquals(b, DogObject(c)) ==> DogEquals(a, DogObject(c))
  {
  }

  /** `AdoptableDog.__hash__`: Python's tuple hash, `hashOf`, applied to the
      seven compared fields. */
  function DogHash(d: Dog, hashOf: DogKey -> int): int {
    hashOf(Key(d))
  }

  /** Equal dogs hash equal, whatever the tuple hash is. */
  lemma DogHashConsistent(a: Dog, b: Dog, hashOf: DogKey -> int)
    requires DogEquals(a, DogObject(b))
    ensures DogHash(a, hashOf) == DogHash(b, hashOf)
  {
  }

  /** `AdoptableDog.description`: name, sex, age, breed and weight. */
  function DogDescription(d: Dog): (r: string)
    ensures |r| > |d.name| && r[..|d.name|] == d.name
  {
    var r := d.name + ", " + d.sex + ", " + d.age + ", " + d.breed + ", " + d.weight + " pounds.";
    assert r[..|d.name|] == d.name;
    r
  }

  /** The comma-separated parts of a description, when no field holds a comma. */
  function DescriptionParts(d: Dog): seq<string> {
    [d.name, " " + d.sex, " " + d.age, " " + d.breed, " " + d.weight + " pounds."]
  }

  /** Splitting a description at its commas gives back the five fields it
      shows, in the order name, sex, age, breed, weight. */
  lemma DescriptionSplits(d: Dog)
    requires ',' !in d.name && ',' !in d.sex && ',' !in d.age && ',' !in d.breed && ',' !in d.weight
    ensures Split(DogDescription(d), ',') == DescriptionParts(d)
  {
    var xs := DescriptionParts(d);
    assert NoneHolds(xs, ',');
    assert Join(xs[3..], ",") == xs[3] + "," + xs[4];
    assert Join(xs[2..], ",") == xs[2] + "," + Join(xs[3..], ",");
    assert Join(xs[1..], ",") == xs[1] + "," + Join(xs[2..], ",");
    assert DogDescription(d) == Join(xs, ",");
    SplitJoin(xs, ',');
  }

  // ---------------------------------------------------------------------
  // Jobs

  /** `Job`, after its constructor has run. */
  datatype Job = Job(
    company: string,
    title: string,
    url: string,
    reqId: string,
    qualifications: seq<string>)

  /** `Job.__init__`: missing or empty qualifications are stored as `[]`. */
  function NewJob(company: string, title: string, url: string, reqId: string, qualifications: Option<seq<string>>): (j: Job)
    ensures j.company == company && j.title == title && j.url == url && j.reqId == reqId
    ensures qualifications.None? ==> j.qualifications == []
    ensures qualifications.Some? ==> j.qualifications == qualifications.value
  {
    var quals := match qualifications
      case Some(q) => if q == [] then [] else q
      case None => [];
    Job(company, title, url, reqId, quals)
  }

  /** The fields `Job.__eq__` compares. */
  datatype JobKey = JobKey(company: string, reqId: string)

  function JobKeyOf(j: Job): JobKey {
    JobKey(j.company, j.reqId)
  }

  /** `Job.__eq__`. */
  predicate JobEquals(self: Job, other: Object) {
    other.JobObject? && JobKeyOf(self) == JobKeyOf(other.job)
  }

  /** Jobs are equal exactly when company and requisition id agree: a job
      whose title, link or qualifications were edited is still the same job. */
  lemma JobEqualsIff(self: Job, other: Object)
    ensures JobEquals(self, other) <==>
              other.JobObject? && self.company == other.job.company && self.reqId == other.job.reqId
    ensures other.JobObject? ==>
              JobEquals(self, JobObject(other.job.(title := self.title, url := self.url, qualifications := self.qualifications)))
              == JobEquals(self, other)
  {
  }

  lemma JobEqualsEquivalence(a: Job, b: Job, c: Job)
    ensures JobEquals(a, JobObject(a))
    ensures JobEquals(a, JobObject(b)) <==> JobEquals(b, JobObject(a))
    ensures JobEquals(a, JobObject(b)) && JobEquals(b, JobObject(c)) ==> JobEquals(a, JobObject(c))
  {
  }

  /** `Job.__hash__`: the tuple hash of company and requisition id. */
  function JobHash(j: Job, hashOf: JobKey -> int): int {
    hashOf(JobKeyOf(j))
  }

  lemma JobHashConsistent(a: Job, b: Job, hashOf: JobKey -> int)
    requires JobEquals(a, JobObject(b))
    ensures JobHash(a, hashOf) == JobHash(b, hashOf)
  {
  }

  /** The first three lines of a job's description. */
  function JobHeader(j: Job): string {
    j.company + ": " + j.title + "\n Req ID: " + j.reqId + "\n URL: " + j.url
  }

  function Bullet(q: string): string {
    "  - " + q
  }

  /** `Job.description`: the header, then a qualifications section when there
      are qualifications. */
  function JobDescription(j: Job): (r: string)
    ensures |JobHeader(j)| <= |r| && r[..|JobHeader(j)|] == JobHeader(j)
    ensures j.qualifications == [] <==> r == JobHeader(j)
  {
    var h := JobHeader(j);
    if j.qualifications == [] then h
    else
      var r := h + "\n Qualifications:\n" + Join(Map(j.qualifications, Bullet), "\n");
      assert r[..|h|] == h;
      r
  }

  /** The lines of a description: three header lines, then a heading and one
      "  - q" line per qualification, in order, when there are any. */
  function DescriptionLines(j: Job): seq<string> {
    [j.company + ": " + j.title, " Req ID: " + j.reqId, " URL: " + j.url] +
    (if j.qualifications == [] then [] else [" Qualifications:"] + Map(j.qualifications, Bullet))
  }

  predicate SingleLine(s: string) {
    '\n' !in s
  }

  /** Splitting a description at its line breaks gives its lines back, when
      no field or qualification has a line break of its own. */
  lemma JobDescriptionLines(j: Job)
    requires SingleLine(j.company) && SingleLine(j.title) && SingleLine(j.reqId) && SingleLine(j.url)
    requires forall i :: 0 <= i < |j.qualifications| ==> SingleLine(j.qualifications[i])
    ensures Split(JobDescription(j), '\n') == DescriptionLines(j)
  {
    DescriptionJoin(j);
    DescriptionLinesSingle(j);
    SplitJoin(DescriptionLines(j), '\n');
  }

  /** A description is its lines joined with line breaks. */
  lemma DescriptionJoin(j: Job)
    ensures Join(DescriptionLines(j), "\n") == JobDescription(j)
  {
    var head := [j.company + ": " + j.title, " Req ID: " + j.reqId, " URL: " + j.url];
    HeaderJoin(j, head);
    if j.qualifications != [] {
      var tail := [" Qualifications:"] + Map(j.qualifications, Bullet);
      SectionJoin(j.qualifications, tail);
      JoinAppend(head, tail, "\n");
      SectionHeading();
      assert DescriptionLines(j) == head + tail;
    } else {
      assert DescriptionLines(j) == head;
    }
  }

  lemma SectionHeading()
    ensures "\n Qualifications:\n" == "\n" + " Qualifications:" + "\n"
  {
  }

  lemma SectionJoin(qs: seq<string>, tail: seq<string>)
    requires qs != [] && tail == [" Qualifications:"] + Map(qs, Bullet)
    ensures Join(tail, "\n") == " Qualifications:" + "\n" + Join(Map(qs, Bullet), "\n")
  {
    assert tail[1..] == Map(qs, Bullet);
  }

  lemma HeaderJoin(j: Job, head: seq<string>)
    requires head == [j.company + ": " + j.title, " Req ID: " + j.reqId, " URL: " + j.url]
    ensures Join(head, "\n") == JobHeader(j)
  {
    assert Join(head[2..], "\n") == head[2];
    assert Join(head[1..], "\n") == head[1] + "\n" + head[2];
  }

  lemma DescriptionLinesSingle(j: Job)
    requires SingleLine(j.company) && SingleLine(j.title) && SingleLine(j.reqId) && SingleLine(j.url)
    requires forall i :: 0 <= i < |j.qualifications| ==> SingleLine(j.qualifications[i])
    ensures NoneHolds(DescriptionLines(j), '\n')
  {
  }
}
