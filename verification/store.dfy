/** `NotifiedDatabase`: the file of dogs already notified, read into a set
    and written back with the new dogs added.

    The in-memory set is a sequence holding no two equal dogs (equal in the
    sense of `AdoptableDog.__eq__`, so by `Key`), in the order they were
    added; Python's set has no order, and the order the file is written in
    is not modelled.
 */
module Store {
  import opened Text
  import opened Seqs
  import opened Listings

  /** The eight keys of a record in the file: "shelter", "name", "breed",
      "sex", "age", "weight", "image" and "url". */
  datatype Field = Shelter | Name | Breed | Sex | Age | Weight | Image | Url

  /** One JSON object of the file: any keys, each with a text. */
  type Record = map<Field, string>

  /** The file as the loader finds it: absent, not a JSON list of objects,
      or a list of objects. */
  datatype FileState = Missing | Corrupt | Records(records: seq<Record>)

  /** The record written for a dog: all eight fields, the image included. */
  function Encode(d: Dog): (r: Record)
    ensures Decode(r) == Some(d)
  {
    map[Shelter := d.shelter, Name := d.name, Breed := d.breed, Sex := d.sex,
        Age := d.age, Weight := d.weight, Image := d.image, Url := d.url]
  }

  /** The dog rebuilt from a record, or `None` for the `KeyError` of a
      missing key. */
  function Decode(r: Record): Option<Dog> {
    if Shelter in r && Name in r && Breed in r && Sex in r && Age in r && Weight in r && Image in r && Url in r
    then Some(Dog(r[Shelter], r[Name], r[Breed], r[Sex], r[Age], r[Weight], r[Image], r[Url]))
    else None
  }

  function Keys(s: seq<Dog>): set<DogKey> {
    set i | 0 <= i < |s| :: Key(s[i])
  }

  /** No two dogs of `s` are equal. */
  predicate Distinct(s: seq<Dog>) {
    forall i, j :: 0 <= i < j < |s| ==> Key(s[i]) != Key(s[j])
  }

  /** `set.add`: a dog equal to one already there is not added, so the one
      there stays, image and all. */
  function Add(s: seq<Dog>, d: Dog): (r: seq<Dog>)
    ensures Keys(r) == Keys(s) + {Key(d)}
    ensures Distinct(s) ==> Distinct(r)
    ensures |s| <= |r| && r[..|s|] == s
    ensures Key(d) in Keys(s) ==> r == s
    ensures Key(d) !in Keys(s) ==> r == s + [d]
  {
    if Key(d) in Keys(s) then s
    else
      KeysSnoc(s, d);
      s + [d]
  }

  /** Appending a dog adds its key; the sequence stays without two equal
      dogs when the key was new. */
  lemma KeysSnoc(s: seq<Dog>, d: Dog)
    ensures Keys(s + [d]) == Keys(s) + {Key(d)}
    ensures Distinct(s) && Key(d) !in Keys(s) ==> Distinct(s + [d])
  {
    var r := s + [d];
    assert forall i :: 0 <= i < |s| ==> r[i] == s[i] && Key(s[i]) in Keys(s);
    assert r[|s|] == d;
    forall k | k in Keys(r) ensures k in Keys(s) + {Key(d)} {
      var i :| 0 <= i < |r| && k == Key(r[i]);
    }
  }

  /** The keys of a sequence are those of its head and its tail. */
  lemma KeysCons(ds: seq<Dog>)
    requires ds != []
    ensures Keys(ds) == {Key(ds[0])} + Keys(ds[1..])
  {
    assert forall i :: 1 <= i < |ds| ==> ds[1..][i - 1] == ds[i];
    assert forall i :: 0 <= i < |ds[1..]| ==> ds[1..][i] == ds[i + 1];
  }

  /** The loop that adds `ds` one by one. */
  function AddAll(s: seq<Dog>, ds: seq<Dog>): (r: seq<Dog>)
    ensures Keys(r) == Keys(s) + Keys(ds)
    ensures Distinct(s) ==> Distinct(r)
    ensures |s| <= |r| && r[..|s|] == s
    decreases |ds|
  {
    if ds == [] then s
    else
      var t := Add(s, ds[0]);
      var r := AddAll(t, ds[1..]);
      KeysCons(ds);
      assert r[..|s|] == r[..|t|][..|s|];
      r
  }

  lemma KeyIn(s: seq<Dog>, d: Dog)
    requires d in s
    ensures Key(d) in Keys(s)
  {
    var i :| 0 <= i < |s| && s[i] == d;
  }

  /** A dog kept by the loop was already there or is one of those added. */
  lemma {:induction false} AddAllFrom(s: seq<Dog>, ds: seq<Dog>, d: Dog)
    requires d in AddAll(s, ds)
    ensures d in s || d in ds
    decreases |ds|
  {
    if ds != [] {
      AddAllFrom(Add(s, ds[0]), ds[1..], d);
    }
  }

  /** The dogs of every record, or `None` when a record lacks a key. */
  function DecodeAll(rs: seq<Record>): (r: Option<seq<Dog>>)
    ensures r.None? <==> exists i :: 0 <= i < |rs| && Decode(rs[i]).None?
    ensures r.Some? ==> |r.value| == |rs| && forall i :: 0 <= i < |rs| ==> Decode(rs[i]) == Some(r.value[i])
  {
    if rs == [] then Some([])
    else
      var rest := DecodeAll(rs[1..]);
      assert forall i :: 1 <= i < |rs| ==> rs[1..][i - 1] == rs[i];
      match Decode(rs[0])
      case None => None
      case Some(d) => if rest.None? then None else Some([d] + rest.value)
  }

  /** `load_previously_notified_dogs`: the dogs of the file, the first of
      equal dogs kept; any failure, a single record missing a key included,
      gives the empty set. */
  function Load(f: FileState): (r: seq<Dog>)
    ensures Distinct(r)
    ensures f.Missing? || f.Corrupt? ==> r == []
    ensures f.Records? && DecodeAll(f.records).None? ==> r == []
    ensures f.Records? && DecodeAll(f.records).Some? ==> r == AddAll([], DecodeAll(f.records).value)
  {
    match f
    case Missing => []
    case Corrupt => []
    case Records(rs) =>
      match DecodeAll(rs)
      case None => []
      case Some(ds) => AddAll([], ds)
  }

  /** A readable file loads as dogs rebuilt verbatim from its records, with
      every record's dog present up to equality. */
  lemma LoadRebuilds(rs: seq<Record>)
    requires DecodeAll(rs).Some?
    ensures forall i :: 0 <= i < |rs| ==> Key(DecodeAll(rs).value[i]) in Keys(Load(Records(rs)))
    ensures forall d :: d in Load(Records(rs)) ==> exists i :: 0 <= i < |rs| && Decode(rs[i]) == Some(d)
  {
    var ds := DecodeAll(rs).value;
    assert Load(Records(rs)) == AddAll([], ds);
    AddedKeys(ds);
    forall d | d in AddAll([], ds)
      ensures exists i :: 0 <= i < |rs| && Decode(rs[i]) == Some(d)
    {
      AddAllFrom([], ds, d);
      var i :| 0 <= i < |ds| && ds[i] == d;
    }
  }

  lemma AddedKeys(ds: seq<Dog>)
    ensures forall i :: 0 <= i < |ds| ==> Key(ds[i]) in Keys(AddAll([], ds))
  {
    forall i | 0 <= i < |ds|
      ensures Key(ds[i]) in Keys(ds)
    {
      KeyIn(ds, ds[i]);
    }
  }

  /** `register_dogs_as_notified`: the file is loaded again, the new dogs
      are added, and every dog is written back as a record. */
  function Register(f: FileState, news: seq<Dog>): (r: FileState)
    ensures r.Records? && |r.records| == |AddAll(Load(f), news)|
  {
    Records(Map(AddAll(Load(f), news), Encode))
  }

  /** Records written for distinct dogs load back as those dogs. */
  lemma LoadEncoded(s: seq<Dog>)
    requires Distinct(s)
    ensures Load(Records(Map(s, Encode))) == s
  {
    var rs := Map(s, Encode);
    assert DecodeAll(rs).Some? && DecodeAll(rs).value == s;
    AddAllDistinct([], s);
  }

  /** Adding dogs none of which is equal to another or to one present
      appends them all. */
  lemma {:induction false} AddAllDistinct(s: seq<Dog>, ds: seq<Dog>)
    requires Distinct(s + ds)
    ensures AddAll(s, ds) == s + ds
    decreases |ds|
  {
    if ds != [] {
      var t := s + [ds[0]];
      assert Key(ds[0]) !in Keys(s) by {
        assert forall i :: 0 <= i < |s| ==> (s + ds)[i] == s[i];
        assert (s + ds)[|s|] == ds[0];
      }
      assert Add(s, ds[0]) == t;
      assert t + ds[1..] == s + ds;
      AddAllDistinct(t, ds[1..]);
    }
  }

  /** What is loaded after a register is the earlier content with the new
      dogs added. */
  lemma RegisterThenLoad(f: FileState, news: seq<Dog>)
    ensures Load(Register(f, news)) == AddAll(Load(f), news)
  {
    LoadEncoded(AddAll(Load(f), news));
  }

  /** After a register the file holds every dog it held before and every
      new one: a union, with nothing lost. */
  lemma RegisterIsUnion(f: FileState, news: seq<Dog>)
    ensures Keys(Load(Register(f, news))) == Keys(Load(f)) + Keys(news)
  {
    RegisterThenLoad(f, news);
  }

  /** Every dog held before is held after, unchanged and first: a new dog
      equal to one held never replaces it, so the stored image stays. */
  lemma RegisterKeepsEarlier(f: FileState, news: seq<Dog>)
    ensures var after := Load(Register(f, news)); |Load(f)| <= |after| && after[..|Load(f)|] == Load(f)
  {
    RegisterThenLoad(f, news);
  }

  /** When the file cannot be read, registering writes only the new dogs:
      the dogs of the unreadable file are lost. */
  lemma RegisterAfterFailure(f: FileState, news: seq<Dog>)
    requires f.Missing? || f.Corrupt? || (f.Records? && DecodeAll(f.records).None?)
    ensures Load(Register(f, news)) == AddAll([], news)
  {
    RegisterThenLoad(f, news);
  }

  /** Registering dogs already held changes nothing that is loaded. */
  lemma RegisterKnown(f: FileState, news: seq<Dog>)
    requires Keys(news) <= Keys(Load(f))
    ensures Load(Register(f, news)) == Load(f)
  {
    RegisterThenLoad(f, news);
    AddAllKnown(Load(f), news);
  }

  lemma {:induction false} AddAllKnown(s: seq<Dog>, ds: seq<Dog>)
    requires Keys(ds) <= Keys(s)
    ensures AddAll(s, ds) == s
    decreases |ds|
  {
    if ds != [] {
      KeysCons(ds);
      AddAllKnown(s, ds[1..]);
    }
  }
}
