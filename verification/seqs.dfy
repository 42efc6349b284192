/** Order-preserving selection from a sequence, the shape of every filter in
    the pipeline (`[x for x in xs if p(x)]` and the loops that build one).
 */
module Seqs {

  /** The elements of `xs` that satisfy `p`, in their order. */
  function Keep<T>(xs: seq<T>, p: T -> bool): (r: seq<T>)
    ensures |r| <= |xs|
    ensures forall i :: 0 <= i < |r| ==> p(r[i])
    ensures forall x :: x in r ==> x in xs && p(x)
    ensures forall x :: x in xs && p(x) ==> x in r
  {
    if xs == [] then []
    else if p(xs[0]) then [xs[0]] + Keep(xs[1..], p)
    else Keep(xs[1..], p)
  }

  /** The first element is kept exactly when it satisfies `p`. */
  lemma KeepFirst<T>(xs: seq<T>, p: T -> bool)
    requires xs != []
    ensures Keep(xs, p) == if p(xs[0]) then [xs[0]] + Keep(xs[1..], p) else Keep(xs[1..], p)
  {
  }

  /** `ys` can be obtained from `xs` by deleting elements. */
  predicate IsSubseq<T(==)>(ys: seq<T>, xs: seq<T>)
    decreases |xs|
  {
    if ys == [] then true
    else if xs == [] then false
    else (ys[0] == xs[0] && IsSubseq(ys[1..], xs[1..])) || IsSubseq(ys, xs[1..])
  }

  lemma {:induction false} KeepIsSubseq<T>(xs: seq<T>, p: T -> bool)
    ensures IsSubseq(Keep(xs, p), xs)
  {
    if xs != [] {
      KeepIsSubseq(xs[1..], p);
      if p(xs[0]) {
        assert Keep(xs, p)[1..] == Keep(xs[1..], p);
      }
    }
  }

  /** A selection keeps exactly the elements that satisfy the test. */
  lemma KeepAll<T>(xs: seq<T>, p: T -> bool)
    requires forall x :: x in xs ==> p(x)
    ensures Keep(xs, p) == xs
  {
    if xs != [] {
      KeepAll(xs[1..], p);
      assert [xs[0]] + xs[1..] == xs;
    }
  }

  lemma KeepNone<T>(xs: seq<T>, p: T -> bool)
    requires forall x :: x in xs ==> !p(x)
    ensures Keep(xs, p) == []
  {
  }

  /** Selecting twice with the same test selects nothing more. */
  lemma KeepTwice<T>(xs: seq<T>, p: T -> bool)
    ensures Keep(Keep(xs, p), p) == Keep(xs, p)
  {
    KeepAll(Keep(xs, p), p);
  }

  /** A stricter test selects a subsequence of what a looser one selects. */
  lemma {:induction false} KeepStricter<T>(xs: seq<T>, p: T -> bool, q: T -> bool)
    requires forall x :: x in xs && p(x) ==> q(x)
    ensures IsSubseq(Keep(xs, p), Keep(xs, q))
  {
    if xs != [] {
      KeepStricter(xs[1..], p, q);
      var a, b := Keep(xs[1..], p), Keep(xs[1..], q);
      if p(xs[0]) {
        assert Keep(xs, q) == [xs[0]] + b && Keep(xs, p) == [xs[0]] + a;
        assert Keep(xs, p)[1..] == a && Keep(xs, q)[1..] == b;
      } else if q(xs[0]) {
        assert Keep(xs, q) == [xs[0]] + b && Keep(xs, p) == a;
        assert Keep(xs, q)[1..] == b;
        SubseqSkip(a, b, xs[0]);
      }
    }
  }

  lemma {:induction false} SubseqSkip<T>(ys: seq<T>, xs: seq<T>, x: T)
    requires IsSubseq(ys, xs)
    ensures IsSubseq(ys, [x] + xs)
  {
    assert ([x] + xs)[1..] == xs;
  }

  lemma {:induction false} KeepAppend<T>(xs: seq<T>, ys: seq<T>, p: T -> bool)
    ensures Keep(xs + ys, p) == Keep(xs, p) + Keep(ys, p)
  {
    if xs == [] {
      assert xs + ys == ys;
    } else {
      assert (xs + ys)[0] == xs[0] && (xs + ys)[1..] == xs[1..] + ys;
      KeepAppend(xs[1..], ys, p);
    }
  }

  /** How many elements of `xs` equal `x`. */
  function Count<T(==)>(xs: seq<T>, x: T): nat {
    if xs == [] then 0 else (if xs[0] == x then 1 else 0) + Count(xs[1..], x)
  }

  /** A selection keeps every copy of an element it admits. */
  lemma {:induction false} KeepCount<T>(xs: seq<T>, p: T -> bool, x: T)
    requires p(x)
    ensures Count(Keep(xs, p), x) == Count(xs, x)
  {
    if xs != [] {
      KeepCount(xs[1..], p, x);
      if p(xs[0]) {
        assert Keep(xs, p)[1..] == Keep(xs[1..], p);
      }
    }
  }

  /** The concatenation of a sequence of sequences, in order. */
  function Flatten<T>(xss: seq<seq<T>>): (r: seq<T>)
    ensures forall i, x :: 0 <= i < |xss| && x in xss[i] ==> x in r
  {
    if xss == [] then [] else xss[0] + Flatten(xss[1..])
  }

  lemma {:induction false} FlattenMembers<T>(xss: seq<seq<T>>, x: T)
    requires x in Flatten(xss)
    ensures exists i :: 0 <= i < |xss| && x in xss[i]
  {
    if x !in xss[0] {
      FlattenMembers(xss[1..], x);
      var i :| 0 <= i < |xss[1..]| && x in xss[1..][i];
      assert x in xss[i + 1];
    }
  }

  /** `f` applied to every element, in order. */
  function Map<T, U>(xs: seq<T>, f: T -> U): (r: seq<U>)
    ensures |r| == |xs| && forall i :: 0 <= i < |xs| ==> r[i] == f(xs[i])
  {
    if xs == [] then [] else [f(xs[0])] + Map(xs[1..], f)
  }

  /** Mapping over three elements. */
  lemma MapThree<T, U>(a: T, b: T, c: T, f: T -> U)
    ensures Map([a, b, c], f) == [f(a), f(b), f(c)]
  {
    assert [a, b, c][1..] == [b, c] && [b, c][1..] == [c];
  }

  /** Two singletons joined are the pair. */
  lemma PairConcat<T>(x: T, y: T)
    ensures [x] + [y] == [x, y]
  {
  }

  /** The last element of a concatenation with a non-empty second part. */
  lemma LastOfAppend<T>(x: seq<T>, y: seq<T>)
    requires y != []
    ensures (x + y)[|x + y| - 1] == y[|y| - 1]
  {
  }

  lemma ConcatAssoc<T>(x: seq<T>, y: seq<T>, z: seq<T>)
    ensures x + y + z == x + (y + z)
  {
  }

  /** Dropping a prefix of the first part of a concatenation. */
  lemma DropAppend<T>(x: seq<T>, y: seq<T>, i: nat)
    requires i <= |x|
    ensures (x + y)[i..] == x[i..] + y
  {
  }

  /** Dropping a prefix of the first part of a concatenation. */
  lemma DropJoin<T>(x: seq<T>, y: seq<T>, z: seq<T>, i: nat)
    requires i <= |x|
    ensures (x + y + z)[i..] == x[i..] + y + z
  {
  }

  /** Mapping a function that leaves every element as it is. */
  lemma MapFixed<T>(xs: seq<T>, f: T -> T)
    requires forall i :: 0 <= i < |xs| ==> f(xs[i]) == xs[i]
    ensures Map(xs, f) == xs
  {
  }

  /** `f` applied to the elements of `xs` that satisfy `p`, in their order:
      the loop that skips what fails the test and builds from the rest. */
  function KeepMap<T, U>(xs: seq<T>, p: T -> bool, f: T -> U): (r: seq<U>)
    ensures |r| == |Keep(xs, p)|
  {
    if xs == [] then []
    else if p(xs[0]) then [f(xs[0])] + KeepMap(xs[1..], p, f)
    else KeepMap(xs[1..], p, f)
  }

  /** The `i`-th result is built from the `i`-th element kept. */
  lemma {:induction false} KeepMapAt<T, U>(xs: seq<T>, p: T -> bool, f: T -> U)
    ensures forall i :: 0 <= i < |Keep(xs, p)| ==> KeepMap(xs, p, f)[i] == f(Keep(xs, p)[i])
  {
    if xs != [] {
      KeepMapAt(xs[1..], p, f);
      var r, rest := KeepMap(xs, p, f), KeepMap(xs[1..], p, f);
      var kept, tail := Keep(xs, p), Keep(xs[1..], p);
      if p(xs[0]) {
        assert r == [f(xs[0])] + rest && kept == [xs[0]] + tail;
        forall i | 1 <= i < |kept|
          ensures r[i] == f(kept[i])
        {
          assert r[i] == rest[i - 1] && kept[i] == tail[i - 1];
        }
      }
    }
  }

  /** What every element satisfies, every element kept satisfies. */
  lemma {:induction false} KeepPreserves<T>(xs: seq<T>, p: T -> bool, q: T -> bool)
    requires forall i :: 0 <= i < |xs| ==> q(xs[i])
    ensures forall i :: 0 <= i < |Keep(xs, p)| ==> q(Keep(xs, p)[i])
  {
    if xs != [] {
      KeepPreserves(xs[1..], p, q);
      if p(xs[0]) {
        var kept, tail := Keep(xs, p), Keep(xs[1..], p);
        assert kept == [xs[0]] + tail;
        forall i | 1 <= i < |kept|
          ensures q(kept[i])
        {
          assert kept[i] == tail[i - 1];
        }
      }
    }
  }
}
