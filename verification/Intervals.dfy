/** Ranges of addresses: the addresses that the elements of a list occupy, and how many these are. */
module Intervals {
  import opened Lists

  datatype Range = Range(lo: nat, size: nat)

  predicate Within(x: int, lo: int, hi: int) {
    lo <= x < hi
  }

  /** The addresses from lo up to hi. */
  ghost function Interval(lo: int, hi: int): set<int> {
    set x: int | lo <= x < hi && Within(x, lo, hi)
  }

  lemma {:induction false} IntervalSize(lo: int, hi: int)
    ensures |Interval(lo, hi)| == if lo <= hi then hi - lo else 0
    decreases hi - lo
  {
    if lo < hi {
      IntervalSize(lo, hi - 1);
      assert Interval(lo, hi) == Interval(lo, hi - 1) + {hi - 1};
    } else {
      assert Interval(lo, hi) == {};
    }
  }

  lemma SubsetSize<T>(a: set<T>, b: set<T>)
    requires a <= b
    ensures |a| <= |b|
  {
    assert b == a + (b - a);
  }

  lemma DisjointSize<T>(a: set<T>, b: set<T>)
    requires a !! b
    ensures |a + b| == |a| + |b|
  {}

  /** An interval joined to a set of other addresses. */
  lemma JoinedSize(lo: int, hi: int, rest: set<int>)
    requires lo <= hi && Interval(lo, hi) !! rest
    ensures |Interval(lo, hi) + rest| == hi - lo + |rest|
  {
    IntervalSize(lo, hi);
    DisjointSize(Interval(lo, hi), rest);
  }

  // ---- What the elements of a list occupy -----------------------------------------------------

  function Bytes<T>(s: seq<T>, range: T -> Range): nat {
    if s == [] then 0 else range(s[0]).size + Bytes(s[1..], range)
  }

  ghost function Addresses<T>(s: seq<T>, range: T -> Range): set<int> {
    if s == [] then {}
    else Interval(range(s[0]).lo, range(s[0]).lo + range(s[0]).size) + Addresses(s[1..], range)
  }

  predicate Occupies(r: Range, x: int) {
    r.lo <= x < r.lo + r.size
  }

  /** The ranges have no address in common. */
  predicate Apart(r: Range, q: Range) {
    r.size == 0 || q.size == 0 || r.lo + r.size <= q.lo || q.lo + q.size <= r.lo
  }

  ghost predicate PairwiseApart<T>(s: seq<T>, range: T -> Range) {
    forall i, j :: 0 <= i < j < |s| ==> Apart(range(s[i]), range(s[j]))
  }

  lemma {:induction false} BytesAppend<T>(s: seq<T>, x: T, range: T -> Range)
    ensures Bytes(s + [x], range) == Bytes(s, range) + range(x).size
  {
    if s != [] {
      BytesAppend(s[1..], x, range);
      assert (s + [x])[1..] == s[1..] + [x];
    }
  }

  lemma {:induction false} BytesWithout<T>(s: seq<T>, i: nat, range: T -> Range)
    requires i < |s|
    ensures Bytes(Without(s, i), range) == Bytes(s, range) - range(s[i]).size
  {
    if i == 0 {
      assert Without(s, i) == s[1..];
    } else {
      BytesWithout(s[1..], i - 1, range);
      WithoutTail(s, i);
    }
  }

  lemma {:induction false} BytesSame<T>(s: seq<T>, range: T -> Range, other: T -> Range)
    requires forall i :: 0 <= i < |s| ==> range(s[i]).size == other(s[i]).size
    ensures Bytes(s, range) == Bytes(s, other)
  {
    if s != [] { BytesSame(s[1..], range, other); }
  }

  lemma {:induction false} AddressesHold<T>(s: seq<T>, range: T -> Range, x: int)
    ensures x in Addresses(s, range) <==> exists i :: 0 <= i < |s| && Occupies(range(s[i]), x)
  {
    if s != [] {
      var tail := s[1..];
      AddressesHold(tail, range, x);
      if exists i :: 0 <= i < |s| && Occupies(range(s[i]), x) {
        var i :| 0 <= i < |s| && Occupies(range(s[i]), x);
        if i > 0 { assert tail[i - 1] == s[i]; }
      }
      if exists i :: 0 <= i < |tail| && Occupies(range(tail[i]), x) {
        var i :| 0 <= i < |tail| && Occupies(range(tail[i]), x);
        assert s[i + 1] == tail[i];
      }
    }
  }

  lemma FirstApart<T>(s: seq<T>, range: T -> Range)
    requires s != [] && PairwiseApart(s, range)
    ensures PairwiseApart(s[1..], range)
    ensures Interval(range(s[0]).lo, range(s[0]).lo + range(s[0]).size) !! Addresses(s[1..], range)
  {
    var tail := s[1..];
    forall x | x in Interval(range(s[0]).lo, range(s[0]).lo + range(s[0]).size) ensures x !in Addresses(tail, range) {
      AddressesHold(tail, range, x);
      forall i | 0 <= i < |tail| ensures !Occupies(range(tail[i]), x) {
        assert Apart(range(s[0]), range(s[i + 1]));
      }
    }
    forall i, j | 0 <= i < j < |tail| ensures Apart(range(tail[i]), range(tail[j])) {
      assert Apart(range(s[i + 1]), range(s[j + 1]));
    }
  }

  lemma AddressesStep<T>(s: seq<T>, range: T -> Range)
    requires s != [] && PairwiseApart(s, range)
    ensures |Addresses(s, range)| == range(s[0]).size + |Addresses(s[1..], range)|
  {
    FirstApart(s, range);
    JoinedSize(range(s[0]).lo, range(s[0]).lo + range(s[0]).size, Addresses(s[1..], range));
  }

  /** Ranges that are pairwise apart take as many addresses as their sizes say. */
  lemma {:induction false} AddressesSize<T>(s: seq<T>, range: T -> Range)
    requires PairwiseApart(s, range)
    ensures |Addresses(s, range)| == Bytes(s, range)
  {
    if s != [] {
      FirstApart(s, range);
      AddressesStep(s, range);
      AddressesSize(s[1..], range);
    }
  }

  /** If they also lie between lo and hi, they are no larger together than that. */
  lemma BytesFit<T>(s: seq<T>, range: T -> Range, lo: int, hi: int)
    requires PairwiseApart(s, range) && lo <= hi
    requires forall i :: 0 <= i < |s| && range(s[i]).size > 0 ==>
               lo <= range(s[i]).lo && range(s[i]).lo + range(s[i]).size <= hi
    ensures Bytes(s, range) <= hi - lo
  {
    AddressesSize(s, range);
    forall x | x in Addresses(s, range) ensures x in Interval(lo, hi) { AddressesHold(s, range, x); }
    SubsetSize(Addresses(s, range), Interval(lo, hi));
    IntervalSize(lo, hi);
  }
}
