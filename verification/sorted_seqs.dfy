/** Strictly increasing sequences of naturals: what `sort_unstable` followed
    by `dedup` produces, and the range filter applied before it. */
module SortedSeqs {

  /** Sorted without duplicates. */
  ghost predicate StrictlyIncreasing(s: seq<nat>) {
    forall i, j :: 0 <= i < j < |s| ==> s[i] < s[j]
  }

  /** Every element lies in `[lo, hi]`. */
  ghost predicate AllBetween(s: seq<nat>, lo: int, hi: int) {
    forall i :: 0 <= i < |s| ==> lo <= s[i] <= hi
  }

  /** Membership bounds give index bounds. */
  lemma ElementsBetween(s: seq<nat>, lo: int, hi: int)
    requires forall v :: v in s ==> lo <= v <= hi
    ensures AllBetween(s, lo, hi)
  {
    forall i | 0 <= i < |s|
      ensures lo <= s[i] <= hi
    {
      assert s[i] in s;
    }
  }

  /** `into_iter().filter(|v| lo <= v && v <= hi).collect()`: keeps the
      elements in `[lo, hi]`, in their original order. */
  function KeepBetween(s: seq<nat>, lo: int, hi: int): (r: seq<nat>)
    ensures forall v :: v in r <==> v in s && lo <= v <= hi
    ensures |r| <= |s|
  {
    if |s| == 0 then []
    else
      var rest := KeepBetween(s[1..], lo, hi);
      assert forall v :: v in s <==> v == s[0] || v in s[1..];
      if lo <= s[0] <= hi then [s[0]] + rest else rest
  }

  /** Inserts `v` into a sorted duplicate-free sequence, keeping it so. */
  function Insert(s: seq<nat>, v: nat): (r: seq<nat>)
    requires StrictlyIncreasing(s)
    ensures StrictlyIncreasing(r)
    ensures forall x :: x in r <==> x in s || x == v
    ensures |s| > 0 && |r| > 0 ==> r[0] == if v < s[0] then v else s[0]
  {
    if |s| == 0 then [v]
    else if v < s[0] then [v] + s
    else if v == s[0] then s
    else
      var rest := Insert(s[1..], v);
      assert forall x :: x in s <==> x == s[0] || x in s[1..];
      [s[0]] + rest
  }

  /** `sort_unstable(); dedup();`: the sorted, duplicate-free sequence
      holding exactly the elements of `s`. */
  function SortDedup(s: seq<nat>): (r: seq<nat>)
    ensures StrictlyIncreasing(r)
    ensures forall x :: x in r <==> x in s
  {
    if |s| == 0 then []
    else
      assert forall x :: x in s <==> x == s[0] || x in s[1..];
      Insert(SortDedup(s[1..]), s[0])
  }

  /** Filter to `[lo, hi]`, then sort and deduplicate: the normal form of a
      list kind. */
  function Normalise(s: seq<nat>, lo: int, hi: int): (r: seq<nat>)
    ensures StrictlyIncreasing(r) && AllBetween(r, lo, hi)
    ensures forall v :: v in r <==> v in s && lo <= v <= hi
  {
    var kept := SortDedup(KeepBetween(s, lo, hi));
    ElementsBetween(kept, lo, hi);
    kept
  }

  /** A strictly increasing sequence is determined by its elements: this is
      why sorting and deduplicating an already normalised list changes nothing. */
  lemma {:induction false} StrictlyIncreasingUnique(a: seq<nat>, b: seq<nat>)
    requires StrictlyIncreasing(a) && StrictlyIncreasing(b)
    requires forall x :: x in a <==> x in b
    ensures a == b
  {
    if |a| > 0 { assert a[0] in b; }
    if |b| > 0 { assert b[0] in a; }
    if |a| > 0 {
      assert a[0] == b[0] by {
        assert a[0] in b;
        assert b[0] in a;
        var i :| 0 <= i < |b| && b[i] == a[0];
        var j :| 0 <= j < |a| && a[j] == b[0];
        assert b[0] <= b[i];
        assert a[0] <= a[j];
      }
      forall x
        ensures x in a[1..] <==> x in b[1..]
      {
        if x in a[1..] {
          var i :| 1 <= i < |a| && a[i] == x;
          assert x in b && x != b[0];
        }
        if x in b[1..] {
          var i :| 1 <= i < |b| && b[i] == x;
          assert x in a && x != a[0];
        }
      }
      StrictlyIncreasingUnique(a[1..], b[1..]);
      assert a == [a[0]] + a[1..];
      assert b == [b[0]] + b[1..];
    }
  }

  /** Normalising an already normalised list is the identity. */
  lemma NormaliseIdentity(s: seq<nat>, lo: int, hi: int)
    requires StrictlyIncreasing(s) && AllBetween(s, lo, hi)
    ensures Normalise(s, lo, hi) == s
  {
    var r := Normalise(s, lo, hi);
    forall x
      ensures x in r <==> x in s
    {
      if x in s {
        var i :| 0 <= i < |s| && s[i] == x;
      }
    }
    StrictlyIncreasingUnique(r, s);
  }
}
