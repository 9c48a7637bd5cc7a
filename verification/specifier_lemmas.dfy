/** What `cyclic_next`, `first_match` and `new` promise, stated against
    `matches` alone. */
module SpecifierLemmas {
  import opened Wrappers
  import opened SortedSeqs
  import opened Arith
  import opened Specifiers

  /** Some coordinate is selected. */
  ghost predicate HasMatch(s: Specifier) {
    exists y: nat :: Matches(s, y)
  }

  /** Some coordinate above `x` is selected. */
  ghost predicate HasMatchAfter(s: Specifier, x: nat) {
    exists y: nat :: x < y && Matches(s, y)
  }

  /** `v` is the smallest selected coordinate. */
  ghost predicate IsLeastMatch(s: Specifier, v: nat) {
    Matches(s, v) && forall y: nat :: y < v ==> !Matches(s, y)
  }

  /** `v` is the smallest selected coordinate above `x`. */
  ghost predicate IsNextMatchAfter(s: Specifier, x: nat, v: nat) {
    x < v && Matches(s, v) && forall y: nat :: x < y < v ==> !Matches(s, y)
  }

  /** `v` follows `x` when the selected coordinates are read as a cycle:
      the next one above `x`, or else the smallest. */
  ghost predicate IsCyclicSuccessor(s: Specifier, x: nat, v: nat) {
    if HasMatchAfter(s, x) then IsNextMatchAfter(s, x, v) else IsLeastMatch(s, v)
  }

  lemma SuccessorAbove(s: Specifier, x: nat, v: nat)
    requires IsNextMatchAfter(s, x, v)
    ensures IsCyclicSuccessor(s, x, v) && HasMatch(s)
  {
    assert HasMatchAfter(s, x);
  }

  lemma SuccessorWrapped(s: Specifier, x: nat, v: nat)
    requires IsLeastMatch(s, v)
    requires forall y: nat :: x < y ==> !Matches(s, y)
    ensures IsCyclicSuccessor(s, x, v) && HasMatch(s)
  {
  }

  /** The cyclic successor is found above `x` if possible, else wrapping. */
  lemma SuccessorByCases(s: Specifier, x: nat, v: nat)
    requires x < v ==> IsNextMatchAfter(s, x, v)
    requires v <= x ==> IsLeastMatch(s, v) && forall y: nat :: x < y ==> !Matches(s, y)
    ensures IsCyclicSuccessor(s, x, v) && HasMatch(s)
  {
    if x < v { SuccessorAbove(s, x, v); } else { SuccessorWrapped(s, x, v); }
  }

  /** The two readings of a cyclic successor, separated by whether it lies
      above `x`. */
  lemma SuccessorFacts(s: Specifier, x: nat, v: nat)
    requires IsCyclicSuccessor(s, x, v)
    ensures x < v ==> IsNextMatchAfter(s, x, v)
    ensures v <= x ==> IsLeastMatch(s, v) && forall y: nat :: x < y ==> !Matches(s, y)
  {
  }

  lemma CyclicNextAll(s: Specifier, x: nat)
    requires Valid(s) && s.kind.All? && IsInRange(s, x)
    ensures CyclicNext(s, x).Some? && IsCyclicSuccessor(s, x, CyclicNext(s, x).value)
  {
    var v := CyclicNext(s, x).value;
    if x < s.max {
      DivModUnique(x - s.min + 1, RangeLen(s), 0, x - s.min + 1);
      SuccessorAbove(s, x, v);
    } else {
      DivModUnique(x - s.min + 1, RangeLen(s), 1, 0);
      SuccessorWrapped(s, x, v);
    }
  }

  lemma CyclicNextExplicitNths(s: Specifier, x: nat)
    requires Valid(s) && s.kind.ExplicitNths? && IsInRange(s, x)
    ensures CyclicNext(s, x).Some? <==> HasMatch(s)
    ensures CyclicNext(s, x).Some? ==> IsCyclicSuccessor(s, x, CyclicNext(s, x).value)
  {
    var indices := s.kind.indices;
    if |indices| == 0 {
      assert !HasMatch(s);
    } else {
      var r := FirstAbove(indices, s.min, x);
      var v := CyclicNext(s, x).value;
      assert indices[0] in indices;
      if r.Some? {
        var k :| 0 <= k < |indices| && r.value == s.min + indices[k] && r.value > x
                 && forall j :: 0 <= j < k ==> s.min + indices[j] <= x;
        assert v == s.min + indices[k];
        assert indices[k] in indices;
        SuccessorAbove(s, x, v);
      } else {
        SuccessorWrapped(s, x, v);
      }
    }
  }

  lemma CyclicNextEveryNth(s: Specifier, x: nat)
    requires Valid(s) && s.kind.EveryNth? && IsInRange(s, x)
    ensures CyclicNext(s, x).Some? <==> HasMatch(s)
    ensures CyclicNext(s, x).Some? ==> IsCyclicSuccessor(s, x, CyclicNext(s, x).value)
  {
    var n, mo := s.kind.step, s.min + s.kind.offset;
    if mo > s.max {
      assert !HasMatch(s);
    } else if n == 0 {
      var v := CyclicNext(s, x).value;
      SuccessorByCases(s, x, v);
    } else if x < mo {
      DivModUnique(0, n, 0, 0);
      SuccessorAbove(s, x, mo);
    } else {
      var d := x - mo;
      var c := mo + (d / n + 1) * n;
      NextMultiple(d, n);
      DivModUnique(0, n, 0, 0);
      forall y: nat | x < y < c ensures !Matches(s, y) {
        assert d < y - mo < (d / n + 1) * n;
      }
      if c <= s.max {
        SuccessorAbove(s, x, c);
      } else {
        SuccessorWrapped(s, x, mo);
      }
    }
  }

  lemma CyclicNextExplicitList(s: Specifier, x: nat)
    requires Valid(s) && s.kind.ExplicitList? && IsInRange(s, x)
    ensures CyclicNext(s, x).Some? <==> HasMatch(s)
    ensures CyclicNext(s, x).Some? ==> IsCyclicSuccessor(s, x, CyclicNext(s, x).value)
  {
    var values := s.kind.values;
    if |values| == 0 {
      assert !HasMatch(s);
    } else {
      var t := match BinarySearch(values, x)
        case Found(i) => i + 1
        case NotFound(i) => i;
      assert t <= |values|;
      assert forall k :: 0 <= k < t ==> values[k] <= x;
      assert forall k :: t <= k < |values| ==> values[k] > x;
      var v := CyclicNext(s, x).value;
      if t < |values| {
        assert v == values[t];
        forall y: nat | x < y < v ensures !Matches(s, y) {
          if Matches(s, y) {
            var j :| 0 <= j < |values| && values[j] == y;
          }
        }
        SuccessorAbove(s, x, v);
      } else {
        assert v == values[0];
        SuccessorWrapped(s, x, v);
      }
    }
  }

  /** `cyclic_next(x)` is defined exactly when `x` is in range and the rule
      selects something; it is then the next selected coordinate above `x`,
      wrapping round to the smallest one. */
  lemma CyclicNextSpec(s: Specifier, x: nat)
    requires Valid(s)
    ensures CyclicNext(s, x).Some? <==> IsInRange(s, x) && HasMatch(s)
    ensures CyclicNext(s, x).Some? ==> IsCyclicSuccessor(s, x, CyclicNext(s, x).value)
  {
    if IsInRange(s, x) {
      match s.kind
      case None =>
        assert !HasMatch(s);
      case All =>
        CyclicNextAll(s, x);
      case First =>
        SuccessorByCases(s, x, s.min);
      case Last =>
        SuccessorByCases(s, x, s.max);
      case Nth(n) =>
        if s.min + n <= s.max { SuccessorByCases(s, x, s.min + n); }
        else { assert !HasMatch(s); }
      case BackNth(n) =>
        if s.max - n >= s.min { SuccessorByCases(s, x, s.max - n); }
        else { assert !HasMatch(s); }
      case ExplicitNths(_) =>
        CyclicNextExplicitNths(s, x);
      case EveryNth(_, _) =>
        CyclicNextEveryNth(s, x);
      case ExplicitList(_) =>
        CyclicNextExplicitList(s, x);
    }
  }

  /** `first_match` is the smallest selected coordinate, and None exactly
      when nothing is selected. */
  lemma FirstMatchSpec(s: Specifier)
    requires Valid(s)
    ensures FirstMatch(s).Some? <==> HasMatch(s)
    ensures FirstMatch(s).Some? ==> IsLeastMatch(s, FirstMatch(s).value)
  {
    CyclicNextSpec(s, s.max);
    assert !HasMatchAfter(s, s.max);
  }

  /** Building a specifier from a built one changes nothing. */
  lemma NewIdempotent(s: Specifier)
    requires Valid(s)
    ensures New(s.min, s.max, s.kind) == s
  {
    match s.kind
    case ExplicitList(values) => NormaliseIdentity(values, s.min, s.max);
    case ExplicitNths(indices) => NormaliseIdentity(indices, 0, s.max - s.min);
    case _ =>
  }

  /** The order in which the bounds are given does not matter. */
  lemma NewSymmetric(a: nat, b: nat, kind: SpecifierKind)
    ensures New(a, b, kind) == New(b, a, kind)
  {
  }

  /** Normalisation only drops entries that could never match: the built
      specifier selects exactly what the raw rule selects over the ordered
      range. */
  lemma NewPreservesMatches(a: nat, b: nat, kind: SpecifierKind, x: nat)
    ensures var raw := Specifier(if a > b then b else a, if a > b then a else b, kind);
            Matches(New(a, b, kind), x) == Matches(raw, x)
  {
  }

  /** `EveryNth(n, offset)` with `n > 0` selects `min + offset + k * n` for
      every `k` that stays within the range. */
  lemma EveryNthProgression(s: Specifier, x: nat)
    requires s.kind.EveryNth? && s.kind.step > 0
    ensures Matches(s, x) <==>
      IsInRange(s, x) && exists k: nat :: x == s.min + s.kind.offset + k * s.kind.step
  {
    var n, mo := s.kind.step, s.min + s.kind.offset;
    if Matches(s, x) {
      var k := (x - mo) / n;
      DivModUnique(x - mo, n, k, 0);
      assert x == mo + k * n;
    }
    if IsInRange(s, x) && exists k: nat :: x == mo + k * n {
      var k: nat :| x == mo + k * n;
      DivModUnique(x - mo, n, k, 0);
    }
  }

  /** Every first coordinate is the same as no filter at all. */
  lemma EveryFirstIsAll(min: nat, max: nat, x: nat)
    ensures Matches(Specifier(min, max, EveryNth(1, 0)), x) == Matches(Specifier(min, max, All), x)
  {
    if min <= x <= max {
      DivModUnique(x - min, 1, x - min, 0);
    }
  }
}
