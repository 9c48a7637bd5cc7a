/** A Specifier selects some integers of an inclusive range `[min, max]`
    according to one of nine rules (its kind). Coordinates are backup-rs's
    `u32` values; a weekday or month coordinate is its wrapper's index. */
module Specifiers {
  import opened Wrappers
  import opened SortedSeqs

  datatype SpecifierKind =
    | None                                // matches nothing
    | All                                 // matches the whole range
    | First                               // only `min`
    | Last                                // only `max`
    | Nth(n: nat)                         // only `min + n`
    | BackNth(n: nat)                     // only `max - n`
    | ExplicitNths(indices: seq<nat>)     // `min + i` for each listed `i`
    | EveryNth(step: nat, offset: nat)    // `min + offset + k * step`
    | ExplicitList(values: seq<nat>)      // exactly the listed values

  /** Fields are private in backup-rs, so code builds one through `New`; an
      `Interval` deserialised from a stored JSON profile bypasses it, which
      is why `validate` exists. */
  datatype Specifier = Specifier(min: nat, max: nat, kind: SpecifierKind)

  /** What `New` guarantees: ordered bounds, and list kinds sorted, free of
      duplicates and restricted to the range. */
  ghost predicate Valid(s: Specifier) {
    && s.min <= s.max
    && (s.kind.ExplicitList? ==>
          StrictlyIncreasing(s.kind.values) && AllBetween(s.kind.values, s.min, s.max))
    && (s.kind.ExplicitNths? ==>
          StrictlyIncreasing(s.kind.indices) && AllBetween(s.kind.indices, 0, s.max - s.min))
  }

  /** `Specifier::new`: orders the bounds and normalises the list kinds;
      every other kind is kept as given. */
  function New(a: nat, b: nat, kind: SpecifierKind): (s: Specifier)
    ensures Valid(s)
    ensures s.min <= s.max && {s.min, s.max} == {a, b}
    ensures kind.ExplicitList? ==>
      s.kind.ExplicitList? &&
      forall v :: v in s.kind.values <==> v in kind.values && s.min <= v <= s.max
    ensures kind.ExplicitNths? ==>
      s.kind.ExplicitNths? &&
      forall i :: i in s.kind.indices <==> i in kind.indices && i <= s.max - s.min
    ensures !kind.ExplicitList? && !kind.ExplicitNths? ==> s.kind == kind
  {
    var min := if a > b then b else a;
    var max := if a > b then a else b;
    var k := match kind
      case ExplicitList(values) => ExplicitList(Normalise(values, min, max))
      case ExplicitNths(indices) => ExplicitNths(Normalise(indices, 0, max - min))
      case _ => kind;
    Specifier(min, max, k)
  }

  /** `is_in_range`: ignores the kind. */
  predicate IsInRange(s: Specifier, x: nat) {
    s.min <= x <= s.max
  }

  /** `range_len`: number of coordinates in the range. */
  function RangeLen(s: Specifier): int {
    s.max - s.min + 1
  }

  /** `matches`: whether the rule selects `x`; false outside the range. */
  predicate Matches(s: Specifier, x: nat) {
    if !IsInRange(s, x) then false
    else match s.kind
      case None => false
      case All => true
      case First => x == s.min
      case Last => x == s.max
      case Nth(n) => s.min + n == x
      case BackNth(n) => s.max - n == x
      case ExplicitNths(indices) => x - s.min in indices
      case EveryNth(n, offset) =>
        var minOffset := s.min + offset;
        if minOffset > s.max || minOffset > x then false
        else if n == 0 then x == minOffset
        else (x - minOffset) % n == 0
      case ExplicitList(values) => x in values
  }

  /** Outcome of `slice::binary_search`. */
  datatype SearchResult = Found(index: nat) | NotFound(index: nat)

  /** Bisection over `values[lo..hi]`, as `binary_search` does. On a sorted
      list whose elements below `lo` are smaller than `x` and whose elements
      from `hi` on are larger, a miss reports the insertion point. */
  function Bisect(values: seq<nat>, x: nat, lo: nat, hi: nat): (r: SearchResult)
    requires lo <= hi <= |values|
    ensures r.Found? ==> lo <= r.index < hi && values[r.index] == x
    ensures r.NotFound? ==> lo <= r.index <= hi
    ensures r.NotFound? && StrictlyIncreasing(values)
            && (forall k :: 0 <= k < lo ==> values[k] < x)
            && (forall k :: hi <= k < |values| ==> values[k] > x)
            ==> (forall k :: 0 <= k < r.index ==> values[k] < x)
                && (forall k :: r.index <= k < |values| ==> values[k] > x)
    decreases hi - lo
  {
    if lo == hi then NotFound(lo)
    else
      var mid := lo + (hi - lo) / 2;
      if values[mid] == x then Found(mid)
      else if values[mid] < x then Bisect(values, x, mid + 1, hi)
      else Bisect(values, x, lo, mid)
  }

  /** `values.binary_search(&x)`. */
  function BinarySearch(values: seq<nat>, x: nat): (r: SearchResult)
    ensures r.Found? ==> r.index < |values| && values[r.index] == x
    ensures r.NotFound? && StrictlyIncreasing(values) ==>
      r.index <= |values|
      && (forall k :: 0 <= k < r.index ==> values[k] < x)
      && (forall k :: r.index <= k < |values| ==> values[k] > x)
  {
    Bisect(values, x, 0, |values|)
  }

  /** `indices.iter().find_map(..)`: `min + n` for the first listed `n`
      (in list order) that lands above `x`. */
  function FirstAbove(indices: seq<nat>, min: nat, x: nat): (r: Option<nat>)
    ensures r.Some? ==> exists k :: 0 <= k < |indices| && r.value == min + indices[k] && r.value > x
                                   && forall j :: 0 <= j < k ==> min + indices[j] <= x
    ensures r.None? ==> forall k :: 0 <= k < |indices| ==> min + indices[k] <= x
  {
    if |indices| == 0 then Option.None
    else if min + indices[0] > x then Some(min + indices[0])
    else
      var r := FirstAbove(indices[1..], min, x);
      if r.Some? then
        var k :| 0 <= k < |indices[1..]| && r.value == min + indices[1..][k] && r.value > x
                 && forall j :: 0 <= j < k ==> min + indices[1..][j] <= x;
        assert r.value == min + indices[k + 1];
        r
      else r
  }

  /** `cyclic_next`: the next selected coordinate after `x`, wrapping round to
      the first one; None when `x` is out of range or nothing is selected.
      For `EveryNth` the Rust code computes the step index with floating point
      rounding; `(x - minOffset) / n + 1` is the integer it computes. */
  function CyclicNext(s: Specifier, x: nat): Option<nat> {
    if !IsInRange(s, x) then Option.None
    else match s.kind
      case None => Option.None
      case All => Some(s.min + (x - s.min + 1) % RangeLen(s))
      case First => Some(s.min)
      case Last => Some(s.max)
      case Nth(n) =>
        var v := s.min + n;
        if v <= s.max then Some(v) else Option.None
      case BackNth(n) =>
        var v := s.max - n;
        if v >= s.min then Some(v) else Option.None
      case ExplicitNths(indices) =>
        if |indices| == 0 then Option.None
        else Some(FirstAbove(indices, s.min, x).GetOr(s.min + indices[0]))
      case EveryNth(n, offset) =>
        var minOffset := s.min + offset;
        if minOffset > s.max then Option.None
        else if n == 0 then Some(minOffset)
        else if x < minOffset then Some(minOffset)
        else
          var candidate := minOffset + ((x - minOffset) / n + 1) * n;
          if candidate <= s.max then Some(candidate) else Some(minOffset)
      case ExplicitList(values) =>
        if |values| == 0 then Option.None
        else
          var target := match BinarySearch(values, x)
            case Found(i) => i + 1
            case NotFound(i) => i;
          if |values| > target then Some(values[target]) else Some(values[0])
  }

  /** `first_match`: the cyclic successor of the last coordinate. */
  function FirstMatch(s: Specifier): Option<nat> {
    CyclicNext(s, s.max)
  }
}
