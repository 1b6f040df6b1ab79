// src/utils/makeRange.ts: the integer range builder used for the grid loops,
// the neighbour windows and the copies made by repeat/copyValue.

module RangeUtil {

  /** An optional argument: JavaScript's `end?: number`. */
  datatype Option<T> = None | Some(value: T)

  /** The ascending integers lo, lo+1, ..., hi-1 (empty when hi <= lo). */
  function Interval(lo: int, hi: int): (s: seq<int>)
    ensures |s| == if lo < hi then hi - lo else 0
    ensures forall k :: 0 <= k < |s| ==> s[k] == lo + k
    ensures forall x :: x in s <==> lo <= x < hi
  {
    if lo < hi then
      var s := seq(hi - lo, k => lo + k);
      ConsecutiveMembers(s, lo, hi);
      s
    else []
  }

  lemma ConsecutiveMembers(s: seq<int>, lo: int, hi: int)
    requires lo < hi && |s| == hi - lo
    requires forall k :: 0 <= k < |s| ==> s[k] == lo + k
    ensures forall x :: x in s <==> lo <= x < hi
  {
    forall x | lo <= x < hi
      ensures x in s
    {
      assert s[x - lo] == x;
    }
  }

  /** `[...Array(n).keys()]`: the indices 0 .. n-1 of a fresh array of length n. */
  function Keys(n: nat): seq<int>
  {
    seq(n, k => k)
  }

  /** `.filter((elem) => elem >= start)`: keeps, in order, the elements not below start. */
  function AtLeast(s: seq<int>, start: int): seq<int>
  {
    if s == [] then []
    else AtLeast(s[..|s| - 1], start) + (if s[|s| - 1] >= start then [s[|s| - 1]] else [])
  }

  /** `end` takes part only when it is truthy: present and not 0. */
  predicate EndGiven(end: Option<int>)
  {
    end.Some? && end.value != 0
  }

  /**
   * The length handed to `Array(...)` is not negative; otherwise JavaScript
   * throws a RangeError, which no caller of makeRange catches.
   */
  predicate ArrayLengthOk(start: int, end: Option<int>, endInclusive: bool)
  {
    if EndGiven(end) then
      (if endInclusive then end.value + 1 >= 0 else end.value >= 0)
    else start >= 0
  }

  /**
   * makeRange(start, end?, endInclusive = false). With a truthy `end`, the keys of
   * an array of length end (or end + 1) filtered to those >= start; otherwise
   * `start` is the length and the keys 0 .. start-1 are returned.
   */
  function MakeRange(start: int, end: Option<int>, endInclusive: bool): (r: seq<int>)
    requires ArrayLengthOk(start, end, endInclusive)
    ensures forall i, j :: 0 <= i < j < |r| ==> r[i] < r[j]
    ensures forall x :: x in r ==> 0 <= x
  {
    if EndGiven(end) then
      var n := if endInclusive then end.value + 1 else end.value;
      AtLeastKeys(n, start);
      AtLeast(Keys(n), start)
    else
      Keys(start)
  }

  function Max(a: int, b: int): int { if a < b then b else a }

  lemma {:induction false} AtLeastKeys(n: nat, start: int)
    ensures AtLeast(Keys(n), start) == Interval(Max(start, 0), n)
  {
    if n > 0 {
      assert Keys(n)[..n - 1] == Keys(n - 1);
      AtLeastKeys(n - 1, start);
      var lo := Max(start, 0);
      if n - 1 >= start {
        assert Interval(lo, n - 1) + [n - 1] == Interval(lo, n);
      }
    }
  }

  /**
   * What makeRange returns, case by case: [0, start) when `end` is absent or 0;
   * [max(start, 0), end] with endInclusive; [max(start, 0), end) without it.
   */
  lemma MakeRangeIsInterval(start: int, end: Option<int>, endInclusive: bool)
    requires ArrayLengthOk(start, end, endInclusive)
    ensures !EndGiven(end) ==> MakeRange(start, end, endInclusive) == Interval(0, start)
    ensures EndGiven(end) && endInclusive ==>
              MakeRange(start, end, endInclusive) == Interval(Max(start, 0), end.value + 1)
    ensures EndGiven(end) && !endInclusive ==>
              MakeRange(start, end, endInclusive) == Interval(Max(start, 0), end.value)
  {
    if EndGiven(end) {
      AtLeastKeys(if endInclusive then end.value + 1 else end.value, start);
    }
  }

  /**
   * The truthiness test: an `end` of 0 behaves exactly as an absent one, so in
   * particular makeRange(0, 0, true) is empty, not [0].
   */
  lemma MakeRangeZeroEndIgnored(start: int, endInclusive: bool)
    requires start >= 0
    ensures MakeRange(start, Some(0), endInclusive) == MakeRange(start, None, false)
    ensures MakeRange(0, Some(0), true) == []
  {
  }
}
