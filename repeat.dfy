// src/utils/repeat.ts: a list of `times` independent copies of a value.

module RepeatUtil {
  import opened RangeUtil

  /**
   * repeat(value, times) maps makeRange(times) to structuredClone(value). Values
   * are immutable here, so every copy is independent of the others and of
   * `value`: replacing one element of the result leaves all the others as they were.
   */
  function Repeat<T>(value: T, times: int): (copies: seq<T>)
    requires times >= 0
    ensures |copies| == times
    ensures forall i :: 0 <= i < |copies| ==> copies[i] == value
    ensures times == 0 ==> copies == []
  {
    var indices := MakeRange(times, None, false);
    seq(|indices|, _ => value)
  }
}
