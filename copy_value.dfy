// src/utils/copyValue.ts: the same helper as repeat under another name.

module CopyValueUtil {
  import opened RepeatUtil

  /** copyValue(value, times): its body is the body of repeat, character for character. */
  function CopyValue<T>(value: T, times: int): (copies: seq<T>)
    requires times >= 0
    ensures |copies| == times
    ensures forall i :: 0 <= i < |copies| ==> copies[i] == value
    ensures times == 0 ==> copies == []
  {
    Repeat(value, times)
  }
}
