/** substr and str_repeat as PHP 8 defines them. */
module Slicing {
  import opened Wrappers

  /** The first byte substr takes: a negative offset counts from the end and is clamped at 0. */
  function SubstrStart(s: seq<char>, offset: int): nat
    requires offset <= |s|
  {
    if offset >= 0 then offset else if -offset > |s| then 0 else |s| + offset
  }

  /**
   * How many bytes substr takes from start: all of them without a length, at most `length` for a
   * non-negative length, and for a negative length all but the last -length (at least none).
   */
  function SubstrCount(s: seq<char>, start: nat, length: Option<int>): nat
    requires start <= |s|
  {
    match length
    case None => |s| - start
    case Some(l) =>
      if l < 0 then (if -l > |s| - start then 0 else |s| - start + l)
      else if l > |s| - start then |s| - start
      else l
  }

  /**
   * substr(s, offset, length): an offset past the end gives the empty string (PHP 8 raises no
   * error); otherwise the slice from SubstrStart of SubstrCount bytes.
   */
  function Substr(s: seq<char>, offset: int, length: Option<int>): (r: seq<char>)
    ensures |r| <= |s|
    ensures |s| < offset ==> r == []
    ensures 0 <= offset <= |s| && length.None? ==> r == s[offset..]
    ensures 0 <= offset <= |s| && length.Some? && 0 <= length.value ==>
      r == s[offset..offset + (if length.value < |s| - offset then length.value else |s| - offset)]
    ensures 0 <= offset <= |s| && length.Some? && length.value < 0 ==>
      r == (if |s| - offset + length.value <= 0 then [] else s[offset..|s| + length.value])
    ensures -|s| <= offset < 0 && length.None? ==> r == s[|s| + offset..]
    ensures offset < -|s| && length.None? ==> r == s
  {
    if offset > |s| then []
    else
      var start := SubstrStart(s, offset);
      s[start..start + SubstrCount(s, start, length)]
  }

  /** Cutting at any k and gluing the two substr results gives back the string. */
  lemma SubstrSplit(s: seq<char>, k: int)
    requires 0 <= k <= |s|
    ensures Substr(s, 0, Some(k)) + Substr(s, k, None) == s
  {
    assert s[..k] + s[k..] == s;
  }

  /** A negative offset -k reads the same bytes as the offset |s| - k. */
  lemma SubstrNegativeOffset(s: seq<char>, k: int, length: Option<int>)
    requires 0 < k <= |s|
    ensures Substr(s, -k, length) == Substr(s, |s| - k, length)
  {
  }

  /** An offset before the start of the string is clamped to 0. */
  lemma SubstrClampedOffset(s: seq<char>, offset: int, length: Option<int>)
    requires offset < -|s|
    ensures Substr(s, offset, length) == Substr(s, 0, length)
  {
  }

  /** A negative length -k drops the last k bytes of what the offset alone would give. */
  lemma SubstrNegativeLength(s: seq<char>, offset: int, k: int)
    requires 0 <= offset <= |s| && 0 < k <= |s| - offset
    ensures Substr(s, offset, Some(-k)) == Substr(s, offset, None)[..|s| - offset - k]
  {
  }

  /** n copies of s, one after the other. */
  function Repeat(s: seq<char>, n: nat): (r: seq<char>)
    ensures |r| == n * |s|
  {
    if n == 0 then [] else
      var rest := Repeat(s, n - 1);
      assert |s + rest| == n * |s| by {
        assert n * |s| == |s| + (n - 1) * |s|;
      }
      s + rest
  }

  /** str_repeat(s, times): a ValueError for a negative count, else `times` copies of s. */
  function StrRepeat(s: seq<char>, times: int): (r: Result<seq<char>>)
    ensures r.Err? <==> times < 0
    ensures r.Ok? ==> |r.value| == times * |s|
    ensures r.Ok? ==> r.value == Repeat(s, times)
  {
    if times < 0 then Err(ValueError) else Ok(Repeat(s, times))
  }

  /** Byte j of copy q of n copies of s is byte j of s. */
  lemma {:induction false} RepeatAt(s: seq<char>, n: nat, q: nat, j: nat)
    requires q < n && j < |s|
    ensures q * |s| + j < |Repeat(s, n)| && Repeat(s, n)[q * |s| + j] == s[j]
  {
    var rest := Repeat(s, n - 1);
    assert Repeat(s, n) == s + rest;
    if q > 0 {
      RepeatAt(s, n - 1, q - 1, j);
      assert q * |s| + j == |s| + ((q - 1) * |s| + j);
    }
  }

  /** a + b copies are a copies followed by b copies. */
  lemma {:induction false} RepeatAdd(s: seq<char>, a: nat, b: nat)
    ensures Repeat(s, a + b) == Repeat(s, a) + Repeat(s, b)
  {
    if a > 0 {
      RepeatAdd(s, a - 1, b);
      assert a + b - 1 == (a - 1) + b;
    }
  }
}
