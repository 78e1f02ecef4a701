/**
 * The search builtins behind StringObject's indexOf, pos, lastIndexOf, rpos, ipos, startsWith,
 * endsWith and contains: strpos, strrpos, stripos, str_starts_with and str_contains, as PHP 8
 * defines them on byte strings.
 */
module Search {
  import opened Wrappers
  import CaseMap

  /** The needle n occurs in h starting at byte i. */
  predicate OccursAt(h: seq<char>, n: seq<char>, i: int)
  {
    0 <= i && i + |n| <= |h| && h[i..i + |n|] == n
  }

  /** r is the first start of n in h at or after from; None when there is none. */
  ghost predicate IsFirstFrom(h: seq<char>, n: seq<char>, from: int, r: Option<nat>)
  {
    match r
    case Some(k) => from <= k && OccursAt(h, n, k) && forall j :: from <= j < k ==> !OccursAt(h, n, j)
    case None => forall j :: from <= j ==> !OccursAt(h, n, j)
  }

  /** r is the last start of n in h within [lo, hi]; None when there is none. */
  ghost predicate IsLastIn(h: seq<char>, n: seq<char>, lo: int, hi: int, r: Option<nat>)
  {
    match r
    case Some(k) => lo <= k <= hi && OccursAt(h, n, k) && forall j :: k < j <= hi ==> !OccursAt(h, n, j)
    case None => forall j :: lo <= j <= hi ==> !OccursAt(h, n, j)
  }

  /** A forward scan from `from`, as php_memnstr does. */
  function FirstFrom(h: seq<char>, n: seq<char>, from: nat): (r: Option<nat>)
    requires from <= |h|
    ensures IsFirstFrom(h, n, from, r)
    decreases |h| - from
  {
    if OccursAt(h, n, from) then Some(from)
    else if from == |h| then None
    else FirstFrom(h, n, from + 1)
  }

  /** A backward scan from hi down to lo, as zend_memnrstr does. */
  function LastIn(h: seq<char>, n: seq<char>, lo: nat, hi: int): (r: Option<nat>)
    ensures IsLastIn(h, n, lo, hi, r)
    decreases hi - lo
  {
    if hi < lo then None
    else if OccursAt(h, n, hi) then Some(hi)
    else LastIn(h, n, lo, hi - 1)
  }

  /** The byte a possibly negative offset designates: a negative offset counts from the end. */
  function Origin(h: seq<char>, offset: int): int
  {
    if offset < 0 then |h| + offset else offset
  }

  /** An offset is accepted when it designates a position from 0 to |h| inclusive. */
  predicate OffsetInRange(h: seq<char>, offset: int)
  {
    -|h| <= offset <= |h|
  }

  /**
   * strpos(h, n, offset): the first occurrence of n at or after the designated position;
   * a ValueError when the offset lies outside the haystack.
   */
  function Strpos(h: seq<char>, n: seq<char>, offset: int): (r: Result<Option<nat>>)
    ensures r.Err? <==> !OffsetInRange(h, offset)
    ensures r.Ok? ==> IsFirstFrom(h, n, Origin(h, offset), r.value)
  {
    var from := Origin(h, offset);
    if from < 0 || from > |h| then Err(ValueError) else Ok(FirstFrom(h, n, from))
  }

  /**
   * strrpos(h, n, offset): the last occurrence of n. A non-negative offset makes the search
   * ignore starts before it; a negative offset -k makes it ignore starts after |h| - k.
   */
  function Strrpos(h: seq<char>, n: seq<char>, offset: int): (r: Result<Option<nat>>)
    ensures r.Err? <==> !OffsetInRange(h, offset)
    ensures r.Ok? && offset >= 0 ==> IsLastIn(h, n, offset, |h|, r.value)
    ensures r.Ok? && offset < 0 ==> IsLastIn(h, n, 0, |h| + offset, r.value)
  {
    if !OffsetInRange(h, offset) then Err(ValueError)
    else if offset >= 0 then Ok(LastIn(h, n, offset, |h|))
    else Ok(LastIn(h, n, 0, |h| + offset))
  }

  /** stripos(h, n) with its default offset 0: strpos on the lowered haystack and needle. */
  function Stripos(h: seq<char>, n: seq<char>): (r: Option<nat>)
    ensures IsFirstFrom(CaseMap.Strtolower(h), CaseMap.Strtolower(n), 0, r)
  {
    FirstFrom(CaseMap.Strtolower(h), CaseMap.Strtolower(n), 0)
  }

  /** str_starts_with(h, n): compares the first |n| bytes of h with n. */
  function StrStartsWith(h: seq<char>, n: seq<char>): (r: bool)
    ensures r <==> OccursAt(h, n, 0)
  {
    |n| <= |h| && h[..|n|] == n
  }

  /** str_contains(h, n): whether a forward search from the start finds n. */
  function StrContains(h: seq<char>, n: seq<char>): (r: bool)
    ensures r <==> exists i :: OccursAt(h, n, i)
  {
    FirstFrom(h, n, 0).Some?
  }

  /** The characterisation of a forward search admits one answer only. */
  lemma FirstFromUnique(h: seq<char>, n: seq<char>, from: int, a: Option<nat>, b: Option<nat>)
    requires IsFirstFrom(h, n, from, a) && IsFirstFrom(h, n, from, b)
    ensures a == b
  {
  }

  /** The characterisation of a backward search admits one answer only. */
  lemma LastInUnique(h: seq<char>, n: seq<char>, lo: int, hi: int, a: Option<nat>, b: Option<nat>)
    requires IsLastIn(h, n, lo, hi, a) && IsLastIn(h, n, lo, hi, b)
    ensures a == b
  {
  }

  /** An empty needle is found at once: strpos answers the offset, strrpos without offset answers |h|. */
  lemma EmptyNeedle(h: seq<char>, offset: int)
    requires OffsetInRange(h, offset)
    ensures Strpos(h, [], offset) == Ok(Some(Origin(h, offset)))
    ensures Strrpos(h, [], 0) == Ok(Some(|h|))
  {
    assert OccursAt(h, [], Origin(h, offset));
    assert OccursAt(h, [], |h|);
  }

  /** A needle longer than the haystack is never found. */
  lemma LongNeedleNotFound(h: seq<char>, n: seq<char>, offset: int)
    requires |h| < |n| && OffsetInRange(h, offset)
    ensures Strpos(h, n, offset) == Ok(None)
    ensures Strrpos(h, n, offset) == Ok(None)
  {
  }

  /** str_starts_with(h, n) holds exactly when strpos(h, n) answers 0. */
  lemma StartsWithIffFoundAtZero(h: seq<char>, n: seq<char>)
    ensures StrStartsWith(h, n) <==> Strpos(h, n, 0) == Ok(Some(0))
  {
  }

  /** str_contains(h, n) holds exactly when strpos(h, n) does not answer false. */
  lemma ContainsIffFound(h: seq<char>, n: seq<char>)
    ensures StrContains(h, n) <==> Strpos(h, n, 0).Ok? && Strpos(h, n, 0).value.Some?
  {
  }

  /** Whenever n occurs, the first occurrence does not come after the last one. */
  lemma FirstNotAfterLast(h: seq<char>, n: seq<char>)
    ensures Strpos(h, n, 0).value.Some? <==> Strrpos(h, n, 0).value.Some?
    ensures Strpos(h, n, 0).value.Some? ==> Strpos(h, n, 0).value.value <= Strrpos(h, n, 0).value.value
  {
    var f, l := Strpos(h, n, 0).value, Strrpos(h, n, 0).value;
    if f.Some? {
      assert OccursAt(h, n, f.value);
      assert f.value <= |h|;
    }
    if l.Some? {
      assert OccursAt(h, n, l.value);
    }
  }

  /**
   * strrpos(h, n) without offset answers |h| - |n| exactly when n is a suffix of h: the suffix
   * position is the largest place an occurrence can start.
   */
  lemma LastAtSuffixIffSuffix(h: seq<char>, n: seq<char>)
    ensures (Strrpos(h, n, 0).value.Some? && Strrpos(h, n, 0).value.value == |h| - |n|)
        <==> (|n| <= |h| && h[|h| - |n|..] == n)
  {
    if |n| <= |h| && h[|h| - |n|..] == n {
      assert OccursAt(h, n, |h| - |n|);
    }
  }

  /** stripos does not see the case of ASCII letters in either argument. */
  lemma StriposIgnoresCase(h: seq<char>, n: seq<char>)
    ensures Stripos(CaseMap.Strtoupper(h), n) == Stripos(h, n)
    ensures Stripos(h, CaseMap.Strtoupper(n)) == Stripos(h, n)
    ensures Stripos(CaseMap.Strtolower(h), n) == Stripos(h, n)
    ensures Stripos(h, CaseMap.Strtolower(n)) == Stripos(h, n)
  {
    CaseMap.LowerOfUpper(h);
    CaseMap.LowerOfUpper(n);
    CaseMap.LowerIdempotent(h);
    CaseMap.LowerIdempotent(n);
  }
}
