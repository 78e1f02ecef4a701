/**
 * trim, ltrim and rtrim. The set of bytes to strip is given as PHP gives it, by a character list
 * in which "a..z" stands for the inclusive range from a to z (php_charmask).
 */
module Trimming {

  /** PHP's default character list: space, tab, line feed, carriage return, NUL and vertical tab. */
  const DefaultCharacters: seq<char> := [' ', '\t', '\n', '\r', '\0', 11 as char]

  /**
   * Whether c is in the set a character list denotes: "x..y" with x <= y adds the range from x to
   * y; a ".." that does not form such a range contributes its first dot to nothing.
   */
  predicate InMask(mask: seq<char>, c: char)
    decreases |mask|
  {
    if |mask| == 0 then false
    else if |mask| >= 4 && mask[1] == '.' && mask[2] == '.' && mask[0] <= mask[3] then
      (mask[0] <= c <= mask[3]) || InMask(mask[4..], c)
    else if |mask| >= 2 && mask[0] == '.' && mask[1] == '.' then InMask(mask[1..], c)
    else c == mask[0] || InMask(mask[1..], c)
  }

  /** A character list without dots denotes exactly its own bytes. */
  lemma {:induction false} PlainMask(mask: seq<char>, c: char)
    requires forall i :: 0 <= i < |mask| ==> mask[i] != '.'
    ensures InMask(mask, c) <==> c in mask
  {
    if |mask| > 0 {
      PlainMask(mask[1..], c);
      assert mask == [mask[0]] + mask[1..];
    }
  }

  /** The default list strips exactly its six whitespace bytes. */
  lemma DefaultMaskMembers(c: char)
    ensures InMask(DefaultCharacters, c) <==> c in {' ', '\t', '\n', '\r', '\0', 11 as char}
  {
    PlainMask(DefaultCharacters, c);
  }

  /** ltrim(s, mask): drops the longest prefix of mask bytes. */
  function Ltrim(s: seq<char>, mask: seq<char>): (r: seq<char>)
    ensures |r| <= |s| && r == s[|s| - |r|..]
    ensures forall i :: 0 <= i < |s| - |r| ==> InMask(mask, s[i])
    ensures r != [] ==> !InMask(mask, r[0])
  {
    if s != [] && InMask(mask, s[0]) then Ltrim(s[1..], mask) else s
  }

  /** rtrim(s, mask): drops the longest suffix of mask bytes. */
  function Rtrim(s: seq<char>, mask: seq<char>): (r: seq<char>)
    ensures |r| <= |s| && r == s[..|r|]
    ensures forall i :: |r| <= i < |s| ==> InMask(mask, s[i])
    ensures r != [] ==> !InMask(mask, r[|r| - 1])
  {
    if s != [] && InMask(mask, s[|s| - 1]) then Rtrim(s[..|s| - 1], mask) else s
  }

  /** r sits in s at k, and every byte of s outside it is a mask byte. */
  ghost predicate StrippedAt(s: seq<char>, mask: seq<char>, k: int, r: seq<char>)
  {
    0 <= k && k + |r| <= |s| && s[k..k + |r|] == r
    && (forall i :: 0 <= i < k ==> InMask(mask, s[i]))
    && (forall i :: k + |r| <= i < |s| ==> InMask(mask, s[i]))
  }

  /** trim(s, mask): strips mask bytes from both ends, leaving a contiguous piece of s. */
  function Trim(s: seq<char>, mask: seq<char>): (r: seq<char>)
    ensures exists k :: StrippedAt(s, mask, k, r)
    ensures r != [] ==> !InMask(mask, r[0]) && !InMask(mask, r[|r| - 1])
  {
    var left := Ltrim(s, mask);
    var r := Rtrim(left, mask);
    assert StrippedAt(s, mask, |s| - |left|, r);
    r
  }

  /** Trimming a trimmed string changes nothing. */
  lemma TrimIdempotent(s: seq<char>, mask: seq<char>)
    ensures Trim(Trim(s, mask), mask) == Trim(s, mask)
    ensures Ltrim(Ltrim(s, mask), mask) == Ltrim(s, mask)
    ensures Rtrim(Rtrim(s, mask), mask) == Rtrim(s, mask)
  {
  }

  /** A string that starts and ends outside the mask is left as it is. */
  lemma TrimKeepsTrimmed(s: seq<char>, mask: seq<char>)
    requires s != [] ==> !InMask(mask, s[0]) && !InMask(mask, s[|s| - 1])
    ensures Trim(s, mask) == s
  {
  }

  /** Stripping the right end first gives the same result as stripping the left end first. */
  lemma {:induction false} TrimEitherOrder(s: seq<char>, mask: seq<char>)
    ensures Ltrim(Rtrim(s, mask), mask) == Trim(s, mask)
    decreases |s|
  {
    if s != [] && InMask(mask, s[0]) {
      var t := s[1..];
      TrimEitherOrder(t, mask);
      assert Ltrim(s, mask) == Ltrim(t, mask);
      if Rtrim(s, mask) == [] {
        TailAllMask(s, mask);
        RtrimAllMask(t, mask);
      } else {
        RtrimDropFirst(s, mask);
        LtrimSkipsMaskByte(s[0], Rtrim(t, mask), mask);
      }
    } else {
      var r := Rtrim(s, mask);
      if r != [] {
        assert r[0] == s[0];
      }
    }
  }

  /** ltrim drops a leading mask byte and goes on with the rest. */
  lemma LtrimSkipsMaskByte(c: char, x: seq<char>, mask: seq<char>)
    requires InMask(mask, c)
    ensures Ltrim([c] + x, mask) == Ltrim(x, mask)
  {
    assert ([c] + x)[1..] == x;
  }

  /** When rtrim leaves nothing, every byte after the first is a mask byte. */
  lemma TailAllMask(s: seq<char>, mask: seq<char>)
    requires s != [] && Rtrim(s, mask) == []
    ensures forall i :: 0 <= i < |s[1..]| ==> InMask(mask, s[1..][i])
  {
    forall i | 0 <= i < |s[1..]| ensures InMask(mask, s[1..][i]) {
      assert s[1..][i] == s[i + 1];
    }
  }

  /** A string made only of mask bytes rtrims to nothing. */
  lemma {:induction false} RtrimAllMask(s: seq<char>, mask: seq<char>)
    requires forall i :: 0 <= i < |s| ==> InMask(mask, s[i])
    ensures Rtrim(s, mask) == []
  {
    if s != [] {
      RtrimAllMask(s[..|s| - 1], mask);
    }
  }

  /** When rtrim leaves something of s, the first byte of s stays its first byte. */
  lemma {:induction false} RtrimDropFirst(s: seq<char>, mask: seq<char>)
    requires s != [] && Rtrim(s, mask) != []
    ensures Rtrim(s, mask) == [s[0]] + Rtrim(s[1..], mask)
    decreases |s|
  {
    if InMask(mask, s[|s| - 1]) {
      var u := s[..|s| - 1];
      assert u != [];
      RtrimDropFirst(u, mask);
      assert u[1..] == s[1..][..|s[1..]| - 1];
    } else {
      assert Rtrim(s[1..], mask) == s[1..];
    }
  }
}
