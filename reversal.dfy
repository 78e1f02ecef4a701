/** strrev: the bytes of a string in the opposite order. */
module Reversal {

  function Strrev(s: seq<char>): (r: seq<char>)
    ensures |r| == |s|
  {
    if s == [] then [] else Strrev(s[1..]) + [s[0]]
  }

  /** Byte k of the reversal is byte |s| - 1 - k of the original. */
  lemma {:induction false} StrrevAt(s: seq<char>, k: int)
    requires 0 <= k < |s|
    ensures Strrev(s)[k] == s[|s| - 1 - k]
  {
    if k < |s| - 1 {
      StrrevAt(s[1..], k);
    }
  }

  /** Reversing twice gives back the original string. */
  lemma StrrevInvolutive(s: seq<char>)
    ensures Strrev(Strrev(s)) == s
  {
    var r := Strrev(s);
    forall k | 0 <= k < |s| ensures Strrev(r)[k] == s[k] {
      StrrevAt(r, k);
      StrrevAt(s, |s| - 1 - k);
    }
  }

  /** The reversal of a concatenation is the concatenation of the reversals, swapped. */
  lemma StrrevConcat(a: seq<char>, b: seq<char>)
    ensures Strrev(a + b) == Strrev(b) + Strrev(a)
  {
    var l, r := Strrev(a + b), Strrev(b) + Strrev(a);
    forall k | 0 <= k < |a| + |b| ensures l[k] == r[k] {
      StrrevAt(a + b, k);
      if k < |b| { StrrevAt(b, k); } else { StrrevAt(a, k - |b|); }
    }
  }
}
