/** strtolower and strtoupper as PHP 8.2 defines them: byte-wise and ASCII-only, independent of the locale. */
module CaseMap {

  predicate IsUpperAscii(c: char) { 'A' <= c <= 'Z' }

  predicate IsLowerAscii(c: char) { 'a' <= c <= 'z' }

  function LowerChar(c: char): (d: char)
    ensures !IsUpperAscii(d)
    ensures IsUpperAscii(c) ==> d as int == c as int + 32
    ensures !IsUpperAscii(c) ==> d == c
  {
    if IsUpperAscii(c) then (c as int + 32) as char else c
  }

  function UpperChar(c: char): (d: char)
    ensures !IsLowerAscii(d)
    ensures IsLowerAscii(c) ==> d as int == c as int - 32
    ensures !IsLowerAscii(c) ==> d == c
  {
    if IsLowerAscii(c) then (c as int - 32) as char else c
  }

  /** strtolower: every ASCII capital becomes its small letter, every other byte is kept. */
  function Strtolower(s: seq<char>): (r: seq<char>)
    ensures |r| == |s|
    ensures forall i :: 0 <= i < |s| ==> r[i] == LowerChar(s[i])
  {
    if s == [] then [] else [LowerChar(s[0])] + Strtolower(s[1..])
  }

  /** strtoupper: every ASCII small letter becomes its capital, every other byte is kept. */
  function Strtoupper(s: seq<char>): (r: seq<char>)
    ensures |r| == |s|
    ensures forall i :: 0 <= i < |s| ==> r[i] == UpperChar(s[i])
  {
    if s == [] then [] else [UpperChar(s[0])] + Strtoupper(s[1..])
  }

  /** A string without ASCII capitals is a fixed point of strtolower. */
  lemma {:induction false} LowerFixesLowercase(s: seq<char>)
    requires forall i :: 0 <= i < |s| ==> !IsUpperAscii(s[i])
    ensures Strtolower(s) == s
  {
    if s != [] {
      LowerFixesLowercase(s[1..]);
    }
  }

  /** A string without ASCII small letters is a fixed point of strtoupper. */
  lemma {:induction false} UpperFixesUppercase(s: seq<char>)
    requires forall i :: 0 <= i < |s| ==> !IsLowerAscii(s[i])
    ensures Strtoupper(s) == s
  {
    if s != [] {
      UpperFixesUppercase(s[1..]);
    }
  }

  /** Lowering twice is lowering once. */
  lemma LowerIdempotent(s: seq<char>)
    ensures Strtolower(Strtolower(s)) == Strtolower(s)
  {
    LowerFixesLowercase(Strtolower(s));
  }

  /** Raising twice is raising once. */
  lemma UpperIdempotent(s: seq<char>)
    ensures Strtoupper(Strtoupper(s)) == Strtoupper(s)
  {
    UpperFixesUppercase(Strtoupper(s));
  }

  /** Lowering forgets a preceding strtoupper: the two strings differ only in the case of letters. */
  lemma LowerOfUpper(s: seq<char>)
    ensures Strtolower(Strtoupper(s)) == Strtolower(s)
  {
    var a, b := Strtolower(Strtoupper(s)), Strtolower(s);
    forall i | 0 <= i < |s| ensures a[i] == b[i] {
      var c := s[i];
      if IsLowerAscii(c) {
        assert LowerChar(UpperChar(c)) == c;
      }
    }
  }

  /** Raising forgets a preceding strtolower. */
  lemma UpperOfLower(s: seq<char>)
    ensures Strtoupper(Strtolower(s)) == Strtoupper(s)
  {
    var a, b := Strtoupper(Strtolower(s)), Strtoupper(s);
    forall i | 0 <= i < |s| ensures a[i] == b[i] {
      var c := s[i];
      if IsUpperAscii(c) {
        assert UpperChar(LowerChar(c)) == c;
      }
    }
  }
}
