/** explode, str_split and chunk_split, and implode as the inverse of the splitters. */
module Splitting {
  import opened Wrappers
  import Search

  /** PHP_INT_MAX on 64-bit builds: explode's default limit. */
  const PhpIntMax: int := 0x7FFF_FFFF_FFFF_FFFF

  /** implode(glue, pieces): the pieces with the glue between neighbours. */
  function Implode(glue: seq<char>, pieces: seq<seq<char>>): seq<char>
  {
    if |pieces| == 0 then []
    else if |pieces| == 1 then pieces[0]
    else pieces[0] + glue + Implode(glue, pieces[1..])
  }

  /** Every piece is free of the delimiter. */
  ghost predicate NoPieceHolds(pieces: seq<seq<char>>, d: seq<char>)
  {
    forall k, j :: 0 <= k < |pieces| ==> !Search.OccursAt(pieces[k], d, j)
  }

  /**
   * Every piece but the last ends where the first occurrence of d at or after its start begins:
   * no occurrence starts inside the piece, not even one that runs on into the delimiter after it.
   */
  ghost predicate CutsAtFirst(pieces: seq<seq<char>>, d: seq<char>)
  {
    forall k, j :: 0 <= k < |pieces| - 1 && 0 <= j < |pieces[k]| ==> !Search.OccursAt(pieces[k] + d, d, j)
  }

  /** d occurs nowhere in p. */
  ghost predicate Free(p: seq<char>, d: seq<char>)
  {
    forall j :: !Search.OccursAt(p, d, j)
  }

  /** With fewer pieces than the limit n, the cutting stopped because the last piece holds no d. */
  ghost predicate LastUncut(pieces: seq<seq<char>>, d: seq<char>, n: nat)
  {
    1 <= |pieces| < n ==> Free(pieces[|pieces| - 1], d)
  }

  /**
   * pieces is what explode(d, s, n) returns for a positive limit n: 1 to n pieces that join back
   * to s, cut at the leftmost occurrences, and cut as often as the limit allows.
   */
  ghost predicate Exploded(s: seq<char>, d: seq<char>, n: nat, pieces: seq<seq<char>>)
  {
    1 <= |pieces| <= n && Implode(d, pieces) == s && CutsAtFirst(pieces, d) && LastUncut(pieces, d, n)
  }

  /**
   * The pieces of s between occurrences of d, cutting at the first n - 1 occurrences only, so that
   * the last piece keeps the rest of s (php_explode).
   */
  function SplitAtMost(s: seq<char>, d: seq<char>, n: nat): (r: seq<seq<char>>)
    requires |d| > 0 && n >= 1
    ensures 1 <= |r| <= n
    decreases |s|
  {
    var f := Search.FirstFrom(s, d, 0);
    if n == 1 || f.None? then [s]
    else
      assert Search.OccursAt(s, d, f.value);
      [s[..f.value]] + SplitAtMost(s[f.value + |d|..], d, n - 1)
  }

  /** The piece before the first occurrence of d, followed by d, holds no earlier occurrence. */
  lemma FirstPieceCut(s: seq<char>, d: seq<char>, i: nat)
    requires |d| > 0 && Search.FirstFrom(s, d, 0) == Some(i)
    ensures i + |d| <= |s|
    ensures forall j :: 0 <= j < i ==> !Search.OccursAt(s[..i] + d, d, j)
  {
    assert Search.OccursAt(s, d, i);
    assert s[..i] + d == s[..i + |d|];
    forall j | 0 <= j < i ensures !Search.OccursAt(s[..i] + d, d, j) {
      if Search.OccursAt(s[..i + |d|], d, j) { OccursInPrefix(s, d, i + |d|, j); }
    }
  }

  /** A first piece cut at the first occurrence, in front of pieces cut as explode cuts them. */
  lemma CutsCons(p: seq<char>, rest: seq<seq<char>>, d: seq<char>, n: nat)
    requires rest != [] && n > 1
    requires forall j :: 0 <= j < |p| ==> !Search.OccursAt(p + d, d, j)
    requires CutsAtFirst(rest, d) && LastUncut(rest, d, n - 1)
    ensures CutsAtFirst([p] + rest, d) && LastUncut([p] + rest, d, n)
  {
    var r := [p] + rest;
    forall k, j | 0 <= k < |r| - 1 && 0 <= j < |r[k]| ensures !Search.OccursAt(r[k] + d, d, j) {
      if k > 0 { assert r[k] == rest[k - 1]; }
    }
    assert r[|r| - 1] == rest[|rest| - 1];
  }

  /** One step of SplitAtMost: the piece before the first occurrence, then the pieces after it. */
  lemma {:induction false} SplitStep(s: seq<char>, d: seq<char>, n: nat)
    requires |d| > 0 && n > 1
    ensures Search.FirstFrom(s, d, 0).None? ==> SplitAtMost(s, d, n) == [s]
    ensures Search.FirstFrom(s, d, 0).Some? ==>
      var i := Search.FirstFrom(s, d, 0).value;
      i + |d| <= |s| && SplitAtMost(s, d, n) == [s[..i]] + SplitAtMost(s[i + |d|..], d, n - 1)
  {
  }

  /** SplitStep at a known first occurrence i. */
  lemma SplitStepAt(s: seq<char>, d: seq<char>, n: nat, i: nat)
    requires |d| > 0 && n > 1 && Search.FirstFrom(s, d, 0) == Some(i)
    ensures i + |d| <= |s| && SplitAtMost(s, d, n) == [s[..i]] + SplitAtMost(s[i + |d|..], d, n - 1)
  {
    assert Search.OccursAt(s, d, i);
  }

  /** Gluing one more piece in front. */
  lemma {:induction false} ImplodeCons(glue: seq<char>, p: seq<char>, rest: seq<seq<char>>)
    requires rest != []
    ensures Implode(glue, [p] + rest) == p + glue + Implode(glue, rest)
  {
    assert ([p] + rest)[1..] == rest;
  }

  /** Joining the pieces with the delimiter gives back s. */
  lemma {:induction false} SplitJoin(s: seq<char>, d: seq<char>, n: nat)
    requires |d| > 0 && n >= 1
    ensures Implode(d, SplitAtMost(s, d, n)) == s
    decreases |s|, 1
  {
    if n > 1 && Search.FirstFrom(s, d, 0).Some? {
      SplitJoinFound(s, d, n);
    } else {
      assert SplitAtMost(s, d, n) == [s] by { if n > 1 { SplitStep(s, d, n); } }
      assert Implode(d, [s]) == s;
    }
  }

  /** SplitJoin when s holds the delimiter: rejoin the rest, then put the first piece in front. */
  lemma {:induction false} SplitJoinFound(s: seq<char>, d: seq<char>, n: nat)
    requires |d| > 0 && n > 1 && Search.FirstFrom(s, d, 0).Some?
    ensures Implode(d, SplitAtMost(s, d, n)) == s
    decreases |s|, 0
  {
    var i := Search.FirstFrom(s, d, 0).value;
    assert i + |d| <= |s| by { assert Search.OccursAt(s, d, i); }
    SplitJoin(s[i + |d|..], d, n - 1);
    JoinAroundFirst(s, d, n, i);
  }

  /** The inductive step of SplitJoin: the first piece, the delimiter, and the rejoined rest. */
  lemma {:induction false} JoinAroundFirst(s: seq<char>, d: seq<char>, n: nat, i: nat)
    requires |d| > 0 && n > 1 && Search.FirstFrom(s, d, 0) == Some(i) && i + |d| <= |s|
    requires Implode(d, SplitAtMost(s[i + |d|..], d, n - 1)) == s[i + |d|..]
    ensures Implode(d, SplitAtMost(s, d, n)) == s
  {
    var t := s[i + |d|..];
    var rest := SplitAtMost(t, d, n - 1);
    assert SplitAtMost(s, d, n) == [s[..i]] + rest by { SplitStep(s, d, n); }
    ImplodeCons(d, s[..i], rest);
    assert s[..i + |d|] == s[..i] + d by { assert Search.OccursAt(s, d, i); }
    assert s[..i] + d + t == s;
  }

  /** All pieces of s between occurrences of d. */
  function Pieces(s: seq<char>, d: seq<char>): (r: seq<seq<char>>)
    requires |d| > 0
    ensures |r| >= 1 && Implode(d, r) == s
  {
    SplitJoin(s, d, |s| + 1);
    SplitAtMost(s, d, |s| + 1)
  }

  /** An occurrence inside a prefix of s is an occurrence in s. */
  lemma OccursInPrefix(s: seq<char>, d: seq<char>, i: int, j: int)
    requires 0 <= i <= |s| && Search.OccursAt(s[..i], d, j)
    ensures Search.OccursAt(s, d, j) && j + |d| <= i
  {
    assert s[..i][j..j + |d|] == s[j..j + |d|];
  }

  /** With more allowed pieces than bytes, no piece contains the delimiter. */
  lemma {:induction false} PiecesAvoidDelimiter(s: seq<char>, d: seq<char>, n: nat)
    requires |d| > 0 && n > |s|
    ensures NoPieceHolds(SplitAtMost(s, d, n), d)
    decreases |s|
  {
    var r := SplitAtMost(s, d, n);
    if n == 1 {
      assert r == [[]];
    } else {
      match Search.FirstFrom(s, d, 0)
      case None =>
      case Some(i) =>
        assert Search.OccursAt(s, d, i);
        var rest := SplitAtMost(s[i + |d|..], d, n - 1);
        PiecesAvoidDelimiter(s[i + |d|..], d, n - 1);
        forall k, j | 0 <= k < |r| ensures !Search.OccursAt(r[k], d, j) {
          if k == 0 {
            if Search.OccursAt(s[..i], d, j) { OccursInPrefix(s, d, i, j); }
          } else {
            assert r[k] == rest[k - 1];
          }
        }
    }
  }

  /** The empty string is one empty piece, whatever the limit. */
  lemma SplitEmpty(d: seq<char>, n: nat)
    requires |d| > 0 && n >= 1
    ensures SplitAtMost([], d, n) == [[]]
  {
    assert !Search.OccursAt([], d, 0);
  }

  /** Any two limits above |s| cut s the same way. */
  lemma {:induction false} SplitAgree(s: seq<char>, d: seq<char>, n: nat, m: nat)
    requires |d| > 0 && n > |s| && m > |s|
    ensures SplitAtMost(s, d, n) == SplitAtMost(s, d, m)
    decreases |s|
  {
    if s == [] {
      SplitEmpty(d, n);
      SplitEmpty(d, m);
    } else {
      SplitStep(s, d, n);
      SplitStep(s, d, m);
      var f := Search.FirstFrom(s, d, 0);
      if f.Some? {
        var i := f.value;
        SplitAgree(s[i + |d|..], d, n - 1, m - 1);
      }
    }
  }

  /** SplitAtMost(s, d, n) is what explode(d, s, n) is specified to return. */
  lemma SplitAtMostExploded(s: seq<char>, d: seq<char>, n: nat)
    requires |d| > 0 && n >= 1
    ensures Exploded(s, d, n, SplitAtMost(s, d, n))
  {
    SplitJoin(s, d, n);
    SplitCuts(s, d, n);
  }

  /** SplitAtMost cuts at the leftmost occurrences, as often as the limit allows. */
  lemma {:induction false} SplitCuts(s: seq<char>, d: seq<char>, n: nat)
    requires |d| > 0 && n >= 1
    ensures CutsAtFirst(SplitAtMost(s, d, n), d) && LastUncut(SplitAtMost(s, d, n), d, n)
    decreases |s|
  {
    var f := Search.FirstFrom(s, d, 0);
    if n > 1 && f.Some? {
      var i := f.value;
      SplitStepAt(s, d, n, i);
      FirstPieceCut(s, d, i);
      SplitCuts(s[i + |d|..], d, n - 1);
      CutsCons(s[..i], SplitAtMost(s[i + |d|..], d, n - 1), d, n);
    }
  }

  /**
   * Pieces of two or more: s is the first piece, d and the joined rest; the first piece ends at
   * the first occurrence of d; and the rest is exploded with one piece fewer.
   */
  lemma {:induction false} ExplodedHead(s: seq<char>, d: seq<char>, n: nat, a: seq<seq<char>>)
    requires |d| > 0 && Exploded(s, d, n, a) && |a| > 1
    ensures n > 1 && |a[0]| + |d| <= |s| && s == a[0] + d + Implode(d, a[1..])
    ensures Search.OccursAt(s, d, |a[0]|)
    ensures forall j :: 0 <= j < |a[0]| ==> !Search.OccursAt(s, d, j)
    ensures Exploded(s[|a[0]| + |d|..], d, n - 1, a[1..])
  {
    var p, rest := a[0], a[1..];
    assert a == [p] + rest;
    ImplodeCons(d, p, rest);
    assert s[..|p| + |d|] == p + d;
    assert s[|p|..|p| + |d|] == d;
    forall j | 0 <= j < |p| ensures !Search.OccursAt(s, d, j) {
      assert !Search.OccursAt(a[0] + d, d, j);
      assert s[j..j + |d|] == (p + d)[j..j + |d|];
    }
    assert s[|p| + |d|..] == Implode(d, rest);
    forall k, j | 0 <= k < |rest| - 1 && 0 <= j < |rest[k]| ensures !Search.OccursAt(rest[k] + d, d, j) {
      assert rest[k] == a[k + 1];
    }
    assert rest[|rest| - 1] == a[|a| - 1];
  }

  /** explode's specification admits one answer: the cuts are fixed, overlapping delimiters included. */
  lemma {:induction false} ExplodedUnique(s: seq<char>, d: seq<char>, n: nat, a: seq<seq<char>>, b: seq<seq<char>>)
    requires |d| > 0 && Exploded(s, d, n, a) && Exploded(s, d, n, b)
    ensures a == b
    decreases |s|
  {
    if |a| == 1 && |b| == 1 {
    } else if |a| == 1 {
      ExplodedHead(s, d, n, b);
    } else if |b| == 1 {
      ExplodedHead(s, d, n, a);
    } else {
      ExplodedHead(s, d, n, a);
      ExplodedHead(s, d, n, b);
      assert |a[0]| == |b[0]|;
      assert a[0] == s[..|a[0]|] && b[0] == s[..|b[0]|];
      ExplodedUnique(s[|a[0]| + |d|..], d, n - 1, a[1..], b[1..]);
      assert a == [a[0]] + a[1..] && b == [b[0]] + b[1..];
    }
  }

  /** Splitting "aaa" at "aa" cuts at the leftmost occurrence: "" and "a", never "a" and "". */
  lemma ExplodeOverlapping()
    ensures Explode("aa", "aaa", PhpIntMax) == Ok(["", "a"])
  {
    var p := ["", "a"];
    assert Implode("aa", p) == "aaa";
    assert Search.OccursAt("aaa", "aa", 0);
    assert Search.OccursAt("a", "aa", 0) == false;
    assert Free("a", "aa");
    assert Exploded("aaa", "aa", PhpIntMax, p);
    ExplodedUnique("aaa", "aa", PhpIntMax, p, Explode("aa", "aaa", PhpIntMax).value);
  }

  /** Every limit above |s| gives all pieces of s. */
  lemma SplitSaturates(s: seq<char>, d: seq<char>, n: nat)
    requires |d| > 0 && n > |s|
    ensures SplitAtMost(s, d, n) == Pieces(s, d)
  {
    SplitAgree(s, d, n, |s| + 1);
  }

  /**
   * explode(d, s, limit): a ValueError for an empty delimiter. An empty subject gives one empty
   * piece (none for a negative limit); a limit of 0 or 1 gives s whole; a larger limit caps the
   * number of pieces; a negative limit -k gives all pieces but the last k.
   */
  function Explode(d: seq<char>, s: seq<char>, limit: int): (r: Result<seq<seq<char>>>)
    ensures r.Err? <==> d == []
    ensures r.Ok? && limit > 0 ==> Exploded(s, d, limit, r.value)
    ensures r.Ok? && limit == 0 ==> r.value == [s]
  {
    if |d| == 0 then Err(ValueError)
    else if |s| == 0 then (if limit >= 0 then Ok([[]]) else Ok([]))
    else if limit > 1 then SplitAtMostExploded(s, d, limit); Ok(SplitAtMost(s, d, limit))
    else if limit >= 0 then Ok([s])
    else
      var all := Pieces(s, d);
      if |all| + limit <= 0 then Ok([]) else Ok(all[..|all| + limit])
  }

  /**
   * With a limit above |s|, explode returns all pieces: joining them with the delimiter gives
   * back s and none of them contains the delimiter.
   */
  lemma ExplodeAllPieces(d: seq<char>, s: seq<char>, limit: int)
    requires |d| > 0 && limit > |s|
    ensures Explode(d, s, limit) == Ok(Pieces(s, d))
    ensures Implode(d, Pieces(s, d)) == s
    ensures NoPieceHolds(Pieces(s, d), d)
  {
    SplitSaturates(s, d, limit);
    PiecesAvoidDelimiter(s, d, |s| + 1);
    if s == [] {
      assert !Search.OccursAt(s, d, 0);
    }
  }

  /** explode's default limit, PHP_INT_MAX, splits at every occurrence of the delimiter. */
  lemma ExplodeDefaultLimit(d: seq<char>, s: seq<char>)
    requires |d| > 0 && |s| < PhpIntMax
    ensures Explode(d, s, PhpIntMax) == Ok(Pieces(s, d))
    ensures NoPieceHolds(Pieces(s, d), d)
  {
    ExplodeAllPieces(d, s, PhpIntMax);
  }

  /** A negative limit -k drops the last k of all pieces, for an empty subject as well. */
  lemma ExplodeNegativeLimit(d: seq<char>, s: seq<char>, k: int)
    requires |d| > 0 && k > 0
    ensures Explode(d, s, -k) == Ok(if |Pieces(s, d)| <= k then [] else Pieces(s, d)[..|Pieces(s, d)| - k])
  {
  }

  /** The pieces of s of n bytes each, the last one possibly shorter (str_split). */
  function Chunks(s: seq<char>, n: nat): (r: seq<seq<char>>)
    requires n >= 1
    ensures Implode([], r) == s
    ensures forall k :: 0 <= k < |r| ==> 1 <= |r[k]| <= n
    ensures forall k :: 0 <= k < |r| - 1 ==> |r[k]| == n
    decreases |s|
  {
    if s == [] then []
    else if |s| <= n then [s]
    else
      var rest := Chunks(s[n..], n);
      var r := [s[..n]] + rest;
      assert r[1..] == rest;
      assert s[..n] + s[n..] == s;
      r
  }

  /**
   * (c + 1) * k == c * k + k, proved apart so that the inductive proofs that need it do not carry
   * nonlinear arithmetic.
   */
  lemma MulSucc(c: int, k: int)
    ensures (c + 1) * k == c * k + k
  {
  }

  /** str_split yields ceil(|s| / n) pieces: the fewest n-byte pieces that hold s. */
  lemma {:induction false} ChunkCount(s: seq<char>, n: nat)
    requires n >= 1
    ensures |Chunks(s, n)| * n >= |s|
    ensures s != [] ==> (|Chunks(s, n)| - 1) * n < |s|
    decreases |s|
  {
    if |s| > n {
      var rest := Chunks(s[n..], n);
      var c := |rest|;
      ChunkCount(s[n..], n);
      assert Chunks(s, n) == [s[..n]] + rest;
      MulSucc(c, n);
      MulSucc(c - 1, n);
    }
  }

  /** str_split(s, n): a ValueError for n < 1; the empty string splits into no pieces (PHP 8.2). */
  function StrSplit(s: seq<char>, n: int): (r: Result<seq<seq<char>>>)
    ensures r.Err? <==> n < 1
    ensures r.Ok? ==> Implode([], r.value) == s
    ensures r.Ok? ==> forall k :: 0 <= k < |r.value| ==> 1 <= |r.value[k]| <= n
    ensures r.Ok? ==> forall k :: 0 <= k < |r.value| - 1 ==> |r.value[k]| == n
  {
    if n < 1 then Err(ValueError) else Ok(Chunks(s, n))
  }

  /** Each piece followed by the terminator. */
  function Terminated(pieces: seq<seq<char>>, end: seq<char>): seq<char>
  {
    if pieces == [] then [] else pieces[0] + end + Terminated(pieces[1..], end)
  }

  /**
   * chunk_split(s, n, end): a ValueError for n < 1; a string shorter than n gets one terminator;
   * otherwise every n-byte chunk, and the shorter rest, is followed by the terminator.
   */
  function ChunkSplit(s: seq<char>, n: int, end: seq<char>): (r: Result<seq<char>>)
    ensures r.Err? <==> n < 1
  {
    if n < 1 then Err(ValueError)
    else if n > |s| then Ok(s + end)
    else Ok(Terminated(Chunks(s, n), end))
  }

  lemma {:induction false} TerminatedIsJoinPlusEnd(pieces: seq<seq<char>>, end: seq<char>)
    requires pieces != []
    ensures Terminated(pieces, end) == Implode(end, pieces) + end
  {
    if |pieces| > 1 {
      TerminatedIsJoinPlusEnd(pieces[1..], end);
    }
  }

  /** chunk_split(s, n, end) is the str_split pieces joined by the terminator, plus one more. */
  lemma ChunkSplitIsJoin(s: seq<char>, n: int, end: seq<char>)
    requires n >= 1
    ensures ChunkSplit(s, n, end) == Ok(Implode(end, Chunks(s, n)) + end)
  {
    if n <= |s| {
      TerminatedIsJoinPlusEnd(Chunks(s, n), end);
    }
  }

  /** With an empty terminator chunk_split gives back the string. */
  lemma ChunkSplitEmptyEnd(s: seq<char>, n: int)
    requires n >= 1
    ensures ChunkSplit(s, n, []) == Ok(s)
  {
    ChunkSplitIsJoin(s, n, []);
    assert Implode([], Chunks(s, n)) + [] == s;
  }
}
