/** str_replace with one search string, one replacement and the by-reference replacement count. */
module Replacing {
  import opened Wrappers
  import Search
  import Splitting

  /** The text and the count str_replace produces. */
  datatype Replaced = Replaced(text: seq<char>, count: nat)

  /**
   * Finds the first occurrence of the (non-empty) search string, copies the bytes before it, puts
   * the replacement in its place and goes on after it, so occurrences never overlap
   * (php_str_to_str_ex).
   */
  function ReplaceAll(s: seq<char>, search: seq<char>, replacement: seq<char>): (r: Replaced)
    requires |search| > 0
    ensures |r.text| == |s| + r.count * (|replacement| - |search|)
    decreases |s|
  {
    var f := Search.FirstFrom(s, search, 0);
    if f.None? then Replaced(s, 0)
    else
      assert Search.OccursAt(s, search, f.value);
      var rest := ReplaceAll(s[f.value + |search|..], search, replacement);
      Splitting.MulSucc(rest.count, |replacement| - |search|);
      Replaced(s[..f.value] + (replacement + rest.text), rest.count + 1)
  }

  /** The replacing at a known first occurrence i. */
  lemma ReplaceAllAt(s: seq<char>, d: seq<char>, replacement: seq<char>, i: nat)
    requires |d| > 0 && Search.FirstFrom(s, d, 0) == Some(i)
    ensures i + |d| <= |s|
    ensures var rest := ReplaceAll(s[i + |d|..], d, replacement);
      ReplaceAll(s, d, replacement) == Replaced(s[..i] + (replacement + rest.text), rest.count + 1)
  {
    assert Search.OccursAt(s, d, i);
  }

  /**
   * str_replace(search, replacement, s, count): an empty search string leaves s as it is; otherwise
   * the text is implode(replacement, explode(search, s)), one replacement per cut.
   */
  function StrReplace(search: seq<char>, replacement: seq<char>, s: seq<char>): (r: Replaced)
    ensures |r.text| == |s| + r.count * (|replacement| - |search|)
    ensures search == [] ==> r == Replaced(s, 0)
    ensures search != [] ==>
      var pieces := Splitting.Pieces(s, search);
      r == Replaced(Splitting.Implode(replacement, pieces), |pieces| - 1)
  {
    if search == [] then Replaced(s, 0)
    else
      ReplaceAllIsJoinOfPieces(s, search, replacement, |s| + 1);
      ReplaceAll(s, search, replacement)
  }

  /** With a cut allowed at every occurrence, the replacing gives the pieces glued by the replacement. */
  lemma {:induction false} ReplaceAllIsJoinOfPieces(s: seq<char>, d: seq<char>, replacement: seq<char>, n: nat)
    requires |d| > 0 && n > |s|
    ensures var pieces := Splitting.SplitAtMost(s, d, n);
      ReplaceAll(s, d, replacement) == Replaced(Splitting.Implode(replacement, pieces), |pieces| - 1)
    decreases |s|
  {
    var f := Search.FirstFrom(s, d, 0);
    if n > 1 && f.Some? {
      var i := f.value;
      var t := s[i + |d|..];
      var rest := Splitting.SplitAtMost(t, d, n - 1);
      var joined := Splitting.Implode(replacement, rest);
      Splitting.SplitStepAt(s, d, n, i);
      ReplaceAllAt(s, d, replacement, i);
      ReplaceAllIsJoinOfPieces(t, d, replacement, n - 1);
      assert ReplaceAll(s, d, replacement) == Replaced(s[..i] + (replacement + joined), |rest|);
      Splitting.ImplodeCons(replacement, s[..i], rest);
      assert s[..i] + replacement + joined == s[..i] + (replacement + joined);
    } else {
      assert Splitting.SplitAtMost(s, d, n) == [s] by { if n > 1 { Splitting.SplitStep(s, d, n); } }
      assert ReplaceAll(s, d, replacement) == Replaced(s, 0);
      assert Splitting.Implode(replacement, [s]) == s;
    }
  }

  /**
   * For a non-empty search string, nothing is replaced exactly when the string does not occur,
   * and then the text is unchanged.
   */
  lemma NoReplacementIffAbsent(s: seq<char>, search: seq<char>, replacement: seq<char>)
    requires |search| > 0
    ensures StrReplace(search, replacement, s).count == 0 <==> forall i :: !Search.OccursAt(s, search, i)
    ensures StrReplace(search, replacement, s).count == 0 ==> StrReplace(search, replacement, s).text == s
  {
    if Search.FirstFrom(s, search, 0).Some? {
      assert Search.OccursAt(s, search, Search.FirstFrom(s, search, 0).value);
    }
  }

  /** Replacing a string by itself gives back the subject, whatever the count. */
  lemma {:induction false} ReplaceBySelf(s: seq<char>, search: seq<char>)
    ensures StrReplace(search, search, s).text == s
    decreases |s|
  {
    if search != [] && Search.FirstFrom(s, search, 0).Some? {
      var i := Search.FirstFrom(s, search, 0).value;
      ReplaceAllAt(s, search, search, i);
      ReplaceBySelf(s[i + |search|..], search);
      assert Search.OccursAt(s, search, i);
      assert s[..i] + search + s[i + |search|..] == s;
    }
  }
}
