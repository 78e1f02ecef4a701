/**
 * Swoole\StringObject: a wrapper around one byte string. Every query is a PHP string builtin
 * applied to the wrapped string; every transform wraps the builtin's result in a new object;
 * append alone changes the wrapped string in place.
 */
module Swoole {
  import opened Wrappers
  import Search
  import CaseMap
  import Trimming
  import Reversal
  import Slicing
  import Replacing
  import Splitting

  /** What reading the string offset `$s[$i]` yields: the byte as a string, and whether PHP warned. */
  datatype OffsetRead = OffsetRead(text: seq<char>, warned: bool)

  /**
   * `$s[$i]` in PHP 8: a negative index counts from the end; an index outside the string yields
   * '' and the warning "Uninitialized string offset".
   */
  function ReadOffset(s: seq<char>, i: int): (r: OffsetRead)
    ensures r.warned <==> !(-|s| <= i < |s|)
    ensures r.warned ==> r.text == []
    ensures 0 <= i < |s| ==> r.text == [s[i]]
    ensures -|s| <= i < 0 ==> r.text == [s[|s| + i]]
  {
    if 0 <= i < |s| then OffsetRead([s[i]], false)
    else if -|s| <= i < 0 then OffsetRead([s[|s| + i]], false)
    else OffsetRead([], true)
  }

  /** char()'s guard as written: only an index strictly past the length is answered with '' directly. */
  function CharAsWritten(s: seq<char>, index: int): (r: OffsetRead)
    ensures r.warned <==> index == |s| || index < -|s|
    ensures index > |s| ==> r == OffsetRead([], false)
    ensures r.warned ==> r.text == []
    ensures -|s| <= index < |s| ==> r.text == [s[if index < 0 then |s| + index else index]]
  {
    if index > |s| then OffsetRead([], false) else ReadOffset(s, index)
  }

  /** char() with the guard `>=`, which the early return evidently means to cover. */
  function CharIntended(s: seq<char>, index: int): (r: OffsetRead)
    ensures index >= 0 ==> !r.warned
  {
    if index >= |s| then OffsetRead([], false) else ReadOffset(s, index)
  }

  /** As written, char(length()) falls through to the offset read and draws PHP's warning. */
  lemma CharAtLengthWarns(s: seq<char>)
    ensures CharAsWritten(s, |s|) == OffsetRead([], true)
    ensures CharIntended(s, |s|) == OffsetRead([], false)
  {
  }

  /** The corrected guard answers every index with the same string as the written one. */
  lemma CharIntendedSameText(s: seq<char>, index: int)
    ensures CharIntended(s, index).text == CharAsWritten(s, index).text
    ensures CharIntended(s, index).warned ==> CharAsWritten(s, index).warned
  {
  }

  /**
   * The character list trim() hands to PHP as written: `if ($characters)` takes both '' and '0'
   * as absent, since PHP counts the string "0" as false.
   */
  function TrimCharacters(characters: seq<char>): (mask: seq<char>)
    ensures characters != [] && characters != ['0'] ==> mask == characters
    ensures characters == [] || characters == ['0'] ==> mask == Trimming.DefaultCharacters
  {
    if characters == [] || characters == ['0'] then Trimming.DefaultCharacters else characters
  }

  /** The character list trim() evidently means to use: the default only when none is given. */
  function TrimCharactersIntended(characters: seq<char>): (mask: seq<char>)
    ensures characters != [] ==> mask == characters
    ensures characters == [] ==> mask == Trimming.DefaultCharacters
  {
    if characters == [] then Trimming.DefaultCharacters else characters
  }

  /** As written, trim('0') strips whitespace and leaves the zeros of "0a0" in place. */
  lemma TrimZeroIgnored()
    ensures Trimming.Trim("0a0", TrimCharacters("0")) == "0a0"
  {
    Trimming.DefaultMaskMembers('0');
  }

  /** With the intended test, trim('0') strips the zeros: "0a0" becomes "a". */
  lemma TrimZeroIntended()
    ensures Trimming.Trim("0a0", TrimCharactersIntended("0")) == "a"
  {
    var s, mask := "0a0", "0";
    assert Trimming.InMask(mask, '0') && !Trimming.InMask(mask, 'a');
    assert s[1..] == "a0";
    assert Trimming.Ltrim("a0", mask) == "a0";
    assert Trimming.Ltrim(s, mask) == "a0";
    assert "a0"[..1] == "a";
    assert Trimming.Rtrim("a", mask) == "a";
    assert Trimming.Rtrim("a0", mask) == "a";
  }

  /** With the intended test, any non-empty character list is honoured: no result starts or ends in it. */
  lemma TrimIntendedHonoursCharacters(s: seq<char>, characters: seq<char>)
    requires characters != []
    ensures var r := Trimming.Trim(s, TrimCharactersIntended(characters));
      r != [] ==> !Trimming.InMask(characters, r[0]) && !Trimming.InMask(characters, r[|r| - 1])
  {
  }

  /** chunk_split's own defaults, which apply to the arguments chunkSplit() does not pass on. */
  const ChunkSplitDefaultLength: int := 76
  const ChunkSplitDefaultEnd: seq<char> := "\r\n"

  /** An operand of equals(): a string, a StringObject, or any other PHP value. */
  datatype Operand = Text(text: seq<char>) | Wrapped(obj: StringObject) | NonString

  class StringObject {
    /** The wrapped byte string (the protected field `$string`). */
    var str: seq<char>

    constructor (s: seq<char> := [])
      ensures str == s
    {
      str := s;
    }

    /** from(): a new object around s. */
    static method From(s: seq<char> := []) returns (o: StringObject)
      ensures fresh(o) && o.str == s
    {
      o := new StringObject(s);
    }

    /** toString(): the wrapped string, unchanged. */
    function ToString(): (r: seq<char>)
      reads this
      ensures r == str
    {
      str
    }

    /** __toString(): the same string as toString(). */
    function StringCast(): (r: seq<char>)
      reads this
      ensures r == ToString()
    {
      str
    }

    /** length(): the number of bytes of the wrapped string. */
    function Length(): (r: nat)
      reads this
      ensures r == |str|
    {
      |str|
    }

    /** indexOf(): the first occurrence at or after the offset, false if none, ValueError out of range. */
    function IndexOf(needle: seq<char>, offset: int := 0): (r: Result<Option<nat>>)
      reads this
      ensures r.Err? <==> !Search.OffsetInRange(str, offset)
      ensures r.Ok? ==> Search.IsFirstFrom(str, needle, Search.Origin(str, offset), r.value)
    {
      Search.Strpos(str, needle, offset)
    }

    /** pos(): the same search as indexOf(). */
    function Pos(needle: seq<char>, offset: int := 0): (r: Result<Option<nat>>)
      reads this
      ensures r == IndexOf(needle, offset)
    {
      Search.Strpos(str, needle, offset)
    }

    /** lastIndexOf(): the last occurrence not before a non-negative offset, nor after |s| + a negative one. */
    function LastIndexOf(needle: seq<char>, offset: int := 0): (r: Result<Option<nat>>)
      reads this
      ensures r.Err? <==> !Search.OffsetInRange(str, offset)
      ensures r.Ok? && offset >= 0 ==> Search.IsLastIn(str, needle, offset, |str|, r.value)
      ensures r.Ok? && offset < 0 ==> Search.IsLastIn(str, needle, 0, |str| + offset, r.value)
    {
      Search.Strrpos(str, needle, offset)
    }

    /** rpos(): the same search as lastIndexOf(). */
    function Rpos(needle: seq<char>, offset: int := 0): (r: Result<Option<nat>>)
      reads this
      ensures r == LastIndexOf(needle, offset)
    {
      Search.Strrpos(str, needle, offset)
    }

    /** ipos(): the first occurrence of the needle when the case of ASCII letters is ignored. */
    function Ipos(needle: seq<char>): (r: Option<nat>)
      reads this
      ensures Search.IsFirstFrom(CaseMap.Strtolower(str), CaseMap.Strtolower(needle), 0, r)
    {
      Search.Stripos(str, needle)
    }

    /** startsWith(): whether the needle is a prefix. */
    function StartsWith(needle: seq<char>): (r: bool)
      reads this
      ensures r <==> |needle| <= |str| && str[..|needle|] == needle
    {
      Search.StrStartsWith(str, needle)
    }

    /**
     * endsWith(), computed as "the last occurrence starts at length() - |needle|": this holds
     * exactly when the needle is a suffix, the empty needle included.
     */
    function EndsWith(needle: seq<char>): (r: bool)
      reads this
      ensures r <==> |needle| <= |str| && str[|str| - |needle|..] == needle
    {
      Search.LastAtSuffixIffSuffix(str, needle);
      var last := Search.Strrpos(str, needle, 0);
      last.Ok? && last.value.Some? && last.value.value == |str| - |needle|
    }

    /** equals() in strict mode: a StringObject operand is compared by its string; === does the rest. */
    function EqualsStrict(other: Operand): (r: bool)
      reads this, if other.Wrapped? then {other.obj} else {}
      ensures r <==> (other.Text? && other.text == str) || (other.Wrapped? && other.obj.str == str)
    {
      match other
      case Text(t) => str == t
      case Wrapped(o) => str == o.str
      case NonString => false
    }

    /** contains(): whether the substring occurs, that is, whether indexOf() does not answer false. */
    function Contains(subString: seq<char>): (r: bool)
      reads this
      ensures r <==> exists i :: Search.OccursAt(str, subString, i)
      ensures r <==> IndexOf(subString) != Ok(None)
    {
      Search.ContainsIffFound(str, subString);
      Search.StrContains(str, subString)
    }

    /**
     * split(): the explode() pieces; joined with the delimiter they give back the string. A limit
     * of 0 counts as 1, and a negative limit -k drops the last k pieces.
     */
    function Split(delimiter: seq<char>, limit: int := Splitting.PhpIntMax): (r: Result<seq<seq<char>>>)
      reads this
      ensures r.Err? <==> delimiter == []
      ensures r.Ok? && limit > 0 ==> Splitting.Exploded(str, delimiter, limit, r.value)
      ensures r.Ok? && limit > |str| ==> Splitting.NoPieceHolds(r.value, delimiter)
      ensures r.Ok? && limit == 0 ==> r.value == [str]
      ensures r.Ok? && limit < 0 ==>
        var all := Splitting.Pieces(str, delimiter);
        r.value == (if |all| <= -limit then [] else all[..|all| + limit])
    {
      if delimiter != [] && limit > |str| then
        Splitting.ExplodeAllPieces(delimiter, str, limit);
        Splitting.Explode(delimiter, str, limit)
      else if delimiter != [] && limit < 0 then
        Splitting.ExplodeNegativeLimit(delimiter, str, -limit);
        Splitting.Explode(delimiter, str, limit)
      else
        Splitting.Explode(delimiter, str, limit)
    }

    /**
     * char(): '' for an index past the length, otherwise the offset read; at index length() that
     * read is out of range and warns.
     */
    function Char(index: int): (r: OffsetRead)
      reads this
      ensures index > |str| ==> r == OffsetRead([], false)
      ensures 0 <= index < |str| ==> r == OffsetRead([str[index]], false)
      ensures index == |str| ==> r == OffsetRead([], true)
      ensures -|str| <= index < 0 ==> r == OffsetRead([str[|str| + index]], false)
      ensures index < -|str| ==> r == OffsetRead([], true)
    {
      CharAsWritten(str, index)
    }

    /** chunk(): the str_split pieces, all of splitLength bytes but the last. */
    function Chunk(splitLength: int := 1): (r: Result<seq<seq<char>>>)
      reads this
      ensures r.Err? <==> splitLength < 1
      ensures r.Ok? ==> Splitting.Implode([], r.value) == str
      ensures r.Ok? ==> forall k :: 0 <= k < |r.value| ==> 1 <= |r.value[k]| <= splitLength
      ensures r.Ok? ==> forall k :: 0 <= k < |r.value| - 1 ==> |r.value[k]| == splitLength
    {
      Splitting.StrSplit(str, splitLength)
    }

    /** reverse(): a new object around the reversed string. */
    method Reverse() returns (r: StringObject)
      ensures fresh(r) && r.str == Reversal.Strrev(str)
    {
      r := new StringObject(Reversal.Strrev(str));
    }

    /** lower(): a new object around the ASCII-lowered string. */
    method Lower() returns (r: StringObject)
      ensures fresh(r) && r.str == CaseMap.Strtolower(str)
    {
      r := new StringObject(CaseMap.Strtolower(str));
    }

    /** upper(): a new object around the ASCII-raised string. */
    method Upper() returns (r: StringObject)
      ensures fresh(r) && r.str == CaseMap.Strtoupper(str)
    {
      r := new StringObject(CaseMap.Strtoupper(str));
    }

    /** trim(): strips the given characters, or PHP's whitespace when the argument is '' or '0'. */
    method Trim(characters: seq<char> := []) returns (r: StringObject)
      ensures fresh(r) && r.str == Trimming.Trim(str, TrimCharacters(characters))
    {
      r := new StringObject(Trimming.Trim(str, TrimCharacters(characters)));
    }

    /** ltrim(): strips PHP's whitespace from the start. */
    method Ltrim() returns (r: StringObject)
      ensures fresh(r) && r.str == Trimming.Ltrim(str, Trimming.DefaultCharacters)
    {
      r := new StringObject(Trimming.Ltrim(str, Trimming.DefaultCharacters));
    }

    /** rtrim(): strips PHP's whitespace from the end. */
    method Rtrim() returns (r: StringObject)
      ensures fresh(r) && r.str == Trimming.Rtrim(str, Trimming.DefaultCharacters)
    {
      r := new StringObject(Trimming.Rtrim(str, Trimming.DefaultCharacters));
    }

    /** substr(): a new object around the substr() slice. */
    method Substr(offset: int, length: Option<int> := None) returns (r: StringObject)
      ensures fresh(r) && r.str == Slicing.Substr(str, offset, length)
    {
      r := new StringObject(Slicing.Substr(str, offset, length));
    }

    /** repeat(): a new object around `times` copies; a ValueError for a negative count. */
    method Repeat(times: int) returns (r: Result<StringObject>)
      ensures r.Err? <==> times < 0
      ensures r.Ok? ==> fresh(r.value) && r.value.str == Slicing.Repeat(str, times)
    {
      var s := Slicing.StrRepeat(str, times);
      if s.Err? {
        r := Err(s.error);
      } else {
        var o := new StringObject(s.value);
        r := Ok(o);
      }
    }

    /** append(): extends the wrapped string in place and returns a new object around the result. */
    method Append(x: seq<char>) returns (r: StringObject)
      modifies this
      ensures str == old(str) + x
      ensures fresh(r) && r.str == str
    {
      str := str + x;
      r := new StringObject(str);
    }

    /** replace(): a new object around the str_replace() text, and the number of replacements. */
    method Replace(search: seq<char>, replacement: seq<char>) returns (r: StringObject, count: nat)
      ensures fresh(r) && Replacing.StrReplace(search, replacement, str) == Replacing.Replaced(r.str, count)
    {
      var res := Replacing.StrReplace(search, replacement, str);
      r := new StringObject(res.text);
      count := res.count;
    }

    /**
     * chunkSplit(): passes on only the arguments it was given, so an omitted one takes
     * chunk_split's own default (76 bytes, "\r\n"), not the '' the method declares. A length
     * skipped by a named terminator is filled in with the declared 76, chunk_split's default too.
     */
    method ChunkSplit(chunkLength: Option<int> := None, chunkEnd: Option<seq<char>> := None)
      returns (r: Result<StringObject>)
      ensures var n := if chunkLength.Some? then chunkLength.value else ChunkSplitDefaultLength;
        var e := if chunkEnd.Some? then chunkEnd.value else ChunkSplitDefaultEnd;
        var s := Splitting.ChunkSplit(str, n, e);
        (r.Err? <==> s.Err?) && (r.Ok? ==> fresh(r.value) && r.value.str == s.value)
    {
      var n := if chunkLength.Some? then chunkLength.value else ChunkSplitDefaultLength;
      var e := if chunkEnd.Some? then chunkEnd.value else ChunkSplitDefaultEnd;
      var s := Splitting.ChunkSplit(str, n, e);
      if s.Err? {
        r := Err(s.error);
      } else {
        var o := new StringObject(s.value);
        r := Ok(o);
      }
    }
  }
}
