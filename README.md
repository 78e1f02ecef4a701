# Swoole\StringObject in Dafny

This project models `Swoole\StringObject` from the Swoole PHP library (`src/core/StringObject.php`).
The class wraps one byte string, held in its protected field `$string`. Each method applies one
PHP string builtin to that string. Queries (`indexOf`, `endsWith`, `split`, ...) return the
builtin's answer. Transforms (`reverse`, `trim`, `substr`, ...) return a new object around the
builtin's result. `append` is the only method that changes the wrapped string in place.

The model has two layers:

- One module per family of builtins gives their PHP 8 semantics as functions over `seq<char>`
  (one `char` per byte), with lemmas about them:
  - `Search`: strpos, strrpos, stripos, str_starts_with, str_contains.
  - `CaseMap`: strtolower, strtoupper.
  - `Trimming`: trim, ltrim, rtrim, and PHP's character lists with `a..z` ranges.
  - `Reversal`: strrev.
  - `Slicing`: substr, str_repeat.
  - `Replacing`: str_replace.
  - `Splitting`: explode, str_split, chunk_split, and implode as their inverse.
- Module `Swoole` holds the class `StringObject` with a field `str`. Its queries are functions
  that `reads this`. Its transforms are methods that return a `fresh` object. `Append` is a
  method that `modifies this`.

Every builtin that PHP 8 makes throw a `ValueError` returns a `Result` here. This covers an
out-of-range search offset, a negative repeat count, an empty explode delimiter and a chunk
length below 1. A search that finds nothing returns `None`, which stands for PHP's `false`.
Negative offsets and lengths follow PHP's count-from-the-end rules. The semantics are those of
PHP 8.2 and later: case mapping is ASCII-only and locale-free, and `str_split('')` returns no
pieces.

The library's connection pool (`Swoole\Connection\Pool`, `PDOPool`) is not modelled; see
"Left out".

## Model

| member | source | states |
|---|---|---|
| `Swoole.StringObject.constructor` | src/core/StringObject.php:21-24 | the new object wraps exactly the given string, '' by default |
| `Swoole.StringObject.From` | src/core/StringObject.php:31-34 | `from(s)` returns a new object wrapping exactly `s` |
| `Swoole.StringObject.StringCast` | src/core/StringObject.php:26-29 | `__toString()` returns the same string as `toString()` |
| `Swoole.StringObject.ToString` | src/core/StringObject.php:205-208 | `toString()` returns the wrapped string unchanged, so construct-then-toString is the identity |
| `Swoole.StringObject.Length` | src/core/StringObject.php:36-39 | `length()` is the byte count of the wrapped string |
| `Swoole.StringObject.IndexOf` | src/core/StringObject.php:41-44 | ValueError exactly when the offset is outside [-len, len]; otherwise the first occurrence at or after the designated position, or false when there is none |
| `Swoole.StringObject.Pos` | src/core/StringObject.php:51-54 | `pos` gives the same answer as `indexOf` for every needle and offset |
| `Swoole.StringObject.LastIndexOf` | src/core/StringObject.php:46-49 | ValueError exactly when the offset is out of range; otherwise the last occurrence starting at or after a non-negative offset, or at or before len + a negative offset |
| `Swoole.StringObject.Rpos` | src/core/StringObject.php:56-59 | `rpos` gives the same answer as `lastIndexOf` |
| `Swoole.StringObject.Ipos` | src/core/StringObject.php:72-75 | the first occurrence of the needle once both strings are ASCII-lowered |
| `Swoole.StringObject.StartsWith` | src/core/StringObject.php:153-156 | true iff the needle is a prefix of the string |
| `Swoole.StringObject.EndsWith` | src/core/StringObject.php:158-161 | computed as "last occurrence == len - needle length"; true iff the needle is a suffix, the empty needle included, false for a needle longer than the string |
| `Swoole.StringObject.EqualsStrict` | src/core/StringObject.php:163-170 | strict `equals`: true iff the operand is a string equal to the wrapped one, or a StringObject whose string equals it; false for any other value |
| `Swoole.StringObject.Contains` | src/core/StringObject.php:174-177 | true iff the substring occurs somewhere, and iff `indexOf(sub)` does not answer false |
| `Swoole.StringObject.Split` | src/core/StringObject.php:179-182 | ValueError iff the delimiter is empty; for a positive limit, the explode answer: 1 to limit pieces that join back to the string, each but the last ending at the first occurrence of the delimiter from its start, and the last free of it unless the limit was reached; with a limit above the length (the default) no piece contains the delimiter; for limit 0 the single piece [string]; for a negative limit -k all pieces but the last k, or none when there are at most k |
| `Swoole.StringObject.Char` | src/core/StringObject.php:184-190 | '' without a read for an index past the length; the byte at an index inside the string; at index length() the read falls through and PHP warns; a negative index inside [-length, 0) reads the byte counted from the end, and one below -length is a warned '' |
| `Swoole.StringObject.Chunk` | src/core/StringObject.php:200-203 | ValueError iff the length is below 1; pieces that concatenate to the string, each 1..n bytes, all but the last exactly n |
| `Swoole.StringObject.Reverse` | src/core/StringObject.php:64-67 | returns a new object around the reversed string |
| `Swoole.StringObject.Lower` | src/core/StringObject.php:80-83 | returns a new object around the ASCII-lowered string |
| `Swoole.StringObject.Upper` | src/core/StringObject.php:88-91 | returns a new object around the ASCII-raised string |
| `Swoole.StringObject.Trim` | src/core/StringObject.php:96-102 | returns a new object around the string trimmed by the given list, or by PHP's whitespace list when the argument is '' or '0' |
| `Swoole.StringObject.Ltrim` | src/core/StringObject.php:107-110 | returns a new object around the string with leading PHP whitespace removed |
| `Swoole.StringObject.Rtrim` | src/core/StringObject.php:115-118 | returns a new object around the string with trailing PHP whitespace removed |
| `Swoole.StringObject.Substr` | src/core/StringObject.php:123-126 | returns a new object around the `substr` slice; an omitted length means "to the end" |
| `Swoole.StringObject.Repeat` | src/core/StringObject.php:131-134 | ValueError iff the count is negative; otherwise a new object around that many copies |
| `Swoole.StringObject.Append` | src/core/StringObject.php:139-142 | the receiver's string becomes old string + argument, and the returned new object holds that same string |
| `Swoole.StringObject.Replace` | src/core/StringObject.php:148-151 | returns a new object around the `str_replace` text and the replacement count |
| `Swoole.StringObject.ChunkSplit` | src/core/StringObject.php:195-198 | omitted arguments take chunk_split's own defaults (76, "\r\n"), not the declared ''; a terminator passed by name alone goes with the length 76; ValueError iff the length is below 1 |
| `Search.Strpos` | src/core/StringObject.php:43 | ValueError iff the offset is outside [-len, len]; else the unique first occurrence at or after the designated position, or none |
| `Search.Strrpos` | src/core/StringObject.php:48 | ValueError iff the offset is out of range; else the last occurrence within the window the offset designates, or none |
| `Search.Stripos` | src/core/StringObject.php:74 | the first occurrence in the lowered haystack of the lowered needle |
| `Search.StrStartsWith` | src/core/StringObject.php:155 | true iff the needle occurs at position 0 |
| `Search.StrContains` | src/core/StringObject.php:176 | true iff the needle occurs at some position |
| `Search.FirstFromUnique` | src/core/StringObject.php:41-44 | the first-occurrence characterisation admits exactly one answer |
| `Search.LastInUnique` | src/core/StringObject.php:46-49 | the last-occurrence characterisation admits exactly one answer |
| `Search.EmptyNeedle` | src/core/StringObject.php:41-49 | an empty needle is found at the designated offset by strpos, and at the length by strrpos |
| `Search.LongNeedleNotFound` | src/core/StringObject.php:41-49 | a needle longer than the string is never found, forwards or backwards |
| `Search.StartsWithIffFoundAtZero` | src/core/StringObject.php:153-156 | startsWith holds iff strpos answers 0 |
| `Search.ContainsIffFound` | src/core/StringObject.php:174-177 | contains holds iff strpos does not answer false |
| `Search.FirstNotAfterLast` | src/core/StringObject.php:41-49 | strpos finds the needle iff strrpos does, and the first occurrence is never after the last |
| `Search.LastAtSuffixIffSuffix` | src/core/StringObject.php:160 | strrpos answers len - needle length iff the needle is a suffix |
| `Search.StriposIgnoresCase` | src/core/StringObject.php:72-75 | raising or lowering either argument does not change the ipos answer |
| `CaseMap.Strtolower` | src/core/StringObject.php:82 | same length; every byte is lowered, and only ASCII capitals change |
| `CaseMap.Strtoupper` | src/core/StringObject.php:90 | same length; every byte is raised, and only ASCII small letters change |
| `CaseMap.LowerIdempotent` | src/core/StringObject.php:80-83 | lower() applied twice equals lower() once |
| `CaseMap.UpperIdempotent` | src/core/StringObject.php:88-91 | upper() applied twice equals upper() once |
| `CaseMap.LowerOfUpper` | src/core/StringObject.php:80-91 | lowering after raising equals lowering alone |
| `CaseMap.UpperOfLower` | src/core/StringObject.php:80-91 | raising after lowering equals raising alone |
| `Trimming.PlainMask` | src/core/StringObject.php:99 | a character list without dots denotes exactly its own bytes |
| `Trimming.DefaultMaskMembers` | src/core/StringObject.php:101 | the default list strips exactly space, tab, LF, CR, NUL and vertical tab |
| `Trimming.Ltrim` | src/core/StringObject.php:109 | the result is a suffix of the input; every dropped byte is in the list; the result is empty or starts outside the list |
| `Trimming.Rtrim` | src/core/StringObject.php:117 | the result is a prefix of the input; every dropped byte is in the list; the result is empty or ends outside the list |
| `Trimming.Trim` | src/core/StringObject.php:99-101 | the result is a contiguous piece of the input, every byte outside it is in the list, and it is empty or starts and ends outside the list |
| `Trimming.TrimIdempotent` | src/core/StringObject.php:96-118 | trim, ltrim and rtrim each change nothing the second time |
| `Trimming.TrimKeepsTrimmed` | src/core/StringObject.php:96-102 | a string that starts and ends outside the list is returned unchanged |
| `Trimming.TrimEitherOrder` | src/core/StringObject.php:96-102 | stripping the right end first gives the same result as stripping the left end first |
| `Reversal.Strrev` | src/core/StringObject.php:66 | the reversal has the length of the input |
| `Reversal.StrrevAt` | src/core/StringObject.php:64-67 | byte k of the reversal is byte len-1-k of the input |
| `Reversal.StrrevInvolutive` | src/core/StringObject.php:64-67 | reverse() applied twice gives back the original string |
| `Reversal.StrrevConcat` | src/core/StringObject.php:64-67 | the reversal of a + b is the reversal of b followed by the reversal of a |
| `Slicing.Substr` | src/core/StringObject.php:125 | '' for an offset past the end; from a non-negative offset, the suffix without a length, exactly min(length, len - offset) bytes for a non-negative length, and all but the last -length bytes (or '') for a negative one; the last -offset bytes for a negative offset without a length; the whole string for an offset before -len without a length |
| `Slicing.SubstrClampedOffset` | src/core/StringObject.php:123-126 | an offset before -len reads as offset 0, whatever the length |
| `Slicing.SubstrSplit` | src/core/StringObject.php:123-126 | substr(0, k) followed by substr(k) gives back the string |
| `Slicing.SubstrNegativeOffset` | src/core/StringObject.php:123-126 | a negative offset -k reads the same bytes as offset len-k |
| `Slicing.SubstrNegativeLength` | src/core/StringObject.php:123-126 | a negative length -k drops the last k bytes of what the offset alone gives |
| `Slicing.Repeat` | src/core/StringObject.php:133 | n copies have length n times the length of the string |
| `Slicing.StrRepeat` | src/core/StringObject.php:133 | ValueError iff the count is negative; else `Slicing.Repeat(s, times)`, `times` copies of the string one after another (bytes fixed by `Slicing.RepeatAt`), of length times times the string's length |
| `Slicing.RepeatAt` | src/core/StringObject.php:131-134 | byte j of copy q of the repetition is byte j of the string |
| `Slicing.RepeatAdd` | src/core/StringObject.php:131-134 | a + b copies are a copies followed by b copies |
| `Replacing.ReplaceAll` | src/core/StringObject.php:150 | the text's length is the old length plus count times the length difference of replacement and search |
| `Replacing.StrReplace` | src/core/StringObject.php:150 | the same length law; an empty search string changes nothing and counts 0; otherwise the text is the explode pieces of the subject joined by the replacement, and the count is the number of cuts |
| `Replacing.ReplaceAllIsJoinOfPieces` | src/core/StringObject.php:148-151 | replacing every leftmost non-overlapping occurrence gives the same text as implode(replacement, explode(search, s)), with one replacement per cut |
| `Replacing.NoReplacementIffAbsent` | src/core/StringObject.php:148-151 | for a non-empty search string the count is 0 iff the string does not occur, and then the text is unchanged |
| `Replacing.ReplaceBySelf` | src/core/StringObject.php:148-151 | replacing a string by itself gives back the subject |
| `Splitting.SplitAtMost` | src/core/StringObject.php:181 | between 1 and n pieces |
| `Splitting.SplitCuts` | src/core/StringObject.php:179-182 | each piece but the last ends at the first occurrence of the delimiter from its start; with fewer pieces than the limit the last piece holds no delimiter |
| `Splitting.SplitAtMostExploded` | src/core/StringObject.php:179-182 | the pieces meet the whole explode specification: 1 to n pieces, joining back to the string, cut leftmost and as often as the limit allows |
| `Splitting.ExplodedUnique` | src/core/StringObject.php:179-182 | the explode specification admits exactly one answer, overlapping delimiters included |
| `Splitting.ExplodeOverlapping` | src/core/StringObject.php:181 | explode('aa', 'aaa') is ['', 'a']: the cut is at the leftmost occurrence |
| `Splitting.Pieces` | src/core/StringObject.php:181 | at least one piece, and the pieces joined with the delimiter give back the string |
| `Splitting.PiecesAvoidDelimiter` | src/core/StringObject.php:179-182 | when more pieces are allowed than the string has bytes, no piece contains the delimiter |
| `Splitting.SplitSaturates` | src/core/StringObject.php:179-182 | every limit above the length splits the string at every occurrence |
| `Splitting.Explode` | src/core/StringObject.php:181 | ValueError iff the delimiter is empty; for a positive limit, pieces meeting the explode specification (1 to limit pieces, joining back, cut leftmost, cut as often as the limit allows); a limit of 0 gives the string whole |
| `Splitting.ExplodeAllPieces` | src/core/StringObject.php:179-182 | a limit above the length gives all pieces, which join back to the string and contain no delimiter |
| `Splitting.ExplodeDefaultLimit` | src/core/StringObject.php:179 | the default limit PHP_INT_MAX gives all pieces, none containing the delimiter |
| `Splitting.ExplodeNegativeLimit` | src/core/StringObject.php:179-182 | a negative limit -k gives all pieces but the last k, and none when there are at most k |
| `Splitting.Chunks` | src/core/StringObject.php:202 | pieces concatenate to the string, each 1..n bytes, all but the last exactly n |
| `Splitting.ChunkCount` | src/core/StringObject.php:200-203 | the number of pieces is the ceiling of length / n |
| `Splitting.StrSplit` | src/core/StringObject.php:202 | ValueError iff n is below 1; pieces of 1..n bytes, all but the last exactly n, that concatenate to the string |
| `Splitting.ChunkSplit` | src/core/StringObject.php:197 | ValueError iff the chunk length is below 1 |
| `Splitting.TerminatedIsJoinPlusEnd` | src/core/StringObject.php:195-198 | pieces each followed by the terminator equal the pieces joined by it plus one terminator |
| `Splitting.ChunkSplitIsJoin` | src/core/StringObject.php:195-198 | chunk_split is the str_split pieces joined by the terminator plus one more terminator, the empty string included |
| `Splitting.ChunkSplitEmptyEnd` | src/core/StringObject.php:195-198 | with an empty terminator chunk_split gives back the string |
| `Swoole.CharAsWritten` | src/core/StringObject.php:184-190 | as written, char() warns exactly at index length() and below -len; past the length it answers '' silently; inside [-len, len) it answers the byte, counting from the end for a negative index |
| `Swoole.ReadOffset` | src/core/StringObject.php:189 | reading `$s[$i]` warns iff i is outside [-len, len); a warned read is ''; otherwise the byte, a negative index counting from the end |
| `Swoole.CharIntended` | src/core/StringObject.php:186 | with a `>=` guard no non-negative index warns |
| `Swoole.CharAtLengthWarns` | src/core/StringObject.php:186 | as written, char(length()) reads past the end and warns; the `>=` guard answers '' silently |
| `Swoole.CharIntendedSameText` | src/core/StringObject.php:184-190 | the `>=` guard returns the same string as the written one for every index and warns less |
| `Swoole.TrimCharacters` | src/core/StringObject.php:98-101 | a list other than '' and '0' is used as given; '' and '0' fall back to the default list |
| `Swoole.TrimCharactersIntended` | src/core/StringObject.php:98-101 | only '' falls back to the default list |
| `Swoole.TrimZeroIgnored` | src/core/StringObject.php:98 | as written, trim('0') on "0a0" returns "0a0" |
| `Swoole.TrimZeroIntended` | src/core/StringObject.php:98 | with the intended test, trim('0') on "0a0" returns "a" |
| `Swoole.TrimIntendedHonoursCharacters` | src/core/StringObject.php:96-102 | with the intended test, the result never starts or ends in a byte of a non-empty list |

## Findings

| source | as written | input that shows it | evidently intended | confidence | as-written member | corrected member |
|---|---|---|---|---|---|---|
| src/core/StringObject.php:98 | `if ($characters)` counts the list '0' as absent, because PHP treats the string "0" as false, so trim('0') strips whitespace | `StringObject::from('0a0')->trim('0')` gives '0a0' | only the default '' falls back, so the call gives 'a' | high, not executed | `Swoole.TrimCharacters` (shown by `Swoole.TrimZeroIgnored`) | `Swoole.TrimCharactersIntended` (proved by `Swoole.TrimZeroIntended` and `Swoole.TrimIntendedHonoursCharacters`) |
| src/core/StringObject.php:186 | the guard `$index > strlen(...)` lets index length() through to `$this->string[$index]`, an out-of-range read that PHP 8 answers with '' and an "Uninitialized string offset" warning | `StringObject::from('ab')->char(2)` | the early return covers length() too (`>=`), giving '' without a warning | medium, not executed | `Swoole.CharAsWritten` (shown by `Swoole.CharAtLengthWarns`) | `Swoole.CharIntended` (proved by `Swoole.CharIntendedSameText`) |

`Swoole.StringObject.Trim` and `Swoole.StringObject.Char` keep the behaviour as written, because
they model the class as it is. The corrected definitions sit beside them with their properties
proved.

## Left out

- The connection pool, its acquire/release/wait queue and timeouts: its base class
  `Swoole\Connection\Pool` is not part of this model, and its behaviour rests on coroutine
  scheduling.
- `src/core/Connection/Db/PDOPool.php`: it only formats a DSN and hands a closure that calls the
  foreign `PDO` constructor to its base class `Swoole\Connection\Pool`, which is not modelled.
- `tests/unit/Curl/HandlerTest.php` and `example/pdo/base.php`: network tests and a benchmark
  script. They are I/O only.
- `equals` in non-strict mode: PHP's `==` compares numeric strings as numbers, floats included.
  Only the strict branch is modelled.
- `split` and `chunk` wrap their array in `Swoole\ArrayObject`, which is not part of this model.
  The model returns the sequence of pieces.
- `new static`: the late-bound subclass of the result is not modelled. Every transform returns a
  `StringObject`.
- Non-string arguments are not modelled. Under `strict_types` they raise a TypeError in the
  builtins, and `append` converts them to strings. Every argument is a byte string here.
- `trim` character lists: the warnings PHP prints for a malformed `..` range are not modelled,
  only the set of bytes it strips.
- `Splitting.SplitAtMost`: its own contract only bounds the number of pieces. Where it cuts is
  proved apart, by `Splitting.SplitCuts` and `Splitting.SplitAtMostExploded`, and `Splitting.Explode`
  states it. Stating it on the function itself makes every proof that unfolds the function much
  more expensive.
- `Swoole.StringObject.Char`: PHP's warning is a flag in the result. Error handlers that turn
  warnings into exceptions are not modelled.
- `Swoole.StringObject.Replace`: only the string forms of `str_replace` are modelled. The array
  forms of search and replace are left out. The by-reference `&$count` is the method's second
  result.
- Integer width: offsets, lengths and counts are unbounded integers. PHP's 64-bit limit appears
  only as explode's default limit PHP_INT_MAX. Strings of PHP_INT_MAX bytes or more are not
  considered.
- PHP versions before 8.2: they differ in `str_split('')`, which gave one empty piece, and in
  locale-dependent case mapping. Neither is modelled.
