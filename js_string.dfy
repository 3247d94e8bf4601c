/**
 * The JavaScript string built-ins the core relies on, over `seq<char>` (one `char` per
 * Unicode scalar value, which is one JavaScript code unit for text inside the Basic
 * Multilingual Plane): `slice` with non-negative bounds, `startsWith`, `includes`, and
 * `split` on a one-character separator together with its inverse `join`.
 */
module JsString {

  function Min(a: int, b: int): (m: int)
    ensures m <= a && m <= b && (m == a || m == b)
  {
    if a <= b then a else b
  }

  /** `s.slice(start, end)` for non-negative bounds: both are clamped to the length. */
  function Slice(s: string, start: nat, end: nat): (r: string)
    ensures |r| == if Min(end, |s|) <= start then 0 else Min(end, |s|) - start
    ensures forall i :: 0 <= i < |r| ==> r[i] == s[start + i]
  {
    var stop := Min(end, |s|);
    if stop <= start then "" else s[start..stop]
  }

  /** `s.slice(start)` for a non-negative start: the suffix from `start`, empty past the end. */
  function SliceFrom(s: string, start: nat): (r: string)
    ensures |r| == if |s| <= start then 0 else |s| - start
    ensures forall i :: 0 <= i < |r| ==> r[i] == s[start + i]
  {
    Slice(s, start, |s|)
  }

  /** `s.startsWith(prefix)`: case-sensitive, character by character from index 0. */
  function StartsWith(s: string, prefix: string): (r: bool)
    ensures r <==> |prefix| <= |s| && forall i :: 0 <= i < |prefix| ==> s[i] == prefix[i]
  {
    |prefix| <= |s| && s[..|prefix|] == prefix
  }

  /** `sub` occurs in `s` starting at index `i` */
  predicate OccursAt(s: string, sub: string, i: nat)
  {
    i + |sub| <= |s| && s[i..i + |sub|] == sub
  }

  /** Dropping the first character moves every later occurrence one index back. */
  lemma OccursInTail(s: string, sub: string)
    requires |s| > 0
    ensures forall i: nat :: 0 < i ==> (OccursAt(s, sub, i) <==> OccursAt(s[1..], sub, i - 1))
  {
    forall i: nat | 0 < i
      ensures OccursAt(s, sub, i) <==> OccursAt(s[1..], sub, i - 1)
    {
      if i + |sub| <= |s| {
        var here, there := s[i..i + |sub|], s[1..][i - 1..i - 1 + |sub|];
        assert forall k :: 0 <= k < |sub| ==> here[k] == s[i + k] == there[k];
        assert here == there;
      }
    }
  }

  /** `s.includes(sub)`: the search tries every start position from the left. */
  function Includes(s: string, sub: string): (r: bool)
    ensures r <==> exists i: nat :: OccursAt(s, sub, i)
    decreases |s|
  {
    if StartsWith(s, sub) then
      assert OccursAt(s, sub, 0);
      true
    else if |s| == 0 then
      false
    else
      OccursInTail(s, sub);
      var r := Includes(s[1..], sub);
      if r then
        var i: nat :| OccursAt(s[1..], sub, i);
        assert OccursAt(s, sub, i + 1);
        true
      else
        false
  }

  /** A text that lacks the first character of `sub` does not include `sub`. */
  lemma NotIncludedWithoutFirstChar(s: string, sub: string)
    requires |sub| > 0 && sub[0] !in s
    ensures !Includes(s, sub)
  {
    forall i: nat | i + |sub| <= |s|
      ensures !OccursAt(s, sub, i)
    {
      assert s[i..i + |sub|][0] == s[i];
    }
  }

  /** `parts.join(sep)`, the inverse of `Split`. */
  function Join(parts: seq<string>, sep: char): (joined: string)
    decreases |parts|
  {
    if |parts| == 0 then ""
    else if |parts| == 1 then parts[0]
    else parts[0] + [sep] + Join(parts[1..], sep)
  }

  /**
   * `s.split(sep)` for a one-character separator: the fields between separators, in order;
   * there is always at least one (the empty string splits into `[""]`).
   */
  function Split(s: string, sep: char): (parts: seq<string>)
    ensures |parts| >= 1
    ensures forall k :: 0 <= k < |parts| ==> sep !in parts[k]
    ensures Join(parts, sep) == s
    decreases |s|
  {
    if s == [] then [""]
    else
      var rest := Split(s[1..], sep);
      if s[0] == sep then
        assert Join([""] + rest, sep) == [sep] + Join(rest, sep) by {
          assert ([""] + rest)[1..] == rest;
        }
        [""] + rest
      else
        var parts := [[s[0]] + rest[0]] + rest[1..];
        assert Join(parts, sep) == [s[0]] + Join(rest, sep) by {
          if |rest| > 1 {
            assert parts[1..] == rest[1..];
          }
        }
        parts
  }

  /** Splitting after a separator-free word: the word is the first field and the rest splits on its own. */
  lemma {:induction false} SplitAfterWord(word: string, rest: string, sep: char)
    requires sep !in word
    ensures Split(word + [sep] + rest, sep) == [word] + Split(rest, sep)
    decreases |word|
  {
    var s := word + [sep] + rest;
    if word == [] {
      assert s[1..] == rest;
    } else {
      assert s[1..] == word[1..] + [sep] + rest;
      SplitAfterWord(word[1..], rest, sep);
      assert [word[0]] + word[1..] == word;
    }
  }

  /** Splitting a separator-free text gives the text back as the only field. */
  lemma {:induction false} SplitWithoutSeparator(s: string, sep: char)
    requires sep !in s
    ensures Split(s, sep) == [s]
    decreases |s|
  {
    if s != [] {
      SplitWithoutSeparator(s[1..], sep);
      assert [s[0]] + s[1..] == s;
    }
  }

  /** `Split` undoes `Join` for fields free of the separator. */
  lemma {:induction false} SplitJoin(parts: seq<string>, sep: char)
    requires |parts| >= 1
    requires forall k :: 0 <= k < |parts| ==> sep !in parts[k]
    ensures Split(Join(parts, sep), sep) == parts
    decreases |parts|
  {
    if |parts| == 1 {
      SplitWithoutSeparator(parts[0], sep);
    } else {
      SplitJoin(parts[1..], sep);
      SplitAfterWord(parts[0], Join(parts[1..], sep), sep);
      assert [parts[0]] + parts[1..] == parts;
    }
  }

  /** The text of `s` up to its first `sep`, or all of `s` when there is none. */
  function TakeUntil(s: string, sep: char): (r: string)
    ensures sep !in r && StartsWith(s, r)
    ensures r == s || s[|r|] == sep
    decreases |s|
  {
    if s == [] || s[0] == sep then ""
    else [s[0]] + TakeUntil(s[1..], sep)
  }

  /** A separator-free word, followed by nothing or by the separator, is taken whole. */
  lemma {:induction false} TakeUntilWord(word: string, tail: string, sep: char)
    requires sep !in word && (tail == "" || tail[0] == sep)
    ensures TakeUntil(word + tail, sep) == word
    decreases |word|
  {
    if word != [] {
      assert (word + tail)[1..] == word[1..] + tail;
      TakeUntilWord(word[1..], tail, sep);
    }
  }

  /** The first field of a split is the text up to the first separator. */
  lemma {:induction false} FirstFieldIsTakeUntil(s: string, sep: char)
    ensures Split(s, sep)[0] == TakeUntil(s, sep)
    decreases |s|
  {
    if s != [] && s[0] != sep {
      FirstFieldIsTakeUntil(s[1..], sep);
    }
  }
}
