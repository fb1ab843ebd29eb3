/**
 * The few .NET string operations the core relies on: `char.IsWhiteSpace`,
 * `string.Trim` and `string.ToLower`, the last restricted to ASCII letters
 * (the invariant culture for every character the core compares against).
 */
module Strings {

  /** `char.IsWhiteSpace`: the Unicode space separators, line/paragraph separators and the
      control characters U+0009..U+000D and U+0085. */
  predicate IsWhiteSpace(c: char) {
    || ('\t' <= c <= '\r')
    || c == ' '
    || c == '\U{0085}'
    || c == '\U{00A0}'
    || c == '\U{1680}'
    || ('\U{2000}' <= c <= '\U{200A}')
    || c == '\U{2028}'
    || c == '\U{2029}'
    || c == '\U{202F}'
    || c == '\U{205F}'
    || c == '\U{3000}'
  }

  /** Drops the longest prefix of characters satisfying `drop`. */
  function TrimStartBy(s: string, drop: char -> bool): (r: string)
    ensures |r| <= |s| && r == s[|s| - |r|..]
    ensures forall i :: 0 <= i < |s| - |r| ==> drop(s[i])
    ensures r == [] || !drop(r[0])
  {
    if |s| > 0 && drop(s[0]) then TrimStartBy(s[1..], drop) else s
  }

  /** Drops the longest suffix of characters satisfying `drop`. */
  function TrimEndBy(s: string, drop: char -> bool): (r: string)
    ensures |r| <= |s| && r == s[..|r|]
    ensures forall i :: |r| <= i < |s| ==> drop(s[i])
    ensures r == [] || !drop(r[|r| - 1])
  {
    if |s| > 0 && drop(s[|s| - 1]) then TrimEndBy(s[..|s| - 1], drop) else s
  }

  /** Drops dropped characters from both ends: one at the front while there is one, then the back. */
  function TrimBy(s: string, drop: char -> bool): (r: string)
    ensures |r| <= |s|
    ensures r == [] || (!drop(r[0]) && !drop(r[|r| - 1]))
  {
    if |s| > 0 && drop(s[0]) then TrimBy(s[1..], drop)
    else if |s| > 0 && drop(s[|s| - 1]) then TrimBy(s[..|s| - 1], drop)
    else s
  }

  /** Trimming both ends is trimming the front, then the back. */
  lemma {:induction false} TrimByStartThenEnd(s: string, drop: char -> bool)
    ensures TrimBy(s, drop) == TrimEndBy(TrimStartBy(s, drop), drop)
  {
    if |s| > 0 && drop(s[0]) {
      TrimByStartThenEnd(s[1..], drop);
    } else if |s| > 0 && drop(s[|s| - 1]) {
      var init := s[..|s| - 1];
      TrimByStartThenEnd(init, drop);
      assert init[0] == s[0];
      assert TrimStartBy(init, drop) == init;
    }
  }

  /** `string.Trim()`. */
  function Trim(s: string): string {
    TrimBy(s, IsWhiteSpace)
  }

  /** `char.ToLowerInvariant` restricted to ASCII: 'A'..'Z' become 'a'..'z'. */
  function LowerChar(c: char): (r: char)
    ensures 'A' <= c <= 'Z' ==> 'a' <= r <= 'z' && r as int - c as int == 32
    ensures !('A' <= c <= 'Z') ==> r == c
  {
    if 'A' <= c <= 'Z' then (c as int + 32) as char else c
  }

  /** `string.ToLower()`, character by character. */
  function Lower(s: string): (r: string)
    ensures |r| == |s|
    ensures forall i :: 0 <= i < |s| ==> r[i] == LowerChar(s[i])
  {
    if s == [] then [] else [LowerChar(s[0])] + Lower(s[1..])
  }

  predicate AllSatisfy(s: string, p: char -> bool) {
    forall i :: 0 <= i < |s| ==> p(s[i])
  }

  /** A prefix of dropped characters never changes what `TrimStartBy` keeps. */
  lemma {:induction false} TrimStartByPrefix(pre: string, s: string, drop: char -> bool)
    requires AllSatisfy(pre, drop)
    ensures TrimStartBy(pre + s, drop) == TrimStartBy(s, drop)
  {
    if pre != [] {
      assert (pre + s)[1..] == pre[1..] + s;
      TrimStartByPrefix(pre[1..], s, drop);
    } else {
      assert pre + s == s;
    }
  }

  /** A suffix of dropped characters never changes what `TrimEndBy` keeps. */
  lemma {:induction false} TrimEndBySuffix(s: string, post: string, drop: char -> bool)
    requires AllSatisfy(post, drop)
    ensures TrimEndBy(s + post, drop) == TrimEndBy(s, drop)
  {
    if post != [] {
      var n := |post| - 1;
      assert (s + post)[..|s + post| - 1] == s + post[..n];
      TrimEndBySuffix(s, post[..n], drop);
    } else {
      assert s + post == s;
    }
  }

  /** Appending to a string that keeps a non-dropped character leaves the prefix trim as is. */
  lemma {:induction false} TrimStartByAppend(s: string, post: string, drop: char -> bool)
    requires TrimStartBy(s, drop) != []
    ensures TrimStartBy(s + post, drop) == TrimStartBy(s, drop) + post
  {
    if |s| > 0 && drop(s[0]) {
      assert (s + post)[1..] == s[1..] + post;
      TrimStartByAppend(s[1..], post, drop);
    }
  }

  /** Surrounding padding made of dropped characters is ignored by `TrimBy`. */
  lemma TrimByPadding(pre: string, s: string, post: string, drop: char -> bool)
    requires AllSatisfy(pre, drop) && AllSatisfy(post, drop)
    ensures TrimBy(pre + s + post, drop) == TrimBy(s, drop)
  {
    TrimByStartThenEnd(pre + s + post, drop);
    TrimByStartThenEnd(s, drop);
    StartThenEndPadding(pre, s, post, drop);
  }

  lemma StartThenEndPadding(pre: string, s: string, post: string, drop: char -> bool)
    requires AllSatisfy(pre, drop) && AllSatisfy(post, drop)
    ensures TrimEndBy(TrimStartBy(pre + s + post, drop), drop) == TrimEndBy(TrimStartBy(s, drop), drop)
  {
    assert pre + s + post == pre + (s + post);
    TrimStartByPrefix(pre, s + post, drop);
    var t := TrimStartBy(s, drop);
    if t != [] {
      TrimStartByAppend(s, post, drop);
      TrimEndBySuffix(t, post, drop);
    } else {
      assert AllSatisfy(s, drop);
      assert s + post == s + post + [];
      TrimStartByPrefix(s, post, drop);
      TrimStartByPrefix(post, [], drop);
      assert post + [] == post;
    }
  }

  /** `string.Trim()` ignores surrounding white space. */
  lemma TrimIgnoresPadding(pre: string, s: string, post: string)
    requires AllSatisfy(pre, IsWhiteSpace) && AllSatisfy(post, IsWhiteSpace)
    ensures Trim(pre + s + post) == Trim(s)
  {
    TrimByPadding(pre, s, post, IsWhiteSpace);
  }

  /** Trimming twice is trimming once. */
  lemma TrimByIdempotent(s: string, drop: char -> bool)
    ensures TrimBy(TrimBy(s, drop), drop) == TrimBy(s, drop)
  {
    var t := TrimBy(s, drop);
    TrimByStartThenEnd(s, drop);
    TrimByStartThenEnd(t, drop);
    if t != [] {
      assert TrimStartBy(t, drop) == t;
    }
  }

  /** Text that neither starts nor ends with a dropped character is kept whole. */
  lemma TrimByUnpadded(s: string, drop: char -> bool)
    requires s != [] && !drop(s[0]) && !drop(s[|s| - 1])
    ensures TrimBy(s, drop) == s
  {
  }

  /** Text without upper-case ASCII letters is its own lower-case form. */
  lemma LowerUnchanged(s: string)
    requires forall i :: 0 <= i < |s| ==> !('A' <= s[i] <= 'Z')
    ensures Lower(s) == s
  {
  }

  /** Lower-casing works character by character, so it distributes over concatenation. */
  lemma LowerAppend(a: string, b: string)
    ensures Lower(a + b) == Lower(a) + Lower(b)
  {
  }

  /** `string.IsNullOrWhiteSpace` on a string that is not null. */
  predicate IsBlank(s: string) {
    AllSatisfy(s, IsWhiteSpace)
  }

  /** Blank text is exactly the text that trims to nothing. */
  lemma BlankIffTrimsToEmpty(s: string)
    ensures IsBlank(s) <==> Trim(s) == []
  {
    var t := TrimStartBy(s, IsWhiteSpace);
    TrimByStartThenEnd(s, IsWhiteSpace);
    if IsBlank(s) {
      assert s == s + [];
      TrimStartByPrefix(s, [], IsWhiteSpace);
    }
    if Trim(s) == [] {
      assert TrimEndBy(t, IsWhiteSpace) == [];
      assert t == [];
    }
  }

  // ---------------------------------------------------------------------------
  // string.Split(char) and its inverse
  // ---------------------------------------------------------------------------

  /** `s.Split(sep)`: every piece between separators, empty pieces included. */
  function Split(s: string, sep: char): (parts: seq<string>)
    ensures |parts| >= 1
  {
    if s == [] then [[]]
    else
      var rest := Split(s[1..], sep);
      if s[0] == sep then [[]] + rest else [[s[0]] + rest[0]] + rest[1..]
  }

  /** `string.Join(sep, parts)`. */
  function Join(parts: seq<string>, sep: char): string
    requires |parts| >= 1
  {
    if |parts| == 1 then parts[0] else parts[0] + [sep] + Join(parts[1..], sep)
  }

  /** The number of occurrences of `c` in `s`. */
  function Count(s: string, c: char): nat {
    if s == [] then 0 else (if s[0] == c then 1 else 0) + Count(s[1..], c)
  }

  /** Joining the pieces with the separator gives back the text. */
  lemma {:induction false} JoinSplit(s: string, sep: char)
    ensures Join(Split(s, sep), sep) == s
  {
    if s != [] {
      var rest := Split(s[1..], sep);
      JoinSplit(s[1..], sep);
      if s[0] == sep {
        assert ([[]] + rest)[1..] == rest;
      } else {
        var parts := [[s[0]] + rest[0]] + rest[1..];
        if |rest| > 1 {
          assert parts[1..] == rest[1..];
          assert Join(rest, sep) == rest[0] + [sep] + Join(rest[1..], sep);
        }
      }
    }
  }

  /** No piece contains the separator, and there is one piece more than there are separators. */
  lemma {:induction false} SplitPieces(s: string, sep: char)
    ensures |Split(s, sep)| == Count(s, sep) + 1
    ensures forall i :: 0 <= i < |Split(s, sep)| ==> sep !in Split(s, sep)[i]
  {
    if s != [] {
      SplitPieces(s[1..], sep);
    }
  }

  /** Text with no separator in it comes back as a single piece; otherwise in two or more. */
  lemma {:induction false} SplitCount(s: string, sep: char)
    ensures sep in s <==> Count(s, sep) > 0
  {
    if s != [] {
      SplitCount(s[1..], sep);
      assert s == [s[0]] + s[1..];
    }
  }

  /** Splitting the joined pieces gives back the pieces, when none contains the separator. */
  lemma {:induction false} SplitJoin(parts: seq<string>, sep: char)
    requires |parts| >= 1
    requires forall i :: 0 <= i < |parts| ==> sep !in parts[i]
    ensures Split(Join(parts, sep), sep) == parts
    decreases |parts|, |parts[0]|
  {
    if |parts| == 1 {
      SplitNoSeparator(parts[0], sep);
    } else {
      var tail := Join(parts[1..], sep);
      SplitJoin(parts[1..], sep);
      SplitPrefix(parts[0], tail, sep);
      assert [parts[0]] + parts[1..] == parts;
    }
  }

  lemma {:induction false} SplitNoSeparator(s: string, sep: char)
    requires sep !in s
    ensures Split(s, sep) == [s]
  {
    if s != [] {
      assert s == [s[0]] + s[1..];
      SplitNoSeparator(s[1..], sep);
    }
  }

  /** A separator-free head followed by the separator: the head is the first piece. */
  lemma {:induction false} SplitPrefix(head: string, tail: string, sep: char)
    requires sep !in head
    ensures Split(head + [sep] + tail, sep) == [head] + Split(tail, sep)
  {
    var s := head + [sep] + tail;
    if head == [] {
      assert s == [sep] + tail;
      assert s[1..] == tail;
    } else {
      assert s[1..] == head[1..] + [sep] + tail;
      assert head == [head[0]] + head[1..];
      SplitPrefix(head[1..], tail, sep);
    }
  }

  /** Lower-casing twice is lower-casing once. */
  lemma LowerIdempotent(s: string)
    ensures Lower(Lower(s)) == Lower(s)
  {
    var l := Lower(s);
    forall i | 0 <= i < |l| ensures Lower(l)[i] == l[i] {
      assert LowerChar(LowerChar(s[i])) == LowerChar(s[i]);
    }
  }

  /** White space has no upper-case letters, so lower-casing leaves it alone. */
  lemma LowerKeepsWhiteSpace(s: string)
    requires AllSatisfy(s, IsWhiteSpace)
    ensures Lower(s) == s
  {
    LowerUnchanged(s);
  }

  /** `ToLower().Trim()` ignores surrounding white space. */
  lemma TrimLowerIgnoresPadding(pre: string, s: string, post: string)
    requires AllSatisfy(pre, IsWhiteSpace) && AllSatisfy(post, IsWhiteSpace)
    ensures Trim(Lower(pre + s + post)) == Trim(Lower(s))
  {
    LowerAppend(pre + s, post);
    LowerAppend(pre, s);
    LowerKeepsWhiteSpace(pre);
    LowerKeepsWhiteSpace(post);
    TrimIgnoresPadding(pre, Lower(s), post);
  }
}
