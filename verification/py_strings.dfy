/** The Python `str` operations the scraper and the exporter rely on, with
    Python's semantics: `isspace`, `strip`, slicing, `split(sep)` and
    `sep.join`, `replace(c, '')`, the `in` substring test, `lower` (on ASCII),
    `startswith` and `endswith`. */
module PyStrings {

  /** Python's `str.isspace` for one character: the characters of Unicode
      category Zs and of bidirectional class WS, B or S. */
  predicate IsSpace(c: char) {
    c in SpaceChars
  }

  const SpaceChars: set<char> := {
    '\t', '\n', '\U{0B}', '\U{0C}', '\r', '\U{1C}', '\U{1D}', '\U{1E}', '\U{1F}', ' ',
    '\U{85}', '\U{A0}', '\U{1680}',
    '\U{2000}', '\U{2001}', '\U{2002}', '\U{2003}', '\U{2004}', '\U{2005}',
    '\U{2006}', '\U{2007}', '\U{2008}', '\U{2009}', '\U{200A}',
    '\U{2028}', '\U{2029}', '\U{202F}', '\U{205F}', '\U{3000}'
  }

  predicate StartsWith(s: string, prefix: string) {
    |prefix| <= |s| && s[..|prefix|] == prefix
  }

  predicate EndsWith(s: string, suffix: string) {
    |suffix| <= |s| && s[|s| - |suffix|..] == suffix
  }

  // ---------------------------------------------------------------------------
  // strip

  /** `s.lstrip()`. */
  function TrimLeft(s: string): string {
    if s != [] && IsSpace(s[0]) then TrimLeft(s[1..]) else s
  }

  /** `s.lstrip()` is the longest suffix of `s` that does not start with
      whitespace. */
  lemma {:induction false} TrimLeftMeets(s: string)
    ensures var r := TrimLeft(s);
      && |r| <= |s|
      && (forall i :: 0 <= i < |r| ==> r[i] == s[|s| - |r| + i])
      && (forall i :: 0 <= i < |s| - |r| ==> IsSpace(s[i]))
      && (r != [] ==> !IsSpace(r[0]))
  {
    if s != [] && IsSpace(s[0]) {
      var t := s[1..];
      TrimLeftMeets(t);
      var r := TrimLeft(t);
      assert TrimLeft(s) == r;
      forall i | 0 <= i < |r|
        ensures r[i] == s[|s| - |r| + i]
      {
        assert s[|s| - |r| + i] == t[|t| - |r| + i];
      }
      forall i | 0 <= i < |s| - |r|
        ensures IsSpace(s[i])
      {
        if i > 0 {
          assert s[i] == t[i - 1];
        }
      }
    }
  }

  /** `s.rstrip()`. */
  function TrimRight(s: string): string {
    if s != [] && IsSpace(s[|s| - 1]) then TrimRight(s[..|s| - 1]) else s
  }

  /** `s.rstrip()` is the longest prefix of `s` that does not end with
      whitespace. */
  lemma {:induction false} TrimRightMeets(s: string)
    ensures var r := TrimRight(s);
      && |r| <= |s|
      && (forall i :: 0 <= i < |r| ==> r[i] == s[i])
      && (forall i :: |r| <= i < |s| ==> IsSpace(s[i]))
      && (r != [] ==> !IsSpace(r[|r| - 1]))
  {
    if s != [] && IsSpace(s[|s| - 1]) {
      var t := s[..|s| - 1];
      TrimRightMeets(t);
      var r := TrimRight(t);
      assert TrimRight(s) == r;
      forall i | 0 <= i < |r|
        ensures r[i] == s[i]
      {
        assert s[i] == t[i];
      }
      forall i | |r| <= i < |s|
        ensures IsSpace(s[i])
      {
        if i < |t| {
          assert s[i] == t[i];
        }
      }
    }
  }

  /** `r` is what remains of `s` once the whitespace at both ends is cut off:
      a contiguous piece of `s`, everything outside it whitespace, and
      neither end of it whitespace. */
  ghost predicate IsStripOf(s: string, r: string) {
    exists i :: StrippedAt(s, r, i)
  }

  ghost predicate StrippedAt(s: string, r: string, i: int) {
    && 0 <= i <= |s| - |r|
    && (forall k :: 0 <= k < |r| ==> r[k] == s[i + k])
    && (forall k :: 0 <= k < i ==> IsSpace(s[k]))
    && (forall k :: i + |r| <= k < |s| ==> IsSpace(s[k]))
    && (r != [] ==> !IsSpace(r[0]) && !IsSpace(r[|r| - 1]))
  }

  /** Python's `s.strip()`. Its meaning is stated once, by `StripMeets`,
      so that proofs which only move stripped strings around do not pay
      for it. */
  function Strip(s: string): string {
    TrimRight(TrimLeft(s))
  }

  /** `Strip` cuts exactly the whitespace at both ends. */
  lemma StripMeets(s: string)
    ensures IsStripOf(s, Strip(s))
  {
    var left := TrimLeft(s);
    var r := TrimRight(left);
    assert Strip(s) == r;
    TrimLeftMeets(s);
    TrimRightMeets(left);
    TrimBothEnds(s, left, r);
    assert StrippedAt(s, r, |s| - |left|);
  }

  /** Cutting leading whitespace and then trailing whitespace leaves the
      piece `StrippedAt` describes. */
  lemma TrimBothEnds(s: string, left: string, r: string)
    requires |left| <= |s| && forall i :: 0 <= i < |left| ==> left[i] == s[|s| - |left| + i]
    requires forall i :: 0 <= i < |s| - |left| ==> IsSpace(s[i])
    requires left != [] ==> !IsSpace(left[0])
    requires |r| <= |left| && forall i :: 0 <= i < |r| ==> r[i] == left[i]
    requires forall i :: |r| <= i < |left| ==> IsSpace(left[i])
    requires r != [] ==> !IsSpace(r[|r| - 1])
    ensures StrippedAt(s, r, |s| - |left|)
  {
    var i := |s| - |left|;
    forall k | i + |r| <= k < |s|
      ensures IsSpace(s[k])
    {
      assert s[k] == left[k - i];
    }
  }

  /** The description `IsStripOf` admits exactly one result, so it pins down
      `Strip` completely. */
  lemma {:induction false} StripOfUnique(s: string, r1: string, r2: string)
    requires IsStripOf(s, r1) && IsStripOf(s, r2)
    ensures r1 == r2
  {
    var i1 :| StrippedAt(s, r1, i1);
    var i2 :| StrippedAt(s, r2, i2);
    // a non-empty result starts and ends on the first and last non-blank character
    assert r1 != [] ==> s[i1] == r1[0] && s[i1 + |r1| - 1] == r1[|r1| - 1];
    assert r2 != [] ==> s[i2] == r2[0] && s[i2 + |r2| - 1] == r2[|r2| - 1];
    assert r1 != [] ==> i2 <= i1 < i2 + |r2|;
    assert r2 != [] ==> i1 <= i2 < i1 + |r1|;
    if r1 != [] {
      assert i1 == i2;
      assert |r1| == |r2|;
    }
  }

  /** Stripping is idempotent. */
  lemma StripIdempotent(s: string)
    ensures Strip(Strip(s)) == Strip(s)
  {
    var r := Strip(s);
    StripMeets(s);
    assert StrippedAt(r, r, 0);
    StripMeets(r);
    StripOfUnique(r, Strip(r), r);
  }

  /** Whitespace padding around a word with non-blank ends is exactly what
      `strip` removes. */
  lemma StripPadded(pre: string, w: string, post: string)
    requires forall k :: 0 <= k < |pre| ==> IsSpace(pre[k])
    requires forall k :: 0 <= k < |post| ==> IsSpace(post[k])
    requires w != [] ==> !IsSpace(w[0]) && !IsSpace(w[|w| - 1])
    ensures Strip(pre + w + post) == w
  {
    var s := pre + w + post;
    assert s[|pre|..|pre| + |w|] == w;
    assert forall k :: 0 <= k < |pre| ==> s[k] == pre[k];
    assert forall k :: |pre| + |w| <= k < |s| ==> s[k] == post[k - |pre| - |w|];
    assert StrippedAt(s, w, |pre|);
    StripMeets(s);
    StripOfUnique(s, Strip(s), w);
  }

  // ---------------------------------------------------------------------------
  // slicing

  /** A Python slice bound: negative values count from the end, and the
      result is clamped to `0..n`. */
  function SliceBound(i: int, n: nat): (b: nat)
    ensures b <= n
    ensures 0 <= i <= n ==> b == i
    ensures i < 0 && 0 <= i + n ==> b == i + n
  {
    if i < 0 then (if i + n < 0 then 0 else i + n)
    else if i > n then n
    else i
  }

  /** Python's `s[start:stop]`. */
  function Slice(s: string, start: int, stop: int): (r: string)
    ensures |r| <= |s|
  {
    var a := SliceBound(start, |s|);
    var b := SliceBound(stop, |s|);
    if a <= b then s[a..b] else []
  }

  /** `s[1:-1]` drops the first and the last character, and is empty for
      strings of length two or less. */
  lemma SliceDropEnds(s: string)
    ensures |s| <= 2 ==> Slice(s, 1, -1) == []
    ensures |s| >= 2 ==> Slice(s, 1, -1) == s[1..|s| - 1]
  {
  }

  // ---------------------------------------------------------------------------
  // split and join on one separator character

  /** Python's `s.split(sep)` for a one-character separator: the pieces
      between separators, empty pieces included, never an empty list. */
  function Split(s: string, sep: char): (parts: seq<string>)
    ensures |parts| >= 1
    ensures forall i :: 0 <= i < |parts| ==> sep !in parts[i]
  {
    if s == [] then [[]]
    else
      var prev := Split(s[..|s| - 1], sep);
      if s[|s| - 1] == sep then prev + [[]]
      else prev[..|prev| - 1] + [prev[|prev| - 1] + [s[|s| - 1]]]
  }

  /** Python's `sep.join(parts)`. */
  function Join(parts: seq<string>, sep: char): string {
    if parts == [] then []
    else if |parts| == 1 then parts[0]
    else Join(parts[..|parts| - 1], sep) + [sep] + parts[|parts| - 1]
  }

  lemma JoinSnoc(parts: seq<string>, x: string, sep: char)
    requires parts != []
    ensures Join(parts + [x], sep) == Join(parts, sep) + [sep] + x
  {
    assert (parts + [x])[..|parts|] == parts;
  }

  lemma {:induction false} JoinExtendLast(parts: seq<string>, c: char, sep: char)
    requires parts != []
    ensures Join(parts[..|parts| - 1] + [parts[|parts| - 1] + [c]], sep) == Join(parts, sep) + [c]
  {
    var init := parts[..|parts| - 1];
    var last := parts[|parts| - 1];
    if init == [] {
      assert parts == [last];
    } else {
      JoinSnoc(init, last + [c], sep);
      assert parts == init + [last];
      JoinSnoc(init, last, sep);
    }
  }

  /** Joining the pieces of a split with the same separator gives back the
      original string. */
  lemma {:induction false} JoinSplit(s: string, sep: char)
    ensures Join(Split(s, sep), sep) == s
    decreases |s|
  {
    if s != [] {
      var init := s[..|s| - 1];
      var prev := Split(init, sep);
      JoinSplit(init, sep);
      assert s == init + [s[|s| - 1]];
      if s[|s| - 1] == sep {
        JoinSnoc(prev, [], sep);
      } else {
        JoinExtendLast(prev, s[|s| - 1], sep);
      }
    }
  }

  /** Python's `s.split(sep)[-1]`: the text after the last separator, or all
      of `s` when it holds none. */
  function LastSegment(s: string, sep: char): string {
    if s == [] || s[|s| - 1] == sep then []
    else LastSegment(s[..|s| - 1], sep) + [s[|s| - 1]]
  }

  /** `LastSegment` is the longest suffix free of the separator: it holds no
      separator, and whatever precedes it ends in one. */
  lemma {:induction false} LastSegmentMeets(s: string, sep: char)
    ensures var r := LastSegment(s, sep);
      && |r| <= |s|
      && (forall i :: 0 <= i < |r| ==> r[i] == s[|s| - |r| + i])
      && sep !in r
      && (|r| < |s| ==> s[|s| - |r| - 1] == sep)
    decreases |s|
  {
    if s != [] && s[|s| - 1] != sep {
      LastSegmentMeets(s[..|s| - 1], sep);
    }
  }

  /** `LastSegment` is the last piece `Split` produces. */
  lemma {:induction false} LastSegmentIsLastPiece(s: string, sep: char)
    ensures var parts := Split(s, sep); parts[|parts| - 1] == LastSegment(s, sep)
    decreases |s|
  {
    if s != [] {
      LastSegmentIsLastPiece(s[..|s| - 1], sep);
    }
  }

  /** Text in front of a string that already holds the separator does not
      change its last segment. */
  lemma {:induction false} LastSegmentOfAppend(a: string, b: string, sep: char)
    requires sep in b
    ensures LastSegment(a + b, sep) == LastSegment(b, sep)
    decreases |b|
  {
    var s := a + b;
    var last := b[|b| - 1];
    assert s[|s| - 1] == last;
    if last != sep {
      var b' := b[..|b| - 1];
      var i :| 0 <= i < |b| && b[i] == sep;
      assert b'[i] == sep;
      assert s[..|s| - 1] == a + b';
      LastSegmentOfAppend(a, b', sep);
      assert LastSegment(s, sep) == LastSegment(a + b', sep) + [last];
      assert LastSegment(b, sep) == LastSegment(b', sep) + [last];
    }
  }

  /** A string that ends in `sep` followed by a separator-free tail has that
      tail as its last segment. */
  lemma {:induction false} LastSegmentOfSuffix(s: string, sep: char, tail: string)
    requires sep !in tail
    requires EndsWith(s, [sep] + tail)
    ensures LastSegment(s, sep) == tail
    decreases |tail|
  {
    var n := |s|;
    if tail == [] {
      assert s[n - 1] == ([sep] + tail)[0];
    } else {
      var tail' := tail[..|tail| - 1];
      assert s[n - 1] == tail[|tail| - 1];
      assert tail == tail' + [tail[|tail| - 1]];
      assert sep !in tail';
      assert s[..n - 1][n - 1 - |[sep] + tail'|..] == ([sep] + tail)[..|tail|];
      assert ([sep] + tail)[..|tail|] == [sep] + tail';
      LastSegmentOfSuffix(s[..n - 1], sep, tail');
    }
  }

  // ---------------------------------------------------------------------------
  // removing characters

  /** The characters of `s` that are not in `bad`, in their original order. */
  function FilterOut(s: string, bad: set<char>): (r: string)
    ensures |r| <= |s|
    ensures forall c :: c in r <==> c in s && c !in bad
  {
    if s == [] then []
    else (if s[0] in bad then [] else [s[0]]) + FilterOut(s[1..], bad)
  }

  /** Filtering keeps order: it distributes over concatenation. */
  lemma {:induction false} FilterOutAppend(a: string, b: string, bad: set<char>)
    ensures FilterOut(a + b, bad) == FilterOut(a, bad) + FilterOut(b, bad)
    decreases |a|
  {
    if a == [] {
      assert a + b == b;
    } else {
      assert (a + b)[0] == a[0];
      assert (a + b)[1..] == a[1..] + b;
      FilterOutAppend(a[1..], b, bad);
      var head := if a[0] in bad then [] else [a[0]];
      assert FilterOut(a + b, bad) == head + (FilterOut(a[1..], bad) + FilterOut(b, bad));
    }
  }

  /** Filtering twice removes the union of the two sets. */
  lemma {:induction false} FilterOutTwice(s: string, a: set<char>, b: set<char>)
    ensures FilterOut(FilterOut(s, a), b) == FilterOut(s, a + b)
    decreases |s|
  {
    if s != [] {
      FilterOutTwice(s[1..], a, b);
      var head := if s[0] in a then [] else [s[0]];
      FilterOutAppend(head, FilterOut(s[1..], a), b);
    }
  }

  /** A string without any of the bad characters is left as it is. */
  lemma {:induction false} FilterOutClean(s: string, bad: set<char>)
    requires forall c :: c in s ==> c !in bad
    ensures FilterOut(s, bad) == s
    decreases |s|
  {
    if s != [] {
      assert s[0] in s;
      assert forall c :: c in s[1..] ==> c in s;
      FilterOutClean(s[1..], bad);
      assert s == [s[0]] + s[1..];
    }
  }

  /** Python's `s.replace(c, '')` for a single character `c`. */
  function RemoveChar(s: string, c: char): (r: string)
    ensures c !in r
    ensures forall x :: x != c ==> (x in r <==> x in s)
  {
    FilterOut(s, {c})
  }

  // ---------------------------------------------------------------------------
  // substring test and lower case

  /** `t` occurs in `s` starting at index `i`. */
  ghost predicate OccursAt(s: string, t: string, i: int) {
    0 <= i <= |s| - |t| && s[i..i + |t|] == t
  }

  lemma OccursShift(s: string, t: string)
    requires s != []
    ensures forall j :: OccursAt(s[1..], t, j) ==> OccursAt(s, t, j + 1)
    ensures forall i :: OccursAt(s, t, i) && 1 <= i ==> OccursAt(s[1..], t, i - 1)
  {
    forall j | OccursAt(s[1..], t, j)
      ensures OccursAt(s, t, j + 1)
    {
      assert s[1..][j..j + |t|] == s[j + 1..j + 1 + |t|];
    }
    forall i | OccursAt(s, t, i) && 1 <= i
      ensures OccursAt(s[1..], t, i - 1)
    {
      assert s[1..][i - 1..i - 1 + |t|] == s[i..i + |t|];
    }
  }

  /** Python's `t in s` for strings. */
  function Contains(s: string, t: string): (b: bool)
    ensures b <==> exists i :: OccursAt(s, t, i)
    decreases |s|
  {
    if |t| > |s| then false
    else if s[..|t|] == t then assert OccursAt(s, t, 0); true
    else
      assert !OccursAt(s, t, 0);
      OccursShift(s, t);
      Contains(s[1..], t)
  }

  /** A string that contains `t` contains every prefix of `t`. */
  lemma ContainsPrefix(s: string, t: string, n: nat)
    requires n <= |t| && Contains(s, t)
    ensures Contains(s, t[..n])
  {
    var i :| OccursAt(s, t, i);
    assert s[i..i + n] == t[..n];
    assert OccursAt(s, t[..n], i);
  }

  /** Python's `c.lower()` on the ASCII upper-case letters. */
  function LowerChar(c: char): (r: char)
    ensures 'A' <= c <= 'Z' ==> 'a' <= r <= 'z'
    ensures !('A' <= c <= 'Z') ==> r == c
  {
    if 'A' <= c <= 'Z' then (c as int - 'A' as int + 'a' as int) as char else c
  }

  /** Python's `s.lower()`, on ASCII letters only. */
  function Lower(s: string): (r: string)
    ensures |r| == |s|
    ensures forall i :: 0 <= i < |s| ==> r[i] == LowerChar(s[i])
  {
    if s == [] then [] else [LowerChar(s[0])] + Lower(s[1..])
  }

  /** Lower-casing twice is lower-casing once. */
  lemma LowerIdempotent(s: string)
    ensures Lower(Lower(s)) == Lower(s)
  {
    var l := Lower(s);
    forall i | 0 <= i < |s|
      ensures Lower(l)[i] == l[i]
    {
      assert LowerChar(LowerChar(s[i])) == LowerChar(s[i]);
    }
  }

  /** `s.split()` with no separator: the maximal runs of non-whitespace
      characters of `s`, in order. Leading, trailing and repeated whitespace
      yields no empty piece. */
  function SplitWords(s: string): (words: seq<string>)
    ensures forall i :: 0 <= i < |words| ==> words[i] != []
    ensures forall i :: 0 <= i < |words| ==> forall c :: c in words[i] ==> !IsSpace(c)
    ensures s != [] && !IsSpace(s[0]) ==> |words| >= 1
    decreases |s|
  {
    if s == [] then []
    else if IsSpace(s[0]) then SplitWords(s[1..])
    else
      var rest := SplitWords(s[1..]);
      if |s| > 1 && !IsSpace(s[1]) then
        var w := [s[0]] + rest[0];
        assert forall c :: c in w ==> c == s[0] || c in rest[0];
        [w] + rest[1..]
      else [[s[0]]] + rest
  }

  /** A run of non-whitespace characters followed by a whitespace character
      is one whole word of `split()`: it is not cut, and the rest is split on
      its own. */
  lemma {:induction false} SplitWordsWordThenSpace(w: string, c: char, s: string)
    requires w != [] && forall x :: x in w ==> !IsSpace(x)
    requires IsSpace(c)
    ensures SplitWords(w + [c] + s) == [w] + SplitWords(s)
    decreases |w|
  {
    var t := w + [c] + s;
    assert w[0] in w;
    assert t[0] == w[0] && t[1..] == w[1..] + [c] + s;
    if |w| == 1 {
      assert t[1..] == [c] + s && t[1] == c;
      assert ([c] + s)[1..] == s;
      assert SplitWords([c] + s) == SplitWords(s);
      assert SplitWords(t) == [[w[0]]] + SplitWords(t[1..]);
      assert [w[0]] == w;
    } else {
      assert t[1] == w[1] && w[1] in w;
      assert forall x :: x in w[1..] ==> x in w;
      SplitWordsWordThenSpace(w[1..], c, s);
      var rest := SplitWords(t[1..]);
      assert rest == [w[1..]] + SplitWords(s);
      assert SplitWords(t) == [[w[0]] + rest[0]] + rest[1..];
      assert [w[0]] + w[1..] == w;
    }
  }

  /** A string without whitespace is a single word. */
  lemma {:induction false} SplitWordsOfWord(w: string)
    requires w != [] && forall x :: x in w ==> !IsSpace(x)
    ensures SplitWords(w) == [w]
    decreases |w|
  {
    assert w[0] in w;
    if |w| == 1 {
      assert w[1..] == [] && [w[0]] == w;
      assert SplitWords(w) == [[w[0]]] + SplitWords(w[1..]);
    } else {
      assert w[1] in w;
      assert forall x :: x in w[1..] ==> x in w;
      SplitWordsOfWord(w[1..]);
      var rest := SplitWords(w[1..]);
      assert SplitWords(w) == [[w[0]] + rest[0]] + rest[1..];
      assert [w[0]] + w[1..] == w;
    }
  }

  /** `"".join(parts)`: the pieces one after the other. */
  function Concat(parts: seq<string>): string
    decreases |parts|
  {
    if parts == [] then [] else parts[0] + Concat(parts[1..])
  }

  /** Joining after gluing `x` to the front of the first piece is putting
      `x` in front of the join. */
  lemma ConcatGlueHead(x: string, parts: seq<string>)
    requires parts != []
    ensures Concat([x + parts[0]] + parts[1..]) == x + Concat(parts)
  {
    assert ([x + parts[0]] + parts[1..])[1..] == parts[1..];
  }

  /** A word-initial character heads the joined words of the string. */
  lemma ConcatSplitWordsCons(s: string)
    requires s != [] && !IsSpace(s[0])
    ensures Concat(SplitWords(s)) == [s[0]] + Concat(SplitWords(s[1..]))
  {
    var rest := SplitWords(s[1..]);
    if |s| > 1 && !IsSpace(s[1]) {
      assert SplitWords(s) == [[s[0]] + rest[0]] + rest[1..];
      ConcatGlueHead([s[0]], rest);
    } else {
      assert SplitWords(s) == [[s[0]]] + rest;
      assert ([[s[0]]] + rest)[1..] == rest;
    }
  }

  /** Joining the words of `split()` with nothing is dropping every
      whitespace character and keeping the rest in order. */
  lemma {:induction false} ConcatSplitWords(s: string)
    ensures Concat(SplitWords(s)) == FilterOut(s, SpaceChars)
    decreases |s|
  {
    if s != [] {
      ConcatSplitWords(s[1..]);
      if !IsSpace(s[0]) {
        ConcatSplitWordsCons(s);
      }
    }
  }

  /** `"".join(s.split())`: `s` with every whitespace character removed, the
      rest in order. */
  function RemoveWhitespace(s: string): (r: string)
    ensures r == FilterOut(s, SpaceChars)
    ensures forall c :: c in r <==> c in s && !IsSpace(c)
  {
    ConcatSplitWords(s);
    Concat(SplitWords(s))
  }

  /** Removing whitespace works piece by piece, so the kept characters keep
      their order and their number. */
  lemma RemoveWhitespaceAppend(a: string, b: string)
    ensures RemoveWhitespace(a + b) == RemoveWhitespace(a) + RemoveWhitespace(b)
  {
    FilterOutAppend(a, b, SpaceChars);
  }

  /** A single character is kept exactly when it is not whitespace. */
  lemma RemoveWhitespaceChar(c: char)
    ensures RemoveWhitespace([c]) == if IsSpace(c) then [] else [c]
  {
    assert [c][1..] == [];
  }
}
