/** Character classes and string operations of Python's `str` that the
    extraction engine relies on.  Character classification follows Python
    for the Latin-1 range (U+0000..U+00FF); see README for what lies beyond. */
module Text {

  /** `str.isspace()`, and the regex class `\s`, within Latin-1. */
  predicate IsSpace(c: char) {
    c == ' ' || ('\t' <= c <= '\r') || ('\U{1C}' <= c <= '\U{1F}') || c == '\U{85}' || c == '\U{A0}'
  }

  /** The regex class `\d` restricted to ASCII (Latin-1 has no other decimal digit). */
  predicate IsDigit(c: char) {
    '0' <= c <= '9'
  }

  /** The regex class `[A-Za-z]`. */
  predicate IsAsciiLetter(c: char) {
    'a' <= c <= 'z' || 'A' <= c <= 'Z'
  }

  /** The regex class `\w` of a `str` pattern (alphanumerics and `_`) within Latin-1:
      besides ASCII it holds the letters of Latin-1 and the numerals ª ² ³ µ ¹ º ¼ ½ ¾. */
  predicate IsWordChar(c: char) {
    IsDigit(c) || IsAsciiLetter(c) || c == '_'
    || c == '\U{AA}' || c == '\U{B2}' || c == '\U{B3}' || c == '\U{B5}' || c == '\U{B9}' || c == '\U{BA}'
    || ('\U{BC}' <= c <= '\U{BE}')
    || ('\U{C0}' <= c <= '\U{FF}' && c != '\U{D7}' && c != '\U{F7}')
  }

  predicate AllDigits(s: string) {
    forall i :: 0 <= i < |s| ==> IsDigit(s[i])
  }

  predicate HasDigit(s: string) {
    exists i :: 0 <= i < |s| && IsDigit(s[i])
  }

  /** `str.lower()` on one character: ASCII capitals and the Latin-1 capitals
      À..Þ (except ×) move to their small letters. */
  function LowerChar(c: char): (r: char)
    ensures IsDigit(r) <==> IsDigit(c)
    ensures IsSpace(r) <==> IsSpace(c)
  {
    if 'A' <= c <= 'Z' || ('\U{C0}' <= c <= '\U{DE}' && c != '\U{D7}') then (c as int + 32) as char else c
  }

  /** Lower-casing twice is lower-casing once. */
  lemma LowerCharIdempotent(c: char)
    ensures LowerChar(LowerChar(c)) == LowerChar(c)
  {
  }

  function Lower(s: string): (r: string)
    ensures |r| == |s|
    ensures forall i :: 0 <= i < |s| ==> r[i] == LowerChar(s[i])
  {
    seq(|s|, i requires 0 <= i < |s| => LowerChar(s[i]))
  }

  /** Number of whitespace characters at the start of `s`. */
  function LeadingSpaces(s: string): (n: nat)
    ensures n <= |s|
    ensures forall i :: 0 <= i < n ==> IsSpace(s[i])
    ensures n < |s| ==> !IsSpace(s[n])
  {
    if s == [] || !IsSpace(s[0]) then 0 else 1 + LeadingSpaces(s[1..])
  }

  /** Number of whitespace characters at the end of `s`. */
  function TrailingSpaces(s: string): (n: nat)
    ensures n <= |s|
    ensures forall i :: |s| - n <= i < |s| ==> IsSpace(s[i])
    ensures n < |s| ==> !IsSpace(s[|s| - n - 1])
  {
    if s == [] || !IsSpace(s[|s| - 1]) then 0 else 1 + TrailingSpaces(s[..|s| - 1])
  }

  /** `str.strip()`: the slice of `s` left after removing whitespace at both ends. */
  function Strip(s: string): (r: string)
    ensures r == [] || (!IsSpace(r[0]) && !IsSpace(r[|r| - 1]))
    ensures LeadingSpaces(s) + |r| <= |s| && r == s[LeadingSpaces(s)..LeadingSpaces(s) + |r|]
  {
    var t := s[LeadingSpaces(s)..];
    t[..|t| - TrailingSpaces(t)]
  }

  /** A string with no whitespace at either end is its own strip. */
  lemma StripNoEdges(s: string)
    requires s == [] || (!IsSpace(s[0]) && !IsSpace(s[|s| - 1]))
    ensures Strip(s) == s
  {
    assert LeadingSpaces(s) == 0;
    assert s[0..] == s;
  }

  /** Every character of `Strip(s)` is one of `s`. */
  lemma StripChars(s: string, k: nat)
    requires k < |Strip(s)|
    ensures Strip(s)[k] == s[LeadingSpaces(s) + k]
  {
  }

  lemma {:induction false} LeadingSpacesAppend(a: string, b: string)
    requires b != [] && !IsSpace(b[0])
    ensures LeadingSpaces(a + b) == LeadingSpaces(a)
  {
    if a == [] {
      assert a + b == b;
    } else if IsSpace(a[0]) {
      assert (a + b)[1..] == a[1..] + b;
      LeadingSpacesAppend(a[1..], b);
    } else {
      assert (a + b)[0] == a[0];
    }
  }

  lemma {:induction false} AllSpacesLeading(w: string)
    requires forall i :: 0 <= i < |w| ==> IsSpace(w[i])
    ensures LeadingSpaces(w) == |w|
  {
    if w != [] {
      AllSpacesLeading(w[1..]);
    }
  }

  lemma {:induction false} TrailingSpacesOver(u: string, w: string)
    requires u != [] && !IsSpace(u[|u| - 1])
    requires forall i :: 0 <= i < |w| ==> IsSpace(w[i])
    ensures TrailingSpaces(u + w) == |w|
  {
    if w == [] {
      assert u + w == u;
    } else {
      var w' := w[..|w| - 1];
      assert (u + w)[..|u + w| - 1] == u + w';
      TrailingSpacesOver(u, w');
    }
  }

  /** Whitespace after a string with no whitespace at its edges is stripped
      away, and nothing else is. */
  lemma StripTrailingWhitespace(u: string, w: string)
    requires u == [] || (!IsSpace(u[0]) && !IsSpace(u[|u| - 1]))
    requires forall i :: 0 <= i < |w| ==> IsSpace(w[i])
    ensures Strip(u + w) == u
  {
    if u == [] {
      assert u + w == w;
      AllSpacesLeading(w);
    } else {
      assert (u + w)[0] == u[0];
      assert (u + w)[0..] == u + w;
      TrailingSpacesOver(u, w);
      assert (u + w)[..|u|] == u;
    }
  }

  /** Stripping after the leading whitespace is gone is stripping. */
  lemma StripSkipsLeading(s: string)
    ensures Strip(s[LeadingSpaces(s)..]) == Strip(s)
  {
    var t := s[LeadingSpaces(s)..];
    assert LeadingSpaces(t) == 0 by {
      if t != [] { assert t[0] == s[LeadingSpaces(s)]; }
    }
    assert t[0..] == t;
  }

  /** A non-whitespace character lies before the trailing whitespace. */
  lemma BeforeTrailingSpaces(t: string, k: nat)
    requires k < |t| && !IsSpace(t[k])
    ensures k < |t| - TrailingSpaces(t)
  {
  }

  /** Cutting the trailing whitespace off `p + [x] + rest` keeps `p` and `x`. */
  lemma KeepThroughMarker(p: string, x: char, rest: string) returns (tail: string)
    requires !IsSpace(x)
    ensures (p + [x] + rest)[..|p + [x] + rest| - TrailingSpaces(p + [x] + rest)] == p + [x] + tail
  {
    var t := p + [x] + rest;
    var k := |t| - TrailingSpaces(t);
    assert t[|p|] == x;
    BeforeTrailingSpaces(t, |p|);
    tail := rest[..k - |p| - 1];
    assert t[..k] == p + [x] + tail;
  }

  /** What is left of `a + [x] + rest` after its leading whitespace. */
  lemma AfterLeadingSpaces(a: string, x: char, rest: string)
    requires !IsSpace(x)
    ensures LeadingSpaces(a) <= |a| && LeadingSpaces(a + [x] + rest) == LeadingSpaces(a)
    ensures (a + [x] + rest)[LeadingSpaces(a)..] == a[LeadingSpaces(a)..] + [x] + rest
  {
    assert a + [x] + rest == a + ([x] + rest);
    LeadingSpacesAppend(a, [x] + rest);
  }

  /** `Strip(a + [x] + rest)` when `x` is not whitespace: the leading
      whitespace of `a` goes, and everything up to `x` stays. */
  lemma StripAroundMarker(a: string, x: char, rest: string) returns (tail: string)
    requires !IsSpace(x)
    ensures LeadingSpaces(a) <= |a|
    ensures Strip(a + [x] + rest) == a[LeadingSpaces(a)..] + [x] + tail
  {
    AfterLeadingSpaces(a, x, rest);
    tail := KeepThroughMarker(a[LeadingSpaces(a)..], x, rest);
  }

  /** `str.replace(c, rep)` with a one-character pattern. */
  function Replace(s: string, c: char, rep: string): (r: string)
    ensures c !in rep ==> c !in r
  {
    if s == [] then [] else (if s[0] == c then rep else [s[0]]) + Replace(s[1..], c, rep)
  }

  /** `str.replace(c, '')`. */
  function RemoveChar(s: string, c: char): (r: string)
    ensures c !in r
  {
    Replace(s, c, "")
  }

  lemma {:induction false} ReplaceAppend(a: string, b: string, c: char, rep: string)
    ensures Replace(a + b, c, rep) == Replace(a, c, rep) + Replace(b, c, rep)
  {
    if a == [] {
      assert a + b == b;
    } else {
      assert (a + b)[1..] == a[1..] + b;
      ReplaceAppend(a[1..], b, c, rep);
    }
  }

  /** Removing a character other than the first and the last keeps both. */
  lemma RemoveKeepsEdges(s: string, c: char)
    requires s != [] && s[0] != c && s[|s| - 1] != c
    ensures RemoveChar(s, c) != []
    ensures RemoveChar(s, c)[0] == s[0] && RemoveChar(s, c)[|RemoveChar(s, c)| - 1] == s[|s| - 1]
  {
    assert RemoveChar(s, c) == [s[0]] + RemoveChar(s[1..], c);
    var init := s[..|s| - 1];
    assert s == init + [s[|s| - 1]];
    ReplaceAppend(init, [s[|s| - 1]], c, "");
    assert Replace([s[|s| - 1]], c, "") == [s[|s| - 1]] + Replace([], c, "");
  }

  /** Without leading whitespace, `Strip` only cuts off whitespace at the end. */
  lemma StripLeavesTrailing(y: string)
    requires y == [] || !IsSpace(y[0])
    ensures |Strip(y)| <= |y| && y == Strip(y) + y[|Strip(y)|..]
    ensures forall i :: |Strip(y)| <= i < |y| ==> IsSpace(y[i])
  {
    assert LeadingSpaces(y) == 0;
    assert y[0..] == y;
  }

  /** Removing spaces, then stripping, is stripping, then removing spaces,
      for a string with no leading whitespace. */
  lemma RemoveSpacesThenStrip(y: string)
    requires y == [] || !IsSpace(y[0])
    ensures Strip(RemoveChar(y, ' ')) == RemoveChar(Strip(y), ' ')
  {
    var core := Strip(y);
    var trail := y[|core|..];
    StripLeavesTrailing(y);
    ReplaceAppend(core, trail, ' ', "");
    ReplaceKeeps(trail, ' ', "", IsSpace);
    if core != [] {
      RemoveKeepsEdges(core, ' ');
    }
    StripTrailingWhitespace(RemoveChar(core, ' '), RemoveChar(trail, ' '));
  }

  lemma {:induction false} ReplaceAbsent(s: string, c: char, rep: string)
    requires c !in s
    ensures Replace(s, c, rep) == s
  {
    if s != [] {
      ReplaceAbsent(s[1..], c, rep);
    }
  }

  /** Replacing `c` by a string of characters with property `p` keeps "every
      character other than `c` has `p`" — and then every character has `p`. */
  lemma {:induction false} ReplaceKeeps(s: string, c: char, rep: string, p: char -> bool)
    requires forall i :: 0 <= i < |s| && s[i] != c ==> p(s[i])
    requires forall i :: 0 <= i < |rep| ==> p(rep[i])
    ensures forall i :: 0 <= i < |Replace(s, c, rep)| ==> p(Replace(s, c, rep)[i])
  {
    if s != [] {
      ReplaceKeeps(s[1..], c, rep, p);
      var head := if s[0] == c then rep else [s[0]];
      assert Replace(s, c, rep) == head + Replace(s[1..], c, rep);
    }
  }

  /** `sub` occurs in `s` starting at index `i`. */
  predicate OccursAt(s: string, sub: string, i: nat) {
    i + |sub| <= |s| && s[i..i + |sub|] == sub
  }

  function FindFrom(s: string, sub: string, i: nat): (r: int)
    requires i <= |s| + 1
    decreases |s| + 1 - i
    ensures r == -1 || (i <= r <= |s| && OccursAt(s, sub, r))
    ensures r == -1 ==> forall k :: i <= k <= |s| ==> !OccursAt(s, sub, k)
    ensures r != -1 ==> forall k :: i <= k < r ==> !OccursAt(s, sub, k)
  {
    if i > |s| then -1 else if OccursAt(s, sub, i) then i else FindFrom(s, sub, i + 1)
  }

  /** `str.find(sub)`: the first index where `sub` occurs, or -1. */
  function Find(s: string, sub: string): (r: int)
    ensures r == -1 || (0 <= r <= |s| && OccursAt(s, sub, r))
    ensures r == -1 <==> forall k :: 0 <= k <= |s| ==> !OccursAt(s, sub, k)
    ensures r != -1 ==> forall k :: 0 <= k < r ==> !OccursAt(s, sub, k)
  {
    FindFrom(s, sub, 0)
  }

  /** Python's `sub in s` for strings. */
  predicate Contains(s: string, sub: string) {
    Find(s, sub) != -1
  }

  lemma ContainsOccurs(s: string, sub: string, i: nat)
    requires OccursAt(s, sub, i)
    ensures Contains(s, sub)
  {
  }

  lemma ContainsLength(s: string, sub: string)
    requires Contains(s, sub)
    ensures |sub| <= |s|
  {
  }

  /** The first index of `x` in `s`, or `|s|` when there is none. */
  function FirstIndex<T(==)>(s: seq<T>, x: T): (k: nat)
    ensures k <= |s|
    ensures forall i :: 0 <= i < k ==> s[i] != x
    ensures k < |s| ==> s[k] == x
  {
    if s == [] || s[0] == x then 0 else 1 + FirstIndex(s[1..], x)
  }

  /** `s.split(c)[0]`: the text before the first `c`. */
  function BeforeFirst(s: string, c: char): (r: string)
    ensures c !in r
  {
    s[..FirstIndex(s, c)]
  }

  /** `" ".join(parts)`. */
  function JoinWithSpace(parts: seq<string>): (r: string)
    ensures parts == [] ==> r == []
  {
    if parts == [] then [] else if |parts| == 1 then parts[0] else parts[0] + " " + JoinWithSpace(parts[1..])
  }

  /** The joined text opens with the first part and closes with the last. */
  lemma {:induction false} JoinWithSpaceEnds(parts: seq<string>)
    requires parts != []
    ensures |parts[0]| <= |JoinWithSpace(parts)| && JoinWithSpace(parts)[..|parts[0]|] == parts[0]
    ensures |parts[|parts| - 1]| <= |JoinWithSpace(parts)|
    ensures JoinWithSpace(parts)[|JoinWithSpace(parts)| - |parts[|parts| - 1]|..] == parts[|parts| - 1]
  {
    if |parts| > 1 {
      JoinWithSpaceEnds(parts[1..]);
    }
  }

  /** Python's `s[start:]`: a negative start counts from the end, and a start past the end gives the empty string. */
  function SliceFrom(s: string, start: int): (r: string)
    ensures |r| <= |s| && r == s[|s| - |r|..]
    ensures 0 <= start ==> |r| == if start < |s| then |s| - start else 0
    ensures start < 0 ==> |r| == if -start < |s| then -start else |s|
  {
    if start < 0 then (if start + |s| < 0 then s else s[start + |s|..])
    else if start >= |s| then [] else s[start..]
  }
}
