/** `extract_numbers_from_text`: the three regular expressions it applies,
    written out as scanners over positions, and the way it combines them. */
module NumberScanner {
  import opened Text
  import opened Wrappers
  import opened NumericParser

  predicate IsSeparator(c: char) {
    c == '.' || c == ','
  }

  /** What `[\d]+(?:[.,][\d]+)?` matches: digits, optionally followed by one
      separator and more digits. */
  predicate IsNumberToken(x: string) {
    (x != [] && AllDigits(x)) || exists k :: 0 < k < |x| - 1 && IsFractionSplit(x, k)
  }

  /** `x[k]` is the separator between two digit strings. */
  predicate IsFractionSplit(x: string, k: nat)
    requires k < |x|
  {
    IsSeparator(x[k]) && AllDigits(x[..k]) && AllDigits(x[k + 1..])
  }

  /** End of the run of digits starting at `i`. */
  function DigitRunEnd(t: string, i: nat): (j: nat)
    requires i <= |t|
    ensures i <= j <= |t|
    ensures forall k :: i <= k < j ==> IsDigit(t[k])
    ensures j == |t| || !IsDigit(t[j])
    decreases |t| - i
  {
    if i < |t| && IsDigit(t[i]) then DigitRunEnd(t, i + 1) else i
  }

  /** `\b` (and `(?![A-Za-z])`) after a digit: the end of the text or a non-word character. */
  predicate EndBoundary(t: string, k: nat) {
    k == |t| || (k < |t| && !IsWordChar(t[k]))
  }

  /** `(?<![A-Za-z])\b` before a digit: the start of the text or a non-word character before it. */
  predicate CanStart(t: string, i: nat) {
    i < |t| && IsDigit(t[i]) && (i == 0 || !IsWordChar(t[i - 1]))
  }

  /** A match `[s, e)` of a scanner within `t`. */
  datatype Span = Span(start: nat, end: nat)

  predicate Within(t: string, sp: Span) {
    sp.start < sp.end <= |t|
  }

  /** A number standing on its own: a number token with a non-word
      character (or the text's edge) on both sides. */
  predicate StandaloneNumber(t: string, sp: Span) {
    Within(t, sp) && IsNumberToken(t[sp.start..sp.end])
    && (sp.start == 0 || !IsWordChar(t[sp.start - 1])) && EndBoundary(t, sp.end)
  }

  /** Spans that start at `from` or later and follow each other without overlap. */
  predicate InOrder(spans: seq<Span>, from: nat) {
    (forall k :: 0 <= k < |spans| ==> from <= spans[k].start)
    && (forall k, m :: 0 <= k < m < |spans| ==> spans[k].end <= spans[m].start)
  }

  lemma DigitsToken(t: string, i: nat, j: nat)
    requires i < j <= |t| && forall k :: i <= k < j ==> IsDigit(t[k])
    ensures IsNumberToken(t[i..j])
  {
    assert AllDigits(t[i..j]);
  }

  lemma FractionToken(t: string, i: nat, j: nat, f: nat)
    requires i < j && j + 1 < f <= |t|
    requires forall k :: i <= k < j ==> IsDigit(t[k])
    requires IsSeparator(t[j])
    requires forall k :: j + 1 <= k < f ==> IsDigit(t[k])
    ensures IsNumberToken(t[i..f])
  {
    var x := t[i..f];
    assert x[..j - i] == t[i..j];
    assert x[j - i + 1..] == t[j + 1..f];
    assert IsFractionSplit(x, j - i);
  }

  /** The digits of `[i, f)` lie within the run of digits starting at `i`. */
  lemma DigitRunCovers(t: string, i: nat, f: nat)
    requires i <= f <= |t| && forall k :: i <= k < f ==> IsDigit(t[k])
    ensures f <= DigitRunEnd(t, i)
  {
  }

  /** Where a number token starting at `i` can end: within the run of
      digits at `i`, or, past one separator and a digit, within the run of
      digits that follows. */
  lemma TokenShape(t: string, i: nat, f: nat)
    requires i < f <= |t| && IsNumberToken(t[i..f])
    ensures IsDigit(t[i])
    ensures var j := DigitRunEnd(t, i);
            f <= j || (j + 1 < f && IsSeparator(t[j]) && IsDigit(t[j + 1]) && f <= DigitRunEnd(t, j + 1))
  {
    var x := t[i..f];
    assert forall k :: i <= k < f ==> t[k] == x[k - i];
    if x != [] && AllDigits(x) {
      DigitRunCovers(t, i, f);
    } else {
      var k :| 0 < k < |x| - 1 && IsFractionSplit(x, k);
      assert forall m :: i <= m < i + k ==> t[m] == x[..k][m - i];
      assert forall m :: i + k + 1 <= m < f ==> t[m] == x[k + 1..][m - i - k - 1];
      DigitRunCovers(t, i, i + k);
      DigitRunCovers(t, i + k + 1, f);
      assert !IsDigit(t[i + k]);
      assert DigitRunEnd(t, i) == i + k;
    }
  }

  lemma TokenShapeAll(t: string, i: nat)
    ensures forall f :: i < f <= |t| && IsNumberToken(t[i..f]) ==>
              IsDigit(t[i]) &&
              var j := DigitRunEnd(t, i);
              f <= j || (j + 1 < f && IsSeparator(t[j]) && IsDigit(t[j + 1]) && f <= DigitRunEnd(t, j + 1))
  {
    forall f | i < f <= |t| && IsNumberToken(t[i..f])
      ensures IsDigit(t[i])
      ensures var j := DigitRunEnd(t, i);
              f <= j || (j + 1 < f && IsSeparator(t[j]) && IsDigit(t[j + 1]) && f <= DigitRunEnd(t, j + 1))
    {
      TokenShape(t, i, f);
    }
  }

  /** A standalone number starting at `i` is either the whole run of digits
      there, or that run, one separator and the whole run of digits after it:
      the boundary after it rules out stopping inside a run of digits. */
  lemma StandaloneShape(t: string, i: nat)
    ensures forall f: nat :: StandaloneNumber(t, Span(i, f)) ==>
              CanStart(t, i) &&
              var j := DigitRunEnd(t, i);
              f == j || (j + 1 < |t| && IsSeparator(t[j]) && IsDigit(t[j + 1]) && f == DigitRunEnd(t, j + 1))
  {
    TokenShapeAll(t, i);
    forall f: nat | StandaloneNumber(t, Span(i, f))
      ensures CanStart(t, i)
      ensures var j := DigitRunEnd(t, i);
              f == j || (j + 1 < |t| && IsSeparator(t[j]) && IsDigit(t[j + 1]) && f == DigitRunEnd(t, j + 1))
    {
    }
  }

  // ---- The generic pattern `(?<![A-Za-z])\b[\d]+(?:[.,][\d]+)?\b(?![A-Za-z])` ----

  /** The end of the generic match starting at `i`, if there is one.  The
      digits are greedy; when no boundary follows the fraction, the engine
      backtracks to the integer part, which the separator always bounds.
      The match is the longest standalone number starting at `i`, and there
      is none exactly when no standalone number starts there. */
  function GenericMatchAt(t: string, i: nat): (e: Option<nat>)
    requires i <= |t|
    ensures e.Some? ==> StandaloneNumber(t, Span(i, e.value))
    ensures e.Some? ==> forall f: nat :: StandaloneNumber(t, Span(i, f)) ==> f <= e.value
    ensures e.None? <==> forall f: nat :: !StandaloneNumber(t, Span(i, f))
  {
    StandaloneShape(t, i);
    if !CanStart(t, i) then None
    else
      var j := DigitRunEnd(t, i);
      if j + 1 < |t| && IsSeparator(t[j]) && IsDigit(t[j + 1]) && EndBoundary(t, DigitRunEnd(t, j + 1)) then
        var f := DigitRunEnd(t, j + 1);
        FractionToken(t, i, j, f);
        Some(f)
      else if EndBoundary(t, j) then
        DigitsToken(t, i, j);
        Some(j)
      else None
  }

  /** The generic pattern matches at the start of a standalone integer. */
  lemma StandaloneIntegerMatches(t: string, a: nat)
    requires CanStart(t, a) && EndBoundary(t, DigitRunEnd(t, a))
    ensures GenericMatchAt(t, a).Some?
  {
  }

  // ---- The loose pattern `[\d]+(?:[.,][\d]+)?` ----------------------------

  /** The end of the loose match starting at digit `i`: the longest number
      token starting there, since nothing after the pattern forces the
      engine to backtrack. */
  function LooseMatchAt(t: string, i: nat): (e: nat)
    requires i < |t| && IsDigit(t[i])
    ensures i < e <= |t| && IsNumberToken(t[i..e])
    ensures forall f :: e < f <= |t| ==> !IsNumberToken(t[i..f])
  {
    TokenShapeAll(t, i);
    var j := DigitRunEnd(t, i);
    if j + 1 < |t| && IsSeparator(t[j]) && IsDigit(t[j + 1]) then
      var f := DigitRunEnd(t, j + 1);
      FractionToken(t, i, j, f);
      f
    else
      DigitsToken(t, i, j);
      j
  }

  // ---- `re.findall` with either pattern ---------------------------------------

  datatype Pattern = Generic | Loose

  /** `sp` is a match of the pattern in `t`: for the generic pattern a
      standalone number, for the loose one any number token. */
  predicate Matches(pat: Pattern, t: string, sp: Span) {
    match pat
    case Generic => StandaloneNumber(t, sp)
    case Loose => Within(t, sp) && IsNumberToken(t[sp.start..sp.end])
  }

  /** The match the engine finds when it tries position `i`. */
  function MatchAt(pat: Pattern, t: string, i: nat): (e: Option<nat>)
    requires i <= |t|
    ensures e.Some? ==> Matches(pat, t, Span(i, e.value))
  {
    match pat
    case Generic => GenericMatchAt(t, i)
    case Loose => if i < |t| && IsDigit(t[i]) then Some(LooseMatchAt(t, i)) else None
  }

  /** The match found at `i` is the longest match starting there, and there
      is none exactly when no match starts there. */
  lemma MatchAtLongest(pat: Pattern, t: string, i: nat)
    requires i <= |t|
    ensures MatchAt(pat, t, i).Some? ==> LongestMatch(pat, t, Span(i, MatchAt(pat, t, i).value))
    ensures MatchAt(pat, t, i).None? <==> forall f: nat :: !Matches(pat, t, Span(i, f))
  {
  }

  /** `re.findall` from position `i` on: try each position in turn and, after
      a match, go on from its end.  Every span is a match, and the spans come
      in order without overlap. */
  function SpansFrom(pat: Pattern, t: string, i: nat): (spans: seq<Span>)
    requires i <= |t|
    ensures forall k :: 0 <= k < |spans| ==> Matches(pat, t, spans[k])
    ensures InOrder(spans, i)
    decreases |t| - i
  {
    if i == |t| then []
    else
      match MatchAt(pat, t, i)
      case Some(e) => [Span(i, e)] + SpansFrom(pat, t, e)
      case None => SpansFrom(pat, t, i + 1)
  }

  /** A match of either pattern is a number token. */
  lemma MatchesAreTokens(pat: Pattern, t: string, spans: seq<Span>)
    requires forall k :: 0 <= k < |spans| ==> Matches(pat, t, spans[k])
    ensures forall k :: 0 <= k < |spans| ==> Within(t, spans[k]) && IsNumberToken(t[spans[k].start..spans[k].end])
  {
  }

  function GenericSpans(t: string): seq<Span> {
    SpansFrom(Generic, t, 0)
  }

  function LooseSpans(t: string): seq<Span> {
    SpansFrom(Loose, t, 0)
  }

  /** No match of the pattern starts in `[lo, hi)`. */
  ghost predicate NoMatchIn(pat: Pattern, t: string, lo: nat, hi: nat) {
    forall p: nat, f: nat :: lo <= p < hi ==> !Matches(pat, t, Span(p, f))
  }

  /** `sp` is a match and no longer match starts where it starts. */
  ghost predicate LongestMatch(pat: Pattern, t: string, sp: Span) {
    Matches(pat, t, sp) && forall f: nat :: Matches(pat, t, Span(sp.start, f)) ==> f <= sp.end
  }

  /** What `re.findall` returns from position `i` on: nothing when no match
      starts at `i` or later; otherwise first the longest match at the
      least position from `i` on where any match starts, then what it
      returns from that match's end. */
  ghost predicate LeftmostLongest(pat: Pattern, t: string, i: nat, spans: seq<Span>)
    decreases |spans|
  {
    if spans == [] then NoMatchIn(pat, t, i, |t|)
    else
      NoMatchIn(pat, t, i, spans[0].start) && LongestMatch(pat, t, spans[0])
      && LeftmostLongest(pat, t, spans[0].end, spans[1..])
  }

  /** The matches `re.findall` returns are the leftmost-longest ones, so
      the result is fixed by the pattern alone: "14,5" in
      "hemoglobina 14,5 g/dl" is one span, not 14 and 5. */
  lemma {:induction false} SpansFromLeftmostLongest(pat: Pattern, t: string, i: nat)
    requires i <= |t|
    ensures LeftmostLongest(pat, t, i, SpansFrom(pat, t, i))
    decreases |t| - i
  {
    if i == |t| {
      assert SpansFrom(pat, t, i) == [];
      assert NoMatchIn(pat, t, i, |t|);
    } else if MatchAt(pat, t, i).Some? {
      SpansFromLeftmostLongest(pat, t, MatchAt(pat, t, i).value);
      SpansFromMatch(pat, t, i);
    } else {
      SpansFromLeftmostLongest(pat, t, i + 1);
      SpansFromNoMatch(pat, t, i);
    }
  }

  lemma SpansFromMatch(pat: Pattern, t: string, i: nat)
    requires i < |t| && MatchAt(pat, t, i).Some?
    requires LeftmostLongest(pat, t, MatchAt(pat, t, i).value, SpansFrom(pat, t, MatchAt(pat, t, i).value))
    ensures LeftmostLongest(pat, t, i, SpansFrom(pat, t, i))
  {
    var e := MatchAt(pat, t, i).value;
    MatchAtLongest(pat, t, i);
    var spans := SpansFrom(pat, t, i);
    assert spans == [Span(i, e)] + SpansFrom(pat, t, e);
    assert spans[1..] == SpansFrom(pat, t, e);
  }

  lemma SpansFromNoMatch(pat: Pattern, t: string, i: nat)
    requires i < |t| && MatchAt(pat, t, i).None?
    requires LeftmostLongest(pat, t, i + 1, SpansFrom(pat, t, i + 1))
    ensures LeftmostLongest(pat, t, i, SpansFrom(pat, t, i))
  {
    MatchAtLongest(pat, t, i);
    assert SpansFrom(pat, t, i) == SpansFrom(pat, t, i + 1);
    LeftmostLongestSkip(pat, t, i, SpansFrom(pat, t, i + 1));
  }

  /** A scan may start one position earlier where no match starts. */
  lemma LeftmostLongestSkip(pat: Pattern, t: string, i: nat, spans: seq<Span>)
    requires forall f: nat :: !Matches(pat, t, Span(i, f))
    requires LeftmostLongest(pat, t, i + 1, spans)
    ensures LeftmostLongest(pat, t, i, spans)
  {
  }

  /** One step of `re.findall` after a match at `i`. */
  lemma SpansFromAfterMatch(pat: Pattern, t: string, i: nat)
    requires i < |t| && MatchAt(pat, t, i).Some?
    ensures MatchAt(pat, t, i).value <= |t|
    ensures SpansFrom(pat, t, i) == [Span(i, MatchAt(pat, t, i).value)] + SpansFrom(pat, t, MatchAt(pat, t, i).value)
  {
  }

  /** One step of `re.findall` past a position where nothing matches. */
  lemma SpansFromPast(pat: Pattern, t: string, i: nat)
    requires i < |t| && MatchAt(pat, t, i).None?
    ensures SpansFrom(pat, t, i) == SpansFrom(pat, t, i + 1)
  {
  }

  /** Position `a` lies inside one of the spans. */
  ghost predicate Covered(spans: seq<Span>, a: nat) {
    exists k :: 0 <= k < |spans| && spans[k].start <= a < spans[k].end
  }

  lemma CoveredCons(sp: Span, rest: seq<Span>, a: nat)
    requires (sp.start <= a < sp.end) || Covered(rest, a)
    ensures Covered([sp] + rest, a)
  {
    var spans := [sp] + rest;
    if !(sp.start <= a < sp.end) {
      var k :| 0 <= k < |rest| && rest[k].start <= a < rest[k].end;
      assert spans[k + 1] == rest[k];
    } else {
      assert spans[0] == sp;
    }
  }

  /** No match is skipped over: every position at which a match starts lies
      inside some span `re.findall` returns. */
  lemma {:induction false} MatchStartsCovered(pat: Pattern, t: string, i: nat, a: nat)
    requires i <= a < |t| && MatchAt(pat, t, a).Some?
    ensures Covered(SpansFrom(pat, t, i), a)
    decreases |t| - i
  {
    if MatchAt(pat, t, i).Some? {
      var e := MatchAt(pat, t, i).value;
      SpansFromAfterMatch(pat, t, i);
      if e <= a {
        MatchStartsCovered(pat, t, e, a);
      }
      CoveredCons(Span(i, e), SpansFrom(pat, t, e), a);
    } else {
      assert i != a;
      SpansFromPast(pat, t, i);
      MatchStartsCovered(pat, t, i + 1, a);
    }
  }

  /** An integer standing on its own is never missed: every run of digits
      with a non-word character (or the text's edge) on both sides lies
      inside a generic match. */
  lemma GenericComplete(t: string, i: nat, a: nat)
    requires i <= a && CanStart(t, a) && EndBoundary(t, DigitRunEnd(t, a))
    ensures exists k :: 0 <= k < |SpansFrom(Generic, t, i)|
              && SpansFrom(Generic, t, i)[k].start <= a < SpansFrom(Generic, t, i)[k].end
  {
    StandaloneIntegerMatches(t, a);
    MatchStartsCovered(Generic, t, i, a);
  }

  /** Every digit of the text lies inside a loose match. */
  lemma LooseComplete(t: string, i: nat, a: nat)
    requires i <= a < |t| && IsDigit(t[a])
    ensures exists k :: 0 <= k < |SpansFrom(Loose, t, i)|
              && SpansFrom(Loose, t, i)[k].start <= a < SpansFrom(Loose, t, i)[k].end
  {
    MatchStartsCovered(Loose, t, i, a);
  }

  // ---- The result pattern `resultado[:\s]*([\d.,]+)` on the lower-cased text ----

  predicate IsColonOrSpace(c: char) {
    c == ':' || IsSpace(c)
  }

  /** End of the run of `[:\s]` starting at `i`. */
  function SkipColonsAndSpaces(t: string, i: nat): (j: nat)
    requires i <= |t|
    ensures i <= j <= |t|
    ensures forall k :: i <= k < j ==> IsColonOrSpace(t[k])
    ensures j == |t| || !IsColonOrSpace(t[j])
    decreases |t| - i
  {
    if i < |t| && IsColonOrSpace(t[i]) then SkipColonsAndSpaces(t, i + 1) else i
  }

  /** End of the run of `[\d.,]` starting at `i`. */
  function NumeralRunEnd(t: string, i: nat): (j: nat)
    requires i <= |t|
    ensures i <= j <= |t|
    ensures forall k :: i <= k < j ==> IsNumeralChar(t[k])
    ensures j == |t| || !IsNumeralChar(t[j])
    decreases |t| - i
  {
    if i < |t| && IsNumeralChar(t[i]) then NumeralRunEnd(t, i + 1) else i
  }

  const ResultWord := "resultado"

  /** The captured group of a match starting at `p`, if the pattern matches
      there.  Backtracking `[:\s]*` cannot help: a shorter run leaves a colon
      or a space where `[\d.,]` must start. */
  function ResultGroupAt(t: string, p: nat): (g: Option<string>)
    ensures g.Some? ==> g.value != [] && IsNumeral(g.value)
  {
    if !OccursAt(t, ResultWord, p) then None
    else
      var q := SkipColonsAndSpaces(t, p + |ResultWord|);
      if q < |t| && IsNumeralChar(t[q]) then Some(t[q..NumeralRunEnd(t, q)]) else None
  }

  /** The result pattern matches at `p` with its group at `[q, r)`: the
      word, a run of colons and whitespace, then a non-empty run of digits,
      dots and commas. */
  ghost predicate ResultMatch(t: string, p: nat, q: nat, r: nat) {
    OccursAt(t, ResultWord, p) && p + |ResultWord| <= q < r <= |t|
    && (forall k :: p + |ResultWord| <= k < q ==> IsColonOrSpace(t[k]))
    && (forall k :: q <= k < r ==> IsNumeralChar(t[k]))
  }

  /** The group is found exactly when the pattern can match at `p`, and it
      is the whole run of `[\d.,]`: what follows it is the end of the text
      or another character.  Since a group can only start where the colons
      and whitespace end, this fixes the group. */
  lemma ResultGroupAtMeaning(t: string, p: nat)
    ensures ResultGroupAt(t, p).None? <==> forall q: nat, r: nat :: !ResultMatch(t, p, q, r)
    ensures ResultGroupAt(t, p).Some? ==>
              exists q: nat, r: nat :: ResultMatch(t, p, q, r) && ResultGroupAt(t, p).value == t[q..r]
                                       && (r == |t| || !IsNumeralChar(t[r]))
  {
    if OccursAt(t, ResultWord, p) {
      var q0 := SkipColonsAndSpaces(t, p + |ResultWord|);
      if q0 < |t| && IsNumeralChar(t[q0]) {
        var r0 := NumeralRunEnd(t, q0);
        assert ResultMatch(t, p, q0, r0);
      } else {
        forall q: nat, r: nat ensures !ResultMatch(t, p, q, r) {
          if p + |ResultWord| <= q < q0 {
            assert IsColonOrSpace(t[q]);
          } else if q0 < q <= |t| {
            assert !IsColonOrSpace(t[q0]);
          }
        }
      }
    }
  }

  /** `re.search`: the first position, from `p` on, where the pattern matches, or -1. */
  function ResultSearchFrom(t: string, p: nat): (k: int)
    requires p <= |t| + 1
    ensures k == -1 || (p <= k <= |t| && ResultGroupAt(t, k).Some?)
    ensures k == -1 ==> forall m :: p <= m <= |t| ==> ResultGroupAt(t, m).None?
    ensures k != -1 ==> forall m :: p <= m < k ==> ResultGroupAt(t, m).None?
    decreases |t| + 1 - p
  {
    if p > |t| then -1
    else if ResultGroupAt(t, p).Some? then p
    else ResultSearchFrom(t, p + 1)
  }

  /** The group `re.search` captures, if the pattern occurs at all. */
  function ResultGroup(t: string): (g: Option<string>)
    ensures g.Some? ==> g.value != [] && IsNumeral(g.value)
  {
    var k := ResultSearchFrom(t, 0);
    if k == -1 then None else ResultGroupAt(t, k)
  }

  // ---- Combining the patterns ----------------------------------------------

  function Substrings(t: string, spans: seq<Span>): (r: seq<string>)
    requires forall k :: 0 <= k < |spans| ==> spans[k].start <= spans[k].end <= |t|
    ensures |r| == |spans|
    ensures forall k :: 0 <= k < |spans| ==> r[k] == t[spans[k].start..spans[k].end]
  {
    if spans == [] then [] else [t[spans[0].start..spans[0].end]] + Substrings(t, spans[1..])
  }

  /** The strings the list comprehension converts: the generic matches, or the
      loose ones when a result line has no generic match. */
  function MatchedStrings(text: string, isResultLine: bool): (ms: seq<string>)
    ensures forall k :: 0 <= k < |ms| ==> IsNumberToken(ms[k])
  {
    var generic := GenericSpans(text);
    MatchesAreTokens(Generic, text, generic);
    MatchesAreTokens(Loose, text, LooseSpans(text));
    if generic == [] && isResultLine then Substrings(text, LooseSpans(text))
    else Substrings(text, generic)
  }

  /** `[num for num in numbers if num is not None]` over the matches
      converted by `convert` (`clean_and_convert_to_float` in the source). */
  function KeepParsed(ms: seq<string>, convert: string -> Option<real>): seq<real> {
    if ms == [] then []
    else
      match convert(ms[0])
      case Some(v) => [v] + KeepParsed(ms[1..], convert)
      case None => KeepParsed(ms[1..], convert)
  }

  /** The value of the `resultado` shortcut, when it is tried and yields one. */
  function ResultShortcut(text: string, isResultLine: bool): Option<real> {
    if isResultLine || Contains(Lower(text), ResultWord) then
      match ResultGroup(Lower(text))
      case Some(g) => CleanAndConvert(g)
      case None => None
    else None
  }

  function ExtractNumbers(text: string, isResultLine: bool): seq<real> {
    match ResultShortcut(text, isResultLine)
    case Some(v) => [v]
    case None => KeepParsed(MatchedStrings(text, isResultLine), CleanAndConvert)
  }

  // ---- Properties ------------------------------------------------------------

  /** Every number token converts: the generic and loose patterns never
      produce a string `clean_and_convert_to_float` rejects. */
  lemma TokenParses(x: string)
    requires IsNumberToken(x)
    ensures CleanAndConvert(x).Some?
  {
    if x != [] && AllDigits(x) {
      IntegerToken(x);
    } else {
      var k :| 0 < k < |x| - 1 && IsFractionSplit(x, k);
      var ip, fp := x[..k], x[k + 1..];
      assert x == ip + [x[k]] + fp;
      if x[k] == '.' {
        DotDecimal(ip, fp);
      } else if |fp| <= 2 {
        DecimalComma(ip, fp);
      } else {
        ThousandsFraction(ip, fp);
      }
    }
  }

  lemma IntegerToken(d: string)
    requires d != [] && AllDigits(d)
    ensures CleanAndConvert(d) == Some(DigitsValue(d) as real)
  {
    assert IsNumeral(d) && ',' !in d by {
      DigitsMembers(d);
    }
    assert IsDigit(d[|d| - 1]);
    CleanOfNumeral(d, d);
    PyFloatDigits(d);
  }

  /** `ip,fp` with three or more fraction digits: the comma is a thousands separator. */
  lemma ThousandsFraction(ip: string, fp: string)
    requires ip != [] && AllDigits(ip) && AllDigits(fp) && |fp| > 2
    ensures CleanAndConvert(ip + "," + fp).Some?
  {
    var s := ip + "," + fp;
    DigitsMembers(ip);
    DigitsMembers(fp);
    assert s[|ip|] == ',' && IsDigit(s[0]);
    assert multiset(s)[','] == 1;
    assert forall k :: 0 <= k < |ip| ==> s[k] == ip[k];
    assert FirstIndex(s, ',') == |ip|;
    ThousandsCommas(s);
  }

  /** When every string converts, nothing is dropped: one value per
      string, in order. */
  lemma {:induction false} KeepParsedAll(ms: seq<string>, convert: string -> Option<real>)
    requires forall k :: 0 <= k < |ms| ==> convert(ms[k]).Some?
    ensures |KeepParsed(ms, convert)| == |ms|
    ensures forall k :: 0 <= k < |ms| ==> convert(ms[k]) == Some(KeepParsed(ms, convert)[k])
  {
    if ms != [] {
      KeepParsedAll(ms[1..], convert);
      assert KeepParsed(ms, convert) == [convert(ms[0]).value] + KeepParsed(ms[1..], convert);
    }
  }

  /** Every match converts, so the comprehension keeps them all. */
  lemma KeepParsedTokens(ms: seq<string>)
    requires forall k :: 0 <= k < |ms| ==> IsNumberToken(ms[k])
    ensures |KeepParsed(ms, CleanAndConvert)| == |ms|
    ensures forall k :: 0 <= k < |ms| ==> CleanAndConvert(ms[k]) == Some(KeepParsed(ms, CleanAndConvert)[k])
  {
    forall k | 0 <= k < |ms| ensures CleanAndConvert(ms[k]).Some? {
      TokenParses(ms[k]);
    }
    KeepParsedAll(ms, CleanAndConvert);
  }

  /** What `extract_numbers_from_text` returns: the shortcut's single value
      when it yields one; otherwise one value per match, in order, each the
      conversion of its match (no match is dropped, because every match
      converts). */
  lemma ExtractNumbersSpec(text: string, isResultLine: bool)
    ensures ResultShortcut(text, isResultLine).Some? ==>
              ExtractNumbers(text, isResultLine) == [ResultShortcut(text, isResultLine).value]
    ensures ResultShortcut(text, isResultLine).None? ==>
              var ms := MatchedStrings(text, isResultLine);
              |ExtractNumbers(text, isResultLine)| == |ms|
              && forall k :: 0 <= k < |ms| ==> CleanAndConvert(ms[k]) == Some(ExtractNumbers(text, isResultLine)[k])
  {
    if ResultShortcut(text, isResultLine).None? {
      KeepParsedTokens(MatchedStrings(text, isResultLine));
    }
  }

  /** Outside result lines the loose pattern is never used: without the
      shortcut, the values are exactly those of the standalone numbers. */
  lemma PlainLineUsesGenericMatches(text: string)
    requires ResultShortcut(text, false).None?
    ensures ExtractNumbers(text, false) == KeepParsed(Substrings(text, GenericSpans(text)), CleanAndConvert)
  {
  }

  /** Text without a digit yields no number. */
  lemma NoDigitNoNumbers(text: string, isResultLine: bool)
    requires !HasDigit(text)
    ensures ExtractNumbers(text, isResultLine) == []
  {
    NoDigitNoShortcut(text, isResultLine);
    NoMatchesWithoutDigits(text, isResultLine);
  }

  lemma NoDigitNoShortcut(text: string, isResultLine: bool)
    requires !HasDigit(text)
    ensures ResultShortcut(text, isResultLine).None?
  {
    var low := Lower(text);
    var g := ResultGroup(low);
    if g.Some? {
      NoDigitGroup(low, ResultSearchFrom(low, 0));
      NoDigitNoNumber(g.value);
    }
  }

  lemma NoDigitGroup(t: string, p: nat)
    requires !HasDigit(t) && ResultGroupAt(t, p).Some?
    ensures !HasDigit(ResultGroupAt(t, p).value)
  {
    var g := ResultGroupAt(t, p).value;
    var q := SkipColonsAndSpaces(t, p + |ResultWord|);
    assert forall m :: 0 <= m < |g| ==> g[m] == t[q + m];
  }

  lemma NoMatchesWithoutDigits(text: string, isResultLine: bool)
    requires !HasDigit(text)
    ensures MatchedStrings(text, isResultLine) == []
  {
    MatchesAreTokens(Generic, text, GenericSpans(text));
    MatchesAreTokens(Loose, text, LooseSpans(text));
    SpansStartAtDigits(text, GenericSpans(text));
    SpansStartAtDigits(text, LooseSpans(text));
  }

  /** A text with a match of either pattern holds a digit. */
  lemma SpansStartAtDigits(text: string, spans: seq<Span>)
    requires forall k :: 0 <= k < |spans| ==> Within(text, spans[k]) && IsNumberToken(text[spans[k].start..spans[k].end])
    ensures spans != [] ==> HasDigit(text)
  {
    if spans != [] {
      var x := text[spans[0].start..spans[0].end];
      TokenStartsWithDigit(x);
      assert x[0] == text[spans[0].start];
    }
  }

  lemma TokenStartsWithDigit(x: string)
    requires IsNumberToken(x)
    ensures x != [] && IsDigit(x[0])
  {
    if !(x != [] && AllDigits(x)) {
      var k :| 0 < k < |x| - 1 && IsFractionSplit(x, k);
      assert x[..k][0] == x[0];
    }
  }
}
