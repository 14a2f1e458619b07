/** `find_value_in_structured_layout`, `process_line` and
    `parse_generic_metric`: how one grouped line yields at most one metric. */
module ValueResolver {
  import opened Text
  import opened Wrappers
  import opened StableSort
  import opened NumericParser
  import opened NumberScanner
  import opened LineGrouper
  import Normalizer
  import MetricLocator

  /** ExtractedMetric: a canonical metric name and its value. */
  datatype ExtractedMetric = ExtractedMetric(name: string, value: real)

  /** Values above this are taken for misreadings and dropped. */
  const MaxPlausibleValue: real := 10000.0

  /** How far left of the metric's right edge a value word may start. */
  const ValueSlack: real := 20.0

  /** How many following lines the lookahead inspects at most. */
  const LookaheadLines: nat := 3

  /** The text tests and conversions line resolution applies:
      `clean_and_convert_to_float`, `extract_numbers_from_text` and the
      test `"resultado" in line_text.lower()`.  The functions below take
      them as a record so that their proofs hold for any such readers;
      `Source` is the record of the modelled ones. */
  datatype Readers = Readers(convert: string -> Option<real>, numbers: (string, bool) -> seq<real>, isResultLine: string -> bool)

  /** A `resultado` line: its lower-cased text contains the word. */
  predicate IsResultLine(text: string) {
    Contains(Lower(text), ResultWord)
  }

  const Source: Readers := Readers(CleanAndConvert, ExtractNumbers, IsResultLine)

  function Texts(ws: seq<Word>): (r: seq<string>)
    ensures |r| == |ws| && forall k :: 0 <= k < |ws| ==> r[k] == ws[k].text
  {
    seq(|ws|, k requires 0 <= k < |ws| => ws[k].text)
  }

  /** `" ".join(w[4] for w in words)`. */
  function LineText(ws: seq<Word>): string {
    JoinWithSpace(Texts(ws))
  }

  function XStart(w: Word): real {
    w.x0
  }

  /** `sorted(words, key=lambda w: w[0])`. */
  function ByX(ws: seq<Word>): seq<Word> {
    SortBy(ws, XStart)
  }

  function Keys(lines: seq<Line>): (r: seq<real>)
    ensures |r| == |lines| && forall k :: 0 <= k < |lines| ==> r[k] == lines[k].key
  {
    seq(|lines|, k requires 0 <= k < |lines| => lines[k].key)
  }

  function Ascending(y: real): real {
    y
  }

  /** `sorted(lines.keys())`. */
  function SortedKeys(lines: seq<Line>): seq<real> {
    SortBy(Keys(lines), Ascending)
  }

  /** `lines[key]` on the defaultdict: the words of the line with that key, or none. */
  function WordsAt(lines: seq<Line>, key: real): seq<Word> {
    if lines == [] then [] else if lines[0].key == key then lines[0].words else WordsAt(lines[1..], key)
  }

  /** `sorted(all_lines[key], key=lambda w: w[0])`: the words at a key, in x order. */
  function SortedWordsAt(lines: seq<Line>, key: real): seq<Word> {
    if lines == [] then [] else if lines[0].key == key then ByX(lines[0].words) else SortedWordsAt(lines[1..], key)
  }

  /** `SortedWordsAt` is the lookup followed by the sort, and on a well-grouped
      page the lookup finds the line whose key it is. */
  lemma {:induction false} SortedWordsAtSpec(lines: seq<Line>, key: real)
    ensures SortedWordsAt(lines, key) == ByX(WordsAt(lines, key))
    ensures forall k :: 0 <= k < |lines| && lines[k].key == key && (forall m :: 0 <= m < k ==> lines[m].key != key)
              ==> WordsAt(lines, key) == lines[k].words
  {
    if lines != [] {
      SortedWordsAtSpec(lines[1..], key);
      forall k | 0 < k < |lines| && lines[k].key == key && (forall m :: 0 <= m < k ==> lines[m].key != key)
        ensures WordsAt(lines, key) == lines[k].words
      {
        assert lines[1..][k - 1] == lines[k];
        assert forall m :: 0 <= m < k - 1 ==> lines[1..][m] == lines[m + 1];
      }
    }
  }

  /** `ys.index(y)`, with `None` for the ValueError. */
  function IndexOf(ys: seq<real>, y: real): (r: Option<nat>)
    ensures r.None? <==> y !in ys
    ensures r.Some? ==> r.value < |ys| && ys[r.value] == y && forall k :: 0 <= k < r.value ==> ys[k] != y
  {
    var k := FirstIndex(ys, y);
    if k < |ys| then Some(k) else None
  }

  function Min(a: int, b: int): int {
    if a <= b then a else b
  }

  /** A word that may hold the value: it starts to the right of `metric_x_end - 20`. */
  predicate RightOfMetric(w: Word, metricXEnd: real) {
    w.x0 > metricXEnd - ValueSlack
  }

  /** A word right of the metric whose text converts. */
  predicate ValueWord(w: Word, metricXEnd: real, rd: Readers) {
    RightOfMetric(w, metricXEnd) && rd.convert(w.text).Some?
  }

  /** The value of the first word, in order, that is right of the metric and converts. */
  function FirstParsedRightOf(ws: seq<Word>, metricXEnd: real, rd: Readers): Option<real> {
    if ws == [] then None
    else if ValueWord(ws[0], metricXEnd, rd) then rd.convert(ws[0].text)
    else FirstParsedRightOf(ws[1..], metricXEnd, rd)
  }

  /** `FirstParsedRightOf` finds nothing exactly when no word qualifies, and
      otherwise the value of word `k`, the first that qualifies. */
  lemma {:induction false} FirstParsedRightOfSpec(ws: seq<Word>, metricXEnd: real, rd: Readers) returns (k: nat)
    ensures FirstParsedRightOf(ws, metricXEnd, rd).None? <==> forall j :: 0 <= j < |ws| ==> !ValueWord(ws[j], metricXEnd, rd)
    ensures FirstParsedRightOf(ws, metricXEnd, rd).Some? ==>
              k < |ws| && ValueWord(ws[k], metricXEnd, rd) && rd.convert(ws[k].text) == FirstParsedRightOf(ws, metricXEnd, rd)
              && forall j :: 0 <= j < k ==> !ValueWord(ws[j], metricXEnd, rd)
  {
    if ws == [] {
      k := 0;
    } else if ValueWord(ws[0], metricXEnd, rd) {
      k := 0;
    } else {
      var k' := FirstParsedRightOfSpec(ws[1..], metricXEnd, rd);
      assert forall j :: 0 < j < |ws| ==> ws[j] == ws[1..][j - 1];
      k := k' + 1;
    }
  }

  /** The inner loop of the lookahead: the first qualifying word, with an early return. */
  method FirstValueWord(ws: seq<Word>, metricXEnd: real, rd: Readers) returns (r: Option<real>)
    ensures r == FirstParsedRightOf(ws, metricXEnd, rd)
  {
    for k := 0 to |ws|
      invariant FirstParsedRightOf(ws, metricXEnd, rd) == FirstParsedRightOf(ws[k..], metricXEnd, rd)
    {
      assert ws[k..][1..] == ws[k + 1..];
      if ws[k].x0 > metricXEnd - ValueSlack {
        var num := rd.convert(ws[k].text);
        if num.Some? {
          return num;
        }
      }
    }
    assert ws[|ws|..] == [];
    return None;
  }

  /** What one candidate line (words in x order) yields: the first number of
      a `resultado` line that has numbers, else the first convertible word
      right of the metric. */
  function LineValue(ws: seq<Word>, metricXEnd: real, rd: Readers): Option<real> {
    var text := LineText(ws);
    if rd.isResultLine(text) && rd.numbers(text, true) != [] then Some(rd.numbers(text, true)[0])
    else FirstParsedRightOf(ws, metricXEnd, rd)
  }

  /** The value of the candidate line with key `y`, its words in x order. */
  function LineValues(lines: seq<Line>, metricXEnd: real, rd: Readers): real -> Option<real> {
    y => LineValue(SortedWordsAt(lines, y), metricXEnd, rd)
  }

  /** The first value `f` gives among the keys `ys[i]`, ..., `ys[last]`,
      scanned in that order. */
  function WindowValue(ys: seq<real>, i: nat, last: nat, f: real -> Option<real>): Option<real>
    requires last < |ys|
    decreases last + 1 - i
  {
    if i > last then None
    else if f(ys[i]).Some? then f(ys[i])
    else WindowValue(ys, i + 1, last, f)
  }

  /** One step of the scan: a value at `ys[i]` ends it, none moves it on. */
  lemma WindowStep(ys: seq<real>, i: nat, last: nat, f: real -> Option<real>)
    requires i <= last < |ys|
    ensures f(ys[i]).Some? ==> WindowValue(ys, i, last, f) == f(ys[i])
    ensures f(ys[i]).None? ==> WindowValue(ys, i, last, f) == WindowValue(ys, i + 1, last, f)
  {
  }

  /** The scan finds a value exactly at the first key, from `i` on, that
      has one; `j` is that key's index. */
  lemma {:induction false} WindowValueAt(ys: seq<real>, i: nat, last: nat, f: real -> Option<real>) returns (j: nat)
    requires last < |ys|
    requires WindowValue(ys, i, last, f).Some?
    ensures i <= j <= last
    ensures f(ys[j]) == WindowValue(ys, i, last, f)
    ensures forall m :: i <= m < j ==> f(ys[m]).None?
    decreases last + 1 - i
  {
    if f(ys[i]).Some? {
      j := i;
    } else {
      j := WindowValueAt(ys, i + 1, last, f);
    }
  }

  /** The lookahead over sorted keys `ys`: nothing when `current_y` is not
      among them; otherwise the first value `f` gives among the (at most
      three) keys that follow its first occurrence. */
  function Lookahead(ys: seq<real>, currentY: real, f: real -> Option<real>): Option<real> {
    match IndexOf(ys, currentY)
    case None => None
    case Some(idx) => WindowValue(ys, idx + 1, idx + Min(LookaheadLines, |ys| - idx - 1), f)
  }

  /** `find_value_in_structured_layout`: the lookahead over the page's keys
      in ascending order, reading each candidate line in x order. */
  function StructuredValue(lines: seq<Line>, currentY: real, metricXEnd: real, rd: Readers): Option<real> {
    Lookahead(SortedKeys(lines), currentY, LineValues(lines, metricXEnd, rd))
  }

  /** One candidate line of the lookahead, as the source's loop body computes it. */
  method CandidateLine(lineWords: seq<Word>, metricXEnd: real, rd: Readers) returns (r: Option<real>)
    ensures r == LineValue(lineWords, metricXEnd, rd)
  {
    var lineText := LineText(lineWords);
    if rd.isResultLine(lineText) {
      var numbers := rd.numbers(lineText, true);
      if numbers != [] {
        return Some(numbers[0]);
      }
    }
    r := FirstValueWord(lineWords, metricXEnd, rd);
  }

  /** The source's loop over the window `ys[first]`, ..., `ys[last]`,
      returning the first value found. */
  method ScanWindow(allLines: seq<Line>, ys: seq<real>, first: nat, last: nat, metricXEnd: real, rd: Readers) returns (r: Option<real>)
    requires last < |ys|
    ensures r == WindowValue(ys, first, last, LineValues(allLines, metricXEnd, rd))
  {
    ghost var f := LineValues(allLines, metricXEnd, rd);
    var i := first;
    while i <= last
      invariant first <= i <= last + 1 || (i == first && first > last)
      invariant WindowValue(ys, first, last, f) == WindowValue(ys, i, last, f)
      decreases last + 1 - i
    {
      var v := CandidateLine(SortedWordsAt(allLines, ys[i]), metricXEnd, rd);
      assert v == f(ys[i]);
      if v.Some? {
        return v;
      }
      i := i + 1;
    }
    return None;
  }

  /** The lookahead from the first occurrence of `current_y` in `ys`, with
      the source's `ValueError` for a missing key read as no value. */
  method LookaheadOver(allLines: seq<Line>, ys: seq<real>, currentY: real, metricXEnd: real, rd: Readers) returns (r: Option<real>)
    ensures r == Lookahead(ys, currentY, LineValues(allLines, metricXEnd, rd))
  {
    var found := IndexOf(ys, currentY);
    if found.None? {
      return None;
    }
    var idx := found.value;
    var searchRange := Min(LookaheadLines, |ys| - idx - 1);
    r := ScanWindow(allLines, ys, idx + 1, idx + searchRange, metricXEnd, rd);
  }

  /** `find_value_in_structured_layout` as the source writes it. */
  method FindValueInStructuredLayout(allLines: seq<Line>, currentY: real, metricXEnd: real, rd: Readers) returns (r: Option<real>)
    ensures r == StructuredValue(allLines, currentY, metricXEnd, rd)
  {
    var ys := SortedKeys(allLines);
    r := LookaheadOver(allLines, ys, currentY, metricXEnd, rd);
  }

  /** `sorted(all_lines.keys())` is ascending and holds exactly the keys of the page. */
  lemma SortedKeysSpec(lines: seq<Line>)
    ensures SortedBy(SortedKeys(lines), Ascending)
    ensures forall y :: y in SortedKeys(lines) <==> exists k :: 0 <= k < |lines| && lines[k].key == y
  {
    SortBySorted(Keys(lines), Ascending);
    var ks := Keys(lines);
    assert multiset(SortedKeys(lines)) == multiset(ks);
    forall y ensures y in SortedKeys(lines) <==> y in ks {
      assert y in SortedKeys(lines) <==> y in multiset(ks);
    }
  }

  /** A `current_y` that is not a key gives no value. */
  lemma LookaheadNotAKey(ys: seq<real>, currentY: real, f: real -> Option<real>)
    requires currentY !in ys
    ensures Lookahead(ys, currentY, f).None?
  {
  }

  /** A value found by the lookahead is what `f` gives for one of the at
      most three keys right after the first occurrence of `current_y`, and
      every key before it in that window gives nothing. */
  lemma LookaheadWindow(ys: seq<real>, currentY: real, f: real -> Option<real>) returns (idx: nat, j: nat)
    requires Lookahead(ys, currentY, f).Some?
    ensures idx < |ys| && ys[idx] == currentY && currentY !in ys[..idx]
    ensures idx < j <= idx + LookaheadLines && j < |ys|
    ensures f(ys[j]) == Lookahead(ys, currentY, f)
    ensures forall m :: idx < m < j ==> f(ys[m]).None?
  {
    idx := IndexOf(ys, currentY).value;
    j := WindowValueAt(ys, idx + 1, idx + Min(LookaheadLines, |ys| - idx - 1), f);
  }

  // ---- process_line -----------------------------------------------------------

  /** `next(k for k, v in PARAM_MAP.items() if v == name)`: the first alias
      listed for a canonical name. */
  function FirstAliasFrom(name: string, i: nat): (r: Option<string>)
    requires i <= |MetricLocator.ParamMap|
    ensures r.Some? <==> exists j :: i <= j < |MetricLocator.ParamMap| && MetricLocator.ParamMap[j].1 == name
    decreases |MetricLocator.ParamMap| - i
  {
    if i == |MetricLocator.ParamMap| then None
    else if MetricLocator.ParamMap[i].1 == name then Some(MetricLocator.ParamMap[i].0)
    else FirstAliasFrom(name, i + 1)
  }

  /** A name the lookup returns is canonical, so it has a first alias. */
  lemma FoundNameHasAlias(line: string)
    requires MetricLocator.FindMetricInLine(line).Some?
    ensures FirstAliasFrom(MetricLocator.FindMetricInLine(line).value, 0).Some?
  {
    var i := MetricLocator.FindMetricLongest(line);
  }

  /** A line without words names no metric. */
  lemma NoWordsNoMetric(ws: seq<Word>)
    requires ws == []
    ensures MetricLocator.FindMetricInLine(Normalizer.Normalize(LineText(ws))).None?
  {
    assert LineText(ws) == [];
    assert Normalizer.Normalize([]) == [];
    MetricLocator.EmptyLineNoMetric();
  }

  /** The text the source searches for an inline value: the raw line from
      the position of the name's first alias in the normalised line, moved
      on by the length of the canonical name (not of the alias). */
  function TextAfterMetric(lineText: string, normalized: string, name: string, alias: string): (r: string)
    ensures |r| <= |lineText| && r == lineText[|lineText| - |r|..]
  {
    SliceFrom(lineText, Find(normalized, alias) + |name|)
  }

  /** The numbers `process_line` considers: those inline after the metric,
      or else the lookahead's value, measured from the right edge of the
      line's last word. */
  function LineNumbers(lineWords: seq<Word>, allLines: seq<Line>, currentY: real, inline: seq<real>, rd: Readers): (r: seq<real>)
    ensures inline != [] ==> r == inline
    ensures inline == [] ==> |r| <= 1
    ensures inline == [] && lineWords == [] ==> r == []
  {
    if inline != [] then inline
    else if lineWords == [] then []
    else match StructuredValue(allLines, currentY, lineWords[|lineWords| - 1].x1, rd)
      case Some(v) => [v]
      case None => []
  }

  /** The name `process_line` would report for a line, if any. */
  function LineMetric(lineWords: seq<Word>): Option<string> {
    MetricLocator.FindMetricInLine(Normalizer.Normalize(LineText(lineWords)))
  }

  /** The inline numbers after the metric named on the line. */
  function InlineNumbers(lineWords: seq<Word>, name: string, rd: Readers): seq<real> {
    var lineText := LineText(lineWords);
    var normalized := Normalizer.Normalize(lineText);
    match FirstAliasFrom(name, 0)
    case None => []
    case Some(alias) => rd.numbers(TextAfterMetric(lineText, normalized, name, alias), false)
  }

  /** The candidate numbers of a line that names `name`. */
  function CandidateNumbers(lineWords: seq<Word>, name: string, allLines: seq<Line>, currentY: real, rd: Readers): seq<real> {
    LineNumbers(lineWords, allLines, currentY, InlineNumbers(lineWords, name, rd), rd)
  }

  /** `process_line`: at most one metric, for a name found on the line and not
      yet processed, carrying the first candidate number, which is at most 10000. */
  function ProcessLine(lineWords: seq<Word>, processed: set<string>, allLines: seq<Line>, currentY: real, rd: Readers): (r: seq<ExtractedMetric>)
    ensures |r| <= 1
    ensures r != [] ==> LineMetric(lineWords) == Some(r[0].name) && r[0].name !in processed
                        && r[0].value <= MaxPlausibleValue
                        && CandidateNumbers(lineWords, r[0].name, allLines, currentY, rd) != []
                        && r[0].value == CandidateNumbers(lineWords, r[0].name, allLines, currentY, rd)[0]
  {
    match LineMetric(lineWords)
    case None => []
    case Some(name) =>
      if name in processed then []
      else
        var numbers := CandidateNumbers(lineWords, name, allLines, currentY, rd);
        if numbers == [] || numbers[0] > MaxPlausibleValue then []
        else [ExtractedMetric(name, numbers[0])]
  }

  /** `process_line` yields nothing exactly when no metric is named, the
      name is already processed, there is no candidate number, or the first
      one exceeds 10000. */
  lemma ProcessLineEmpty(lineWords: seq<Word>, processed: set<string>, allLines: seq<Line>, currentY: real, rd: Readers)
    ensures ProcessLine(lineWords, processed, allLines, currentY, rd) == [] <==>
              (LineMetric(lineWords).None? || LineMetric(lineWords).value in processed
               || CandidateNumbers(lineWords, LineMetric(lineWords).value, allLines, currentY, rd) == []
               || CandidateNumbers(lineWords, LineMetric(lineWords).value, allLines, currentY, rd)[0] > MaxPlausibleValue)
  {
  }

  /** With inline numbers the lookahead is never consulted: the result does
      not depend on the other lines of the page. */
  lemma InlineNeedsNoLookahead(lineWords: seq<Word>, processed: set<string>, lines1: seq<Line>, y1: real, lines2: seq<Line>, y2: real, rd: Readers)
    requires LineMetric(lineWords).Some?
    requires InlineNumbers(lineWords, LineMetric(lineWords).value, rd) != []
    ensures ProcessLine(lineWords, processed, lines1, y1, rd) == ProcessLine(lineWords, processed, lines2, y2, rd)
  {
  }

  /** A line that names a metric has words (so its last word exists) and
      the name has a first alias (so the source's `next` does not fail). */
  lemma NamedLineWellFormed(lineWords: seq<Word>)
    requires LineMetric(lineWords).Some?
    ensures lineWords != [] && FirstAliasFrom(LineMetric(lineWords).value, 0).Some?
  {
    if lineWords == [] {
      NoWordsNoMetric(lineWords);
    }
    FoundNameHasAlias(Normalizer.Normalize(LineText(lineWords)));
  }

  // ---- parse_generic_metric -----------------------------------------------------

  /** `parse_generic_metric`: no metric for no numbers, else one metric
      carrying the first number. */
  function ParseGenericMetric(name: string, lineNumbers: seq<real>): (r: seq<ExtractedMetric>)
    ensures r == [] <==> lineNumbers == []
    ensures r != [] ==> r == [ExtractedMetric(name, lineNumbers[0])]
  {
    if lineNumbers == [] then [] else [ExtractedMetric(name, lineNumbers[0])]
  }
}
