/** `group_words_into_lines`: words of a page clustered into lines by their
    top coordinate.  The dict of lists the source builds is a sequence of
    lines in the dict's insertion order. */
module LineGrouper {
  import opened Wrappers

  /** One tuple of `page.get_text("words")`: the box, the text, and the
      block, line and word numbers. */
  datatype Word = Word(x0: real, y0: real, x1: real, y1: real, text: string, block: int, lineNo: int, wordNo: int)

  /** One dict entry: the key and the words appended to it, in order. */
  datatype Line = Line(key: real, words: seq<Word>)

  /** Y_TOLERANCE, in points. */
  const YTolerance: int := 5

  function Abs(a: real): real {
    if a < 0.0 then -a else a
  }

  /** `abs(y_key - y0) < Y_TOLERANCE`. */
  predicate Near(key: real, y: real) {
    Abs(key - y) < YTolerance as real
  }

  /** The first line, from index `i` on, whose key is near `y`. */
  function FindLineFrom(lines: seq<Line>, y: real, i: nat): (r: Option<nat>)
    requires i <= |lines|
    ensures r.Some? ==> i <= r.value < |lines| && Near(lines[r.value].key, y)
                        && forall k :: i <= k < r.value ==> !Near(lines[k].key, y)
    ensures r.None? ==> forall k :: i <= k < |lines| ==> !Near(lines[k].key, y)
    decreases |lines| - i
  {
    if i == |lines| then None
    else if Near(lines[i].key, y) then Some(i)
    else FindLineFrom(lines, y, i + 1)
  }

  /** One iteration of the outer loop: append the word to the first line
      whose key is near its `y0`, or open a new line keyed by its `y0`. */
  function AddWord(lines: seq<Line>, w: Word): seq<Line> {
    match FindLineFrom(lines, w.y0, 0)
    case Some(j) => lines[j := Line(lines[j].key, lines[j].words + [w])]
    case None => lines + [Line(w.y0, [w])]
  }

  /** All the words of the lines, line after line. */
  function AllWords(lines: seq<Line>): seq<Word> {
    if lines == [] then [] else lines[0].words + AllWords(lines[1..])
  }

  /** `a` is a subsequence of `b`: its elements occur in `b` in the same order. */
  predicate IsSubseq<T(==)>(a: seq<T>, b: seq<T>)
    decreases |b|
  {
    if a == [] then true
    else if b == [] then false
    else if a[|a| - 1] == b[|b| - 1] then IsSubseq(a[..|a| - 1], b[..|b| - 1])
    else IsSubseq(a, b[..|b| - 1])
  }

  /** The shape every grouping has: each line is keyed by the `y0` of its
      first word, every word lies within the tolerance of its key, and any
      two keys are at least the tolerance apart. */
  predicate WellGrouped(lines: seq<Line>) {
    (forall i :: 0 <= i < |lines| ==> lines[i].words != [] && lines[i].words[0].y0 == lines[i].key)
    && (forall i, k :: 0 <= i < |lines| && 0 <= k < |lines[i].words| ==> Near(lines[i].key, lines[i].words[k].y0))
    && (forall i, j :: 0 <= i < j < |lines| ==> !Near(lines[i].key, lines[j].key))
  }

  /** The grouping of a word list, one word at a time.  Every word ends up
      in exactly one line, each line keeps its words in input order, and
      the result is well grouped. */
  function Group(words: seq<Word>): (lines: seq<Line>)
    ensures WellGrouped(lines)
    ensures multiset(AllWords(lines)) == multiset(words)
    ensures forall i :: 0 <= i < |lines| ==> IsSubseq(lines[i].words, words)
  {
    if words == [] then []
    else
      var init, w := words[..|words| - 1], words[|words| - 1];
      assert words == init + [w];
      AddWordKeeps(Group(init), w, init);
      AddWord(Group(init), w)
  }

  lemma AddWordKeeps(lines: seq<Line>, w: Word, ws: seq<Word>)
    requires WellGrouped(lines)
    requires multiset(AllWords(lines)) == multiset(ws)
    requires forall i :: 0 <= i < |lines| ==> IsSubseq(lines[i].words, ws)
    ensures WellGrouped(AddWord(lines, w))
    ensures multiset(AllWords(AddWord(lines, w))) == multiset(ws + [w])
    ensures forall i :: 0 <= i < |AddWord(lines, w)| ==> IsSubseq(AddWord(lines, w)[i].words, ws + [w])
  {
    AddWordGrouped(lines, w);
    AddWordCounts(lines, w);
    AddWordOrder(lines, w, ws);
  }

  lemma AddWordGrouped(lines: seq<Line>, w: Word)
    requires WellGrouped(lines)
    ensures WellGrouped(AddWord(lines, w))
  {
    match FindLineFrom(lines, w.y0, 0)
    case Some(j) =>
      var r := AddWord(lines, w);
      assert forall i :: 0 <= i < |r| ==> r[i].key == lines[i].key;
      assert forall i :: 0 <= i < |r| && i != j ==> r[i].words == lines[i].words;
      assert r[j].words == lines[j].words + [w];
    case None =>
  }

  lemma AddWordCounts(lines: seq<Line>, w: Word)
    ensures multiset(AllWords(AddWord(lines, w))) == multiset(AllWords(lines)) + multiset{w}
  {
    match FindLineFrom(lines, w.y0, 0)
    case Some(j) =>
      AllWordsUpdate(lines, j, w);
    case None =>
      AllWordsAppend(lines, Line(w.y0, [w]));
  }

  lemma AddWordOrder(lines: seq<Line>, w: Word, ws: seq<Word>)
    requires forall i :: 0 <= i < |lines| ==> IsSubseq(lines[i].words, ws)
    ensures forall i :: 0 <= i < |AddWord(lines, w)| ==> IsSubseq(AddWord(lines, w)[i].words, ws + [w])
  {
    var r := AddWord(lines, w);
    assert (ws + [w])[..|ws|] == ws;
    forall i | 0 <= i < |r| ensures IsSubseq(r[i].words, ws + [w]) {
      if i < |lines| && r[i].words == lines[i].words {
        SubseqExtend(lines[i].words, ws, w);
      } else if i < |lines| {
        var u := lines[i].words;
        assert r[i].words == u + [w];
        assert (u + [w])[..|u|] == u;
      } else {
        assert r[i].words == [w];
        assert [w][..0] == [];
      }
    }
  }

  lemma {:induction false} AllWordsAppend(lines: seq<Line>, l: Line)
    ensures AllWords(lines + [l]) == AllWords(lines) + l.words
  {
    if lines == [] {
      assert AllWords([l]) == l.words + AllWords([]);
    } else {
      assert (lines + [l])[1..] == lines[1..] + [l];
      AllWordsAppend(lines[1..], l);
    }
  }

  lemma {:induction false} AllWordsUpdate(lines: seq<Line>, j: nat, w: Word)
    requires j < |lines|
    ensures multiset(AllWords(lines[j := Line(lines[j].key, lines[j].words + [w])]))
         == multiset(AllWords(lines)) + multiset{w}
  {
    var r := lines[j := Line(lines[j].key, lines[j].words + [w])];
    if j == 0 {
      assert r[1..] == lines[1..];
    } else {
      AllWordsUpdate(lines[1..], j - 1, w);
      assert r[1..] == lines[1..][j - 1 := Line(lines[j].key, lines[j].words + [w])];
    }
  }

  lemma {:induction false} SubseqExtend<T>(a: seq<T>, b: seq<T>, w: T)
    requires IsSubseq(a, b)
    ensures IsSubseq(a, b + [w])
    decreases |a| + |b|, 1
  {
    assert (b + [w])[..|b|] == b;
    if a != [] && a[|a| - 1] == w {
      SubseqInit(a, b);
    }
  }

  lemma {:induction false} SubseqInit<T>(a: seq<T>, b: seq<T>)
    requires a != [] && IsSubseq(a, b)
    ensures IsSubseq(a[..|a| - 1], b)
    decreases |a| + |b|, 0
  {
    var b' := b[..|b| - 1];
    assert b == b' + [b[|b| - 1]];
    if a[|a| - 1] == b[|b| - 1] {
      SubseqExtend(a[..|a| - 1], b', b[|b| - 1]);
    } else {
      SubseqInit(a, b');
      SubseqExtend(a[..|a| - 1], b', b[|b| - 1]);
    }
  }

  /** `group_words_into_lines` as the source writes it: for each word, scan
      a snapshot of the keys in insertion order and append to the first
      near one, else open a new line. */
  method GroupWordsIntoLines(words: seq<Word>) returns (lines: seq<Line>)
    ensures lines == Group(words)
  {
    lines := [];
    for n := 0 to |words|
      invariant lines == Group(words[..n])
    {
      var w := words[n];
      ghost var before := lines;
      var keys := seq(|lines|, i requires 0 <= i < |lines| => lines[i].key);
      var found := false;
      var j := 0;
      while j < |keys|
        invariant 0 <= j <= |keys| && |keys| == |before|
        invariant lines == before
        invariant forall k :: 0 <= k < j ==> !Near(before[k].key, w.y0)
      {
        if Near(keys[j], w.y0) {
          lines := lines[j := Line(keys[j], lines[j].words + [w])];
          found := true;
          break;
        }
        j := j + 1;
      }
      if !found {
        lines := lines + [Line(w.y0, [w])];
      }
      assert lines == AddWord(before, w) by {
        if found {
          assert FindLineFrom(before, w.y0, 0) == Some(j);
        }
      }
      assert words[..n + 1][..n] == words[..n];
    }
    assert words[..|words|] == words;
  }
}
