/** `extract_data_from_pdf`: every page grouped into lines, every line read
    in ascending key order, the first reading of each metric kept, and the
    collected results deduplicated by name. */
module DocumentExtraction {
  import opened LineGrouper
  import opened ValueResolver
  import MetricLocator
  import Normalizer

  /** The document the source opens: the words of each page in the order
      `page.get_text("words")` lists them, or `Unreadable` when opening or
      reading it raises. */
  datatype Document = Unreadable | Pages(pages: seq<seq<Word>>)

  /** What the scan calls for one line: `process_line` with its four arguments. */
  type LineProcessor = (seq<Word>, set<string>, seq<Line>, real) -> seq<ExtractedMetric>

  /** `process_line` with the modelled conversions. */
  const SourceProcessor: LineProcessor := (lineWords, processed, allLines, currentY) =>
    ProcessLine(lineWords, processed, allLines, currentY, Source)

  /** What the scan relies on from `process_line`: at most one metric, not
      yet processed, named by a canonical name, and no value above 10000. */
  ghost predicate Admissible(proc: LineProcessor) {
    forall lw, pr, al, y :: |proc(lw, pr, al, y)| <= 1
      && (proc(lw, pr, al, y) != [] ==>
            proc(lw, pr, al, y)[0].name !in pr && proc(lw, pr, al, y)[0].name in MetricLocator.MetricNames()
            && proc(lw, pr, al, y)[0].value <= MaxPlausibleValue)
  }

  /** `process_line` has the properties the scan relies on. */
  lemma SourceAdmissible()
    ensures Admissible(SourceProcessor)
  {
    forall lw, pr, al, y
      ensures |SourceProcessor(lw, pr, al, y)| <= 1
      ensures SourceProcessor(lw, pr, al, y) != [] ==>
                SourceProcessor(lw, pr, al, y)[0].name !in pr && SourceProcessor(lw, pr, al, y)[0].name in MetricLocator.MetricNames()
                && SourceProcessor(lw, pr, al, y)[0].value <= MaxPlausibleValue
    {
      var r := ProcessLine(lw, pr, al, y, Source);
      assert SourceProcessor(lw, pr, al, y) == r;
      MetricLocator.FoundNameIsMetric(Normalizer.Normalize(LineText(lw)));
    }
  }

  /** The set of names of a result list. */
  function NamesOf(rs: seq<ExtractedMetric>): set<string> {
    set k | 0 <= k < |rs| :: rs[k].name
  }

  lemma NamesOfAppend(rs: seq<ExtractedMetric>, m: ExtractedMetric)
    ensures NamesOf(rs + [m]) == NamesOf(rs) + {m.name}
  {
    var ext := rs + [m];
    assert ext[|rs|] == m;
    forall x | x in NamesOf(rs) ensures x in NamesOf(ext) {
      var k :| 0 <= k < |rs| && rs[k].name == x;
      assert ext[k] == rs[k];
    }
  }

  lemma NamesOfConcat(rs: seq<ExtractedMetric>, found: seq<ExtractedMetric>)
    ensures NamesOf(rs + found) == NamesOf(rs) + NamesOf(found)
  {
    var ext := rs + found;
    forall x | x in NamesOf(rs) ensures x in NamesOf(ext) {
      var k :| 0 <= k < |rs| && rs[k].name == x;
      assert ext[k] == rs[k];
    }
    forall x | x in NamesOf(found) ensures x in NamesOf(ext) {
      var k :| 0 <= k < |found| && found[k].name == x;
      assert ext[|rs| + k] == found[k];
    }
  }

  /** No two results carry the same name. */
  predicate DistinctNames(rs: seq<ExtractedMetric>) {
    forall i, j :: 0 <= i < j < |rs| ==> rs[i].name != rs[j].name
  }

  /** No result carries a value above 10000. */
  predicate Plausible(rs: seq<ExtractedMetric>) {
    forall k :: 0 <= k < |rs| ==> rs[k].value <= MaxPlausibleValue
  }

  /** The state of the scan: `all_results` and `processed_metrics`. */
  datatype Scan = Scan(results: seq<ExtractedMetric>, processed: set<string>)

  const Start: Scan := Scan([], {})

  /** One line: its metrics appended to the results and their names added
      to the processed set. */
  function ScanLine(st: Scan, lines: seq<Line>, y: real, proc: LineProcessor): Scan {
    var found := proc(SortedWordsAt(lines, y), st.processed, lines, y);
    Scan(st.results + found, st.processed + NamesOf(found))
  }

  /** The lines of a page at the keys `ys`, in that order. */
  function ScanKeys(st: Scan, lines: seq<Line>, ys: seq<real>, proc: LineProcessor): Scan {
    if ys == [] then st else ScanLine(ScanKeys(st, lines, ys[..|ys| - 1], proc), lines, ys[|ys| - 1], proc)
  }

  /** One page: grouped into lines, the lines taken in ascending key order. */
  function ScanPage(st: Scan, page: seq<Word>, proc: LineProcessor): Scan {
    var lines := Group(page);
    ScanKeys(st, lines, SortedKeys(lines), proc)
  }

  /** The pages, in order. */
  function ScanPages(pages: seq<seq<Word>>, proc: LineProcessor): Scan {
    if pages == [] then Start else ScanPage(ScanPages(pages[..|pages| - 1], proc), pages[|pages| - 1], proc)
  }

  /** The first result of each name, in order. */
  function Dedup(rs: seq<ExtractedMetric>): seq<ExtractedMetric> {
    if rs == [] then []
    else
      var d := Dedup(rs[..|rs| - 1]);
      if rs[|rs| - 1].name in NamesOf(d) then d else d + [rs[|rs| - 1]]
  }

  /** `extract_data_from_pdf`: nothing for an unreadable document, else the
      deduplicated results of the scan. */
  function ExtractData(doc: Document, proc: LineProcessor): seq<ExtractedMetric> {
    match doc
    case Unreadable => []
    case Pages(pages) => Dedup(ScanPages(pages, proc).results)
  }

  // ---- the scan's invariant -------------------------------------------------

  /** The invariant of the scan: the processed set is the set of result
      names, all of them canonical, no name occurs twice, and no value
      exceeds 10000. */
  predicate Consistent(st: Scan) {
    st.processed == NamesOf(st.results) && st.processed <= MetricLocator.MetricNames()
    && DistinctNames(st.results) && Plausible(st.results)
  }

  lemma ScanLineConsistent(st: Scan, lines: seq<Line>, y: real, proc: LineProcessor)
    requires Admissible(proc) && Consistent(st)
    ensures Consistent(ScanLine(st, lines, y, proc))
  {
    var found := proc(SortedWordsAt(lines, y), st.processed, lines, y);
    var rs := st.results + found;
    NamesOfConcat(st.results, found);
    if found != [] {
      assert found == [found[0]];
      forall i, j | 0 <= i < j < |rs| ensures rs[i].name != rs[j].name {
        if j == |st.results| {
          assert rs[i] == st.results[i];
          assert st.results[i].name in NamesOf(st.results);
        }
      }
    }
  }

  lemma {:induction false} ScanKeysConsistent(st: Scan, lines: seq<Line>, ys: seq<real>, proc: LineProcessor)
    requires Admissible(proc) && Consistent(st)
    ensures Consistent(ScanKeys(st, lines, ys, proc))
  {
    if ys != [] {
      ScanKeysConsistent(st, lines, ys[..|ys| - 1], proc);
      ScanLineConsistent(ScanKeys(st, lines, ys[..|ys| - 1], proc), lines, ys[|ys| - 1], proc);
    }
  }

  /** The scan of any document keeps the invariant. */
  lemma {:induction false} ScanPagesConsistent(pages: seq<seq<Word>>, proc: LineProcessor)
    requires Admissible(proc)
    ensures Consistent(ScanPages(pages, proc))
  {
    if pages != [] {
      var init := pages[..|pages| - 1];
      ScanPagesConsistent(init, proc);
      var lines := Group(pages[|pages| - 1]);
      ScanKeysConsistent(ScanPages(init, proc), lines, SortedKeys(lines), proc);
    }
  }

  /** A line `process_line` yields nothing for (an outlier among them)
      leaves the scan unchanged, so a later line may still supply that metric. */
  lemma SkippedLineChangesNothing(st: Scan, lines: seq<Line>, y: real, proc: LineProcessor)
    requires proc(SortedWordsAt(lines, y), st.processed, lines, y) == []
    ensures ScanLine(st, lines, y, proc) == st
  {
    assert st.results + [] == st.results;
    assert NamesOf([]) == {};
  }

  /** A line whose metric is not yet processed but whose first candidate
      number exceeds 10000 leaves that metric open for later lines. */
  lemma OutlierLeavesMetricOpen(st: Scan, lines: seq<Line>, y: real)
    requires LineMetric(SortedWordsAt(lines, y)).Some?
    requires LineMetric(SortedWordsAt(lines, y)).value !in st.processed
    requires CandidateNumbers(SortedWordsAt(lines, y), LineMetric(SortedWordsAt(lines, y)).value, lines, y, Source) != []
    requires CandidateNumbers(SortedWordsAt(lines, y), LineMetric(SortedWordsAt(lines, y)).value, lines, y, Source)[0] > MaxPlausibleValue
    ensures ScanLine(st, lines, y, SourceProcessor) == st
    ensures LineMetric(SortedWordsAt(lines, y)).value !in ScanLine(st, lines, y, SourceProcessor).processed
  {
    ProcessLineEmpty(SortedWordsAt(lines, y), st.processed, lines, y, Source);
    assert SourceProcessor(SortedWordsAt(lines, y), st.processed, lines, y) == [];
    SkippedLineChangesNothing(st, lines, y, SourceProcessor);
  }

  // ---- deduplication ----------------------------------------------------------

  /** `Dedup` keeps an order-preserving selection of the results with no
      repeated name and every name of the input. */
  lemma {:induction false} DedupSpec(rs: seq<ExtractedMetric>)
    ensures IsSubseq(Dedup(rs), rs)
    ensures DistinctNames(Dedup(rs))
    ensures NamesOf(Dedup(rs)) == NamesOf(rs)
  {
    if rs != [] {
      var init, last := rs[..|rs| - 1], rs[|rs| - 1];
      assert rs == init + [last];
      DedupSpec(init);
      var d := Dedup(init);
      NamesOfAppend(init, last);
      SubseqExtend(d, init, last);
      if last.name !in NamesOf(d) {
        NamesOfAppend(d, last);
        assert (d + [last])[..|d|] == d;
        forall i, j | 0 <= i < j < |d| + 1 ensures (d + [last])[i].name != (d + [last])[j].name {
          if j == |d| {
            assert d[i].name in NamesOf(d);
          }
        }
      }
    }
  }

  /** The first result of each name is kept. */
  lemma {:induction false} DedupKeepsFirst(rs: seq<ExtractedMetric>, i: nat)
    requires i < |rs|
    requires forall j :: 0 <= j < i ==> rs[j].name != rs[i].name
    ensures rs[i] in Dedup(rs)
  {
    var init, last := rs[..|rs| - 1], rs[|rs| - 1];
    var d := Dedup(init);
    assert Dedup(rs) == (if last.name in NamesOf(d) then d else d + [last]);
    if i == |rs| - 1 {
      DedupSpec(init);
      assert forall k :: 0 <= k < |init| ==> init[k].name != last.name;
      assert last.name !in NamesOf(init);
      assert Dedup(rs) == d + [last];
    } else {
      assert init[i] == rs[i];
      DedupKeepsFirst(init, i);
      assert rs[i] in d;
    }
  }

  /** On results with distinct names `Dedup` changes nothing. */
  lemma {:induction false} DedupDistinct(rs: seq<ExtractedMetric>)
    requires DistinctNames(rs)
    ensures Dedup(rs) == rs
  {
    if rs != [] {
      var init, last := rs[..|rs| - 1], rs[|rs| - 1];
      DedupDistinct(init);
      assert forall k :: 0 <= k < |init| ==> init[k].name != last.name;
      assert last.name !in NamesOf(init);
      assert init + [last] == rs;
    }
  }

  /** `extract_data_from_pdf` yields each metric at most once, under its
      canonical name and none above 10000, and its final deduplication never
      removes anything. */
  lemma ExtractDataSpec(doc: Document, proc: LineProcessor)
    requires Admissible(proc)
    ensures DistinctNames(ExtractData(doc, proc)) && Plausible(ExtractData(doc, proc))
    ensures NamesOf(ExtractData(doc, proc)) <= MetricLocator.MetricNames()
    ensures doc.Pages? ==> ExtractData(doc, proc) == ScanPages(doc.pages, proc).results
  {
    if doc.Pages? {
      ScanPagesConsistent(doc.pages, proc);
      DedupDistinct(ScanPages(doc.pages, proc).results);
    }
  }

  /** The same for the modelled `process_line`. */
  lemma SourceExtractDataSpec(doc: Document)
    ensures DistinctNames(ExtractData(doc, SourceProcessor)) && Plausible(ExtractData(doc, SourceProcessor))
    ensures NamesOf(ExtractData(doc, SourceProcessor)) <= MetricLocator.MetricNames()
    ensures doc.Pages? ==> ExtractData(doc, SourceProcessor) == ScanPages(doc.pages, SourceProcessor).results
  {
    SourceAdmissible();
    ExtractDataSpec(doc, SourceProcessor);
  }

  // ---- the source's loops -------------------------------------------------------

  /** The final loop: keep a result when its name is not yet seen. */
  method DedupByName(allResults: seq<ExtractedMetric>) returns (unique: seq<ExtractedMetric>)
    ensures unique == Dedup(allResults)
  {
    unique := [];
    var seenNames: set<string> := {};
    for n := 0 to |allResults|
      invariant unique == Dedup(allResults[..n]) && seenNames == NamesOf(unique)
    {
      assert allResults[..n + 1][..n] == allResults[..n];
      var result := allResults[n];
      if result.name !in seenNames {
        NamesOfAppend(unique, result);
        unique := unique + [result];
        seenNames := seenNames + {result.name};
      }
    }
    assert allResults[..|allResults|] == allResults;
  }

  /** The loop over the keys of one page. */
  method ScanPageLines(st: Scan, lines: seq<Line>, proc: LineProcessor) returns (allResults: seq<ExtractedMetric>, processedMetrics: set<string>)
    ensures Scan(allResults, processedMetrics) == ScanKeys(st, lines, SortedKeys(lines), proc)
  {
    allResults, processedMetrics := st.results, st.processed;
    var ys := SortedKeys(lines);
    for k := 0 to |ys|
      invariant Scan(allResults, processedMetrics) == ScanKeys(st, lines, ys[..k], proc)
    {
      assert ys[..k + 1][..k] == ys[..k];
      var lineWords := SortedWordsAt(lines, ys[k]);
      var foundMetrics := proc(lineWords, processedMetrics, lines, ys[k]);
      if foundMetrics != [] {
        allResults := allResults + foundMetrics;
        ghost var before := processedMetrics;
        for m := 0 to |foundMetrics|
          invariant processedMetrics == before + NamesOf(foundMetrics[..m])
        {
          NamesOfAppend(foundMetrics[..m], foundMetrics[m]);
          assert foundMetrics[..m + 1] == foundMetrics[..m] + [foundMetrics[m]];
          processedMetrics := processedMetrics + {foundMetrics[m].name};
        }
        assert foundMetrics[..|foundMetrics|] == foundMetrics;
      } else {
        SkippedLineChangesNothing(ScanKeys(st, lines, ys[..k], proc), lines, ys[k], proc);
      }
    }
    assert ys[..|ys|] == ys;
  }

  /** The loop over the pages of an opened document. */
  method ScanDocumentPages(pages: seq<seq<Word>>, proc: LineProcessor) returns (allResults: seq<ExtractedMetric>, processedMetrics: set<string>)
    ensures Scan(allResults, processedMetrics) == ScanPages(pages, proc)
  {
    allResults, processedMetrics := [], {};
    for n := 0 to |pages|
      invariant Scan(allResults, processedMetrics) == ScanPages(pages[..n], proc)
    {
      assert pages[..n + 1][..n] == pages[..n];
      var lines := GroupWordsIntoLines(pages[n]);
      allResults, processedMetrics := ScanPageLines(Scan(allResults, processedMetrics), lines, proc);
    }
    assert pages[..|pages|] == pages;
  }

  /** `extract_data_from_pdf` as the source writes it: nothing when the
      document cannot be read, else the scan followed by the deduplication. */
  method ExtractDataFromPdf(doc: Document, proc: LineProcessor) returns (r: seq<ExtractedMetric>)
    ensures r == ExtractData(doc, proc)
  {
    if doc.Unreadable? {
      return [];
    }
    var allResults, _ := ScanDocumentPages(doc.pages, proc);
    r := DedupByName(allResults);
  }
}
