/** `create_results_dataframe` and `process_exam_pdf`: the results as a
    table of rows, one per metric, with its unit, in the display order of
    the metrics. */
module ResultsTable {
  import opened Text
  import opened Wrappers
  import opened StableSort
  import opened ValueResolver
  import opened DocumentExtraction
  import MetricLocator

  /** One row of the table: `Paciente`, `Data_Exame`, `Métrica`, `Valor`, `Unidade`. */
  datatype Row = Row(patient: string, examDate: string, metric: string, value: real, unit: string)

  /** `unit_map` in the dict's order. */
  const UnitMap: seq<(string, string)> := [
    ("Hemácias", "milhões/mm³"), ("Hemoglobinas", "g/dL"), ("Hematócritos", "%"), ("VCM", "fL"), ("HCM", "pg"),
    ("CHCM", "g/dL"), ("RDW", "%"), ("Colesterol Total", "mg/dL"), ("Colesterol HDL", "mg/dL"),
    ("Colesterol LDL", "mg/dL"), ("Triglicerídeos", "mg/dL"), ("Glicose", "mg/dL"), ("Ureia", "mg/dL"),
    ("Creatinina", "mg/dL"), ("TGP (ALT)", "U/L"), ("Ferritina", "ng/mL"), ("Vitamina D3", "ng/mL"),
    ("Vitamina B12", "pg/mL"), ("Sódio", "mEq/L"), ("Potássio", "mEq/L")
  ]

  /** The unit of a metric without an entry. */
  const NoUnit: string := "N/A"

  /** `metric_order`: the categories of the ordered `Métrica` column. */
  const MetricOrder: seq<string> := [
    "Hemácias", "Hemoglobinas", "Hematócritos", "VCM", "HCM", "CHCM", "RDW", "Glicose", "Ureia",
    "Creatinina", "Colesterol Total", "Colesterol HDL", "Colesterol LDL", "Triglicerídeos",
    "TGP (ALT)", "Ferritina", "Sódio", "Potássio", "Vitamina D3", "Vitamina B12"
  ]

  /** No entry of `unit_map` carries the default unit. */
  lemma NoUnitIsDefault()
    ensures forall k :: 0 <= k < |UnitMap| ==> UnitMap[k].1 != NoUnit
  {
  }

  /** `unit_map.get(name, "N/A")`. */
  function UnitOf(name: string): (r: string)
    ensures r == NoUnit <==> forall k :: 0 <= k < |UnitMap| ==> UnitMap[k].0 != name
    ensures r != NoUnit ==>
              exists k :: 0 <= k < |UnitMap| && UnitMap[k] == (name, r) && forall j :: 0 <= j < k ==> UnitMap[j].0 != name
  {
    match MetricLocator.LookupFrom(UnitMap, name, 0)
    case Some(u) => MetricLocator.LookupFromValue(UnitMap, name, 0); NoUnitIsDefault(); u
    case None => NoUnit
  }

  /** The category code of a name; a name outside the categories becomes a
      missing value, which sorts after every category. */
  function Rank(name: string): nat {
    FirstIndex(MetricOrder, name)
  }

  function RowRank(r: Row): real {
    Rank(r.metric) as real
  }

  /** The row the source builds for one metric. */
  function RowOf(m: ExtractedMetric, patientId: string, examDate: string): Row {
    Row(patientId, examDate, m.name, m.value, UnitOf(m.name))
  }

  /** The rows `build` makes of the results, one appended per result. */
  function RowsWith(results: seq<ExtractedMetric>, build: ExtractedMetric -> Row): seq<Row> {
    if results == [] then []
    else RowsWith(results[..|results| - 1], build) + [build(results[|results| - 1])]
  }

  /** One row per result, in the order of the results. */
  lemma {:induction false} RowsWithSpec(results: seq<ExtractedMetric>, build: ExtractedMetric -> Row)
    ensures |RowsWith(results, build)| == |results|
    ensures forall k :: 0 <= k < |results| ==> RowsWith(results, build)[k] == build(results[k])
  {
    if results != [] {
      var init := results[..|results| - 1];
      RowsWithSpec(init, build);
      assert forall k :: 0 <= k < |init| ==> init[k] == results[k];
    }
  }

  /** The rows the loop of the source appends, in the order of the results. */
  function RowsOf(results: seq<ExtractedMetric>, patientId: string, examDate: string): seq<Row> {
    RowsWith(results, m => RowOf(m, patientId, examDate))
  }

  lemma RowsOfSpec(results: seq<ExtractedMetric>, patientId: string, examDate: string)
    ensures |RowsOf(results, patientId, examDate)| == |results|
    ensures forall k :: 0 <= k < |results| ==> RowsOf(results, patientId, examDate)[k] == RowOf(results[k], patientId, examDate)
  {
    RowsWithSpec(results, m => RowOf(m, patientId, examDate));
  }

  /** `create_results_dataframe`: the rows sorted by category code, rows of
      equal code keeping their order. */
  function Table(results: seq<ExtractedMetric>, patientId: string, examDate: string): seq<Row> {
    SortBy(RowsOf(results, patientId, examDate), RowRank)
  }

  // ---- properties of the table ------------------------------------------------

  /** The table has one row per result and is a permutation of the rows
      built from the results, sorted by category; every row carries the
      given patient and date and the unit of its metric. */
  lemma TableSpec(results: seq<ExtractedMetric>, patientId: string, examDate: string)
    ensures |Table(results, patientId, examDate)| == |results|
    ensures multiset(Table(results, patientId, examDate)) == multiset(RowsOf(results, patientId, examDate))
    ensures SortedBy(Table(results, patientId, examDate), RowRank)
    ensures forall k :: 0 <= k < |results| ==> exists j :: 0 <= j < |results| && Table(results, patientId, examDate)[k] == RowOf(results[j], patientId, examDate)
    ensures forall k :: 0 <= k < |results| ==> (Table(results, patientId, examDate)[k].patient == patientId
              && Table(results, patientId, examDate)[k].examDate == examDate
              && Table(results, patientId, examDate)[k].unit == UnitOf(Table(results, patientId, examDate)[k].metric))
  {
    var rows := RowsOf(results, patientId, examDate);
    var t := Table(results, patientId, examDate);
    RowsOfSpec(results, patientId, examDate);
    SortBySorted(rows, RowRank);
    forall k | 0 <= k < |results| ensures exists j :: 0 <= j < |results| && t[k] == RowOf(results[j], patientId, examDate) {
      assert t[k] in multiset(rows);
      var j :| 0 <= j < |rows| && rows[j] == t[k];
    }
  }

  /** Rows of the same category keep the order of the results. */
  lemma TableStable(results: seq<ExtractedMetric>, patientId: string, examDate: string, v: real)
    ensures WithKey(Table(results, patientId, examDate), RowRank, v) == WithKey(RowsOf(results, patientId, examDate), RowRank, v)
  {
    SortByStable(RowsOf(results, patientId, examDate), RowRank, v);
  }

  /** A name at some position of `s` gets that position or an earlier one. */
  lemma FirstIndexAtMost(s: seq<string>, x: string, k: nat)
    requires k < |s| && s[k] == x
    ensures FirstIndex(s, x) <= k
  {
  }

  /** A key present at some entry is found. */
  lemma LookupFound(table: seq<(string, string)>, x: string, j: nat)
    requires j < |table| && table[j].0 == x
    ensures MetricLocator.LookupFrom(table, x, 0).Some?
  {
  }

  /** A successful lookup returns the value of some entry. */
  lemma {:induction false} LookupIsEntry(table: seq<(string, string)>, x: string, i: nat) returns (j: nat)
    requires i <= |table| && MetricLocator.LookupFrom(table, x, i).Some?
    ensures i <= j < |table| && MetricLocator.LookupFrom(table, x, i) == Some(table[j].1)
    decreases |table| - i
  {
    if table[i].0 == x {
      j := i;
    } else {
      j := LookupIsEntry(table, x, i + 1);
    }
  }

  /** Names each found at a given position of `order` all get a code below `|order|`. */
  lemma AllListed(names: seq<string>, order: seq<string>, at: seq<nat>)
    requires |at| == |names|
    requires forall i :: 0 <= i < |names| ==> at[i] < |order| && order[at[i]] == names[i]
    ensures forall i :: 0 <= i < |names| ==> FirstIndex(order, names[i]) < |order|
  {
    forall i | 0 <= i < |names| ensures FirstIndex(order, names[i]) < |order| {
      FirstIndexAtMost(order, names[i], at[i]);
    }
  }

  /** Names each keyed at a given entry of `table`, whose values all differ
      from `absent`, all look up to a value other than `absent`. */
  lemma AllKeyed(names: seq<string>, table: seq<(string, string)>, at: seq<nat>, absent: string)
    requires |at| == |names|
    requires forall i :: 0 <= i < |names| ==> at[i] < |table| && table[at[i]].0 == names[i]
    requires forall u :: 0 <= u < |table| ==> table[u].1 != absent
    ensures forall i :: 0 <= i < |names| ==> (MetricLocator.LookupFrom(table, names[i], 0).Some?
              && MetricLocator.LookupFrom(table, names[i], 0).value != absent)
  {
    forall i | 0 <= i < |names|
      ensures MetricLocator.LookupFrom(table, names[i], 0).Some? && MetricLocator.LookupFrom(table, names[i], 0).value != absent
    {
      LookupFound(table, names[i], at[i]);
      var j := LookupIsEntry(table, names[i], 0);
    }
  }

  /** For alias `i`, the position of its canonical name in `metric_order` and in `unit_map`. */
  const OrderAt: seq<nat> := [11, 11, 13, 13, 10, 18, 18, 18, 16, 7, 17, 15, 0, 0, 1, 1, 2, 2, 4, 5, 3, 8, 9, 12, 12, 14, 14, 14, 14, 6, 19]
  const UnitAt: seq<nat> := [8, 8, 10, 10, 7, 16, 16, 16, 18, 11, 19, 15, 0, 0, 1, 1, 2, 2, 4, 5, 3, 12, 13, 9, 9, 14, 14, 14, 14, 6, 17]

  /** The canonical names, one per alias. */
  function CanonicalNames(): (r: seq<string>)
    ensures |r| == |MetricLocator.ParamMap|
    ensures forall i :: 0 <= i < |MetricLocator.ParamMap| ==> r[i] == MetricLocator.ParamMap[i].1
  {
    seq(|MetricLocator.ParamMap|, i requires 0 <= i < |MetricLocator.ParamMap| => MetricLocator.ParamMap[i].1)
  }

  /** Where the canonical names of aliases 0 to 15 stand in `metric_order`. */
  lemma CanonicalOrderLow(i: nat)
    requires i < 16
    ensures OrderAt[i] < |MetricOrder| && MetricOrder[OrderAt[i]] == MetricLocator.ParamMap[i].1
  {
    if i == 0 {
      assert MetricOrder[11] == MetricLocator.ParamMap[0].1;
    } else if i == 1 {
      assert MetricOrder[11] == MetricLocator.ParamMap[1].1;
    } else if i == 2 {
      assert MetricOrder[13] == MetricLocator.ParamMap[2].1;
    } else if i == 3 {
      assert MetricOrder[13] == MetricLocator.ParamMap[3].1;
    } else if i == 4 {
      assert MetricOrder[10] == MetricLocator.ParamMap[4].1;
    } else if i == 5 {
      assert MetricOrder[18] == MetricLocator.ParamMap[5].1;
    } else if i == 6 {
      assert MetricOrder[18] == MetricLocator.ParamMap[6].1;
    } else if i == 7 {
      assert MetricOrder[18] == MetricLocator.ParamMap[7].1;
    } else if i == 8 {
      assert MetricOrder[16] == MetricLocator.ParamMap[8].1;
    } else if i == 9 {
      assert MetricOrder[7] == MetricLocator.ParamMap[9].1;
    } else if i == 10 {
      assert MetricOrder[17] == MetricLocator.ParamMap[10].1;
    } else if i == 11 {
      assert MetricOrder[15] == MetricLocator.ParamMap[11].1;
    } else if i == 12 {
      assert MetricOrder[0] == MetricLocator.ParamMap[12].1;
    } else if i == 13 {
      assert MetricOrder[0] == MetricLocator.ParamMap[13].1;
    } else if i == 14 {
      assert MetricOrder[1] == MetricLocator.ParamMap[14].1;
    } else if i == 15 {
      assert MetricOrder[1] == MetricLocator.ParamMap[15].1;
    }
  }

  /** Where the canonical names of aliases 16 to 30 stand in `metric_order`. */
  lemma CanonicalOrderHigh(i: nat)
    requires 16 <= i < 31
    ensures OrderAt[i] < |MetricOrder| && MetricOrder[OrderAt[i]] == MetricLocator.ParamMap[i].1
  {
    if i == 16 {
      assert MetricOrder[2] == MetricLocator.ParamMap[16].1;
    } else if i == 17 {
      assert MetricOrder[2] == MetricLocator.ParamMap[17].1;
    } else if i == 18 {
      assert MetricOrder[4] == MetricLocator.ParamMap[18].1;
    } else if i == 19 {
      assert MetricOrder[5] == MetricLocator.ParamMap[19].1;
    } else if i == 20 {
      assert MetricOrder[3] == MetricLocator.ParamMap[20].1;
    } else if i == 21 {
      assert MetricOrder[8] == MetricLocator.ParamMap[21].1;
    } else if i == 22 {
      assert MetricOrder[9] == MetricLocator.ParamMap[22].1;
    } else if i == 23 {
      assert MetricOrder[12] == MetricLocator.ParamMap[23].1;
    } else if i == 24 {
      assert MetricOrder[12] == MetricLocator.ParamMap[24].1;
    } else if i == 25 {
      assert MetricOrder[14] == MetricLocator.ParamMap[25].1;
    } else if i == 26 {
      assert MetricOrder[14] == MetricLocator.ParamMap[26].1;
    } else if i == 27 {
      assert MetricOrder[14] == MetricLocator.ParamMap[27].1;
    } else if i == 28 {
      assert MetricOrder[14] == MetricLocator.ParamMap[28].1;
    } else if i == 29 {
      assert MetricOrder[6] == MetricLocator.ParamMap[29].1;
    } else if i == 30 {
      assert MetricOrder[19] == MetricLocator.ParamMap[30].1;
    }
  }

  /** Where the canonical names of aliases 0 to 15 stand in `unit_map`. */
  lemma CanonicalUnitLow(i: nat)
    requires i < 16
    ensures UnitAt[i] < |UnitMap| && UnitMap[UnitAt[i]].0 == MetricLocator.ParamMap[i].1
  {
    if i == 0 {
      assert UnitMap[8].0 == MetricLocator.ParamMap[0].1;
    } else if i == 1 {
      assert UnitMap[8].0 == MetricLocator.ParamMap[1].1;
    } else if i == 2 {
      assert UnitMap[10].0 == MetricLocator.ParamMap[2].1;
    } else if i == 3 {
      assert UnitMap[10].0 == MetricLocator.ParamMap[3].1;
    } else if i == 4 {
      assert UnitMap[7].0 == MetricLocator.ParamMap[4].1;
    } else if i == 5 {
      assert UnitMap[16].0 == MetricLocator.ParamMap[5].1;
    } else if i == 6 {
      assert UnitMap[16].0 == MetricLocator.ParamMap[6].1;
    } else if i == 7 {
      assert UnitMap[16].0 == MetricLocator.ParamMap[7].1;
    } else if i == 8 {
      assert UnitMap[18].0 == MetricLocator.ParamMap[8].1;
    } else if i == 9 {
      assert UnitMap[11].0 == MetricLocator.ParamMap[9].1;
    } else if i == 10 {
      assert UnitMap[19].0 == MetricLocator.ParamMap[10].1;
    } else if i == 11 {
      assert UnitMap[15].0 == MetricLocator.ParamMap[11].1;
    } else if i == 12 {
      assert UnitMap[0].0 == MetricLocator.ParamMap[12].1;
    } else if i == 13 {
      assert UnitMap[0].0 == MetricLocator.ParamMap[13].1;
    } else if i == 14 {
      assert UnitMap[1].0 == MetricLocator.ParamMap[14].1;
    } else if i == 15 {
      assert UnitMap[1].0 == MetricLocator.ParamMap[15].1;
    }
  }

  /** Where the canonical names of aliases 16 to 30 stand in `unit_map`. */
  lemma CanonicalUnitHigh(i: nat)
    requires 16 <= i < 31
    ensures UnitAt[i] < |UnitMap| && UnitMap[UnitAt[i]].0 == MetricLocator.ParamMap[i].1
  {
    if i == 16 {
      assert UnitMap[2].0 == MetricLocator.ParamMap[16].1;
    } else if i == 17 {
      assert UnitMap[2].0 == MetricLocator.ParamMap[17].1;
    } else if i == 18 {
      assert UnitMap[4].0 == MetricLocator.ParamMap[18].1;
    } else if i == 19 {
      assert UnitMap[5].0 == MetricLocator.ParamMap[19].1;
    } else if i == 20 {
      assert UnitMap[3].0 == MetricLocator.ParamMap[20].1;
    } else if i == 21 {
      assert UnitMap[12].0 == MetricLocator.ParamMap[21].1;
    } else if i == 22 {
      assert UnitMap[13].0 == MetricLocator.ParamMap[22].1;
    } else if i == 23 {
      assert UnitMap[9].0 == MetricLocator.ParamMap[23].1;
    } else if i == 24 {
      assert UnitMap[9].0 == MetricLocator.ParamMap[24].1;
    } else if i == 25 {
      assert UnitMap[14].0 == MetricLocator.ParamMap[25].1;
    } else if i == 26 {
      assert UnitMap[14].0 == MetricLocator.ParamMap[26].1;
    } else if i == 27 {
      assert UnitMap[14].0 == MetricLocator.ParamMap[27].1;
    } else if i == 28 {
      assert UnitMap[14].0 == MetricLocator.ParamMap[28].1;
    } else if i == 29 {
      assert UnitMap[6].0 == MetricLocator.ParamMap[29].1;
    } else if i == 30 {
      assert UnitMap[17].0 == MetricLocator.ParamMap[30].1;
    }
  }

  /** Every canonical metric name is a category and has a unit. */
  lemma CanonicalNamesTabulated()
    ensures forall i :: 0 <= i < |MetricLocator.ParamMap| ==> Rank(MetricLocator.ParamMap[i].1) < |MetricOrder|
    ensures forall i :: 0 <= i < |MetricLocator.ParamMap| ==> UnitOf(MetricLocator.ParamMap[i].1) != NoUnit
  {
    var names := CanonicalNames();
    var orderAt := OrderAt;
    var unitAt := UnitAt;
    forall i | 0 <= i < |names|
      ensures orderAt[i] < |MetricOrder| && MetricOrder[orderAt[i]] == names[i]
      ensures unitAt[i] < |UnitMap| && UnitMap[unitAt[i]].0 == names[i]
    {
      if i < 16 {
        CanonicalOrderLow(i);
        CanonicalUnitLow(i);
      } else {
        CanonicalOrderHigh(i);
        CanonicalUnitHigh(i);
      }
    }
    AllListed(names, MetricOrder, orderAt);
    AllKeyed(names, UnitMap, unitAt, NoUnit);
  }

  // ---- distinct metrics need no stable sort -------------------------------------

  /** Two categories with the same code are the same name. */
  lemma RankInjective(a: string, b: string)
    requires Rank(a) < |MetricOrder| && Rank(a) == Rank(b)
    ensures a == b
  {
  }

  /** Elements of a sequence whose images under `f` are pairwise distinct occur once each. */
  lemma {:induction false} OccursOnce<T>(s: seq<T>, f: T -> string, x: T)
    requires forall i, j :: 0 <= i < j < |s| ==> f(s[i]) != f(s[j])
    ensures multiset(s)[x] <= 1
  {
    if s != [] {
      var init, last := s[..|s| - 1], s[|s| - 1];
      assert s == init + [last];
      OccursOnce(init, f, x);
      if last == x {
        assert forall k :: 0 <= k < |init| ==> init[k] != x;
        assert x !in init;
      }
    }
  }

  /** An element at two positions occurs at least twice. */
  lemma OccursTwice<T>(s: seq<T>, i: nat, j: nat)
    requires i < j < |s| && s[i] == s[j]
    ensures multiset(s)[s[i]] >= 2
  {
    assert s == s[..j] + [s[j]] + s[j + 1..];
    assert s[..j][i] == s[i];
    assert s[i] in multiset(s[..j]);
  }

  /** A permutation keeps the images under `f` pairwise distinct. */
  lemma PermutationDistinct<T>(a: seq<T>, b: seq<T>, f: T -> string)
    requires multiset(a) == multiset(b)
    requires forall i, j :: 0 <= i < j < |a| ==> f(a[i]) != f(a[j])
    ensures forall i, j :: 0 <= i < j < |b| ==> f(b[i]) != f(b[j])
  {
    forall i, j | 0 <= i < j < |b| ensures f(b[i]) != f(b[j]) {
      assert b[i] in multiset(a) && b[j] in multiset(a);
      var p :| 0 <= p < |a| && a[p] == b[i];
      var q :| 0 <= q < |a| && a[q] == b[j];
      if b[i] == b[j] {
        OccursTwice(b, i, j);
        OccursOnce(a, f, b[i]);
        assert false;
      }
      assert p != q;
    }
  }

  function RowMetric(r: Row): string {
    r.metric
  }

  /** For results with distinct names that are all categories, the table
      is strictly ordered by category code: ties never occur, so how the
      sort treats them does not matter. */
  lemma TableStrictlyOrdered(results: seq<ExtractedMetric>, patientId: string, examDate: string)
    requires DistinctNames(results)
    requires forall k :: 0 <= k < |results| ==> Rank(results[k].name) < |MetricOrder|
    ensures forall i, j :: 0 <= i < j < |Table(results, patientId, examDate)| ==>
              Rank(Table(results, patientId, examDate)[i].metric) < Rank(Table(results, patientId, examDate)[j].metric)
  {
    var rows := RowsOf(results, patientId, examDate);
    var t := Table(results, patientId, examDate);
    RowsOfSpec(results, patientId, examDate);
    TableSpec(results, patientId, examDate);
    PermutationDistinct(rows, t, RowMetric);
    forall i, j | 0 <= i < j < |t| ensures Rank(t[i].metric) < Rank(t[j].metric) {
      assert RowRank(t[i]) <= RowRank(t[j]);
      assert t[i] in multiset(rows);
      var p :| 0 <= p < |rows| && rows[p] == t[i];
      if Rank(t[i].metric) == Rank(t[j].metric) {
        RankInjective(t[i].metric, t[j].metric);
        assert false;
      }
    }
  }

  // ---- the source's loop and the entry point --------------------------------------

  /** `create_results_dataframe` as the source writes it: an empty table for
      no results, else one row appended per result, then the sort. */
  method CreateResultsDataframe(examResults: seq<ExtractedMetric>, patientId: string, examDate: string) returns (rows: seq<Row>)
    ensures rows == Table(examResults, patientId, examDate)
  {
    if examResults == [] {
      return [];
    }
    var data: seq<Row> := [];
    for k := 0 to |examResults|
      invariant data == RowsOf(examResults[..k], patientId, examDate)
    {
      assert examResults[..k + 1][..k] == examResults[..k];
      var row := RowOf(examResults[k], patientId, examDate);
      data := data + [row];
    }
    assert examResults[..|examResults|] == examResults;
    rows := SortBy(data, RowRank);
  }

  /** `process_exam_pdf` without the display and the upload: no table when
      nothing is extracted, else the table of the results. */
  function ExamTable(doc: Document, patientId: string, examDate: string, proc: LineProcessor): Option<seq<Row>> {
    var results := ExtractData(doc, proc);
    if results == [] then None else Some(Table(results, patientId, examDate))
  }

  /** A table is returned exactly when something is extracted; it is never
      empty, names each metric once, and is strictly in display order. */
  lemma ExamTableSpec(doc: Document, patientId: string, examDate: string)
    ensures ExamTable(doc, patientId, examDate, SourceProcessor).None? <==> ExtractData(doc, SourceProcessor) == []
    ensures ExamTable(doc, patientId, examDate, SourceProcessor).Some? ==>
              var t := ExamTable(doc, patientId, examDate, SourceProcessor).value;
              t != [] && |t| == |ExtractData(doc, SourceProcessor)|
              && (forall i, j :: 0 <= i < j < |t| ==> t[i].metric != t[j].metric && Rank(t[i].metric) < Rank(t[j].metric))
  {
    var results := ExtractData(doc, SourceProcessor);
    if results != [] {
      SourceExtractDataSpec(doc);
      TableSpec(results, patientId, examDate);
      CanonicalNamesTabulated();
      forall k | 0 <= k < |results| ensures Rank(results[k].name) < |MetricOrder| {
        assert results[k].name in NamesOf(results);
      }
      TableStrictlyOrdered(results, patientId, examDate);
    }
  }

  /** `process_exam_pdf` as the source writes it, up to the table it returns. */
  method ProcessExamPdf(doc: Document, patientId: string, examDate: string, proc: LineProcessor) returns (r: Option<seq<Row>>)
    ensures r == ExamTable(doc, patientId, examDate, proc)
  {
    var examResults := ExtractDataFromPdf(doc, proc);
    if examResults == [] {
      return None;
    }
    var df := CreateResultsDataframe(examResults, patientId, examDate);
    if df == [] {
      TableSpec(examResults, patientId, examDate);
      return None;
    }
    return Some(df);
  }
}
