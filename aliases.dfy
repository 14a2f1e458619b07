/** PARAM_MAP and `find_metric_in_line`: the aliases a normalised line may
    contain, and the choice of the longest one that occurs. */
module MetricLocator {
  import opened Text
  import opened Wrappers
  import opened StableSort
  import Normalizer

  /** PARAM_MAP in the dict's order: alias (already in normal form) and the canonical metric name. */
  const ParamMap: seq<(string, string)> := [
    ("colesterol hdl", "Colesterol HDL"),
    ("hdl", "Colesterol HDL"),
    ("triglicerideos", "Triglicerídeos"),
    ("triglicerides", "Triglicerídeos"),
    ("colesterol total", "Colesterol Total"),
    ("vitamina d3", "Vitamina D3"),
    ("vitamina d", "Vitamina D3"),
    ("vitamina d 25 hidroxi", "Vitamina D3"),
    ("sodio", "Sódio"),
    ("glicose", "Glicose"),
    ("potassio", "Potássio"),
    ("ferritina", "Ferritina"),
    ("hemacias", "Hemácias"),
    ("eritrocitos", "Hemácias"),
    ("hemoglobinas", "Hemoglobinas"),
    ("hemoglobina", "Hemoglobinas"),
    ("hematocritos", "Hematócritos"),
    ("hematocrito", "Hematócritos"),
    ("hcm", "HCM"),
    ("chcm", "CHCM"),
    ("vcm", "VCM"),
    ("ureia", "Ureia"),
    ("creatinina", "Creatinina"),
    ("colesterol ldl", "Colesterol LDL"),
    ("ldl", "Colesterol LDL"),
    ("tgp (alt)", "TGP (ALT)"),
    ("tgp", "TGP (ALT)"),
    ("alt", "TGP (ALT)"),
    ("transaminase piruvica", "TGP (ALT)"),
    ("rdw", "RDW"),
    ("vitamina b12", "Vitamina B12")
  ]

  /** `PARAM_MAP.keys()`, in order. */
  function Aliases(): (r: seq<string>)
    ensures |r| == |ParamMap|
    ensures forall i :: 0 <= i < |ParamMap| ==> r[i] == ParamMap[i].0
  {
    seq(|ParamMap|, i requires 0 <= i < |ParamMap| => ParamMap[i].0)
  }

  /** Dict lookup in a table of entries: the value of the first entry, from `i` on, with key `alias`. */
  function LookupFrom(table: seq<(string, string)>, alias: string, i: nat): (r: Option<string>)
    requires i <= |table|
    ensures r.Some? <==> exists j :: i <= j < |table| && table[j].0 == alias
    decreases |table| - i
  {
    if i == |table| then None
    else if table[i].0 == alias then Some(table[i].1)
    else LookupFrom(table, alias, i + 1)
  }

  /** `PARAM_MAP[alias]`. */
  function Canonical(alias: string): Option<string> {
    LookupFrom(ParamMap, alias, 0)
  }

  /** The lookup yields the value of the first entry carrying the key. */
  lemma {:induction false} LookupOfFirst(table: seq<(string, string)>, alias: string, i: nat, j: nat)
    requires i <= j < |table| && table[j].0 == alias
    requires forall k :: i <= k < j ==> table[k].0 != alias
    ensures LookupFrom(table, alias, i) == Some(table[j].1)
    decreases j - i
  {
    if i < j {
      LookupOfFirst(table, alias, i + 1, j);
    }
  }

  /** A lookup that succeeds gives the value of the first entry with that key. */
  lemma {:induction false} LookupFromValue(table: seq<(string, string)>, alias: string, i: nat)
    requires i <= |table| && LookupFrom(table, alias, i).Some?
    ensures exists j :: i <= j < |table| && table[j] == (alias, LookupFrom(table, alias, i).value)
              && forall k :: i <= k < j ==> table[k].0 != alias
    decreases |table| - i
  {
    var v := LookupFrom(table, alias, i).value;
    if table[i].0 == alias {
      assert table[i] == (alias, v);
    } else {
      LookupFromValue(table, alias, i + 1);
      var j :| i + 1 <= j < |table| && table[j] == (alias, v) && forall k :: i + 1 <= k < j ==> table[k].0 != alias;
      assert forall k :: i <= k < j ==> table[k].0 != alias;
    }
  }

  /** `key=len, reverse=True`, written as a stable sort on the negated length. */
  function LengthDescending(a: string): real {
    -(|a| as real)
  }

  function SortedAliases(): seq<string> {
    SortBy(Aliases(), LengthDescending)
  }

  /** `find_metric_in_line`: the canonical name of the first alias, longest
      first, that occurs in the normalised line.  The raw line the source
      also receives is not consulted. */
  function FindMetricInLine(normalizedLine: string): Option<string> {
    match FirstWhere(SortedAliases(), a => Contains(normalizedLine, a))
    case None => None
    case Some(a) => Canonical(a)
  }

  /** No metric is found exactly when no alias occurs in the line. */
  lemma FindMetricNone(line: string)
    ensures FindMetricInLine(line).None? <==> forall i :: 0 <= i < |ParamMap| ==> !Contains(line, ParamMap[i].0)
  {
    var sorted := SortedAliases();
    var p := a => Contains(line, a);
    forall i | 0 <= i < |ParamMap| && Contains(line, ParamMap[i].0)
      ensures FirstWhere(sorted, p).Some?
    {
      assert Aliases()[i] in multiset(sorted);
      var q :| 0 <= q < |sorted| && sorted[q] == Aliases()[i];
      assert p(sorted[q]);
    }
    match FirstWhere(sorted, p)
    case None =>
    case Some(a) =>
      var m := FirstWhereIndex(sorted, p);
      assert sorted[m] in multiset(Aliases());
      var i :| 0 <= i < |ParamMap| && Aliases()[i] == sorted[m];
      assert LookupFrom(ParamMap, a, 0).Some?;
  }

  /** When a metric is found, it comes from entry `i`, whose alias occurs in
      the line; no strictly longer alias occurs, and no earlier alias of the
      same length does. */
  lemma FindMetricLongest(line: string) returns (i: nat)
    requires FindMetricInLine(line).Some?
    ensures i < |ParamMap| && Contains(line, ParamMap[i].0)
    ensures FindMetricInLine(line) == Some(ParamMap[i].1)
    ensures forall j :: 0 <= j < |ParamMap| && Contains(line, ParamMap[j].0) ==> |ParamMap[j].0| <= |ParamMap[i].0|
    ensures forall j :: 0 <= j < i && Contains(line, ParamMap[j].0) ==> |ParamMap[j].0| < |ParamMap[i].0|
  {
    var p := a => Contains(line, a);
    i := LongestFirst(Aliases(), p);
    LookupOfFirst(ParamMap, Aliases()[i], 0, i);
  }

  /** Scanning the aliases longest first finds one of greatest length among
      those satisfying `p`, and the first such in the original order. */
  lemma LongestFirst(aliases: seq<string>, p: string -> bool) returns (i: nat)
    requires FirstWhere(SortBy(aliases, LengthDescending), p).Some?
    ensures i < |aliases| && p(aliases[i]) && aliases[i] == FirstWhere(SortBy(aliases, LengthDescending), p).value
    ensures forall j :: 0 <= j < |aliases| && p(aliases[j]) ==> |aliases[j]| <= |aliases[i]|
    ensures forall j :: 0 <= j < i && p(aliases[j]) ==> |aliases[j]| < |aliases[i]|
  {
    var sorted := SortBy(aliases, LengthDescending);
    var m := FirstWhereIndex(sorted, p);
    SortedFirstWhere(aliases, LengthDescending, p, m);
    assert sorted[m] in multiset(aliases);
    var i0 :| 0 <= i0 < |aliases| && aliases[i0] == sorted[m];
    i := FirstOfClass(aliases, p, i0, sorted[m]);
  }

  /** The first index whose alias has the key of `a` and satisfies `p`, given one such index. */
  lemma {:induction false} FirstOfClass(aliases: seq<string>, p: string -> bool, i0: nat, a: string) returns (i: nat)
    requires i0 < |aliases| && p(aliases[i0]) && LengthDescending(aliases[i0]) == LengthDescending(a)
    requires forall k :: 0 <= k < |aliases| && p(aliases[k]) && LengthDescending(aliases[k]) == LengthDescending(a)
               && (forall j :: 0 <= j < k ==> !(p(aliases[j]) && LengthDescending(aliases[j]) == LengthDescending(aliases[k])))
               ==> aliases[k] == a
    ensures i <= i0 && aliases[i] == a && p(a)
    ensures forall j :: 0 <= j < i ==> !(p(aliases[j]) && LengthDescending(aliases[j]) == LengthDescending(a))
    decreases i0
  {
    if exists j :: 0 <= j < i0 && p(aliases[j]) && LengthDescending(aliases[j]) == LengthDescending(a) {
      var j :| 0 <= j < i0 && p(aliases[j]) && LengthDescending(aliases[j]) == LengthDescending(a);
      i := FirstOfClass(aliases, p, j, a);
    } else {
      i := i0;
    }
  }

  /** The canonical names: the values of PARAM_MAP. */
  function MetricNames(): set<string> {
    set i | 0 <= i < |ParamMap| :: ParamMap[i].1
  }

  /** A metric found in a line is one of the canonical names. */
  lemma FoundNameIsMetric(line: string)
    ensures FindMetricInLine(line).Some? ==> FindMetricInLine(line).value in MetricNames()
  {
    if FindMetricInLine(line).Some? {
      var i := FindMetricLongest(line);
    }
  }

  /** The only alias of four characters is `chcm`. */
  lemma FourCharacterAlias()
    ensures forall i :: 0 <= i < |ParamMap| && |ParamMap[i].0| == 4 ==> i == 19
  {
  }

  /** Every alias has at least three characters. */
  lemma AliasLengths()
    ensures forall i :: 0 <= i < |ParamMap| ==> |ParamMap[i].0| >= 3
  {
  }

  /** A line holding `chcm` and no alias longer than four characters is
      read as CHCM, not as the shorter HCM it contains. */
  lemma ChcmPreferred(line: string)
    requires Contains(line, "chcm")
    requires forall i :: 0 <= i < |ParamMap| && 4 < |ParamMap[i].0| ==> !Contains(line, ParamMap[i].0)
    ensures FindMetricInLine(line) == Some("CHCM")
  {
    assert ParamMap[19].0 == "chcm";
    FindMetricNone(line);
    var i := FindMetricLongest(line);
    assert |ParamMap[19].0| <= |ParamMap[i].0|;
    FourCharacterAlias();
    assert i == 19;
    assert ParamMap[19].1 == "CHCM";
  }

  /** The line `chcm` itself is read as CHCM. */
  lemma ChcmIsNotHcm(line: string)
    requires line == "chcm"
    ensures FindMetricInLine(line) == Some("CHCM")
  {
    assert OccursAt(line, "chcm", 0);
    forall i | 0 <= i < |ParamMap| && 4 < |ParamMap[i].0| ensures !Contains(line, ParamMap[i].0) {
      if Contains(line, ParamMap[i].0) {
        ContainsLength(line, ParamMap[i].0);
      }
    }
    ChcmPreferred(line);
  }

  /** The alias `tgp (alt)` never matches: the normal form holds no `(`. */
  lemma ParenthesisedAliasUnreachable(text: string)
    ensures !Contains(Normalizer.Normalize(text), "tgp (alt)")
  {
    var n := Normalizer.Normalize(text);
    if Contains(n, "tgp (alt)") {
      var k := Find(n, "tgp (alt)");
      Normalizer.NormalizeShape(text);
      assert n[k + 4] == "tgp (alt)"[4];
      Normalizer.KeyAtIndex(13);
      assert false;
    }
  }

  /** Every alias is non-empty, so an empty line names no metric. */
  lemma EmptyLineNoMetric()
    ensures FindMetricInLine("").None?
  {
    AliasLengths();
    forall i | 0 <= i < |ParamMap| ensures !Contains("", ParamMap[i].0) {
      if Contains("", ParamMap[i].0) {
        ContainsLength("", ParamMap[i].0);
      }
    }
    FindMetricNone("");
  }
}
