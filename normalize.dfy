/** `normalize_text`: lower-case the text, apply TEXT_NORMALIZATION_MAP entry
    by entry, and strip surrounding whitespace. */
module Normalizer {
  import opened Text

  /** TEXT_NORMALIZATION_MAP in the dict's iteration order: accented vowels
      and ç go to their base letter, and `:`, `(`, `)` are deleted. */
  const NormalizationTable: seq<(char, string)> := [
    ('á', "a"), ('à', "a"), ('â', "a"), ('ã', "a"), ('é', "e"), ('ê', "e"), ('í', "i"),
    ('ó', "o"), ('ô', "o"), ('õ', "o"), ('ú', "u"), ('ç', "c"), (':', ""), ('(', ""), (')', ""),
    ('ø', "o"), ('ü', "u"), ('û', "u")
  ]

  /** Some entry of the table among indices `i..k-1` has key `c`. */
  predicate KeyWithin(c: char, i: nat, k: nat)
    requires k <= |NormalizationTable|
    decreases k - i
  {
    i < k && (NormalizationTable[i].0 == c || KeyWithin(c, i + 1, k))
  }

  /** `c` is a key of TEXT_NORMALIZATION_MAP. */
  predicate IsNormalizationKey(c: char) {
    KeyWithin(c, 0, |NormalizationTable|)
  }

  /** The replacement of the first entry among `i..k-1` whose key is `c`, or `c` itself. */
  function SubstWithin(c: char, i: nat, k: nat): string
    requires k <= |NormalizationTable|
    decreases k - i
  {
    if i >= k then [c]
    else if NormalizationTable[i].0 == c then NormalizationTable[i].1
    else SubstWithin(c, i + 1, k)
  }

  /** What the whole table does to one character. */
  function Substitute(c: char): string {
    SubstWithin(c, 0, |NormalizationTable|)
  }

  function SubstituteAll(s: string): string {
    if s == [] then [] else Substitute(s[0]) + SubstituteAll(s[1..])
  }

  /** The normal form of a text, stated per character. */
  function Normalize(text: string): string {
    Strip(SubstituteAll(Lower(text)))
  }

  /** The characters replacements consist of. */
  predicate IsReplacementChar(c: char) {
    c == 'a' || c == 'e' || c == 'i' || c == 'o' || c == 'u' || c == 'c'
  }

  /** Every key is `:`, `(`, `)` or a Latin-1 letter. */
  lemma TableKeys()
    ensures forall e :: e in NormalizationTable ==> e.0 == ':' || e.0 == '(' || e.0 == ')' || e.0 >= '\U{C0}'
  {
  }

  /** Every replacement is empty or one plain vowel or `c`. */
  lemma TableReplacements()
    ensures forall e :: e in NormalizationTable ==>
      e.1 == "" || e.1 == "a" || e.1 == "e" || e.1 == "i" || e.1 == "o" || e.1 == "u" || e.1 == "c"
  {
  }

  lemma {:induction false} KeyWithinWitness(c: char, i: nat, k: nat) returns (j: nat)
    requires k <= |NormalizationTable| && KeyWithin(c, i, k)
    ensures i <= j < k && NormalizationTable[j].0 == c
    decreases k - i
  {
    if NormalizationTable[i].0 == c {
      j := i;
    } else {
      j := KeyWithinWitness(c, i + 1, k);
    }
  }

  /** Replacement characters are lower-case and are not keys of the table. */
  lemma ReplacementCharPlain(c: char)
    requires IsReplacementChar(c)
    ensures !IsNormalizationKey(c) && LowerChar(c) == c
  {
    if IsNormalizationKey(c) {
      var j := KeyWithinWitness(c, 0, |NormalizationTable|);
      TableKeys();
      assert false;
    }
  }

  lemma RepPlain(j: nat, q: nat)
    requires j < |NormalizationTable| && q < |NormalizationTable[j].1|
    ensures IsReplacementChar(NormalizationTable[j].1[q])
  {
    TableReplacements();
    assert NormalizationTable[j] in NormalizationTable;
  }

  /** The replacement `SubstWithin` picks is either `c` itself (no key matched)
      or a replacement string of an entry below `k`. */
  lemma {:induction false} SubstWithinShape(c: char, i: nat, k: nat)
    requires i <= k <= |NormalizationTable|
    ensures !KeyWithin(c, i, k) ==> SubstWithin(c, i, k) == [c]
    ensures KeyWithin(c, i, k) ==> forall q :: 0 <= q < |SubstWithin(c, i, k)| ==> IsReplacementChar(SubstWithin(c, i, k)[q])
    decreases k - i
  {
    if i < k {
      SubstWithinShape(c, i + 1, k);
      if NormalizationTable[i].0 == c {
        forall q | 0 <= q < |NormalizationTable[i].1| ensures IsReplacementChar(NormalizationTable[i].1[q]) {
          RepPlain(i, q);
        }
      }
    }
  }

  /** Extending the scanned range by entry `k` changes the choice only when no earlier key matched. */
  lemma {:induction false} SubstWithinExtend(c: char, i: nat, k: nat)
    requires i <= k < |NormalizationTable|
    ensures SubstWithin(c, i, k + 1)
         == if KeyWithin(c, i, k) then SubstWithin(c, i, k)
            else if NormalizationTable[k].0 == c then NormalizationTable[k].1 else [c]
    ensures KeyWithin(c, i, k + 1) == (KeyWithin(c, i, k) || NormalizationTable[k].0 == c)
    decreases k - i
  {
    if i < k {
      SubstWithinExtend(c, i + 1, k);
    }
  }

  // ---- The source's loop: one `str.replace` per table entry --------------

  /** One character after the first `k` entries have been applied in turn. */
  function SubstUpTo(c: char, k: nat): string
    requires k <= |NormalizationTable|
  {
    if k == 0 then [c] else Replace(SubstUpTo(c, k - 1), NormalizationTable[k - 1].0, NormalizationTable[k - 1].1)
  }

  function SubstUpToAll(s: string, k: nat): string
    requires k <= |NormalizationTable|
  {
    if s == [] then [] else SubstUpTo(s[0], k) + SubstUpToAll(s[1..], k)
  }

  /** Applying the entries one after another equals applying, per character,
      the first entry whose key matches. */
  lemma {:induction false} SubstUpToIsWithin(c: char, k: nat)
    requires k <= |NormalizationTable|
    ensures SubstUpTo(c, k) == SubstWithin(c, 0, k)
  {
    if k > 0 {
      var key, rep := NormalizationTable[k - 1].0, NormalizationTable[k - 1].1;
      SubstUpToIsWithin(c, k - 1);
      SubstWithinExtend(c, 0, k - 1);
      SubstWithinShape(c, 0, k - 1);
      if KeyWithin(c, 0, k - 1) {
        var prev := SubstWithin(c, 0, k - 1);
        if key in prev {
          var q :| 0 <= q < |prev| && prev[q] == key;
          ReplacementCharPlain(prev[q]);
          KeyAtIndex(k - 1);
          assert false;
        }
        ReplaceAbsent(prev, key, rep);
      } else {
        assert Replace([c], key, rep) == (if c == key then rep else [c]) + Replace([], key, rep);
      }
    }
  }

  lemma KeyAtIndex(j: nat)
    requires j < |NormalizationTable|
    ensures IsNormalizationKey(NormalizationTable[j].0)
  {
    KeyWithinFrom(NormalizationTable[j].0, 0, j);
  }

  lemma {:induction false} KeyWithinFrom(c: char, i: nat, j: nat)
    requires i <= j < |NormalizationTable| && NormalizationTable[j].0 == c
    ensures KeyWithin(c, i, |NormalizationTable|)
    decreases j - i
  {
    if i < j {
      KeyWithinFrom(c, i + 1, j);
    }
  }

  /** One loop step of the source: replacing entry `k` throughout the text. */
  lemma {:induction false} ReplaceStep(s: string, k: nat)
    requires k < |NormalizationTable|
    ensures Replace(SubstUpToAll(s, k), NormalizationTable[k].0, NormalizationTable[k].1) == SubstUpToAll(s, k + 1)
  {
    if s != [] {
      ReplaceStep(s[1..], k);
      ReplaceAppend(SubstUpTo(s[0], k), SubstUpToAll(s[1..], k), NormalizationTable[k].0, NormalizationTable[k].1);
    }
  }

  lemma {:induction false} SubstUpToAllFull(s: string)
    ensures SubstUpToAll(s, |NormalizationTable|) == SubstituteAll(s)
  {
    if s != [] {
      SubstUpToIsWithin(s[0], |NormalizationTable|);
      SubstUpToAllFull(s[1..]);
    }
  }

  lemma {:induction false} SubstUpToAllZero(s: string)
    ensures SubstUpToAll(s, 0) == s
  {
    if s != [] {
      SubstUpToAllZero(s[1..]);
    }
  }

  /** `normalize_text` as the source writes it: a loop over the table entries,
      each rewriting the whole text with `str.replace`. */
  method NormalizeText(text: string) returns (r: string)
    ensures r == Normalize(text)
  {
    var t := Lower(text);
    SubstUpToAllZero(t);
    for k := 0 to |NormalizationTable|
      invariant t == SubstUpToAll(Lower(text), k)
    {
      ReplaceStep(Lower(text), k);
      t := Replace(t, NormalizationTable[k].0, NormalizationTable[k].1);
    }
    SubstUpToAllFull(Lower(text));
    r := Strip(t);
  }

  // ---- Properties of the normal form --------------------------------------

  /** A character the normal form may contain: not a key, and unchanged by lower-casing. */
  predicate IsNormalChar(c: char) {
    !IsNormalizationKey(c) && LowerChar(c) == c
  }

  lemma {:induction false} SubstituteAllChars(s: string)
    requires forall i :: 0 <= i < |s| ==> LowerChar(s[i]) == s[i]
    ensures forall i :: 0 <= i < |SubstituteAll(s)| ==> IsNormalChar(SubstituteAll(s)[i])
  {
    if s != [] {
      SubstituteAllChars(s[1..]);
      var head := Substitute(s[0]);
      SubstWithinShape(s[0], 0, |NormalizationTable|);
      forall q | 0 <= q < |head| ensures IsNormalChar(head[q]) {
        if IsNormalizationKey(s[0]) {
          ReplacementCharPlain(head[q]);
        }
      }
      assert SubstituteAll(s) == head + SubstituteAll(s[1..]);
    }
  }

  lemma {:induction false} SubstituteAllIdentity(s: string)
    requires forall i :: 0 <= i < |s| ==> !IsNormalizationKey(s[i])
    ensures SubstituteAll(s) == s
  {
    if s != [] {
      SubstWithinShape(s[0], 0, |NormalizationTable|);
      SubstituteAllIdentity(s[1..]);
    }
  }

  /** The normal form contains no key of TEXT_NORMALIZATION_MAP (no accented
      letter of the map, no `:`, `(` or `)`), no capital letter, and no
      whitespace at either end. */
  lemma NormalizeShape(text: string)
    ensures forall i :: 0 <= i < |Normalize(text)| ==> IsNormalChar(Normalize(text)[i])
    ensures Normalize(text) == [] || (!IsSpace(Normalize(text)[0]) && !IsSpace(Normalize(text)[|Normalize(text)| - 1]))
  {
    var low := Lower(text);
    forall i | 0 <= i < |low| ensures LowerChar(low[i]) == low[i] {
      LowerCharIdempotent(text[i]);
    }
    SubstituteAllChars(low);
    forall i | 0 <= i < |Normalize(text)| ensures IsNormalChar(Normalize(text)[i]) {
      StripChars(SubstituteAll(low), i);
    }
  }

  /** Normalising twice is normalising once. */
  lemma NormalizeIdempotent(text: string)
    ensures Normalize(Normalize(text)) == Normalize(text)
  {
    var n := Normalize(text);
    NormalizeShape(text);
    assert Lower(n) == n;
    SubstituteAllIdentity(n);
    StripNoEdges(n);
  }
}
