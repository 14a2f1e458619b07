/** `clean_and_convert_to_float`: resolve the locale-dependent separators of a
    numeric string and read it as an exact decimal, or give `None`. */
module NumericParser {
  import opened Text
  import opened Wrappers

  function DigitValue(c: char): nat
    requires IsDigit(c)
  {
    c as int - '0' as int
  }

  /** The value of a string of decimal digits (0 for the empty string). */
  function DigitsValue(s: string): nat
    requires AllDigits(s)
  {
    if s == [] then 0 else DigitsValue(s[..|s| - 1]) * 10 + DigitValue(s[|s| - 1])
  }

  /** The value of the literal `ip.fp`: moving the first fraction digit in
      front of the point multiplies the value by ten. */
  function DecimalValue(ip: string, fp: string): real
    requires AllDigits(ip) && AllDigits(fp)
    decreases |fp|
  {
    if fp == [] then DigitsValue(ip) as real else DecimalValue(ip + [fp[0]], fp[1..]) / 10.0
  }

  /** The literal with integer digits `ip` and fraction digits `fp`, if both
      are digit strings and not both empty. */
  function DecimalOf(ip: string, fp: string): Option<real> {
    if AllDigits(ip) && AllDigits(fp) && |ip| + |fp| > 0 then Some(DecimalValue(ip, fp))
    else None
  }

  /** `float()` on an unsigned decimal literal: digits, at most one `.`, and at least one digit. */
  function ParseUnsigned(u: string): Option<real> {
    var i := FirstIndex(u, '.');
    DecimalOf(u[..i], if i < |u| then u[i + 1..] else "")
  }

  /** Python's `float(t)` on the literals the model covers: surrounding
      whitespace, an optional sign and an unsigned decimal literal. */
  function PyFloat(t: string): Option<real> {
    var u := Strip(t);
    if |u| > 0 && (u[0] == '+' || u[0] == '-') then
      match ParseUnsigned(u[1..])
      case None => None
      case Some(v) => Some(if u[0] == '-' then -v else v)
    else ParseUnsigned(u)
  }

  /** `s.strip().replace(' ', '')` */
  function SqueezeSpaces(s: string): string {
    RemoveChar(Strip(s), ' ')
  }

  /** The multiplication marker: `if 'x' in s.lower(): s = s.split('x')[0].strip()`.
      The test sees `x` and `X`; the split cuts only at a lower-case `x`. */
  function CutAtTimes(t: string): string {
    if 'x' in Lower(t) then Strip(BeforeFirst(t, 'x')) else t
  }

  /** The separator rules: with both `,` and `.`, dots are thousands separators
      and the comma is the decimal point; with commas only, a single comma
      followed by at most two characters is the decimal point and otherwise
      every comma is a thousands separator. */
  function ResolveSeparators(t: string): string {
    if ',' in t && '.' in t then Replace(RemoveChar(t, '.'), ',', ".")
    else if ',' in t then
      // `parts = t.split(',')`: two parts means one comma, and `parts[1]` is what follows it
      if multiset(t)[','] == 1 && |t| - FirstIndex(t, ',') - 1 <= 2 then Replace(t, ',', ".")
      else RemoveChar(t, ',')
    else t
  }

  function DropTrailingDot(t: string): string {
    if |t| > 0 && t[|t| - 1] == '.' then t[..|t| - 1] else t
  }

  /** `clean_and_convert_to_float(s)`; `None` stands for the caught `ValueError`. */
  function CleanAndConvert(s: string): Option<real> {
    PyFloat(DropTrailingDot(ResolveSeparators(CutAtTimes(SqueezeSpaces(s)))))
  }

  /** `clean_and_convert_to_float` as the source writes it: the string is
      rewritten step by step, then read by `float()`. */
  method CleanAndConvertToFloat(s: string) returns (r: Option<real>)
    ensures r == CleanAndConvert(s)
  {
    var cleaned := SqueezeSpaces(s);
    if 'x' in Lower(cleaned) {
      cleaned := Strip(BeforeFirst(cleaned, 'x'));
    }
    assert cleaned == CutAtTimes(SqueezeSpaces(s));
    // the comma and dot rules
    cleaned := ResolveSeparators(cleaned);
    ghost var resolved := cleaned;
    if |cleaned| > 0 && cleaned[|cleaned| - 1] == '.' {
      cleaned := cleaned[..|cleaned| - 1];
    }
    assert cleaned == DropTrailingDot(resolved);
    r := PyFloat(cleaned);
  }

  // ---- Facts about the steps ----------------------------------------------

  /** Characters of a plain numeral: digits, dots and commas. */
  predicate IsNumeralChar(c: char) {
    IsDigit(c) || c == '.' || c == ','
  }

  predicate IsNumeral(s: string) {
    forall i :: 0 <= i < |s| ==> IsNumeralChar(s[i])
  }

  /** A plain numeral passes the whitespace and multiplication steps unchanged. */
  lemma NumeralPrefixSteps(s: string)
    requires IsNumeral(s)
    ensures CleanAndConvert(s) == PyFloat(DropTrailingDot(ResolveSeparators(s)))
  {
    SqueezeNumeral(s);
    CutNumeral(s);
  }

  lemma SqueezeNumeral(s: string)
    requires IsNumeral(s)
    ensures SqueezeSpaces(s) == s
  {
    StripNoEdges(s);
    ReplaceAbsent(s, ' ', "");
  }

  lemma CutNumeral(s: string)
    requires IsNumeral(s)
    ensures CutAtTimes(s) == s
  {
    assert 'x' !in Lower(s) by {
      assert forall i :: 0 <= i < |s| ==> Lower(s)[i] == s[i];
    }
  }

  lemma DecimalOfDigits(ip: string, fp: string)
    requires AllDigits(ip) && AllDigits(fp) && |ip| + |fp| > 0
    ensures DecimalOf(ip, fp) == Some(DecimalValue(ip, fp))
  {
  }

  /** `float()` sees no whitespace and no sign to strip. */
  lemma PyFloatUnsigned(u: string)
    requires u != [] && !IsSpace(u[0]) && !IsSpace(u[|u| - 1]) && u[0] != '+' && u[0] != '-'
    ensures PyFloat(u) == ParseUnsigned(u)
  {
    StripNoEdges(u);
  }

  /** The first `.` of `ip.fp` is the one after `ip` when `ip` has none. */
  lemma SplitAtDot(ip: string, fp: string)
    requires '.' !in ip
    ensures ParseUnsigned(ip + "." + fp) == DecimalOf(ip, fp)
  {
    var u := ip + "." + fp;
    assert u[|ip|] == '.';
    assert forall k :: 0 <= k < |ip| ==> u[k] == ip[k];
    assert FirstIndex(u, '.') == |ip|;
    assert u[..|ip|] == ip;
    assert u[|ip| + 1..] == fp;
  }

  lemma NoDot(d: string)
    requires '.' !in d
    ensures ParseUnsigned(d) == DecimalOf(d, "")
  {
    assert d[..|d|] == d;
  }

  lemma DigitsMembers(d: string)
    requires AllDigits(d)
    ensures forall c :: c in d ==> IsDigit(c)
  {
    forall c | c in d ensures IsDigit(c) {
      var k :| 0 <= k < |d| && d[k] == c;
    }
  }

  /** A non-empty digit string reads as its value. */
  lemma PyFloatDigits(d: string)
    requires AllDigits(d) && d != []
    ensures PyFloat(d) == Some(DigitsValue(d) as real)
  {
    assert IsDigit(d[0]) && IsDigit(d[|d| - 1]);
    PyFloatUnsigned(d);
    DigitsMembers(d);
    NoDot(d);
    DecimalOfDigits(d, "");
  }

  /** `ip.fp` reads as the decimal it spells, with either side possibly empty. */
  lemma PyFloatDecimal(ip: string, fp: string)
    requires AllDigits(ip) && AllDigits(fp) && |ip| + |fp| > 0
    ensures PyFloat(ip + "." + fp) == Some(DecimalValue(ip, fp))
  {
    var u := ip + "." + fp;
    assert !IsSpace(u[0]) && !IsSpace(u[|u| - 1]) && u[0] != '+' && u[0] != '-' by {
      if ip != [] { assert u[0] == ip[0]; } else { assert u[0] == '.'; }
      if fp != [] { assert u[|u| - 1] == fp[|fp| - 1]; } else { assert u[|u| - 1] == '.'; }
    }
    PyFloatUnsigned(u);
    DigitsMembers(ip);
    SplitAtDot(ip, fp);
    DecimalOfDigits(ip, fp);
  }

  lemma {:induction false} ReplaceKeepsChar(s: string, c: char, rep: string, x: char)
    requires x in s && x != c
    ensures x in Replace(s, c, rep)
  {
    if s[0] == x {
      assert Replace(s, c, rep) == [x] + Replace(s[1..], c, rep);
    } else {
      ReplaceKeepsChar(s[1..], c, rep, x);
      var head := if s[0] == c then rep else [s[0]];
      assert Replace(s, c, rep) == head + Replace(s[1..], c, rep);
    }
  }

  /** Replacing the only `c` of `a + [c] + b`. */
  lemma ReplaceOnly(a: string, c: char, b: string, rep: string)
    requires c !in a && c !in b
    ensures Replace(a + [c] + b, c, rep) == a + rep + b
  {
    ReplaceAppend(a + [c], b, c, rep);
    ReplaceAppend(a, [c], c, rep);
    ReplaceAbsent(a, c, rep);
    ReplaceAbsent(b, c, rep);
    assert Replace([c], c, rep) == rep + Replace([], c, rep);
  }

  /** Removing `c` from `a + [d] + b` keeps the `d`. */
  lemma RemoveAround(a: string, d: char, b: string, c: char)
    requires d != c
    ensures RemoveChar(a + [d] + b, c) == RemoveChar(a, c) + [d] + RemoveChar(b, c)
  {
    ReplaceAppend(a + [d], b, c, "");
    ReplaceAppend(a, [d], c, "");
    assert Replace([d], c, "") == [d] + Replace([], c, "");
  }

  /** Removing a character from a string that has a digit leaves a digit string
      exactly when every other character was a digit, and never leaves it empty. */
  lemma RemoveLeavesDigits(s: string, c: char)
    requires !IsDigit(c)
    requires forall i :: 0 <= i < |s| && s[i] != c ==> IsDigit(s[i])
    requires HasDigit(s)
    ensures AllDigits(RemoveChar(s, c)) && RemoveChar(s, c) != []
  {
    ReplaceKeeps(s, c, "", IsDigit);
    var k :| 0 <= k < |s| && IsDigit(s[k]);
    assert s[k] in s;
    ReplaceKeepsChar(s, c, "", s[k]);
  }

  lemma DropBareDot(ip: string)
    ensures DropTrailingDot(ip + "." + "") == ip
  {
  }

  lemma KeepLastDigit(ip: string, fp: string)
    requires AllDigits(fp) && fp != []
    ensures DropTrailingDot(ip + "." + fp) == ip + "." + fp
  {
    assert (ip + "." + fp)[|ip + "." + fp| - 1] == fp[|fp| - 1];
  }

  /** The last two steps on `ip.fp`: a bare trailing dot is dropped, and the
      literal reads as the decimal it spells. */
  lemma FinishDecimal(ip: string, fp: string)
    requires AllDigits(ip) && AllDigits(fp) && |ip| + |fp| > 0
    ensures PyFloat(DropTrailingDot(ip + "." + fp)) == Some(DecimalValue(ip, fp))
  {
    if fp == [] {
      DropBareDot(ip);
      PyFloatDigits(ip);
    } else {
      KeepLastDigit(ip, fp);
      PyFloatDecimal(ip, fp);
    }
  }

  // ---- What the parser promises ---------------------------------------------

  /** A single comma followed by at most two digits is a decimal point:
      `"3,5"` reads as 3.5 and `"12,25"` as 12.25. */
  lemma DecimalComma(ip: string, fp: string)
    requires AllDigits(ip) && AllDigits(fp) && |ip| + |fp| > 0 && |fp| <= 2
    ensures CleanAndConvert(ip + "," + fp) == Some(DecimalValue(ip, fp))
  {
    var s := ip + "," + fp;
    assert IsNumeral(s);
    NumeralPrefixSteps(s);
    SingleCommaResolved(ip, fp);
    FinishDecimal(ip, fp);
  }

  lemma SingleCommaResolved(ip: string, fp: string)
    requires AllDigits(ip) && AllDigits(fp) && |fp| <= 2
    ensures ResolveSeparators(ip + "," + fp) == ip + "." + fp
  {
    var s := ip + "," + fp;
    DigitsMembers(ip);
    DigitsMembers(fp);
    assert s[|ip|] == ',';
    assert '.' !in s;
    assert multiset(s)[','] == 1;
    assert forall k :: 0 <= k < |ip| ==> s[k] == ip[k];
    assert FirstIndex(s, ',') == |ip|;
    ReplaceOnly(ip, ',', fp, ".");
  }

  /** Commas that are not a decimal point are thousands separators and are
      all removed: `"1,234"` reads as 1234 and `"1,2,3"` as 123. */
  lemma ThousandsCommas(s: string)
    requires forall i :: 0 <= i < |s| ==> IsDigit(s[i]) || s[i] == ','
    requires ',' in s && HasDigit(s)
    requires !(multiset(s)[','] == 1 && |s| - FirstIndex(s, ',') - 1 <= 2)
    ensures AllDigits(RemoveChar(s, ','))
    ensures CleanAndConvert(s) == Some(DigitsValue(RemoveChar(s, ',')) as real)
  {
    assert IsNumeral(s);
    NumeralPrefixSteps(s);
    assert '.' !in s;
    var d := RemoveChar(s, ',');
    RemoveLeavesDigits(s, ',');
    assert ResolveSeparators(s) == d;
    assert IsDigit(d[|d| - 1]);
    assert DropTrailingDot(d) == d;
    PyFloatDigits(d);
  }

  /** With both separators present, dots are thousands separators and the
      comma is the decimal point: `"1.234,56"` reads as 1234.56. */
  lemma ThousandsDotsDecimalComma(ip: string, fp: string)
    requires forall i :: 0 <= i < |ip| ==> IsDigit(ip[i]) || ip[i] == '.'
    requires forall i :: 0 <= i < |fp| ==> IsDigit(fp[i]) || fp[i] == '.'
    requires '.' in ip + fp && HasDigit(ip + fp)
    ensures AllDigits(RemoveChar(ip, '.')) && AllDigits(RemoveChar(fp, '.'))
    ensures CleanAndConvert(ip + "," + fp)
         == Some(DecimalValue(RemoveChar(ip, '.'), RemoveChar(fp, '.')))
  {
    BothSeparatorsResolved(ip, fp);
    DigitSurvives(ip, fp);
    CleanResolvedTo(ip + "," + fp, RemoveChar(ip, '.') + "." + RemoveChar(fp, '.'));
    FinishDecimal(RemoveChar(ip, '.'), RemoveChar(fp, '.'));
  }

  /** The whitespace and multiplication steps leave a numeral alone, so its
      value is decided by the separator step. */
  lemma CleanResolvedTo(s: string, r: string)
    requires IsNumeral(s) && ResolveSeparators(s) == r
    ensures CleanAndConvert(s) == PyFloat(DropTrailingDot(r))
  {
    NumeralPrefixSteps(s);
  }

  lemma DigitSurvives(ip: string, fp: string)
    requires forall i :: 0 <= i < |ip| ==> IsDigit(ip[i]) || ip[i] == '.'
    requires forall i :: 0 <= i < |fp| ==> IsDigit(fp[i]) || fp[i] == '.'
    requires HasDigit(ip + fp)
    ensures |RemoveChar(ip, '.')| + |RemoveChar(fp, '.')| > 0
  {
    if HasDigit(ip) {
      RemoveLeavesDigits(ip, '.');
    } else {
      var k :| 0 <= k < |ip + fp| && IsDigit((ip + fp)[k]);
      assert IsDigit(fp[k - |ip|]);
      RemoveLeavesDigits(fp, '.');
    }
  }

  lemma BothSeparatorsResolved(ip: string, fp: string)
    requires forall i :: 0 <= i < |ip| ==> IsDigit(ip[i]) || ip[i] == '.'
    requires forall i :: 0 <= i < |fp| ==> IsDigit(fp[i]) || fp[i] == '.'
    requires '.' in ip + fp
    ensures AllDigits(RemoveChar(ip, '.')) && AllDigits(RemoveChar(fp, '.'))
    ensures IsNumeral(ip + "," + fp)
    ensures ResolveSeparators(ip + "," + fp) == RemoveChar(ip, '.') + "." + RemoveChar(fp, '.')
  {
    var s := ip + "," + fp;
    assert IsNumeral(s);
    assert s[|ip|] == ',';
    assert '.' in s by {
      var k :| 0 <= k < |ip + fp| && (ip + fp)[k] == '.';
      if k < |ip| { assert s[k] == '.'; } else { assert s[k + 1] == '.'; }
    }
    var ri, rf := RemoveChar(ip, '.'), RemoveChar(fp, '.');
    ReplaceKeeps(ip, '.', "", IsDigit);
    ReplaceKeeps(fp, '.', "", IsDigit);
    DigitsMembers(ri);
    DigitsMembers(rf);
    RemoveAround(ip, ',', fp, '.');
    ReplaceOnly(ri, ',', rf, ".");
  }

  /** A dot alone is a decimal point, and one trailing dot is dropped:
      `"36.5"` reads as 36.5 and `"120."` as 120. */
  lemma DotDecimal(ip: string, fp: string)
    requires AllDigits(ip) && AllDigits(fp) && |ip| + |fp| > 0
    ensures CleanAndConvert(ip + "." + fp) == Some(DecimalValue(ip, fp))
  {
    var s := ip + "." + fp;
    assert IsNumeral(s);
    NumeralPrefixSteps(s);
    DigitsMembers(ip);
    DigitsMembers(fp);
    assert ',' !in s;
    FinishDecimal(ip, fp);
  }

  /** Only one trailing dot is dropped: `"120.."` still reads as 120 (Python
      reads `"120."`), but `"120..."` does not parse. */
  lemma OnlyOneTrailingDot(d: string)
    requires AllDigits(d) && d != []
    ensures CleanAndConvert(d + "..") == Some(DigitsValue(d) as real)
    ensures CleanAndConvert(d + "...") == None
  {
    TwoTrailingDots(d);
    ThreeTrailingDots(d);
  }

  lemma TwoTrailingDots(d: string)
    requires AllDigits(d) && d != []
    ensures CleanAndConvert(d + "..") == Some(DigitsValue(d) as real)
  {
    var s := d + "..";
    assert IsNumeral(s) && ',' !in s by {
      DigitsMembers(d);
    }
    assert DropTrailingDot(s) == d + "." + "";
    CleanOfNumeral(s, d + "." + "");
    PyFloatBareDot(d);
  }

  lemma ThreeTrailingDots(d: string)
    requires AllDigits(d) && d != []
    ensures CleanAndConvert(d + "...") == None
  {
    var s := d + "...";
    assert IsNumeral(s) && ',' !in s by {
      DigitsMembers(d);
    }
    assert DropTrailingDot(s) == d + "." + ".";
    CleanOfNumeral(s, d + "." + ".");
    PyFloatDoubleDot(d);
  }

  /** A numeral without a comma goes through the separator step unchanged. */
  lemma CleanOfNumeral(s: string, t: string)
    requires IsNumeral(s) && ',' !in s && DropTrailingDot(s) == t
    ensures CleanAndConvert(s) == PyFloat(t)
  {
    NumeralPrefixSteps(s);
  }

  lemma PyFloatBareDot(d: string)
    requires AllDigits(d) && d != []
    ensures PyFloat(d + "." + "") == Some(DigitsValue(d) as real)
  {
    PyFloatDecimal(d, "");
  }

  lemma PyFloatDoubleDot(d: string)
    requires AllDigits(d) && d != []
    ensures PyFloat(d + "." + ".") == None
  {
    var u := d + "." + ".";
    assert IsDigit(u[0]) && u[|u| - 1] == '.';
    PyFloatUnsigned(u);
    DigitsMembers(d);
    SplitAtDot(d, ".");
  }

  /** A string without a lower-case `x` keeps none after `Strip`. */
  lemma NoTimesInSqueezed(s: string)
    requires 'x' !in s
    ensures 'x' !in Strip(s) && 'x' !in SqueezeSpaces(s)
  {
    forall k | 0 <= k < |Strip(s)| ensures Strip(s)[k] != 'x' {
      StripChars(s, k);
    }
    ReplaceKeeps(Strip(s), ' ', "", (c: char) => c != 'x');
  }

  /** Without a lower-case `x`, after the whitespace step, the multiplication
      step changes nothing, even when an upper-case `X` triggers it. */
  lemma CutWithoutTimes(a: string)
    requires 'x' !in a
    ensures CutAtTimes(SqueezeSpaces(a)) == SqueezeSpaces(a)
  {
    var q := SqueezeSpaces(a);
    NoTimesInSqueezed(a);
    assert FirstIndex(q, 'x') == |q|;
    assert BeforeFirst(q, 'x') == q;
    if Strip(a) != [] {
      RemoveKeepsEdges(Strip(a), ' ');
    }
    StripNoEdges(q);
  }

  /** The whitespace step on `a + "x" + rest`: the `x` stays, and before it
      what is left of `a` once its whitespace at the start and its spaces go. */
  lemma SqueezeAroundTimes(a: string, rest: string) returns (w: string)
    requires 'x' !in a
    ensures LeadingSpaces(a) <= |a| && 'x' !in RemoveChar(a[LeadingSpaces(a)..], ' ')
    ensures SqueezeSpaces(a + "x" + rest) == RemoveChar(a[LeadingSpaces(a)..], ' ') + "x" + w
  {
    var y := a[LeadingSpaces(a)..];
    var tail := StripAroundMarker(a, 'x', rest);
    assert a + "x" + rest == a + ['x'] + rest;
    RemoveAround(y, 'x', tail, ' ');
    w := RemoveChar(tail, ' ');
    assert forall k :: 0 <= k < |y| ==> y[k] != 'x';
    ReplaceKeeps(y, ' ', "", (c: char) => c != 'x');
  }

  /** The multiplication step keeps what comes before the first `x`, stripped. */
  lemma CutAtMarker(u: string, w: string)
    requires 'x' !in u
    ensures CutAtTimes(u + "x" + w) == Strip(u)
  {
    var q := u + "x" + w;
    assert q[|u|] == 'x' && Lower(q)[|u|] == 'x';
    assert forall k :: 0 <= k < |u| ==> q[k] == u[k];
    assert FirstIndex(q, 'x') == |u|;
    assert BeforeFirst(q, 'x') == u;
  }

  /** After the whitespace step, the multiplication step keeps what came
      before the first lower-case `x`, as the whitespace step leaves it. */
  lemma CutAfterTimes(a: string, rest: string)
    requires 'x' !in a
    ensures CutAtTimes(SqueezeSpaces(a + "x" + rest)) == SqueezeSpaces(a)
  {
    var w := SqueezeAroundTimes(a, rest);
    var y := a[LeadingSpaces(a)..];
    CutAtMarker(RemoveChar(y, ' '), w);
    assert y == [] || !IsSpace(y[0]);
    RemoveSpacesThenStrip(y);
    StripSkipsLeading(a);
  }

  /** Everything from the first lower-case `x` on is ignored: `"10 x 10^3"`
      reads as `"10 "`, that is as 10. */
  lemma TimesSuffixIgnored(a: string, rest: string)
    requires 'x' !in a
    ensures CleanAndConvert(a + "x" + rest) == CleanAndConvert(a)
  {
    CutAfterTimes(a, rest);
    CutWithoutTimes(a);
  }

  predicate NoDigit(s: string) {
    forall i :: 0 <= i < |s| ==> !IsDigit(s[i])
  }

  lemma StripNoDigit(s: string)
    requires NoDigit(s)
    ensures NoDigit(Strip(s))
  {
    forall i | 0 <= i < |Strip(s)| ensures !IsDigit(Strip(s)[i]) { StripChars(s, i); }
  }

  lemma ReplaceNoDigit(s: string, c: char, rep: string)
    requires NoDigit(s) && NoDigit(rep)
    ensures NoDigit(Replace(s, c, rep))
  {
    ReplaceKeeps(s, c, rep, (ch: char) => !IsDigit(ch));
  }

  lemma ParseUnsignedNoDigit(u: string)
    requires NoDigit(u)
    ensures ParseUnsigned(u) == None
  {
    var k := FirstIndex(u, '.');
    if k > 0 { assert !IsDigit(u[..k][0]); }
    if k + 1 < |u| { assert !IsDigit(u[k + 1..][0]); }
  }

  /** A string without a digit never parses (and nothing is raised either way). */
  lemma NoDigitNoNumber(s: string)
    requires !HasDigit(s)
    ensures CleanAndConvert(s) == None
  {
    assert NoDigit(s);
    SqueezeNoDigit(s);
    var s3 := CutAtTimes(SqueezeSpaces(s));
    CutNoDigit(SqueezeSpaces(s));
    var s4 := ResolveSeparators(s3);
    ResolveNoDigit(s3);
    assert NoDigit(DropTrailingDot(s4));
    PyFloatNoDigit(DropTrailingDot(s4));
  }

  lemma SqueezeNoDigit(s: string)
    requires NoDigit(s)
    ensures NoDigit(SqueezeSpaces(s))
  {
    StripNoDigit(s);
    ReplaceNoDigit(Strip(s), ' ', "");
  }

  lemma CutNoDigit(s: string)
    requires NoDigit(s)
    ensures NoDigit(CutAtTimes(s))
  {
    if 'x' in Lower(s) {
      assert NoDigit(BeforeFirst(s, 'x'));
      StripNoDigit(BeforeFirst(s, 'x'));
    }
  }

  lemma ResolveNoDigit(s: string)
    requires NoDigit(s)
    ensures NoDigit(ResolveSeparators(s))
  {
    ReplaceNoDigit(s, '.', "");
    ReplaceNoDigit(RemoveChar(s, '.'), ',', ".");
    ReplaceNoDigit(s, ',', ".");
    ReplaceNoDigit(s, ',', "");
  }

  lemma PyFloatNoDigit(t: string)
    requires NoDigit(t)
    ensures PyFloat(t) == None
  {
    StripNoDigit(t);
    var u := Strip(t);
    if |u| > 0 {
      assert NoDigit(u[1..]);
      ParseUnsignedNoDigit(u[1..]);
    }
    ParseUnsignedNoDigit(u);
  }

  /** Appending a digit: the recursion of `DigitsValue` read from the left. */
  lemma DigitsValueSnoc(s: string, c: char)
    requires AllDigits(s) && IsDigit(c)
    ensures AllDigits(s + [c]) && DigitsValue(s + [c]) == DigitsValue(s) * 10 + DigitValue(c)
  {
    assert (s + [c])[..|s|] == s;
  }

  /** The digits before the point are the integer part of the value: the
      fraction digits add less than one. */
  lemma {:induction false} DecimalValueIntegerPart(ip: string, fp: string)
    requires AllDigits(ip) && AllDigits(fp)
    ensures DigitsValue(ip) as real <= DecimalValue(ip, fp) < DigitsValue(ip) as real + 1.0
    decreases |fp|
  {
    if fp != [] {
      DigitsValueSnoc(ip, fp[0]);
      DecimalValueIntegerPart(ip + [fp[0]], fp[1..]);
    }
  }
}
