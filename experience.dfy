/** `extract_experience_years` (parser.py lines 129-137): the largest number
    written before "year" or "years" in the lower-cased text. */
module Experience {
  import opened Chars
  import opened Strings
  import opened Optional

  function DigitValue(c: char): (n: nat)
    requires IsDigit(c)
    ensures n <= 9
  {
    c as int - '0' as int
  }

  /** The value of a decimal digit string, as `int` reads it. */
  function DigitsValue(ds: string): (n: nat)
    requires forall k :: 0 <= k < |ds| ==> IsDigit(ds[k])
    decreases |ds|
  {
    if ds == [] then 0 else DigitsValue(ds[..|ds| - 1]) * 10 + DigitValue(ds[|ds| - 1])
  }

  /** The value of the digits after a decimal point: 0.d1 d2 d3 ... */
  function FracValue(ds: string): (x: real)
    requires forall k :: 0 <= k < |ds| ==> IsDigit(ds[k])
    ensures 0.0 <= x < 1.0
    decreases |ds|
  {
    if ds == [] then 0.0 else (DigitValue(ds[0]) as real + FracValue(ds[1..])) / 10.0
  }

  /** `\d+(?:\.\d+)?` at p: the number read and where it ends. The
      fraction is taken only when a digit follows the '.'. */
  function NumberAt(s: string, p: nat): (r: Option<(real, nat)>)
    requires p <= |s|
    ensures r.Some? ==> p < r.value.1 <= |s| && IsDigit(s[p]) && 0.0 <= r.value.0
    ensures r.None? <==> p == |s| || !IsDigit(s[p])
  {
    var a := RunEnd(s, p, IsDigit);
    if a == p then None
    else if a + 1 < |s| && s[a] == '.' && IsDigit(s[a + 1]) then
      var b := RunEnd(s, a + 1, IsDigit);
      Some((DigitsValue(s[p..a]) as real + FracValue(s[a + 1..b]), b))
    else Some((DigitsValue(s[p..a]) as real, a))
  }

  /** w occurs in s just before position e. */
  predicate EndsAt(s: string, e: nat, w: string) {
    |w| <= e <= |s| && s[e - |w|..e] == w
  }

  /** `\s*\+?\s*` at b, each part greedy: where it ends. */
  function GapEnd(s: string, b: nat): (d: nat)
    requires b <= |s|
    ensures b <= d <= |s|
  {
    var c := RunEnd(s, b, IsSpace);
    RunEnd(s, if c < |s| && s[c] == '+' then c + 1 else c, IsSpace)
  }

  /** `\s*\+?\s*years?` at b: where it ends. */
  function UnitEnd(s: string, b: nat): (r: Option<nat>)
    requires b <= |s|
    ensures r.Some? ==> b + 4 <= r.value <= |s|
    ensures r.Some? ==> EndsAt(s, r.value, "year") || EndsAt(s, r.value, "years")
  {
    var d := GapEnd(s, b);
    if !OccursAt(s, "year", d) then None
    else if d + 4 < |s| && s[d + 4] == 's' then
      assert EndsAt(s, d + 5, "years");
      Some(d + 5)
    else Some(d + 4)
  }

  /** `(\d+(?:\.\d+)?)\s*\+?\s*years?` tried at position p: the number it
      reads and where the match ends. Each part is greedy, and backing off
      from any of them can never let the rest match, so the first choice is
      the only one. */
  function MatchAt(s: string, p: nat): (r: Option<(real, nat)>)
    requires p <= |s|
    ensures r.Some? ==> p < r.value.1 <= |s| && IsDigit(s[p]) && 0.0 <= r.value.0
    ensures r.Some? ==> EndsAt(s, r.value.1, "year") || EndsAt(s, r.value.1, "years")
  {
    match NumberAt(s, p)
    case None => None
    case Some((v, b)) =>
      match UnitEnd(s, b)
      case None => None
      case Some(e) => Some((v, e))
  }

  // ------------------------------------------------- what the pattern matches

  function Pow10(n: nat): (r: nat)
    ensures r >= 1
  {
    if n == 0 then 1 else 10 * Pow10(n - 1)
  }

  /** `\d+(?:\.\d+)?` covers s[p..f]: digits up to a, then either nothing
      (f == a) or a '.' and one or more digits up to f. */
  ghost predicate NumberParts(s: string, p: nat, a: nat, f: nat) {
    && p < a && AllIn(s, p, a, IsDigit)
    && (f == a || (a < |s| && s[a] == '.' && a + 1 < f && AllIn(s, a + 1, f, IsDigit)))
  }

  /** `float(m.group(1))` for the number in s[p..f]: the integer digits plus
      the fraction digits over the power of ten of their count. */
  ghost function NumberValue(s: string, p: nat, a: nat, f: nat): real
    requires NumberParts(s, p, a, f)
  {
    DigitsValue(s[p..a]) as real
      + if f == a then 0.0 else DigitsValue(s[a + 1..f]) as real / Pow10(f - a - 1) as real
  }

  /** `\s*\+?\s*` covers s[f..d]: spaces up to c, an optional '+' up to g,
      spaces up to d. */
  ghost predicate GapParts(s: string, f: nat, c: nat, g: nat, d: nat) {
    && AllIn(s, f, c, IsSpace)
    && (g == c || (c < |s| && s[c] == '+' && g == c + 1))
    && AllIn(s, g, d, IsSpace)
  }

  /** `years?` covers s[d..e]. */
  ghost predicate UnitParts(s: string, d: nat, e: nat) {
    OccursAt(s, "year", d) && (e == d + 4 || (e == d + 5 && e <= |s| && s[d + 4] == 's'))
  }

  /** `(\d+(?:\.\d+)?)\s*\+?\s*years?` matches s[p..e], and its group
      reads as v. */
  ghost predicate YearMatch(s: string, p: nat, e: nat, v: real) {
    exists a: nat, f: nat, c: nat, g: nat, d: nat ::
      && NumberParts(s, p, a, f) && GapParts(s, f, c, g, d) && UnitParts(s, d, e)
      && v == NumberValue(s, p, a, f)
  }

  /** The leading digit's worth: `DigitsValue` read from the front. */
  lemma {:induction false} DigitsFront(ds: string)
    requires ds != [] && forall k :: 0 <= k < |ds| ==> IsDigit(ds[k])
    ensures DigitsValue(ds) == DigitValue(ds[0]) * Pow10(|ds| - 1) + DigitsValue(ds[1..])
    decreases |ds|
  {
    var n := |ds|;
    if n == 1 {
      assert ds[..0] == [] && ds[1..] == [];
    } else {
      var init := ds[..n - 1];
      DigitsFront(init);
      assert ds[1..][..n - 2] == init[1..] && ds[1..][n - 2] == ds[n - 1];
      var d0, p := DigitValue(ds[0]), Pow10(n - 2);
      assert d0 * p * 10 == d0 * Pow10(n - 1);
    }
  }

  /** The recursive fraction is the fraction digits over a power of ten. */
  lemma {:induction false} FracPow(ds: string)
    requires forall k :: 0 <= k < |ds| ==> IsDigit(ds[k])
    ensures FracValue(ds) == DigitsValue(ds) as real / Pow10(|ds|) as real
    decreases |ds|
  {
    if ds != [] {
      var t := ds[1..];
      FracPow(t);
      DigitsFront(ds);
      FracStep(DigitValue(ds[0]), Pow10(|t|), DigitsValue(t), FracValue(t), FracValue(ds), DigitsValue(ds), Pow10(|ds|));
    }
  }

  /** One more leading digit a in front of the fraction c / b. */
  lemma FracStep(a: nat, b: nat, c: nat, ft: real, f: real, v: nat, w: nat)
    requires b > 0 && ft == c as real / b as real && f == (a as real + ft) / 10.0
    requires v == a * b + c && w == 10 * b
    ensures f == v as real / w as real
  {
    var q := b as real;
    assert v as real == a as real * q + c as real;
    assert w as real == 10.0 * q;
    var u := a as real + c as real / q;
    assert u * q == a as real * q + c as real;
    assert (u * q) / (10.0 * q) == u / 10.0;
  }

  /** What the number scanner returns is a number of the pattern, and its value. */
  lemma NumberAtSound(s: string, p: nat) returns (a: nat)
    requires p <= |s| && NumberAt(s, p).Some?
    ensures NumberParts(s, p, a, NumberAt(s, p).value.1)
    ensures NumberAt(s, p).value.0 == NumberValue(s, p, a, NumberAt(s, p).value.1)
  {
    a := RunEnd(s, p, IsDigit);
    if a + 1 < |s| && s[a] == '.' && IsDigit(s[a + 1]) {
      var b := RunEnd(s, a + 1, IsDigit);
      FracPow(s[a + 1..b]);
    }
  }

  /** A number of the pattern that the rest of the pattern can follow (the
      next character is no digit and no '.') is the one the scanner reads. */
  lemma NumberAtUnique(s: string, p: nat, a: nat, f: nat)
    requires NumberParts(s, p, a, f) && f < |s| && !IsDigit(s[f]) && s[f] != '.'
    ensures NumberAt(s, p) == Some((NumberValue(s, p, a, f), f))
  {
    assert a < |s| && !IsDigit(s[a]);
    assert RunEnd(s, p, IsDigit) == a;
    if f > a {
      assert RunEnd(s, a + 1, IsDigit) == f;
      FracPow(s[a + 1..f]);
    }
  }

  /** What the gap scanner returns is a gap of the pattern. */
  lemma GapEndSound(s: string, b: nat) returns (c: nat, g: nat)
    requires b <= |s|
    ensures GapParts(s, b, c, g, GapEnd(s, b))
  {
    c := RunEnd(s, b, IsSpace);
    g := if c < |s| && s[c] == '+' then c + 1 else c;
  }

  /** A gap of the pattern followed by "y" ends where the gap scanner stops. */
  lemma GapEndUnique(s: string, f: nat, c: nat, g: nat, d: nat)
    requires GapParts(s, f, c, g, d) && d < |s| && s[d] == 'y'
    ensures GapEnd(s, f) == d
  {
    var c' := RunEnd(s, f, IsSpace);
    assert !IsSpace(s[d]);
    assert c <= c';
    if c < c' {
      assert IsSpace(s[c]) && g == c;
      assert c' == d;
    }
  }

  /** A gap of the pattern followed by "y" starts with a space, '+' or 'y'. */
  lemma GapFirst(s: string, f: nat, c: nat, g: nat, d: nat)
    requires GapParts(s, f, c, g, d) && d < |s| && s[d] == 'y'
    ensures f < |s| && !IsDigit(s[f]) && s[f] != '.'
  {
    if f < c {
      assert IsSpace(s[f]);
    } else if f < g {
      assert s[f] == '+';
    } else if f < d {
      assert IsSpace(s[f]);
    }
  }

  /** What the matcher at p returns is a match of the pattern, with the
      value its group reads. */
  lemma MatchAtSound(s: string, p: nat)
    requires p <= |s| && MatchAt(s, p).Some?
    ensures YearMatch(s, p, MatchAt(s, p).value.1, MatchAt(s, p).value.0)
  {
    var a := NumberAtSound(s, p);
    var f := NumberAt(s, p).value.1;
    var c, g := GapEndSound(s, f);
    var d := GapEnd(s, f);
    assert UnitParts(s, d, MatchAt(s, p).value.1);
  }

  /** Every match of the pattern at p is found with the same value, and none
      is longer than the matcher's. */
  lemma MatchAtLongest(s: string, p: nat, e: nat, v: real)
    requires p <= |s| && YearMatch(s, p, e, v)
    ensures MatchAt(s, p).Some? && MatchAt(s, p).value.0 == v && e <= MatchAt(s, p).value.1
  {
    var a: nat, f: nat, c: nat, g: nat, d: nat :|
      && NumberParts(s, p, a, f) && GapParts(s, f, c, g, d) && UnitParts(s, d, e)
      && v == NumberValue(s, p, a, f);
    MatchAtParts(s, p, a, f, c, g, d, e);
  }

  lemma MatchAtParts(s: string, p: nat, a: nat, f: nat, c: nat, g: nat, d: nat, e: nat)
    requires p <= |s| && NumberParts(s, p, a, f) && GapParts(s, f, c, g, d) && UnitParts(s, d, e)
    ensures MatchAt(s, p).Some? && MatchAt(s, p).value.0 == NumberValue(s, p, a, f)
    ensures e <= MatchAt(s, p).value.1
  {
    assert s[d..d + 4] == "year";
    GapFirst(s, f, c, g, d);
    NumberAtUnique(s, p, a, f);
    GapEndUnique(s, f, c, g, d);
    UnitEndFrom(s, f, d, e);
  }

  lemma UnitEndFrom(s: string, f: nat, d: nat, e: nat)
    requires f <= |s| && GapEnd(s, f) == d && UnitParts(s, d, e)
    ensures UnitEnd(s, f).Some? && e <= UnitEnd(s, f).value
  {
  }

  /** The matcher at p finds a match exactly when the pattern matches at p;
      it reads the group's value and takes `s?` when it can, as the greedy
      `re` engine does. */
  lemma MatchAtSpec(s: string, p: nat)
    requires p <= |s|
    ensures MatchAt(s, p).Some? ==> YearMatch(s, p, MatchAt(s, p).value.1, MatchAt(s, p).value.0)
    ensures forall e: nat, v: real :: YearMatch(s, p, e, v) ==>
      MatchAt(s, p).Some? && MatchAt(s, p).value.0 == v && e <= MatchAt(s, p).value.1
  {
    if MatchAt(s, p).Some? {
      MatchAtSound(s, p);
    }
    forall e: nat, v: real | YearMatch(s, p, e, v)
      ensures MatchAt(s, p).Some? && MatchAt(s, p).value.0 == v && e <= MatchAt(s, p).value.1
    {
      MatchAtLongest(s, p, e, v);
    }
  }

  /** The numbers `re.finditer` reports from position p on: after a match
      the scan resumes where it ended, otherwise one position later. */
  function YearValues(s: string, p: nat): (vs: seq<real>)
    requires p <= |s|
    ensures forall k :: 0 <= k < |vs| ==> 0.0 <= vs[k]
    decreases |s| - p
  {
    if p == |s| then []
    else match MatchAt(s, p)
      case Some((v, e)) => [v] + YearValues(s, e)
      case None => YearValues(s, p + 1)
  }

  lemma YearValuesStep(s: string, p: nat)
    requires p < |s|
    ensures MatchAt(s, p).Some? ==> YearValues(s, p) == [MatchAt(s, p).value.0] + YearValues(s, MatchAt(s, p).value.1)
    ensures MatchAt(s, p).None? ==> YearValues(s, p) == YearValues(s, p + 1)
  {
  }

  /** top is the running `max(years, ..)` over vs: every value lies between 0
      and top, and top is 0 or one of the values. */
  ghost predicate RunningMax(vs: seq<real>, top: real) {
    && (forall v :: v in vs ==> 0.0 <= v <= top)
    && (top == 0.0 || top in vs)
  }

  lemma RunningMaxSnoc(vs: seq<real>, top: real, v: real)
    requires RunningMax(vs, top) && 0.0 <= v
    ensures RunningMax(vs + [v], if v > top then v else top)
  {
  }

  /** What the final `years if years > 0 else None` reports about the values. */
  lemma RunningMaxResult(vs: seq<real>, top: real)
    requires RunningMax(vs, top)
    ensures top > 0.0 ==> top in vs && forall v :: v in vs ==> v <= top
    ensures top <= 0.0 <==> forall v :: v in vs ==> v == 0.0
  {
  }

  /** The state of the scan before position p: the values seen so far
      followed by those still to come are all the values, and years is their
      running maximum. */
  ghost predicate ScanInv(s: string, p: nat, seen: seq<real>, years: real) {
    p <= |s| && YearValues(s, 0) == seen + YearValues(s, p) && RunningMax(seen, years)
  }

  /** One round of the scan at p: a match adds its value to those seen and
      resumes at its end; no match moves on by one character. */
  lemma ScanStep(s: string, p: nat, seen: seq<real>, years: real)
    requires p < |s| && ScanInv(s, p, seen, years)
    ensures MatchAt(s, p).Some? ==>
      var v := MatchAt(s, p).value.0;
      ScanInv(s, MatchAt(s, p).value.1, seen + [v], if v > years then v else years)
    ensures MatchAt(s, p).None? ==> ScanInv(s, p + 1, seen, years)
  {
    YearValuesStep(s, p);
    if MatchAt(s, p).Some? {
      var v := MatchAt(s, p).value.0;
      assert seen + ([v] + YearValues(s, MatchAt(s, p).value.1)) == (seen + [v]) + YearValues(s, MatchAt(s, p).value.1);
      RunningMaxSnoc(seen, years, v);
    }
  }

  /** At the end of the text every value has been seen. */
  lemma ScanDone(s: string, seen: seq<real>, years: real)
    requires ScanInv(s, |s|, seen, years)
    ensures years > 0.0 ==> years in YearValues(s, 0) && forall v :: v in YearValues(s, 0) ==> v <= years
    ensures years <= 0.0 <==> forall v :: v in YearValues(s, 0) ==> v == 0.0
  {
    assert YearValues(s, 0) == seen;
    RunningMaxResult(seen, years);
  }

  /** `extract_experience_years(text)`: the largest value found, or nothing
      when no value is positive. */
  method ExtractExperienceYears(text: string) returns (r: Option<real>)
    ensures r.Some? ==> 0.0 < r.value && r.value in YearValues(Lower(text), 0)
    ensures r.Some? ==> forall v :: v in YearValues(Lower(text), 0) ==> v <= r.value
    ensures r.None? <==> forall v :: v in YearValues(Lower(text), 0) ==> v == 0.0
  {
    var s := Lower(text);
    var years := 0.0;
    var p := 0;
    ghost var seen: seq<real> := [];
    while p < |s|
      invariant ScanInv(s, p, seen, years)
      decreases |s| - p
    {
      var m := MatchAt(s, p);
      ScanStep(s, p, seen, years);
      if m.Some? {
        var v := m.value.0;
        seen := seen + [v];
        years := if v > years then v else years;
        p := m.value.1;
      } else {
        p := p + 1;
      }
    }
    ScanDone(s, seen, years);
    r := if years > 0.0 then Some(years) else None;
  }

  /** "5+ years" reads as 5. */
  lemma PlusYearsExample()
    ensures YearValues("5+ years", 0) == [5.0]
  {
    var s := "5+ years";
    assert RunEnd(s, 1, IsDigit) == 1 && RunEnd(s, 0, IsDigit) == 1;
    assert s[0..1] == "5" && DigitsValue("5") == 5;
    assert NumberAt(s, 0) == Some((5.0, 1));
    assert RunEnd(s, 1, IsSpace) == 1;
    assert RunEnd(s, 3, IsSpace) == 3 && RunEnd(s, 2, IsSpace) == 3;
    assert s[3..7] == "year" && s[7] == 's';
    assert UnitEnd(s, 1) == Some(8);
    assert YearValues(s, 8) == [];
  }

  /** "2.5 Years" reads as 2.5 once lower-cased. */
  lemma FractionExample()
    ensures YearValues(Lower("2.5 Years"), 0) == [2.5]
  {
    var t := Lower("2.5 Years");
    assert t == "2.5 years";
    FractionNumber(t);
    FractionUnit(t);
    assert YearValues(t, 9) == [];
  }

  lemma FractionNumber(t: string)
    requires t == "2.5 years"
    ensures NumberAt(t, 0) == Some((2.5, 3))
  {
    assert RunEnd(t, 1, IsDigit) == 1 && RunEnd(t, 0, IsDigit) == 1;
    assert RunEnd(t, 3, IsDigit) == 3 && RunEnd(t, 2, IsDigit) == 3;
    assert t[0..1] == "2" && t[2..3] == "5" && DigitsValue("2") == 2;
    assert FracValue("5") == 0.5;
  }

  lemma FractionUnit(t: string)
    requires t == "2.5 years"
    ensures UnitEnd(t, 3) == Some(9)
  {
    assert RunEnd(t, 4, IsSpace) == 4 && RunEnd(t, 3, IsSpace) == 4;
    assert t[4..8] == "year" && t[8] == 's';
  }
}
