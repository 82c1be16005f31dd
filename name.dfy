/** Candidate-name detection: `guess_name_from_lines` and `extract_name`
    (parser.py lines 62-95). */
module Name {
  import opened Chars
  import opened Strings
  import opened Optional
  import opened Vocabulary

  /** A line is skipped when some master skill occurs in its lower-case form
      or when it holds a digit. */
  predicate Rejected(line: string) {
    || (exists sk :: sk in SkillsMaster && Contains(Lower(line), sk))
    || (exists k :: 0 <= k < |line| && IsDigit(line[k]))
  }

  /** `str.isupper`: some cased character and no lower-case one. */
  predicate IsUpperCase(s: string) {
    && (exists k :: 0 <= k < |s| && IsUpper(s[k]))
    && (forall k :: 0 <= k < |s| ==> !IsLower(s[k]))
  }

  /** `re.match(r'^[A-Z\s]+$', s)`. */
  predicate CapitalsAndSpaces(s: string) {
    |s| > 0 && forall k :: 0 <= k < |s| ==> IsUpper(s[k]) || IsSpace(s[k])
  }

  /** `re.match(r'^[A-Z][a-z]+(\s[A-Z][a-z]+)+$', s)`: two or more words, each
      a capital followed by lower-case letters, separated by single spaces. */
  predicate TitleCaseWords(s: string) {
    && |s| > 0 && IsUpper(s[0]) && IsLower(s[|s| - 1])
    && (exists k :: 0 <= k < |s| && IsSpace(s[k]))
    && (forall k :: 0 <= k < |s| ==> IsLetter(s[k]) || IsSpace(s[k]))
    && (forall j, k :: 0 <= j < |s| && 0 <= k < |s| && k == j + 1 ==>
          && (IsUpper(s[k]) <==> IsSpace(s[j]))
          && (IsSpace(s[k]) ==> IsLower(s[j])))
  }

  /** The first pass accepts an all-capitals line of two to four words. */
  predicate UpperName(line: string) {
    !Rejected(line) && IsUpperCase(line) && 2 <= |Words(line)| <= 4 && CapitalsAndSpaces(line)
  }

  /** The second pass accepts a title-case line of two to four words. */
  predicate TitleName(line: string) {
    !Rejected(line) && 2 <= |Words(line)| <= 4 && TitleCaseWords(line)
  }

  /** What any name the parser reports looks like: two to four words, no
      digit, and no master skill inside. */
  predicate PlausibleName(x: string) {
    2 <= |Words(x)| <= 4 && !Rejected(x)
  }

  /** How many leading lines the guess looks at: `min(10, len(lines))`. */
  function ScanLimit(lines: seq<string>): (n: nat)
    ensures n <= |lines| && n <= 10
    ensures n == 10 || n == |lines|
  {
    if |lines| < 10 then |lines| else 10
  }

  /** i is the first scanned line whose stripped form satisfies P. */
  ghost predicate FirstScanned(lines: seq<string>, P: string -> bool, i: nat) {
    i < ScanLimit(lines) && P(Strip(lines[i])) && NoneBefore(lines, P, i)
  }

  /** No line before i has a stripped form that satisfies P. */
  ghost predicate NoneBefore(lines: seq<string>, P: string -> bool, i: nat) {
    forall j :: 0 <= j < i && j < |lines| ==> !P(Strip(lines[j]))
  }

  lemma NoneBeforeStep(lines: seq<string>, P: string -> bool, i: nat)
    requires NoneBefore(lines, P, i) && i < |lines| && !P(Strip(lines[i]))
    ensures NoneBefore(lines, P, i + 1)
  {
  }

  /** No scanned line's stripped form satisfies P. */
  ghost predicate NoneScanned(lines: seq<string>, P: string -> bool) {
    NoneBefore(lines, P, ScanLimit(lines))
  }

  /** x is what `guess_name_from_lines` answers: the first all-capitals
      candidate, title-cased, or else the first title-case candidate. */
  ghost predicate IsGuess(lines: seq<string>, x: string) {
    || (exists i: nat :: FirstScanned(lines, UpperName, i) && x == Title(Strip(lines[i])))
    || (NoneScanned(lines, UpperName) && exists i: nat :: FirstScanned(lines, TitleName, i) && x == Strip(lines[i]))
  }

  /** Neither pass finds a candidate. */
  ghost predicate NoNameLine(lines: seq<string>) {
    NoneScanned(lines, UpperName) && NoneScanned(lines, TitleName)
  }

  /** `guess_name_from_lines`. */
  method GuessNameFromLines(lines: seq<string>) returns (r: Option<string>)
    ensures r.Some? ==> IsGuess(lines, r.value) && PlausibleName(r.value)
    ensures r.None? <==> NoNameLine(lines)
  {
    var n := ScanLimit(lines);
    for i := 0 to n
      invariant NoneBefore(lines, UpperName, i)
    {
      var line := Strip(lines[i]);
      if UpperName(line) {
        UpperPassFinds(lines, i);
        return Some(Title(line));
      }
      NoneBeforeStep(lines, UpperName, i);
    }
    for i := 0 to n
      invariant NoneBefore(lines, TitleName, i)
    {
      var line := Strip(lines[i]);
      if TitleName(line) {
        TitlePassFinds(lines, i);
        return Some(line);
      }
      NoneBeforeStep(lines, TitleName, i);
    }
    return None;
  }

  /** The first pass answers with its first candidate, title-cased. */
  lemma UpperPassFinds(lines: seq<string>, i: nat)
    requires FirstScanned(lines, UpperName, i)
    ensures IsGuess(lines, Title(Strip(lines[i]))) && PlausibleName(Title(Strip(lines[i])))
    ensures !NoNameLine(lines)
  {
    TitledUpperName(Strip(lines[i]));
  }

  /** The second pass answers with its first candidate as it stands. */
  lemma TitlePassFinds(lines: seq<string>, i: nat)
    requires NoneScanned(lines, UpperName) && FirstScanned(lines, TitleName, i)
    ensures IsGuess(lines, Strip(lines[i])) && PlausibleName(Strip(lines[i]))
    ensures !NoNameLine(lines)
  {
  }

  /** Title-casing an all-capitals candidate keeps it plausible: the words,
      the digits and the lower-case form do not change. */
  lemma TitledUpperName(line: string)
    requires UpperName(line)
    ensures PlausibleName(Title(line))
  {
    var t := Title(line);
    TitlePreservesClasses(line);
    RunsCountByPattern(line, t, NotSpace, NotSpace);
    assert forall k :: 0 <= k < |t| ==> !IsDigit(t[k]);
  }

  /** Since "c" is a master skill, no line containing the letter c, in either
      case, is ever taken for a name. */
  lemma LetterCRejects(line: string)
    requires 'c' in line || 'C' in line
    ensures Rejected(line) && !UpperName(line) && !TitleName(line)
  {
    ShortSkills();
    var k :| 0 <= k < |line| && (line[k] == 'c' || line[k] == 'C');
    assert Lower(line)[k..k + 1] == "c";
    ContainsAt(Lower(line), "c", k);
  }

  /** A named entity found by the language model: its label (`kind`) and its text. */
  datatype Entity = Entity(kind: string, text: string)

  /** `ent.label_ == "PERSON" and 2 <= len(ent.text.split()) <= 4`. */
  predicate IsPersonName(e: Entity) {
    e.kind == "PERSON" && 2 <= |Words(e.text)| <= 4
  }

  /** `[ln.strip() for ln in lines]`. */
  function Stripped(ls: seq<string>): (r: seq<string>)
    ensures |r| == |ls| && forall i :: 0 <= i < |ls| ==> r[i] == Strip(ls[i])
  {
    seq(|ls|, i requires 0 <= i < |ls| => Strip(ls[i]))
  }

  /** `[ln.strip() for ln in text.splitlines() if ln.strip()]`. */
  function NonBlankLines(text: string): (r: seq<string>)
    ensures forall k :: 0 <= k < |r| ==> r[k] != [] && Strip(r[k]) == r[k]
  {
    NonEmpty(Stripped(SplitLines(text)))
  }

  /** The lines handed to the guess are the stripped non-blank lines of the
      text, in order: line k is input line `p[k]` stripped, the positions `p`
      increase, and every input line left out strips to "". */
  lemma NonBlankLinesOrder(text: string)
    ensures var ls := SplitLines(text);
      var p := KeptIndices(Stripped(ls), 0);
      && |p| == |NonBlankLines(text)|
      && (forall k :: 0 <= k < |p| ==> p[k] < |ls| && NonBlankLines(text)[k] == Strip(ls[p[k]]))
      && (forall k, m :: 0 <= k < m < |p| ==> p[k] < p[m])
      && (forall i :: 0 <= i < |ls| && i !in p ==> Strip(ls[i]) == [])
  {
    var ls := SplitLines(text);
    var ns := Stripped(ls);
    var p := KeptIndices(ns, 0);
    assert NonBlankLines(text) == NonEmpty(ns);
    KeptOrder(ns);
    forall k | 0 <= k < |p| ensures NonBlankLines(text)[k] == Strip(ls[p[k]]) {
      assert ns[p[k]] == Strip(ls[p[k]]);
    }
    forall i | 0 <= i < |ls| && i !in p ensures Strip(ls[i]) == [] {
      assert ns[i] == Strip(ls[i]);
    }
  }

  /** `extract_name(text)`: the line-based guess when there is one, else the
      first PERSON entity of two to four words. The entities are what the
      language model finds in the text, in document order. */
  method ExtractName(text: string, entities: seq<Entity>) returns (r: Option<string>)
    ensures r.Some? ==> 2 <= |Words(r.value)| <= 4
    ensures !NoNameLine(NonBlankLines(text)) ==> r.Some? && IsGuess(NonBlankLines(text), r.value)
    ensures NoNameLine(NonBlankLines(text)) ==>
      && (r.None? <==> forall k :: 0 <= k < |entities| ==> !IsPersonName(entities[k]))
      && (r.Some? ==> exists k :: 0 <= k < |entities| && IsPersonName(entities[k]) && r.value == entities[k].text
                                   && forall j :: 0 <= j < k ==> !IsPersonName(entities[j]))
  {
    var lines := NonBlankLines(text);
    r := GuessNameFromLines(lines);
    if r.Some? {
      return;
    }
    for k := 0 to |entities|
      invariant forall j :: 0 <= j < k ==> !IsPersonName(entities[j])
    {
      if IsPersonName(entities[k]) {
        return Some(entities[k].text);
      }
    }
    return None;
  }
}
