/** Text normalisation: `clean_text` (parser.py lines 48-51). */
module Clean {
  import opened Chars
  import opened Strings

  /** One line of `clean_text`: `re.sub(r'\s+', ' ', ln).strip()`. */
  function NormalizeLine(ln: string): (r: string)
    ensures Words(r) == Words(ln)
    ensures SingleSpaced(r)
    ensures r != [] ==> !IsSpace(r[0]) && !IsSpace(r[|r| - 1])
  {
    CollapseWords(ln);
    StripWords(Collapse(ln));
    Strip(Collapse(ln))
  }

  /** A normalised line is the words of the line joined by single spaces. */
  lemma NormalizeIsJoin(ln: string)
    ensures NormalizeLine(ln) == Join(Words(ln), " ")
  {
    CleanIsJoin(NormalizeLine(ln));
  }

  /** A line as `clean_text` leaves it: non-empty, no space at either end, and
      no space other than single interior ' ' characters. */
  ghost predicate IsCleanLine(l: string) {
    |l| > 0 && !IsSpace(l[0]) && !IsSpace(l[|l| - 1]) && SingleSpaced(l)
  }

  /** `[re.sub(r'\s+', ' ', ln).strip() for ln in ls]`. */
  function Normalized(ls: seq<string>): (ns: seq<string>)
    ensures |ns| == |ls|
    ensures forall i :: 0 <= i < |ls| ==> ns[i] == NormalizeLine(ls[i])
  {
    seq(|ls|, i requires 0 <= i < |ls| => NormalizeLine(ls[i]))
  }

  /** `[ln for ln in lines if ln]` over the normalised lines. */
  function KeptLines(ls: seq<string>): (r: seq<string>)
    ensures forall i :: 0 <= i < |r| ==> IsCleanLine(r[i])
  {
    NonEmpty(Normalized(ls))
  }

  /** The lines `clean_text` joins. */
  function CleanLines(t: string): seq<string> {
    KeptLines(SplitLines(t))
  }

  /** `clean_text(txt)`: the clean lines joined by "\n". The output's only
      break character is "\n" and it does not end with one, so by
      `SplitLinesJoinNewlines` it is the "\n"-join of its own lines, which
      are the clean lines. */
  function CleanText(t: string): (r: string)
    ensures SplitLines(r) == CleanLines(t)
    ensures forall i :: 0 <= i < |r| ==> IsLineBreak(r[i]) ==> r[i] == '\n'
    ensures r == [] || r[|r| - 1] != '\n'
  {
    var ls := CleanLines(t);
    forall i | 0 <= i < |ls| ensures |ls[i]| > 0 && NoLineBreak(ls[i]) {
      CleanLineHasNoBreak(ls[i]);
    }
    SplitJoin(ls);
    JoinNewlinesOnly(ls);
    Join(ls, "\n")
  }

  lemma CleanLineHasNoBreak(l: string)
    requires IsCleanLine(l)
    ensures NoLineBreak(l)
  {
    forall i | 0 <= i < |l| ensures !IsLineBreak(l[i]) {
      if IsLineBreak(l[i]) { assert IsSpace(l[i]); }
    }
  }

  /** Normalising an already clean line changes nothing. */
  lemma NormalizeCleanLine(l: string)
    requires IsCleanLine(l)
    ensures NormalizeLine(l) == l
  {
    CollapseSingleSpaced(l);
  }

  lemma {:induction false} NonEmptyOfNonEmpty(ns: seq<string>)
    requires forall i :: 0 <= i < |ns| ==> ns[i] != []
    ensures NonEmpty(ns) == ns
  {
    if ns != [] {
      NonEmptyOfNonEmpty(ns[1..]);
    }
  }

  lemma KeptLinesOfCleanLines(ls: seq<string>)
    requires forall i :: 0 <= i < |ls| ==> IsCleanLine(ls[i])
    ensures KeptLines(ls) == ls
  {
    forall i | 0 <= i < |ls| ensures NormalizeLine(ls[i]) == ls[i] {
      NormalizeCleanLine(ls[i]);
    }
    assert Normalized(ls) == ls;
    NonEmptyOfNonEmpty(ls);
  }

  /** `clean_text(clean_text(t)) == clean_text(t)`. */
  lemma CleanTextIdempotent(t: string)
    ensures CleanText(CleanText(t)) == CleanText(t)
  {
    KeptLinesOfCleanLines(CleanLines(t));
  }

  /** Lines keep their original order: the k-th line of `clean_text(t)` is
      the normalised form of input line `p[k]`, the positions `p` increase,
      and every input line not kept normalises to "". */
  lemma CleanLinesOrder(t: string)
    ensures var ls := SplitLines(t);
      var p := KeptIndices(Normalized(ls), 0);
      && |p| == |CleanLines(t)|
      && (forall k :: 0 <= k < |p| ==> p[k] < |ls| && CleanLines(t)[k] == NormalizeLine(ls[p[k]]))
      && (forall k, m :: 0 <= k < m < |p| ==> p[k] < p[m])
      && (forall i :: 0 <= i < |ls| && i !in p ==> NormalizeLine(ls[i]) == [])
  {
    var ls := SplitLines(t);
    var ns := Normalized(ls);
    var p := KeptIndices(ns, 0);
    assert CleanLines(t) == NonEmpty(ns);
    KeptOrder(ns);
    forall k | 0 <= k < |p| ensures CleanLines(t)[k] == NormalizeLine(ls[p[k]]) {
      assert ns[p[k]] == NormalizeLine(ls[p[k]]);
    }
    forall i | 0 <= i < |ls| && i !in p ensures NormalizeLine(ls[i]) == [] {
      assert ns[i] == NormalizeLine(ls[i]);
    }
  }
}
