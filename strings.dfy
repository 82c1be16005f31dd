/** String operations the pipeline borrows from Python: substring test,
    `splitlines`, `join`, `strip`, `split`, single-character `replace`, and the
    maximal runs that `re.findall('[a-zA-Z]+')` returns. */
module Strings {
  import opened Chars

  /** `p in s`: p occurs in s as a contiguous substring. */
  predicate Contains(s: string, p: string)
    decreases |s|
  {
    p <= s || (s != [] && Contains(s[1..], p))
  }

  /** p occurs in s at position i. */
  predicate OccursAt(s: string, p: string, i: nat) {
    i + |p| <= |s| && s[i..i + |p|] == p
  }

  lemma {:induction false} ContainsAt(s: string, p: string, i: nat)
    requires OccursAt(s, p, i)
    ensures Contains(s, p)
    decreases i
  {
    if i > 0 {
      assert s[1..][i - 1..i - 1 + |p|] == s[i..i + |p|];
      ContainsAt(s[1..], p, i - 1);
    }
  }

  lemma {:induction false} ContainsWitness(s: string, p: string) returns (i: nat)
    requires Contains(s, p)
    ensures OccursAt(s, p, i)
    decreases |s|
  {
    if p <= s {
      i := 0;
    } else {
      var j := ContainsWitness(s[1..], p);
      assert s[1..][j..j + |p|] == s[j + 1..j + 1 + |p|];
      i := j + 1;
    }
  }

  lemma {:induction false} NotContains(s: string, p: string)
    requires forall i: nat :: !OccursAt(s, p, i)
    ensures !Contains(s, p)
    decreases |s|
  {
    assert !OccursAt(s, p, 0);
    if s != [] {
      forall i: nat ensures !OccursAt(s[1..], p, i) {
        assert !OccursAt(s, p, i + 1);
        if i + |p| <= |s[1..]| {
          assert s[1..][i..i + |p|] == s[i + 1..i + 1 + |p|];
        }
      }
      NotContains(s[1..], p);
    }
  }

  /** Every character of s[p..q] is in the class. */
  predicate AllIn(s: string, p: nat, q: nat, cls: char -> bool) {
    p <= q <= |s| && forall k :: p <= k < q ==> cls(s[k])
  }

  /** The end of the maximal run of class characters starting at p. */
  function RunEnd(s: string, p: nat, cls: char -> bool): (q: nat)
    requires p <= |s|
    ensures AllIn(s, p, q, cls)
    ensures q < |s| ==> !cls(s[q])
    ensures forall x: nat :: AllIn(s, p, x, cls) ==> x <= q
    decreases |s| - p
  {
    if p == |s| || !cls(s[p]) then p else RunEnd(s, p + 1, cls)
  }

  /** Number of leading characters of s that satisfy `inRun`. */
  function LeadingRun(s: string, inRun: char -> bool): (n: nat)
    ensures n <= |s|
    ensures forall i :: 0 <= i < n ==> inRun(s[i])
    ensures n < |s| ==> !inRun(s[n])
  {
    if s == [] || !inRun(s[0]) then 0 else 1 + LeadingRun(s[1..], inRun)
  }

  /** The maximal runs of characters satisfying `inRun`, left to right. */
  function Runs(s: string, inRun: char -> bool): seq<string>
    decreases |s|
  {
    if s == [] then []
    else if !inRun(s[0]) then Runs(s[1..], inRun)
    else
      var n := LeadingRun(s, inRun);
      [s[..n]] + Runs(s[n..], inRun)
  }

  /** `str.split()` with no argument: the maximal runs of non-space characters. */
  function Words(s: string): seq<string> {
    Runs(s, NotSpace)
  }

  /** Every run is non-empty and made of `inRun` characters. */
  lemma {:induction false} RunsShape(s: string, inRun: char -> bool)
    ensures forall w :: w in Runs(s, inRun) ==>
      |w| > 0 && forall i :: 0 <= i < |w| ==> inRun(w[i])
    decreases |s|
  {
    if s != [] {
      if !inRun(s[0]) {
        RunsShape(s[1..], inRun);
      } else {
        RunsShape(s[LeadingRun(s, inRun)..], inRun);
      }
    }
  }

  /** Two strings with the same run pattern have the same number of runs. */
  lemma {:induction false} RunsCountByPattern(a: string, b: string, p: char -> bool, q: char -> bool)
    requires |a| == |b|
    requires forall i :: 0 <= i < |a| ==> (p(a[i]) <==> q(b[i]))
    ensures |Runs(a, p)| == |Runs(b, q)|
    decreases |a|
  {
    if a != [] {
      if !p(a[0]) {
        RunsCountByPattern(a[1..], b[1..], p, q);
      } else {
        var n := LeadingRun(a, p);
        LeadingRunByPattern(a, b, p, q);
        RunsCountByPattern(a[n..], b[n..], p, q);
      }
    }
  }

  lemma {:induction false} LeadingRunByPattern(a: string, b: string, p: char -> bool, q: char -> bool)
    requires |a| == |b|
    requires forall i :: 0 <= i < |a| ==> (p(a[i]) <==> q(b[i]))
    ensures LeadingRun(a, p) == LeadingRun(b, q)
    decreases |a|
  {
    if a != [] && p(a[0]) {
      LeadingRunByPattern(a[1..], b[1..], p, q);
    }
  }

  /** Runs commute with a character map that preserves the run predicate. */
  lemma {:induction false} RunsLower(s: string)
    ensures Runs(Lower(s), IsLetter) == seq(|Runs(s, IsLetter)|, i requires 0 <= i < |Runs(s, IsLetter)| => Lower(Runs(s, IsLetter)[i]))
    decreases |s|
  {
    var l := Lower(s);
    if s != [] {
      RunsUnfold(s, IsLetter);
      RunsUnfold(l, IsLetter);
      if !IsLetter(s[0]) {
        assert Lower(s[1..]) == l[1..];
        RunsLower(s[1..]);
      } else {
        var n := LeadingRun(s, IsLetter);
        LeadingRunByPattern(s, l, IsLetter, IsLetter);
        assert Lower(s[n..]) == l[n..];
        assert Lower(s[..n]) == l[..n];
        RunsLower(s[n..]);
        LowerCons(s[..n], Runs(s[n..], IsLetter));
      }
    }
  }

  /** The letter runs of a lower-cased text are lower-case letters. */
  lemma LowerRunsShape(s: string)
    ensures forall w :: w in Runs(Lower(s), IsLetter) ==>
      |w| > 0 && AllLower(w) && forall k :: 0 <= k < |w| ==> IsLetter(w[k])
  {
    RunsShape(Lower(s), IsLetter);
    RunsLower(s);
    var runs, lows := Runs(s, IsLetter), Runs(Lower(s), IsLetter);
    forall w | w in lows ensures AllLower(w) {
      var j :| 0 <= j < |lows| && lows[j] == w;
      assert w == Lower(runs[j]);
    }
  }

  lemma LowerCons(w: string, ws: seq<string>)
    ensures seq(|[w] + ws|, i requires 0 <= i < |[w] + ws| => Lower(([w] + ws)[i]))
      == [Lower(w)] + seq(|ws|, i requires 0 <= i < |ws| => Lower(ws[i]))
  {
  }

  /** A maximal run of `inRun` characters starts at position i. */
  predicate RunStart(s: string, i: nat, inRun: char -> bool) {
    i < |s| && inRun(s[i]) && (i == 0 || !inRun(s[i - 1]))
  }

  /** w is the whole maximal run that starts at some position of s: what
      `re.findall` with a greedy character class reports there. */
  ghost predicate MaximalRun(s: string, w: string, inRun: char -> bool) {
    exists i: nat :: RunStart(s, i, inRun) && w == s[i..RunEnd(s, i, inRun)]
  }

  lemma {:induction false} RunEndShift(s: string, k: nat, j: nat, inRun: char -> bool)
    requires k + j <= |s|
    ensures RunEnd(s[k..], j, inRun) + k == RunEnd(s, k + j, inRun)
    decreases |s| - k - j
  {
    if k + j < |s| && inRun(s[k + j]) {
      assert s[k..][j] == s[k + j];
      RunEndShift(s, k, j + 1, inRun);
    }
  }

  lemma RunEndLeading(s: string, inRun: char -> bool)
    ensures RunEnd(s, 0, inRun) == LeadingRun(s, inRun)
  {
    assert AllIn(s, 0, LeadingRun(s, inRun), inRun);
  }

  lemma RunsUnfold(s: string, inRun: char -> bool)
    requires s != []
    ensures !inRun(s[0]) ==> Runs(s, inRun) == Runs(s[1..], inRun)
    ensures inRun(s[0]) ==> Runs(s, inRun) == [s[..LeadingRun(s, inRun)]] + Runs(s[LeadingRun(s, inRun)..], inRun)
  {
  }

  /** Position j of s[k..] is position k + j of s, for runs too. */
  lemma RunShift(s: string, k: nat, j: nat, inRun: char -> bool)
    requires k + j < |s|
    ensures s[k..][j] == s[k + j]
    ensures RunStart(s[k..], j, inRun) <==> inRun(s[k + j]) && (j == 0 || !inRun(s[k + j - 1]))
    ensures s[k..][j..RunEnd(s[k..], j, inRun)] == s[k + j..RunEnd(s, k + j, inRun)]
  {
    RunStartShift(s, k, j, inRun);
    RunSliceShift(s, k, j, inRun);
  }

  lemma RunStartShift(s: string, k: nat, j: nat, inRun: char -> bool)
    requires k + j < |s|
    ensures s[k..][j] == s[k + j]
    ensures RunStart(s[k..], j, inRun) <==> inRun(s[k + j]) && (j == 0 || !inRun(s[k + j - 1]))
  {
    if j > 0 {
      assert s[k..][j - 1] == s[k + j - 1];
    }
  }

  lemma RunSliceShift(s: string, k: nat, j: nat, inRun: char -> bool)
    requires k + j < |s|
    ensures s[k..][j..RunEnd(s[k..], j, inRun)] == s[k + j..RunEnd(s, k + j, inRun)]
  {
    RunEndShift(s, k, j, inRun);
    var e := RunEnd(s, k + j, inRun);
    assert s[k..][j..e - k] == s[k + j..e];
  }

  /** Every maximal run of s is one of `Runs(s, inRun)`. */
  lemma {:induction false} RunsComplete(s: string, i: nat, inRun: char -> bool)
    requires RunStart(s, i, inRun)
    ensures s[i..RunEnd(s, i, inRun)] in Runs(s, inRun)
    decreases |s|
  {
    RunsUnfold(s, inRun);
    if !inRun(s[0]) {
      RunShift(s, 1, i - 1, inRun);
      RunsComplete(s[1..], i - 1, inRun);
    } else {
      var n := LeadingRun(s, inRun);
      RunEndLeading(s, inRun);
      if i == 0 {
        assert s[0..n] == s[..n];
      } else {
        assert n <= i - 1 < i;
        RunShift(s, n, i - n, inRun);
        RunsComplete(s[n..], i - n, inRun);
      }
    }
  }

  /** Every element of `Runs(s, inRun)` is a maximal run of s. */
  lemma {:induction false} RunsSound(s: string, w: string, inRun: char -> bool) returns (i: nat)
    requires w in Runs(s, inRun)
    ensures RunStart(s, i, inRun) && w == s[i..RunEnd(s, i, inRun)]
    decreases |s|
  {
    RunsUnfold(s, inRun);
    if !inRun(s[0]) {
      var j := RunsSound(s[1..], w, inRun);
      RunShift(s, 1, j, inRun);
      i := j + 1;
    } else {
      var n := LeadingRun(s, inRun);
      RunEndLeading(s, inRun);
      if w == s[..n] {
        i := 0;
        assert s[0..n] == s[..n];
      } else {
        var j := RunsSound(s[n..], w, inRun);
        RunShift(s, n, j, inRun);
        i := n + j;
      }
    }
  }

  /** `Runs(s, inRun)` holds exactly the maximal runs of s. */
  lemma RunsAt(s: string, inRun: char -> bool)
    ensures forall w :: w in Runs(s, inRun) <==> MaximalRun(s, w, inRun)
  {
    forall w ensures w in Runs(s, inRun) <==> MaximalRun(s, w, inRun) {
      if w in Runs(s, inRun) {
        var i := RunsSound(s, w, inRun);
      }
      if MaximalRun(s, w, inRun) {
        var i: nat :| RunStart(s, i, inRun) && w == s[i..RunEnd(s, i, inRun)];
        RunsComplete(s, i, inRun);
      }
    }
  }

  /** A run character in front of x joins the first run of x, or forms a run
      of its own. */
  lemma RunsCons(c: char, x: string, inRun: char -> bool)
    requires inRun(c)
    ensures Runs([c] + x, inRun) ==
      if x != [] && inRun(x[0]) then [[c] + Runs(x, inRun)[0]] + Runs(x, inRun)[1..]
      else [[c]] + Runs(x, inRun)
  {
    var s := [c] + x;
    assert s[1..] == x;
    var n := LeadingRun(s, inRun);
    var m := LeadingRun(x, inRun);
    assert n == 1 + m;
    assert s[..n] == [c] + x[..m] && s[n..] == x[m..];
  }

  /** Leading characters outside the runs do not change the runs. */
  lemma {:induction false} RunsSkip(s: string, k: nat, inRun: char -> bool)
    requires k <= |s| && forall i :: 0 <= i < k ==> !inRun(s[i])
    ensures Runs(s[k..], inRun) == Runs(s, inRun)
    decreases k
  {
    if k > 0 {
      assert s[1..][k - 1..] == s[k..];
      RunsSkip(s[1..], k - 1, inRun);
    }
  }

  lemma {:induction false} LeadingRunPrefix(s: string, j: nat, inRun: char -> bool)
    requires LeadingRun(s, inRun) <= j <= |s|
    ensures LeadingRun(s[..j], inRun) == LeadingRun(s, inRun)
    decreases j
  {
    if s != [] && inRun(s[0]) {
      assert s[..j][1..] == s[1..][..j - 1];
      LeadingRunPrefix(s[1..], j - 1, inRun);
    }
  }

  /** Trailing characters outside the runs do not change the runs. */
  lemma {:induction false} RunsDropEnd(s: string, j: nat, inRun: char -> bool)
    requires j <= |s| && forall i :: j <= i < |s| ==> !inRun(s[i])
    ensures Runs(s[..j], inRun) == Runs(s, inRun)
    decreases |s|
  {
    if j < |s| {
      if !inRun(s[0]) {
        assert j > 0 ==> s[..j][1..] == s[1..][..j - 1];
        RunsDropEnd(s[1..], if j > 0 then j - 1 else 0, inRun);
      } else {
        var n := LeadingRun(s, inRun);
        assert !inRun(s[j]);
        assert n <= j;
        LeadingRunPrefix(s, j, inRun);
        assert s[..j][..n] == s[..n] && s[..j][n..] == s[n..][..j - n];
        RunsDropEnd(s[n..], j - n, inRun);
      }
    } else {
      assert s[..j] == s;
    }
  }

  /** `sep.join(ls)`. */
  function Join(ls: seq<string>, sep: string): string {
    if ls == [] then []
    else if |ls| == 1 then ls[0]
    else ls[0] + sep + Join(ls[1..], sep)
  }

  /** `str.splitlines()`: breaks at every line-break character (\r\n as one
      break); a trailing break does not start an extra empty line. */
  function SplitLines(s: string): (r: seq<string>)
    ensures forall i :: 0 <= i < |r| ==> NoLineBreak(r[i])
    ensures r == [] <==> s == []
  {
    LinesFromNoBreaks(s, []);
    LinesFromEmpty(s, []);
    LinesFrom(s, [])
  }

  /** Splitting the rest `s` when `cur` holds the current line so far. */
  function LinesFrom(s: string, cur: string): seq<string>
    decreases |s|
  {
    if s == [] then (if cur == [] then [] else [cur])
    else if IsLineBreak(s[0]) then
      var skip := if s[0] == '\r' && |s| > 1 && s[1] == '\n' then 2 else 1;
      [cur] + LinesFrom(s[skip..], [])
    else LinesFrom(s[1..], cur + [s[0]])
  }

  predicate NoLineBreak(s: string) {
    forall i :: 0 <= i < |s| ==> !IsLineBreak(s[i])
  }

  lemma {:induction false} LinesFromNoBreak(s: string, cur: string)
    requires NoLineBreak(s)
    ensures LinesFrom(s, cur) == if cur + s == [] then [] else [cur + s]
    decreases |s|
  {
    if s == [] {
      assert cur + s == cur;
    } else {
      assert cur + s == (cur + [s[0]]) + s[1..];
      LinesFromNoBreak(s[1..], cur + [s[0]]);
    }
  }

  lemma {:induction false} LinesFromBreak(l: string, rest: string, cur: string)
    requires NoLineBreak(l)
    ensures LinesFrom(l + "\n" + rest, cur) == [cur + l] + LinesFrom(rest, [])
    decreases |l|
  {
    if l == [] {
      assert (l + "\n" + rest)[0] == '\n';
      assert (l + "\n" + rest)[1..] == rest;
      assert cur + l == cur;
    } else {
      assert (l + "\n" + rest)[1..] == l[1..] + "\n" + rest;
      assert cur + l == (cur + [l[0]]) + l[1..];
      LinesFromBreak(l[1..], rest, cur + [l[0]]);
    }
  }

  /** Joining non-empty break-free lines with "\n" and splitting again gives the lines back. */
  lemma {:induction false} SplitJoin(ls: seq<string>)
    requires forall i :: 0 <= i < |ls| ==> |ls[i]| > 0 && NoLineBreak(ls[i])
    ensures SplitLines(Join(ls, "\n")) == ls
  {
    if |ls| == 1 {
      LinesFromNoBreak(ls[0], []);
    } else if |ls| > 1 {
      LinesFromBreak(ls[0], Join(ls[1..], "\n"), []);
      SplitJoin(ls[1..]);
      assert [] + ls[0] == ls[0];
      assert ls == [ls[0]] + ls[1..];
    }
  }

  /** Joining non-empty break-free lines with "\n" leaves "\n" as the only
      break character, and no break at the end. */
  lemma {:induction false} JoinNewlinesOnly(ls: seq<string>)
    requires forall i :: 0 <= i < |ls| ==> |ls[i]| > 0 && NoLineBreak(ls[i])
    ensures forall i :: 0 <= i < |Join(ls, "\n")| ==> IsLineBreak(Join(ls, "\n")[i]) ==> Join(ls, "\n")[i] == '\n'
    ensures ls != [] ==> |Join(ls, "\n")| > 0 && !IsLineBreak(Join(ls, "\n")[|Join(ls, "\n")| - 1])
    decreases |ls|
  {
    if |ls| > 1 {
      JoinNewlinesOnly(ls[1..]);
      var j := Join(ls[1..], "\n");
      var x := ls[0] + "\n" + j;
      assert Join(ls, "\n") == x;
      assert forall i :: 0 <= i < |ls[0]| ==> x[i] == ls[0][i];
      forall i | 0 <= i < |x| && IsLineBreak(x[i]) ensures x[i] == '\n' {
        if i > |ls[0]| {
          assert x[i] == j[i - |ls[0]| - 1];
        }
      }
      assert x[|x| - 1] == j[|j| - 1];
    }
  }

  /** Splitting yields no line only when nothing is left and no line is open. */
  lemma {:induction false} LinesFromEmpty(s: string, cur: string)
    ensures LinesFrom(s, cur) == [] <==> s == [] && cur == []
    decreases |s|
  {
    if s != [] && !IsLineBreak(s[0]) {
      LinesFromEmpty(s[1..], cur + [s[0]]);
    }
  }

  /** No line of `str.splitlines()` contains a line break. */
  lemma {:induction false} LinesFromNoBreaks(s: string, cur: string)
    requires NoLineBreak(cur)
    ensures forall i :: 0 <= i < |LinesFrom(s, cur)| ==> NoLineBreak(LinesFrom(s, cur)[i])
    decreases |s|
  {
    if s != [] {
      if IsLineBreak(s[0]) {
        var skip := if s[0] == '\r' && |s| > 1 && s[1] == '\n' then 2 else 1;
        LinesFromNoBreaks(s[skip..], []);
      } else {
        LinesFromNoBreaks(s[1..], cur + [s[0]]);
      }
    }
  }

  /** The text with every line break written as "\n": "\r\n" counts as one
      break, and each other break character as one. */
  function UnifyBreaks(s: string): (u: string)
    ensures u == [] <==> s == []
    decreases |s|
  {
    if s == [] then []
    else if s[0] == '\r' && |s| > 1 && s[1] == '\n' then "\n" + UnifyBreaks(s[2..])
    else if IsLineBreak(s[0]) then "\n" + UnifyBreaks(s[1..])
    else [s[0]] + UnifyBreaks(s[1..])
  }

  /** The text without its final "\n", if it has one. */
  function DropFinalNewline(s: string): (r: string)
    ensures s != [] && s[|s| - 1] == '\n' ==> s == r + "\n"
    ensures (s == [] || s[|s| - 1] != '\n') ==> r == s
  {
    if s != [] && s[|s| - 1] == '\n' then s[..|s| - 1] else s
  }

  lemma DropFinalNewlineCons(c: char, u: string)
    requires u != [] || c != '\n'
    ensures DropFinalNewline([c] + u) == [c] + DropFinalNewline(u)
  {
    if u != [] {
      assert ([c] + u)[|[c] + u| - 1] == u[|u| - 1];
      if u[|u| - 1] == '\n' {
        assert ([c] + u)[..|[c] + u| - 1] == [c] + u[..|u| - 1];
      }
    }
  }

  lemma JoinCons(l: string, ls: seq<string>)
    requires ls != []
    ensures Join([l] + ls, "\n") == l + "\n" + Join(ls, "\n")
  {
    assert ([l] + ls)[1..] == ls;
  }

  /** Joining the lines still to come, with the open line `cur` in front,
      gives back the rest of the text with unified breaks and no final one. */
  lemma {:induction false} LinesFromJoin(s: string, cur: string)
    ensures Join(LinesFrom(s, cur), "\n") == cur + DropFinalNewline(UnifyBreaks(s))
    decreases |s|
  {
    if s == [] {
      assert cur + [] == cur;
    } else if IsLineBreak(s[0]) {
      var skip := if s[0] == '\r' && |s| > 1 && s[1] == '\n' then 2 else 1;
      if s[skip..] != [] {
        LinesFromJoin(s[skip..], []);
      }
      JoinBreakStep(s, cur, skip);
    } else {
      LinesFromJoin(s[1..], cur + [s[0]]);
      JoinCharStep(s, cur);
    }
  }

  /** A break closes the open line. */
  lemma JoinBreakStep(s: string, cur: string, skip: nat)
    requires s != [] && IsLineBreak(s[0])
    requires skip == if s[0] == '\r' && |s| > 1 && s[1] == '\n' then 2 else 1
    requires s[skip..] != [] ==> Join(LinesFrom(s[skip..], []), "\n") == [] + DropFinalNewline(UnifyBreaks(s[skip..]))
    ensures Join(LinesFrom(s, cur), "\n") == cur + DropFinalNewline(UnifyBreaks(s))
  {
    LinesFromBreakAt(s, cur, skip);
    UnifyBreakAt(s, skip);
    LinesFromEmpty(s[skip..], []);
    if s[skip..] == [] {
      assert DropFinalNewline(UnifyBreaks(s)) == [] by {
        assert UnifyBreaks(s) == "\n";
      }
      assert Join([cur], "\n") == cur;
      assert cur + [] == cur;
    } else {
      JoinCons(cur, LinesFrom(s[skip..], []));
      DropFinalNewlineCons('\n', UnifyBreaks(s[skip..]));
      BreakBracket(cur, Join(LinesFrom(s[skip..], []), "\n"), DropFinalNewline(UnifyBreaks(s[skip..])),
                   Join(LinesFrom(s, cur), "\n"), DropFinalNewline(UnifyBreaks(s)));
    }
  }

  lemma LinesFromBreakAt(s: string, cur: string, skip: nat)
    requires s != [] && IsLineBreak(s[0])
    requires skip == if s[0] == '\r' && |s| > 1 && s[1] == '\n' then 2 else 1
    ensures LinesFrom(s, cur) == [cur] + LinesFrom(s[skip..], [])
  {
  }

  lemma UnifyBreakAt(s: string, skip: nat)
    requires s != [] && IsLineBreak(s[0])
    requires skip == if s[0] == '\r' && |s| > 1 && s[1] == '\n' then 2 else 1
    ensures UnifyBreaks(s) == "\n" + UnifyBreaks(s[skip..])
  {
  }

  lemma BreakBracket(x: string, j: string, d: string, l: string, k: string)
    requires j == [] + d && l == x + "\n" + j && k == "\n" + d
    ensures l == x + k
  {
  }

  /** Any other character extends the open line. */
  lemma JoinCharStep(s: string, cur: string)
    requires s != [] && !IsLineBreak(s[0])
    requires Join(LinesFrom(s[1..], cur + [s[0]]), "\n") == (cur + [s[0]]) + DropFinalNewline(UnifyBreaks(s[1..]))
    ensures Join(LinesFrom(s, cur), "\n") == cur + DropFinalNewline(UnifyBreaks(s))
  {
    LinesFromChar(s, cur);
    UnifyChar(s);
    DropFinalNewlineCons(s[0], UnifyBreaks(s[1..]));
    Rebracket(cur, s[0], DropFinalNewline(UnifyBreaks(s[1..])),
              Join(LinesFrom(s[1..], cur + [s[0]]), "\n"), DropFinalNewline(UnifyBreaks(s)));
  }

  lemma Rebracket(x: string, c: char, d: string, j: string, k: string)
    requires j == (x + [c]) + d && k == [c] + d
    ensures j == x + k
  {
  }

  lemma LinesFromChar(s: string, cur: string)
    requires s != [] && !IsLineBreak(s[0])
    ensures LinesFrom(s, cur) == LinesFrom(s[1..], cur + [s[0]])
  {
  }

  lemma UnifyChar(s: string)
    requires s != [] && !IsLineBreak(s[0])
    ensures UnifyBreaks(s) == [s[0]] + UnifyBreaks(s[1..]) && s[0] != '\n'
  {
  }

  /** What `str.splitlines()` cuts out is the text between the breaks:
      joining the lines with "\n" gives the text back, with every break
      written as "\n" and a final break dropped. */
  lemma SplitLinesJoin(s: string)
    ensures Join(SplitLines(s), "\n") == DropFinalNewline(UnifyBreaks(s))
  {
    LinesFromJoin(s, []);
  }

  /** The same for a text whose only break character is "\n". */
  lemma SplitLinesJoinNewlines(s: string)
    requires forall i :: 0 <= i < |s| ==> IsLineBreak(s[i]) ==> s[i] == '\n'
    ensures Join(SplitLines(s), "\n") == if s != [] && s[|s| - 1] == '\n' then s[..|s| - 1] else s
  {
    SplitLinesJoin(s);
    UnifyNewlinesOnly(s);
  }

  lemma {:induction false} UnifyNewlinesOnly(s: string)
    requires forall i :: 0 <= i < |s| ==> IsLineBreak(s[i]) ==> s[i] == '\n'
    ensures UnifyBreaks(s) == s
    decreases |s|
  {
    if s != [] {
      UnifyNewlinesOnly(s[1..]);
    }
  }

  /** Number of trailing characters of s that satisfy `inRun`. */
  function TrailingRun(s: string, inRun: char -> bool): (n: nat)
    ensures n <= |s|
    ensures forall i :: |s| - n <= i < |s| ==> inRun(s[i])
    ensures n < |s| ==> !inRun(s[|s| - n - 1])
  {
    if s == [] || !inRun(s[|s| - 1]) then 0 else 1 + TrailingRun(s[..|s| - 1], inRun)
  }

  /** `str.strip()`: s with the whitespace at both ends cut off. */
  function Strip(s: string): (r: string)
    ensures exists i: nat, j: nat :: i <= j <= |s| && r == s[i..j] && AllIn(s, 0, i, IsSpace) && AllIn(s, j, |s|, IsSpace)
    ensures r != [] ==> !IsSpace(r[0]) && !IsSpace(r[|r| - 1])
    ensures |r| <= |s|
    ensures SingleSpaced(s) ==> SingleSpaced(r)
    ensures (s == [] || (!IsSpace(s[0]) && !IsSpace(s[|s| - 1]))) ==> r == s
  {
    var k := LeadingRun(s, IsSpace);
    if k == |s| then
      assert AllIn(s, 0, k, IsSpace) && AllIn(s, k, |s|, IsSpace) && s[k..k] == [];
      []
    else
      var t := TrailingRun(s, IsSpace);
      assert !IsSpace(s[k]);
      assert AllIn(s, 0, k, IsSpace) && AllIn(s, |s| - t, |s|, IsSpace);
      s[k..|s| - t]
  }

  /** Stripping keeps the words: `strip().split() == split()`. */
  lemma StripWords(s: string)
    ensures Words(Strip(s)) == Words(s)
  {
    var i: nat, j: nat :| i <= j <= |s| && Strip(s) == s[i..j] && AllIn(s, 0, i, IsSpace) && AllIn(s, j, |s|, IsSpace);
    TrimWords(s, i, j);
  }

  /** Cutting whitespace off both ends keeps the words. */
  lemma TrimWords(s: string, i: nat, j: nat)
    requires i <= j <= |s| && AllIn(s, 0, i, IsSpace) && AllIn(s, j, |s|, IsSpace)
    ensures Words(s[i..j]) == Words(s)
  {
    RunsSkip(s, i, NotSpace);
    var u := s[i..];
    assert forall k :: j - i <= k < |u| ==> u[k] == s[i + k];
    RunsDropEnd(u, j - i, NotSpace);
    assert u[..j - i] == s[i..j];
  }

  /** Drops the leading spaces (the tail of one `\s+` run). */
  function DropSpaces(s: string): (r: string)
    ensures |r| <= |s|
    ensures r != [] ==> !IsSpace(r[0])
  {
    s[LeadingRun(s, IsSpace)..]
  }

  /** What is left after the spaces at the front of `s[1..]` ends as s does. */
  lemma DropSpacesLast(s: string)
    requires s != []
    ensures DropSpaces(s[1..]) == [] ==> IsSpace(s[|s| - 1]) || |s| == 1
    ensures DropSpaces(s[1..]) != [] ==> DropSpaces(s[1..])[|DropSpaces(s[1..])| - 1] == s[|s| - 1]
  {
    var t := s[1..];
    var k := LeadingRun(t, IsSpace);
    if k == |t| && |s| > 1 {
      assert IsSpace(t[|t| - 1]);
    }
  }

  /** No character is a space other than ' ', and no two spaces are adjacent. */
  ghost predicate SingleSpaced(s: string) {
    && (forall i :: 0 <= i < |s| && IsSpace(s[i]) ==> s[i] == ' ')
    && (forall i, j :: 0 <= i < j < |s| && j == i + 1 ==> !IsSpace(s[i]) || !IsSpace(s[j]))
  }

  /** `re.sub(r'\s+', ' ', s)`: each run of spaces becomes a single ' '. */
  function Collapse(s: string): (r: string)
    ensures SingleSpaced(r)
    ensures r == [] <==> s == []
    ensures r != [] ==> (IsSpace(r[0]) <==> IsSpace(s[0]))
    decreases |s|
  {
    if s == [] then []
    else if IsSpace(s[0]) then [' '] + Collapse(DropSpaces(s[1..]))
    else [s[0]] + Collapse(s[1..])
  }

  /** The collapsed string ends with a space exactly when s ends with whitespace. */
  lemma {:induction false} CollapseEnds(s: string)
    ensures Collapse(s) != [] ==> (IsSpace(Collapse(s)[|Collapse(s)| - 1]) <==> IsSpace(s[|s| - 1]))
    decreases |s|
  {
    if s != [] {
      var r := Collapse(s);
      var t, c;
      if IsSpace(s[0]) {
        t := DropSpaces(s[1..]);
        c := Collapse(t);
        assert r == [' '] + c;
        DropSpacesLast(s);
      } else {
        t := s[1..];
        c := Collapse(t);
        assert r == [s[0]] + c;
      }
      if c == [] {
        assert t == [];
        assert r[|r| - 1] == r[0];
      } else {
        CollapseEnds(t);
        assert r[|r| - 1] == c[|c| - 1];
        assert t[|t| - 1] == s[|s| - 1];
      }
    }
  }

  /** Collapsing the spaces keeps the words: `re.sub(r'\s+', ' ', s).split() == s.split()`. */
  lemma {:induction false} CollapseWords(s: string)
    ensures Words(Collapse(s)) == Words(s)
    decreases |s|
  {
    if s != [] {
      if IsSpace(s[0]) {
        var d := DropSpaces(s[1..]);
        assert ([' '] + Collapse(d))[1..] == Collapse(d);
        CollapseWords(d);
        RunsSkip(s[1..], LeadingRun(s[1..], IsSpace), NotSpace);
      } else {
        CollapseWords(s[1..]);
        RunsCons(s[0], Collapse(s[1..]), NotSpace);
        RunsCons(s[0], s[1..], NotSpace);
        assert s == [s[0]] + s[1..];
      }
    }
  }

  /** A trimmed, single-spaced string is its words joined by single spaces. */
  lemma {:induction false} CleanIsJoin(l: string)
    requires l == [] || (!IsSpace(l[0]) && !IsSpace(l[|l| - 1]) && SingleSpaced(l))
    ensures l == Join(Words(l), " ")
    decreases |l|
  {
    if l != [] {
      var m := LeadingRun(l, NotSpace);
      if m < |l| {
        assert l[m] == ' ' && m + 1 < |l|;
        var rest := l[m + 1..];
        assert l[m..][1..] == rest;
        assert !IsSpace(rest[0]) && !IsSpace(rest[|rest| - 1]);
        CleanIsJoin(rest);
        assert Words(l) == [l[..m]] + Runs(l[m..], NotSpace);
        assert l[m..][0] == l[m];
        assert Runs(l[m..], NotSpace) == Words(rest);
        assert Words(rest) != [];
        assert ([l[..m]] + Words(rest))[1..] == Words(rest);
        assert l == l[..m] + " " + rest;
      } else {
        assert l[..m] == l && l[m..] == [];
        assert Runs(l[m..], NotSpace) == [];
        assert Words(l) == [l];
      }
    }
  }

  lemma {:induction false} CollapseSingleSpaced(s: string)
    requires SingleSpaced(s)
    ensures Collapse(s) == s
    decreases |s|
  {
    if s != [] {
      if IsSpace(s[0]) {
        assert s[1..] == [] || !IsSpace(s[1]);
        assert DropSpaces(s[1..]) == s[1..];
      }
      CollapseSingleSpaced(s[1..]);
    }
  }

  /** `s.replace(c, rep)` for a one-character pattern. */
  function Replace(s: string, c: char, rep: string): (r: string)
    decreases |s|
  {
    if s == [] then []
    else (if s[0] == c then rep else [s[0]]) + Replace(s[1..], c, rep)
  }

  /** Replacing c by a text free of c leaves no c behind. */
  lemma {:induction false} ReplaceRemoves(s: string, c: char, rep: string)
    requires c !in rep
    ensures c !in Replace(s, c, rep)
    decreases |s|
  {
    if s != [] {
      ReplaceRemoves(s[1..], c, rep);
    }
  }

  /** Replacing adds no character that neither s nor the replacement has. */
  lemma {:induction false} ReplaceAddsNothing(s: string, c: char, rep: string, d: char)
    requires d !in s && d !in rep
    ensures d !in Replace(s, c, rep)
    decreases |s|
  {
    if s != [] {
      ReplaceAddsNothing(s[1..], c, rep, d);
    }
  }

  /** Replacing a character that does not occur changes nothing. */
  lemma {:induction false} ReplaceAbsent(s: string, c: char, rep: string)
    requires c !in s
    ensures Replace(s, c, rep) == s
    decreases |s|
  {
    if s != [] {
      ReplaceAbsent(s[1..], c, rep);
    }
  }

  /** The non-empty strings of ns, in their original order. */
  function NonEmpty(ns: seq<string>): (r: seq<string>)
    ensures forall i :: 0 <= i < |r| ==> r[i] != [] && r[i] in ns
  {
    if ns == [] then []
    else (if ns[0] == [] then [] else [ns[0]]) + NonEmpty(ns[1..])
  }

  /** The positions (counted from `off`) of the non-empty strings of ns. */
  function KeptIndices(ns: seq<string>, off: nat): seq<nat> {
    if ns == [] then []
    else (if ns[0] == [] then [] else [off]) + KeptIndices(ns[1..], off + 1)
  }

  /** The k-th kept string is ns at the k-th kept position. */
  lemma {:induction false} NonEmptyAt(ns: seq<string>, off: nat)
    ensures |KeptIndices(ns, off)| == |NonEmpty(ns)|
    ensures forall k :: 0 <= k < |KeptIndices(ns, off)| ==>
      off <= KeptIndices(ns, off)[k] < off + |ns| && NonEmpty(ns)[k] == ns[KeptIndices(ns, off)[k] - off]
  {
    if ns != [] {
      NonEmptyAt(ns[1..], off + 1);
    }
  }

  /** The kept strings, counted from 0: each is ns at its kept position, the
      positions increase, and every other position holds "". */
  lemma KeptOrder(ns: seq<string>)
    ensures var p := KeptIndices(ns, 0);
      && |p| == |NonEmpty(ns)|
      && (forall k :: 0 <= k < |p| ==> p[k] < |ns| && NonEmpty(ns)[k] == ns[p[k]])
      && (forall k, m :: 0 <= k < m < |p| ==> p[k] < p[m])
      && (forall i :: 0 <= i < |ns| && i !in p ==> ns[i] == [])
  {
    var p := KeptIndices(ns, 0);
    NonEmptyAt(ns, 0);
    forall k | 0 <= k < |p| ensures p[k] < |ns| && NonEmpty(ns)[k] == ns[p[k]] {
      var i := KeptIndices(ns, 0)[k];
      assert 0 <= i < |ns| && NonEmpty(ns)[k] == ns[i - 0];
    }
    KeptIndicesIncrease(ns, 0);
    forall i | 0 <= i < |ns| && i !in p ensures ns[i] == [] {
      KeptIndicesComplete(ns, 0);
      assert 0 + i == i;
    }
  }

  /** Kept positions increase. */
  lemma {:induction false} KeptIndicesIncrease(ns: seq<string>, off: nat)
    ensures forall k, m :: 0 <= k < m < |KeptIndices(ns, off)| ==> KeptIndices(ns, off)[k] < KeptIndices(ns, off)[m]
  {
    if ns != [] {
      KeptIndicesIncrease(ns[1..], off + 1);
      NonEmptyAt(ns[1..], off + 1);
    }
  }

  /** Every position that is not kept holds "". */
  lemma {:induction false} KeptIndicesComplete(ns: seq<string>, off: nat)
    ensures forall i :: 0 <= i < |ns| && off + i !in KeptIndices(ns, off) ==> ns[i] == []
  {
    if ns != [] {
      KeptIndicesComplete(ns[1..], off + 1);
      forall i | 0 < i < |ns| && off + i !in KeptIndices(ns, off) ensures ns[i] == [] {
        assert ns[i] == ns[1..][i - 1] && off + 1 + (i - 1) == off + i;
      }
    }
  }
}
