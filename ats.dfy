/** `compute_ats_score` (parser.py lines 164-175): how much of a job
    description's vocabulary the resume's skills and keywords cover. */
module Ats {
  import opened Chars
  import opened Strings

  /** The distinct lower-case words of three or more letters of the job
      description: `set(w for w in re.findall('[a-zA-Z]+', jd.lower()) if len(w) >= 3)`. */
  function JdTokens(jd: string): (r: set<string>)
    ensures forall w :: w in r <==> |w| >= 3 && MaximalRun(Lower(jd), w, IsLetter)
    ensures forall w :: w in r ==> AllLower(w) && forall k :: 0 <= k < |w| ==> IsLetter(w[k])
  {
    LowerRunsShape(jd);
    RunsAt(Lower(jd), IsLetter);
    set w | w in Runs(Lower(jd), IsLetter) && |w| >= 3
  }

  /** The score and the two overlap counts. */
  datatype AtsResult = AtsResult(score: real, skillsOverlap: nat, keywordsOverlap: nat)

  /** `(skills * 6 + keywords * 4) / max(1, tokens) * 100`, capped at 100. */
  function Score(skillsOverlap: nat, keywordsOverlap: nat, tokens: nat): (x: real)
    ensures 0.0 <= x <= 100.0
    ensures skillsOverlap == 0 && keywordsOverlap == 0 <==> x == 0.0
  {
    var raw := (skillsOverlap * 6 + keywordsOverlap * 4) as real / (if tokens < 1 then 1 else tokens) as real * 100.0;
    if raw < 100.0 then raw else 100.0
  }

  /** `compute_ats_score(resume_skills, resume_keywords, jd_text)`, before the
      final rounding to two decimals. */
  function ComputeAtsScore(skills: seq<string>, keywords: seq<string>, jd: string): (r: AtsResult)
    ensures jd == [] ==> r == AtsResult(0.0, 0, 0)
    ensures 0.0 <= r.score <= 100.0
    ensures r.skillsOverlap <= |JdTokens(jd)| && r.keywordsOverlap <= |JdTokens(jd)|
    ensures r.score == 0.0 <==> r.skillsOverlap == 0 && r.keywordsOverlap == 0
  {
    if jd == [] then AtsResult(0.0, 0, 0)
    else
      var tokens := JdTokens(jd);
      var lowSkills := set s | s in skills :: Lower(s);
      var kw := set k | k in keywords;
      var a := |lowSkills * tokens|;
      var b := |kw * tokens|;
      SubsetCard(lowSkills * tokens, tokens);
      SubsetCard(kw * tokens, tokens);
      AtsResult(if tokens == {} then 0.0 else Score(a, b, |tokens|), a, b)
  }

  lemma {:induction false} SubsetCard<T>(a: set<T>, b: set<T>)
    requires a <= b
    ensures |a| <= |b|
    decreases |b|
  {
    if a != {} {
      var x :| x in a;
      SubsetCard(a - {x}, b - {x});
    }
  }

  /** The score grows with both overlaps. */
  lemma ScoreMonotone(a: nat, b: nat, a': nat, b': nat, n: nat)
    requires a <= a' && b <= b'
    ensures Score(a, b, n) <= Score(a', b', n)
  {
    var d := (if n < 1 then 1 else n) as real;
    var x, x' := (a * 6 + b * 4) as real, (a' * 6 + b' * 4) as real;
    DivMono(x, x', d);
  }

  lemma DivMono(x: real, y: real, d: real)
    requires 0.0 < d && x <= y
    ensures x / d <= y / d
  {
    assert (y - x) / d >= 0.0;
    assert y / d - x / d == (y - x) / d;
  }

  /** Covering more of the job description never lowers the score: with
      more skills and more keywords, both overlaps and the score can only grow. */
  lemma AtsMonotone(skills: seq<string>, keywords: seq<string>, skills': seq<string>, keywords': seq<string>, jd: string)
    requires forall s :: s in skills ==> s in skills'
    requires forall k :: k in keywords ==> k in keywords'
    ensures var r, r' := ComputeAtsScore(skills, keywords, jd), ComputeAtsScore(skills', keywords', jd);
      r.skillsOverlap <= r'.skillsOverlap && r.keywordsOverlap <= r'.keywordsOverlap && r.score <= r'.score
  {
    if jd != [] {
      var tokens := JdTokens(jd);
      SubsetCard((set s | s in skills :: Lower(s)) * tokens, (set s | s in skills' :: Lower(s)) * tokens);
      SubsetCard((set k | k in keywords) * tokens, (set k | k in keywords') * tokens);
      var r, r' := ComputeAtsScore(skills, keywords, jd), ComputeAtsScore(skills', keywords', jd);
      if tokens != {} {
        ScoreMonotone(r.skillsOverlap, r.keywordsOverlap, r'.skillsOverlap, r'.keywordsOverlap, |tokens|);
      }
    }
  }

  /** The cap: once six points per skill and four per keyword reach the
      number of job-description words, the score is 100. */
  lemma ScoreCapped(skills: seq<string>, keywords: seq<string>, jd: string)
    requires var r := ComputeAtsScore(skills, keywords, jd);
      r.skillsOverlap * 6 + r.keywordsOverlap * 4 >= |JdTokens(jd)| > 0
    ensures ComputeAtsScore(skills, keywords, jd).score == 100.0
  {
    var r := ComputeAtsScore(skills, keywords, jd);
    ScoreFull(r.skillsOverlap, r.keywordsOverlap, |JdTokens(jd)|);
  }

  /** Six points per skill and four per keyword reaching the token count give 100. */
  lemma ScoreFull(a: nat, b: nat, n: nat)
    requires a * 6 + b * 4 >= n > 0
    ensures Score(a, b, n) == 100.0
  {
    var d := n as real;
    var x := (a * 6 + b * 4) as real;
    DivMono(d, x, d);
    assert d / d == 1.0;
  }

  /** A job description of five words: one matching keyword scores 4 / 5 of
      the full 100; adding one matching skill reaches the cap. */
  lemma ScoreExample(jd: string)
    requires jd == "Python developer with SQL Linux"
    ensures ComputeAtsScore([], ["developer"], jd) == AtsResult(80.0, 0, 1)
    ensures ComputeAtsScore(["Python"], ["developer", "team"], jd) == AtsResult(100.0, 1, 1)
  {
    ExampleTokens(jd);
    var tokens := JdTokens(jd);
    ExampleOverlaps(tokens);
  }

  lemma ExampleOverlaps(tokens: set<string>)
    requires tokens == {"python", "developer", "with", "sql", "linux"}
    ensures (set s | s in [] :: Lower(s)) * tokens == {}
    ensures (set s | s in ["Python"] :: Lower(s)) * tokens == {"python"}
    ensures (set k | k in ["developer"]) * tokens == {"developer"}
    ensures (set k | k in ["developer", "team"]) * tokens == {"developer"}
  {
    assert (set s | s in ["Python"] :: Lower(s)) == {"python"} by {
      assert Lower("Python") == "python";
    }
    assert (set k | k in ["developer"]) == {"developer"};
    assert (set k | k in ["developer", "team"]) == {"developer", "team"};
  }

  lemma ExampleTokens(jd: string)
    requires jd == "Python developer with SQL Linux"
    ensures JdTokens(jd) == {"python", "developer", "with", "sql", "linux"}
    ensures |JdTokens(jd)| == 5
  {
    var ws := ["python", "developer", "with", "sql", "linux"];
    ExampleLower(jd);
    ExampleJoin(ws);
    ExampleLetters(ws);
    RunsOfWords(ws);
    LongWordsSet(Runs(Lower(jd), IsLetter));
  }

  lemma LongWordsSet(rs: seq<string>)
    requires rs == ["python", "developer", "with", "sql", "linux"]
    ensures (set w | w in rs && |w| >= 3) == {"python", "developer", "with", "sql", "linux"}
    ensures |{"python", "developer", "with", "sql", "linux"}| == 5
  {
  }

  lemma ExampleLower(jd: string)
    requires jd == "Python developer with SQL Linux"
    ensures Lower(jd) == "python developer with sql linux"
  {
  }

  lemma ExampleJoin(ws: seq<string>)
    requires ws == ["python", "developer", "with", "sql", "linux"]
    ensures Join(ws, " ") == "python developer with sql linux"
  {
    assert Join(ws[4..], " ") == "linux";
    assert ws[3..][1..] == ws[4..];
    assert Join(ws[3..], " ") == "sql linux";
    assert ws[2..][1..] == ws[3..];
    assert Join(ws[2..], " ") == "with sql linux";
    assert ws[1..][1..] == ws[2..];
    assert Join(ws[1..], " ") == "developer with sql linux";
  }

  lemma ExampleLetters(ws: seq<string>)
    requires ws == ["python", "developer", "with", "sql", "linux"]
    ensures forall i :: 0 <= i < |ws| ==> ws[i] != [] && forall k :: 0 <= k < |ws[i]| ==> IsLetter(ws[i][k])
  {
  }

  /** Words of letters joined by single spaces are the runs of the join. */
  lemma {:induction false} RunsOfWords(ws: seq<string>)
    requires forall i :: 0 <= i < |ws| ==> ws[i] != [] && forall k :: 0 <= k < |ws[i]| ==> IsLetter(ws[i][k])
    ensures Runs(Join(ws, " "), IsLetter) == ws
  {
    if |ws| == 1 {
      RunsWord(ws[0], []);
      assert ws[0] + [] == ws[0];
    } else if |ws| > 1 {
      RunsOfWords(ws[1..]);
      RunsWordSpace(ws[0], Join(ws[1..], " "));
    }
  }

  /** A word of letters, a space and the rest: the word is the first run. */
  lemma RunsWordSpace(w: string, rest: string)
    requires w != [] && forall k :: 0 <= k < |w| ==> IsLetter(w[k])
    ensures Runs(w + " " + rest, IsLetter) == [w] + Runs(rest, IsLetter)
  {
    RunsWord(w, " " + rest);
    assert w + " " + rest == w + (" " + rest);
    assert (" " + rest)[1..] == rest;
  }

  /** A word of letters followed by a non-letter is the first run. */
  lemma RunsWord(w: string, rest: string)
    requires w != [] && forall k :: 0 <= k < |w| ==> IsLetter(w[k])
    requires rest == [] || !IsLetter(rest[0])
    ensures Runs(w + rest, IsLetter) == [w] + Runs(rest, IsLetter)
  {
    LeadingWord(w, rest);
    assert (w + rest)[..|w|] == w && (w + rest)[|w|..] == rest;
  }

  lemma {:induction false} LeadingWord(w: string, rest: string)
    requires forall k :: 0 <= k < |w| ==> IsLetter(w[k])
    requires rest == [] || !IsLetter(rest[0])
    ensures LeadingRun(w + rest, IsLetter) == |w|
  {
    if w != [] {
      assert (w + rest)[1..] == w[1..] + rest;
      LeadingWord(w[1..], rest);
    } else {
      assert w + rest == rest;
    }
  }
}
