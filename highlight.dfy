/** `highlight_jd_keywords` (parser.py lines 151-161): the resume as HTML,
    every whole-word occurrence of a job-description word wrapped in
    `<mark>` tags, line breaks turned into `<br>`. */
module Highlight {
  import opened Chars
  import opened Strings
  import opened Order

  // ---------------------------------------------------------------- escaping

  /** The entity for one character: `&` `<` `>` become `&amp;` `&lt;` `&gt;`. */
  function EscapeChar(c: char): string {
    if c == '&' then "&amp;" else if c == '<' then "&lt;" else if c == '>' then "&gt;" else [c]
  }

  /** `html.replace("&", "&amp;").replace("<", "&lt;").replace(">", "&gt;")`. */
  function Escape(s: string): (r: string)
    ensures '<' !in r && '>' !in r
  {
    var r2 := Replace(Replace(s, '&', "&amp;"), '<', "&lt;");
    ReplaceRemoves(Replace(s, '&', "&amp;"), '<', "&lt;");
    ReplaceAddsNothing(r2, '>', "&gt;", '<');
    ReplaceRemoves(r2, '>', "&gt;");
    Replace(r2, '>', "&gt;")
  }

  /** Escaping character by character. */
  function EscapeEach(s: string): string {
    if s == [] then [] else EscapeChar(s[0]) + EscapeEach(s[1..])
  }

  lemma {:induction false} ReplaceConcat(a: string, b: string, c: char, rep: string)
    ensures Replace(a + b, c, rep) == Replace(a, c, rep) + Replace(b, c, rep)
    decreases |a|
  {
    if a == [] {
      assert a + b == b;
    } else {
      assert (a + b)[0] == a[0] && (a + b)[1..] == a[1..] + b;
      ReplaceConcat(a[1..], b, c, rep);
    }
  }

  lemma ReplaceOne(c: char, d: char, rep: string)
    ensures Replace([c], d, rep) == if c == d then rep else [c]
  {
    assert [c][1..] == [];
  }

  /** The three chained replacements escape each character on its own: the
      `&` goes first, so the `&` of a later entity is never escaped twice. */
  lemma {:induction false} EscapeIsEach(s: string)
    ensures Escape(s) == EscapeEach(s)
    decreases |s|
  {
    if s != [] {
      assert s == [s[0]] + s[1..];
      EscapeConcat([s[0]], s[1..]);
      EscapeOne(s[0]);
      EscapeIsEach(s[1..]);
    }
  }

  lemma EscapeConcat(a: string, b: string)
    ensures Escape(a + b) == Escape(a) + Escape(b)
  {
    var r1a, r1b := Replace(a, '&', "&amp;"), Replace(b, '&', "&amp;");
    ReplaceConcat(a, b, '&', "&amp;");
    var r2a, r2b := Replace(r1a, '<', "&lt;"), Replace(r1b, '<', "&lt;");
    ReplaceConcat(r1a, r1b, '<', "&lt;");
    ReplaceConcat(r2a, r2b, '>', "&gt;");
  }

  /** One character escaped by the three replacements. */
  lemma EscapeOne(c: char)
    ensures Escape([c]) == EscapeChar(c)
  {
    if c == '&' {
      EscapeAmp(c);
    } else if c == '<' {
      EscapeLt(c);
    } else {
      EscapeOther(c);
    }
  }

  lemma EscapeAmp(c: char)
    requires c == '&'
    ensures Escape([c]) == "&amp;"
  {
    var r1 := Replace([c], '&', "&amp;");
    ReplaceOne(c, '&', "&amp;");
    assert '<' !in r1 && '>' !in r1;
    ReplaceAbsent(r1, '<', "&lt;");
    ReplaceAbsent(r1, '>', "&gt;");
  }

  lemma EscapeLt(c: char)
    requires c == '<'
    ensures Escape([c]) == "&lt;"
  {
    ReplaceOne(c, '&', "&amp;");
    ReplaceOne(c, '<', "&lt;");
    ReplaceAbsent("&lt;", '>', "&gt;");
  }

  lemma EscapeOther(c: char)
    requires c != '&' && c != '<'
    ensures Escape([c]) == EscapeChar(c)
  {
    ReplaceOne(c, '&', "&amp;");
    ReplaceOne(c, '<', "&lt;");
    ReplaceOne(c, '>', "&gt;");
  }

  /** Reading the entities back. */
  function Unescape(e: string): string
    decreases |e|
  {
    if e == [] then []
    else if "&amp;" <= e then "&" + Unescape(e[5..])
    else if "&lt;" <= e then "<" + Unescape(e[4..])
    else if "&gt;" <= e then ">" + Unescape(e[4..])
    else [e[0]] + Unescape(e[1..])
  }

  /** Escaping loses nothing: unescaping gives the resume text back. */
  lemma {:induction false} EscapeRoundTrip(s: string)
    ensures Unescape(Escape(s)) == s
  {
    EscapeIsEach(s);
    EachRoundTrip(s);
  }

  lemma {:induction false} EachRoundTrip(s: string)
    ensures Unescape(EscapeEach(s)) == s
    decreases |s|
  {
    if s != [] {
      var c, rest := s[0], EscapeEach(s[1..]);
      assert EscapeEach(s) == EscapeChar(c) + rest;
      UnescapeStep(c, rest);
      EachRoundTrip(s[1..]);
      assert s == [c] + s[1..];
    }
  }

  /** Unescaping reads one escaped character back. */
  lemma UnescapeStep(c: char, rest: string)
    ensures Unescape(EscapeChar(c) + rest) == [c] + Unescape(rest)
  {
    var e := EscapeChar(c) + rest;
    if c == '&' {
      assert "&amp;" <= e && e[5..] == rest;
    } else if c == '<' {
      assert e[0] == '&' && e[1] == 'l';
      assert "&lt;" <= e && e[4..] == rest;
    } else if c == '>' {
      assert e[0] == '&' && e[1] == 'g';
      assert "&gt;" <= e && e[4..] == rest;
    } else {
      assert e[0] == c && e[1..] == rest;
    }
  }

  /** An entity starts at i. */
  predicate EntityAt(e: string, i: nat)
    requires i <= |e|
  {
    "&amp;" <= e[i..] || "&lt;" <= e[i..] || "&gt;" <= e[i..]
  }

  /** After escaping every `&` begins `&amp;`, `&lt;` or `&gt;`. */
  lemma EscapedAmpersands(s: string)
    ensures forall i :: 0 <= i < |Escape(s)| && Escape(s)[i] == '&' ==> EntityAt(Escape(s), i)
  {
    EscapeIsEach(s);
    EachAmpersands(s);
  }

  lemma {:induction false} EachAmpersands(s: string)
    ensures forall i :: 0 <= i < |EscapeEach(s)| && EscapeEach(s)[i] == '&' ==> EntityAt(EscapeEach(s), i)
    decreases |s|
  {
    if s != [] {
      var c, rest := s[0], EscapeEach(s[1..]);
      var h := EscapeChar(c);
      var e := h + rest;
      assert EscapeEach(s) == e;
      EachAmpersands(s[1..]);
      forall i | 0 <= i < |e| && e[i] == '&' ensures EntityAt(e, i) {
        if i < |h| {
          if c == '&' || c == '<' || c == '>' {
            assert e[i] == h[i];
            assert i == 0;
            assert e[0..] == e;
          } else {
            assert false;
          }
        } else {
          assert e[i..] == rest[i - |h|..];
        }
      }
    }
  }

  // ---------------------------------------------------------------- marking

  /** A piece of the marked text: a character left alone, or an occurrence
      of the word wrapped in tags. */
  datatype Piece = Plain(c: char) | Marked(w: string)

  /** The HTML the pieces stand for. */
  function Render(ps: seq<Piece>): string {
    if ps == [] then []
    else
      (match ps[0]
       case Plain(c) => [c]
       case Marked(w) => "<mark>" + w + "</mark>") + Render(ps[1..])
  }

  /** The text the pieces cover, tags left out. */
  function Text(ps: seq<Piece>): string {
    if ps == [] then []
    else
      (match ps[0]
       case Plain(c) => [c]
       case Marked(w) => w) + Text(ps[1..])
  }

  /** `\b(t)\b` with `(?i)` matches at p: the text there equals the
      lower-case word t up to case, and no word character touches either
      end. */
  predicate WordAt(s: string, t: string, p: nat) {
    && p + |t| <= |s| && Lower(s[p..p + |t|]) == t
    && (p == 0 || !IsWordChar(s[p - 1]))
    && (p + |t| == |s| || !IsWordChar(s[p + |t|]))
  }

  /** `re.sub` scanning from p: a match is wrapped and the scan resumes after
      it, otherwise one character is copied. */
  function Pieces(s: string, t: string, p: nat): (ps: seq<Piece>)
    requires |t| > 0 && p <= |s|
    ensures Text(ps) == s[p..]
    ensures forall k :: 0 <= k < |ps| && ps[k].Marked? ==> Lower(ps[k].w) == t
    decreases |s| - p
  {
    if p == |s| then []
    else if WordAt(s, t, p) then
      var rest := Pieces(s, t, p + |t|);
      PrependPiece(Marked(s[p..p + |t|]), rest, t);
      assert s[p..] == s[p..p + |t|] + s[p + |t|..];
      [Marked(s[p..p + |t|])] + rest
    else
      var rest := Pieces(s, t, p + 1);
      PrependPiece(Plain(s[p]), rest, t);
      assert s[p..] == [s[p]] + s[p + 1..];
      [Plain(s[p])] + rest
  }

  /** One more piece in front: its text comes first, and a wrapped piece
      still equals the word up to case. */
  lemma PrependPiece(x: Piece, rest: seq<Piece>, t: string)
    requires x.Marked? ==> Lower(x.w) == t
    requires forall k :: 0 <= k < |rest| && rest[k].Marked? ==> Lower(rest[k].w) == t
    ensures Text([x] + rest) == (if x.Plain? then [x.c] else x.w) + Text(rest)
    ensures forall k :: 0 <= k < |[x] + rest| && ([x] + rest)[k].Marked? ==> Lower(([x] + rest)[k].w) == t
  {
    assert ([x] + rest)[1..] == rest;
  }

  /** `re.sub(fr'(?i)\b({re.escape(t)})\b', r'<mark>\1</mark>', s)`: the
      rendering of `Pieces(s, t, 0)`. `MarkedExactly` states which pieces are
      wrapped (the whole-word, case-insensitive occurrences of t) and
      `MarkKeepsText` that dropping the tags gives s back. */
  function MarkText(s: string, t: string): (r: string)
    requires |t| > 0
    ensures exists ps: seq<Piece> :: r == Render(ps) && Text(ps) == s && forall k :: 0 <= k < |ps| && ps[k].Marked? ==> Lower(ps[k].w) == t
  {
    var ps := Pieces(s, t, 0);
    assert Text(ps) == s;
    Render(ps)
  }

  /** Wrapping keeps the text, case included: dropping the tags of one round
      gives its input back. */
  lemma MarkKeepsText(s: string, t: string)
    requires |t| > 0
    ensures Text(Pieces(s, t, 0)) == s
  {
  }

  /** Where in the text (counted from off) the marked pieces begin. */
  function MarkStarts(ps: seq<Piece>, off: nat): set<nat> {
    if ps == [] then {}
    else
      var len := match ps[0] case Plain(_) => 1 case Marked(w) => |w|;
      (if ps[0].Marked? then {off} else {}) + MarkStarts(ps[1..], off + len)
  }

  predicate AllLetters(t: string) {
    forall k :: 0 <= k < |t| ==> IsLetter(t[k])
  }

  /** Two whole-word occurrences of a word of letters never overlap. */
  lemma NoOverlap(s: string, t: string, p: nat, q: nat)
    requires AllLetters(t) && WordAt(s, t, p) && p < q < p + |t|
    ensures !WordAt(s, t, q)
  {
    assert Lower(s[p..p + |t|])[q - 1 - p] == LowerChar(s[q - 1]);
    assert IsLetter(t[q - 1 - p]);
  }

  /** The marked pieces of the scan from p begin exactly at the whole-word
      occurrences from p on. */
  ghost predicate MarksWords(s: string, t: string, p: nat)
    requires |t| > 0 && p <= |s|
  {
    forall q: nat :: q in MarkStarts(Pieces(s, t, p), p) <==> p <= q && WordAt(s, t, q)
  }

  /** Where the scan resumes after position p. */
  function Next(s: string, t: string, p: nat): (q: nat)
    requires |t| > 0 && p < |s|
    ensures p < q <= |s|
  {
    if WordAt(s, t, p) then p + |t| else p + 1
  }

  /** Every whole-word occurrence is marked, and nothing else is. */
  lemma {:induction false} MarkedExactly(s: string, t: string, p: nat)
    requires |t| > 0 && AllLetters(t) && p <= |s|
    ensures MarksWords(s, t, p)
    decreases |s| - p
  {
    if p == |s| {
      MarkedAtEnd(s, t);
    } else {
      MarkedExactly(s, t, Next(s, t, p));
      MarkedStep(s, t, p);
    }
  }

  lemma MarkedAtEnd(s: string, t: string)
    requires |t| > 0
    ensures MarksWords(s, t, |s|)
  {
    assert Pieces(s, t, |s|) == [];
  }

  lemma MarkedStep(s: string, t: string, p: nat)
    requires |t| > 0 && AllLetters(t) && p < |s|
    requires MarksWords(s, t, Next(s, t, p))
    ensures MarksWords(s, t, p)
  {
    if WordAt(s, t, p) {
      MarkedAtWord(s, t, p);
    } else {
      MarkedAtPlain(s, t, p);
    }
  }

  /** The step of MarkedExactly where a word starts at p. */
  lemma MarkedAtWord(s: string, t: string, p: nat)
    requires |t| > 0 && AllLetters(t) && p < |s| && WordAt(s, t, p)
    requires MarksWords(s, t, p + |t|)
    ensures MarksWords(s, t, p)
  {
    StartsAtWord(s, t, p);
    var m, m' := MarkStarts(Pieces(s, t, p), p), MarkStarts(Pieces(s, t, p + |t|), p + |t|);
    forall q: nat ensures q in m <==> p <= q && WordAt(s, t, q) {
      assert q in m' <==> p + |t| <= q && WordAt(s, t, q);
      if p < q < p + |t| {
        NoOverlap(s, t, p, q);
      }
    }
  }

  /** The step of MarkedExactly where no word starts at p. */
  lemma MarkedAtPlain(s: string, t: string, p: nat)
    requires |t| > 0 && p < |s| && !WordAt(s, t, p)
    requires MarksWords(s, t, p + 1)
    ensures MarksWords(s, t, p)
  {
    StartsAtPlain(s, t, p);
    var m, m' := MarkStarts(Pieces(s, t, p), p), MarkStarts(Pieces(s, t, p + 1), p + 1);
    forall q: nat ensures q in m <==> p <= q && WordAt(s, t, q) {
      assert q in m' <==> p + 1 <= q && WordAt(s, t, q);
    }
  }

  lemma StartsAtWord(s: string, t: string, p: nat)
    requires |t| > 0 && p < |s| && WordAt(s, t, p)
    ensures MarkStarts(Pieces(s, t, p), p) == {p} + MarkStarts(Pieces(s, t, p + |t|), p + |t|)
  {
    var w, rest := s[p..p + |t|], Pieces(s, t, p + |t|);
    assert Pieces(s, t, p) == [Marked(w)] + rest;
    MarkStartsCons(Marked(w), rest, p);
  }

  lemma StartsAtPlain(s: string, t: string, p: nat)
    requires |t| > 0 && p < |s| && !WordAt(s, t, p)
    ensures MarkStarts(Pieces(s, t, p), p) == MarkStarts(Pieces(s, t, p + 1), p + 1)
  {
    var rest := Pieces(s, t, p + 1);
    assert Pieces(s, t, p) == [Plain(s[p])] + rest;
    MarkStartsCons(Plain(s[p]), rest, p);
  }

  lemma MarkStartsCons(x: Piece, ps: seq<Piece>, off: nat)
    ensures MarkStarts([x] + ps, off) ==
      (if x.Marked? then {off} else {}) + MarkStarts(ps, off + match x case Plain(_) => 1 case Marked(w) => |w|)
  {
    assert ([x] + ps)[1..] == ps;
  }

  /** Marking with each word of ts in turn. */
  function MarkAll(s: string, ts: seq<string>): string
    requires forall k :: 0 <= k < |ts| ==> |ts[k]| > 0
  {
    if ts == [] then s else MarkText(MarkAll(s, ts[..|ts| - 1]), ts[|ts| - 1])
  }

  lemma MarkAllStep(s: string, ts: seq<string>, i: nat)
    requires i < |ts| && forall k :: 0 <= k < |ts| ==> |ts[k]| > 0
    ensures MarkAll(s, ts[..i + 1]) == MarkText(MarkAll(s, ts[..i]), ts[i])
  {
    assert ts[..i + 1][..i] == ts[..i];
  }

  // ---------------------------------------------------------------- the words

  /** `[w.lower() for w in re.findall(r'[a-zA-Z]{3,}', jd)]`: a greedy run of
      three or more letters is exactly a maximal letter run of that length. */
  function JdWords(runs: seq<string>): (r: seq<string>)
    ensures forall k :: 0 <= k < |r| ==> exists j :: 0 <= j < |runs| && |runs[j]| >= 3 && r[k] == Lower(runs[j])
    ensures forall j :: 0 <= j < |runs| && |runs[j]| >= 3 ==> Lower(runs[j]) in r
  {
    if runs == [] then []
    else (if |runs[0]| >= 3 then [Lower(runs[0])] else []) + JdWords(runs[1..])
  }

  /** `sorted({...}, key=len, reverse=True)`. Python leaves the order of
      words of equal length to set iteration; here they keep the order of
      their first occurrence. */
  function HighlightTokens(jd: string): (ts: seq<string>)
    ensures forall k :: 0 <= k < |ts| ==> |ts[k]| >= 3
  {
    LongSurvive(Runs(jd, IsLetter));
    SortByLengthDesc(Distinct(JdWords(Runs(jd, IsLetter))))
  }

  /** De-duplicating and sorting keep only words that were there. */
  lemma LongSurvive(runs: seq<string>)
    ensures forall k :: 0 <= k < |SortByLengthDesc(Distinct(JdWords(runs)))| ==> |SortByLengthDesc(Distinct(JdWords(runs)))[k]| >= 3
  {
    var ws := JdWords(runs);
    DistinctSpec(ws);
    var ts := SortByLengthDesc(Distinct(ws));
    forall k | 0 <= k < |ts| ensures |ts[k]| >= 3 {
      assert ts[k] in multiset(Distinct(ws));
      assert ts[k] in ws;
      var i :| 0 <= i < |ws| && ws[i] == ts[k];
      var j :| 0 <= j < |runs| && |runs[j]| >= 3 && ws[i] == Lower(runs[j]);
    }
  }

  /** A permutation of a repetition-free list is repetition-free. */
  lemma MultisetNoDup(a: seq<string>, b: seq<string>)
    requires multiset(a) == multiset(b) && NoDup(a)
    ensures NoDup(b)
  {
    forall i, j | 0 <= i < j < |b| ensures b[i] != b[j] {
      assert b == b[..j] + b[j..];
      assert b[i] in b[..j] && b[j..][0] == b[j];
      assert multiset(b)[b[i]] >= 1 + if b[j] == b[i] then 1 else 0;
      SingleCount(a, b[i]);
    }
  }

  lemma {:induction false} SingleCount(a: seq<string>, x: string)
    requires NoDup(a)
    ensures multiset(a)[x] <= 1
    decreases |a|
  {
    if a != [] {
      var t := a[1..];
      assert a == [a[0]] + t;
      assert multiset(a) == multiset{a[0]} + multiset(t);
      assert forall j :: 0 <= j < |t| ==> t[j] == a[j + 1];
      if a[0] == x {
        assert x !in t;
      } else {
        SingleCount(t, x);
      }
    }
  }

  /** The words come longest first, each once. */
  lemma TokensOrdered(jd: string)
    ensures NonIncreasingLength(HighlightTokens(jd)) && NoDup(HighlightTokens(jd))
  {
    var ws := JdWords(Runs(jd, IsLetter));
    DistinctSpec(ws);
    MultisetNoDup(Distinct(ws), HighlightTokens(jd));
  }

  /** The words are the lower-case letter runs of three or more letters. */
  lemma TokensMembers(jd: string)
    ensures forall w :: w in HighlightTokens(jd) <==> w in Runs(Lower(jd), IsLetter) && |w| >= 3
  {
    var ws := JdWords(Runs(jd, IsLetter));
    DistinctSpec(ws);
    var ts := HighlightTokens(jd);
    forall w ensures w in ts <==> w in ws {
      assert w in ts <==> w in multiset(ts);
    }
    WordsAreLowerRuns(jd);
  }

  /** Lower-casing each long run of the text gives the long runs of the
      lower-cased text. */
  lemma WordsAreLowerRuns(jd: string)
    ensures forall w :: w in JdWords(Runs(jd, IsLetter)) <==> w in Runs(Lower(jd), IsLetter) && |w| >= 3
  {
    var runs := Runs(jd, IsLetter);
    var lows := Runs(Lower(jd), IsLetter);
    RunsLower(jd);
    assert |lows| == |runs| && forall j :: 0 <= j < |runs| ==> lows[j] == Lower(runs[j]);
    forall w | w in lows && |w| >= 3 ensures w in JdWords(runs) {
      var j :| 0 <= j < |lows| && lows[j] == w;
      assert |runs[j]| >= 3;
    }
    forall w | w in JdWords(runs) ensures w in lows && |w| >= 3 {
      var k :| 0 <= k < |JdWords(runs)| && JdWords(runs)[k] == w;
      var j :| 0 <= j < |runs| && |runs[j]| >= 3 && w == Lower(runs[j]);
      assert lows[j] == w;
    }
  }

  /** The words are the distinct lower-case words of three or more letters
      of the job description, each once, longest first: the same words the
      ATS score counts. */
  lemma TokensSpec(jd: string)
    ensures var ts := HighlightTokens(jd);
      && NonIncreasingLength(ts) && NoDup(ts)
      && (forall w :: w in ts <==> |w| >= 3 && MaximalRun(Lower(jd), w, IsLetter))
      && (forall k :: 0 <= k < |ts| ==> |ts[k]| >= 3 && AllLower(ts[k]) && AllLetters(ts[k]))
  {
    TokensOrdered(jd);
    TokensMembers(jd);
    RunsAt(Lower(jd), IsLetter);
    LowerRunsShape(jd);
    var ts := HighlightTokens(jd);
    forall k | 0 <= k < |ts| ensures |ts[k]| >= 3 && AllLower(ts[k]) && AllLetters(ts[k]) {
      assert ts[k] in ts;
    }
  }

  // ---------------------------------------------------------------- the page

  /** `tokens[:200]`: the words that get marked. */
  function PageTokens(jd: string): (ts: seq<string>)
    ensures |ts| <= 200
    ensures forall k :: 0 <= k < |ts| ==> |ts[k]| >= 3 && ts[k] in HighlightTokens(jd)
  {
    var all := HighlightTokens(jd);
    var ts := Take(all, 200);
    assert forall k :: 0 <= k < |ts| ==> ts[k] == all[k];
    ts
  }

  /** The page `highlight_jd_keywords` returns. */
  function Highlighted(resume: string, jd: string): (r: string)
    ensures '\n' !in r
  {
    if jd == [] then
      ReplaceRemoves(resume, '\n', "<br>");
      Replace(resume, '\n', "<br>")
    else
      var marked := MarkAll(Escape(resume), PageTokens(jd));
      ReplaceRemoves(marked, '\n', "<br>");
      Replace(marked, '\n', "<br>")
  }

  /** `highlight_jd_keywords(resume_text, jd_text)`. */
  method HighlightJdKeywords(resume: string, jd: string) returns (html: string)
    ensures html == Highlighted(resume, jd)
    ensures '\n' !in html
  {
    if jd == [] {
      html := Replace(resume, '\n', "<br>");
      return;
    }
    var tokens := PageTokens(jd);
    html := Escape(resume);
    html := MarkTokens(html, tokens);
    html := Replace(html, '\n', "<br>");
  }

  /** The loop `for t in tokens[:200]: html = re.sub(...)`: each word in turn
      is marked in the result of the previous rounds. */
  method MarkTokens(s: string, ts: seq<string>) returns (html: string)
    requires forall k :: 0 <= k < |ts| ==> |ts[k]| > 0
    ensures html == MarkAll(s, ts)
  {
    html := s;
    for i := 0 to |ts|
      invariant html == MarkAll(s, ts[..i])
    {
      MarkAllStep(s, ts, i);
      html := MarkText(html, ts[i]);
    }
    assert ts[..|ts|] == ts;
  }

  /** Entities are text to the marking: when "amp" is one of the words,
      the inside of every `&amp;` (which escaping produced from an `&`) is
      a whole-word occurrence and gets marked. */
  lemma EntityIsMarked(s: string, i: nat)
    requires i + 5 <= |s| && s[i..i + 5] == "&amp;"
    ensures i + 1 in MarkStarts(Pieces(s, "amp", 0), 0)
  {
    AmpIsWord(s, i);
    MarkedExactly(s, "amp", 0);
  }

  lemma AmpIsWord(s: string, i: nat)
    requires i + 5 <= |s| && s[i..i + 5] == "&amp;"
    ensures WordAt(s, "amp", i + 1)
  {
    var w := s[i..i + 5];
    assert s[i] == w[0] == '&' && s[i + 4] == w[4] == ';';
    assert s[i + 1..i + 4] == [w[1], w[2], w[3]] == "amp";
    LowerIdentity("amp");
  }
}
