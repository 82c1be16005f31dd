/** `extract_resume_keywords` (parser.py lines 140-148): the distinct noun
    lemmas of at least three letters, in order of first occurrence, at most
    120 of them. The tokens are what the language model makes of the text. */
module Keywords {
  import opened Chars
  import opened Order

  /** A token as the language model tags it: its lemma (`lemmaForm`), its part of speech
      and whether it consists of letters only. */
  datatype Token = Token(lemmaForm: string, pos: string, isAlpha: bool)

  /** `t.pos_ in ("NOUN","PROPN") and t.is_alpha`. */
  predicate IsNoun(t: Token) {
    (t.pos == "NOUN" || t.pos == "PROPN") && t.isAlpha
  }

  /** `[t.lemma_.lower() for t in doc if t.pos_ in ("NOUN","PROPN") and t.is_alpha]`. */
  function NounLemmas(doc: seq<Token>): (r: seq<string>)
    ensures |r| <= |doc|
    ensures forall k :: 0 <= k < |r| ==> AllLower(r[k])
    ensures forall k :: 0 <= k < |r| ==> exists j :: 0 <= j < |doc| && IsNoun(doc[j]) && r[k] == Lower(doc[j].lemmaForm)
    ensures forall j :: 0 <= j < |doc| && IsNoun(doc[j]) ==> Lower(doc[j].lemmaForm) in r
    decreases |doc|
  {
    if doc == [] then []
    else
      var t := doc[|doc| - 1];
      var init := NounLemmas(doc[..|doc| - 1]);
      assert forall j :: 0 <= j < |doc| - 1 ==> doc[..|doc| - 1][j] == doc[j];
      if IsNoun(t) then init + [Lower(t.lemmaForm)] else init
  }

  /** The positions of the tokens the comprehension keeps. */
  function NounIndices(doc: seq<Token>): seq<nat> {
    if doc == [] then []
    else NounIndices(doc[..|doc| - 1]) + if IsNoun(doc[|doc| - 1]) then [|doc| - 1] else []
  }

  /** p lists the positions of the nouns of doc in increasing order, and r
      holds their lower-cased lemmas in the same order. */
  ghost predicate NounMap(doc: seq<Token>, p: seq<nat>, r: seq<string>) {
    && |p| == |r|
    && (forall k :: 0 <= k < |p| ==> p[k] < |doc| && IsNoun(doc[p[k]]) && r[k] == Lower(doc[p[k]].lemmaForm))
    && (forall k, m :: 0 <= k < m < |p| ==> p[k] < p[m])
    && (forall j :: 0 <= j < |doc| && j !in p ==> !IsNoun(doc[j]))
  }

  /** The comprehension keeps document order: lemma k comes from token
      `p[k]`, a noun, the positions `p` increase, and every token left out is
      not a noun. */
  lemma {:induction false} NounLemmasOrder(doc: seq<Token>)
    ensures NounMap(doc, NounIndices(doc), NounLemmas(doc))
  {
    if doc != [] {
      var n := |doc| - 1;
      var init := doc[..n];
      NounLemmasOrder(init);
      NounStep(doc);
      NounMapSnoc(doc, NounIndices(init), NounLemmas(init));
    }
  }

  /** Extending the map by one token. */
  lemma NounMapSnoc(doc: seq<Token>, q: seq<nat>, ri: seq<string>)
    requires doc != [] && NounMap(doc[..|doc| - 1], q, ri)
    ensures var n := |doc| - 1;
      NounMap(doc, q + (if IsNoun(doc[n]) then [n] else []), ri + (if IsNoun(doc[n]) then [Lower(doc[n].lemmaForm)] else []))
  {
    var n := |doc| - 1;
    var init := doc[..n];
    assert forall j :: 0 <= j < n ==> init[j] == doc[j];
    if IsNoun(doc[n]) {
      var p, r := q + [n], ri + [Lower(doc[n].lemmaForm)];
      assert forall k :: 0 <= k < |q| ==> p[k] == q[k] && r[k] == ri[k] && q[k] < n;
      forall j | 0 <= j < |doc| && j !in p ensures !IsNoun(doc[j]) {
        assert j != n && j !in q;
      }
    } else {
      forall j | 0 <= j < |doc| && j !in q ensures !IsNoun(doc[j]) {
        if j < n {
          assert init[j] == doc[j];
        }
      }
    }
  }

  /** One more token: its position is kept exactly when it is a noun. */
  lemma NounStep(doc: seq<Token>)
    requires doc != []
    ensures var n := |doc| - 1; var init := doc[..n];
      && NounIndices(doc) == NounIndices(init) + (if IsNoun(doc[n]) then [n] else [])
      && NounLemmas(doc) == NounLemmas(init) + (if IsNoun(doc[n]) then [Lower(doc[n].lemmaForm)] else [])
      && forall j :: 0 <= j < n ==> init[j] == doc[j]
  {
  }

  /** The tokens of at least three characters, in order. */
  function Long(ts: seq<string>): (r: seq<string>)
    ensures forall k :: 0 <= k < |r| ==> |r[k]| >= 3 && r[k] in ts
    ensures forall t :: t in ts && |t| >= 3 ==> t in r
  {
    if ts == [] then []
    else Long(ts[..|ts| - 1]) + if |ts[|ts| - 1]| >= 3 then [ts[|ts| - 1]] else []
  }

  /** What `extract_resume_keywords` returns. */
  function ResumeKeywords(doc: seq<Token>): seq<string> {
    Take(Distinct(Long(NounLemmas(doc))), 120)
  }

  /** `extract_resume_keywords`. */
  method ExtractResumeKeywords(doc: seq<Token>) returns (r: seq<string>)
    ensures r == ResumeKeywords(doc)
    ensures NoDup(r) && |r| <= 120
    ensures forall k :: 0 <= k < |r| ==> |r[k]| >= 3 && r[k] in NounLemmas(doc) && AllLower(r[k])
    ensures forall t :: t in NounLemmas(doc) && |t| >= 3 && t !in r ==> |r| == 120
  {
    var tokens := NounLemmas(doc);
    var uniq: seq<string> := [];
    for i := 0 to |tokens|
      invariant uniq == Distinct(Long(tokens[..i]))
    {
      var t := tokens[i];
      KeepStep(tokens, i, uniq);
      if |t| >= 3 && t !in uniq {
        uniq := uniq + [t];
      }
    }
    r := Take(uniq, 120);
    KeywordsSpec(tokens, uniq, r);
  }

  /** One round of the loop: the i-th token is appended when it is long
      enough and new. */
  lemma KeepStep(tokens: seq<string>, i: nat, uniq: seq<string>)
    requires i < |tokens| && uniq == Distinct(Long(tokens[..i]))
    ensures Distinct(Long(tokens[..i + 1])) ==
      if |tokens[i]| >= 3 && tokens[i] !in uniq then uniq + [tokens[i]] else uniq
  {
    var ts, t := tokens[..i], tokens[i];
    PrefixSnoc(tokens, i);
    LongSnoc(ts, t);
    var l := Long(ts);
    if |t| >= 3 {
      assert Long(tokens[..i + 1]) == l + [t];
      DistinctSnoc(l, t);
      DistinctHas(l, t);
    } else {
      assert Long(tokens[..i + 1]) == l;
    }
  }

  lemma LongSnoc(ts: seq<string>, t: string)
    ensures Long(ts + [t]) == Long(ts) + if |t| >= 3 then [t] else []
  {
    assert (ts + [t])[..|ts|] == ts;
  }

  lemma DistinctHas(l: seq<string>, t: string)
    ensures t in Distinct(l) <==> t in l
  {
    DistinctSpec(l);
  }

  lemma DistinctSnoc(l: seq<string>, t: string)
    ensures Distinct(l + [t]) == Distinct(l) + if t in l then [] else [t]
  {
    assert (l + [t])[..|l|] == l;
  }

  /** What the cut-off de-duplicated list promises. */
  lemma KeywordsSpec(tokens: seq<string>, uniq: seq<string>, r: seq<string>)
    requires forall k :: 0 <= k < |tokens| ==> AllLower(tokens[k])
    requires uniq == Distinct(Long(tokens[..|tokens|])) && r == Take(uniq, 120)
    ensures r == Take(Distinct(Long(tokens)), 120)
    ensures NoDup(r) && |r| <= 120
    ensures forall k :: 0 <= k < |r| ==> |r[k]| >= 3 && r[k] in tokens && AllLower(r[k])
    ensures forall t :: t in tokens && |t| >= 3 && t !in r ==> |r| == 120
  {
    assert tokens[..|tokens|] == tokens;
    DistinctSpec(Long(tokens));
    KeptFromTokens(tokens, uniq, r);
    KeptUnlessFull(tokens, uniq, r);
  }

  lemma KeptFromTokens(tokens: seq<string>, uniq: seq<string>, r: seq<string>)
    requires forall k :: 0 <= k < |tokens| ==> AllLower(tokens[k])
    requires uniq == Distinct(Long(tokens)) && r == Take(uniq, 120)
    ensures forall k :: 0 <= k < |r| ==> |r[k]| >= 3 && r[k] in tokens && AllLower(r[k])
  {
    DistinctSpec(Long(tokens));
    forall k | 0 <= k < |r| ensures |r[k]| >= 3 && r[k] in tokens && AllLower(r[k]) {
      assert r[k] == uniq[k];
      assert r[k] in Long(tokens);
      var j :| 0 <= j < |tokens| && tokens[j] == r[k];
    }
  }

  lemma KeptUnlessFull(tokens: seq<string>, uniq: seq<string>, r: seq<string>)
    requires uniq == Distinct(Long(tokens)) && r == Take(uniq, 120)
    ensures forall t :: t in tokens && |t| >= 3 && t !in r ==> |r| == 120
  {
    DistinctSpec(Long(tokens));
  }
}
