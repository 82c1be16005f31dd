/** Vocabulary matching: `match_keywords`, `categorize_skills` and
    `extract_education` (parser.py lines 98-126). All three test whether a
    vocabulary term occurs, case-insensitively, anywhere in the text. */
module Matching {
  import opened Chars
  import opened Strings
  import opened Order
  import opened Vocabulary

  /** The title-cased keywords whose lower-case form occurs in the lower-cased text. */
  ghost function Hits(text: string, keywords: seq<string>): set<string> {
    set k | k in keywords && Contains(Lower(text), Lower(k)) :: Title(k)
  }

  /** What `match_keywords(text, keywords)` returns: the hits, ascending, each once. */
  ghost predicate IsMatchResult(r: seq<string>, text: string, keywords: seq<string>) {
    StrictlySorted(r) && forall x :: x in r <==> x in Hits(text, keywords)
  }

  /** `match_keywords`: every keyword whose lower-case form occurs in the
      lower-cased text, title-cased, de-duplicated and sorted. */
  method MatchKeywords(text: string, keywords: seq<string>) returns (r: seq<string>)
    ensures StrictlySorted(r)
    ensures forall x :: x in r <==> x in Hits(text, keywords)
  {
    var found: seq<string> := [];
    var low := Lower(text);
    for i := 0 to |keywords|
      invariant forall x :: x in found <==> x in Hits(text, keywords[..i])
    {
      var k := keywords[i];
      assert keywords[..i + 1] == keywords[..i] + [k];
      if Contains(low, Lower(k)) {
        found := found + [Title(k)];
      }
    }
    assert keywords[..|keywords|] == keywords;
    r := SortedUnique(found);
  }

  /** Two results of `match_keywords` on the same input are the same list. */
  lemma MatchResultUnique(a: seq<string>, b: seq<string>, text: string, keywords: seq<string>)
    requires IsMatchResult(a, text, keywords) && IsMatchResult(b, text, keywords)
    ensures a == b
  {
    StrictlySortedUnique(a, b);
  }

  /** `[s.title() for s in skills if s in low]`: note the raw skill, not its
      lower-case form, is looked up. */
  function CategoryHits(low: string, skills: seq<string>): (r: seq<string>)
    ensures forall x :: x in r <==> exists s :: s in skills && Contains(low, s) && x == Title(s)
  {
    if skills == [] then []
    else (if Contains(low, skills[0]) then [Title(skills[0])] else []) + CategoryHits(low, skills[1..])
  }

  /** For a lower-case vocabulary the raw lookup finds the same hits as `match_keywords`. */
  lemma CategoryHitsAreMatches(text: string, skills: seq<string>)
    requires forall s :: s in skills ==> AllLower(s)
    ensures forall x :: x in CategoryHits(Lower(text), skills) <==> x in Hits(text, skills)
  {
    forall s | s in skills ensures Lower(s) == s {
      LowerIdentity(s);
    }
  }

  /** `cats` is what `categorize_skills` holds after the first n categories of `table`. */
  ghost predicate CategorizedUpTo(cats: map<string, seq<string>>, text: string, table: seq<Category>, n: nat)
    requires n <= |table|
  {
    && (forall j :: 0 <= j < n ==> (table[j].0 in cats <==> Hits(text, table[j].1) != {}))
    && (forall j :: 0 <= j < n && table[j].0 in cats ==> IsMatchResult(cats[table[j].0], text, table[j].1))
    && (forall name :: name in cats ==> exists j :: 0 <= j < n && table[j].0 == name)
  }

  /** `categorize_skills`: each category that has at least one hit, mapped to
      exactly what `match_keywords` gives for that category's list. */
  method CategorizeSkills(text: string) returns (cats: map<string, seq<string>>)
    ensures CategorizedUpTo(cats, text, SkillCategories, |SkillCategories|)
  {
    var table := SkillCategories;
    CategoryNamesDistinct();
    var low := Lower(text);
    cats := map[];
    for i := 0 to |table|
      invariant CategorizedUpTo(cats, text, table, i)
    {
      var name, skills := table[i].0, table[i].1;
      CategoryIsLowerCase(i);
      CategoryHitsAreMatches(text, skills);
      var hits := CategoryHits(low, skills);
      var next := if hits != [] then cats[name := SortedUnique(hits)] else cats;
      CategorizeStep(cats, next, text, table, i, hits);
      cats := next;
    }
  }

  /** One round of the `categorize_skills` loop. */
  lemma CategorizeStep(cats: map<string, seq<string>>, next: map<string, seq<string>>,
                       text: string, table: seq<Category>, i: nat, hits: seq<string>)
    requires i < |table|
    requires forall j :: 0 <= j < i ==> table[j].0 != table[i].0
    requires forall x :: x in hits <==> x in Hits(text, table[i].1)
    requires next == if hits != [] then cats[table[i].0 := SortedUnique(hits)] else cats
    requires CategorizedUpTo(cats, text, table, i)
    ensures CategorizedUpTo(next, text, table, i + 1)
  {
    if hits != [] {
      assert hits[0] in Hits(text, table[i].1);
      AddCategory(cats, text, table, i, SortedUnique(hits));
    } else {
      assert Hits(text, table[i].1) == {};
      SkipCategory(cats, text, table, i);
    }
  }

  /** Recording the i-th category with its match result. */
  lemma AddCategory(cats: map<string, seq<string>>, text: string, table: seq<Category>, i: nat, found: seq<string>)
    requires i < |table|
    requires forall j :: 0 <= j < i ==> table[j].0 != table[i].0
    requires Hits(text, table[i].1) != {} && IsMatchResult(found, text, table[i].1)
    requires CategorizedUpTo(cats, text, table, i)
    ensures CategorizedUpTo(cats[table[i].0 := found], text, table, i + 1)
  {
    var name := table[i].0;
    var next := cats[name := found];
    assert name !in cats;
  }

  /** Passing over the i-th category when it has no hit. */
  lemma SkipCategory(cats: map<string, seq<string>>, text: string, table: seq<Category>, i: nat)
    requires i < |table|
    requires forall j :: 0 <= j < i ==> table[j].0 != table[i].0
    requires Hits(text, table[i].1) == {}
    requires CategorizedUpTo(cats, text, table, i)
    ensures CategorizedUpTo(cats, text, table, i + 1)
  {
  }

  /** The category names are pairwise different. */
  lemma CategoryNamesDistinct()
    ensures forall i, j :: 0 <= i < j < |SkillCategories| ==> SkillCategories[i].0 != SkillCategories[j].0
  {
  }

  /** Every skill of the i-th category is lower-case. */
  lemma CategoryIsLowerCase(i: nat)
    requires i < |SkillCategories|
    ensures forall s :: s in SkillCategories[i].1 ==> AllLower(s)
  {
    VocabularyIsLowerCase();
    forall s | s in SkillCategories[i].1 ensures AllLower(s) {
      CategoryInList(i, s);
    }
  }

  /** A skill of the i-th category is in some category. */
  lemma CategoryInList(i: nat, s: string)
    requires i < |SkillCategories| && s in SkillCategories[i].1
    ensures InSomeCategory(s, SkillCategories)
  {
    CategoryMembers(s);
  }

  /** `any(d.lower() in ln.lower() for d in DEGREE_KEYWORDS)`. */
  predicate MentionsDegree(ln: string) {
    exists d :: d in DegreeKeywords && Contains(Lower(ln), Lower(d))
  }

  /** `re.search(r'(20|19)\\d{2}', ln)`: in a raw string `\\d{2}` is a literal
      backslash followed by "dd", so this looks for the text `20\dd` or
      `19\dd`, not for a four-digit year. */
  predicate HasYearMarker(ln: string) {
    Contains(ln, "20\\dd") || Contains(ln, "19\\dd")
  }

  /** The stripped lines of ls that mention a degree and carry the year marker. */
  ghost function DegreeLines(ls: seq<string>): set<string> {
    set ln | ln in ls && MentionsDegree(ln) && HasYearMarker(ln) :: Strip(ln)
  }

  /** The stripped lines `extract_education` keeps. */
  ghost function EducationLines(text: string): set<string> {
    DegreeLines(SplitLines(text))
  }

  lemma DegreeLinesSnoc(ls: seq<string>, ln: string)
    ensures DegreeLines(ls + [ln]) ==
      DegreeLines(ls) + if MentionsDegree(ln) && HasYearMarker(ln) then {Strip(ln)} else {}
  {
    assert forall x :: x in ls + [ln] <==> x in ls || x == ln;
  }

  /** `extract_education`: the degree keywords found in the text together
      with the lines that mention a degree and carry the year marker, each
      once. Python returns `list(set(...))`, whose order is unspecified. */
  method ExtractEducation(text: string) returns (r: seq<string>)
    ensures NoDup(r)
    ensures forall x :: x in r <==> x in Hits(text, DegreeKeywords) || x in EducationLines(text)
  {
    var found := MatchKeywords(text, DegreeKeywords);
    var lines := SplitLines(text);
    var eduLines: seq<string> := [];
    for i := 0 to |lines|
      invariant forall x :: x in eduLines <==> x in DegreeLines(lines[..i])
    {
      var ln := lines[i];
      assert lines[..i + 1] == lines[..i] + [ln];
      DegreeLinesSnoc(lines[..i], ln);
      if MentionsDegree(ln) && HasYearMarker(ln) {
        eduLines := eduLines + [Strip(ln)];
      }
    }
    assert lines[..|lines|] == lines;
    r := Distinct(found + eduLines);
    DistinctSpec(found + eduLines);
  }

  /** A text without a backslash contains no pattern with one. */
  lemma NoBackslash(s: string, p: string)
    requires '\\' !in s && '\\' in p
    ensures !Contains(s, p)
  {
    var k :| 0 <= k < |p| && p[k] == '\\';
    forall i: nat ensures !OccursAt(s, p, i) {
      if i + |p| <= |s| {
        assert s[i..i + |p|][k] == s[i + k];
      }
    }
    NotContains(s, p);
  }

  /** A line such as "B.Tech 2019" mentions a degree but is not kept, because
      the year test looks for the literal text `20\dd`. */
  lemma YearMarkerIsLiteral()
    ensures MentionsDegree("B.Tech 2019")
    ensures !HasYearMarker("B.Tech 2019")
    ensures HasYearMarker("B.Tech 20\\dd")
  {
    assert "b.tech" in DegreeKeywords;
    assert Lower("B.Tech 2019") == "b.tech 2019";
    assert Lower("b.tech") == "b.tech";
    assert "b.tech" <= "b.tech 2019";
    assert OccursAt("B.Tech 20\\dd", "20\\dd", 7);
    ContainsAt("B.Tech 20\\dd", "20\\dd", 7);
    NoBackslash("B.Tech 2019", "20\\dd");
    NoBackslash("B.Tech 2019", "19\\dd");
  }
}
