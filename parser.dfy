/** `parse_resume_text` (parser.py lines 178-198): the text is cleaned once
    and every extractor runs on the cleaned text. */
module Parser {
  import opened Optional
  import opened Chars
  import opened Strings
  import opened Order
  import opened Vocabulary
  import opened Clean
  import opened Matching
  import opened Contact
  import opened Name
  import opened Experience
  import opened Keywords

  /** The dictionary `parse_resume_text` returns, one field per key. */
  datatype ParsedResume = ParsedResume(
    name: Option<string>,
    email: Option<string>,
    phone: Option<string>,
    skills: seq<string>,
    skillCategories: map<string, seq<string>>,
    education: seq<string>,
    experienceYears: Option<real>,
    keywords: seq<string>,
    rawText: string)

  /** `parse_resume_text(text)`: the text is cleaned once, and every field
      is what its extractor makes of the cleaned text, with the extractor's
      full contract. The PERSON entities and the tagged tokens are what the
      language model makes of the cleaned text. */
  method ParseResumeText(text: string, entities: seq<Entity>, doc: seq<Token>) returns (r: ParsedResume)
    ensures r.rawText == CleanText(text) && CleanText(r.rawText) == r.rawText
    ensures r.name.Some? ==> 2 <= |Words(r.name.value)| <= 4
    ensures !NoNameLine(NonBlankLines(r.rawText)) ==> r.name.Some? && IsGuess(NonBlankLines(r.rawText), r.name.value)
    ensures NoNameLine(NonBlankLines(r.rawText)) ==>
      && (r.name.None? <==> forall k :: 0 <= k < |entities| ==> !IsPersonName(entities[k]))
      && (r.name.Some? ==> exists k :: 0 <= k < |entities| && IsPersonName(entities[k]) && r.name.value == entities[k].text
                                       && forall j :: 0 <= j < k ==> !IsPersonName(entities[j]))
    ensures (r.email, r.phone) == ExtractContactInfo(r.rawText)
    ensures IsMatchResult(r.skills, r.rawText, SkillsMaster)
    ensures CategorizedUpTo(r.skillCategories, r.rawText, SkillCategories, |SkillCategories|)
    ensures forall x :: x in r.skills <==> exists c :: c in r.skillCategories && x in r.skillCategories[c]
    ensures NoDup(r.education)
    ensures forall x :: x in r.education <==> x in Hits(r.rawText, DegreeKeywords) || x in EducationLines(r.rawText)
    ensures r.experienceYears.Some? ==> 0.0 < r.experienceYears.value && r.experienceYears.value in YearValues(Lower(r.rawText), 0)
    ensures r.experienceYears.None? <==> forall v :: v in YearValues(Lower(r.rawText), 0) ==> v == 0.0
    ensures forall v :: v in YearValues(Lower(r.rawText), 0) && r.experienceYears.Some? ==> v <= r.experienceYears.value
    ensures r.keywords == ResumeKeywords(doc)
  {
    var cleaned := CleanText(text);
    CleanTextIdempotent(text);
    r := ParseCleaned(cleaned, entities, doc);
  }

  /** The extractors of `parse_resume_text`, in the source's order, on the
      cleaned text. */
  method ParseCleaned(cleaned: string, entities: seq<Entity>, doc: seq<Token>) returns (r: ParsedResume)
    ensures r.rawText == cleaned
    ensures r.name.Some? ==> 2 <= |Words(r.name.value)| <= 4
    ensures !NoNameLine(NonBlankLines(r.rawText)) ==> r.name.Some? && IsGuess(NonBlankLines(r.rawText), r.name.value)
    ensures NoNameLine(NonBlankLines(r.rawText)) ==>
      && (r.name.None? <==> forall k :: 0 <= k < |entities| ==> !IsPersonName(entities[k]))
      && (r.name.Some? ==> exists k :: 0 <= k < |entities| && IsPersonName(entities[k]) && r.name.value == entities[k].text
                                       && forall j :: 0 <= j < k ==> !IsPersonName(entities[j]))
    ensures (r.email, r.phone) == ExtractContactInfo(r.rawText)
    ensures IsMatchResult(r.skills, r.rawText, SkillsMaster)
    ensures CategorizedUpTo(r.skillCategories, r.rawText, SkillCategories, |SkillCategories|)
    ensures forall x :: x in r.skills <==> exists c :: c in r.skillCategories && x in r.skillCategories[c]
    ensures NoDup(r.education)
    ensures forall x :: x in r.education <==> x in Hits(r.rawText, DegreeKeywords) || x in EducationLines(r.rawText)
    ensures r.experienceYears.Some? ==> 0.0 < r.experienceYears.value && r.experienceYears.value in YearValues(Lower(r.rawText), 0)
    ensures r.experienceYears.None? <==> forall v :: v in YearValues(Lower(r.rawText), 0) ==> v == 0.0
    ensures forall v :: v in YearValues(Lower(r.rawText), 0) && r.experienceYears.Some? ==> v <= r.experienceYears.value
    ensures r.keywords == ResumeKeywords(doc)
  {
    var name := ExtractName(cleaned, entities);
    var contact := ExtractContactInfo(cleaned);
    var flatSkills := MatchKeywords(cleaned, SkillsMaster);
    var skillCats := CategorizeSkills(cleaned);
    SkillsAreCategorized(cleaned, skillCats);
    var education := ExtractEducation(cleaned);
    var years := ExtractExperienceYears(cleaned);
    var keywords := ExtractResumeKeywords(doc);
    r := ParsedResume(name, contact.0, contact.1, flatSkills, skillCats, education, years, keywords, cleaned);
  }

  /** The flat skill list and the categorised skills agree: a skill is found
      exactly when it is listed under some category. */
  lemma SkillsAreCategorized(text: string, cats: map<string, seq<string>>)
    requires CategorizedUpTo(cats, text, SkillCategories, |SkillCategories|)
    ensures forall x :: x in Hits(text, SkillsMaster) <==> exists c :: c in cats && x in cats[c]
  {
    forall x ensures x in Hits(text, SkillsMaster) <==> exists c :: c in cats && x in cats[c] {
      if x in Hits(text, SkillsMaster) {
        FoundIsCategorized(text, cats, x);
      }
      if c :| c in cats && x in cats[c] {
        CategorizedIsFound(text, cats, x, c);
      }
    }
  }

  lemma FoundIsCategorized(text: string, cats: map<string, seq<string>>, x: string)
    requires CategorizedUpTo(cats, text, SkillCategories, |SkillCategories|)
    requires x in Hits(text, SkillsMaster)
    ensures exists c :: c in cats && x in cats[c]
  {
    var table := SkillCategories;
    var k :| k in SkillsMaster && Contains(Lower(text), Lower(k)) && x == Title(k);
    SkillsMasterSpec();
    var j := CategoryIndex(k, table);
    assert x in Hits(text, table[j].1);
    assert table[j].0 in cats && x in cats[table[j].0];
  }

  lemma CategorizedIsFound(text: string, cats: map<string, seq<string>>, x: string, c: string)
    requires CategorizedUpTo(cats, text, SkillCategories, |SkillCategories|)
    requires c in cats && x in cats[c]
    ensures x in Hits(text, SkillsMaster)
  {
    var table := SkillCategories;
    var j :| 0 <= j < |table| && table[j].0 == c;
    assert x in Hits(text, table[j].1);
    var k :| k in table[j].1 && Contains(Lower(text), Lower(k)) && x == Title(k);
    IndexInCategory(k, table, j);
    SkillsMasterSpec();
  }
}
