/** The fixed vocabularies of the parser: skill categories, the master skill
    list and the degree keywords (parser.py lines 16-30). */
module Vocabulary {
  import opened Chars
  import opened Order

  /** A category name and its skills, in declaration order. */
  type Category = (string, seq<string>)

  const Languages: seq<string> := ["c", "c++", "python", "java", "javascript", "typescript", "go", "php", "ruby"]
  const Frameworks: seq<string> := ["flask", "django", "fastapi", "spring", "react", "angular", "vue", "express"]
  const Databases: seq<string> := ["mysql", "postgresql", "sqlite", "mongodb", "redis"]
  const MlAi: seq<string> := ["numpy", "pandas", "matplotlib", "scikit-learn", "tensorflow", "pytorch", "spacy", "transformers", "opencv", "nlp"]
  const CloudDevOps: seq<string> := ["aws", "gcp", "azure", "docker", "kubernetes", "linux", "git", "github", "gitlab", "ci", "cd"]

  /** `SKILL_CATEGORIES`, in declaration order. */
  const SkillCategories: seq<Category> := [
    ("Languages", Languages),
    ("Frameworks", Frameworks),
    ("Databases", Databases),
    ("ML/AI", MlAi),
    ("Cloud/DevOps", CloudDevOps)
  ]

  /** k is listed in some category. */
  predicate InSomeCategory(k: string, cats: seq<Category>) {
    cats != [] && (k in cats[0].1 || InSomeCategory(k, cats[1..]))
  }

  /** Every skill of every category, in declaration order. */
  function AllSkills(cats: seq<Category>): (r: seq<string>)
    ensures forall k :: k in r <==> InSomeCategory(k, cats)
  {
    if cats == [] then [] else cats[0].1 + AllSkills(cats[1..])
  }

  /** `sorted({s for lst in SKILL_CATEGORIES.values() for s in lst})`. */
  const SkillsMaster: seq<string> := SortedUnique(AllSkills(SkillCategories))

  const DegreeKeywords: seq<string> := [
    "b.tech", "btech", "b.e", "be", "bsc", "b.sc", "bca", "bachelor",
    "m.tech", "mtech", "m.e", "me", "msc", "m.sc", "mca", "master", "mba", "phd"
  ]

  /** The master list is ascending, repetition-free and holds exactly the
      skills of the categories. */
  lemma SkillsMasterSpec()
    ensures StrictlySorted(SkillsMaster)
    ensures forall k :: k in SkillsMaster <==> InSomeCategory(k, SkillCategories)
  {
  }

  /** The categories spelled out: a skill is in some category exactly when
      it is in one of the five lists. */
  lemma CategoryMembers(k: string)
    ensures InSomeCategory(k, SkillCategories) <==>
      k in Languages || k in Frameworks || k in Databases || k in MlAi || k in CloudDevOps
  {
    var c0 := SkillCategories;
    var c1, c2, c3, c4 := c0[1..], c0[2..], c0[3..], c0[4..];
    assert c1[1..] == c2 && c2[1..] == c3 && c3[1..] == c4 && c4[1..] == [];
    assert InSomeCategory(k, c4) <==> k in CloudDevOps;
    assert InSomeCategory(k, c3) <==> k in MlAi || InSomeCategory(k, c4);
    assert InSomeCategory(k, c2) <==> k in Databases || InSomeCategory(k, c3);
    assert InSomeCategory(k, c1) <==> k in Frameworks || InSomeCategory(k, c2);
    assert InSomeCategory(k, c0) <==> k in Languages || InSomeCategory(k, c1);
  }

  lemma LanguagesAndFrameworksLower()
    ensures forall k :: k in Languages || k in Frameworks ==> AllLower(k)
  {
  }

  lemma DatabasesAndMlAiLower()
    ensures forall k :: k in Databases || k in MlAi ==> AllLower(k)
  {
  }

  lemma CloudLower()
    ensures forall k :: k in CloudDevOps ==> AllLower(k)
  {
  }

  lemma DegreesLower()
    ensures forall k :: k in DegreeKeywords ==> AllLower(k)
  {
  }

  /** Every vocabulary entry is already lower-case. */
  lemma VocabularyIsLowerCase()
    ensures forall k :: InSomeCategory(k, SkillCategories) ==> AllLower(k)
    ensures forall k :: k in SkillsMaster ==> AllLower(k)
    ensures forall k :: k in DegreeKeywords ==> AllLower(k)
  {
    LanguagesAndFrameworksLower();
    DatabasesAndMlAiLower();
    CloudLower();
    DegreesLower();
    forall k | InSomeCategory(k, SkillCategories) ensures AllLower(k) {
      CategoryMembers(k);
    }
  }

  /** "c", "go" and "ci" are master skills. */
  lemma ShortSkills()
    ensures "c" in SkillsMaster && "go" in SkillsMaster && "ci" in SkillsMaster
  {
    CategoryMembers("c");
    CategoryMembers("go");
    CategoryMembers("ci");
  }

  /** A skill listed in some category is listed in one of them, at index j. */
  lemma {:induction false} CategoryIndex(k: string, cats: seq<Category>) returns (j: nat)
    requires InSomeCategory(k, cats)
    ensures j < |cats| && k in cats[j].1
  {
    if k in cats[0].1 {
      j := 0;
    } else {
      var j' := CategoryIndex(k, cats[1..]);
      j := j' + 1;
    }
  }

  /** A skill listed in category j is in some category. */
  lemma {:induction false} IndexInCategory(k: string, cats: seq<Category>, j: nat)
    requires j < |cats| && k in cats[j].1
    ensures InSomeCategory(k, cats)
  {
    if j > 0 {
      IndexInCategory(k, cats[1..], j - 1);
    }
  }
}
