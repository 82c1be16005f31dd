# Resume parser — a Dafny model of the analysis pipeline

This project models the text-analysis core of a resume screening tool: the
functions of `parser.py` that turn the text of one resume into a candidate
record and score it against a job description. These functions are:

- `clean_text` normalises the text.
- `extract_contact_info` finds the e-mail address and phone number.
- `guess_name_from_lines` and `extract_name` detect the candidate's name.
- `match_keywords`, `categorize_skills` and `extract_education` match the
  text against a fixed vocabulary.
- `extract_experience_years` reads the years of experience.
- `extract_resume_keywords` takes the noun keywords.
- `highlight_jd_keywords` produces the HTML view.
- `compute_ats_score` computes the ATS score.
- `parse_resume_text` puts them together.

Each regular expression of the source is a hand-written ASCII scanner. For
the e-mail, phone and experience patterns the model also states the pattern
declaratively, part by part, and proves that the scanner finds exactly the
match Python's `re` module reports. For the letter-run pattern and for
`str.split()` it proves that the scanner yields exactly the maximal runs.
For `re.sub(r'\s+', ' ', ln)` it proves what the substitution leaves: the
same words, only single spaces, empty exactly when the line is empty, and a
space at the start or the end exactly when the line has whitespace there. Where
the source loops and updates a variable (`match_keywords`,
`categorize_skills`, `extract_education`, `guess_name_from_lines`,
`extract_name`, `extract_experience_years`, `extract_resume_keywords`,
`highlight_jd_keywords`), the model is a method with a loop, proved against
a specification function. `parse_resume_text` is a
method that calls them in the source's order. The rest are functions.

| file | module | models |
|---|---|---|
| `chars.dfy` | `Chars` | ASCII character classes; `str.lower`, `str.title` |
| `strings.dfy` | `Strings` | substring test, `splitlines`, `"\n".join`, `strip`, whitespace collapsing, `replace`, letter runs |
| `order.dfy` | `Order` | Python string order, `sorted(set(..))`, first-occurrence de-duplication, stable sort by descending length, slicing `[:n]` |
| `optional.dfy` | `Optional` | `None` or a value |
| `vocabulary.dfy` | `Vocabulary` | `SKILL_CATEGORIES`, `SKILLS_MASTER`, `DEGREE_KEYWORDS` |
| `clean.dfy` | `Clean` | `clean_text` |
| `matching.dfy` | `Matching` | `match_keywords`, `categorize_skills`, `extract_education` |
| `contact.dfy` | `Contact` | `extract_contact_info` |
| `name.dfy` | `Name` | `guess_name_from_lines`, `extract_name` |
| `experience.dfy` | `Experience` | `extract_experience_years` |
| `keywords.dfy` | `Keywords` | `extract_resume_keywords` |
| `ats.dfy` | `Ats` | `compute_ats_score` |
| `highlight.dfy` | `Highlight` | `highlight_jd_keywords` |
| `parser.dfy` | `Parser` | `parse_resume_text` |

The spaCy language model is not part of this model. Its two outputs become
inputs:

- `extract_name` gets the named entities, each a label and a text.
- `extract_resume_keywords` gets the tagged tokens, each a lemma, a
  part-of-speech tag and an is-alphabetic flag.

Two details of the code are easy to misread. The model follows the code in
the first and leaves the second out:

- **The education year test.** The pattern `(20|19)\\d{2}` at parser.py:124
  is a raw string, so `\\d` is a literal backslash followed by `d`. It
  matches the text `20\dd` or `19\dd`, not a four-digit year.
  `Matching.YearMarkerIsLiteral` shows the consequence: "B.Tech 2019" is not
  kept.
- **Rounding in the ATS score.** The code returns `round(score, 2)`
  (parser.py:175). The model keeps the exact score; see the
  `Ats.ComputeAtsScore` line under "Left out".

## Model

| member | source | states |
|---|---|---|
| Chars.Title | parser.py:70 | `str.title` keeps the length, lower-cases a character that follows a letter and upper-cases every other one |
| Chars.TitlePreservesClasses | parser.py:70 | title-casing keeps the lower-case form and which characters are spaces, digits and letters |
| Vocabulary.AllSkills | parser.py:16-24 | a string is in the flattened category lists exactly when some category lists it |
| Vocabulary.SkillsMasterSpec | parser.py:24 | `SKILLS_MASTER` is strictly ascending, has no repetition, and holds exactly the skills of the categories |
| Vocabulary.CategoryMembers | parser.py:16-22 | a skill is in some category exactly when it is in one of the five lists |
| Vocabulary.VocabularyIsLowerCase | parser.py:16-30 | every category skill, master skill and degree keyword is already lower-case |
| Vocabulary.ShortSkills | parser.py:16-24 | "c", "go" and "ci" are master skills |
| Order.SortedUnique | parser.py:105 | `sorted(set(xs))` is strictly ascending and has exactly the elements of xs |
| Order.StrictlySortedUnique | parser.py:105 | two strictly ascending lists with the same elements are equal |
| Order.DistinctSpec | parser.py:145-147 | first-occurrence de-duplication has no repetition, keeps every element, and keeps the order of first occurrences |
| Order.SortByLengthDesc | parser.py:155 | `sorted(key=len, reverse=True)` gives a permutation whose lengths never increase |
| Order.Take | parser.py:148 | `xs[:n]` is a prefix of xs of length min(n, len(xs)) |
| Strings.SplitLines | parser.py:50 | `splitlines()` yields pieces without line breaks, and yields nothing exactly for the empty text |
| Strings.SplitLinesJoin | parser.py:50 | the lines are the text between the breaks: joined with `"\n"` they give back the text with each break (`\r\n` as one) written as `"\n"` and a final break dropped |
| Strings.SplitLinesJoinNewlines | parser.py:121 | for a text whose only break character is `"\n"`, joining the lines with `"\n"` gives back the text without its final `"\n"` |
| Strings.JoinNewlinesOnly | parser.py:51 | a `"\n"`-join of non-empty break-free lines has `"\n"` as its only break character and does not end with a break |
| Strings.SplitJoin | parser.py:51 | splitting a `"\n"`-join of non-empty lines without line breaks gives the lines back |
| Strings.RunsAt | parser.py:168 | an element of the run list is exactly a maximal run, as `re.findall` with a greedy character class reports it |
| Strings.RunsSound | parser.py:168 | every listed run starts a maximal run and is the whole of it |
| Strings.RunsComplete | parser.py:168 | every maximal run is listed |
| Strings.CleanIsJoin | parser.py:50-51 | a trimmed single-spaced line is its words joined by single spaces |
| Strings.Strip | parser.py:50 | `strip()` returns a slice s[i..j] with only whitespace before i and after j, and no whitespace at either end of the result; it never lengthens, keeps a single-spaced line single-spaced, and changes nothing when neither end is whitespace |
| Strings.StripWords | parser.py:50 | stripping keeps the words of the line (`str.split()`) |
| Strings.Collapse | parser.py:50 | `re.sub(r'\s+', ' ', ln)` leaves no whitespace other than single spaces, is empty exactly when the line is, and starts with a space exactly when the line starts with whitespace |
| Strings.CollapseEnds | parser.py:50 | the collapsed line ends with a space exactly when the line ends with whitespace |
| Strings.CollapseWords | parser.py:50 | `re.sub(r'\s+', ' ', ln)` keeps the words of the line |
| Clean.NormalizeLine | parser.py:50 | a normalised line has the same words as the input line, is single-spaced and has no whitespace at either end |
| Clean.NormalizeIsJoin | parser.py:50 | a normalised line is exactly its words joined by single spaces |
| Clean.KeptLines | parser.py:50-51 | every kept line is non-empty, trimmed and single-spaced |
| Clean.CleanText | parser.py:48-51 | the lines of `clean_text(t)` are exactly the kept lines, in order, its only break character is `"\n"`, and it does not end with one; with `Strings.SplitLinesJoinNewlines` this makes it the `"\n"`-join of the kept lines |
| Clean.NormalizeCleanLine | parser.py:50 | normalising a line that is already clean changes nothing |
| Clean.CleanTextIdempotent | parser.py:48-51 | `clean_text(clean_text(t)) == clean_text(t)` |
| Clean.CleanLinesOrder | parser.py:50-51 | output line k is input line p[k] normalised, the positions p increase, and every dropped input line normalises to "" |
| Matching.MatchKeywords | parser.py:98-105 | the result is strictly ascending, and x is in it exactly when x is the title-case form of a keyword whose lower-case form occurs in the lower-cased text |
| Matching.MatchResultUnique | parser.py:105 | `match_keywords` has only one possible result for a given input |
| Matching.CategoryHits | parser.py:113 | `[s.title() for s in skills if s in low]` holds exactly the title-case forms of the skills occurring in `low` |
| Matching.CategoryHitsAreMatches | parser.py:108-116 | for a lower-case vocabulary, the per-category lookup finds the same hits as `match_keywords` |
| Matching.CategorizeSkills | parser.py:108-116 | a category is present exactly when one of its skills occurs; it is then mapped to exactly `match_keywords` over its list; no other key is present |
| Matching.ExtractEducation | parser.py:119-126 | no repetition; an element is a degree-keyword hit or the stripped form of a line that mentions a degree and holds the year marker, and every such value is present |
| Matching.NoBackslash | parser.py:124 | a text without a backslash never contains the year marker |
| Matching.YearMarkerIsLiteral | parser.py:124 | "B.Tech 2019" mentions a degree but has no year marker; "B.Tech 20\dd" has one |
| Contact.EmailFromSpec | parser.py:55 | the e-mail scanner finds the longest match of `[\w.-]+@[\w.-]+\.\w+` at a given start, or none when there is none |
| Contact.EmailSearch | parser.py:55 | a found start is the first position from i at which the e-mail scanner matches, with that match's end; nothing is found exactly when the scanner matches at no position from i |
| Contact.EmailSearchSpec | parser.py:55 | the search returns the leftmost start that has a match, and the longest match there |
| Contact.FindEmail | parser.py:55-57 | no address exactly when the pattern matches nowhere; otherwise the leftmost match, longest at its start |
| Contact.PhoneTail | parser.py:56 | the greedy `{8,15}` takes the largest repetition count that still leaves a final digit |
| Contact.PhoneFromSpec | parser.py:56 | the phone scanner finds the longest match of `\+?\d[\d\-\s]{8,15}\d` at a given start, or none when there is none |
| Contact.PhoneSearch | parser.py:56 | a found start is the first position from i at which the phone scanner matches, with that match's end; nothing is found exactly when the scanner matches at no position from i |
| Contact.PhoneSearchSpec | parser.py:56 | the search returns the leftmost start that has a match, and the longest match there |
| Contact.FindPhone | parser.py:56-58 | no number exactly when the pattern matches nowhere; otherwise the leftmost match, longest at its start |
| Contact.ExtractContactInfo | parser.py:54-59 | a reported e-mail contains '@'; a reported phone number has 10 to 18 characters |
| Name.ScanLimit | parser.py:65 | `min(10, len(lines))` |
| Name.GuessNameFromLines | parser.py:62-80 | a result is the title-cased first all-caps line among the first ten, or, when there is none, the first title-case line; it has 2-4 words, no digit and no master skill; the result is missing exactly when no line qualifies |
| Name.UpperPassFinds | parser.py:65-71 | the first qualifying all-caps line, title-cased, is the guess |
| Name.TitlePassFinds | parser.py:73-78 | when no all-caps line qualifies, the first title-case line is the guess |
| Name.TitledUpperName | parser.py:70-71 | title-casing a qualifying all-caps line gives 2-4 words with no digit and no master skill |
| Name.LetterCRejects | parser.py:67-68 | a line containing the letter c is rejected by both passes, because "c" is a master skill |
| Name.NonBlankLines | parser.py:85 | the lines handed to the guess are non-empty and stripped |
| Name.NonBlankLinesOrder | parser.py:85 | line k handed to the guess is input line p[k] stripped, the positions p increase, and every skipped line strips to "" |
| Name.ExtractName | parser.py:83-95 | the line-based guess when there is one; otherwise the first PERSON entity of 2-4 words, and nothing exactly when there is no such entity |
| Experience.FracValue | parser.py:132-134 | the digits after the decimal point are worth at least 0 and less than 1 |
| Experience.NumberAtSound | parser.py:132 | what the number scanner reads is a number of the pattern `\d+(?:\.\d+)?`, and its value is the integer digits plus the fraction digits over 10^(count) |
| Experience.NumberAtUnique | parser.py:132 | a number of the pattern that the rest of the pattern can follow is the one the scanner reads, with the same value |
| Experience.FracPow | parser.py:132-134 | the digit-by-digit fraction equals the fraction digits read as an integer over 10^(count) |
| Experience.GapEndSound | parser.py:132 | the gap scanner stops at the end of a gap of the pattern `\s*\+?\s*` |
| Experience.GapEndUnique | parser.py:132 | a gap of the pattern followed by "y" ends where the gap scanner stops |
| Experience.MatchAt | parser.py:132 | a match at p starts with a digit, ends right after "year" or "years", and has a non-negative value |
| Experience.MatchAtSpec | parser.py:132 | the matcher at p finds a match exactly when `(\d+(?:\.\d+)?)\s*\+?\s*years?` matches at p; its value is that of the group, and it takes the longest match, as the greedy engine does |
| Experience.MatchAtLongest | parser.py:132 | every match of the pattern at p is found, with the same value and no longer than the matcher's |
| Experience.YearValues | parser.py:132 | every value `re.finditer` reports is non-negative |
| Experience.ExtractExperienceYears | parser.py:129-137 | the result is one of the reported values and the largest of them, is positive, and is missing exactly when every reported value is 0 |
| Experience.PlusYearsExample | parser.py:132 | "5+ years" reports exactly 5 |
| Experience.FractionExample | parser.py:132 | "2.5 Years" reports exactly 2.5 after lower-casing |
| Keywords.NounLemmas | parser.py:143 | every lemma kept is the lower-cased lemma of a NOUN or PROPN token of letters, and every such token's lemma is kept |
| Keywords.NounLemmasOrder | parser.py:143 | lemma k comes from token p[k], a NOUN or PROPN of letters, the positions p increase, and every token left out is not such a noun |
| Keywords.Long | parser.py:146 | the filter keeps exactly the tokens of length at least 3 |
| Keywords.ExtractResumeKeywords | parser.py:140-148 | the result is the first 120 long noun lemmas without repetition, in order of first occurrence; no repetition; at most 120; each element is a long lower-case lemma of the document; a long lemma is missing only when 120 were kept |
| Keywords.KeepStep | parser.py:145-147 | one round of the loop appends the token exactly when it is long and not yet kept |
| Keywords.KeywordsSpec | parser.py:144-148 | the cut-off de-duplicated list has no repetition, at most 120 elements, only long tokens, and is full whenever a long token is left out |
| Ats.JdTokens | parser.py:167-168 | w is a token exactly when it is a maximal letter run of the lower-cased job description of at least 3 letters; every token is lower-case letters |
| Ats.ScoreExample | parser.py:164-175 | for "Python developer with SQL Linux", one matching keyword scores 80 and adding one matching skill reaches 100 |
| Ats.Score | parser.py:172-174 | the score lies in [0, 100] and is 0 exactly when both overlaps are 0 |
| Ats.ComputeAtsScore | parser.py:164-175 | an empty job description gives zeros; the score lies in [0, 100]; each overlap is at most the number of tokens; the score is 0 exactly when both overlaps are 0 |
| Ats.ScoreMonotone | parser.py:174 | the score never decreases when either overlap grows |
| Ats.AtsMonotone | parser.py:164-175 | more skills and keywords never lower either overlap or the score |
| Ats.ScoreFull | parser.py:174 | the score is capped at 100 once 6·skills + 4·keywords reaches the token count |
| Ats.ScoreCapped | parser.py:174 | the same cap, stated for `compute_ats_score` |
| Highlight.EscapeIsEach | parser.py:157 | the three chained replacements escape each character on its own |
| Highlight.EscapeRoundTrip | parser.py:157 | unescaping the escaped text gives the resume text back |
| Highlight.Escape | parser.py:157 | the escaped text has no '<' or '>' |
| Highlight.EscapedAmpersands | parser.py:157 | every '&' of the escaped text begins `&amp;`, `&lt;` or `&gt;` |
| Highlight.Pieces | parser.py:159 | one `re.sub` round keeps the text, and every wrapped piece equals the token up to case |
| Highlight.MarkText | parser.py:159 | one `re.sub` round renders a split of its input into plain and wrapped pieces, and every wrapped piece equals the token up to case; which pieces are wrapped is stated by `Highlight.MarkedExactly`, and that the tags are all it adds by `Highlight.MarkKeepsText` |
| Highlight.MarkKeepsText | parser.py:159 | dropping the tags of one round gives its input back, so the original case of a match is kept |
| Highlight.NoOverlap | parser.py:159 | two whole-word occurrences of a word of letters never overlap |
| Highlight.MarkedExactly | parser.py:159 | a round wraps exactly the whole-word, case-insensitive occurrences of the token |
| Highlight.MarkAllStep | parser.py:158-159 | each loop round applies one more token to the result of the previous rounds |
| Highlight.MarkTokens | parser.py:156-159 | the loop's result is every token applied in turn, in list order |
| Highlight.JdWords | parser.py:155 | the words are exactly the lower-cased letter runs of length at least 3 |
| Highlight.HighlightTokens | parser.py:155 | every token has at least three letters |
| Highlight.TokensSpec | parser.py:155 | the tokens have no repetition and never increase in length; w is a token exactly when it is a maximal letter run of at least 3 letters of the lower-cased job description; each is lower-case letters |
| Highlight.HighlightJdKeywords | parser.py:151-161 | the page is the escaped resume with the first 200 tokens wrapped in turn and line breaks turned into `<br>` (no escaping for an empty job description); it contains no line break |
| Highlight.PageTokens | parser.py:158 | `tokens[:200]` has at most 200 tokens, each a highlight token of at least three letters |
| Highlight.Highlighted | parser.py:151-161 | the page has no line break left, for an empty job description and otherwise |
| Highlight.EntityIsMarked | parser.py:157-159 | when "amp" is a token, the inside of every `&amp;` is wrapped, so the tags can land inside an entity |
| Parser.ParseResumeText | parser.py:178-198 | the raw text is `clean_text(text)` and is already clean; every field is what its extractor promises for the cleaned text: the name guess or else the first PERSON entity, the contact pair, the skills and their categories (which agree), the education entries, the largest reported experience value, the first 120 keywords |
| Parser.ParseCleaned | parser.py:181-198 | on an already cleaned text, each field is what its extractor promises, with the extractors run in the source's order and the raw text being that cleaned text |
| Parser.SkillsAreCategorized | parser.py:183-184 | a skill is in the flat list exactly when some category lists it |

## Left out

- Text extraction from PDF and DOCX files (parser.py:33-45) is left out. It
  is file I/O through PyMuPDF and python-docx.
- `app.py` and `report.py` are not part of this model. They hold the
  Streamlit interface, file handling, charts and PDF layout.
- spaCy (parser.py:10-13, 90, 142-143) is left out. Loading the language
  model, recognising entities and tagging tokens are replaced by the
  `entities` and `doc` inputs.
- Unicode is left out. Text is ASCII:
  - `\s`, `\w`, `\d`, `\b`, `isupper`, `isdigit`, `lower` and `title`
    follow their ASCII meaning;
  - case-insensitive matching is ASCII case folding.
  - `splitlines` breaks at `\n`, `\r`, `\r\n`, VT, FF and the characters
    28-30; the non-ASCII breaks U+0085, U+2028 and U+2029 are left out.
- Orders that Python leaves to set or dict iteration are not modelled:
  - `extract_education` returns `list(set(..))`, and the model keeps first
    occurrences; its contract states only membership and no repetition;
  - `highlight_jd_keywords` sorts a set (parser.py:155), so the order of
    tokens of equal length depends on Python's string hashing. The model
    orders them by first occurrence in the job description, and the page
    that `Highlight.Highlighted` and `Highlight.HighlightJdKeywords` state
    follows that order. Python's page can differ when one such token is
    "mark": for the job description "mark java" and the resume "java", the
    model gives `<mark>java</mark>`, while Python, taking "java" first,
    also wraps the "mark" inside the new tags;
  - the key order of the `categorize_skills` dictionary is not modelled,
    because it is a map.
- Ats.ComputeAtsScore: the score is the exact real before `round(score, 2)`;
  the final rounding to two decimals is left out.
- Experience.ExtractExperienceYears: numbers are exact reals built from
  their digits, not floats. The `try`/`except` around `float(..)` never
  fires on a matched number, so it is not modelled.
- Highlight.HighlightJdKeywords: well-formed HTML is not claimed. A token
  such as "amp" or "mark" is wrapped inside an entity or inside the tags of
  an earlier round; `Highlight.EntityIsMarked` states the first case.
- Name.ExtractName: `if name:` is modelled as "a guess was found". The
  guess always has two to four words and is never empty, so the two agree.
- Contact.FindEmail and Contact.FindPhone state the leftmost-longest match.
  That is `re.search`'s answer for these two patterns, because each part is
  greedy and backing off never yields a longer match at the same start.
  The model does not include a general regular-expression engine.
