/**
 * The field extractors of app/services/resume_parser.py and parse_resume.
 * Every extractor takes the text a document library produced; parse_resume
 * takes the text the PDF extractor and the DOCX extractor would return for
 * the file, since reading the file is I/O.
 */
module ResumeParser {
  import opened Wrappers
  import opened Strings
  import opened Patterns
  import Json

  // ---------------------------------------------------------------------
  // extract_email, extract_phone
  // ---------------------------------------------------------------------

  /**
   * extract_email: the match of the email pattern that re.search finds, or
   * "" when there is none. The match is a piece of the text with exactly one
   * '@', which has at least one character on each side.
   */
  function ExtractEmail(text: string): (r: string)
    ensures r == "" <==> forall i: nat, a: nat, e: nat, g: nat :: !EmailAt(text, i, a, e, g)
    ensures r != "" ==> exists i: nat :: OccursAt(text, r, i)
    ensures r != "" ==> exists k: nat :: OneAtSignAt(r, k)
    ensures '@' !in text ==> r == ""
  {
    match FirstEmail(text)
    case None => ""
    case Some((i, m)) =>
      EmailMatchHasOneAtSign(text, i, m);
      text[i..m.end]
  }

  /** s[k] is the only '@' of s, and it has a character on each side. */
  predicate OneAtSignAt(s: string, k: nat) {
    0 < k < |s| - 1 && s[k] == '@' && forall j: nat :: j < |s| && j != k ==> s[j] != '@'
  }

  lemma EmailMatchHasOneAtSign(text: string, i: nat, m: EmailSpan)
    requires EmailAt(text, i, m.at, m.dot, m.end)
    ensures OccursAt(text, text[i..m.end], i)
    ensures OneAtSignAt(text[i..m.end], m.at - i)
    ensures '@' in text
  {
    var r := text[i..m.end];
    assert r[m.at - i] == text[m.at];
    forall j: nat | j < |r| && j != m.at - i ensures r[j] != '@' {
      assert r[j] == text[i + j];
      if i + j < m.at {
        assert IsLocalChar(text[i + j]);
      } else if i + j < m.dot {
        assert IsDomainChar(text[i + j]);
      } else if i + j > m.dot {
        assert IsTldChar(text[i + j]);
      }
    }
  }

  /**
   * extract_phone: the match of the phone pattern that re.search finds, or
   * "". A match holds at least ten digits, so text with fewer gives "".
   */
  function ExtractPhone(text: string): (r: string)
    ensures r == "" <==> forall p: nat, q: nat, t: nat :: !PhoneCoreShape(text, p, q, t)
    ensures r != "" ==> (exists i: nat :: OccursAt(text, r, i)) && CountDigits(r) >= 10
    ensures CountDigits(text) < 10 ==> r == ""
  {
    match PhoneSearch(text, 0)
    case None => ""
    case Some((i, m)) =>
      PhoneMatchDigits(text, i, m);
      CountDigitsSlice(text, i, m.end);
      assert OccursAt(text, text[i..m.end], i);
      text[i..m.end]
  }

  // ---------------------------------------------------------------------
  // extract_name
  // ---------------------------------------------------------------------

  /** The first line whose stripped form is not empty, if any. */
  function FirstNonBlank(lines: seq<string>, from: nat): (r: Option<nat>)
    requires from <= |lines|
    ensures r.Some? ==> from <= r.value < |lines| && Strip(lines[r.value]) != ""
    ensures r.Some? ==> forall j: nat :: from <= j < r.value ==> Strip(lines[j]) == ""
    ensures r.None? ==> forall j: nat :: from <= j < |lines| ==> Strip(lines[j]) == ""
    decreases |lines| - from
  {
    if from == |lines| then None
    else if Strip(lines[from]) != "" then Some(from)
    else FirstNonBlank(lines, from + 1)
  }

  /**
   * The name extract_name reads off a stripped line: the text after the
   * first case-insensitive "Name:" when there is one, else the line itself.
   */
  function NameFromLine(line: string): (r: string)
    requires '\n' !in line
    ensures '\n' !in r
    ensures |r| <= |line| && r == line[|line| - |r|..]
    ensures !Contains(Lower(line), "name:") ==> r == line
  {
    match NameLabelValue(line)
    case Some(v) => v
    case None => line
  }

  /**
   * The name extract_name returns: read off the first non-blank line,
   * stripped, or "" when every line is blank. Only that line is looked at.
   */
  function NameOf(text: string): (r: string)
    ensures '\n' !in r
    ensures FirstNonBlank(Split(text, '\n'), 0).None? ==> r == ""
    ensures FirstNonBlank(Split(text, '\n'), 0).Some? ==>
      var line := Strip(Split(text, '\n')[FirstNonBlank(Split(text, '\n'), 0).value]);
      |r| <= |line| && r == line[|line| - |r|..]
      && (!Contains(Lower(line), "name:") ==> r == line)
  {
    var lines := Split(text, '\n');
    match FirstNonBlank(lines, 0)
    case None => ""
    case Some(k) =>
      assert '\n' !in lines[k];
      StripNoNewline(lines[k]);
      var line := Strip(lines[k]);
      var name := NameFromLine(line);
      assert |name| <= |line| && name == line[|line| - |name|..];
      name
  }

  /** A stripped line of a split on '\n' holds no '\n'. */
  lemma StripNoNewline(line: string)
    requires '\n' !in line
    ensures '\n' !in Strip(line)
  {
    var r := Strip(line);
    assert forall c :: c in r ==> c in line;
  }

  /** extract_name: the loop over the lines returns at the first non-blank one. */
  method ExtractName(text: string) returns (r: string)
    ensures r == NameOf(text)
  {
    var lines := Split(text, '\n');
    var k := 0;
    while k < |lines|
      invariant k <= |lines|
      invariant FirstNonBlank(lines, 0) == FirstNonBlank(lines, k)
    {
      var line := Strip(lines[k]);
      if line != "" {
        StripNoNewline(lines[k]);
        match NameLabelValue(line) {
          case Some(v) => return v;
          case None => return line;
        }
      }
      k := k + 1;
    }
    return "";
  }

  // ---------------------------------------------------------------------
  // extract_skills
  // ---------------------------------------------------------------------

  /** The fixed list extract_skills looks for, in its order. */
  const CommonSkills: seq<string> := [
    "Python", "Java", "JavaScript", "C++", "C#", "Ruby", "PHP",
    "HTML", "CSS", "SQL", "React", "Angular", "Vue", "Node.js",
    "Django", "Flask", "Spring", "Docker", "Kubernetes", "AWS",
    "Azure", "GCP", "Git", "Linux", "Windows", "MacOS",
    "Machine Learning", "AI", "Data Science", "DevOps", "Agile",
    "Scrum", "Project Management", "Team Leadership"
  ]

  predicate NoDuplicates<T(==)>(xs: seq<T>) {
    forall i, j :: 0 <= i < j < |xs| ==> xs[i] != xs[j]
  }

  /** xs is ys with some elements left out, in the order of ys. */
  predicate SubsequenceOf<T(==)>(xs: seq<T>, ys: seq<T>)
    decreases |ys|
  {
    xs == [] || (ys != [] && ((xs[0] == ys[0] && SubsequenceOf(xs[1..], ys[1..])) || SubsequenceOf(xs, ys[1..])))
  }

  /**
   * How a skill is looked for: AsWritten is the search extract_skills runs,
   * `\b` + re.escape(skill) + `\b` ignoring case; Standalone is the
   * corrected test, the skill with no word character on either side.
   */
  datatype Matcher = AsWritten | Standalone

  /** The text mentions w, by matcher m. */
  predicate Mentions(m: Matcher, text: string, w: string) {
    match m
    case AsWritten => MentionedAsWrittenFrom(text, w, 0)
    case Standalone => MentionedFrom(text, w, 0)
  }

  /** The candidates that text mentions by matcher m, in candidate order. */
  function SkillsIn(candidates: seq<string>, text: string, m: Matcher): seq<string>
    decreases |candidates|
  {
    if candidates == [] then []
    else
      var rest := SkillsIn(candidates[1..], text, m);
      if Mentions(m, text, candidates[0]) then [candidates[0]] + rest else rest
  }

  /** A candidate is reported exactly when the text mentions it, and no more are reported than there are candidates. */
  lemma {:induction false} SkillsInMembers(candidates: seq<string>, text: string, m: Matcher)
    ensures forall w :: w in SkillsIn(candidates, text, m) <==> w in candidates && Mentions(m, text, w)
    ensures |SkillsIn(candidates, text, m)| <= |candidates|
    decreases |candidates|
  {
    if candidates != [] {
      SkillsInMembers(candidates[1..], text, m);
      assert candidates == [candidates[0]] + candidates[1..];
    }
  }

  /** The skills reported keep the order of the candidates, and a list without repeats gives a result without repeats. */
  lemma {:induction false} SkillsInOrder(candidates: seq<string>, text: string, m: Matcher)
    ensures SubsequenceOf(SkillsIn(candidates, text, m), candidates)
    ensures NoDuplicates(candidates) ==> NoDuplicates(SkillsIn(candidates, text, m))
    decreases |candidates|
  {
    if candidates != [] {
      var rest := SkillsIn(candidates[1..], text, m);
      SkillsInOrder(candidates[1..], text, m);
      if NoDuplicates(candidates) && Mentions(m, text, candidates[0]) {
        SkillsInMembers(candidates[1..], text, m);
        assert NoDuplicates(candidates[1..]);
        forall j | 0 <= j < |rest| ensures rest[j] != candidates[0] {
          assert rest[j] in rest;
        }
      }
    }
  }

  /** extract_skills as written: one pass over the list with the `\b` search. */
  method ExtractSkills(text: string) returns (skills: seq<string>)
    ensures skills == SkillsIn(CommonSkills, text, AsWritten)
  {
    skills := ScanSkills(CommonSkills, text, AsWritten);
  }

  /** extract_skills with the corrected standalone test. */
  method ExtractSkillsFixed(text: string) returns (skills: seq<string>)
    ensures skills == SkillsIn(CommonSkills, text, Standalone)
  {
    skills := ScanSkills(CommonSkills, text, Standalone);
  }

  /** The loop of extract_skills over a list of candidate skills. */
  method ScanSkills(candidates: seq<string>, text: string, m: Matcher) returns (skills: seq<string>)
    ensures skills == SkillsIn(candidates, text, m)
  {
    skills := [];
    var k := 0;
    while k < |candidates|
      invariant k <= |candidates|
      invariant skills + SkillsIn(candidates[k..], text, m) == SkillsIn(candidates, text, m)
    {
      var skill := candidates[k];
      ghost var before := skills;
      var found := if m == AsWritten then MentionedAsWrittenFrom(text, skill, 0) else MentionedFrom(text, skill, 0);
      if found {
        skills := skills + [skill];
      }
      ScanSkillsStep(candidates, text, m, k, before, skills);
      k := k + 1;
    }
    assert candidates[k..] == [];
  }

  /** One step of the scan keeps its invariant: the candidate at k is kept exactly when the text mentions it. */
  lemma ScanSkillsStep(candidates: seq<string>, text: string, m: Matcher, k: nat, before: seq<string>, after: seq<string>)
    requires k < |candidates| && before + SkillsIn(candidates[k..], text, m) == SkillsIn(candidates, text, m)
    requires after == before + if Mentions(m, text, candidates[k]) then [candidates[k]] else []
    ensures after + SkillsIn(candidates[k + 1..], text, m) == SkillsIn(candidates, text, m)
  {
    var c := candidates[k..];
    assert c[0] == candidates[k] && c[1..] == candidates[k + 1..];
    SkillsInCons(c, text, m);
    AppendStep(before, after, if Mentions(m, text, candidates[k]) then [candidates[k]] else [],
               SkillsIn(candidates[k + 1..], text, m), SkillsIn(c, text, m), SkillsIn(candidates, text, m));
  }

  /** Moving keep from the unscanned part to the scanned part keeps their concatenation. */
  lemma AppendStep<T>(before: seq<T>, after: seq<T>, keep: seq<T>, rest: seq<T>, unscanned: seq<T>, whole: seq<T>)
    requires before + unscanned == whole && unscanned == keep + rest && after == before + keep
    ensures after + rest == whole
  {
    assert after + rest == before + (keep + rest);
  }

  /** SkillsIn keeps or drops the first candidate, then goes on with the rest. */
  lemma SkillsInCons(c: seq<string>, text: string, m: Matcher)
    requires c != []
    ensures SkillsIn(c, text, m) == (if Mentions(m, text, c[0]) then [c[0]] else []) + SkillsIn(c[1..], text, m)
  {
  }

  /**
   * Where w stands in CommonSkills, told apart by its length and its first
   * two characters; 34 for anything else.
   */
  function SkillPosition(w: string): nat
  {
    if |w| < 2 then 34
    else if |w| == 6 && w[0] == 'P' && w[1] == 'y' then 0
    else if |w| == 4 && w[0] == 'J' && w[1] == 'a' then 1
    else if |w| == 10 && w[0] == 'J' && w[1] == 'a' then 2
    else if |w| == 3 && w[0] == 'C' && w[1] == '+' then 3
    else if |w| == 2 && w[0] == 'C' && w[1] == '#' then 4
    else if |w| == 4 && w[0] == 'R' && w[1] == 'u' then 5
    else if |w| == 3 && w[0] == 'P' && w[1] == 'H' then 6
    else if |w| == 4 && w[0] == 'H' && w[1] == 'T' then 7
    else if |w| == 3 && w[0] == 'C' && w[1] == 'S' then 8
    else if |w| == 3 && w[0] == 'S' && w[1] == 'Q' then 9
    else if |w| == 5 && w[0] == 'R' && w[1] == 'e' then 10
    else if |w| == 7 && w[0] == 'A' && w[1] == 'n' then 11
    else if |w| == 3 && w[0] == 'V' && w[1] == 'u' then 12
    else if |w| == 7 && w[0] == 'N' && w[1] == 'o' then 13
    else if |w| == 6 && w[0] == 'D' && w[1] == 'j' then 14
    else if |w| == 5 && w[0] == 'F' && w[1] == 'l' then 15
    else if |w| == 6 && w[0] == 'S' && w[1] == 'p' then 16
    else if |w| == 6 && w[0] == 'D' && w[1] == 'o' then 17
    else if |w| == 10 && w[0] == 'K' && w[1] == 'u' then 18
    else if |w| == 3 && w[0] == 'A' && w[1] == 'W' then 19
    else if |w| == 5 && w[0] == 'A' && w[1] == 'z' then 20
    else if |w| == 3 && w[0] == 'G' && w[1] == 'C' then 21
    else if |w| == 3 && w[0] == 'G' && w[1] == 'i' then 22
    else if |w| == 5 && w[0] == 'L' && w[1] == 'i' then 23
    else if |w| == 7 && w[0] == 'W' && w[1] == 'i' then 24
    else if |w| == 5 && w[0] == 'M' && w[1] == 'a' then 25
    else if |w| == 16 && w[0] == 'M' && w[1] == 'a' then 26
    else if |w| == 2 && w[0] == 'A' && w[1] == 'I' then 27
    else if |w| == 12 && w[0] == 'D' && w[1] == 'a' then 28
    else if |w| == 6 && w[0] == 'D' && w[1] == 'e' then 29
    else if |w| == 5 && w[0] == 'A' && w[1] == 'g' then 30
    else if |w| == 5 && w[0] == 'S' && w[1] == 'c' then 31
    else if |w| == 18 && w[0] == 'P' && w[1] == 'r' then 32
    else if |w| == 15 && w[0] == 'T' && w[1] == 'e' then 33
    else 34
  }

  lemma CommonSkillsDistinct()
    ensures |CommonSkills| == 34
    ensures NoDuplicates(CommonSkills)
  {
    SkillPositionsLow();
    SkillPositionsHigh();
    assert forall i :: 0 <= i < |CommonSkills| ==> SkillPosition(CommonSkills[i]) == i;
  }

  lemma SkillPositionsLow()
    ensures forall i :: 0 <= i < 17 ==> SkillPosition(CommonSkills[i]) == i
  {
  }

  lemma SkillPositionsHigh()
    ensures forall i :: 17 <= i < |CommonSkills| ==> SkillPosition(CommonSkills[i]) == i
  {
  }

  /** No listed skill is empty, and none needs an escape in JSON. */
  lemma CommonSkillsPlain()
    ensures forall k :: 0 <= k < |CommonSkills| ==> CommonSkills[k] != "" && Json.AllPlain(CommonSkills[k])
  {
    forall k | 0 <= k < |CommonSkills|
      ensures CommonSkills[k] != "" && Json.AllPlain(CommonSkills[k])
    {
      if k < 9 { SkillsPlainFrom0(k); }
      else if k < 18 { SkillsPlainFrom9(k); }
      else if k < 26 { SkillsPlainFrom18(k); }
      else if k < 30 { SkillsPlainFrom26(k); }
      else { SkillsPlainFrom30(k); }
    }
  }

  lemma SkillsPlainFrom0(k: nat)
    requires k < 9
    ensures CommonSkills[k] != "" && Json.AllPlain(CommonSkills[k])
  {
  }

  lemma SkillsPlainFrom9(k: nat)
    requires 9 <= k < 18
    ensures CommonSkills[k] != "" && Json.AllPlain(CommonSkills[k])
  {
  }

  lemma SkillsPlainFrom18(k: nat)
    requires 18 <= k < 26
    ensures CommonSkills[k] != "" && Json.AllPlain(CommonSkills[k])
  {
  }

  lemma SkillsPlainFrom26(k: nat)
    requires 26 <= k < 30
    ensures CommonSkills[k] != "" && Json.AllPlain(CommonSkills[k])
  {
  }

  lemma SkillsPlainFrom30(k: nat)
    requires 30 <= k < |CommonSkills|
    ensures CommonSkills[k] != "" && Json.AllPlain(CommonSkills[k])
  {
  }

  /** Empty text mentions no term, by either matcher. */
  lemma NothingMentionedInEmptyText(w: string, m: Matcher)
    requires w != ""
    ensures !Mentions(m, "", w)
  {
    assert !StandaloneAt("", w, 0) && !WordAtAsWritten("", w, 0);
  }

  /**
   * The skills extract_skills reports, by either matcher: at most 34, no
   * skill twice, in list order, none for empty text.
   */
  lemma ExtractedSkillsShape(text: string, m: Matcher)
    ensures var r := SkillsIn(CommonSkills, text, m);
      |r| <= 34 && NoDuplicates(r) && SubsequenceOf(r, CommonSkills)
      && (text == "" ==> r == [])
  {
    CommonSkillsDistinct();
    SkillsInMembers(CommonSkills, text, m);
    SkillsInOrder(CommonSkills, text, m);
    var r := SkillsIn(CommonSkills, text, m);
    if text == "" && r != [] {
      CommonSkillsPlain();
      assert r[0] in CommonSkills;
      NothingMentionedInEmptyText(r[0], m);
      assert false;
    }
  }

  /**
   * As written, `\bC\+\+\b` needs a word character right after "C++", so a
   * résumé whose text is just "C++" does not list C++, while the intended
   * standalone match does.
   */
  lemma CppMissedAsWritten()
    ensures !Mentions(AsWritten, "C++", "C++")
    ensures Mentions(Standalone, "C++", "C++")
  {
    assert StandaloneAt("C++", "C++", 0);
    assert !WordAtAsWritten("C++", "C++", 0);
    forall j: nat | 0 < j ensures !WordAtAsWritten("C++", "C++", j) {
    }
  }

  /**
   * The other side of the same pattern: as written, "C++" is found in
   * "C++11", because `\b` holds between '+' and '1'; the standalone test
   * does not count it there.
   */
  lemma CppFoundInVersionAsWritten()
    ensures Mentions(AsWritten, "C++11", "C++")
    ensures !Mentions(Standalone, "C++11", "C++")
  {
    assert WordAtAsWritten("C++11", "C++", 0);
    assert !StandaloneAt("C++11", "C++", 0);
    forall j: nat | 0 < j ensures !StandaloneAt("C++11", "C++", j) {
      if j + 3 <= 5 {
        assert Lower("C++11"[j..j + 3])[0] == LowerChar("C++11"[j]);
      }
    }
  }

  /** For every listed skill but "C++" and "C#", the two matchers agree. */
  lemma SkillsAgreeAsWritten(text: string, k: nat)
    requires k < |CommonSkills| && CommonSkills[k] != "C++" && CommonSkills[k] != "C#"
    ensures Mentions(Standalone, text, CommonSkills[k]) == Mentions(AsWritten, text, CommonSkills[k])
  {
    var w := CommonSkills[k];
    if k < 17 { SkillEdgesLow(k); } else { SkillEdgesHigh(k); }
    forall j: nat ensures StandaloneAt(text, w, j) == WordAtAsWritten(text, w, j) {
      StandaloneAgreesAsWritten(text, w, j);
    }
  }

  /**
   * extract_skills as written and corrected report the same skills apart
   * from "C++" and "C#".
   */
  lemma SkillListsAgreeAsWritten(text: string)
    ensures forall w :: w != "C++" && w != "C#" ==>
      (w in SkillsIn(CommonSkills, text, AsWritten) <==> w in SkillsIn(CommonSkills, text, Standalone))
  {
    SkillsInMembers(CommonSkills, text, AsWritten);
    SkillsInMembers(CommonSkills, text, Standalone);
    forall w | w in CommonSkills && w != "C++" && w != "C#"
      ensures Mentions(AsWritten, text, w) == Mentions(Standalone, text, w)
    {
      var k :| 0 <= k < |CommonSkills| && CommonSkills[k] == w;
      SkillsAgreeAsWritten(text, k);
    }
  }

  lemma SkillEdgesLow(k: nat)
    requires k < 17 && CommonSkills[k] != "C++" && CommonSkills[k] != "C#"
    ensures CommonSkills[k] != "" && IsAsciiAlnum(CommonSkills[k][0])
    ensures IsAsciiAlnum(CommonSkills[k][|CommonSkills[k]| - 1])
  {
  }

  lemma SkillEdgesHigh(k: nat)
    requires 17 <= k < |CommonSkills|
    ensures CommonSkills[k] != "" && IsAsciiAlnum(CommonSkills[k][0])
    ensures IsAsciiAlnum(CommonSkills[k][|CommonSkills[k]| - 1])
  {
  }

  // ---------------------------------------------------------------------
  // extract_education, extract_experience
  // ---------------------------------------------------------------------

  const EducationKeywords: seq<string> := ["education", "academic background", "qualification", "degree"]
  const EducationStops: seq<string> := ["experience", "employment", "work history"]
  const ExperienceKeywords: seq<string> := ["experience", "employment", "work history"]
  const ExperienceStops: seq<string> := ["education", "skills", "references"]

  /** any(keyword in line.lower() for keyword in keywords) */
  predicate MentionsAny(line: string, keywords: seq<string>)
    decreases |keywords|
  {
    keywords != [] && (Contains(Lower(line), keywords[0]) || MentionsAny(line, keywords[1..]))
  }

  /** A line that ends the capture: not a header, not blank, and naming a stop keyword. */
  predicate IsStopLine(line: string, keywords: seq<string>, stops: seq<string>) {
    !MentionsAny(line, keywords) && Strip(line) != "" && MentionsAny(line, stops)
  }

  /** The last header line before index b. */
  function LastHeaderBefore(lines: seq<string>, keywords: seq<string>, b: nat): (r: Option<nat>)
    requires b <= |lines|
    ensures r.Some? ==> r.value < b && MentionsAny(lines[r.value], keywords)
    ensures r.Some? ==> forall j: nat :: r.value < j < b ==> !MentionsAny(lines[j], keywords)
    ensures r.None? ==> forall j: nat :: j < b ==> !MentionsAny(lines[j], keywords)
  {
    if b == 0 then None
    else if MentionsAny(lines[b - 1], keywords) then Some(b - 1)
    else LastHeaderBefore(lines, keywords, b - 1)
  }

  /** The first stop line at or after index from, or |lines| when there is none. */
  function StopFrom(lines: seq<string>, keywords: seq<string>, stops: seq<string>, from: nat): (r: nat)
    requires from <= |lines|
    ensures from <= r <= |lines|
    ensures r < |lines| ==> IsStopLine(lines[r], keywords, stops)
    ensures forall j: nat :: from <= j < r ==> !IsStopLine(lines[j], keywords, stops)
    decreases |lines| - from
  {
    if from == |lines| || IsStopLine(lines[from], keywords, stops) then from
    else StopFrom(lines, keywords, stops, from + 1)
  }

  /**
   * The section started by the header line lines[h], after reading
   * lines[..until]: the header line, then every non-blank line after it,
   * each followed by a newline.
   */
  function SectionFrom(lines: seq<string>, h: nat, until: nat): string
    requires h < until <= |lines|
    decreases until
  {
    if until == h + 1 then lines[h] + "\n"
    else SectionFrom(lines, h, until - 1) + (if Strip(lines[until - 1]) != "" then lines[until - 1] + "\n" else "")
  }

  /** The first header line at or after index from. */
  function FirstHeaderFrom(lines: seq<string>, keywords: seq<string>, from: nat): (r: Option<nat>)
    requires from <= |lines|
    ensures r.Some? ==> from <= r.value < |lines| && MentionsAny(lines[r.value], keywords)
    ensures r.Some? ==> forall j: nat :: from <= j < r.value ==> !MentionsAny(lines[j], keywords)
    ensures r.None? ==> forall j: nat :: from <= j < |lines| ==> !MentionsAny(lines[j], keywords)
    decreases |lines| - from
  {
    if from == |lines| then None
    else if MentionsAny(lines[from], keywords) then Some(from)
    else FirstHeaderFrom(lines, keywords, from + 1)
  }

  /**
   * Where the capture loop stops: at the first stop line after the first
   * header line, or at the end.
   */
  function CaptureEnd(lines: seq<string>, keywords: seq<string>, stops: seq<string>): (r: nat)
    ensures r <= |lines|
  {
    match FirstHeaderFrom(lines, keywords, 0)
    case None => |lines|
    case Some(first) => StopFrom(lines, keywords, stops, first + 1)
  }

  /**
   * The section as the loop holds it after reading lines[..k]: the last
   * header line so far, then every non-blank line after it. "" before any
   * header.
   */
  function Partial(lines: seq<string>, keywords: seq<string>, k: nat): string
    requires k <= |lines|
  {
    match LastHeaderBefore(lines, keywords, k)
    case None => ""
    case Some(h) => SectionFrom(lines, h, k)
  }

  /**
   * What the capture loop builds, before the final strip: the last header
   * line before the capture ends, then every non-blank line between it and
   * the end. "" when no line is a header.
   */
  function CaptureRef(lines: seq<string>, keywords: seq<string>, stops: seq<string>): string
  {
    Partial(lines, keywords, CaptureEnd(lines, keywords, stops))
  }

  /** One more line read: a header restarts the section, a non-blank line after a header is appended. */
  lemma PartialStep(lines: seq<string>, keywords: seq<string>, k: nat)
    requires k < |lines|
    ensures MentionsAny(lines[k], keywords) ==> Partial(lines, keywords, k + 1) == lines[k] + "\n"
    ensures !MentionsAny(lines[k], keywords) && LastHeaderBefore(lines, keywords, k).Some? && Strip(lines[k]) != "" ==>
      Partial(lines, keywords, k + 1) == Partial(lines, keywords, k) + lines[k] + "\n"
    ensures !MentionsAny(lines[k], keywords) && (LastHeaderBefore(lines, keywords, k).None? || Strip(lines[k]) == "") ==>
      Partial(lines, keywords, k + 1) == Partial(lines, keywords, k)
  {
    var line := lines[k];
    var last := LastHeaderBefore(lines, keywords, k);
    if MentionsAny(line, keywords) {
      assert LastHeaderBefore(lines, keywords, k + 1) == Some(k);
    } else if last.Some? {
      assert LastHeaderBefore(lines, keywords, k + 1) == last;
      if Strip(line) == "" {
        assert SectionFrom(lines, last.value, k + 1) == SectionFrom(lines, last.value, k) + "";
      }
    } else {
      assert LastHeaderBefore(lines, keywords, k + 1).None?;
    }
  }

  /** A header line lies below k exactly when the first header line does. */
  lemma HeaderBelow(lines: seq<string>, keywords: seq<string>, k: nat)
    requires k <= |lines|
    ensures LastHeaderBefore(lines, keywords, k).Some?
      <==> FirstHeaderFrom(lines, keywords, 0).Some? && FirstHeaderFrom(lines, keywords, 0).value < k
  {
    var first := FirstHeaderFrom(lines, keywords, 0);
    var last := LastHeaderBefore(lines, keywords, k);
    if last.Some? {
      assert MentionsAny(lines[last.value], keywords);
    }
    if first.Some? && first.value < k {
      assert MentionsAny(lines[first.value], keywords);
    }
  }

  /** Reading line k either ends the capture (a stop line after a header) or keeps the end ahead. */
  lemma EndStep(lines: seq<string>, keywords: seq<string>, stops: seq<string>, k: nat)
    requires k < |lines| && k <= CaptureEnd(lines, keywords, stops)
    ensures LastHeaderBefore(lines, keywords, k).Some? && IsStopLine(lines[k], keywords, stops)
      ==> CaptureEnd(lines, keywords, stops) == k
    ensures !(LastHeaderBefore(lines, keywords, k).Some? && IsStopLine(lines[k], keywords, stops))
      ==> k < CaptureEnd(lines, keywords, stops)
  {
    HeaderBelow(lines, keywords, k);
    var end := CaptureEnd(lines, keywords, stops);
    match FirstHeaderFrom(lines, keywords, 0)
    case None =>
    case Some(first) =>
      if first < k && IsStopLine(lines[k], keywords, stops) {
        assert first + 1 <= k;
      }
      if k == end && end < |lines| {
        assert IsStopLine(lines[k], keywords, stops);
        assert first < k;
      }
  }

  /**
   * The loop of extract_education and extract_experience: a header line
   * restarts the section, a blank line is skipped, a stop line ends the
   * loop, and any other line is appended once capture has started.
   */
  method CaptureSection(text: string, keywords: seq<string>, stops: seq<string>) returns (r: string)
    ensures r == Strip(CaptureRef(Split(text, '\n'), keywords, stops))
  {
    var section := "";
    var lines := Split(text, '\n');
    var capturing := false;
    var k := 0;
    while k < |lines|
      invariant k <= CaptureEnd(lines, keywords, stops)
      invariant capturing <==> LastHeaderBefore(lines, keywords, k).Some?
      invariant section == Partial(lines, keywords, k)
    {
      var line := lines[k];
      EndStep(lines, keywords, stops, k);
      PartialStep(lines, keywords, k);
      if MentionsAny(line, keywords) {
        capturing := true;
        section := line + "\n";
      } else if capturing && Strip(line) != "" {
        if MentionsAny(line, stops) {
          break;
        }
        section := section + line + "\n";
      }
      k := k + 1;
    }
    r := Strip(section);
  }

  /** Every keyword is non-empty and starts with a visible character. */
  predicate VisibleKeywords(keywords: seq<string>) {
    forall k :: 0 <= k < |keywords| ==> keywords[k] != "" && !IsSpace(keywords[k][0])
  }

  /** A line naming a visible keyword has a visible character. */
  lemma {:induction false} MentionedKeywordVisible(line: string, keywords: seq<string>)
    requires VisibleKeywords(keywords) && MentionsAny(line, keywords)
    ensures exists j :: 0 <= j < |line| && !IsSpace(line[j])
    decreases |keywords|
  {
    if Contains(Lower(line), keywords[0]) {
      var j: nat :| OccursAt(Lower(line), keywords[0], j);
      assert Lower(line)[j] == keywords[0][0];
      assert !IsSpace(line[j]);
    } else {
      MentionedKeywordVisible(line, keywords[1..]);
    }
  }

  /** A section starts with its header line and a newline. */
  lemma {:induction false} SectionStartsWithHeader(lines: seq<string>, h: nat, until: nat)
    requires h < until <= |lines|
    ensures StartsWith(SectionFrom(lines, h, until), lines[h] + "\n")
    decreases until
  {
    if until > h + 1 {
      SectionStartsWithHeader(lines, h, until - 1);
      var head := lines[h] + "\n";
      var prev := SectionFrom(lines, h, until - 1);
      var kept := if Strip(lines[until - 1]) != "" then lines[until - 1] + "\n" else "";
      assert SectionFrom(lines, h, until) == prev + kept;
      assert (prev + kept)[..|head|] == prev[..|head|];
    }
  }

  /** A section only reads lines[..until]. */
  lemma {:induction false} SectionIgnoresRest(lines: seq<string>, more: seq<string>, h: nat, until: nat)
    requires h < until <= |lines|
    ensures SectionFrom(lines + more, h, until) == SectionFrom(lines, h, until)
    decreases until
  {
    if until > h + 1 {
      SectionIgnoresRest(lines, more, h, until - 1);
      SectionAgreesStep(lines + more, lines, h, until);
    } else {
      SectionAgreesHeader(lines + more, lines, h);
    }
  }

  lemma SectionAgreesHeader(a: seq<string>, b: seq<string>, h: nat)
    requires h < |a| && h < |b| && a[h] == b[h]
    ensures SectionFrom(a, h, h + 1) == SectionFrom(b, h, h + 1)
  {
  }

  lemma SectionAgreesStep(a: seq<string>, b: seq<string>, h: nat, until: nat)
    requires h + 1 < until <= |a| && until <= |b| && a[until - 1] == b[until - 1]
    requires SectionFrom(a, h, until - 1) == SectionFrom(b, h, until - 1)
    ensures SectionFrom(a, h, until) == SectionFrom(b, h, until)
  {
  }

  /** With a header line present, a header line lies below the end of the capture. */
  lemma CaptureHasHeader(lines: seq<string>, keywords: seq<string>, stops: seq<string>, i: nat)
    requires i < |lines| && MentionsAny(lines[i], keywords)
    ensures LastHeaderBefore(lines, keywords, CaptureEnd(lines, keywords, stops)).Some?
  {
    var f := FirstHeaderFrom(lines, keywords, 0).value;
    assert f < CaptureEnd(lines, keywords, stops);
  }

  /**
   * With a header line present, the capture starts with the last header
   * line read before the capture ends.
   */
  lemma CaptureStartsWithLastHeader(lines: seq<string>, keywords: seq<string>, stops: seq<string>, i: nat)
    requires i < |lines| && MentionsAny(lines[i], keywords)
    ensures var end := CaptureEnd(lines, keywords, stops);
      exists h: nat :: h < end && MentionsAny(lines[h], keywords)
        && (forall j: nat :: h < j < end ==> !MentionsAny(lines[j], keywords))
        && StartsWith(CaptureRef(lines, keywords, stops), lines[h] + "\n")
  {
    var end := CaptureEnd(lines, keywords, stops);
    CaptureHasHeader(lines, keywords, stops, i);
    var h := LastHeaderBefore(lines, keywords, end).value;
    SectionStartsWithHeader(lines, h, end);
  }

  /** With a header line present, the stripped capture is not empty. */
  lemma CaptureVisible(lines: seq<string>, keywords: seq<string>, stops: seq<string>, i: nat)
    requires VisibleKeywords(keywords)
    requires i < |lines| && MentionsAny(lines[i], keywords)
    ensures Strip(CaptureRef(lines, keywords, stops)) != ""
  {
    var end := CaptureEnd(lines, keywords, stops);
    CaptureHasHeader(lines, keywords, stops, i);
    var h := LastHeaderBefore(lines, keywords, end).value;
    var section := SectionFrom(lines, h, end);
    assert CaptureRef(lines, keywords, stops) == section;
    SectionStartsWithHeader(lines, h, end);
    MentionedKeywordVisible(lines[h], keywords);
    var j :| 0 <= j < |lines[h]| && !IsSpace(lines[h][j]);
    var head := lines[h] + "\n";
    assert section[..|head|] == head;
    assert head[j] == lines[h][j];
    assert section[j] == section[..|head|][j];
  }

  lemma CaptureEmptyIff(lines: seq<string>, keywords: seq<string>, stops: seq<string>)
    requires VisibleKeywords(keywords)
    ensures Strip(CaptureRef(lines, keywords, stops)) == ""
      <==> forall j :: 0 <= j < |lines| ==> !MentionsAny(lines[j], keywords)
  {
    if i :| 0 <= i < |lines| && MentionsAny(lines[i], keywords) {
      CaptureVisible(lines, keywords, stops, i);
    } else {
      assert FirstHeaderFrom(lines, keywords, 0).None?;
      assert LastHeaderBefore(lines, keywords, |lines|).None?;
      assert CaptureRef(lines, keywords, stops) == "";
    }
  }

  /** The first header line of lines is the first header line of lines + more. */
  lemma FirstHeaderIgnoresRest(lines: seq<string>, more: seq<string>, keywords: seq<string>, i: nat)
    requires i < |lines| && MentionsAny(lines[i], keywords)
    ensures FirstHeaderFrom(lines + more, keywords, 0) == FirstHeaderFrom(lines, keywords, 0)
  {
    var all := lines + more;
    var f := FirstHeaderFrom(lines, keywords, 0).value;
    assert all[f] == lines[f];
    var f' := FirstHeaderFrom(all, keywords, 0).value;
    assert f' <= f;
    assert f <= f' by {
      assert all[f'] == lines[f'];
    }
  }

  /** A stop line inside lines is found the same in lines + more. */
  lemma StopIgnoresRest(lines: seq<string>, more: seq<string>, keywords: seq<string>, stops: seq<string>, from: nat, s: nat)
    requires from <= s < |lines| && IsStopLine(lines[s], keywords, stops)
    ensures StopFrom(lines + more, keywords, stops, from) == StopFrom(lines, keywords, stops, from)
  {
    var all := lines + more;
    var e := StopFrom(lines, keywords, stops, from);
    assert e <= s;
    assert all[e] == lines[e];
    var e' := StopFrom(all, keywords, stops, from);
    assert e' <= e;
    assert all[e'] == lines[e'];
  }

  /** The last header line below b <= |lines| is the same in lines + more. */
  lemma LastHeaderIgnoresRest(lines: seq<string>, more: seq<string>, keywords: seq<string>, b: nat)
    requires b <= |lines|
    ensures LastHeaderBefore(lines + more, keywords, b) == LastHeaderBefore(lines, keywords, b)
  {
    var all := lines + more;
    var h := LastHeaderBefore(lines, keywords, b);
    var h' := LastHeaderBefore(all, keywords, b);
    if h.Some? {
      assert all[h.value] == lines[h.value];
    }
    if h'.Some? {
      assert all[h'.value] == lines[h'.value];
    }
  }

  /**
   * Once a stop line follows a header line, nothing after it is read: lines
   * appended after it leave the capture unchanged.
   */
  lemma CaptureIgnoresRest(lines: seq<string>, more: seq<string>, keywords: seq<string>, stops: seq<string>, i: nat, s: nat)
    requires i < s < |lines| && MentionsAny(lines[i], keywords) && IsStopLine(lines[s], keywords, stops)
    ensures CaptureRef(lines + more, keywords, stops) == CaptureRef(lines, keywords, stops)
  {
    var all := lines + more;
    FirstHeaderIgnoresRest(lines, more, keywords, i);
    var f := FirstHeaderFrom(lines, keywords, 0).value;
    StopIgnoresRest(lines, more, keywords, stops, f + 1, s);
    var e := StopFrom(lines, keywords, stops, f + 1);
    assert CaptureEnd(all, keywords, stops) == e && CaptureEnd(lines, keywords, stops) == e;
    LastHeaderIgnoresRest(lines, more, keywords, e);
    match LastHeaderBefore(lines, keywords, e)
    case None =>
    case Some(h) => SectionIgnoresRest(lines, more, h, e);
  }

  lemma EducationKeywordsVisible()
    ensures VisibleKeywords(EducationKeywords) && VisibleKeywords(ExperienceKeywords)
  {
    assert EducationKeywords[1][0] == 'a' && EducationKeywords[2][0] == 'q' && EducationKeywords[3][0] == 'd';
    assert ExperienceKeywords[0][0] == 'e' && ExperienceKeywords[1][0] == 'e' && ExperienceKeywords[2][0] == 'w';
  }

  /** extract_education */
  method ExtractEducation(text: string) returns (r: string)
    ensures r == Strip(CaptureRef(Split(text, '\n'), EducationKeywords, EducationStops))
    ensures r == "" <==> forall j :: 0 <= j < |Split(text, '\n')| ==> !MentionsAny(Split(text, '\n')[j], EducationKeywords)
  {
    r := CaptureSection(text, EducationKeywords, EducationStops);
    EducationKeywordsVisible();
    CaptureEmptyIff(Split(text, '\n'), EducationKeywords, EducationStops);
  }

  /** extract_experience */
  method ExtractExperience(text: string) returns (r: string)
    ensures r == Strip(CaptureRef(Split(text, '\n'), ExperienceKeywords, ExperienceStops))
    ensures r == "" <==> forall j :: 0 <= j < |Split(text, '\n')| ==> !MentionsAny(Split(text, '\n')[j], ExperienceKeywords)
  {
    r := CaptureSection(text, ExperienceKeywords, ExperienceStops);
    EducationKeywordsVisible();
    CaptureEmptyIff(Split(text, '\n'), ExperienceKeywords, ExperienceStops);
  }

  // ---------------------------------------------------------------------
  // parse_resume
  // ---------------------------------------------------------------------

  /**
   * path[d] is where os.path.splitext cuts (POSIX rules): the last '.',
   * with no '/' after it and a character other than '.' between the last
   * '/' and it, since the leading dots of a file name start no extension.
   */
  predicate SplitsAt(path: string, d: nat) {
    d < |path| && path[d] == '.' && '.' !in path[d + 1..] && '/' !in path[d + 1..]
    && exists k: nat :: k < d && path[k] != '.' && '/' !in path[k..d]
  }

  /** Some character of path[lo..hi] is not a '.'. */
  predicate HasNonDot(path: string, lo: nat, hi: nat)
    requires lo <= hi <= |path|
  {
    exists k :: lo <= k < hi && path[k] != '.'
  }

  /** Index of the first character after the last '/', 0 when there is none. */
  function NameStart(path: string): (start: nat)
    ensures start <= |path| && '/' !in path[start..]
    ensures start > 0 ==> path[start - 1] == '/'
  {
    match LastIndexOf(path, '/')
    case None => 0
    case Some(i) => i + 1
  }

  /** os.path.splitext(path)[1]: the extension with its dot, or "". */
  function Extension(path: string): (ext: string)
    ensures ext != "" <==> exists d: nat :: SplitsAt(path, d)
    ensures forall d: nat :: SplitsAt(path, d) ==> ext == path[d..]
  {
    var start := NameStart(path);
    match LastIndexOf(path, '.')
    case None =>
      assert forall d: nat :: !SplitsAt(path, d);
      ""
    case Some(d) =>
      SplitsAtLastDot(path, d);
      if start <= d && HasNonDot(path, start, d) then path[d..] else ""
  }

  /** The only place splitext can cut is the last '.', and it cuts there exactly when the name has a non-dot before it. */
  lemma SplitsAtLastDot(path: string, d: nat)
    requires LastIndexOf(path, '.') == Some(d)
    ensures forall d': nat :: SplitsAt(path, d') ==> d' == d
    ensures SplitsAt(path, d) <==> NameStart(path) <= d && HasNonDot(path, NameStart(path), d)
  {
    if SplitsAt(path, d) {
      CutAfterNameStart(path, d);
    }
    if NameStart(path) <= d && HasNonDot(path, NameStart(path), d) {
      CutWithinName(path, d);
    }
  }

  lemma CutAfterNameStart(path: string, d: nat)
    requires SplitsAt(path, d)
    ensures NameStart(path) <= d && HasNonDot(path, NameStart(path), d)
  {
    var k: nat :| k < d && path[k] != '.' && '/' !in path[k..d];
    forall j | k <= j < |path|
      ensures path[j] != '/'
    {
      if j < d {
        assert path[j] == path[k..d][j - k];
      } else if j > d {
        assert path[j] == path[d + 1..][j - d - 1];
      }
    }
  }

  lemma CutWithinName(path: string, d: nat)
    requires LastIndexOf(path, '.') == Some(d)
    requires NameStart(path) <= d && HasNonDot(path, NameStart(path), d)
    ensures SplitsAt(path, d)
  {
    var start := NameStart(path);
    var k :| start <= k < d && path[k] != '.';
    forall j | start <= j < |path|
      ensures path[j] != '/'
    {
      assert path[j] == path[start..][j - start];
    }
    assert '/' !in path[k..d];
    assert '/' !in path[d + 1..];
  }

  /** Which extractor parse_resume calls. */
  datatype DocumentKind = Pdf | Docx

  /** The two ValueErrors parse_resume raises. */
  datatype ParseError = UnsupportedFileType(ext: string) | NoText

  /** The dispatch on the lowercased extension. */
  function KindOf(path: string): (r: Result<DocumentKind, ParseError>)
    ensures r.Success? ==> exists d: nat :: SplitsAt(path, d)
    ensures r.Failure? ==> r.error == UnsupportedFileType(Lower(Extension(path)))
  {
    var ext := Lower(Extension(path));
    if ext == ".pdf" then Success(Pdf)
    else if ext == ".docx" || ext == ".doc" then Success(Docx)
    else Failure(UnsupportedFileType(ext))
  }

  /** The case of the extension does not matter. */
  lemma UpperCasePdf()
    ensures KindOf("cv.PDF") == Success(Pdf)
  {
    var path := "cv.PDF";
    assert SplitsAt(path, 2) by {
      assert path[0] != '.' && '/' !in path[0..2];
    }
    assert Lower(path[2..]) == ".pdf";
  }

  /** A '.' with no '.' after it, in a path without '/' that starts with another character, is where splitext cuts. */
  lemma SplitsAtPlainName(path: string, d: nat)
    requires 0 < d < |path| && path[d] == '.' && path[0] != '.'
    requires forall j :: 0 <= j < |path| ==> path[j] != '/'
    requires forall j :: d < j < |path| ==> path[j] != '.'
    ensures SplitsAt(path, d)
  {
    assert '/' !in path[0..d];
  }

  /** Only the last extension counts: any plain name ending in ".pdf.exe" is refused as ".exe". */
  lemma DoubleExtension(stem: string)
    requires stem != "" && '.' !in stem && '/' !in stem
    ensures KindOf(stem + ".pdf.exe") == Failure(UnsupportedFileType(".exe"))
  {
    var path := stem + ".pdf.exe";
    var d := |stem| + 4;
    assert path[d..] == ".exe";
    forall j | 0 <= j < |path| ensures path[j] != '/' {
      if j < |stem| {
        assert path[j] == stem[j];
      }
    }
    assert path[0] == stem[0];
    SplitsAtPlainName(path, d);
    var ext := Extension(path);
    assert ext == ".exe";
    LowerExe();
    RefusedExtension(path, ".exe");
  }

  lemma LowerExe()
    ensures Lower(".exe") == ".exe"
  {
    LowerUnchanged(".exe");
  }

  /** A lowercased extension other than ".pdf", ".docx" and ".doc" is refused with that extension. */
  lemma RefusedExtension(path: string, ext: string)
    requires Lower(Extension(path)) == ext && ext != ".pdf" && ext != ".docx" && ext != ".doc"
    ensures KindOf(path) == Failure(UnsupportedFileType(ext))
  {
  }

  /** A file name made of a dot and a name has no extension. */
  lemma DotFileHasNoExtension()
    ensures KindOf("uploads/.pdf") == Failure(UnsupportedFileType(""))
  {
    var path := "uploads/.pdf";
    assert LastIndexOf(path, '.') == Some(8) by {
      assert path[8] == '.' && '.' !in path[9..];
    }
    assert NameStart(path) == 8 by {
      assert LastIndexOf(path, '/') == Some(7) by {
        assert path[7] == '/' && '/' !in path[8..];
      }
    }
    SplitsAtLastDot(path, 8);
  }

  /** The dict parse_resume returns: exactly these six keys. */
  datatype Resume = Resume(name: string, email: string, phone: string, skills: string, education: string, experience: string)

  /** The fields parse_resume computes from the extracted text. */
  function ResumeOf(text: string): Resume {
    var lines := Split(text, '\n');
    Resume(NameOf(text), ExtractEmail(text), ExtractPhone(text), Json.EncodeStringList(SkillsIn(CommonSkills, text, AsWritten)),
      Strip(CaptureRef(lines, EducationKeywords, EducationStops)),
      Strip(CaptureRef(lines, ExperienceKeywords, ExperienceStops)))
  }

  /**
   * parse_resume. Reading the file is I/O, so the text each extractor would
   * return is a parameter: pdfText for a .pdf file, docxText for .docx and .doc.
   */
  method ParseResume(path: string, pdfText: string, docxText: string) returns (r: Result<Resume, ParseError>)
    ensures KindOf(path).Failure? <==> r == Failure(UnsupportedFileType(Lower(Extension(path))))
    ensures KindOf(path) == Success(Pdf) ==>
      r == if pdfText == "" then Failure(NoText) else Success(ResumeOf(pdfText))
    ensures KindOf(path) == Success(Docx) ==>
      r == if docxText == "" then Failure(NoText) else Success(ResumeOf(docxText))
  {
    var kind := KindOf(path);
    if kind.Failure? {
      return Failure(kind.error);
    }
    var text := if kind.value == Pdf then pdfText else docxText;
    if text == "" {
      return Failure(NoText);
    }
    var name := ExtractName(text);
    var skills := ExtractSkills(text);
    var education := ExtractEducation(text);
    var experience := ExtractExperience(text);
    r := Success(Resume(name, ExtractEmail(text), ExtractPhone(text), Json.EncodeStringList(skills), education, experience));
  }

  /** The skills field is JSON text that reads back as the skills found. */
  lemma SkillsFieldRoundTrip(text: string)
    ensures Json.DecodePlainList(ResumeOf(text).skills) == Some(SkillsIn(CommonSkills, text, AsWritten))
  {
    var found := SkillsIn(CommonSkills, text, AsWritten);
    SkillsInMembers(CommonSkills, text, AsWritten);
    CommonSkillsPlain();
    forall k | 0 <= k < |found| ensures Json.AllPlain(found[k]) {
      assert found[k] in found;
      var j :| 0 <= j < |CommonSkills| && CommonSkills[j] == found[k];
    }
    Json.DecodeEncodeList(found);
  }
}
