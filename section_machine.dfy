/**
 * The section state machine that PDFParser.extract_sections and
 * DocxParser.extract_sections share (app/services/parser/pdf_parser.py and
 * app/services/parser/docx_parser.py). Both run it over the stripped,
 * non-blank lines of a document: a header line switches the current
 * section after flushing the lines gathered so far into the result, any
 * other line is gathered once a section is current, and at the end the
 * last section is flushed (if it gathered anything) and `skills` is made a
 * list.
 *
 * The machine is specified twice: by the state it holds after reading the
 * first k lines (IsStateAt), and by what it returns for a whole document
 * (SectionsRef), stated without reference to the loop. Both are stated
 * over the lines and their header kinds (Kinds), so that where a header
 * line is does not have to be recomputed from its text.
 */
module SectionMachine {
  import opened Wrappers
  import opened Strings

  /** The three keys of the result dict. */
  datatype Section = Education | Experience | Skills

  /** A value of the result dict: a string, or a list of strings. */
  datatype Value = Text(text: string) | Items(items: seq<string>)

  /** The dict extract_sections returns: exactly these three keys. */
  datatype Sections = Sections(education: string, experience: string, skills: seq<string>)

  const EducationVi := "h\U{1ECD}c v\U{1EA5}n"
  const ExperienceVi := "kinh nghi\U{1EC7}m"
  const SkillsVi := "k\U{1EF9} n\U{103}ng"

  /**
   * The section a line opens, if it is a header line: the lowercased line
   * names the section in English or Vietnamese, and education wins over
   * experience, which wins over skills.
   */
  function HeaderOf(line: string): (r: Option<Section>)
    ensures r == Some(Education) <==> Contains(Lower(line), "education") || Contains(Lower(line), EducationVi)
    ensures r == Some(Experience) <==>
      !(Contains(Lower(line), "education") || Contains(Lower(line), EducationVi))
      && (Contains(Lower(line), "experience") || Contains(Lower(line), ExperienceVi))
    ensures r.None? <==>
      !Contains(Lower(line), "education") && !Contains(Lower(line), EducationVi)
      && !Contains(Lower(line), "experience") && !Contains(Lower(line), ExperienceVi)
      && !Contains(Lower(line), "skills") && !Contains(Lower(line), SkillsVi)
  {
    var low := Lower(line);
    if Contains(low, "education") || Contains(low, EducationVi) then Some(Education)
    else if Contains(low, "experience") || Contains(low, ExperienceVi) then Some(Experience)
    else if Contains(low, "skills") || Contains(low, SkillsVi) then Some(Skills)
    else None
  }

  /** What the dict holds for a key before anything is flushed into it. */
  function Initial(s: Section): Value {
    if s == Skills then Items([]) else Text("")
  }

  /** [x.strip() for x in xs if x.strip()]: the lines the machine reads. */
  function Prepared(xs: seq<string>): (r: seq<string>)
    ensures |r| <= |xs|
    ensures forall k :: 0 <= k < |r| ==> r[k] != "" && Strip(r[k]) == r[k]
    decreases |xs|
  {
    if xs == [] then []
    else
      var front := Prepared(xs[..|xs| - 1]);
      var x := Strip(xs[|xs| - 1]);
      StripIdempotent(xs[|xs| - 1]);
      if x != "" then front + [x] else front
  }

  /** The header kind of every line. */
  function Kinds(ls: seq<string>): (ks: seq<Option<Section>>)
    ensures |ks| == |ls|
    ensures forall j :: 0 <= j < |ls| ==> ks[j] == HeaderOf(ls[j])
  {
    seq(|ls|, j requires 0 <= j < |ls| => HeaderOf(ls[j]))
  }

  // ---------------------------------------------------------------------
  // Positions of header lines
  // ---------------------------------------------------------------------

  /** The last header line below index b. */
  function LastHeaderBelow(ks: seq<Option<Section>>, b: nat): (r: Option<nat>)
    requires b <= |ks|
    ensures r.Some? ==> r.value < b && ks[r.value].Some?
    ensures r.Some? ==> forall j: nat :: r.value < j < b ==> ks[j].None?
    ensures r.None? ==> forall j: nat :: j < b ==> ks[j].None?
  {
    if b == 0 then None
    else if ks[b - 1].Some? then Some(b - 1)
    else LastHeaderBelow(ks, b - 1)
  }

  /** The last header line of section s below index b. */
  function LastKindBelow(ks: seq<Option<Section>>, s: Section, b: nat): (r: Option<nat>)
    requires b <= |ks|
    ensures r.Some? ==> r.value < b && ks[r.value] == Some(s)
    ensures r.Some? ==> forall j: nat :: r.value < j < b ==> ks[j] != Some(s)
    ensures r.None? ==> forall j: nat :: j < b ==> ks[j] != Some(s)
  {
    if b == 0 then None
    else if ks[b - 1] == Some(s) then Some(b - 1)
    else LastKindBelow(ks, s, b - 1)
  }

  /** The first header line at or after index i, or |ks| when there is none. */
  function NextHeaderFrom(ks: seq<Option<Section>>, i: nat): (r: nat)
    requires i <= |ks|
    ensures i <= r <= |ks|
    ensures r < |ks| ==> ks[r].Some?
    ensures forall j: nat :: i <= j < r ==> ks[j].None?
    decreases |ks| - i
  {
    if i == |ks| || ks[i].Some? then i else NextHeaderFrom(ks, i + 1)
  }

  /** Lines h..b-1 open no section s, so the last s header line below b is the one below h. */
  lemma {:induction false} LastKindSkips(ks: seq<Option<Section>>, s: Section, h: nat, b: nat)
    requires h <= b <= |ks|
    requires forall j: nat :: h <= j < b ==> ks[j] != Some(s)
    ensures LastKindBelow(ks, s, b) == LastKindBelow(ks, s, h)
    decreases b
  {
    if b > h {
      LastKindSkips(ks, s, h, b - 1);
    }
  }

  /** ks[h] is the last s header line below b when none follows it. */
  lemma LastKindIs(ks: seq<Option<Section>>, s: Section, h: nat, b: nat)
    requires h < b <= |ks| && ks[h] == Some(s)
    requires forall j: nat :: h < j < b ==> ks[j] != Some(s)
    ensures LastKindBelow(ks, s, b) == Some(h)
  {
    LastKindSkips(ks, s, h + 1, b);
  }

  /** The content lines of the header line ls[h]: every line up to the next header line. */
  function Block(ls: seq<string>, ks: seq<Option<Section>>, h: nat): seq<string>
    requires |ks| == |ls| && h < |ls|
  {
    ls[h + 1..NextHeaderFrom(ks, h + 1)]
  }

  // ---------------------------------------------------------------------
  // The state after reading ls[..k]
  // ---------------------------------------------------------------------

  /** current_section after reading ls[..k]: the section of the last header line. */
  function CurrentAt(ks: seq<Option<Section>>, k: nat): Option<Section>
    requires k <= |ks|
  {
    match LastHeaderBelow(ks, k)
    case None => None
    case Some(h) => ks[h]
  }

  /** section_text after reading ls[..k]: the lines after the last header line. */
  function BufferAt(ls: seq<string>, ks: seq<Option<Section>>, k: nat): seq<string>
    requires |ks| == |ls| && k <= |ls|
  {
    match LastHeaderBelow(ks, k)
    case None => []
    case Some(h) => ls[h + 1..k]
  }

  /**
   * sections[s] after reading ls[..k]: the content of the last s header
   * line that a later header line has closed, joined with newlines; the
   * initial value when no s section has been closed yet.
   */
  function FlushedAt(ls: seq<string>, ks: seq<Option<Section>>, k: nat, s: Section): Value
    requires |ks| == |ls| && k <= |ls|
  {
    match LastHeaderBelow(ks, k)
    case None => Initial(s)
    case Some(h) =>
      match LastKindBelow(ks, s, h)
      case None => Initial(s)
      case Some(j) => Text(Join(Block(ls, ks, j), '\n'))
  }

  /** sections[x] holds what it holds after reading ls[..k]. */
  predicate HoldsFlushed(ls: seq<string>, ks: seq<Option<Section>>, k: nat, sections: map<Section, Value>, x: Section)
    requires |ks| == |ls| && k <= |ls|
  {
    x in sections && sections[x] == FlushedAt(ls, ks, k, x)
  }

  /** The machine's variables hold what they hold after reading ls[..k]. */
  predicate IsStateAt(ls: seq<string>, ks: seq<Option<Section>>, k: nat,
                      sections: map<Section, Value>, current: Option<Section>, buffer: seq<string>)
    requires |ks| == |ls| && k <= |ls|
  {
    HoldsFlushed(ls, ks, k, sections, Education) && HoldsFlushed(ls, ks, k, sections, Experience)
    && HoldsFlushed(ls, ks, k, sections, Skills)
    && current == CurrentAt(ks, k) && buffer == BufferAt(ls, ks, k)
  }

  /** Reading a header line before any other: nothing is flushed. */
  lemma FirstHeaderStep(ls: seq<string>, ks: seq<Option<Section>>, k: nat, s: Section)
    requires |ks| == |ls| && k < |ls| && ks[k].Some? && LastHeaderBelow(ks, k).None?
    ensures FlushedAt(ls, ks, k + 1, s) == Initial(s)
  {
    assert LastHeaderBelow(ks, k + 1) == Some(k);
    assert LastKindBelow(ks, s, k).None?;
  }

  /** Reading a header line: the section it closes now holds the lines gathered for it. */
  lemma CloseStep(ls: seq<string>, ks: seq<Option<Section>>, k: nat, h: nat)
    requires |ks| == |ls| && k < |ls| && ks[k].Some? && LastHeaderBelow(ks, k) == Some(h)
    ensures FlushedAt(ls, ks, k + 1, ks[h].value) == Text(Join(BufferAt(ls, ks, k), '\n'))
  {
    var c := ks[h].value;
    assert LastHeaderBelow(ks, k + 1) == Some(k);
    LastKindIs(ks, c, h, k);
    assert NextHeaderFrom(ks, h + 1) == k;
  }

  /** Reading a header line: every section but the one it closes keeps its value. */
  lemma KeepStep(ls: seq<string>, ks: seq<Option<Section>>, k: nat, h: nat, s: Section)
    requires |ks| == |ls| && k < |ls| && ks[k].Some? && LastHeaderBelow(ks, k) == Some(h) && ks[h] != Some(s)
    ensures FlushedAt(ls, ks, k + 1, s) == FlushedAt(ls, ks, k, s)
  {
    assert LastHeaderBelow(ks, k + 1) == Some(k);
    LastKindSkips(ks, s, h, k);
  }

  /** The dict after the first header line: unchanged. */
  lemma FirstHeaderDictStep(ls: seq<string>, ks: seq<Option<Section>>, k: nat)
    requires |ks| == |ls| && k < |ls| && ks[k].Some? && LastHeaderBelow(ks, k).None?
    ensures forall x: Section :: FlushedAt(ls, ks, k + 1, x) == FlushedAt(ls, ks, k, x)
  {
    forall x: Section ensures FlushedAt(ls, ks, k + 1, x) == FlushedAt(ls, ks, k, x) {
      FirstHeaderStep(ls, ks, k, x);
    }
  }

  /** The dict after a later header line: the section it closes holds the joined buffer. */
  lemma HeaderDictStep(ls: seq<string>, ks: seq<Option<Section>>, k: nat, h: nat)
    requires |ks| == |ls| && k < |ls| && ks[k].Some? && LastHeaderBelow(ks, k) == Some(h)
    ensures forall x: Section ::
              FlushedAt(ls, ks, k + 1, x)
              == (if Some(x) == ks[h] then Text(Join(BufferAt(ls, ks, k), '\n')) else FlushedAt(ls, ks, k, x))
  {
    forall x: Section
      ensures FlushedAt(ls, ks, k + 1, x) == (if Some(x) == ks[h] then Text(Join(BufferAt(ls, ks, k), '\n'))
                                             else FlushedAt(ls, ks, k, x))
    {
      if Some(x) == ks[h] {
        CloseStep(ls, ks, k, h);
      } else {
        KeepStep(ls, ks, k, h, x);
      }
    }
  }

  /** The state after a content line: a current section gathers it, and nothing else changes. */
  lemma ContentStep(ls: seq<string>, ks: seq<Option<Section>>, k: nat)
    requires |ks| == |ls| && k < |ls| && ks[k].None?
    ensures forall x: Section :: FlushedAt(ls, ks, k + 1, x) == FlushedAt(ls, ks, k, x)
    ensures CurrentAt(ks, k + 1) == CurrentAt(ks, k)
    ensures CurrentAt(ks, k).None? ==> BufferAt(ls, ks, k + 1) == BufferAt(ls, ks, k) == []
    ensures CurrentAt(ks, k).Some? ==> BufferAt(ls, ks, k + 1) == BufferAt(ls, ks, k) + [ls[k]]
  {
    assert LastHeaderBelow(ks, k + 1) == LastHeaderBelow(ks, k);
    match LastHeaderBelow(ks, k)
    case None =>
    case Some(h) =>
      assert ls[h + 1..k + 1] == ls[h + 1..k] + [ls[k]];
  }

  /** After the first header line: nothing is flushed, the new section is current and the buffer is empty. */
  lemma FirstHeaderState(ls: seq<string>, ks: seq<Option<Section>>, k: nat,
                         sections: map<Section, Value>, buffer: seq<string>)
    requires |ks| == |ls| && k < |ls| && ks[k].Some?
    requires IsStateAt(ls, ks, k, sections, None, buffer)
    ensures IsStateAt(ls, ks, k + 1, sections, ks[k], [])
  {
    assert LastHeaderBelow(ks, k + 1) == Some(k);
    assert LastHeaderBelow(ks, k).None?;
    FirstHeaderDictStep(ls, ks, k);
  }

  /** After a later header line: the closed section is flushed, the new one is current and the buffer is empty. */
  lemma CloseState(ls: seq<string>, ks: seq<Option<Section>>, k: nat,
                   sections: map<Section, Value>, c: Section, buffer: seq<string>)
    requires |ks| == |ls| && k < |ls| && ks[k].Some?
    requires IsStateAt(ls, ks, k, sections, Some(c), buffer)
    ensures IsStateAt(ls, ks, k + 1, sections[c := Text(Join(buffer, '\n'))], ks[k], [])
  {
    assert LastHeaderBelow(ks, k + 1) == Some(k);
    var h := LastHeaderBelow(ks, k).value;
    assert ks[h] == Some(c);
    HeaderDictStep(ls, ks, k, h);
  }

  /** After a content line: a current section gathers it, and nothing else changes. */
  lemma ContentState(ls: seq<string>, ks: seq<Option<Section>>, k: nat,
                     sections: map<Section, Value>, current: Option<Section>, buffer: seq<string>)
    requires |ks| == |ls| && k < |ls| && ks[k].None?
    requires IsStateAt(ls, ks, k, sections, current, buffer)
    ensures IsStateAt(ls, ks, k + 1, sections, current, if current.Some? then buffer + [ls[k]] else buffer)
  {
    ContentStep(ls, ks, k);
  }

  /** One step of the machine, from the state after ls[..k] to the state after ls[..k + 1]. */
  method Feed(sections: map<Section, Value>, current: Option<Section>, buffer: seq<string>, line: string,
              ghost ls: seq<string>, ghost ks: seq<Option<Section>>, ghost k: nat)
    returns (sections': map<Section, Value>, current': Option<Section>, buffer': seq<string>)
    requires |ks| == |ls| && k < |ls| && line == ls[k] && ks[k] == HeaderOf(line)
    requires IsStateAt(ls, ks, k, sections, current, buffer)
    ensures IsStateAt(ls, ks, k + 1, sections', current', buffer')
  {
    sections', current', buffer' := sections, current, buffer;
    match HeaderOf(line)
    case Some(s) =>
      if current.Some? {
        CloseState(ls, ks, k, sections, current.value, buffer);
      } else {
        FirstHeaderState(ls, ks, k, sections, buffer);
      }
      if current'.Some? {
        sections' := sections'[current'.value := Text(Join(buffer', '\n'))];
      }
      current' := Some(s);
      buffer' := [];
    case None =>
      ContentState(ls, ks, k, sections, current, buffer);
      if current'.Some? {
        buffer' := buffer' + [line];
      }
  }

  // ---------------------------------------------------------------------
  // What the machine returns for a whole document
  // ---------------------------------------------------------------------

  /**
   * The header line whose content ends up in section s: the last s header
   * line, unless it is the very last line, which has no content and is
   * never flushed; then the s header line before it.
   */
  function Counted(ks: seq<Option<Section>>, s: Section): (r: Option<nat>)
    ensures r.Some? ==> r.value + 1 < |ks| && ks[r.value] == Some(s)
  {
    if ks == [] then None else LastKindBelow(ks, s, |ks| - 1)
  }

  /** The education or experience text of a document. */
  function TextOf(ls: seq<string>, ks: seq<Option<Section>>, s: Section): string
    requires |ks| == |ls|
  {
    match Counted(ks, s)
    case None => ""
    case Some(j) => Join(Block(ls, ks, j), '\n')
  }

  /**
   * The skills list of a document: one stripped item per content line
   * when the skills section runs to the end, the stripped comma-separated
   * pieces of its newline-joined content when a later header closed it, and
   * [] when there is no skills section.
   */
  function SkillsOf(ls: seq<string>, ks: seq<Option<Section>>): seq<string>
    requires |ks| == |ls|
  {
    match SkillsBlock(ls, ks)
    case None => []
    case Some((block, closed)) => SkillItems(block, closed)
  }

  /** The content lines of the skills section, and whether a later header line closed it. */
  function SkillsBlock(ls: seq<string>, ks: seq<Option<Section>>): Option<(seq<string>, bool)>
    requires |ks| == |ls|
  {
    match Counted(ks, Skills)
    case None => None
    case Some(j) => Some((Block(ls, ks, j), NextHeaderFrom(ks, j + 1) < |ks|))
  }

  /**
   * The skills list made from the content lines of the skills section:
   * the lines themselves, stripped, when the section ran to the end; the
   * comma-separated pieces of the flushed text, stripped, when it was closed.
   */
  function SkillItems(block: seq<string>, closed: bool): seq<string> {
    if closed then StripAll(Split(Join(block, '\n'), ',')) else StripAll(block)
  }

  /** What extract_sections returns for the prepared lines ls. */
  function SectionsRef(ls: seq<string>): Sections {
    var ks := Kinds(ls);
    Sections(TextOf(ls, ks, Education), TextOf(ls, ks, Experience), SkillsOf(ls, ks))
  }

  /** The last section is still gathering at the end: its content is the buffer, and no header closed it. */
  lemma FinalLive(ls: seq<string>, ks: seq<Option<Section>>, s: Section)
    requires |ks| == |ls| && CurrentAt(ks, |ks|) == Some(s) && BufferAt(ls, ks, |ls|) != []
    ensures Counted(ks, s).Some? && NextHeaderFrom(ks, Counted(ks, s).value + 1) == |ks|
    ensures Block(ls, ks, Counted(ks, s).value) == BufferAt(ls, ks, |ls|)
  {
    var n := |ks|;
    var h := LastHeaderBelow(ks, n).value;
    LastKindIs(ks, s, h, n - 1);
    assert NextHeaderFrom(ks, h + 1) == n;
  }

  /** Otherwise section s holds what the dict holds for it, which a later header closed. */
  lemma FinalClosed(ls: seq<string>, ks: seq<Option<Section>>, s: Section)
    requires |ks| == |ls| && !(CurrentAt(ks, |ks|) == Some(s) && BufferAt(ls, ks, |ls|) != [])
    ensures Counted(ks, s).None? ==> FlushedAt(ls, ks, |ls|, s) == Initial(s)
    ensures Counted(ks, s).Some? ==>
              NextHeaderFrom(ks, Counted(ks, s).value + 1) < |ks|
              && FlushedAt(ls, ks, |ls|, s) == Text(Join(Block(ls, ks, Counted(ks, s).value), '\n'))
  {
    var n := |ks|;
    match LastHeaderBelow(ks, n)
    case None =>
      if n > 0 {
        assert LastKindBelow(ks, s, n - 1).None?;
      }
    case Some(h) =>
      CountedBelowLast(ls, ks, s, h);
      match LastKindBelow(ks, s, h)
      case None =>
      case Some(j) =>
        assert NextHeaderFrom(ks, j + 1) <= h;
  }

  /**
   * When section s is not the one still gathering at the end, the header
   * line counted for s lies below the last header line h.
   */
  lemma CountedBelowLast(ls: seq<string>, ks: seq<Option<Section>>, s: Section, h: nat)
    requires |ks| == |ls| && !(CurrentAt(ks, |ks|) == Some(s) && BufferAt(ls, ks, |ls|) != [])
    requires LastHeaderBelow(ks, |ks|) == Some(h)
    ensures Counted(ks, s) == LastKindBelow(ks, s, h)
  {
    var n := |ks|;
    if ks[h] == Some(s) {
      assert h == n - 1;
    }
    LastKindSkips(ks, s, h, n - 1);
  }

  /** The education or experience value after the final flush. */
  lemma FinalText(ls: seq<string>, ks: seq<Option<Section>>, sections: map<Section, Value>,
                  current: Option<Section>, buffer: seq<string>, s: Section)
    requires |ks| == |ls| && IsStateAt(ls, ks, |ls|, sections, current, buffer) && s != Skills
    ensures (if current == Some(s) && buffer != [] then Text(Join(buffer, '\n')) else sections[s])
      == Text(TextOf(ls, ks, s))
  {
    if current == Some(s) && buffer != [] {
      FinalLive(ls, ks, s);
    } else {
      FinalClosed(ls, ks, s);
    }
  }

  /** The skills value after the final flush and the conversion to a list. */
  lemma FinalSkills(ls: seq<string>, ks: seq<Option<Section>>, sections: map<Section, Value>,
                    current: Option<Section>, buffer: seq<string>)
    requires |ks| == |ls| && IsStateAt(ls, ks, |ls|, sections, current, buffer)
    ensures var v := if current == Some(Skills) && buffer != [] then Items(StripAll(buffer)) else sections[Skills];
      (if v.Text? then StripAll(Split(v.text, ',')) else v.items) == SkillsOf(ls, ks)
  {
    if current == Some(Skills) && buffer != [] {
      FinalLive(ls, ks, Skills);
    } else {
      FinalClosed(ls, ks, Skills);
    }
  }

  /** The code after the loop: flush the last section if it gathered lines, then make skills a list. */
  method Finish(sections: map<Section, Value>, current: Option<Section>, buffer: seq<string>, ghost ls: seq<string>)
    returns (r: Sections)
    requires IsStateAt(ls, Kinds(ls), |ls|, sections, current, buffer)
    ensures r == SectionsRef(ls)
  {
    ghost var ks := Kinds(ls);
    FinalText(ls, ks, sections, current, buffer, Education);
    FinalText(ls, ks, sections, current, buffer, Experience);
    FinalSkills(ls, ks, sections, current, buffer);
    var result := sections;
    if current.Some? && buffer != [] {
      if current.value == Skills {
        result := result[Skills := Items(StripAll(buffer))];
      } else {
        result := result[current.value := Text(Join(buffer, '\n'))];
      }
    }
    var skills := result[Skills];
    if skills.Text? {
      skills := Items(StripAll(Split(skills.text, ',')));
    }
    r := Sections(result[Education].text, result[Experience].text, skills.items);
  }

  /** The empty dict extract_sections starts from. */
  const InitialDict: map<Section, Value> := map[Education := Text(""), Experience := Text(""), Skills := Items([])]

  /** Before any line is read the machine is in its initial state. */
  lemma InitialState(ls: seq<string>)
    ensures IsStateAt(ls, Kinds(ls), 0, InitialDict, None, [])
  {
  }

  // ---------------------------------------------------------------------
  // Properties of the result
  // ---------------------------------------------------------------------

  /** A Vietnamese header in capitals opens its section: lower() folds the diacritics too. */
  lemma VietnameseHeader()
    ensures HeaderOf("H\U{1ECC}C V\U{1EA4}N") == Some(Education)
  {
    var low := Lower("H\U{1ECC}C V\U{1EA4}N");
    assert low == EducationVi;
    assert OccursAt(low, EducationVi, 0);
  }

  /** The lines of a section never include a header line. */
  lemma BlockHasNoHeader(ls: seq<string>, h: nat)
    requires h < |ls|
    ensures forall i :: 0 <= i < |Block(ls, Kinds(ls), h)| ==> HeaderOf(Block(ls, Kinds(ls), h)[i]).None?
  {
    var ks := Kinds(ls);
    var n := NextHeaderFrom(ks, h + 1);
    forall i | 0 <= i < |Block(ls, ks, h)| ensures HeaderOf(Block(ls, ks, h)[i]).None? {
      assert Block(ls, ks, h)[i] == ls[h + 1 + i];
      assert ks[h + 1 + i].None?;
    }
  }

  /** A document without header lines gives empty education and experience and no skills. */
  lemma NoHeaderNoSections(ls: seq<string>)
    requires forall j :: 0 <= j < |ls| ==> HeaderOf(ls[j]).None?
    ensures SectionsRef(ls) == Sections("", "", [])
  {
    var ks := Kinds(ls);
    assert forall j :: 0 <= j < |ks| ==> ks[j].None?;
  }

  /** When a section is opened twice, the content kept is that of the later header or one after it. */
  lemma LaterHeaderWins(ls: seq<string>, s: Section, i: nat, j: nat)
    requires i < j && j + 1 < |ls| && HeaderOf(ls[i]) == Some(s) && HeaderOf(ls[j]) == Some(s)
    ensures Counted(Kinds(ls), s).Some? && j <= Counted(Kinds(ls), s).value
  {
    var ks := Kinds(ls);
    assert ks[j] == Some(s);
  }

  /** The first header line from i on is n, when n is a header line (or the end) and none is before it. */
  lemma NextHeaderIs(ks: seq<Option<Section>>, i: nat, n: nat)
    requires i <= n <= |ks| && (n < |ks| ==> ks[n].Some?)
    requires forall j: nat :: i <= j < n ==> ks[j].None?
    ensures NextHeaderFrom(ks, i) == n
  {
  }

  /** Lines appended after index b do not move the last s header line below b. */
  lemma LastKindPrefix(ks: seq<Option<Section>>, more: seq<Option<Section>>, s: Section, b: nat)
    requires b <= |ks|
    ensures LastKindBelow(ks + more, s, b) == LastKindBelow(ks, s, b)
  {
    var all := ks + more;
    match LastKindBelow(ks, s, b)
    case None =>
      LastKindSkips(all, s, 0, b);
    case Some(h) =>
      LastKindIs(all, s, h, b);
  }

  /** Lines in front that open no section shift every s header line by their number. */
  lemma LastKindShift(kp: seq<Option<Section>>, ks: seq<Option<Section>>, s: Section, b: nat)
    requires b <= |ks| && forall j :: 0 <= j < |kp| ==> kp[j].None?
    ensures LastKindBelow(kp + ks, s, |kp| + b)
      == match LastKindBelow(ks, s, b) case None => None case Some(h) => Some(|kp| + h)
  {
    var all := kp + ks;
    match LastKindBelow(ks, s, b)
    case None =>
      LastKindSkips(all, s, 0, |kp| + b);
    case Some(h) =>
      LastKindIs(all, s, |kp| + h, |kp| + b);
  }

  /** Lines in front that open no section shift the next header line by their number. */
  lemma NextHeaderShift(kp: seq<Option<Section>>, ks: seq<Option<Section>>, i: nat)
    requires i <= |ks| && forall j :: 0 <= j < |kp| ==> kp[j].None?
    ensures NextHeaderFrom(kp + ks, |kp| + i) == |kp| + NextHeaderFrom(ks, i)
  {
    var n := NextHeaderFrom(ks, i);
    NextHeaderIs(kp + ks, |kp| + i, |kp| + n);
  }

  lemma KindsAppend(xs: seq<string>, ys: seq<string>)
    ensures Kinds(xs + ys) == Kinds(xs) + Kinds(ys)
  {
  }

  /** With header-free lines in front, the header line counted for s moves by their number. */
  lemma CountedShift(kp: seq<Option<Section>>, ks: seq<Option<Section>>, s: Section)
    requires forall j :: 0 <= j < |kp| ==> kp[j].None?
    ensures Counted(kp + ks, s) == match Counted(ks, s) case None => None case Some(h) => Some(|kp| + h)
  {
    if ks == [] {
      assert kp + ks == kp;
      assert forall j :: 0 <= j < |kp| ==> kp[j] != Some(s);
    } else {
      LastKindShift(kp, ks, s, |ks| - 1);
    }
  }

  /** With header-free lines in front, every section keeps its content lines. */
  lemma BlockShift(pre: seq<string>, ls: seq<string>, kp: seq<Option<Section>>, ks: seq<Option<Section>>, h: nat)
    requires |kp| == |pre| && |ks| == |ls| && forall j :: 0 <= j < |kp| ==> kp[j].None?
    requires h < |ls|
    ensures Block(pre + ls, kp + ks, |pre| + h) == Block(ls, ks, h)
    ensures NextHeaderFrom(kp + ks, |pre| + h + 1) == |pre| + NextHeaderFrom(ks, h + 1)
  {
    NextHeaderShift(kp, ks, h + 1);
    var n := NextHeaderFrom(ks, h + 1);
    assert (pre + ls)[|pre| + h + 1..|pre| + n] == ls[h + 1..n];
  }

  /** With header-free lines in front, the text of section s is unchanged. */
  lemma TextShift(pre: seq<string>, ls: seq<string>, kp: seq<Option<Section>>, ks: seq<Option<Section>>, s: Section)
    requires |kp| == |pre| && |ks| == |ls| && forall j :: 0 <= j < |kp| ==> kp[j].None?
    ensures TextOf(pre + ls, kp + ks, s) == TextOf(ls, ks, s)
  {
    CountedShift(kp, ks, s);
    match Counted(ks, s)
    case None =>
    case Some(h) =>
      BlockShift(pre, ls, kp, ks, h);
  }

  /** With header-free lines in front, the skills section keeps its content lines and how it ends. */
  lemma SkillsBlockShift(pre: seq<string>, ls: seq<string>, kp: seq<Option<Section>>, ks: seq<Option<Section>>)
    requires |kp| == |pre| && |ks| == |ls| && forall j :: 0 <= j < |kp| ==> kp[j].None?
    ensures SkillsBlock(pre + ls, kp + ks) == SkillsBlock(ls, ks)
  {
    CountedShift(kp, ks, Skills);
    match Counted(ks, Skills)
    case None =>
    case Some(h) =>
      BlockShift(pre, ls, kp, ks, h);
  }

  /** Lines before the first header line belong to no section: they leave the result unchanged. */
  lemma PreambleIgnored(pre: seq<string>, ls: seq<string>)
    requires forall j :: 0 <= j < |pre| ==> HeaderOf(pre[j]).None?
    ensures SectionsRef(pre + ls) == SectionsRef(ls)
  {
    KindsAppend(pre, ls);
    TextShift(pre, ls, Kinds(pre), Kinds(ls), Education);
    TextShift(pre, ls, Kinds(pre), Kinds(ls), Experience);
    SkillsBlockShift(pre, ls, Kinds(pre), Kinds(ls));
  }

  /** A header line appended right after an s header line leaves section s empty. */
  lemma TrailingAfterOwn(ls: seq<string>, ks: seq<Option<Section>>, x: string, k: Option<Section>, s: Section)
    requires |ks| == |ls| && k.Some? && ks != [] && ks[|ks| - 1] == Some(s)
    ensures TextOf(ls + [x], ks + [k], s) == ""
  {
    var all := ks + [k];
    var n := |ls|;
    assert Counted(all, s) == Some(n - 1);
    assert NextHeaderFrom(all, n) == n;
  }

  /** The s header line counted stays the same when a header line is appended after another line. */
  lemma TrailingCounted(ks: seq<Option<Section>>, k: Option<Section>, s: Section)
    requires k.Some? && !(ks != [] && ks[|ks| - 1] == Some(s))
    ensures Counted(ks + [k], s) == Counted(ks, s)
  {
    var all := ks + [k];
    var n := |ks|;
    if n > 0 {
      assert LastKindBelow(all, s, n) == LastKindBelow(all, s, n - 1);
      LastKindPrefix(ks, [k], s, n - 1);
    } else {
      assert LastKindBelow(all, s, 0).None?;
    }
  }

  /** A header line appended after the last line does not change the content lines of an earlier header. */
  lemma TrailingBlock(ls: seq<string>, ks: seq<Option<Section>>, x: string, k: Option<Section>, h: nat)
    requires |ks| == |ls| && k.Some? && h < |ls|
    ensures Block(ls + [x], ks + [k], h) == Block(ls, ks, h)
  {
    var e := NextHeaderFrom(ks, h + 1);
    NextHeaderIs(ks + [k], h + 1, e);
    assert (ls + [x])[h + 1..e] == ls[h + 1..e];
  }

  /** A header line appended after any other line leaves the text of section s unchanged. */
  lemma TrailingAfterOther(ls: seq<string>, ks: seq<Option<Section>>, x: string, k: Option<Section>, s: Section)
    requires |ks| == |ls| && k.Some? && !(ks != [] && ks[|ks| - 1] == Some(s))
    ensures TextOf(ls + [x], ks + [k], s) == TextOf(ls, ks, s)
  {
    TrailingCounted(ks, k, s);
    match Counted(ks, s)
    case None =>
    case Some(h) =>
      TrailingBlock(ls, ks, x, k, h);
  }

  /**
   * A header line at the end of a document flushes the section before it
   * even when that section gathered nothing: an education or experience
   * section whose header was the last line becomes empty, and the other
   * text field is unchanged.
   */
  lemma TrailingHeader(ls: seq<string>, x: string, s: Section)
    requires HeaderOf(x).Some? && s != Skills
    ensures ls != [] && HeaderOf(ls[|ls| - 1]) == Some(s) ==> TextOf(ls + [x], Kinds(ls + [x]), s) == ""
    ensures !(ls != [] && HeaderOf(ls[|ls| - 1]) == Some(s)) ==>
              TextOf(ls + [x], Kinds(ls + [x]), s) == TextOf(ls, Kinds(ls), s)
  {
    var ks := Kinds(ls);
    KindsSnoc(ls, x);
    if ls != [] && HeaderOf(ls[|ls| - 1]) == Some(s) {
      TrailingAfterOwn(ls, ks, x, HeaderOf(x), s);
    } else {
      TrailingAfterOther(ls, ks, x, HeaderOf(x), s);
    }
  }

  lemma KindsSnoc(ls: seq<string>, x: string)
    ensures Kinds(ls + [x]) == Kinds(ls) + [HeaderOf(x)]
  {
    KindsAppend(ls, [x]);
    assert Kinds([x]) == [HeaderOf(x)];
  }

  /**
   * The skills field when a header line ends the document: a skills header
   * right before it gives [""] (the empty flushed text, split on commas);
   * otherwise the skills section keeps its content lines but is now closed,
   * so they are joined and split on commas instead of kept one per line.
   */
  lemma TrailingHeaderSkills(ls: seq<string>, x: string)
    requires HeaderOf(x).Some?
    ensures ls != [] && HeaderOf(ls[|ls| - 1]) == Some(Skills) ==> SkillsOf(ls + [x], Kinds(ls + [x])) == [""]
    ensures !(ls != [] && HeaderOf(ls[|ls| - 1]) == Some(Skills)) ==>
              SkillsOf(ls + [x], Kinds(ls + [x]))
              == match SkillsBlock(ls, Kinds(ls)) case None => [] case Some((block, _)) => SkillItems(block, true)
  {
    var ks := Kinds(ls);
    KindsSnoc(ls, x);
    if ks != [] && ks[|ks| - 1] == Some(Skills) {
      SkillsAfterOwn(ls, ks, x, HeaderOf(x));
    } else {
      SkillsAfterOther(ls, ks, x, HeaderOf(x));
    }
  }

  /** A header line appended right after a skills header line makes the skills field [""]. */
  lemma SkillsAfterOwn(ls: seq<string>, ks: seq<Option<Section>>, x: string, k: Option<Section>)
    requires |ks| == |ls| && k.Some? && ks != [] && ks[|ks| - 1] == Some(Skills)
    ensures SkillsOf(ls + [x], ks + [k]) == [""]
  {
    var all := ks + [k];
    var n := |ls|;
    assert Counted(all, Skills) == Some(n - 1);
    assert NextHeaderFrom(all, n) == n;
    assert Block(ls + [x], all, n - 1) == [];
    assert Split("", ',') == [""];
  }

  /** A header line appended after any other line closes the skills section without changing its content. */
  lemma SkillsAfterOther(ls: seq<string>, ks: seq<Option<Section>>, x: string, k: Option<Section>)
    requires |ks| == |ls| && k.Some? && !(ks != [] && ks[|ks| - 1] == Some(Skills))
    ensures SkillsOf(ls + [x], ks + [k])
            == match SkillsBlock(ls, ks) case None => [] case Some((block, _)) => SkillItems(block, true)
  {
    TrailingCounted(ks, k, Skills);
    match Counted(ks, Skills)
    case None =>
    case Some(h) =>
      TrailingBlock(ls, ks, x, k, h);
      assert NextHeaderFrom(ks + [k], h + 1) <= |ks|;
  }
}
