/**
 * PDFParser (app/services/parser/pdf_parser.py) over the text pdfminer
 * extracts, which is a parameter here: extract_info's three fields, and
 * extract_sections, the section state machine run over the stripped,
 * non-blank lines of the text.
 */
module PdfParser {
  import opened Wrappers
  import opened Strings
  import opened Patterns
  import opened SectionMachine
  import ResumeParser

  /** The dict extract_info returns; None stands for Python's None. */
  datatype Info = Info(name: string, email: Option<string>, phone: Option<string>)

  /** text.split('\n')[0].strip(): the first line of the text, stripped. */
  function FirstLine(text: string): (r: string)
    ensures '\n' !in r && Strip(r) == r
    ensures '\n' !in text ==> r == Strip(text)
  {
    var lines := Split(text, '\n');
    assert '\n' !in text ==> lines == [text] by {
      if '\n' !in text {
        SplitWithoutSep(text, '\n');
      }
    }
    StripIdempotent(lines[0]);
    Strip(lines[0])
  }

  /** The name is read from the first line alone, however blank it is and whatever follows. */
  lemma NameIsFirstLine(line: string, rest: string)
    requires '\n' !in line
    ensures FirstLine(line + "\n" + rest) == Strip(line)
  {
    SplitPrefix(line, "\n" + rest, '\n');
    assert line + "\n" + rest == line + ("\n" + rest);
    assert Split("\n" + rest, '\n') == [""] + Split(rest, '\n');
    assert line + "" == line;
  }

  /** re.findall(email_pattern, text)[0], or None when there is no match. */
  function FirstEmailOf(text: string): (r: Option<string>)
    ensures r.None? <==> forall i: nat, a: nat, e: nat, g: nat :: !EmailAt(text, i, a, e, g)
    ensures r.Some? ==> r.value == ResumeParser.ExtractEmail(text) && r.value != ""
  {
    match FirstEmail(text)
    case None => None
    case Some((i, m)) => Some(text[i..m.end])
  }

  /**
   * re.findall(phone_pattern, text)[0] as written: the pattern has one
   * capture group, so findall yields the group, "+84" or "0", and never
   * the number.
   */
  function PhoneGroup(text: string): (r: Option<string>)
    ensures r.None? <==> forall j: nat, g: nat, end: nat :: !VnPhoneAt(text, j, g, end)
    ensures r.Some? ==> r.value == "+84" || r.value == "0"
  {
    match VnPhoneSearch(text, 0)
    case None => None
    case Some((i, g, end)) => Some(text[i..i + g])
  }

  /** The whole first match of the phone pattern: what the phone field is evidently meant to hold. */
  function PhoneNumber(text: string): (r: Option<string>)
    ensures r.None? <==> forall j: nat, g: nat, end: nat :: !VnPhoneAt(text, j, g, end)
    ensures r.Some? ==> exists i: nat :: OccursAt(text, r.value, i)
    ensures r.Some? ==> 10 <= |r.value| <= 13 && (StartsWith(r.value, "+84") || StartsWith(r.value, "0"))
  {
    match VnPhoneSearch(text, 0)
    case None => None
    case Some((i, g, end)) =>
      var number := text[i..end];
      assert OccursAt(text, number, i);
      assert number[..g] == text[i..i + g];
      Some(number)
  }

  /** extract_info as written: the phone field holds only the capture group. */
  function ExtractInfo(text: string): (r: Info)
    ensures '\n' !in r.name
    ensures r.email.Some? ==> r.email.value == ResumeParser.ExtractEmail(text)
    ensures r.phone.Some? ==> r.phone.value == "+84" || r.phone.value == "0"
    ensures r.phone.None? <==> forall j: nat, g: nat, end: nat :: !VnPhoneAt(text, j, g, end)
  {
    Info(FirstLine(text), FirstEmailOf(text), PhoneGroup(text))
  }

  /** extract_info as evidently intended: the phone field holds the whole number. */
  function ExtractInfoFixed(text: string): (r: Info)
    ensures r.name == FirstLine(text) && r.email == FirstEmailOf(text)
    ensures r.phone.Some? <==> exists j: nat, g: nat, end: nat :: VnPhoneAt(text, j, g, end)
    ensures r.phone.Some? ==> 10 <= |r.phone.value| <= 13
  {
    Info(FirstLine(text), FirstEmailOf(text), PhoneNumber(text))
  }

  /** The field as written is a strict prefix of the number it was meant to hold. */
  lemma PhoneGroupTruncates(text: string)
    ensures PhoneGroup(text).Some? <==> PhoneNumber(text).Some?
    ensures PhoneGroup(text).Some? ==>
              StartsWith(PhoneNumber(text).value, PhoneGroup(text).value)
              && |PhoneGroup(text).value| < |PhoneNumber(text).value|
  {
    match VnPhoneSearch(text, 0)
    case None =>
    case Some((i, g, end)) =>
      assert text[i..end][..g] == text[i..i + g];
  }

  /** A text that starts with a phone number has its first match at the start, with the same group. */
  lemma MatchAtStart(s: string, g: nat, end: nat)
    requires VnPhoneAt(s, 0, g, end)
    ensures VnPhoneSearch(s, 0).Some?
    ensures var (i, g', end') := VnPhoneSearch(s, 0).value; i == 0 && g' == g && end <= end' <= |s|
  {
  }

  /** A ten-digit mobile number on its own gives "0" as extract_info's phone field, and itself as the whole match. */
  lemma MobileNumberGivesZero()
    ensures PhoneGroup("0912345678") == Some("0")
    ensures PhoneNumber("0912345678") == Some("0912345678")
  {
    var s := "0912345678";
    assert VnPhoneAt(s, 0, 1, 10) by {
      forall k: nat | 1 <= k < 10 ensures IsAsciiDigit(s[k]) { }
    }
    MatchAtStart(s, 1, 10);
    assert VnPhoneSearch(s, 0) == Some((0, 1, 10));
    assert s[0..1] == "0" && s[0..10] == s;
  }

  /** [line.strip() for line in xs[..i + 1] if line.strip()] extends the list for xs[..i]. */
  lemma PreparedStep(xs: seq<string>, i: nat)
    requires i < |xs|
    ensures Prepared(xs[..i + 1]) == Prepared(xs[..i]) + (if Strip(xs[i]) != "" then [Strip(xs[i])] else [])
  {
    assert xs[..i + 1][..i] == xs[..i];
  }

  /** The lines kept from a prefix of xs are a prefix of the lines kept from xs. */
  lemma {:induction false} PreparedPrefix(xs: seq<string>, i: nat)
    requires i <= |xs|
    ensures Prepared(xs[..i]) <= Prepared(xs)
    decreases |xs|
  {
    if i < |xs| {
      var front := xs[..|xs| - 1];
      PreparedPrefix(front, i);
      assert front[..i] == xs[..i];
      PreparedStep(xs, |xs| - 1);
      assert xs[..|xs|] == xs;
    } else {
      assert xs[..i] == xs;
    }
  }

  /** How many lines of xs[..i + 1] are kept, and where the kept line xs[i] lands among all kept lines. */
  lemma KeptLine(xs: seq<string>, i: nat)
    requires i < |xs|
    ensures Strip(xs[i]) == "" ==> |Prepared(xs[..i + 1])| == |Prepared(xs[..i])|
    ensures Strip(xs[i]) != "" ==>
              |Prepared(xs[..i + 1])| == |Prepared(xs[..i])| + 1 <= |Prepared(xs)|
              && Prepared(xs)[|Prepared(xs[..i])|] == Strip(xs[i])
  {
    PreparedStep(xs, i);
    PreparedPrefix(xs, i + 1);
    if Strip(xs[i]) != "" {
      assert Prepared(xs[..i + 1])[|Prepared(xs[..i])|] == Strip(xs[i]);
    }
  }

  /**
   * The body of extract_sections' loop for lines[i]: the line is stripped,
   * skipped when blank, and otherwise goes through the machine.
   */
  method FeedLine(sections: map<Section, Value>, current: Option<Section>, buffer: seq<string>,
                  lines: seq<string>, i: nat, ghost k: nat)
    returns (sections': map<Section, Value>, current': Option<Section>, buffer': seq<string>)
    requires i < |lines| && k == |Prepared(lines[..i])| <= |Prepared(lines)|
    requires IsStateAt(Prepared(lines), Kinds(Prepared(lines)), k, sections, current, buffer)
    ensures |Prepared(lines[..i + 1])| <= |Prepared(lines)|
    ensures IsStateAt(Prepared(lines), Kinds(Prepared(lines)), |Prepared(lines[..i + 1])|, sections', current', buffer')
  {
    ghost var ls := Prepared(lines);
    KeptLine(lines, i);
    var line := Strip(lines[i]);
    if line != "" {
      sections', current', buffer' := Feed(sections, current, buffer, line, ls, Kinds(ls), k);
    } else {
      sections', current', buffer' := sections, current, buffer;
    }
  }

  /** The loop of extract_sections over the lines of the text. */
  method ScanLines(lines: seq<string>) returns (sections: map<Section, Value>, current: Option<Section>, buffer: seq<string>)
    ensures IsStateAt(Prepared(lines), Kinds(Prepared(lines)), |Prepared(lines)|, sections, current, buffer)
  {
    ghost var ls := Prepared(lines);
    InitialState(ls);
    sections, current, buffer := InitialDict, None, [];
    ghost var k := 0;
    var i := 0;
    while i < |lines|
      invariant i <= |lines| && k == |Prepared(lines[..i])| <= |ls|
      invariant IsStateAt(ls, Kinds(ls), k, sections, current, buffer)
    {
      sections, current, buffer := FeedLine(sections, current, buffer, lines, i, k);
      k := |Prepared(lines[..i + 1])|;
      i := i + 1;
    }
    assert lines[..i] == lines;
  }

  /** extract_sections: the lines of the text through the machine, then the final flush. */
  method ExtractSections(text: string) returns (r: Sections)
    ensures r == SectionsRef(Prepared(Split(text, '\n')))
  {
    var lines := Split(text, '\n');
    var sections, current, buffer := ScanLines(lines);
    r := Finish(sections, current, buffer, Prepared(lines));
  }
}
