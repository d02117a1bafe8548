/**
 * DocxParser (app/services/parser/docx_parser.py) over the paragraph texts
 * python-docx reads, which are a parameter here: extract_text joins them,
 * extract_info reads the joined text as PDFParser.extract_info does, and
 * extract_sections runs the section state machine over the stripped,
 * non-blank paragraphs.
 */
module DocxParser {
  import opened Wrappers
  import opened Strings
  import opened SectionMachine
  import PdfParser

  /** extract_text: the paragraph texts joined with newlines; splitting gives them back. */
  function ExtractText(paragraphs: seq<string>): (r: string)
    ensures |paragraphs| >= 1 && (forall k :: 0 <= k < |paragraphs| ==> '\n' !in paragraphs[k]) ==>
              Split(r, '\n') == paragraphs
  {
    assert |paragraphs| >= 1 && (forall k :: 0 <= k < |paragraphs| ==> '\n' !in paragraphs[k]) ==>
             Split(Join(paragraphs, '\n'), '\n') == paragraphs by {
      if |paragraphs| >= 1 && (forall k :: 0 <= k < |paragraphs| ==> '\n' !in paragraphs[k]) {
        SplitJoin(paragraphs, '\n');
      }
    }
    Join(paragraphs, '\n')
  }

  /**
   * extract_info: the fields PDFParser.extract_info reads from the joined
   * text. The name is the first paragraph, stripped, and the phone is only
   * the capture group of the phone pattern.
   */
  function ExtractInfo(paragraphs: seq<string>): (r: PdfParser.Info)
    ensures r == PdfParser.ExtractInfo(ExtractText(paragraphs))
    ensures r.phone.Some? ==> r.phone.value == "+84" || r.phone.value == "0"
    ensures |paragraphs| >= 1 && '\n' !in paragraphs[0] ==> r.name == Strip(paragraphs[0])
  {
    assert |paragraphs| >= 1 && '\n' !in paragraphs[0] ==>
             PdfParser.FirstLine(ExtractText(paragraphs)) == Strip(paragraphs[0]) by {
      if |paragraphs| > 1 && '\n' !in paragraphs[0] {
        PdfParser.NameIsFirstLine(paragraphs[0], Join(paragraphs[1..], '\n'));
        assert ExtractText(paragraphs) == paragraphs[0] + "\n" + Join(paragraphs[1..], '\n');
      }
    }
    PdfParser.ExtractInfo(ExtractText(paragraphs))
  }

  /** The loop of extract_sections over the prepared paragraphs. */
  method ScanParagraphs(paragraphs: seq<string>) returns (sections: map<Section, Value>, current: Option<Section>, buffer: seq<string>)
    ensures IsStateAt(paragraphs, Kinds(paragraphs), |paragraphs|, sections, current, buffer)
  {
    ghost var ks := Kinds(paragraphs);
    InitialState(paragraphs);
    sections, current, buffer := InitialDict, None, [];
    for i := 0 to |paragraphs|
      invariant IsStateAt(paragraphs, ks, i, sections, current, buffer)
    {
      sections, current, buffer := Feed(sections, current, buffer, paragraphs[i], paragraphs, ks, i);
    }
  }

  /**
   * extract_sections: [p.text.strip() for p in paragraphs if p.text.strip()]
   * through the machine, then the final flush.
   */
  method ExtractSections(paragraphs: seq<string>) returns (r: Sections)
    ensures r == SectionsRef(Prepared(paragraphs))
  {
    var prepared := Prepared(paragraphs);
    var sections, current, buffer := ScanParagraphs(prepared);
    r := Finish(sections, current, buffer, prepared);
  }

  /**
   * When no paragraph holds a line break, extract_sections over the
   * paragraphs gives what PDFParser.extract_sections gives over their
   * joined text.
   */
  lemma SectionsAgreeWithJoinedText(paragraphs: seq<string>)
    requires forall k :: 0 <= k < |paragraphs| ==> '\n' !in paragraphs[k]
    ensures SectionsRef(Prepared(paragraphs)) == SectionsRef(Prepared(Split(ExtractText(paragraphs), '\n')))
  {
    if paragraphs == [] {
      assert Split(ExtractText(paragraphs), '\n') == [""];
      assert Prepared([""]) == [];
    }
  }
}
