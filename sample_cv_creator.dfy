/**
 * `app/sample_cv_creator.py`: writes one PDF per sample CV into the input
 * folder.  The text is first made safe for the PDF font by replacing five
 * typographic characters with ASCII ones, then written one line per cell.
 * The PDF library is not modelled: a generated PDF is the path it is saved
 * under and the lines it receives, in order, and the set of characters its
 * font can encode is a parameter.
 */
module SampleCvCreator {
  import opened Wrappers
  import opened Text

  const OutputDir: string := "cv_documents"

  /** One entry of `cv_samples`; the list itself is an input of the generation loop. */
  datatype CvSample = CvSample(name: string, content: string)

  const EnDash: char := '\U{2013}'
  const EmDash: char := '\U{2014}'
  const RightSingleQuote: char := '\U{2019}'
  const LeftDoubleQuote: char := '\U{201C}'
  const RightDoubleQuote: char := '\U{201D}'
  const LeftSingleQuote: char := '\U{2018}'

  /** The five characters `sanitize_text` replaces. */
  predicate IsReplaced(c: char)
  {
    c == EnDash || c == EmDash || c == RightSingleQuote || c == LeftDoubleQuote || c == RightDoubleQuote
  }

  /** The substitution table, one character at a time: dashes to `-`, the apostrophe to `'`, double quotes to `"`. */
  function SanitizeChar(c: char): char
  {
    if c == EnDash || c == EmDash then '-'
    else if c == RightSingleQuote then '\''
    else if c == LeftDoubleQuote || c == RightDoubleQuote then '"'
    else c
  }

  /**
   * `sanitize_text`: the chain of five `replace` calls.  Every replacement
   * is one character for one character, so the chain acts position by
   * position as the substitution table does.
   */
  function SanitizeText(text: string): (r: string)
    ensures |r| == |text|
    ensures forall i :: 0 <= i < |text| ==> r[i] == SanitizeChar(text[i])
  {
    var t1 := ReplaceChar(text, EnDash, '-');
    var t2 := ReplaceChar(t1, EmDash, '-');
    var t3 := ReplaceChar(t2, RightSingleQuote, '\'');
    var t4 := ReplaceChar(t3, LeftDoubleQuote, '"');
    ReplaceChar(t4, RightDoubleQuote, '"')
  }

  /** None of the five characters survives. */
  lemma SanitizeRemovesReplaced(text: string)
    ensures forall i :: 0 <= i < |text| ==> !IsReplaced(SanitizeText(text)[i])
  {
  }

  /** Every other character stays where it was; the left single quote, for one, is not replaced. */
  lemma SanitizeKeepsOthers(text: string, i: int)
    requires 0 <= i < |text| && !IsReplaced(text[i])
    ensures SanitizeText(text)[i] == text[i]
  {
  }

  lemma LeftSingleQuoteUntouched()
    ensures !IsReplaced(LeftSingleQuote)
    ensures SanitizeText([LeftSingleQuote]) == [LeftSingleQuote]
  {
  }

  /** Sanitising sanitised text changes nothing. */
  lemma SanitizeIdempotent(text: string)
    ensures SanitizeText(SanitizeText(text)) == SanitizeText(text)
  {
    var once := SanitizeText(text);
    assert forall i :: 0 <= i < |once| ==> SanitizeText(once)[i] == once[i];
  }

  /** Sanitising keeps every line break, so it keeps the number of lines. */
  lemma SanitizeKeepsNewlines(text: string)
    ensures Count(SanitizeText(text), '\n') == Count(text, '\n')
  {
    CountSamePositions(SanitizeText(text), text, '\n');
  }

  /**
   * `f"{cv['name'].replace(' ', '_')}.pdf"`: the name with every space made
   * an underscore, then the suffix.
   */
  function PdfFileName(name: string): (f: string)
    ensures ' ' !in f
    ensures |f| == |name| + 4 && f[|name|..] == ".pdf"
    ensures forall i :: 0 <= i < |name| ==> f[i] == if name[i] == ' ' then '_' else name[i]
  {
    var stem := ReplaceChar(name, ' ', '_');
    assert forall i :: 0 <= i < |stem| ==> stem[i] != ' ';
    stem + ".pdf"
  }

  /** A generated PDF: where it is saved and the lines written into it, one `multi_cell` each. */
  datatype Pdf = Pdf(path: string, cells: seq<string>)

  /**
   * The built-in Arial font of the PDF library encodes only some characters;
   * `encodable` says which.  A line holding any other character makes
   * `multi_cell` or `output` raise.
   */
  predicate CellEncodable(line: string, encodable: char -> bool)
  {
    forall j :: 0 <= j < |line| ==> encodable(line[j])
  }

  /** The lines `create_pdf` writes: the sanitised text split at line breaks. */
  function PdfLines(text: string): seq<string>
  {
    Split(SanitizeText(text), '\n')
  }

  /** `create_pdf` raises for this text: some line cannot be encoded. */
  predicate PdfFails(text: string, encodable: char -> bool)
  {
    exists i :: 0 <= i < |PdfLines(text)| && !CellEncodable(PdfLines(text)[i], encodable)
  }

  /** `create_pdf` raises exactly when the sanitised text holds a character, other than a line break, that the font cannot encode. */
  lemma PdfFailsIffUnencodable(text: string, encodable: char -> bool)
    ensures PdfFails(text, encodable) <==>
      exists x :: x in SanitizeText(text) && x != '\n' && !encodable(x)
  {
    var s, lines := SanitizeText(text), PdfLines(text);
    if PdfFails(text, encodable) {
      var i :| 0 <= i < |lines| && !CellEncodable(lines[i], encodable);
      var j :| 0 <= j < |lines[i]| && !encodable(lines[i][j]);
      var x := lines[i][j];
      assert x != '\n' by { assert '\n' !in lines[i]; }
      JoinMembers('\n', lines, x);
    }
    if exists x :: x in s && x != '\n' && !encodable(x) {
      var x :| x in s && x != '\n' && !encodable(x);
      JoinMembers('\n', lines, x);
      var i :| 0 <= i < |lines| && x in lines[i];
      var j :| 0 <= j < |lines[i]| && lines[i][j] == x;
      assert !CellEncodable(lines[i], encodable);
    }
  }

  /** Text in which every character is encodable, or one of the replaced ones whose ASCII substitute is, never fails. */
  lemma EncodableTextSucceeds(text: string, encodable: char -> bool)
    requires encodable('-') && encodable('\'') && encodable('"')
    requires forall j :: 0 <= j < |text| ==> IsReplaced(text[j]) || encodable(text[j])
    ensures !PdfFails(text, encodable)
  {
    PdfFailsIffUnencodable(text, encodable);
    var s := SanitizeText(text);
    forall x | x in s && x != '\n' ensures encodable(x) {
      var j :| 0 <= j < |s| && s[j] == x;
      assert s[j] == SanitizeChar(text[j]);
    }
  }

  /**
   * `create_pdf` (lines 58-65): one cell per line of the sanitised text,
   * which is one more cell than the text has line breaks; `None` when a
   * line cannot be written, and then no PDF is produced.
   */
  method CreatePdf(filePath: string, text: string, encodable: char -> bool) returns (r: Option<Pdf>)
    ensures r.None? <==> PdfFails(text, encodable)
    ensures r.Some? ==>
      && r.value.path == filePath
      && r.value.cells == PdfLines(text)
      && |r.value.cells| == Count(text, '\n') + 1
      && Join("\n", r.value.cells) == SanitizeText(text)
      && forall i :: 0 <= i < |r.value.cells| ==> '\n' !in r.value.cells[i]
  {
    var lines := Split(SanitizeText(text), '\n');
    var cells := [];
    var i := 0;
    while i < |lines|
      invariant 0 <= i <= |lines|
      invariant cells == lines[..i]
      invariant forall j :: 0 <= j < i ==> CellEncodable(lines[j], encodable)
    {
      if !CellEncodable(lines[i], encodable) {
        assert lines == PdfLines(text);
        return None;
      }
      cells := cells + [lines[i]];
      i := i + 1;
    }
    assert lines[..|lines|] == lines;
    SanitizeKeepsNewlines(text);
    return Some(Pdf(filePath, cells));
  }

  /**
   * The generation loop (lines 68-73): one PDF per sample, in sample order,
   * each saved in the output folder under the name derived from the sample.
   * The first sample whose PDF cannot be written ends the script with the
   * error, after the paths of the samples before it were collected.
   */
  method GeneratePdfs(samples: seq<CvSample>, encodable: char -> bool)
    returns (pdfFiles: seq<string>, pdfs: seq<Pdf>, raised: bool)
    ensures |pdfs| == |pdfFiles| <= |samples|
    ensures forall i :: 0 <= i < |pdfFiles| ==>
      && !PdfFails(samples[i].content, encodable)
      && pdfFiles[i] == PathJoin(OutputDir, PdfFileName(samples[i].name))
      && pdfs[i].path == pdfFiles[i]
      && pdfs[i].cells == PdfLines(samples[i].content)
    ensures raised <==> |pdfFiles| < |samples|
    ensures raised ==> PdfFails(samples[|pdfFiles|].content, encodable)
  {
    pdfFiles, pdfs := [], [];
    var i := 0;
    while i < |samples|
      invariant 0 <= i <= |samples|
      invariant |pdfFiles| == i && |pdfs| == i
      invariant forall j :: 0 <= j < i ==>
        && !PdfFails(samples[j].content, encodable)
        && pdfFiles[j] == PathJoin(OutputDir, PdfFileName(samples[j].name))
        && pdfs[j].path == pdfFiles[j]
        && pdfs[j].cells == PdfLines(samples[j].content)
    {
      var cv := samples[i];
      var filename := PdfFileName(cv.name);
      var filePath := PathJoin(OutputDir, filename);
      var pdf := CreatePdf(filePath, cv.content, encodable);
      if pdf.None? {
        return pdfFiles, pdfs, true;
      }
      pdfs := pdfs + [pdf.value];
      pdfFiles := pdfFiles + [filePath];
      i := i + 1;
    }
    raised := false;
  }

  /** A two-word name such as "Data Analyst" becomes the words joined by an underscore, plus the suffix. */
  lemma TwoWordFileName(first: string, second: string)
    requires ' ' !in first && ' ' !in second
    ensures PdfFileName(first + " " + second) == first + "_" + second + ".pdf"
  {
    var stem := ReplaceChar(first + " " + second, ' ', '_');
    assert PdfFileName(first + " " + second) == stem + ".pdf";
    ReplaceAppend(first + " ", second, ' ', '_');
    ReplaceAppend(first, " ", ' ', '_');
    ReplaceAbsent(first, ' ', '_');
    ReplaceAbsent(second, ' ', '_');
    assert ReplaceChar(" ", ' ', '_') == "_";
    assert stem == first + "_" + second;
  }

  /** Unless the name starts with `/`, the PDF lands directly inside the output folder. */
  lemma PdfPathInOutputDir(name: string)
    requires name == [] || name[0] != '/'
    ensures PathJoin(OutputDir, PdfFileName(name)) == OutputDir + "/" + PdfFileName(name)
  {
  }
}
