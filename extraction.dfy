/**
 * Text extraction from an uploaded résumé (backend/main.py, lines 53-132):
 * the page-by-page (PDF) or paragraph-by-paragraph (DOCX) assembly loop, the
 * extension taken from the file name, and the dispatch on that extension.
 * The PDF and DOCX libraries are not modelled: a `Reader` stands for what
 * the library makes of the uploaded bytes.
 */
module Extraction {
  import opened Results
  import opened PyStr

  type Bytes = seq<bv8>

  /** What a document library yields for an upload: the text of each page or
      paragraph, in order, or the description of the exception it raised. */
  datatype Reading = Read(texts: seq<string>) | Unreadable(cause: string)

  type Reader = Bytes -> Reading

  /** The two document libraries: PyPDF2's `PdfReader` and python-docx's `Document`. */
  datatype Readers = Readers(pdf: Reader, docx: Reader)

  datatype Format = Pdf | Docx

  /** The text the loop builds before stripping: every piece followed by a
      newline, in order. */
  function JoinLines(parts: seq<string>): string
  {
    if parts == [] then [] else JoinLines(parts[..|parts| - 1]) + parts[|parts| - 1] + "\n"
  }

  /** The assembled text is the pieces joined by newlines, with a final newline. */
  lemma {:induction false} JoinLinesIsJoin(parts: seq<string>)
    ensures JoinLines(parts) == Join('\n', parts + [""])
    decreases |parts|
  {
    if parts != [] {
      var init := parts[..|parts| - 1];
      var last := parts[|parts| - 1];
      JoinLinesIsJoin(init);
      assert parts + [""] == (init + [last]) + [""];
      if init == [] {
        assert Join('\n', [last, ""]) == last + ['\n'] + Join('\n', [""]);
      } else {
        JoinSnoc('\n', init, last);
        JoinSnoc('\n', init + [last], "");
        JoinSnoc('\n', init, "");
      }
    }
  }

  /** The assembled text is blank exactly when every piece is blank. */
  lemma {:induction false} JoinLinesAllSpace(parts: seq<string>)
    ensures AllSpace(JoinLines(parts)) <==> forall i :: 0 <= i < |parts| ==> AllSpace(parts[i])
    decreases |parts|
  {
    if parts != [] {
      var init := parts[..|parts| - 1];
      var last := parts[|parts| - 1];
      JoinLinesAllSpace(init);
      var head := JoinLines(init);
      assert JoinLines(parts) == head + last + "\n";
      if AllSpace(JoinLines(parts)) {
        assert AllSpace(head) by {
          forall i | 0 <= i < |head| ensures IsSpace(head[i]) {
            assert JoinLines(parts)[i] == head[i];
          }
        }
        forall i | 0 <= i < |parts| ensures AllSpace(parts[i]) {
          if i < |init| {
            assert parts[i] == init[i];
          } else {
            forall j | 0 <= j < |last| ensures IsSpace(last[j]) {
              assert JoinLines(parts)[|head| + j] == last[j];
            }
          }
        }
      } else {
        var j :| 0 <= j < |JoinLines(parts)| && !IsSpace(JoinLines(parts)[j]);
        if j < |head| {
          assert head[j] == JoinLines(parts)[j];
          var i :| 0 <= i < |init| && !AllSpace(init[i]);
          assert parts[i] == init[i];
        } else {
          assert j < |head| + |last|;
          assert last[j - |head|] == JoinLines(parts)[j];
          assert !AllSpace(parts[|parts| - 1]);
        }
      }
    }
  }

  /**
   * The loop of `extract_text_from_pdf` and `extract_text_from_docx`: append
   * each page's or paragraph's text and a newline, then strip the whole.
   */
  method AssembleText(parts: seq<string>) returns (text: string)
    ensures text == Strip(JoinLines(parts))
    ensures IsStripped(text)
    ensures text == [] <==> forall i :: 0 <= i < |parts| ==> AllSpace(parts[i])
  {
    text := "";
    var i := 0;
    while i < |parts|
      invariant 0 <= i <= |parts|
      invariant text == JoinLines(parts[..i])
    {
      assert parts[..i + 1][..i] == parts[..i];
      text := text + parts[i] + "\n";
      i := i + 1;
    }
    assert parts[..i] == parts;
    JoinLinesAllSpace(parts);
    text := Strip(text);
  }

  function FormatName(format: Format): string
  {
    match format
    case Pdf => "PDF"
    case Docx => "DOCX"
  }

  /**
   * `extract_text_from_pdf` / `extract_text_from_docx`: the stripped, newline-
   * joined text of the pieces, or a 400 naming the format and the library's
   * complaint.
   */
  function ExtractText(format: Format, reading: Reading): (r: Result<string, HttpError>)
    ensures r.Success? <==> reading.Read?
    ensures r.Success? ==> IsStripped(r.value)
    ensures r.Success? ==> (r.value == [] <==> forall i :: 0 <= i < |reading.texts| ==> AllSpace(reading.texts[i]))
    ensures r.Failure? ==> r.error.status == 400 && StartsWith(r.error.detail, "Error extracting ")
    ensures reading.Read? ==> r == Success(Strip(Join('\n', reading.texts + [""])))
    ensures reading.Unreadable? ==>
      r == Failure(HttpError(400, "Error extracting " + FormatName(format) + ": " + reading.cause))
  {
    match reading
    case Read(texts) =>
      JoinLinesAllSpace(texts);
      JoinLinesIsJoin(texts);
      Success(Strip(JoinLines(texts)))
    case Unreadable(cause) =>
      Failure(HttpError(400, "Error extracting " + FormatName(format) + ": " + cause))
  }

  /** `filename.lower().split('.')[-1]`. */
  function Extension(filename: string): (ext: string)
    ensures '.' !in ext
  {
    var parts := Split(Lower(filename), '.');
    parts[|parts| - 1]
  }

  /** The extension is the lower-cased text after the last dot, or the whole
      lower-cased name when it has no dot. */
  lemma ExtensionAfterLastDot(filename: string)
    ensures var ext := Extension(filename);
      '.' !in ext
      && |ext| <= |filename| && Lower(filename)[|filename| - |ext|..] == ext
      && ('.' in filename ==> |ext| < |filename| && filename[|filename| - |ext| - 1] == '.')
      && ('.' !in filename ==> ext == Lower(filename))
  {
    LowerKeepsSeparator(filename, '.');
    LastPiece(Lower(filename), '.');
  }

  /** The last piece of a split is the text after the last separator. */
  lemma {:induction false} LastPiece(s: string, sep: char)
    ensures var parts := Split(s, sep); var last := parts[|parts| - 1];
      |last| <= |s| && s[|s| - |last|..] == last
      && (sep in s ==> |last| < |s| && s[|s| - |last| - 1] == sep)
      && (sep !in s ==> last == s)
  {
    var parts := Split(s, sep);
    var last := parts[|parts| - 1];
    JoinSplit(s, sep);
    if |parts| == 1 {
      assert s == last;
    } else {
      var init := parts[..|parts| - 1];
      assert parts == init + [last];
      JoinSnoc(sep, init, last);
      assert s == Join(sep, init) + [sep] + last;
      assert s[|s| - |last| - 1] == sep;
    }
  }

  const AllowedExtensions: seq<string> := ["pdf", "docx"]

  function UnsupportedFormat(ext: string): HttpError
  {
    HttpError(400, "Unsupported file format: " + ext + ". Only PDF and DOCX are supported.")
  }

  /** `extract_text_from_file`: dispatch on the extension. */
  function ExtractTextFromFile(filename: string, content: Bytes, readers: Readers): (r: Result<string, HttpError>)
    ensures r.Failure? ==> r.error.status == 400
    ensures Extension(filename) == "pdf" ==> r == ExtractText(Pdf, readers.pdf(content))
    ensures Extension(filename) == "docx" ==> r == ExtractText(Docx, readers.docx(content))
    ensures Extension(filename) !in AllowedExtensions ==> r == Failure(UnsupportedFormat(Extension(filename)))
  {
    var ext := Extension(filename);
    if ext == "pdf" then ExtractText(Pdf, readers.pdf(content))
    else if ext == "docx" then ExtractText(Docx, readers.docx(content))
    else Failure(UnsupportedFormat(ext))
  }

  /**
   * The PDF library is consulted exactly for a `pdf` extension and the DOCX
   * library exactly for a `docx` one: readers that agree on the uploaded bytes
   * in the library that is consulted give the same outcome, whatever the other
   * library would have said. Every other extension is refused with the
   * unsupported-format error, without any library, and only then.
   */
  lemma DispatchByExtension(filename: string, content: Bytes, readers: Readers, others: Readers)
    ensures var ext := Extension(filename);
      (ext == "pdf" && readers.pdf(content) == others.pdf(content) ==>
        ExtractTextFromFile(filename, content, readers) == ExtractTextFromFile(filename, content, others))
      && (ext == "docx" && readers.docx(content) == others.docx(content) ==>
        ExtractTextFromFile(filename, content, readers) == ExtractTextFromFile(filename, content, others))
      && (ExtractTextFromFile(filename, content, readers) == Failure(UnsupportedFormat(ext))
        <==> ext !in AllowedExtensions)
  {
    var ext := Extension(filename);
    if ext in AllowedExtensions {
      var r := ExtractTextFromFile(filename, content, readers);
      if r.Failure? {
        assert StartsWith(r.error.detail, "Error extracting ");
        assert r.error.detail[0] == 'E';
        assert UnsupportedFormat(ext).detail[0] == 'U';
      }
    }
  }

  /** For a `pdf` or `docx` extension the unsupported-format error is never
      raised, whatever the libraries say. */
  lemma ExtractionNeverUnsupported(filename: string, content: Bytes, readers: Readers, ext: string)
    requires Extension(filename) in AllowedExtensions
    ensures ExtractTextFromFile(filename, content, readers) != Failure(UnsupportedFormat(ext))
  {
    var r := ExtractTextFromFile(filename, content, readers);
    if r.Failure? {
      assert r.error.detail[..17] == "Error extracting ";
      assert r.error.detail[0] == 'E';
      assert UnsupportedFormat(ext).detail[0] == 'U';
    }
  }

  /** The extension ignores case: "a.PDF" is classified as "a.pdf" is. */
  lemma ExtensionIgnoresCase(filename: string, other: string)
    requires Lower(filename) == Lower(other)
    ensures Extension(filename) == Extension(other)
  {
  }

  /** Worked case: the extension ignores case. */
  lemma UpperCaseExtension()
    ensures Extension("a.PDF") == Extension("a.pdf") == "pdf"
  {
    var lower := Lower("a.PDF");
    assert lower == "a.pdf";
    assert lower == "a" + ['.'] + "pdf";
    SplitAround("a", "pdf", '.');
    SplitWithoutSeparator("a", '.');
    SplitWithoutSeparator("pdf", '.');
  }

  /** Worked case: a name without a dot is its own extension. */
  lemma NameWithoutDot()
    ensures Extension("Resume") == "resume"
  {
    assert Lower("Resume") == "resume";
    SplitWithoutSeparator("resume", '.');
  }
}
