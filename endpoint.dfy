/**
 * The request handlers of backend/main.py: `health_check` (lines 276-285) and
 * `analyze_resume` (lines 288-375), a fixed order of guards followed by a
 * `try` block whose exceptions are mapped to HTTP errors. The API key that
 * the module reads from the environment at start-up is a parameter here.
 */
module Endpoint {
  import opened Results
  import opened PyStr
  import opened Extraction
  import opened Gemini

  /** `await resumeFile.read()`: the uploaded bytes, or the exception raised. */
  datatype FileRead = Content(bytes: Bytes) | ReadError(cause: string)

  /** FastAPI's `UploadFile`: the client's file name and what reading it gives. */
  datatype Upload = Upload(filename: string, content: FileRead)

  /** Everything outside the backend that a request may consult. */
  datatype Services = Services(readers: Readers, gemini: Gemini)

  /** `bool(GEMINI_API_KEY)`: the variable is set and not empty. */
  predicate Configured(apiKey: Option<string>)
  {
    apiKey.Some? && apiKey.value != ""
  }

  datatype Health = Health(status: string, message: string, geminiConfigured: bool)

  /** `health_check`. */
  function HealthCheck(apiKey: Option<string>): (h: Health)
    ensures h.status == "healthy"
    ensures h.geminiConfigured <==> apiKey.Some? && |apiKey.value| > 0
  {
    Health("healthy", "Resume Analyzer API is running!", Configured(apiKey))
  }

  const KeyMissing: HttpError :=
    HttpError(500, "Gemini API key not configured. " + "Please add GEMINI_API_KEY to .env file")
  const FileRequired: HttpError := HttpError(400, "Resume file is required")
  const JobDescriptionRequired: HttpError := HttpError(400, "Job description is required")
  const InvalidFileType: HttpError := HttpError(400, "Invalid file type. Allowed: pdf, docx")
  const NotEnoughText: HttpError :=
    HttpError(400, "Could not extract enough text from resume. "
                   + "Please ensure the file is not corrupted or password-protected.")

  /** The shortest résumé text that is sent for analysis. */
  const MinResumeLength: nat := 50

  /**
   * Lines 306-335: the first guard that fails, or None when the request may
   * go on. A request goes on exactly when the key is configured, a file was
   * sent, the job description has a non-blank character and the file name's
   * extension is `pdf` or `docx`.
   */
  function Validate(apiKey: Option<string>, resumeFile: Option<Upload>, jobDescription: string): (failure: Option<HttpError>)
    ensures failure.None? <==>
      Configured(apiKey) && resumeFile.Some? && !AllSpace(jobDescription)
      && Extension(resumeFile.value.filename) in AllowedExtensions
    ensures failure.Some? ==> failure.value.status in {400, 500}
  {
    if !Configured(apiKey) then Some(KeyMissing)
    else if resumeFile.None? then Some(FileRequired)
    else if jobDescription == "" || Strip(jobDescription) == "" then Some(JobDescriptionRequired)
    else if Extension(resumeFile.value.filename) !in AllowedExtensions then Some(InvalidFileType)
    else None
  }

  /** An exception leaving the `try` block of lines 337-363. */
  datatype Raised = Http(e: HttpError) | Unexpected(cause: string)

  /** The `try` block: read, extract, check the length, analyse. */
  function ProcessUpload(upload: Upload, jobDescription: string, services: Services): (r: Result<Json, Raised>)
    ensures r.Failure? && r.error.Http? ==> r.error.e.status in {400, 500}
  {
    match upload.content
    case ReadError(cause) => Failure(Unexpected(cause))
    case Content(bytes) =>
      match ExtractTextFromFile(upload.filename, bytes, services.readers)
      case Failure(e) => Failure(Http(e))
      case Success(resumeText) =>
        if resumeText == "" || |Strip(resumeText)| < MinResumeLength then Failure(Http(NotEnoughText))
        else
          match AnalyzeWithGemini(resumeText, jobDescription, services.gemini)
          case Failure(e) => Failure(Http(e))
          case Success(analysis) => Success(analysis)
  }

  function InternalError(cause: string): HttpError
  {
    HttpError(500, "Internal server error: " + cause)
  }

  /**
   * `analyze_resume`: the guards, then the `try` block, whose HTTP errors are
   * re-raised unchanged and whose other exceptions become a 500.
   */
  function AnalyzeResume(apiKey: Option<string>, resumeFile: Option<Upload>, jobDescription: string,
                         services: Services): (response: Result<Json, HttpError>)
    ensures response.Failure? ==> response.error.status in {400, 500}
  {
    match Validate(apiKey, resumeFile, jobDescription)
    case Some(e) => Failure(e)
    case None =>
      match ProcessUpload(resumeFile.value, jobDescription, services)
      case Success(analysis) => Success(analysis)
      case Failure(Http(e)) => Failure(e)
      case Failure(Unexpected(cause)) => Failure(InternalError(cause))
  }

  function StatusCode(response: Result<Json, HttpError>): int
  {
    if response.Success? then 200 else response.error.status
  }

  /**
   * The guards fire in the order of the source: a missing key before a
   * missing file, before a blank job description, before a bad extension.
   */
  lemma GuardOrder(apiKey: Option<string>, resumeFile: Option<Upload>, jobDescription: string, services: Services)
    ensures var r := AnalyzeResume(apiKey, resumeFile, jobDescription, services);
      && (!Configured(apiKey) ==> r == Failure(KeyMissing))
      && (Configured(apiKey) && resumeFile.None? ==> r == Failure(FileRequired))
      && (Configured(apiKey) && resumeFile.Some? && AllSpace(jobDescription) ==> r == Failure(JobDescriptionRequired))
      && (Configured(apiKey) && resumeFile.Some? && !AllSpace(jobDescription)
            && Extension(resumeFile.value.filename) !in AllowedExtensions
          ==> r == Failure(InvalidFileType))
  {
  }

  /**
   * Every guard fires before the file is read: while a guard fails, neither
   * the uploaded bytes nor any library or model affect the response.
   */
  lemma GuardsPrecedeReading(apiKey: Option<string>, resumeFile: Option<Upload>, otherFile: Option<Upload>,
                             jobDescription: string, services: Services, otherServices: Services)
    requires resumeFile.Some? <==> otherFile.Some?
    requires resumeFile.Some? ==> resumeFile.value.filename == otherFile.value.filename
    requires Validate(apiKey, resumeFile, jobDescription).Some?
    ensures AnalyzeResume(apiKey, resumeFile, jobDescription, services)
         == AnalyzeResume(apiKey, otherFile, jobDescription, otherServices)
         == Failure(Validate(apiKey, resumeFile, jobDescription).value)
  {
  }

  /** The first letters of the fixed error details, which tell them apart. */
  lemma DetailInitials()
    ensures KeyMissing.detail[0] == 'G' && NotEnoughText.detail[0] == 'C'
  {
  }

  /**
   * The unsupported-format branch of `extract_text_from_file` cannot be
   * reached from the endpoint: its extension guard lets only `pdf` and
   * `docx` through.
   */
  lemma UnsupportedFormatUnreachable(apiKey: Option<string>, resumeFile: Option<Upload>, jobDescription: string,
                                     services: Services, ext: string)
    ensures AnalyzeResume(apiKey, resumeFile, jobDescription, services) != Failure(UnsupportedFormat(ext))
  {
    if Validate(apiKey, resumeFile, jobDescription).None? {
      var upload := resumeFile.value;
      TryBlockNeverUnsupported(upload, jobDescription, services, ext);
    }
  }

  lemma TryBlockNeverUnsupported(upload: Upload, jobDescription: string, services: Services, ext: string)
    requires Extension(upload.filename) in AllowedExtensions
    ensures ProcessUpload(upload, jobDescription, services) != Failure(Http(UnsupportedFormat(ext)))
  {
    if upload.content.Content? {
      var extracted := ExtractTextFromFile(upload.filename, upload.content.bytes, services.readers);
      ExtractionNeverUnsupported(upload.filename, upload.content.bytes, services.readers, ext);
      if extracted.Success? {
        var resumeText := extracted.value;
        if resumeText == "" || |Strip(resumeText)| < MinResumeLength {
          DetailInitials();
          assert UnsupportedFormat(ext).detail[0] == 'U';
        } else {
          var analysed := AnalyzeWithGemini(resumeText, jobDescription, services.gemini);
          assert analysed.Failure? ==> analysed.error.status == 500;
        }
      }
    }
  }

  /** The text `extract_text_from_file` returns is already stripped, so the
      length check of line 346 compares the text's own length with 50. */
  lemma LengthCheckOnStrippedText(resumeText: string)
    requires IsStripped(resumeText)
    ensures (resumeText == "" || |Strip(resumeText)| < MinResumeLength) <==> |resumeText| < MinResumeLength
  {
    assert [] + resumeText + [] == resumeText;
    StripUnique([], resumeText, []);
  }

  /**
   * A résumé whose extracted text is shorter than 50 characters gets a 400
   * and the model is never consulted: any model gives the same response.
   */
  lemma ShortResumeNeverReachesGemini(apiKey: Option<string>, upload: Upload, jobDescription: string,
                                      readers: Readers, gemini: Gemini, otherGemini: Gemini, resumeText: string)
    requires Validate(apiKey, Some(upload), jobDescription).None?
    requires upload.content.Content?
    requires ExtractTextFromFile(upload.filename, upload.content.bytes, readers) == Success(resumeText)
    requires |resumeText| < MinResumeLength
    ensures AnalyzeResume(apiKey, Some(upload), jobDescription, Services(readers, gemini))
         == AnalyzeResume(apiKey, Some(upload), jobDescription, Services(readers, otherGemini))
         == Failure(NotEnoughText)
  {
    LengthCheckOnStrippedText(resumeText);
  }

  /**
   * Once the guards pass: an HTTP error raised while extracting is returned
   * unchanged, a failed read becomes a 500, a model or parse failure stays a
   * 500, and a parsed reply is returned with status 200 exactly as parsed.
   */
  lemma ErrorMapping(apiKey: Option<string>, upload: Upload, jobDescription: string, services: Services)
    requires Validate(apiKey, Some(upload), jobDescription).None?
    ensures var r := AnalyzeResume(apiKey, Some(upload), jobDescription, services);
      match upload.content
      case ReadError(cause) => r == Failure(InternalError(cause))
      case Content(bytes) =>
        match ExtractTextFromFile(upload.filename, bytes, services.readers)
        case Failure(e) => r == Failure(e)
        case Success(resumeText) =>
          if |resumeText| < MinResumeLength then r == Failure(NotEnoughText)
          else
            match services.gemini.generate(Prompt.BuildAnalysisPrompt(resumeText, jobDescription))
            case Raised(cause) => r == Failure(GeminiFailed(cause))
            case Replied(reply) =>
              match services.gemini.loads(StripCodeFence(reply))
              case DecodeError(message) => r == Failure(ParseFailed(message)) && StatusCode(r) == 500
              case Decoded(analysis) => r == Success(analysis) && StatusCode(r) == 200
  {
    if upload.content.Content? {
      var extracted := ExtractTextFromFile(upload.filename, upload.content.bytes, services.readers);
      if extracted.Success? {
        LengthCheckOnStrippedText(extracted.value);
      }
    }
  }

  /** The request fails for a reason outside the caller's control: the upload
      could not be read, or the model or the parser failed on a long enough
      résumé. */
  predicate ServerFault(upload: Upload, jobDescription: string, services: Services)
  {
    match upload.content
    case ReadError(_) => true
    case Content(bytes) =>
      match ExtractTextFromFile(upload.filename, bytes, services.readers)
      case Failure(_) => false
      case Success(resumeText) =>
        |resumeText| >= MinResumeLength && AnalyzeWithGemini(resumeText, jobDescription, services.gemini).Failure?
  }

  /**
   * The status codes: 200 on success; 500 exactly for a missing key or a
   * server-side fault after validation; 400 for everything the caller must
   * fix.
   */
  lemma StatusCodes(apiKey: Option<string>, resumeFile: Option<Upload>, jobDescription: string, services: Services)
    ensures var r := AnalyzeResume(apiKey, resumeFile, jobDescription, services);
      && StatusCode(r) in {200, 400, 500}
      && (StatusCode(r) == 500 <==>
           !Configured(apiKey)
           || (Validate(apiKey, resumeFile, jobDescription).None? && ServerFault(resumeFile.value, jobDescription, services)))
  {
    if Validate(apiKey, resumeFile, jobDescription).None? {
      TryBlockStatus(resumeFile.value, jobDescription, services);
    }
  }

  /** Inside the `try` block a 500 arises exactly from a server-side fault. */
  lemma TryBlockStatus(upload: Upload, jobDescription: string, services: Services)
    ensures var r := ProcessUpload(upload, jobDescription, services);
      && (r.Success? ==> !ServerFault(upload, jobDescription, services))
      && (r.Failure? && r.error.Unexpected? <==> upload.content.ReadError?)
      && (r.Failure? && r.error.Http? ==>
            (r.error.e.status == 500 <==> ServerFault(upload, jobDescription, services)))
  {
    if upload.content.Content? {
      var extracted := ExtractTextFromFile(upload.filename, upload.content.bytes, services.readers);
      if extracted.Success? {
        LengthCheckOnStrippedText(extracted.value);
      }
    }
  }

  /**
   * The health check and the endpoint agree: `gemini_configured` is false
   * exactly when every analysis request gets the missing-key error.
   */
  lemma HealthMatchesAnalyze(apiKey: Option<string>, resumeFile: Option<Upload>, jobDescription: string, services: Services)
    ensures !HealthCheck(apiKey).geminiConfigured
        <==> AnalyzeResume(apiKey, resumeFile, jobDescription, services) == Failure(KeyMissing)
  {
    if Configured(apiKey) {
      var failure := Validate(apiKey, resumeFile, jobDescription);
      DetailInitials();
      if failure.None? {
        TryBlockNeverKeyMissing(resumeFile.value, jobDescription, services);
      } else {
        assert failure.value != KeyMissing;
      }
    }
  }

  /** No exception of the `try` block reads as the missing-key error. */
  lemma TryBlockNeverKeyMissing(upload: Upload, jobDescription: string, services: Services)
    ensures var r := ProcessUpload(upload, jobDescription, services);
      r.Failure? ==> (match r.error
                      case Http(e) => e != KeyMissing
                      case Unexpected(cause) => InternalError(cause) != KeyMissing)
  {
    DetailInitials();
    match upload.content
    case ReadError(cause) =>
      assert InternalError(cause).detail[0] == 'I';
    case Content(bytes) =>
      match ExtractTextFromFile(upload.filename, bytes, services.readers)
      case Failure(e) =>
        assert e.status == 400;
      case Success(resumeText) =>
        if resumeText == "" || |Strip(resumeText)| < MinResumeLength {
          assert ProcessUpload(upload, jobDescription, services) == Failure(Http(NotEnoughText));
        } else {
          AnalyzeFailureInitial(resumeText, jobDescription, services.gemini);
        }
  }
}
