# AI Resume Analyzer backend: a Dafny model of its request handling

The backend (`backend/main.py`) accepts a résumé file (PDF or DOCX) and a job
description. It extracts the résumé's text, builds a prompt and sends it to
Google Gemini. It strips a Markdown code fence from the reply, parses the rest
as JSON and returns the parsed value. This project models that request path as
string functions and a chain of guards, and proves what each step promises.

Modules, one per concern of `backend/main.py`:

- `Results`: `Option`, `Result` and `HttpError`, which stands for FastAPI's `HTTPException`.
- `PyStr`: the Python `str` operations the code relies on: `strip()`,
  `lower()`, `startswith`, `split(sep)` and `sep.join(...)`, over strings as
  sequences of code points.
- `Extraction`: the page/paragraph loop of `extract_text_from_pdf` and
  `extract_text_from_docx`, written as the method `AssembleText`. Also the
  extension taken from the file name and the dispatch of
  `extract_text_from_file`.
- `Prompt`: `build_analysis_prompt`, with the template text exactly as in the source.
- `Gemini`: `analyze_with_gemini`, including the code-fence stripping of the reply.
- `Endpoint`: `health_check` and `analyze_resume`. This covers the ordered
  guards, the `try` block, and the mapping of exceptions to status codes.

Outside services are parameters, not code:

- The PDF and DOCX libraries are `Reader`s from the uploaded bytes to page or
  paragraph texts, or to an exception.
- Gemini is a function from prompt to reply or exception.
- `json.loads` is a function from text to a JSON value or a decode error.
- The `GEMINI_API_KEY` environment variable is an `Option<string>` argument.
- Reading the upload gives either bytes or an exception.

Behaviour of the code worth noting:

- Pages and paragraphs are not joined with a separator. Each one is followed
  by a newline, and the whole text is then stripped.
- The parsed reply is passed through without any schema check.
- A file name without a dot is its own extension, so a file named `PDF` passes
  the type guard.
- Fence stripping drops the reply's last line whether or not it is a closing
  fence. `Gemini.UnclosedFenceLosesLastLine` states this.

## Model

| member | source | states |
|---|---|---|
| `PyStr.Strip` | backend/main.py:71 | `strip()` leaves no whitespace at either end, and gives the empty string exactly when the input is all whitespace |
| `PyStr.StripSlice` | backend/main.py:71 | `strip()` only removes a whitespace prefix and a whitespace suffix: the result is the slice of the input between them |
| `PyStr.StripUnique` | backend/main.py:98 | for any whitespace prefix `a`, whitespace suffix `b` and stripped middle `m`, `strip(a + m + b) == m`; this is an independent characterisation of `strip()` |
| `PyStr.StripIdempotent` | backend/main.py:346 | stripping text that is already stripped changes nothing |
| `PyStr.Lower` | backend/main.py:119 | `lower()` keeps the length and maps each character on its own (ASCII capitals to small letters) |
| `PyStr.StartsWith` | backend/main.py:229 | `startswith` holds exactly when the prefix is no longer than the string and agrees with it character by character |
| `PyStr.Split` | backend/main.py:231 | `split('\n')` always yields at least one piece, and no piece contains the separator |
| `PyStr.Join` | backend/main.py:232 | `sep.join(parts)`; its contract is carried by `JoinSplit` and `SplitJoin` (it inverts `split`) and by `JoinLength` |
| `PyStr.JoinSplit` | backend/main.py:231-232 | `sep.join(s.split(sep)) == s` for every string |
| `PyStr.SplitJoin` | backend/main.py:231-232 | splitting the join of a non-empty list of separator-free pieces gives that list back |
| `PyStr.SplitAround` | backend/main.py:231 | `(a + sep + b).split(sep)` is `a.split(sep) + b.split(sep)` |
| `PyStr.JoinLength` | backend/main.py:232 | `sep.join(parts)` of a non-empty list is as long as all pieces together plus one separator between each pair of neighbours |
| `Extraction.AssembleText` | backend/main.py:67-71 | the loop that appends each page's text and a newline, then strips, returns `strip` of the newline-terminated pieces; the result is stripped, and it is empty exactly when every piece is blank |
| `Extraction.JoinLinesIsJoin` | backend/main.py:94-96 | the text built by the loop is `'\n'.join(pieces + [''])`: the pieces in order, each followed by a newline |
| `Extraction.JoinLinesAllSpace` | backend/main.py:94-98 | the built text is all whitespace exactly when every piece is |
| `Extraction.ExtractText` | backend/main.py:53-104 | extraction succeeds exactly when the library reads the file, and then returns `'\n'.join(pieces + ['']).strip()`, the same text `AssembleText` builds: stripped, and empty exactly when all pieces are blank; a library error becomes the 400 "Error extracting PDF: …" or "Error extracting DOCX: …" with the library's message |
| `Extraction.Extension` | backend/main.py:119 | `filename.lower().split('.')[-1]` never contains a dot; `ExtensionAfterLastDot` gives its full characterisation |
| `Extraction.ExtensionAfterLastDot` | backend/main.py:119 | the extension is the lower-cased suffix after the last `.`, has no `.`, and is the whole lower-cased name when there is no `.` |
| `Extraction.ExtensionIgnoresCase` | backend/main.py:329 | names that lower-case alike have the same extension |
| `Extraction.UpperCaseExtension` | backend/main.py:119 | `a.PDF` and `a.pdf` both have extension `pdf` |
| `Extraction.NameWithoutDot` | backend/main.py:119 | a name without a dot is its own lower-cased extension (`Resume` gives `resume`) |
| `Extraction.ExtractTextFromFile` | backend/main.py:107-132 | a `pdf` extension returns the PDF extractor's result on the PDF library's reading, a `docx` extension the DOCX extractor's on the DOCX library's reading, and any other extension the 400 "Unsupported file format: <ext>…"; every failure is a 400 |
| `Extraction.DispatchByExtension` | backend/main.py:119-132 | for `pdf` only the PDF reader's output matters, for `docx` only the DOCX reader's; the unsupported-format error is raised exactly for extensions outside {pdf, docx} |
| `Extraction.ExtractionNeverUnsupported` | backend/main.py:121-132 | with a `pdf` or `docx` extension the unsupported-format error never occurs, whatever the libraries return |
| `Prompt.PromptFramedByTemplate` | backend/main.py:150-198 | every prompt opens with the same role/résumé preamble and ends with the same JSON-format and criteria instructions |
| `Prompt.PromptEmbedsInputs` | backend/main.py:150-157 | the résumé text and the job description occur verbatim, the résumé first, separated by the "JOB DESCRIPTION:" heading |
| `Prompt.PromptDeterminesInputs` | backend/main.py:139-200 | the prompt depends on its two inputs only and loses neither: equal prompts with equal-length résumé texts have equal inputs |
| `Prompt.BuildAnalysisPrompt` | backend/main.py:139-200 | the template with both inputs spliced in; its contract is carried by `PromptFramedByTemplate`, `PromptEmbedsInputs` and `PromptDeterminesInputs` |
| `Gemini.StripCodeFence` | backend/main.py:226-232 | a stripped reply that does not start with three backticks goes to the parser unchanged; one that does loses its first and last line |
| `Gemini.DropFenceLines` | backend/main.py:231-232 | of n lines, lines 2..n-1 are kept, a contiguous slice of the input, and split back into exactly those n-2 lines; one or two lines leave the empty string |
| `Gemini.FenceShortensReply` | backend/main.py:229-232 | fence stripping only removes text: at least the three backticks go |
| `Gemini.FenceRoundTrip` | backend/main.py:226-232 | a body between an opening fence line and a closing line comes back unchanged |
| `Gemini.JsonFenceRoundTrip` | backend/main.py:228-232 | fence-stripping "```json\n" + X + "\n```" gives X for every X |
| `Gemini.UnclosedFenceLosesLastLine` | backend/main.py:229-232 | a fenced reply without a closing line loses its content line, leaving the empty string |
| `Gemini.BareReplyUnchanged` | backend/main.py:226-235 | a stripped reply that does not start with a fence is parsed as it is |
| `Gemini.AnalyzeWithGemini` | backend/main.py:203-253 | a model failure becomes 500 "Error calling Gemini AI: …", a decode failure 500 "Failed to parse AI response as JSON: …", and a parsed reply is returned unchanged |
| `Gemini.FencedReplyAnalysedAsBare` | backend/main.py:219-238 | a reply fenced as "```json" is analysed exactly as the same JSON text without the fence |
| `Endpoint.HealthCheck` | backend/main.py:276-285 | `gemini_configured` is true exactly when the key is present and non-empty |
| `Endpoint.Validate` | backend/main.py:306-335 | the request passes the guards exactly when the key is configured, a file was sent, the job description has a non-blank character and the extension is `pdf` or `docx`; every guard failure is a 400 or a 500 |
| `Endpoint.ProcessUpload` | backend/main.py:337-363 | every HTTP error raised inside the `try` block is a 400 or a 500 |
| `Endpoint.AnalyzeResume` | backend/main.py:288-375 | every error response is a 400 or a 500 |
| `Endpoint.GuardOrder` | backend/main.py:306-335 | missing key → 500 before anything else; then missing file → 400; then blank job description → 400; then bad extension → 400 |
| `Endpoint.GuardsPrecedeReading` | backend/main.py:306-340 | while a guard fails, the response is that guard's error, whatever the file's bytes, the libraries and the model would give: nothing is read |
| `Endpoint.UnsupportedFormatUnreachable` | backend/main.py:328-344 | the endpoint never responds with `extract_text_from_file`'s unsupported-format error, for any extension |
| `Endpoint.TryBlockNeverUnsupported` | backend/main.py:337-363 | once the extension guard has passed, the `try` block never raises the unsupported-format error |
| `Endpoint.LengthCheckOnStrippedText` | backend/main.py:346 | on already stripped text, `not t or len(t.strip()) < 50` is just `len(t) < 50` |
| `Endpoint.ShortResumeNeverReachesGemini` | backend/main.py:346-356 | extracted text shorter than 50 characters yields the 400 "Could not extract enough text…" whatever the model would answer: it is never consulted |
| `Endpoint.ErrorMapping` | backend/main.py:337-375 | after the guards: a failed read → 500 "Internal server error: …"; an extraction error passes through unchanged; short text → 400; model and parse failures → their 500s; a parsed reply → 200 with that value unchanged |
| `Endpoint.TryBlockStatus` | backend/main.py:337-375 | inside the `try` block, a 500 arises exactly from a server-side fault (failed read, model or parser failure) |
| `Endpoint.StatusCodes` | backend/main.py:288-375 | every response is 200, 400 or 500; it is 500 exactly when the key is missing or a server-side fault follows validation; everything the caller must fix is 400 |
| `Endpoint.HealthMatchesAnalyze` | backend/main.py:276-311 | `gemini_configured` is false exactly when an analysis request gets the missing-key error |

## Left out

- `frontend/app.py`: the Streamlit client is layout, charts and an HTTP client. Its only logic is a score-to-colour banding.
- The PDF and DOCX libraries, Gemini, and `json.loads` are foreign code. They appear only as function parameters.
- FastAPI wiring is not modelled: routing, CORS, `load_dotenv`, `os.getenv`, `genai.configure`, uvicorn start-up and the port default.
- FastAPI's own validation of required form fields is not modelled. It can answer 422 before `analyze_resume` runs.
- The `root` endpoint is not modelled. It returns a fixed information payload.
- `print` logging is not modelled.
- `async` I/O and concurrency are not modelled. `await resumeFile.read()` is an input that gives either bytes or an exception.
- Unexpected exceptions other than a failed read are not modelled. One example: `JSONResponse` refuses `NaN` and `Infinity`, which `json.loads` accepts. `Gemini.Json` keeps numbers as their literal text, so this path is not represented.
- An `UploadFile` whose `filename` is `None` is not modelled. FastAPI supplies a string name for a file part.
- `PyStr.Lower`: lowers only ASCII capitals, whereas Python lowers every Unicode letter, and a few letters become several code points. No non-ASCII letter lowers to a letter of `pdf` or `docx`, so classification is unchanged. Only the extension quoted in the unsupported-format message could differ.
