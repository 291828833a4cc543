/**
 * `analyze_with_gemini` (backend/main.py, lines 203-253): send the prompt to
 * the model, strip a Markdown code fence from the reply, parse the rest as
 * JSON. The model and `json.loads` are not modelled: `Gemini` stands for both.
 */
module Gemini {
  import opened Results
  import opened PyStr
  import opened Prompt

  /** A JSON value as `json.loads` returns it; numbers keep their literal text. */
  datatype Json =
    | Null
    | Boolean(b: bool)
    | Number(literal: string)
    | Str(s: string)
    | Array(items: seq<Json>)
    | Object(members: seq<(string, Json)>)

  /** What `generate_content(prompt).text` gives: the reply, or the exception raised. */
  datatype Reply = Replied(text: string) | Raised(cause: string)

  /** What `json.loads` gives: a value, or the `JSONDecodeError` message. */
  datatype Decoded = Decoded(value: Json) | DecodeError(message: string)

  /** The model `gemini-flash-latest` and the JSON parser. */
  datatype Gemini = Gemini(generate: string -> Reply, loads: string -> Decoded)

  const Fence: string := "```"

  /**
   * Lines 226-232: strip the reply; if it then starts with three backticks,
   * drop its first and its last line.
   */
  function StripCodeFence(reply: string): (cleaned: string)
    ensures !StartsWith(Strip(reply), Fence) ==> cleaned == Strip(reply)
    ensures StartsWith(Strip(reply), Fence) ==> cleaned == DropFenceLines(Strip(reply))
  {
    var text := Strip(reply);
    if StartsWith(text, Fence) then DropFenceLines(text) else text
  }

  /**
   * Lines 231-232, `'\n'.join(text.split('\n')[1:-1])`. Only text is
   * removed: of n lines, lines 2 to n-1 are kept, as a contiguous slice of the
   * input, and one or two lines leave nothing.
   */
  function DropFenceLines(text: string): (cleaned: string)
    ensures var lines := Split(text, '\n'); var n := |lines|;
      (n < 3 ==> cleaned == [])
      && (n >= 3 ==> Split(cleaned, '\n') == lines[1..n - 1] && |Split(cleaned, '\n')| == n - 2
                     && |lines[0]| + 1 <= |text| - |lines[n - 1]| - 1
                     && cleaned == text[|lines[0]| + 1..|text| - |lines[n - 1]| - 1])
  {
    var lines := Split(text, '\n');
    if |lines| >= 3 then
      MiddleLinesAreSlice(text, '\n');
      MiddleLinesSplitBack(lines);
      Join('\n', lines[1..|lines| - 1])
    else
      Join('\n', [])
  }

  lemma FirstPieceLength(text: string, lines: seq<string>)
    requires StartsWith(text, Fence) && lines == Split(text, '\n') && |lines| >= 2
    requires Join('\n', lines) == text
    ensures |lines[0]| >= |Fence|
  {
    assert text == lines[0] + ['\n'] + Join('\n', lines[1..]);
    assert text[|lines[0]|] == '\n';
    assert forall k :: 0 <= k < |Fence| ==> text[k] == Fence[k] != '\n';
  }

  /** A fenced reply loses at least the opening fence. */
  lemma FenceShortensReply(reply: string)
    requires StartsWith(Strip(reply), Fence)
    ensures |StripCodeFence(reply)| + |Fence| <= |Strip(reply)|
  {
    DropFenceLinesShortens(Strip(reply));
  }

  lemma DropFenceLinesShortens(text: string)
    requires StartsWith(text, Fence)
    ensures |DropFenceLines(text)| + |Fence| <= |text|
  {
    var lines := Split(text, '\n');
    if |lines| >= 3 {
      var cleaned := DropFenceLines(text);
      JoinSplit(text, '\n');
      FirstPieceLength(text, lines);
      assert |cleaned| == |text| - |lines[|lines| - 1]| - 1 - (|lines[0]| + 1);
    } else {
      assert |Fence| <= |text|;
    }
  }

  /** Joining the pieces of a split between its first and last piece gives
      the slice of the string between its first and last separator. */
  lemma MiddleLinesAreSlice(s: string, sep: char)
    requires |Split(s, sep)| >= 3
    ensures var lines := Split(s, sep); var n := |lines|;
      |lines[0]| + 1 <= |s| - |lines[n - 1]| - 1
      && Join(sep, lines[1..n - 1]) == s[|lines[0]| + 1..|s| - |lines[n - 1]| - 1]
  {
    var lines := Split(s, sep);
    var n := |lines|;
    var middle := lines[1..n - 1];
    JoinSplit(s, sep);
    assert lines[1..] == middle + [lines[n - 1]];
    JoinSnoc(sep, middle, lines[n - 1]);
    assert s == lines[0] + [sep] + (Join(sep, middle) + [sep] + lines[n - 1]);
    var i := |lines[0]| + 1;
    var j := |s| - |lines[n - 1]| - 1;
    assert s[i..j] == Join(sep, middle);
  }

  lemma MiddleLinesSplitBack(lines: seq<string>)
    requires |lines| >= 3
    requires forall i :: 0 <= i < |lines| ==> '\n' !in lines[i]
    ensures Split(Join('\n', lines[1..|lines| - 1]), '\n') == lines[1..|lines| - 1]
  {
    var middle := lines[1..|lines| - 1];
    assert forall i :: 0 <= i < |middle| ==> middle[i] == lines[i + 1];
    SplitJoin(middle, '\n');
  }

  /**
   * Round trip: a body wrapped in an opening fence line and a closing line
   * comes back unchanged. The reply must end on a non-blank character, as a
   * closing fence does, or `strip()` would shorten it first.
   */
  lemma {:induction false} FenceRoundTrip(opening: string, body: string, closing: string)
    requires StartsWith(opening, Fence) && '\n' !in opening
    requires '\n' !in closing && closing != [] && !IsSpace(closing[|closing| - 1])
    ensures StripCodeFence(opening + "\n" + body + "\n" + closing) == body
  {
    var reply := opening + "\n" + body + "\n" + closing;
    FencedReplyIsStripped(opening, body + "\n" + closing);
    assert reply == opening + "\n" + (body + "\n" + closing);
    var lines := Split(reply, '\n');
    FencedLines(opening, body, closing);
    assert lines[1..|lines| - 1] == Split(body, '\n');
    JoinSplit(body, '\n');
  }

  /** A reply that opens with a fence line and ends on a non-blank character
      is left alone by `strip()` and is recognised as fenced. */
  lemma FencedReplyIsStripped(opening: string, rest: string)
    requires StartsWith(opening, Fence)
    requires rest != [] && !IsSpace(rest[|rest| - 1])
    ensures var reply := opening + "\n" + rest; Strip(reply) == reply && StartsWith(reply, Fence)
  {
    var reply := opening + "\n" + rest;
    assert reply[0] == Fence[0];
    assert reply[|reply| - 1] == rest[|rest| - 1];
    assert [] + reply + [] == reply;
    StripUnique([], reply, []);
    assert reply[..|Fence|] == opening[..|Fence|];
  }

  lemma FencedLines(opening: string, body: string, closing: string)
    requires '\n' !in opening && '\n' !in closing
    ensures Split(opening + "\n" + (body + "\n" + closing), '\n') == [opening] + Split(body, '\n') + [closing]
  {
    SplitAround(opening, body + "\n" + closing, '\n');
    SplitAround(body, closing, '\n');
    SplitWithoutSeparator(opening, '\n');
    SplitWithoutSeparator(closing, '\n');
  }

  /** The fence the model usually adds: "```json" on the first line, "```" on the last. */
  lemma JsonFenceRoundTrip(body: string)
    ensures StripCodeFence("```json\n" + body + "\n```") == body
  {
    assert "```json\n" + body + "\n```" == "```json" + "\n" + body + "\n" + "```";
    FenceRoundTrip("```json", body, "```");
  }

  /** The closing line is dropped whatever it holds: an unclosed fence loses
      the reply's last line. */
  lemma UnclosedFenceLosesLastLine(opening: string, body: string)
    requires StartsWith(opening, Fence) && '\n' !in opening
    requires '\n' !in body && body != [] && !IsSpace(body[|body| - 1])
    ensures StripCodeFence(opening + "\n" + body) == []
  {
    FencedReplyIsStripped(opening, body);
    SplitAround(opening, body, '\n');
    SplitWithoutSeparator(opening, '\n');
    SplitWithoutSeparator(body, '\n');
  }

  function ParseFailed(message: string): HttpError
  {
    HttpError(500, "Failed to parse AI response as JSON: " + message)
  }

  function GeminiFailed(cause: string): HttpError
  {
    HttpError(500, "Error calling Gemini AI: " + cause)
  }

  /**
   * `analyze_with_gemini`: a model failure and a decode failure both become a
   * 500, and on success the parsed value is returned as it is.
   */
  function AnalyzeWithGemini(resumeText: string, jobDescription: string, gemini: Gemini): (r: Result<Json, HttpError>)
    ensures r.Failure? ==> r.error.status == 500
    ensures var reply := gemini.generate(BuildAnalysisPrompt(resumeText, jobDescription));
      && (reply.Raised? ==> r == Failure(GeminiFailed(reply.cause)))
      && (reply.Replied? ==> match gemini.loads(StripCodeFence(reply.text))
            case Decoded(v) => r == Success(v)
            case DecodeError(m) => r == Failure(ParseFailed(m)))
  {
    match gemini.generate(BuildAnalysisPrompt(resumeText, jobDescription))
    case Raised(cause) => Failure(GeminiFailed(cause))
    case Replied(text) =>
      match gemini.loads(StripCodeFence(text))
      case DecodeError(message) => Failure(ParseFailed(message))
      case Decoded(value) => Success(value)
  }

  /** The two error details of `analyze_with_gemini` open with 'E' and 'F'. */
  lemma AnalyzeFailureInitial(resumeText: string, jobDescription: string, gemini: Gemini)
    ensures var r := AnalyzeWithGemini(resumeText, jobDescription, gemini);
      r.Failure? ==> |r.error.detail| > 0 && r.error.detail[0] in {'E', 'F'}
  {
    match gemini.generate(BuildAnalysisPrompt(resumeText, jobDescription))
    case Raised(cause) =>
      assert GeminiFailed(cause).detail[0] == 'E';
    case Replied(text) =>
      match gemini.loads(StripCodeFence(text))
      case DecodeError(message) =>
        assert ParseFailed(message).detail[0] == 'F';
      case Decoded(_) =>
  }

  /**
   * A reply wrapped in a "```json" fence is analysed exactly as the bare JSON
   * text would be, for any parser.
   */
  lemma FencedReplyAnalysedAsBare(resumeText: string, jobDescription: string, json: string,
                                  fenced: Gemini, bare: Gemini)
    requires IsStripped(json) && !StartsWith(json, Fence)
    requires fenced.loads == bare.loads
    requires fenced.generate(BuildAnalysisPrompt(resumeText, jobDescription)) == Replied("```json\n" + json + "\n```")
    requires bare.generate(BuildAnalysisPrompt(resumeText, jobDescription)) == Replied(json)
    ensures AnalyzeWithGemini(resumeText, jobDescription, fenced) == AnalyzeWithGemini(resumeText, jobDescription, bare)
  {
    JsonFenceRoundTrip(json);
    BareReplyUnchanged(json);
    var prompt := BuildAnalysisPrompt(resumeText, jobDescription);
    assert fenced.loads(StripCodeFence(fenced.generate(prompt).text)) == bare.loads(StripCodeFence(bare.generate(prompt).text));
  }

  /** A stripped reply without an opening fence is handed to the parser as it is. */
  lemma BareReplyUnchanged(json: string)
    requires IsStripped(json) && !StartsWith(json, Fence)
    ensures StripCodeFence(json) == json
  {
    assert [] + json + [] == json;
    StripUnique([], json, []);
  }
}
