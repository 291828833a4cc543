/**
 * `build_analysis_prompt` (backend/main.py, lines 139-200): a fixed template
 * with the résumé text and the job description spliced in, in that order.
 */
module Prompt {

  // The template text is written as short joined pieces rather than one long
  // literal per line: long string literals are costly for the verifier.
  // Joined back together, the pieces are the template text exactly.

  /** The template up to and including the "RESUME CONTENT:" heading. */
  const Preamble: string :=
    "You are an expert ATS (Applica" + "nt Tracking System) analyzer a"
    + "nd career consultant. \n"
    + "Analyze the following resume a" + "gainst the job description and"
    + " provide a comprehensive analy" + "sis.\n"
    + "\n"
    + "RESUME CONTENT:\n"

  /** The text between the résumé and the job description. */
  const Between: string :=
    "\n"
    + "\n"
    + "JOB DESCRIPTION:\n"

  /** The output format and scoring criteria that follow the job description. */
  const Instructions: string :=
    "\n"
    + "\n"
    + "Provide your analysis in the f" + "ollowing JSON format (respond "
    + "ONLY with valid JSON, no markd" + "own, no extra text):\n"
    + "\n"
    + "{\n"
    + "    \"atsScore\": <number betwee" + "n 0-100>,\n"
    + "    \"summary\": \"<2-3 sentence " + "summary of candidate's fit for" + " the role>\",\n"
    + "    \"categoryScores\": {\n"
    + "        \"hardSkills\": <score 0" + "-5>,\n"
    + "        \"softSkills\": <score 0" + "-5>,\n"
    + "        \"experience\": <score 0" + "-5>,\n"
    + "        \"qualifications\": <sco" + "re 0-5>\n"
    + "    },\n"
    + "    \"strengths\": [\n"
    + "        \"<strength 1>\",\n"
    + "        \"<strength 2>\",\n"
    + "        \"<strength 3>\"\n"
    + "    ],\n"
    + "    \"weaknesses\": [\n"
    + "        \"<weakness 1>\",\n"
    + "        \"<weakness 2>\",\n"
    + "        \"<weakness 3>\"\n"
    + "    ],\n"
    + "    \"recommendations\": [\n"
    + "        \"<actionable recommend" + "ation 1>\",\n"
    + "        \"<actionable recommend" + "ation 2>\",\n"
    + "        \"<actionable recommend" + "ation 3>\"\n"
    + "    ]\n"
    + "}\n"
    + "\n"
    + "ANALYSIS CRITERIA:\n"
    + "- ATS Score: Overall match per" + "centage (0-100)\n"
    + "- Hard Skills: Technical skill" + "s match (0-5)\n"
    + "- Soft Skills: Communication, " + "leadership, teamwork (0-5)\n"
    + "- Experience: Relevant work ex" + "perience (0-5)\n"
    + "- Qualifications: Education an" + "d certifications (0-5)\n"
    + "- Strengths: Top 3 positive hi" + "ghlights\n"
    + "- Weaknesses: Top 3 areas for " + "improvement\n"
    + "- Recommendations: Top 3 actio" + "nable suggestions to improve t" + "he resume\n"
    + "\n"
    + "Be honest, constructive, and s" + "pecific in your analysis.\n"

  /** `sub` occurs in `s` starting at index `i`. */
  predicate OccursAt(s: string, sub: string, i: int)
  {
    0 <= i && i + |sub| <= |s| && s[i..i + |sub|] == sub
  }

  function BuildAnalysisPrompt(resumeText: string, jobDescription: string): (prompt: string)
  {
    Preamble + resumeText + Between + jobDescription + Instructions
  }

  /** `s` opens with `prefix` and closes with `suffix`, which do not overlap. */
  predicate Framed(s: string, prefix: string, suffix: string)
  {
    |prefix| + |suffix| <= |s|
    && s[..|prefix|] == prefix
    && s[|s| - |suffix|..] == suffix
  }

  /** Every prompt opens with the same preamble and closes with the same
      output-format instructions. */
  lemma PromptFramedByTemplate(resumeText: string, jobDescription: string)
    ensures Framed(BuildAnalysisPrompt(resumeText, jobDescription), Preamble, Instructions)
  {
    SpliceFramed(Preamble, resumeText, Between, jobDescription, Instructions);
  }

  /** Both inputs appear verbatim, the résumé first, each in its own labelled
      section of the template. */
  lemma PromptEmbedsInputs(resumeText: string, jobDescription: string)
    ensures var prompt := BuildAnalysisPrompt(resumeText, jobDescription);
      var i := |Preamble|;
      var j := |Preamble| + |resumeText| + |Between|;
      OccursAt(prompt, resumeText, i)
      && OccursAt(prompt, Between, i + |resumeText|)
      && OccursAt(prompt, jobDescription, j)
  {
    Splice(Preamble, resumeText, Between, jobDescription, Instructions);
  }

  /** The prompt depends on its two inputs only, and loses neither: given the
      length of the résumé text, the prompt determines both inputs. */
  lemma PromptDeterminesInputs(resumeText: string, jobDescription: string, otherResume: string, otherJob: string)
    requires |resumeText| == |otherResume|
    requires BuildAnalysisPrompt(resumeText, jobDescription) == BuildAnalysisPrompt(otherResume, otherJob)
    ensures resumeText == otherResume && jobDescription == otherJob
  {
    SpliceInjective(Preamble, resumeText, Between, jobDescription, Instructions, otherResume, otherJob);
  }

  /** The first and last of five concatenated parts frame the whole. */
  lemma SpliceFramed(a: string, x: string, b: string, y: string, c: string)
    ensures Framed(a + x + b + y + c, a, c)
  {
    var s := a + x + b + y + c;
    assert s[..|a|] == a;
    assert s[|s| - |c|..] == c;
  }

  /** Where each part of a five-part concatenation lies. */
  lemma Splice(a: string, x: string, b: string, y: string, c: string)
    ensures var s := a + x + b + y + c;
      OccursAt(s, x, |a|) && OccursAt(s, b, |a| + |x|) && OccursAt(s, y, |a| + |x| + |b|)
  {
    var s := a + x + b + y + c;
    assert s[|a|..|a| + |x|] == x;
    assert s[|a| + |x|..|a| + |x| + |b|] == b;
    assert s[|a| + |x| + |b|..|a| + |x| + |b| + |y|] == y;
  }

  /** With the same frame and a first part of the same length, equal
      concatenations have equal variable parts. */
  lemma SpliceInjective(a: string, x: string, b: string, y: string, c: string, x': string, y': string)
    requires |x| == |x'|
    requires a + x + b + y + c == a + x' + b + y' + c
    ensures x == x' && y == y'
  {
    Splice(a, x, b, y, c);
    Splice(a, x', b, y', c);
  }
}
