/** `identify_source(text, llm)` of the language-model script: the prompt it
    builds around an article's text and the normalisation of the model's
    answer. The model is an opaque function that either generates text or
    raises. */
module Provenance {
  import opened Text

  /** One call `llm(prompt, max_length=50)[0]['generated_text']`: the text
      generated, or an exception (from the pipeline or from indexing its
      output). */
  datatype Generation = Generated(text: string) | Raised

  type Llm = string -> Generation

  /** The answer used when no source can be determined. */
  const NoSource: string := "none"

  /** The fixed instruction that opens every prompt. */
  const Instruction: string :=
    "Identify the news outlet or wire service credited as the original source in the following article. "
    + "If there is no explicit attribution to another outlet or wire service, respond with 'none'. "

  const ArticleLabel: string := "Article: "

  /** The prompt: the instruction, then "Article: ", then the text verbatim. */
  function Prompt(text: string): string
  {
    Instruction + ArticleLabel + text
  }

  /** The part of a prompt after the fixed prefix. */
  function ArticleOf(prompt: string): string
    requires |Instruction| + |ArticleLabel| <= |prompt|
  {
    prompt[|Instruction| + |ArticleLabel|..]
  }

  /** The article text is carried verbatim: it can be read back from the
      prompt, so different texts give different prompts. */
  lemma PromptRoundTrip(text: string)
    ensures ArticleOf(Prompt(text)) == text
  {
    assert Prompt(text) == (Instruction + ArticleLabel) + text;
  }

  lemma PromptInjective(a: string, b: string)
    requires Prompt(a) == Prompt(b)
    ensures a == b
  {
    PromptRoundTrip(a);
    PromptRoundTrip(b);
  }

  /** `result.strip().split("\n")[0].lower()`. */
  function Normalise(generated: string): string {
    Lower(FirstLine(Strip(generated)))
  }

  /** `identify_source`: "none" for an empty text or a raising model, the
      normalised answer otherwise. */
  function IdentifySource(text: string, llm: Llm): (r: string)
    ensures text == "" ==> r == NoSource
    ensures text != "" && llm(Prompt(text)).Raised? ==> r == NoSource
    ensures text != "" && llm(Prompt(text)).Generated? ==> r == Normalise(llm(Prompt(text)).text)
    ensures '\n' !in r
    ensures NoAsciiUpper(r)
  {
    if text == "" then NoSource
    else
      match llm(Prompt(text))
      case Raised => NoSource
      case Generated(result) =>
        NormaliseProperties(result);
        Normalise(result)
  }

  /** What the normalised answer is: the lower-cased first line of the stripped
      output, without line feeds or upper-case letters, and a fixed point of
      lower-casing. */
  lemma NormaliseProperties(generated: string)
    ensures '\n' !in Normalise(generated)
    ensures NoAsciiUpper(Normalise(generated))
    ensures Lower(Normalise(generated)) == Normalise(generated)
    ensures |Normalise(generated)| <= |Strip(generated)| <= |generated|
    ensures Normalise(generated) == Lower(Strip(generated)[..|Normalise(generated)|])
    ensures |Normalise(generated)| < |Strip(generated)| ==> Strip(generated)[|Normalise(generated)|] == '\n'
  {
    var line := FirstLine(Strip(generated));
    LowerProperties(line);
    var i := StripSlice(generated);
    assert '\n' !in line;
    forall k | 0 <= k < |line|
      ensures Normalise(generated)[k] != '\n'
    {
      assert line[k] != '\n';
    }
  }

  /** An output on a single line without surrounding white space or upper-case
      letters is returned unchanged. */
  lemma NormaliseKeepsCleanAnswer(answer: string)
    requires '\n' !in answer && NoAsciiUpper(answer)
    requires answer != [] ==> !IsSpace(answer[0]) && !IsSpace(answer[|answer| - 1])
    ensures Normalise(answer) == answer
  {
    assert TrimStart(answer) == answer;
    assert TrimEnd(answer) == answer;
    assert Strip(answer) == answer;
    FirstLineWithoutBreak(answer);
    LowerOfLower(answer);
  }

  /** An output made only of white space normalises to the empty answer,
      which is not "none". */
  lemma BlankAnswerIsEmpty(generated: string)
    requires forall k :: 0 <= k < |generated| ==> IsSpace(generated[k])
    ensures Normalise(generated) == ""
  {
    var i := StripSlice(generated);
  }

  lemma {:induction false} FirstLineWithoutBreak(s: string)
    requires '\n' !in s
    ensures FirstLine(s) == s
  {
    if s != [] {
      FirstLineWithoutBreak(s[1..]);
    }
  }
}
