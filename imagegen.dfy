/**
 The image stage (`gerar_imagem_dalle`): the prompt is sent to the image
 model with a fixed safety suffix; when the model refuses it on content
 grounds the stage tries once more with a fixed abstract prompt that does
 not depend on the input; every other failure gives `None`.
 */
module ImageGen {
  import opened PyStr
  import opened Services

  /** Appended to every prompt before the first call (`safe_prompt`). */
  const SafetySuffix: string := " Safe for all audiences, non-controversial, abstract artistic style."

  /** The prompt of the second attempt (`abstract_prompt`), with the line
      breaks, indentation and trailing spaces of the source's triple-quoted text. */
  const AbstractPrompt: string :=
    "Create a 9:6 abstract artistic illustration using colors and shapes \n" +
    "                that represent the essence of literature and storytelling. Use subtle symbolism and elegant \n" +
    "                composition. Professional, elegant, suitable for all audiences."

  const PolicyViolation: string := "content_policy_violation"
  const ContentFilters: string := "content filters"

  /** The error text names a content-policy refusal, in any letter case. */
  predicate IsPolicyRejection(message: string) {
    Contains(Lower(message), PolicyViolation) || Contains(Lower(message), ContentFilters)
  }

  /** What one run of the stage did: the URL it returned (`None` on failure)
      and the prompts it sent to the image model, in order. */
  datatype ImageRun = ImageRun(url: Option<string>, prompts: seq<string>)

  /** `gerar_imagem_dalle(prompt)` with the image model as `dalle`. */
  function GenerateImage(prompt: string, dalle: string -> ImageOutcome): (r: ImageRun)
    ensures 1 <= |r.prompts| <= 2
    ensures r.prompts[0] == prompt + SafetySuffix
    ensures |r.prompts| == 2 <==>
      dalle(prompt + SafetySuffix).OpenAIError? && IsPolicyRejection(dalle(prompt + SafetySuffix).message)
    ensures |r.prompts| == 2 ==> r.prompts[1] == AbstractPrompt
    ensures r.url.Some? <==> dalle(r.prompts[|r.prompts| - 1]).Url?
    ensures r.url.Some? ==> r.url.value == dalle(r.prompts[|r.prompts| - 1]).url
  {
    var first := prompt + SafetySuffix;
    match dalle(first)
    case Url(u) => ImageRun(Some(u), [first])
    case OtherError(_) => ImageRun(None, [first])
    case OpenAIError(m) =>
      if IsPolicyRejection(m) then
        match dalle(AbstractPrompt)
        case Url(u) => ImageRun(Some(u), [first, AbstractPrompt])
        case _ => ImageRun(None, [first, AbstractPrompt])
      else ImageRun(None, [first])
  }

  /** After a content refusal the outcome no longer depends on the prompt:
      any two prompts that are both refused end the same way. */
  lemma FallbackIgnoresPrompt(prompt1: string, prompt2: string, dalle: string -> ImageOutcome)
    requires dalle(prompt1 + SafetySuffix).OpenAIError? && IsPolicyRejection(dalle(prompt1 + SafetySuffix).message)
    requires dalle(prompt2 + SafetySuffix).OpenAIError? && IsPolicyRejection(dalle(prompt2 + SafetySuffix).message)
    ensures GenerateImage(prompt1, dalle).url == GenerateImage(prompt2, dalle).url
  {
    var r1 := GenerateImage(prompt1, dalle);
    var r2 := GenerateImage(prompt2, dalle);
    assert r1.prompts[1] == r2.prompts[1];
  }

  /** The second attempt really sends a different prompt: no input prompt
      with the safety suffix equals the abstract prompt. */
  lemma FallbackDiffers(prompt: string)
    ensures prompt + SafetySuffix != AbstractPrompt
  {
    var s := prompt + SafetySuffix;
    assert s[|s| - 2] == 'e';
    assert AbstractPrompt[|AbstractPrompt| - 2] == 's';
  }

  /** The refusal test ignores letter case. */
  lemma PolicyRejectionIgnoresCase(message: string)
    ensures IsPolicyRejection(Lower(message)) <==> IsPolicyRejection(message)
  {
    LowerIdempotent(message);
  }

  /** A message that quotes the error code in capitals, anywhere, counts as a
      refusal. */
  lemma UpperCaseCodeIsRejection(before: string, after: string)
    ensures IsPolicyRejection(before + "CONTENT_POLICY_VIOLATION" + after)
  {
    var code := "CONTENT_POLICY_VIOLATION";
    LowerConcat(before + code, after);
    LowerConcat(before, code);
    assert Lower(code) == PolicyViolation;
    var m := Lower(before + code + after);
    assert m == Lower(before) + PolicyViolation + Lower(after);
    assert OccursAt(m, PolicyViolation, |before|);
  }
}
