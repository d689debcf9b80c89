/**
 The two text-model stages that follow the review: `criar_prompt_imagem`
 asks the model for an image prompt from an excerpt of the review and adds
 a fixed style suffix; `gerar_descricao_gemini` asks for a conceptual
 description from a shorter excerpt and returns the answer as it is. A
 failing call gives `None` in both.
 */
module ImagePrompt {
  import opened PyStr
  import opened Services

  /** How much of the review the image-prompt request quotes (`resenha[:1000]`). */
  const PromptExcerpt: nat := 1000

  /** How much of the review the description request quotes (`resenha[:500]`). */
  const DescriptionExcerpt: nat := 500

  /** Appended to the generated image prompt. */
  const StyleSuffix: string := " Style: digital art, professional, elegant, suitable for all audiences."

  // The fixed text of the image-prompt request, around the title and the excerpt.
  const PromptHead: string := "Com base nesta resenha do livro '"
  const PromptMiddle: string := "':\n    "
  const PromptTail: string :=
    "...\n" +
    "    \n" +
    "    Crie um prompt artístico CONSERVADOR e SEGURO para o DALL-E 3 que:\n" +
    "    1. Foque em elementos abstratos e simbólicos que representem os temas do livro\n" +
    "    2. Evite menções a violência, conteúdo adulto ou temas sensíveis\n" +
    "    3. Use metáforas visuais apropriadas para todos os públicos\n" +
    "    4. Enfatize cores, formas e composição\n" +
    "    5. Mantenha um tom profissional e artístico\n" +
    "    \n" +
    "    Regras:\n" +
    "    - Evite pessoas específicas ou rostos reconhecíveis\n" +
    "    - Evite referências a marcas ou direitos autorais\n" +
    "    - Use linguagem neutra e apropriada\n" +
    "    - Foque em paisagens, natureza, objetos simbólicos ou padrões abstratos\n" +
    "    \n" +
    "    Formato do prompt:\n" +
    "    \"Create a 9:6 artistic [estilo artístico] illustration showing a [descrição segura e abstrata] with [elementos visuais e cores]\"\n" +
    "    "

  // The fixed text of the description request, around the excerpt.
  const DescriptionHead: string := "Analise esta resenha e crie uma descrição artística conceitual:\n    "
  const DescriptionTail: string :=
    "...\n" +
    "    \n" +
    "    Descreva:\n" +
    "    1. Os elementos visuais principais que representam a obra\n" +
    "    2. O simbolismo presente\n" +
    "    3. A atmosfera e tom visual\n" +
    "    4. Como estes elementos se conectam com os temas do livro\n" +
    "    "

  /** The text `criar_prompt_imagem` sends to the model (`prompt_para_gemini`). */
  function PromptRequest(review: string, book: string): string {
    PromptHead + book + PromptMiddle + Take(review, PromptExcerpt) + PromptTail
  }

  /** What `criar_prompt_imagem` makes of the model's reply: the stripped
      answer followed by the style suffix, or `None` when the call failed. */
  function StyledPrompt(reply: Reply): (r: Option<string>)
    ensures r.Some? <==> reply.Text?
    ensures r.Some? ==> |r.value| >= |StyleSuffix| && r.value[|r.value| - |StyleSuffix|..] == StyleSuffix
  {
    match reply
    case Text(t) => Some(Strip(t) + StyleSuffix)
    case Failure(_) => None
  }

  /** `criar_prompt_imagem(resenha, livro)` with the model as `gen`. */
  function CreateImagePrompt(review: string, book: string, gen: string -> Reply): (r: Option<string>)
    ensures r.Some? <==> gen(PromptRequest(review, book)).Text?
  {
    StyledPrompt(gen(PromptRequest(review, book)))
  }

  /** The generated part of an image prompt: everything before the style suffix. */
  function Generated(prompt: string): string
    requires |prompt| >= |StyleSuffix|
  {
    prompt[..|prompt| - |StyleSuffix|]
  }

  /** Removing the style suffix from a produced image prompt gives back the
      model's stripped answer, which has no whitespace at either end. */
  lemma StyledPromptGenerated(reply: Reply)
    requires reply.Text?
    ensures var p := StyledPrompt(reply).value;
      p == Generated(p) + StyleSuffix && Generated(p) == Strip(reply.text) && Trimmed(Generated(p))
  {
    var t := Strip(reply.text);
    assert (t + StyleSuffix)[..|t|] == t;
  }

  /** Two reviews give the same request (and so the same image prompt) exactly
      when they agree on their first thousand characters. */
  lemma PromptRequestSameExcerpt(review1: string, review2: string, book: string)
    ensures PromptRequest(review1, book) == PromptRequest(review2, book) <==>
      Take(review1, PromptExcerpt) == Take(review2, PromptExcerpt)
  {
    var x1 := Take(review1, PromptExcerpt);
    var x2 := Take(review2, PromptExcerpt);
    if PromptRequest(review1, book) == PromptRequest(review2, book) {
      CancelAround(PromptHead + book + PromptMiddle, x1, x2, PromptTail);
    }
  }

  /** The text `gerar_descricao_gemini` sends to the model (`prompt_descricao`). */
  function DescriptionRequest(review: string): string {
    DescriptionHead + Take(review, DescriptionExcerpt) + DescriptionTail
  }

  /** `gerar_descricao_gemini(resenha)` with the model as `gen`: the answer
      exactly as the model gave it (not stripped), or `None` when the call fails. */
  function ConceptualDescription(review: string, gen: string -> Reply): (r: Option<string>)
    ensures r.Some? <==> gen(DescriptionRequest(review)).Text?
    ensures r.Some? ==> r.value == gen(DescriptionRequest(review)).text
  {
    match gen(DescriptionRequest(review))
    case Text(t) => Some(t)
    case Failure(_) => None
  }

  /** Two reviews give the same description request exactly when they agree
      on their first five hundred characters. */
  lemma DescriptionRequestSameExcerpt(review1: string, review2: string)
    ensures DescriptionRequest(review1) == DescriptionRequest(review2) <==>
      Take(review1, DescriptionExcerpt) == Take(review2, DescriptionExcerpt)
  {
    var x1 := Take(review1, DescriptionExcerpt);
    var x2 := Take(review2, DescriptionExcerpt);
    if DescriptionRequest(review1) == DescriptionRequest(review2) {
      CancelAround(DescriptionHead, x1, x2, DescriptionTail);
    }
  }

  /** A common prefix and suffix can be cancelled. */
  lemma CancelAround(a: string, x: string, y: string, b: string)
    requires a + x + b == a + y + b
    ensures x == y
  {
    var s := a + x + b;
    assert |x| == |y|;
    assert x == s[|a|..|a| + |x|];
    assert y == (a + y + b)[|a|..|a| + |y|];
  }
}
