/**
 The review pipeline (`gerar_resenha`): four prompts about the book are sent
 to the text-generation model one after the other, each preceded by the
 context accumulated so far; every stripped answer is kept and appended to
 the context on a new line; finally the answers are formatted and joined
 with blank lines.
 */
module Review {
  import opened PyStr
  import opened Services
  import opened Formatter

  // The fixed texts of the prompts, around the interpolated title.
  const OutlineHead: string := "Como crítico literário especializado, escreverei uma resenha acadêmica do livro '"
  const OutlineTail: string :=
    "' em quatro parágrafos:\n\n" +
    "    1. Introdução: Contextualização da obra e autor\n" +
    "    2. Análise: Aspectos técnicos e estilísticos\n" +
    "    3. Interpretação: Temas principais e significados\n" +
    "    4. Avaliação final: Contribuição para o campo literário\n" +
    "    "
  const ContextAsk: string := "\n\nEscreva APENAS o primeiro parágrafo com foco na contextualização da obra e seu autor, incluindo informações sobre o período histórico e contexto literário:"
  const TechniqueHead: string := "Considerando o parágrafo anterior sobre '"
  const TechniqueAsk: string := "', escreva APENAS o segundo parágrafo, focando na análise dos aspectos técnicos como estrutura narrativa, estilo de escrita e técnicas literárias empregadas:"
  const ThemesHead: string := "Com base nos parágrafos anteriores sobre '"
  const ThemesAsk: string := "', escreva APENAS o terceiro parágrafo, explorando os temas principais, simbolismos e significados mais profundos da obra:"
  const EvaluationHead: string := "Para finalizar a resenha de '"
  const EvaluationAsk: string := "', escreva APENAS o parágrafo final com uma avaliação crítica da contribuição da obra para o campo literário, SEM repetir conclusões anteriores:"

  /** The fixed outline of the review that opens the first prompt (`estrutura_resenha`). */
  function Outline(book: string): string {
    OutlineHead + book + OutlineTail
  }

  /** First prompt: the outline, then the request for the contextualising paragraph. */
  function ContextPrompt(book: string): string {
    Outline(book) + ContextAsk
  }

  /** Second prompt: the analysis of technique and style. */
  function TechniquePrompt(book: string): string {
    TechniqueHead + book + TechniqueAsk
  }

  /** Third prompt: themes and symbolism. */
  function ThemesPrompt(book: string): string {
    ThemesHead + book + ThemesAsk
  }

  /** Fourth prompt: the final critical evaluation. */
  function EvaluationPrompt(book: string): string {
    EvaluationHead + book + EvaluationAsk
  }

  /** The four prompts, in the order they are sent (`prompts`). */
  function Prompts(book: string): (ps: seq<string>)
    ensures |ps| == 4
  {
    [ContextPrompt(book), TechniquePrompt(book), ThemesPrompt(book), EvaluationPrompt(book)]
  }

  /** The text sent to the model for one prompt: the context, a blank line, the prompt. */
  function Request(context: string, prompt: string): string {
    context + "\n\n" + prompt
  }

  /** The context after the given answers: each one on a new line
      (what `contexto_atual += f"\n{paragrafo}"` builds from `""`). */
  function Context(answers: seq<string>): string {
    if answers == [] then ""
    else Context(answers[..|answers| - 1]) + "\n" + answers[|answers| - 1]
  }

  /** One stage (`gerar_paragrafo`): ask the model and strip its answer; an
      exception of the call propagates. */
  function Paragraph(gen: string -> Reply, prompt: string, context: string): (r: Result<string>)
    ensures r.Ok? <==> gen(Request(context, prompt)).Text?
    ensures r.Ok? ==> Trimmed(r.value) && r.value == Strip(gen(Request(context, prompt)).text)
    ensures r.Err? ==> gen(Request(context, prompt)) == Failure(r.message)
  {
    match gen(Request(context, prompt))
    case Text(t) => Ok(Strip(t))
    case Failure(m) => Err(m)
  }

  /** The stripped answers the model gave to `requests`, all of which it answered. */
  function Answers(gen: string -> Reply, requests: seq<string>): (r: seq<string>)
    requires forall k :: 0 <= k < |requests| ==> gen(requests[k]).Text?
    ensures |r| == |requests|
  {
    seq(|requests|, k requires 0 <= k < |requests| => Strip(gen(requests[k]).text))
  }

  /** Every paragraph formatted (`[formatar_paragrafo(p) for p in paragraphs]`). */
  function FormatAll(paragraphs: seq<string>): (r: seq<string>)
    ensures |r| == |paragraphs|
  {
    seq(|paragraphs|, k requires 0 <= k < |paragraphs| => FormatParagraph(paragraphs[k]))
  }

  /** The loop of `gerar_resenha` over any list of prompts, with the model as
      `gen`. `requests` lists the texts sent to the model, in order: each is
      the next prompt preceded by the context built from the earlier answers.
      The run stops at the first failing call and reports its message;
      otherwise every prompt is asked and the result is the formatted answers
      joined by blank lines. */
  method AskInTurn(prompts: seq<string>, gen: string -> Reply) returns (review: Result<string>, requests: seq<string>)
    ensures |requests| <= |prompts|
    ensures forall k :: 0 <= k < |requests| - 1 ==> gen(requests[k]).Text?
    ensures forall k :: 0 <= k < |requests| ==>
      requests[k] == Request(Context(Answers(gen, requests[..k])), prompts[k])
    ensures review.Err? ==> |requests| >= 1 && gen(requests[|requests| - 1]) == Failure(review.message)
    ensures review.Ok? ==> |requests| == |prompts| && forall k :: 0 <= k < |requests| ==> gen(requests[k]).Text?
    ensures review.Ok? ==> review.value == JoinWith("\n\n", FormatAll(Answers(gen, requests)))
  {
    var paragraphs: seq<string> := [];
    var context := "";
    requests := [];
    for i := 0 to |prompts|
      invariant |requests| == i
      invariant InTurn(gen, prompts, requests, paragraphs)
      invariant context == Context(paragraphs)
    {
      var request := Request(context, prompts[i]);
      var paragraph := Paragraph(gen, prompts[i], context);
      if paragraph.Err? {
        FailedTurn(gen, prompts, requests, paragraphs);
        return Err(paragraph.message), requests + [request];
      }
      AnsweredTurn(gen, prompts, requests, paragraphs);
      requests := requests + [request];
      paragraphs := paragraphs + [paragraph.value];
      context := context + "\n" + paragraph.value;
    }
    AllTurns(gen, prompts, requests, paragraphs);
    review := Ok(JoinWith("\n\n", FormatAll(paragraphs)));
  }

  /** The state of `AskInTurn` after every answered call: one stripped answer
      per request, and each request built from the answers before it. */
  ghost predicate InTurn(gen: string -> Reply, prompts: seq<string>, requests: seq<string>, paragraphs: seq<string>) {
    |requests| == |paragraphs| <= |prompts| &&
    (forall k :: 0 <= k < |requests| ==> gen(requests[k]).Text?) &&
    paragraphs == Answers(gen, requests) &&
    (forall k :: 0 <= k < |requests| ==> requests[k] == Request(Context(paragraphs[..k]), prompts[k]))
  }

  /** An answered call extends the state by its request and its stripped answer. */
  lemma AnsweredTurn(gen: string -> Reply, prompts: seq<string>, requests: seq<string>, paragraphs: seq<string>)
    requires InTurn(gen, prompts, requests, paragraphs) && |requests| < |prompts|
    requires gen(Request(Context(paragraphs), prompts[|requests|])).Text?
    ensures InTurn(gen, prompts, requests + [Request(Context(paragraphs), prompts[|requests|])],
      paragraphs + [Strip(gen(Request(Context(paragraphs), prompts[|requests|])).text)])
  {
    var request := Request(Context(paragraphs), prompts[|requests|]);
    var answer := Strip(gen(request).text);
    ExtendRequests(requests, paragraphs, prompts, request);
    ExtendAnswers(requests + [request], paragraphs, prompts, answer);
    AnswersSnoc(gen, requests, request);
    AllAnswered(gen, requests, request);
  }

  /** The request for the next prompt follows the pattern of the earlier
      ones: the context of all earlier answers, a blank line and the prompt. */
  lemma FailedTurn(gen: string -> Reply, prompts: seq<string>, requests: seq<string>, paragraphs: seq<string>)
    requires InTurn(gen, prompts, requests, paragraphs) && |requests| < |prompts|
    ensures forall k :: 0 <= k < |requests| + 1 ==>
      (requests + [Request(Context(paragraphs), prompts[|requests|])])[k] ==
      Request(Context(Answers(gen, (requests + [Request(Context(paragraphs), prompts[|requests|])])[..k])), prompts[k])
  {
    var request := Request(Context(paragraphs), prompts[|requests|]);
    var requests' := requests + [request];
    assert requests'[..|requests|] == requests;
    ExtendRequests(requests, paragraphs, prompts, request);
    RequestsFollowAnswers(gen, requests', prompts, paragraphs);
  }

  /** The request built from all answers so far fits the pattern of the earlier ones. */
  lemma ExtendRequests(requests: seq<string>, paragraphs: seq<string>, prompts: seq<string>, request: string)
    requires |requests| == |paragraphs| < |prompts|
    requires forall k :: 0 <= k < |requests| ==> requests[k] == Request(Context(paragraphs[..k]), prompts[k])
    requires request == Request(Context(paragraphs), prompts[|requests|])
    ensures forall k :: 0 <= k < |requests| + 1 ==> (requests + [request])[k] == Request(Context(paragraphs[..k]), prompts[k])
  {
    forall k | 0 <= k < |requests| + 1
      ensures (requests + [request])[k] == Request(Context(paragraphs[..k]), prompts[k])
    {
      if k < |requests| {
        assert (requests + [request])[k] == requests[k];
      } else {
        assert paragraphs[..k] == paragraphs;
      }
    }
  }

  /** Appending an answer leaves the answers before each earlier request unchanged. */
  lemma ExtendAnswers(requests: seq<string>, paragraphs: seq<string>, prompts: seq<string>, answer: string)
    requires |requests| == |paragraphs| + 1 <= |prompts|
    requires forall k :: 0 <= k < |requests| ==> requests[k] == Request(Context(paragraphs[..k]), prompts[k])
    ensures forall k :: 0 <= k < |requests| ==> requests[k] == Request(Context((paragraphs + [answer])[..k]), prompts[k])
  {
    forall k | 0 <= k < |requests|
      ensures requests[k] == Request(Context((paragraphs + [answer])[..k]), prompts[k])
    {
      PrefixOfSnoc(paragraphs, answer, k);
    }
  }

  /** One more answered request keeps every request answered. */
  lemma AllAnswered(gen: string -> Reply, requests: seq<string>, request: string)
    requires forall k :: 0 <= k < |requests| ==> gen(requests[k]).Text?
    requires gen(request).Text?
    ensures forall k :: 0 <= k < |requests + [request]| ==> gen((requests + [request])[k]).Text?
  {
    forall k | 0 <= k < |requests + [request]|
      ensures gen((requests + [request])[k]).Text?
    {
      if k < |requests| {
        assert (requests + [request])[k] == requests[k];
      }
    }
  }

  /** Once every prompt is answered the run ends with the postconditions of `AskInTurn`. */
  lemma AllTurns(gen: string -> Reply, prompts: seq<string>, requests: seq<string>, paragraphs: seq<string>)
    requires InTurn(gen, prompts, requests, paragraphs)
    ensures forall k :: 0 <= k < |requests| ==>
      requests[k] == Request(Context(Answers(gen, requests[..k])), prompts[k])
  {
    assert requests[..|paragraphs|] == requests;
    RequestsFollowAnswers(gen, requests, prompts, paragraphs);
  }

  /** `gerar_resenha(livro)`: the four prompts about `book` asked in turn.
      At least one call is made; the review is produced exactly when all
      four calls are answered. */
  method GenerateReview(book: string, gen: string -> Reply) returns (review: Result<string>, requests: seq<string>)
    ensures 1 <= |requests| <= |Prompts(book)|
    ensures forall k :: 0 <= k < |requests| - 1 ==> gen(requests[k]).Text?
    ensures forall k :: 0 <= k < |requests| ==>
      requests[k] == Request(Context(Answers(gen, requests[..k])), Prompts(book)[k])
    ensures review.Ok? <==> |requests| == |Prompts(book)| && gen(requests[|requests| - 1]).Text?
    ensures review.Err? ==> gen(requests[|requests| - 1]) == Failure(review.message)
    ensures review.Ok? ==> review.value == JoinWith("\n\n", FormatAll(Answers(gen, requests)))
  {
    review, requests := AskInTurn(Prompts(book), gen);
  }

  lemma PrefixOfSnoc<T>(s: seq<T>, x: T, k: nat)
    requires k <= |s|
    ensures (s + [x])[..k] == s[..k]
  {
  }

  /** Answering one more request appends its stripped answer. */
  lemma AnswersSnoc(gen: string -> Reply, requests: seq<string>, request: string)
    requires forall k :: 0 <= k < |requests| ==> gen(requests[k]).Text?
    requires gen(request).Text?
    ensures Answers(gen, requests + [request]) == Answers(gen, requests) + [Strip(gen(request).text)]
  {
    var all := requests + [request];
    var longer := Answers(gen, all);
    var shorter := Answers(gen, requests) + [Strip(gen(request).text)];
    assert |longer| == |shorter|;
    forall k | 0 <= k < |all|
      ensures longer[k] == shorter[k]
    {
      if k < |requests| {
        assert all[k] == requests[k];
      }
    }
  }

  /** The answers to a prefix of the requests are the prefix of the answers. */
  lemma AnswersPrefix(gen: string -> Reply, requests: seq<string>, n: nat)
    requires n <= |requests|
    requires forall k :: 0 <= k < |requests| ==> gen(requests[k]).Text?
    ensures Answers(gen, requests[..n]) == Answers(gen, requests)[..n]
  {
  }

  /** Restates the loop's bookkeeping (each request built from the answers
      before it) in terms of the requests alone. */
  lemma RequestsFollowAnswers(gen: string -> Reply, requests: seq<string>, prompts: seq<string>, paragraphs: seq<string>)
    requires |paragraphs| <= |requests| <= |paragraphs| + 1 && |requests| <= |prompts|
    requires forall k :: 0 <= k < |paragraphs| ==> gen(requests[k]).Text?
    requires paragraphs == Answers(gen, requests[..|paragraphs|])
    requires forall k :: 0 <= k < |requests| ==> requests[k] == Request(Context(paragraphs[..k]), prompts[k])
    ensures forall k :: 0 <= k < |requests| ==> requests[k] == Request(Context(Answers(gen, requests[..k])), prompts[k])
  {
    var n := |paragraphs|;
    forall k | 0 <= k < |requests|
      ensures requests[k] == Request(Context(Answers(gen, requests[..k])), prompts[k])
    {
      assert requests[..k] == requests[..n][..k];
      AnswersPrefix(gen, requests[..n], k);
    }
  }

  /** The context is every answer so far, each after a newline: empty before
      the first answer, then `"\n" + "\n".join(answers)`. */
  lemma {:induction false} ContextAsJoin(answers: seq<string>)
    ensures answers == [] ==> Context(answers) == ""
    ensures answers != [] ==> Context(answers) == "\n" + JoinWith("\n", answers)
    decreases |answers|
  {
    if |answers| >= 2 {
      var init := answers[..|answers| - 1];
      var last := answers[|answers| - 1];
      ContextAsJoin(init);
      JoinSnoc("\n", init, last);
      assert init + [last] == answers;
      ConcatAssoc("\n", JoinWith("\n", init) + "\n", last);
    } else if |answers| == 1 {
      assert answers[..0] == [];
    }
  }

  /** The context only grows: the context after fewer answers is a prefix of
      the context after more. */
  lemma {:induction false} ContextPrefix(answers: seq<string>, n: nat)
    requires n <= |answers|
    ensures Context(answers[..n]) <= Context(answers)
    decreases |answers|
  {
    if n < |answers| {
      var init := answers[..|answers| - 1];
      assert answers[..n] == init[..n];
      ContextPrefix(init, n);
    } else {
      assert answers[..n] == answers;
    }
  }

  /** Every paragraph of a produced review is formatted for good: it ends in a
      period, its periods are each followed by a space and a new sentence, and
      formatting it again changes nothing. */
  lemma ReviewParagraphs(paragraphs: seq<string>)
    ensures forall k :: 0 <= k < |paragraphs| ==>
      WellPunctuated(FormatAll(paragraphs)[k]) && FormatParagraph(FormatAll(paragraphs)[k]) == FormatAll(paragraphs)[k]
  {
    forall k | 0 <= k < |paragraphs|
      ensures WellPunctuated(FormatAll(paragraphs)[k]) && FormatParagraph(FormatAll(paragraphs)[k]) == FormatAll(paragraphs)[k]
    {
      FormatPunctuation(paragraphs[k]);
      FormatIdempotent(paragraphs[k]);
    }
  }
}
