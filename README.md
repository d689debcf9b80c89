# Review generator: a Dafny model

`gerador.py` is a small Streamlit application. It writes a four-paragraph
review of a book with the Gemini text model, then asks Gemini for an image
prompt and DALL-E 3 for an illustration of the review, and finally asks
Gemini for a conceptual description of how the review could be visualised,
from the review's first 500 characters. This project models
the deterministic core of that script and proves properties of it. Both
services are treated as oracles: arbitrary functions from the text sent to a
reply.

The modules follow the script's functions:

- `PyStr` (`pystr.dfy`) defines the Python string operations the script relies on.
  - `str.isspace` is modelled by its exact set of code points.
  - It also covers `strip`, `split`, `join`, containment (`in`), ASCII `lower` and the slice `s[:n]`.
  - Properties proved: `split` and `join` are inverses, and `strip` is characterised completely.
- `Formatter` (`formatter.dfy`) models `formatar_paragrafo`. Proved: the shape of its output, its punctuation, when the output is empty, idempotence, and a round trip through sentence lists.
- `Services` (`services.dfy`) holds the outcome datatypes of the two service calls. A Python exception becomes an error alternative.
- `Review` (`review.dfy`) models `gerar_resenha`.
  - The four prompts are sent in turn, each after the context built so far.
  - Every stripped answer is appended to the context.
  - The formatted answers are joined by blank lines.
  - The loop is a method whose invariant ties every request to the answers before it.
- `ImagePrompt` (`imageprompt.dfy`) models `criar_prompt_imagem` and `gerar_descricao_gemini`: the requests quoting a prefix of the review, the style suffix, and `None` on failure.
- `ImageGen` (`imagegen.dfy`) models `gerar_imagem_dalle`.
  - The first call adds the safety suffix.
  - After a content-policy refusal there is exactly one retry, with a fixed abstract prompt.
  - Every other failure gives `None`.

A paragraph without any period, such as `"hello"`, gets a period appended
(`"hello."`); `Formatter.FormatWithoutPeriod` and `Formatter.FormatHello`
prove this.

## Model

| member | source | states |
|---|---|---|
| PyStr.IsSpace | gerador.py:33 | the characters `str.strip()` removes: exactly the 29 code points for which Python's `str.isspace()` holds |
| PyStr.TrimStart | gerador.py:33 | the result is a suffix of the input, everything dropped before it is whitespace, and it does not start with whitespace, so the longest whitespace prefix is removed |
| PyStr.TrimEnd | gerador.py:33 | the result is a prefix of the input, everything dropped after it is whitespace, and it does not end with whitespace, so the longest whitespace suffix is removed |
| PyStr.Strip | gerador.py:33 | the result has no whitespace at either end, and it is empty exactly when the input is all whitespace |
| PyStr.StripStretch | gerador.py:33 | the stripped string is a contiguous stretch of the input with only whitespace before and after it |
| PyStr.StripUnique | gerador.py:60 | stripping whitespace from around a trimmed string gives exactly that string, so together with the contract of `Strip` and `StripStretch` this determines `Strip` completely |
| PyStr.Split | gerador.py:59 | `split('.')` yields at least one piece and no piece contains the separator |
| PyStr.JoinWith | gerador.py:61-65 | `sep.join(parts)`: the empty string for no parts, the part itself for one, and otherwise the parts with `sep` between neighbours; its properties are stated by `JoinSplit`, `SplitJoin` and `JoinSnoc` |
| PyStr.JoinSplit | gerador.py:59 | joining with the separator what was split at it gives back the original string |
| PyStr.SplitJoin | gerador.py:59-61 | splitting a join of separator-free parts gives back the parts |
| PyStr.JoinSnoc | gerador.py:56 | joining one more part appends the separator and that part |
| PyStr.Contains | gerador.py:118 | `pat in s` holds exactly when `pat` occurs contiguously at some index of `s` |
| PyStr.Lower | gerador.py:118 | `lower()` keeps the length, leaves no capital `A`-`Z`, keeps every other character in place, and turns each capital into the small letter 32 code points above it (ASCII letters only) |
| PyStr.LowerIdempotent | gerador.py:118 | lower-casing an already lower-cased string changes nothing |
| PyStr.LowerConcat | gerador.py:118 | lower-casing a concatenation lower-cases each part in place |
| PyStr.Take | gerador.py:74 | `s[:n]` is a prefix of `s` whose length is `n`, or that of `s` when `s` is shorter |
| Formatter.Sentences | gerador.py:60 | the comprehension keeps at most one sentence per fragment; what each kept item is, and when none is kept, is stated by `SentencesAreSentences`, `SentencesEmpty` and `SentencesRoundTrip` |
| Formatter.FormatParagraph | gerador.py:58-61 | `formatar_paragrafo`: cut at `.`, keep the non-blank stripped pieces each with one `.`, join with single spaces; its properties are stated by `FormatShape`, `FormatPunctuation`, `FormatIdempotent`, `FormatEmpty` and `FormatWithoutPeriod` |
| Formatter.SentencesAreSentences | gerador.py:60 | each kept sentence is a non-empty, trimmed, period-free clause followed by exactly one period |
| Formatter.SentencesEmpty | gerador.py:60 | no sentence is kept exactly when every fragment is blank |
| Formatter.FormatShape | gerador.py:58-61 | a formatted paragraph is the single-space join of well-formed sentences |
| Formatter.JoinedSentencesPunctuation | gerador.py:61 | the join of sentences is empty only for no sentences, and it is well punctuated |
| Formatter.FormatPunctuation | gerador.py:58-61 | a formatted paragraph does not start with whitespace or a period; a non-empty one ends in a period; every period ends the text or is followed by one space and the start of a sentence |
| Formatter.SentencesRoundTrip | gerador.py:59-61 | splitting and re-collecting the join of well-formed sentences (after any leading whitespace) gives back the same sentences |
| Formatter.FormatIdempotent | gerador.py:58-61 | formatting an already formatted paragraph changes nothing |
| Formatter.SplitBlank | gerador.py:59-60 | every fragment is blank exactly when the text consists only of whitespace and periods |
| Formatter.FormatEmpty | gerador.py:58-61 | the formatted paragraph is empty exactly when every fragment is blank, that is, when the text is only whitespace and periods |
| Formatter.FormatWithoutPeriod | gerador.py:59-60 | a non-blank paragraph without a period becomes its stripped form followed by one added period |
| Formatter.FormatHello | gerador.py:58-61 | `"hello"` is formatted as `"hello."` |
| Review.Outline | gerador.py:35-41 | the fixed outline of the review, with the title quoted, that opens the first prompt |
| Review.ContextPrompt | gerador.py:44 | the first prompt: the outline followed by the request for the paragraph on the work, its author and its historical and literary context |
| Review.TechniquePrompt | gerador.py:45 | the second prompt: fixed text around the quoted title, asking for the analysis of structure, style and technique |
| Review.ThemesPrompt | gerador.py:46 | the third prompt: fixed text around the quoted title, asking for the themes and symbolism |
| Review.EvaluationPrompt | gerador.py:47 | the fourth prompt: fixed text around the quoted title, asking for the final critical evaluation |
| Review.Prompts | gerador.py:43-48 | the four prompts of the source in list order, each quoting the title; the contract states that there are exactly four |
| Review.Request | gerador.py:25 | the text sent for one stage is the context, a blank line, then the prompt; `AskInTurn` states that every request has this form |
| Review.Context | gerador.py:51-56 | the context after some answers, built from `""` by appending a newline and each answer in turn; `ContextAsJoin` and `ContextPrefix` state what it is |
| Review.Paragraph | gerador.py:23-33 | one stage succeeds exactly when the model answers the request `context + "\n\n" + prompt`; the paragraph is the trimmed answer; otherwise the call's error is reported |
| Review.Answers | gerador.py:54-55 | one stripped answer per request |
| Review.AnsweredTurn | gerador.py:53-56 | an answered stage keeps the loop state: the new request is built from the context of all earlier answers and its stripped answer is appended |
| Review.FailedTurn | gerador.py:53-54 | the request for the next prompt follows the pattern of the earlier ones: the context of all earlier answers, a blank line and the prompt |
| Review.AskInTurn | gerador.py:50-65 | the prompts are asked in order, at most once each; each request is the context of all earlier stripped answers, a blank line and the prompt; the first failure stops the run with its error; otherwise every prompt is answered and the result is the formatted answers joined by blank lines |
| Review.GenerateReview | gerador.py:17-65 | between one and four calls; a review exactly when all four calls are answered, equal to the four formatted answers in stage order joined by `"\n\n"`; otherwise the error of the last call |
| Review.FormatAll | gerador.py:63 | one formatted paragraph per paragraph, in the same order; `ReviewParagraphs` states what each is |
| Review.ContextAsJoin | gerador.py:51-56 | the context is empty before the first answer, and afterwards it is a newline followed by the answers joined by newlines |
| Review.ContextPrefix | gerador.py:56 | the context only grows: an earlier context is a prefix of every later one |
| Review.ReviewParagraphs | gerador.py:63 | every paragraph of the review is well punctuated and unchanged by formatting it again |
| ImagePrompt.StyledPrompt | gerador.py:93-100 | the model's reply gives an image prompt exactly when it is an answer, and the prompt then ends with the style suffix |
| ImagePrompt.StyledPromptGenerated | gerador.py:95-96 | without the style suffix the image prompt is the model's stripped answer, which has no whitespace at either end |
| ImagePrompt.CreateImagePrompt | gerador.py:67-100 | an image prompt exists exactly when the model answers the request built from the title and the review excerpt |
| ImagePrompt.PromptRequest | gerador.py:73-91 | the request quotes the title and the first 1000 characters of the review between the fixed texts; `PromptRequestSameExcerpt` states that nothing else of the review reaches it |
| ImagePrompt.PromptRequestSameExcerpt | gerador.py:73-91 | two reviews give the same request exactly when their first 1000 characters agree |
| ImagePrompt.ConceptualDescription | gerador.py:143-164 | a description exists exactly when the model answers, and it is the answer unstripped |
| ImagePrompt.DescriptionRequest | gerador.py:149-157 | the request quotes the first 500 characters of the review between the fixed texts; `DescriptionRequestSameExcerpt` states that nothing else of the review reaches it |
| ImagePrompt.DescriptionRequestSameExcerpt | gerador.py:149-157 | two reviews give the same description request exactly when their first 500 characters agree |
| ImageGen.GenerateImage | gerador.py:102-141 | one or two calls; the first sends the prompt with the safety suffix; a second call, with the fixed abstract prompt, happens exactly after an `OpenAIError` whose lower-cased text names a content-policy refusal; a URL is returned exactly when the last call returned one |
| ImageGen.IsPolicyRejection | gerador.py:118 | the error text, lower-cased, contains `content_policy_violation` or `content filters`; `PolicyRejectionIgnoresCase` and `UpperCaseCodeIsRejection` state its behaviour on letter case |
| ImageGen.FallbackIgnoresPrompt | gerador.py:118-135 | after a content refusal the outcome does not depend on the original prompt |
| ImageGen.FallbackDiffers | gerador.py:107-123 | the retry prompt is never the first prompt |
| ImageGen.PolicyRejectionIgnoresCase | gerador.py:118 | the refusal test gives the same answer on a message and on its lower-cased form |
| ImageGen.UpperCaseCodeIsRejection | gerador.py:118 | a message quoting `CONTENT_POLICY_VIOLATION` in capitals, anywhere, is a refusal |

## Left out

- The Streamlit page in `main` (gerador.py:166-221) is not modelled: the form, the spinners, the session state, and the rendering of the review, image and description. It is presentation only, and it reads `submit_button`, which line 178 leaves undefined.
- Loading the environment and configuring the API keys (gerador.py:10-15) is I/O and global configuration.
- The Gemini and DALL-E services are arbitrary functions from the request text to an outcome. The following are not modelled: the content of their answers, the sampling and image parameters (model name, temperature, size, quality), and any non-determinism between calls.
- Downloading and decoding the image with `requests` and PIL is network and binary I/O.
- The `st.error` and `st.warning` messages are log side effects with no effect on results.
  - The model keeps the error message only where it decides the outcome.
  - In `gerar_resenha`, an exception propagates to the caller; the model reports it as `Err(message)`.
- PyStr.Lower: lower-cases ASCII letters only. Python's `str.lower` also maps letters of other scripts (for example `'Ä'` to `'ä'`). The only non-ASCII characters it maps to ASCII letters are the Kelvin sign and the dotted capital I. The first gives `k`, which neither phrase contains. The second gives `i` followed by a combining dot, which breaks the phrase. So the refusal test is expected to agree with Python's on every message, but that is argued here and not proved.
- Python strings may contain lone surrogate code points, which a Dafny `string` cannot. Otherwise the code-point slices `[:1000]` and `[:500]` are modelled exactly.
- Denylist filtering of paragraphs is not modelled, because the script does not implement any.
