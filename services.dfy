/**
 The two external services seen from the review generator. Neither is
 modelled: the text-generation model (Gemini) is a function from the request
 text to a `Reply`, and the image model (DALL-E 3) a function from the prompt
 to an `ImageOutcome`. Exceptions become the error alternatives.
 */
module Services {

  /** The value or its absence: Python's `None` for a failed step. */
  datatype Option<T> = None | Some(value: T)

  /** A value or the message of the exception that stopped the computation. */
  datatype Result<T> = Ok(value: T) | Err(message: string)

  /** The answer of one `generate_content` call: the response text, or the
      message of the exception raised by the call or by reading `.text`. */
  datatype Reply = Text(text: string) | Failure(message: string)

  /** The outcome of one `openai.Image.create` call: the URL of the first
      image, an `openai.OpenAIError` carrying `str(e)`, or any other exception. */
  datatype ImageOutcome = Url(url: string) | OpenAIError(message: string) | OtherError(message: string)
}
