/** What the network hands each palette parser. The requests themselves are
    not modelled: a reply is an input, already reduced to the part the
    parser reads. */
module Replies {

  /** The outcome of a chat-completion request through the inference client
      (O4-Mini, Grok-3-Mini, DeepSeek). */
  datatype ChatReply =
      /** `isUnexpected(response)`; the body's `error.message`, or "" when
          there is none. */
    | Unexpected(errorMessage: string)
      /** An expected response; `choices[0].message.content`, or "" when
          any link of that chain is missing or empty. */
    | Completion(content: string)
      /** The request itself threw, with this message. */
    | Thrown(thrownMessage: string)

  /** The outcome of a `fetch` whose body the parser decodes (Gemini, OpenAI,
      Hugging Face, Colormind). */
  datatype HttpReply<T> =
      /** `!response.ok`, with the status and the body text. */
    | NotOk(status: nat, body: string)
      /** `response.ok`, with what the parser extracts from the decoded
          body. */
    | Ok(data: T)

  /** `message || fallback`: an empty message is replaced. */
  function OrElse(message: string, fallback: string): (r: string)
    ensures fallback != "" ==> r != ""
    ensures r == message || r == fallback
    ensures message != "" ==> r == message
  {
    if message == "" then fallback else message
  }
}
