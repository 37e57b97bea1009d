/** Question answering over a document's text (app/llm.py): a fixed system
    prompt, a user message that carries the whole context and the question,
    one call to the chat backend, its first choice returned as is, and a
    fixed fallback answer whenever anything about the call fails. */
module Llm {
  import opened Calls

  const SystemPrompt: string :=
    "You are a helpful assistant analyzing documents. "
    + "Answer the user's question strictly based on the provided context below."

  const ModelName: string := "llama-3.3-70b-versatile"

  /** The answer given instead of raising when the backend call fails. */
  const FallbackAnswer: string := "Error processing the question."

  datatype Role = System | User

  datatype Message = Message(role: Role, content: string)

  /** The arguments of `client.chat.completions.create`. */
  datatype ChatRequest = ChatRequest(messages: seq<Message>, model: string)

  /** A completion, reduced to `choices[i].message.content` for each choice. */
  datatype Completion = Completion(choices: seq<string>)

  /** The chat backend: one request in, a completion or an exception out. */
  type Backend = ChatRequest -> Call<Completion>

  /** `f"Context:\n{context}\n\nQuestion:\n{question}"`: the header, the
      whole context, the separator and the whole question, each at a fixed
      place, nothing truncated. */
  function UserMessage(context: string, question: string): (m: string)
    ensures |m| == 9 + |context| + 12 + |question|
    ensures m[..9] == "Context:\n"
    ensures m[9..9 + |context|] == context
    ensures m[9 + |context|..21 + |context|] == "\n\nQuestion:\n"
    ensures m[21 + |context|..] == question
  {
    "Context:\n" + context + "\n\nQuestion:\n" + question
  }

  /** For a fixed question, different contexts give different user messages
      (and for a fixed context, different questions do): the message keeps
      all of both. */
  lemma UserMessageInjective(c1: string, q1: string, c2: string, q2: string)
    requires UserMessage(c1, q1) == UserMessage(c2, q2)
    requires c1 == c2 || q1 == q2
    ensures c1 == c2 && q1 == q2
  {
  }

  /** The request sent for a context and a question: two messages, the
      system prompt first and the user message second, to the fixed model. */
  function BuildRequest(context: string, question: string): (req: ChatRequest)
    ensures |req.messages| == 2
    ensures req.messages[0].role == System && req.messages[0].content == SystemPrompt
    ensures req.messages[1].role == User && req.messages[1].content == UserMessage(context, question)
    ensures req.model == ModelName
  {
    ChatRequest([Message(System, SystemPrompt), Message(User, UserMessage(context, question))], ModelName)
  }

  /** `ask_llm(context, question)`: never raises. An exception from the
      backend, or a completion without choices (the `IndexError` of
      `choices[0]`), both give the fallback answer. */
  function AskLlm(context: string, question: string, backend: Backend): (answer: string)
    ensures var reply := backend(BuildRequest(context, question));
      reply.Returned? && |reply.value.choices| > 0 ==> answer == reply.value.choices[0]
    ensures var reply := backend(BuildRequest(context, question));
      reply.Raised? || reply.value.choices == [] ==> answer == FallbackAnswer
  {
    match backend(BuildRequest(context, question))
    case Raised(_) => FallbackAnswer
    case Returned(completion) =>
      if |completion.choices| > 0 then completion.choices[0] else FallbackAnswer
  }

  /** On success the first choice's content is returned unchanged. */
  lemma ReturnsFirstChoice(context: string, question: string, backend: Backend)
    requires backend(BuildRequest(context, question)).Returned?
    requires |backend(BuildRequest(context, question)).value.choices| > 0
    ensures AskLlm(context, question, backend) == backend(BuildRequest(context, question)).value.choices[0]
  {
  }

  /** Any failure of the call gives the same, non-empty fallback answer, so
      two failing backends are indistinguishable to the caller. */
  lemma FallbackOnFailure(context: string, question: string, backend: Backend, other: Backend)
    requires backend(BuildRequest(context, question)).Raised?
      || backend(BuildRequest(context, question)).value.choices == []
    requires other(BuildRequest(context, question)).Raised?
      || other(BuildRequest(context, question)).value.choices == []
    ensures AskLlm(context, question, backend) == FallbackAnswer
    ensures AskLlm(context, question, backend) == AskLlm(context, question, other)
    ensures |AskLlm(context, question, backend)| > 0
  {
  }

  /** The answer is always either the backend's first choice or the fallback,
      and the backend is consulted only on the request built from this
      context and question. */
  lemma AnswerIsFirstChoiceOrFallback(context: string, question: string, backend: Backend, other: Backend)
    requires other(BuildRequest(context, question)) == backend(BuildRequest(context, question))
    ensures var reply := backend(BuildRequest(context, question));
      || AskLlm(context, question, backend) == FallbackAnswer
      || (reply.Returned? && |reply.value.choices| > 0 && AskLlm(context, question, backend) == reply.value.choices[0])
    ensures AskLlm(context, question, other) == AskLlm(context, question, backend)
  {
  }
}
