/** The question-answering service of fastapi+genai/app/main.py: its store of
    chat histories, the fixed session key of `generate_answer`, and the
    guard in `ask`. The model call itself is outside the model: what the
    chain's `invoke` gave back, its reply text or the error it raised, is an
    input. */
module QaService {
  import opened Py
  import opened ChatHistory

  /** The key every `generate_answer` call uses, whoever asks. */
  const DEFAULT_SESSION: string := "default_session"

  const MISSING_QUESTION: string := "Query parameter 'question' is required"

  /** What `GET /ask` ends with: the `HTTPException` it raises, the
      `AnswerResponse` body, or an exception from the model call that the
      handler does not catch (the framework turns it into a server error). */
  datatype Response =
    | HttpError(status: nat, detail: string)
    | Answer(question: string, answer: string)
    | Unhandled(error: string)

  /** `generate_answer(question)`. The history wrapper looks the shared
      session up (through `get_chat_history`) before the chain runs, so the
      entry exists whether or not `invoke` raised; `reply` is what the chain
      gave back. `answer` is the reply text or the exception, and `history`
      the history stored under the shared key. */
  method GenerateAnswer(memory: SessionStore, question: string, reply: Attempt<string>)
    returns (answer: Attempt<string>, history: MessageHistory)
    requires memory.Valid()
    modifies memory
    ensures memory.Valid()
    ensures answer == reply
    ensures DEFAULT_SESSION in memory.sessions && history == memory.sessions[DEFAULT_SESSION]
    ensures memory.sessions.Keys == old(memory.sessions.Keys) + {DEFAULT_SESSION}
    ensures forall k :: k in old(memory.sessions) ==> memory.sessions[k] == old(memory.sessions[k])
  {
    history := memory.GetOrCreate(DEFAULT_SESSION);
    if reply.Raised? {
      return Raised(reply.error), history;
    }
    answer := Returned(reply.value);
    history := memory.GetOrCreate(DEFAULT_SESSION);
  }

  /** Two questions, from whoever asks them, land in one and the same history. */
  method SharedHistory(memory: SessionStore, q1: string, r1: Attempt<string>, q2: string, r2: Attempt<string>)
    returns (h1: MessageHistory, h2: MessageHistory)
    requires memory.Valid()
    modifies memory
    ensures memory.Valid()
    ensures h1 == h2 && DEFAULT_SESSION in memory.sessions && memory.sessions[DEFAULT_SESSION] == h1
  {
    var a1, a2;
    a1, h1 := GenerateAnswer(memory, q1, r1);
    a2, h2 := GenerateAnswer(memory, q2, r2);
  }

  /** `GET /ask?question=...`: a missing or empty question is refused with
      status 400 before any generation; otherwise the question is echoed
      with the answer, or the model call's exception escapes. */
  method Ask(memory: SessionStore, question: Option<string>, reply: Attempt<string>) returns (r: Response)
    requires memory.Valid()
    modifies memory
    ensures memory.Valid()
    ensures r.HttpError? <==> question.None? || question.value == ""
    ensures r.HttpError? ==> r == HttpError(400, MISSING_QUESTION) && memory.sessions == old(memory.sessions)
    ensures r.Unhandled? <==> question.Some? && question.value != "" && reply.Raised?
    ensures r.Unhandled? ==> r.error == reply.error
    ensures r.Answer? ==> r.question == question.value && r.answer == reply.value
    ensures !r.HttpError? ==> DEFAULT_SESSION in memory.sessions
  {
    if question.None? || question.value == "" {
      return HttpError(400, MISSING_QUESTION);
    }
    var answer, history := GenerateAnswer(memory, question.value, reply);
    if answer.Raised? {
      return Unhandled(answer.error);
    }
    r := Answer(question.value, answer.value);
  }
}
