/** The chat page of langchain_app/lang_2.py: the history kept across
    reruns, the prompt built from it, how a reply is taken from whatever the
    Ollama wrapper returns, the error text shown instead of a reply, and the
    one turn appended per submission. The page layout, the connection
    sidebar and the model itself are outside the model; what the wrapper
    returns for the prompt is an input. */
module Conversation {
  import opened Py
  import opened Text

  /** One `{"user": ..., "assistant": ...}` entry of the history. */
  datatype Turn = Turn(user: string, assistant: string)

  const SYSTEM_PREFIX: string := "You are a helpful assistant.\n\n"

  /** One turn as the history text shows it. */
  function RenderTurn(t: Turn): string {
    "User: " + t.user + "\nAssistant: " + t.assistant + "\n"
  }

  /** The history text: every turn rendered, oldest first. */
  function RenderHistory(turns: seq<Turn>): string {
    if turns == [] then ""
    else RenderHistory(turns[..|turns| - 1]) + RenderTurn(turns[|turns| - 1])
  }

  /** Rendering keeps the chronological order: the text of a longer history
      is the text of its older part followed by the text of its newer part. */
  lemma {:induction false} RenderHistoryAppend(a: seq<Turn>, b: seq<Turn>)
    ensures RenderHistory(a + b) == RenderHistory(a) + RenderHistory(b)
    decreases |b|
  {
    if b == [] {
      assert a + b == a;
    } else {
      var b', last := b[..|b| - 1], b[|b| - 1];
      RenderHistoryAppend(a, b');
      assert (a + b)[..|a + b| - 1] == a + b';
      assert (a + b)[|a + b| - 1] == last;
      assert RenderHistory(a) + RenderHistory(b') + RenderTurn(last)
          == RenderHistory(a) + (RenderHistory(b') + RenderTurn(last));
    }
  }

  /** The loop that builds `history_text` with `+=`. */
  method BuildHistoryText(turns: seq<Turn>) returns (text: string)
    ensures text == RenderHistory(turns)
  {
    text := "";
    var i := 0;
    while i < |turns|
      invariant i <= |turns|
      invariant text == RenderHistory(turns[..i])
    {
      assert turns[..i + 1][..i] == turns[..i];
      text := text + RenderTurn(turns[i]);
      i := i + 1;
    }
    assert turns[..i] == turns;
  }

  /** The prompt: the system line and a blank line, the history text, then
      the new user message and the cue for the assistant. */
  function Prompt(historyText: string, userInput: string): (p: string)
    ensures |p| == |SYSTEM_PREFIX| + |historyText| + |userInput| + 17
    ensures p[..|SYSTEM_PREFIX|] == SYSTEM_PREFIX
    ensures p[|SYSTEM_PREFIX|..|SYSTEM_PREFIX| + |historyText|] == historyText
    ensures p[|SYSTEM_PREFIX| + |historyText|..|p| - 11] == "User: " + userInput
    ensures p[|p| - 11..] == "\nAssistant:"
  {
    SYSTEM_PREFIX + historyText + "User: " + userInput + "\nAssistant:"
  }

  /** For a given history the prompt determines the user message. */
  lemma PromptInjective(historyText: string, u1: string, u2: string)
    requires Prompt(historyText, u1) == Prompt(historyText, u2)
    ensures u1 == u2
  {
    var p1, p2 := Prompt(historyText, u1), Prompt(historyText, u2);
    var start := |SYSTEM_PREFIX| + |historyText| + 6;
    assert p1[start..start + |u1|] == u1;
    assert p2[start..start + |u2|] == u2;
  }

  /** What `generate` returns: its `generations` attribute (the texts of
      each list of generations), if it has one, and its `str` form. */
  datatype GenerateResult = LLMResult(generations: Option<seq<seq<string>>>, shown: string)

  /** What the wrapper offers and what the one call the page makes on the
      prompt gives back: `generate`, else `complete`, else a plain call. */
  datatype Llm =
    | WithGenerate(generated: Attempt<GenerateResult>)
    | WithComplete(completed: Attempt<PyValue>)
    | CallableOnly(called: Attempt<PyValue>)
    | Unsupported

  const NO_INTERFACE: string := "Ollama object is not callable and has no supported interface (generate/complete)."

  /** The reply from an `LLMResult`: the first text of the first list of
      generations when there is one, otherwise `str(result)`. */
  function GenerateReply(res: GenerateResult): (r: string)
    ensures res.generations.Some? && |res.generations.value| > 0 && |res.generations.value[0]| > 0
            ==> r == res.generations.value[0][0]
    ensures (res.generations.None? || res.generations.value == [] || res.generations.value[0] == [])
            ==> r == res.shown
  {
    match res.generations
    case Some(gens) => if |gens| > 0 && |gens[0]| > 0 then gens[0][0] else res.shown
    case None => res.shown
  }

  /** `a or b` where `a` is a `dict.get` result. */
  function Or(a: Option<PyValue>, b: PyValue): PyValue {
    if a.Some? && Truthy(a.value) then a.value else b
  }

  /** The reply from `complete` or a call: for a dict, a truthy "content",
      else a truthy "text", else `str(result)`; any other value as `str`. */
  function ValueReply(result: PyValue): (r: string)
    ensures !result.Dict? ==> r == Show(result)
    ensures result.Dict? && Lookup(result.entries, "content").Some? && Truthy(Lookup(result.entries, "content").value)
            ==> r == Show(Lookup(result.entries, "content").value)
    ensures result.Dict? && !(Lookup(result.entries, "content").Some? && Truthy(Lookup(result.entries, "content").value))
            && Lookup(result.entries, "text").Some? && Truthy(Lookup(result.entries, "text").value)
            ==> r == Show(Lookup(result.entries, "text").value)
    ensures result.Dict? && !(Lookup(result.entries, "content").Some? && Truthy(Lookup(result.entries, "content").value))
            && !(Lookup(result.entries, "text").Some? && Truthy(Lookup(result.entries, "text").value))
            ==> r == result.shown
  {
    match result
    case Dict(entries, _) => Show(Or(Lookup(entries, "content"), Or(Lookup(entries, "text"), result)))
    case _ => Show(result)
  }

  /** The error line shown in place of a reply. */
  function ErrorBase(e: string): string {
    "[Error calling Ollama model: " + e + "]"
  }

  /** The classification of the error text: an HTTP 404 or a "not found". */
  predicate NotFoundError(e: string) {
    Contains(e, "404") || Contains(Lower(e), "not found") || Contains(Lower(e), "model not found")
  }

  /** The reply when the call raised: the error line, followed by the
      `ollama pull` hint exactly when the error looks like a missing model. */
  function ErrorReply(e: string, modelName: string, baseUrl: string): (r: string)
    ensures |ErrorBase(e)| <= |r| && r[..|ErrorBase(e)|] == ErrorBase(e)
    ensures r == ErrorBase(e) <==> !NotFoundError(e)
    ensures NotFoundError(e) ==> Contains(r, "model '" + modelName + "' not found")
                                 && Contains(r, "at " + baseUrl + ".")
                                 && Contains(r, "`ollama pull " + modelName + "`")
  {
    if NotFoundError(e) then
      var a := " Possible cause: ";
      var b := "model '" + modelName + "' not found";
      var c := " on Ollama ";
      var d := "at " + baseUrl + ".";
      var f := " Try running: ";
      var g := "`ollama pull " + modelName + "`";
      var h := " locally, then press Connect / Reload Ollama in the sidebar.";
      HintParts(ErrorBase(e), a, b, c, d, f, g, h);
      ErrorBase(e) + a + b + c + d + f + g + h
    else ErrorBase(e)
  }

  /** The error text, put together from its parts, starts with the error
      line, is longer than it, and contains the model part, the address part
      and the command part. */
  lemma HintParts(base: string, a: string, b: string, c: string, d: string, f: string, g: string, h: string)
    requires a != []
    ensures var s := base + a + b + c + d + f + g + h;
            && |base| < |s| && s[..|base|] == base
            && Contains(s, b) && Contains(s, d) && Contains(s, g)
  {
    var s := base + a + b + c + d + f + g + h;
    var i0 := |base| + |a|;
    var i, k := i0 + |b| + |c|, i0 + |b| + |c| + |d| + |f|;
    assert s[..|base|] == base;
    assert s[i0..i0 + |b|] == b;
    assert s[i..i + |d|] == d;
    assert s[k..k + |g|] == g;
    assert OccursAt(s, b, i0) && OccursAt(s, d, i) && OccursAt(s, g, k);
    ContainsIff(s, b);
    ContainsIff(s, d);
    ContainsIff(s, g);
  }

  /** A pattern occurs wherever a longer pattern ending with it occurs. */
  lemma ContainsTail(s: string, pre: string, pat: string)
    requires Contains(s, pre + pat)
    ensures Contains(s, pat)
  {
    ContainsIff(s, pre + pat);
    var j: nat :| OccursAt(s, pre + pat, j);
    assert s[j + |pre|..j + |pre| + |pat|] == (pre + pat)[|pre|..] == pat;
    assert OccursAt(s, pat, j + |pre|);
    ContainsIff(s, pat);
  }

  /** The third test of the classification adds nothing: "model not found"
      contains "not found". */
  lemma NotFoundErrorIff(e: string)
    ensures NotFoundError(e) <==> Contains(e, "404") || Contains(Lower(e), "not found")
  {
    if Contains(Lower(e), "model not found") {
      assert "model not found" == "model " + "not found";
      ContainsTail(Lower(e), "model ", "not found");
    }
  }

  /** The reply the page stores for the call's outcome. */
  function Reply(llm: Llm, modelName: string, baseUrl: string): (r: string)
    ensures llm.WithGenerate? && llm.generated.Raised? ==> r == ErrorReply(llm.generated.error, modelName, baseUrl)
    ensures llm.WithComplete? && llm.completed.Raised? ==> r == ErrorReply(llm.completed.error, modelName, baseUrl)
    ensures llm.CallableOnly? && llm.called.Raised? ==> r == ErrorReply(llm.called.error, modelName, baseUrl)
    ensures llm.Unsupported? ==> r == ErrorReply(NO_INTERFACE, modelName, baseUrl)
    ensures llm.WithGenerate? && llm.generated.Returned? ==> r == GenerateReply(llm.generated.value)
    ensures llm.WithComplete? && llm.completed.Returned? ==> r == ValueReply(llm.completed.value)
    ensures llm.CallableOnly? && llm.called.Returned? ==> r == ValueReply(llm.called.value)
  {
    match llm
    case WithGenerate(Returned(res)) => GenerateReply(res)
    case WithGenerate(Raised(e)) => ErrorReply(e, modelName, baseUrl)
    case WithComplete(Returned(v)) => ValueReply(v)
    case WithComplete(Raised(e)) => ErrorReply(e, modelName, baseUrl)
    case CallableOnly(Returned(v)) => ValueReply(v)
    case CallableOnly(Raised(e)) => ErrorReply(e, modelName, baseUrl)
    case Unsupported => ErrorReply(NO_INTERFACE, modelName, baseUrl)
  }

  /** The history after one run of the page: one more turn exactly when the
      form was submitted with a non-empty message, whether or not the call
      succeeded. */
  function AfterSubmit(history: seq<Turn>, submit: bool, userInput: string, llm: Llm, modelName: string, baseUrl: string): seq<Turn> {
    if submit && userInput != "" then history + [Turn(userInput, Reply(llm, modelName, baseUrl))]
    else history
  }

  /** A submission never loses or reorders earlier turns and adds at most
      one, holding the message as typed. */
  lemma AfterSubmitAppends(history: seq<Turn>, submit: bool, userInput: string, llm: Llm, modelName: string, baseUrl: string)
    ensures var h := AfterSubmit(history, submit, userInput, llm, modelName, baseUrl);
            && |h| == |history| + (if submit && userInput != "" then 1 else 0)
            && h[..|history|] == history
            && (|h| > |history| ==> h[|history|].user == userInput)
            && RenderHistory(h) == RenderHistory(history) + (if |h| > |history| then RenderTurn(h[|history|]) else "")
  {
    var h := AfterSubmit(history, submit, userInput, llm, modelName, baseUrl);
    if submit && userInput != "" {
      assert h[..|history|] == history;
    }
  }

  /** `st.session_state` as far as the chat uses it. */
  class ChatState {
    /** `st.session_state.history`, absent before the first run. */
    var history: Option<seq<Turn>>

    constructor ()
      ensures history.None?
    {
      history := None;
    }

    /** The history is set to an empty list only when absent. */
    method InitHistory()
      modifies this
      ensures old(history).Some? ==> history == old(history)
      ensures old(history).None? ==> history == Some([])
    {
      if history.None? {
        history := Some([]);
      }
    }

    /** One run of the page after the form: when submitted with a message,
        the prompt is built from the history, sent, and the turn appended.
        `llm` is what the wrapper gives back for that prompt. */
    method Submit(submit: bool, userInput: string, llm: Llm, modelName: string, baseUrl: string)
      returns (prompt: Option<string>)
      requires history.Some?
      modifies this
      ensures history == Some(AfterSubmit(old(history.value), submit, userInput, llm, modelName, baseUrl))
      ensures submit && userInput != "" <==> prompt.Some?
      ensures prompt.Some? ==> prompt.value == Prompt(RenderHistory(old(history.value)), userInput)
    {
      prompt := None;
      if submit && userInput != "" {
        var historyText := BuildHistoryText(history.value);
        prompt := Some(Prompt(historyText, userInput));
        var reply := Reply(llm, modelName, baseUrl);
        history := Some(history.value + [Turn(userInput, reply)]);
      }
    }
  }
}
