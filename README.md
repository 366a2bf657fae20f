# generative_ai, the logic around the language models

The repository is a set of LangChain, FastAPI and Streamlit applications
around Ollama models. Most of it hands work to library objects. This project
models the parts that the repository implements itself and proves what they
promise:

- **Calculator** (`calculator.dfy`). The calculator page picks the expression
  to evaluate out of a model reply. A dict reply contributes the string under
  its first priority key, then its first string value, then its `str` form.
  The text then yields a code fence, else a backtick span, else its last
  non-blank line, else the stripped text. Pressing Compute removes the first
  double quote of that expression and falls back to the user's input when
  the conversion call fails or returns nothing.
- **Output parsers** (`output_parsers.dfy`). This covers the format
  instructions of every parser and the key/value parser. The parser's loop is
  a method, proved against a specification function. The model also covers
  the CSV parser's row filter and header zip, and the JSON parser's retry on
  a cleaned text with its error message.
- **Session histories** (`chat_history.dfy`, `qa_service.dfy`,
  `memory_demo.dfy`).
  - An in-memory message history is a class with an append-only list.
  - A map from session id to history creates an entry on first use. The
    message-history demo, the question-answering service (with its single
    `"default_session"` key and the 400 guard in `/ask`) and the basic memory
    demo (two invocations under `"user-1"`) each keep their own module-level
    map. One class, `SessionStore`, models all three.
- **Chat page** (`conversation.dfy`). The Streamlit chat page keeps its
  history across reruns and renders it into a fixed prompt. It takes the reply
  from whatever the Ollama wrapper returns. On failure it shows an error line
  with an `ollama pull` hint exactly for "not found" errors. It appends exactly
  one turn per submission.
- **Retrieval service** (`rag.dfy`). The service fills its module globals
  (language model, embeddings, vector store, retriever) at most once. A failed
  warm-up leaves the embeddings unset for a retry. The startup hook swallows
  failures. The retrieved passages are joined by line breaks, and the answer
  text is taken from the chain's response.
- **Small tools** (`company_info.dfy`, `runnables.dfy`). `company_info` is a
  case-insensitive lookup with a default. `custom_function_call` adds a prefix
  and reverses its input; it is chained after a passthrough and an upper-casing
  step.

Two shared modules hold what the Python runtime provides.
- `py.dfy` has optional values, the outcome of a call that may raise,
  dynamically typed reply values, and insertion-ordered dicts.
- `text.dfy` has `str.strip`, `str.splitlines`, substring search, `lower`,
  `upper`, slicing reversal, `join` and `split`.

Calls into the models, Chroma and the parsers' tokenisers are not modelled as
code. What such a call returned, or the error it raised, is a parameter of the
operation that makes it.

## Model

| member | source | states |
|---|---|---|
| Calculator.FirstStringKey | langchain_app/calculator/calculator.py:29-32 | the index found is that of a priority key whose dict value is a string, and no earlier key in the priority order holds a string |
| Calculator.FirstStringEntry | langchain_app/calculator/calculator.py:35-38 | the entry found holds a string value and no earlier entry in dict order does |
| Calculator.ReplyText | langchain_app/calculator/calculator.py:42-43 | a reply that is not a dict is turned into its `str` form (a string stays as it is) |
| Calculator.ReplyTextPriority | langchain_app/calculator/calculator.py:27-32 | a dict reply gives the string under the earliest of text, response, output, content, answer, result that holds a string, whatever else the dict holds |
| Calculator.ReplyTextFirstString | langchain_app/calculator/calculator.py:33-38 | when no priority key holds a string, a dict reply gives its first string value in dict order |
| Calculator.ReplyTextShown | langchain_app/calculator/calculator.py:39-41 | a dict reply without any string value gives the dict's `str` form |
| Calculator.OpeningUnique | langchain_app/calculator/calculator.py:46 | the optional `python` tag and the bare line break cannot both open the same fence, so the pattern's body start is determined |
| Calculator.FenceAt | langchain_app/calculator/calculator.py:46 | a match found at a position satisfies the fence pattern (non-empty lazy body ended by the first closing line break and fence); when none is found no match starts there |
| Calculator.FindFence | langchain_app/calculator/calculator.py:46 | the search returns the leftmost fence match; no match starts before it, and none exists when it returns nothing |
| Calculator.BacktickAt | langchain_app/calculator/calculator.py:51 | a match found spans a non-empty, backtick-free run between two backticks; when none is found no match starts there |
| Calculator.FindBacktick | langchain_app/calculator/calculator.py:51 | the search returns the leftmost backtick match, and none exists when it returns nothing |
| Calculator.NonBlankStripped | langchain_app/calculator/calculator.py:56 | every kept line is stripped, non-empty and free of line breaks |
| Calculator.NonBlankStrippedEmpty | langchain_app/calculator/calculator.py:56-57 | no line is kept exactly when every line is blank |
| Calculator.ExtractFromText | langchain_app/calculator/calculator.py:45-59 | every extraction result is stripped: no white space at either end |
| Calculator.WithoutFence | langchain_app/calculator/calculator.py:50-59 | without a fence, the result of the backtick or last-line stages is stripped |
| Calculator.LastLine | langchain_app/calculator/calculator.py:55-59 | the last-line stage, and its `text.strip()` fallback, give a stripped text |
| Calculator.ExtractExpression | langchain_app/calculator/calculator.py:20-59 | the expression extracted from any reply has no surrounding white space |
| Calculator.FenceFirst | langchain_app/calculator/calculator.py:46-48 | when a fence matches, the result is the stripped body of the leftmost fence, whatever backticks or lines follow |
| Calculator.FenceMatchUnique | langchain_app/calculator/calculator.py:46 | a fence's start position determines its body bounds |
| Calculator.BacktickSecond | langchain_app/calculator/calculator.py:50-53 | without any fence, the result is the stripped content of the leftmost backtick span |
| Calculator.BacktickMatchUnique | langchain_app/calculator/calculator.py:51 | a backtick span's start determines its end |
| Calculator.LastLineOtherwise | langchain_app/calculator/calculator.py:55-58 | with neither a fence nor a backtick span, the result is the stripped last non-blank line; it is non-empty and holds no line break |
| Calculator.LastNonBlank | langchain_app/calculator/calculator.py:56-58 | the last element of the stripped non-blank lines is the stripped last non-blank line |
| Calculator.LastLineAt | langchain_app/calculator/calculator.py:56-58 | the last-line stage picks the stripped last non-blank line, which is not empty |
| Calculator.AllBlankGivesEmpty | langchain_app/calculator/calculator.py:59 | when every line is blank the fallback `text.strip()` applies and gives the empty string |
| Calculator.BlankLinesBlankText | langchain_app/calculator/calculator.py:56-59 | a text whose lines are all blank is white space throughout, line breaks included |
| Calculator.ComputeExpression | langchain_app/calculator/calculator.py:126-140 | Compute produces no expression (only a warning) exactly when the input is blank; a truthy conversion is passed through the reply extraction, and only its first double quote is removed |
| Calculator.ComputeFallsBack | langchain_app/calculator/calculator.py:132-140 | a failed or empty conversion evaluates the stripped input with its first double quote removed |
| Calculator.RemoveFirstCount | langchain_app/calculator/calculator.py:140 | removing the first double quote drops exactly one `"` if there is one and keeps every other character |
| OutputParsers.FormatInstructions | langchain_app/output_parsers/output_parsers.py:22-24 | the instructions are empty exactly for the base parser; the regex parser's are its fixed text followed by the pattern |
| OutputParsers.InstructionsArguments | langchain_app/output_parsers/output_parsers.py:68-69 | the CSV instructions differ with and without a header; a key/value parser's instructions do not depend on its delimiter |
| OutputParsers.SplitOnce | langchain_app/output_parsers/output_parsers.py:64 | the line is the key text, the delimiter and the value text, and the delimiter does not occur earlier |
| OutputParsers.Entry | langchain_app/output_parsers/output_parsers.py:65 | the stored key and value are both stripped |
| OutputParsers.LineStep | langchain_app/output_parsers/output_parsers.py:58-65 | a line raises exactly when the delimiter is empty and the line is not blank; it yields an entry exactly when it is a non-blank line holding a non-empty delimiter, and that entry is the stripped halves |
| OutputParsers.Run | langchain_app/output_parsers/output_parsers.py:57-66 | a completed loop yields a dict without repeated keys; an aborted one raised "empty separator" |
| OutputParsers.ParseKeyValue | langchain_app/output_parsers/output_parsers.py:56-66 | the loop that fills `out` in place yields exactly the specified parse of the text's lines |
| OutputParsers.RaisedPersists | langchain_app/output_parsers/output_parsers.py:64 | once a line has raised, the whole parse raises |
| OutputParsers.RunRaised | langchain_app/output_parsers/output_parsers.py:57-66 | the loop raises exactly when some line decision is to raise |
| OutputParsers.RunSkip | langchain_app/output_parsers/output_parsers.py:59-63 | a skipped line may be removed from anywhere without changing the outcome |
| OutputParsers.RunKeys | langchain_app/output_parsers/output_parsers.py:65 | the keys of the result are exactly the keys assigned |
| OutputParsers.RunGet | langchain_app/output_parsers/output_parsers.py:65 | each key reads as the value of its last assignment |
| OutputParsers.LastPutAt | langchain_app/output_parsers/output_parsers.py:65 | an assignment not followed by another one to the same key is the last one |
| OutputParsers.SkippedLine | langchain_app/output_parsers/output_parsers.py:59-63 | blank lines and lines without the delimiter are skipped: deleting one from the input changes nothing |
| OutputParsers.ParseRaises | langchain_app/output_parsers/output_parsers.py:56-66 | the parse raises "empty separator" exactly when the delimiter is empty and some line is not blank; with an empty delimiter and only blank lines it returns `{}` |
| OutputParsers.NoKeysEmpty | langchain_app/output_parsers/output_parsers.py:57 | a dict without keys is the empty dict |
| OutputParsers.PairLineKeys | langchain_app/output_parsers/output_parsers.py:53-54 | every key of the result is the stripped left part of a line holding the delimiter, and every such line contributes its key |
| OutputParsers.LastValueWins | langchain_app/output_parsers/output_parsers.py:65 | a key reads as the value of the last pair line that has it: later lines overwrite earlier ones |
| OutputParsers.DefaultDelimiterParses | langchain_app/output_parsers/output_parsers.py:53-65 | with the default `":"` delimiter the parser never raises, and its keys are the stripped texts before the first colon of the non-blank lines that hold one |
| OutputParsers.SplitAtFirst | langchain_app/output_parsers/output_parsers.py:64 | a line is split at the first delimiter only, so the value keeps any later delimiters |
| OutputParsers.ContentRows | langchain_app/output_parsers/output_parsers.py:104 | filtering never adds rows |
| OutputParsers.ContentRowsMembers | langchain_app/output_parsers/output_parsers.py:104 | a row is kept exactly when some cell is non-blank after stripping |
| OutputParsers.ContentRowsAppend | langchain_app/output_parsers/output_parsers.py:104 | the filter keeps the input's order: the kept rows of two consecutive parts of the input are those of the first part followed by those of the second |
| OutputParsers.Zip | langchain_app/output_parsers/output_parsers.py:109 | `zip` pairs header and cell column by column up to the shorter length |
| OutputParsers.DictOf | langchain_app/output_parsers/output_parsers.py:109 | `dict` of the pairs has no repeated keys |
| OutputParsers.DictOfKeys | langchain_app/output_parsers/output_parsers.py:109 | `dict` of the pairs has exactly the keys of the pairs |
| OutputParsers.DictOfDistinct | langchain_app/output_parsers/output_parsers.py:109 | with distinct keys, `dict` keeps every pair in order |
| OutputParsers.DictOfGet | langchain_app/output_parsers/output_parsers.py:109 | in `dict(pairs)` a later pair overwrites an earlier one: each key reads as the value of its last pair |
| OutputParsers.LastValueAt | langchain_app/output_parsers/output_parsers.py:109 | a pair with no later pair of the same key gives the key's last value |
| OutputParsers.RecordsOf | langchain_app/output_parsers/output_parsers.py:109 | there is one record per data row |
| OutputParsers.CsvParse | langchain_app/output_parsers/output_parsers.py:101-110 | records are returned exactly with a header flag and at least one kept row, one per row after the header; otherwise the kept rows themselves |
| OutputParsers.CsvRecord | langchain_app/output_parsers/output_parsers.py:105-109 | with distinct header names, the record of the i-th data row pairs each header name with the cell of the same column, up to the shorter row; the header gives no record |
| OutputParsers.CsvRecordAt | langchain_app/output_parsers/output_parsers.py:105-109 | for any header, repeated names included, a data row's record has exactly the header names that have a cell in that row, and each name reads as the cell of its last such column |
| OutputParsers.DistinctHeaderRecord | langchain_app/output_parsers/output_parsers.py:109 | with distinct header names, each record is the zip itself |
| OutputParsers.JsonCleanup | langchain_app/output_parsers/output_parsers.py:35 | the cleaned text is a contiguous part of the text: only white space, backticks, spaces and line breaks are removed from its ends, and it neither starts nor ends with a backtick, space or line break |
| OutputParsers.JsonParse | langchain_app/output_parsers/output_parsers.py:30-39 | the text is used as is when it loads; the parse succeeds exactly when the text or its cleaned form loads; a failure reports the first decode error |
| Py.DictSet | langchain_app/output_parsers/output_parsers.py:65 | `out[k] = v` adds `k` to the keys; a new key is appended at the end, and entries under other keys stay where they were |
| Py.DictSetGet | langchain_app/output_parsers/output_parsers.py:65 | after `out[k] = v`, `k` reads `v` and every other key reads as before |
| Py.DictSetAt | langchain_app/output_parsers/output_parsers.py:65 | assigning to a present key replaces its entry in place, keeping its position |
| Py.DictSetUnique | langchain_app/output_parsers/output_parsers.py:65 | assignment keeps the keys distinct |
| ChatHistory.MessageHistory.constructor | langchain_app/memory/runnnable_message_history.py:21-22 | a new history holds no messages |
| ChatHistory.MessageHistory.AddMessage | langchain_app/memory/runnnable_message_history.py:24-25 | the message is appended after all earlier ones, which are kept in order |
| ChatHistory.MessageHistory.GetMessages | langchain_app/memory/runnnable_message_history.py:27-28 | the stored messages are returned and nothing changes |
| ChatHistory.MessageHistory.Clear | langchain_app/memory/runnnable_message_history.py:30-31 | the history is empty afterwards |
| ChatHistory.SessionStore.GetOrCreate | langchain_app/memory/runnnable_message_history.py:34-38 | a known id gives its stored history and the map is unchanged; an unseen id gets a fresh empty history, stored under it and nothing else; every session keeps its own history object |
| ChatHistory.SessionStore.AddThenLookUp | langchain_app/memory/runnnable_message_history.py:35-38 | looking an id up again after adding a message gives the same object, so messages accumulate; other sessions' messages are unchanged |
| QaService.GenerateAnswer | fastapi+genai/app/main.py:20-47 | the answer is the chain's reply, or the exception it raised; either way the history wrapper's lookup has stored the history under "default_session", which is the only key added, and existing entries stay |
| QaService.SharedHistory | fastapi+genai/app/main.py:44-45 | two calls with any questions get one and the same history object |
| QaService.Ask | fastapi+genai/app/main.py:50-60 | a missing or empty question is refused with status 400 and its fixed detail before any history is touched; otherwise the question is echoed unchanged with the reply, or the model call's exception escapes the handler exactly when it raised |
| MemoryDemo.TwoInvocations | basics/memory.py:9-13 | both invocations resolve "user-1" to the same history: the stored one when the key was present, else a fresh empty one; no other key is added and every other key keeps its history object |
| Conversation.RenderHistoryAppend | langchain_app/lang_2.py:61-63 | the history text of a longer history is the text of its older turns followed by that of its newer ones |
| Conversation.BuildHistoryText | langchain_app/lang_2.py:61-63 | the `+=` loop builds the rendering of every turn, oldest first |
| Conversation.Prompt | langchain_app/lang_2.py:64 | the prompt is the system line and a blank line, then the history text, then `"User: "` followed by the message, then the assistant cue |
| Conversation.PromptInjective | langchain_app/lang_2.py:64 | for a fixed history the prompt determines the user message |
| Conversation.GenerateReply | langchain_app/lang_2.py:77-81 | the reply is the first generation's text when one exists, else `str(result)` |
| Conversation.ValueReply | langchain_app/lang_2.py:85-95 | a non-dict result gives its `str` form; a dict gives a truthy "content", else a truthy "text", else (both absent or falsy) its `str` form |
| Conversation.ErrorReply | langchain_app/lang_2.py:98-108 | the reply starts with the error line and is exactly that line when the error is not a not-found error; for a not-found error it names the model, the base URL and the `ollama pull <model>` command |
| Conversation.NotFoundErrorIff | langchain_app/lang_2.py:101 | the hint is given exactly when the error text contains "404" or, in lower case, "not found" |
| Conversation.ContainsTail | langchain_app/lang_2.py:101 | a text containing "model not found" contains "not found" |
| Conversation.Reply | langchain_app/lang_2.py:73-108 | a `generate` result is read by GenerateReply and a `complete` or call result by ValueReply; whichever interface was called, an exception gives the error reply, and a wrapper with no supported interface gives the error reply for its RuntimeError |
| Conversation.AfterSubmitAppends | langchain_app/lang_2.py:59-111 | one turn holding the typed message is appended exactly when the form was submitted with a non-empty message, success or failure; earlier turns are kept and the history text grows by that turn |
| Conversation.ChatState.InitHistory | langchain_app/lang_2.py:28-29 | the history is set to an empty list only when absent; an existing history is kept |
| Conversation.ChatState.Submit | langchain_app/lang_2.py:59-111 | a prompt is built exactly for a submitted non-empty message, from the history before the turn; the history becomes the specified one with the new turn |
| Rag.Globals.constructor | fastapi+genai/app/rag.py:29-33 | every global starts unset |
| Rag.Llm.CreateEmbeddingsModel | fastapi+genai/app/rag.py:41-49 | once set, the embeddings are returned and nothing changes; while unset a fresh client with the object's model, temperature and num_predict is stored; a failed warm-up leaves the embeddings unset, otherwise fresh embeddings for the model are stored and returned |
| Rag.InitError | fastapi+genai/app/rag.py:57-64 | building the store fails exactly when the client, the warm-up of unset embeddings or the build raises, and the first of these in call order (client, warm-up, build) is the exception |
| Rag.Llm.CreateVectorStore | fastapi+genai/app/rag.py:51-66 | once built, the store is returned, the chunks are ignored and nothing changes; otherwise it is built exactly when no call raises, with the first exception reported otherwise; a new store holds the chunks in "fastapi_rag_collection" over the stored embeddings; set embeddings and client are reused; while they are unset and the client call succeeds, a fresh client with the object's settings is stored, and fresh embeddings for the model are stored exactly when the warm-up succeeds, where they stay even when the build then fails; a failure leaves the store unset |
| Rag.Llm.CreateRetrieverFromText | fastapi+genai/app/rag.py:68-82 | once created, the same retriever is returned for any documents; with a store already built it always succeeds and keeps that store; otherwise it fails exactly when building the store fails, with that exception; a new retriever has k = 3 over a fresh store holding the chunks; the client and embeddings end as in CreateVectorStore; a failure leaves both the store and the retriever unset |
| Rag.Startup | fastapi+genai/app/rag.py:139-156 | startup never raises; the retriever exists afterwards exactly when a store already existed or no call failed, and it reports exactly that; an existing retriever is kept; a failed startup leaves the store unset for the on-demand retry, and the client and embeddings end as in CreateVectorStore |
| Rag.RetrieveContext | fastapi+genai/app/rag.py:84-100 | the call fails exactly when no retriever exists (the `None` attribute error) or the retriever call raises (that exception); otherwise nothing retrieved gives "", one passage gives that passage, and several give the first, a line break, and the join of the rest |
| Rag.ContextSplitsBack | fastapi+genai/app/rag.py:97 | for a non-empty retrieval whose passages hold no line break, the joined context keeps every passage in retriever order: splitting it at line breaks gives them back |
| Rag.AnswerText | fastapi+genai/app/rag.py:166-171 | the answer attribute when present, else the dict's "answer" entry or "" without one, else `str(response)` |
| CompanyInfo.CompanyInfo | agent_with_fastapi_sqlalchemy/tools.py:8-15 | the result is one of the three texts: Tata's exactly for "tata" in lower case, Google's exactly for "google", "Company not found" otherwise |
| CompanyInfo.AnyLetterCase | basics/tool_calls.py:16-20 | names equal up to letter case give the same answer |
| Runnables.Passthrough | langchain_app/chains_runners/simple_runnable_pass_lambda.py:10 | the passthrough returns its input unchanged |
| Runnables.CustomFunctionCall | langchain_app/chains_runners/simple_runnable_pass_lambda.py:20-21 | the result is the prefix followed by the input reversed, one character longer per input character |
| Runnables.CustomFunctionCallInverse | langchain_app/chains_runners/simple_runnable_pass_lambda.py:21 | reversing what follows the prefix gives the input back |
| Runnables.ChainedOrder | langchain_app/chains_runners/simple_runnable_pass_lambda.py:19-38 | the chain equals `custom_function_call(upper(input))`, which is the prefix followed by the upper-cased input read backwards |

## Left out

- Model calls are not modelled as code: Ollama `invoke`, `generate`, `complete` and plain calls, `LLMChain`, `RunnableWithMessageHistory`, and the agents. Their outcome (a reply value or an error text) is a parameter.
- QaService.GenerateAnswer does not model the messages `RunnableWithMessageHistory` appends to the history. That happens inside the library.
- Text splitting, embedding, similarity search and Chroma persistence are not modelled. The backend objects are opaque, and `create_retriever_from_text` takes the chunks the splitter would make.
- `retrieve_context` calls `invoke` or `get_relevant_documents` on the retriever depending on `hasattr`. The model does not tell the two apart; the outcome of that call (the passages or the exception) is a parameter.
- `knowledge_chat`'s `generate` chain is not modelled. It is a prompt plus model call, so its response is a parameter of `AnswerText`.
- `json.loads`, `csv.reader` and the regex parser's `parse` are not modelled: they are library behaviour. `loads` is a function parameter, the CSV parser takes the rows the reader produced, and only the regex parser's instructions are modelled.
- The `eval` calls in the calculator and the `calculator` tools are not modelled. Python evaluation is out of reach; the model stops at the expression handed to `eval`.
- `str(v)` and `repr` of non-string values are not computed. The text is carried inside the value (`shown`).
- Text.Lower and Text.Upper map ASCII letters only. For `company_info` and the "not found" test this is exact, since no non-ASCII character lower-cases into the letters compared. For `Runnables.Chained` it differs from Python's `upper` on letters such as "ß".
- Runnables.ChainedOrder: states the chain with ASCII-only upper-casing (see the line above), so it matches Python only for inputs whose letters are ASCII or map to themselves.
- FastAPI's `Query(min_length=1)` validation (422 before the handler) is not modelled. Only the handler's own guard is.
- The Streamlit layout, the connection sidebar, `st.stop` and the history display loop are left out, as is the calculator page's UI. The timing prints and `async` signatures in rag.py are also left out: they have no effect on values.
- ChatHistory.MessageHistory.GetMessages returns the list as a value. The aliasing of the Python list returned by `get_messages` is not modelled.
