/** The retrieval service of fastapi+genai/app/rag.py: the module globals that
    the `LLM` methods fill once and reuse, the context text handed to the
    prompt, the startup that tolerates failure, and how the answer text is
    taken from the chain's response. Ollama, the embeddings, the text
    splitter and Chroma are outside the model: their objects are opaque and
    whether a call into them raises is an input. */
module Rag {
  import opened Py
  import opened Text

  /** `Ollama(model=..., temperature=..., num_predict=...)`. */
  class OllamaClient {
    const model: string
    const temperature: real
    const numPredict: int

    constructor (model: string, temperature: real, numPredict: int)
      ensures this.model == model && this.temperature == temperature && this.numPredict == numPredict
    {
      this.model := model;
      this.temperature := temperature;
      this.numPredict := numPredict;
    }
  }

  /** `OllamaEmbeddings(model=...)`. */
  class Embeddings {
    const model: string

    constructor (model: string)
      ensures this.model == model
    {
      this.model := model;
    }
  }

  /** `Chroma.from_documents(...)`: built from the chunks it was given. */
  class VectorStore {
    const chunks: seq<string>
    const embedding: Embeddings
    const collection: string

    constructor (chunks: seq<string>, embedding: Embeddings, collection: string)
      ensures this.chunks == chunks && this.embedding == embedding && this.collection == collection
    {
      this.chunks := chunks;
      this.embedding := embedding;
      this.collection := collection;
    }
  }

  /** `vs.as_retriever(search_kwargs={"k": k})`. */
  class Retriever {
    const store: VectorStore
    const k: nat

    constructor (store: VectorStore, k: nat)
      ensures this.store == store && this.k == k
    {
      this.store := store;
      this.k := k;
    }
  }

  const COLLECTION: string := "fastapi_rag_collection"

  /** How many documents the retriever returns per question. */
  const RETRIEVER_K: nat := 3

  /** The four module globals, `None` until first set. */
  class Globals {
    var embeddingModel: Embeddings?
    var ollamaLlm: OllamaClient?
    var vectorStore: VectorStore?
    var retriever: Retriever?

    /** The order in which the globals are filled: the language model
        before the embeddings, the embeddings before the store, the store
        before the retriever, each later one built on the earlier one. */
    predicate Valid()
      reads this
    {
      && (embeddingModel != null ==> ollamaLlm != null)
      && (vectorStore != null ==> embeddingModel != null && vectorStore.embedding == embeddingModel)
      && (retriever != null ==> vectorStore != null && retriever.store == vectorStore && retriever.k == RETRIEVER_K)
    }

    constructor ()
      ensures embeddingModel == null && ollamaLlm == null && vectorStore == null && retriever == null
      ensures Valid()
    {
      embeddingModel := null;
      ollamaLlm := null;
      vectorStore := null;
      retriever := null;
    }
  }

  /** The exception that stops building the vector store, if any: creating
      the Chroma client comes first, then the embeddings (whose warm-up runs
      only while they are unset), then `Chroma.from_documents`. */
  function InitError(embeddingsSet: bool, warmUpError: Option<string>,
                     clientError: Option<string>, buildError: Option<string>): (e: Option<string>)
    ensures e.None? <==> clientError.None? && (embeddingsSet || warmUpError.None?) && buildError.None?
    ensures clientError.Some? ==> e == clientError
    ensures clientError.None? && !embeddingsSet && warmUpError.Some? ==> e == warmUpError
    ensures e.Some? ==> e == clientError || (!embeddingsSet && e == warmUpError) || e == buildError
  {
    if clientError.Some? then clientError
    else if !embeddingsSet && warmUpError.Some? then warmUpError
    else buildError
  }

  /** The `LLM` class: its settings, and methods that work on the globals. */
  class Llm {
    const model: string
    const numPredict: int
    const temperature: real

    constructor (model: string, numPredict: int, temperature: real)
      ensures this.model == model && this.numPredict == numPredict && this.temperature == temperature
    {
      this.model := model;
      this.numPredict := numPredict;
      this.temperature := temperature;
    }

    /** `create_embeddings_model`: while the embeddings are unset, a new
        Ollama client is stored and warmed up, then the embeddings are
        created; once set, they are returned as they are. `warmUpError` is
        what the warm-up call raised, if anything: then the client is
        already stored but the embeddings stay unset, and the next call
        starts over. */
    method CreateEmbeddingsModel(g: Globals, warmUpError: Option<string>) returns (r: Attempt<Embeddings>)
      requires g.Valid()
      modifies g
      ensures g.Valid()
      ensures g.vectorStore == old(g.vectorStore) && g.retriever == old(g.retriever)
      ensures old(g.embeddingModel) != null ==> r == Returned(old(g.embeddingModel)) && unchanged(g)
      ensures old(g.embeddingModel) == null ==>
                fresh(g.ollamaLlm) && g.ollamaLlm.model == model
                && g.ollamaLlm.temperature == temperature && g.ollamaLlm.numPredict == numPredict
      ensures old(g.embeddingModel) == null && warmUpError.Some? ==>
                r == Raised(warmUpError.value) && g.embeddingModel == null
      ensures old(g.embeddingModel) == null && warmUpError.None? ==>
                r.Returned? && fresh(r.value) && r.value.model == model && g.embeddingModel == r.value
    {
      if g.embeddingModel == null {
        g.ollamaLlm := new OllamaClient(model, temperature, numPredict);
        if warmUpError.Some? {
          return Raised(warmUpError.value);
        }
        g.embeddingModel := new Embeddings(model);
      }
      r := Returned(g.embeddingModel);
    }

    /** `create_vector_store(chunks)`: the store is built from `chunks` only
        while it is unset; afterwards `chunks` is ignored and the same store
        returned. `clientError` and `buildError` are what the Chroma client
        and `Chroma.from_documents` raised, if anything; the store is built
        exactly when none of the calls raises, and a failure leaves it
        unset. Embeddings already set are reused. */
    method CreateVectorStore(g: Globals, chunks: seq<string>, warmUpError: Option<string>,
                             clientError: Option<string>, buildError: Option<string>)
      returns (r: Attempt<VectorStore>)
      requires g.Valid()
      modifies g
      ensures g.Valid()
      ensures g.retriever == old(g.retriever)
      ensures old(g.vectorStore) != null ==> r == Returned(old(g.vectorStore)) && unchanged(g)
      ensures old(g.vectorStore) == null ==>
                var e := InitError(old(g.embeddingModel) != null, warmUpError, clientError, buildError);
                (r.Raised? <==> e.Some?) && (r.Raised? ==> r.error == e.value)
      ensures old(g.vectorStore) == null && clientError.Some? ==> unchanged(g)
      ensures old(g.embeddingModel) != null ==> g.embeddingModel == old(g.embeddingModel) && g.ollamaLlm == old(g.ollamaLlm)
      ensures old(g.vectorStore) == null && old(g.embeddingModel) == null && clientError.None? ==>
                fresh(g.ollamaLlm) && g.ollamaLlm.model == model
                && g.ollamaLlm.temperature == temperature && g.ollamaLlm.numPredict == numPredict
                && (g.embeddingModel == null <==> warmUpError.Some?)
                && (g.embeddingModel != null ==> fresh(g.embeddingModel) && g.embeddingModel.model == model)
      ensures r.Returned? ==> g.vectorStore == r.value && r.value.embedding == g.embeddingModel
      ensures old(g.vectorStore) == null && r.Returned? ==>
                fresh(r.value) && r.value.chunks == chunks && r.value.collection == COLLECTION
      ensures r.Raised? ==> g.vectorStore == null
    {
      if g.vectorStore == null {
        if clientError.Some? {
          return Raised(clientError.value);
        }
        var e := CreateEmbeddingsModel(g, warmUpError);
        if e.Raised? {
          return Raised(e.error);
        }
        if buildError.Some? {
          return Raised(buildError.value);
        }
        g.vectorStore := new VectorStore(chunks, e.value, COLLECTION);
      }
      r := Returned(g.vectorStore);
    }

    /** `create_retriever_from_text(docs)`, where `chunks` is what the text
        splitter makes of `docs`: the retriever is created once, with
        k = 3, and the same retriever is returned for any later documents.
        It fails exactly when building the missing store fails. */
    method CreateRetrieverFromText(g: Globals, chunks: seq<string>, warmUpError: Option<string>,
                                   clientError: Option<string>, buildError: Option<string>)
      returns (r: Attempt<Retriever>)
      requires g.Valid()
      modifies g
      ensures g.Valid()
      ensures old(g.retriever) != null ==> r == Returned(old(g.retriever)) && unchanged(g)
      ensures old(g.vectorStore) != null ==> r.Returned? && g.vectorStore == old(g.vectorStore)
      ensures old(g.vectorStore) == null ==>
                var e := InitError(old(g.embeddingModel) != null, warmUpError, clientError, buildError);
                (r.Raised? <==> e.Some?) && (r.Raised? ==> r.error == e.value)
      ensures old(g.vectorStore) == null && clientError.Some? ==> unchanged(g)
      ensures old(g.embeddingModel) != null || old(g.vectorStore) != null ==>
                g.embeddingModel == old(g.embeddingModel) && g.ollamaLlm == old(g.ollamaLlm)
      ensures old(g.vectorStore) == null && old(g.embeddingModel) == null && clientError.None? ==>
                fresh(g.ollamaLlm) && g.ollamaLlm.model == model
                && g.ollamaLlm.temperature == temperature && g.ollamaLlm.numPredict == numPredict
                && (g.embeddingModel == null <==> warmUpError.Some?)
                && (g.embeddingModel != null ==> fresh(g.embeddingModel) && g.embeddingModel.model == model)
      ensures old(g.vectorStore) == null && r.Returned? ==>
                fresh(g.vectorStore) && g.vectorStore.chunks == chunks && g.vectorStore.collection == COLLECTION
      ensures r.Returned? ==> g.retriever == r.value && r.value.k == RETRIEVER_K && r.value.store == g.vectorStore
      ensures old(g.retriever) == null && r.Returned? ==> fresh(r.value)
      ensures r.Raised? ==> g.retriever == null && g.vectorStore == null
    {
      var vs := CreateVectorStore(g, chunks, warmUpError, clientError, buildError);
      if vs.Raised? {
        return Raised(vs.error);
      }
      if g.retriever == null {
        g.retriever := new Retriever(vs.value, RETRIEVER_K);
      }
      r := Returned(g.retriever);
    }
  }

  /** The startup hook: it builds the retriever from the initial documents
      and swallows any failure, which leaves the retriever for a later call
      to create. It never raises, and the retriever exists afterwards
      exactly when a store already existed or no call failed. */
  method Startup(llm: Llm, g: Globals, chunks: seq<string>, warmUpError: Option<string>,
                 clientError: Option<string>, buildError: Option<string>)
    returns (initialized: bool)
    requires g.Valid()
    modifies g
    ensures g.Valid()
    ensures initialized <==> g.retriever != null
    ensures initialized <==> old(g.vectorStore) != null
                             || InitError(old(g.embeddingModel) != null, warmUpError, clientError, buildError).None?
    ensures old(g.retriever) != null ==> unchanged(g)
    ensures !initialized ==> g.vectorStore == null
    ensures old(g.vectorStore) == null && clientError.Some? ==> unchanged(g)
    ensures old(g.embeddingModel) != null || old(g.vectorStore) != null ==>
              g.embeddingModel == old(g.embeddingModel) && g.ollamaLlm == old(g.ollamaLlm)
    ensures old(g.vectorStore) == null && old(g.embeddingModel) == null && clientError.None? ==>
              fresh(g.ollamaLlm) && g.ollamaLlm.model == llm.model
              && g.ollamaLlm.temperature == llm.temperature && g.ollamaLlm.numPredict == llm.numPredict
              && (g.embeddingModel == null <==> warmUpError.Some?)
              && (g.embeddingModel != null ==> fresh(g.embeddingModel) && g.embeddingModel.model == llm.model)
    ensures old(g.vectorStore) == null && initialized ==>
              fresh(g.vectorStore) && g.vectorStore.chunks == chunks && g.vectorStore.collection == COLLECTION
  {
    var r := llm.CreateRetrieverFromText(g, chunks, warmUpError, clientError, buildError);
    initialized := r.Returned?;
  }

  const NO_RETRIEVER: string := "'NoneType' object has no attribute 'get_relevant_documents'"

  /** `retrieve_context(inputs)`. `retrieved` is the outcome of asking the
      global retriever for the question: the page contents of what it found,
      in its order, or the error the call raised. They are joined by line
      breaks. Before the retriever exists the call fails on `None`. */
  function RetrieveContext(g: Globals, retrieved: Attempt<seq<string>>): (r: Attempt<string>)
    reads g
    ensures r.Raised? <==> g.retriever == null || retrieved.Raised?
    ensures g.retriever == null ==> r == Raised(NO_RETRIEVER)
    ensures g.retriever != null && retrieved.Raised? ==> r == Raised(retrieved.error)
    ensures r.Returned? && retrieved.value == [] ==> r.value == ""
    ensures r.Returned? && |retrieved.value| == 1 ==> r.value == retrieved.value[0]
    ensures r.Returned? && |retrieved.value| >= 2 ==>
              r.value == retrieved.value[0] + "\n" + Join("\n", retrieved.value[1..])
  {
    if g.retriever == null then Raised(NO_RETRIEVER)
    else
      match retrieved
      case Raised(e) => Raised(e)
      case Returned(texts) => Returned(Join("\n", texts))
  }

  /** The joined context keeps every retrieved text, in order: splitting
      it at the line breaks gives them back when none of them spans lines. */
  lemma ContextSplitsBack(g: Globals, retrieved: seq<string>)
    requires g.retriever != null && retrieved != []
    requires forall k :: 0 <= k < |retrieved| ==> '\n' !in retrieved[k]
    ensures RetrieveContext(g, Returned(retrieved)).Returned?
    ensures SplitOn(RetrieveContext(g, Returned(retrieved)).value, '\n') == retrieved
  {
    SplitOnJoin(retrieved, '\n');
  }

  /** The answer text of `knowledge_chat`: the `answer` attribute when the
      response has one; for a dict its "answer" entry, or "" without one;
      otherwise `str(response)`. */
  function AnswerText(response: PyValue): (r: PyValue)
    ensures response.Obj? && response.answer.Some? ==> r == response.answer.value
    ensures response.Dict? && Lookup(response.entries, "answer").None? ==> r == Str("")
    ensures response.Dict? && Lookup(response.entries, "answer").Some? ==>
              exists i :: 0 <= i < |response.entries| && response.entries[i] == (Str("answer"), r)
    ensures response.Str? ==> r == response
    ensures response.Obj? && response.answer.None? ==> r == Str(response.shown)
  {
    match response
    case Obj(_, _, Some(a)) => a
    case Dict(entries, _) =>
      (match Lookup(entries, "answer")
       case Some(v) => v
       case None => Str(""))
    case _ => Str(Show(response))
  }
}
