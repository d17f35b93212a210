/**
 * The answer orchestration of the chatbot (bot.py): a cache hit is returned
 * as stored; on a miss the chat completion is called, its citations are
 * projected to title and url, and the answer is cached unless it is the
 * canned refusal.
 */
module Bot {
  import opened Wrappers
  import opened Cache

  /**
   * The embedding collaborator: the `data` list of the embeddings response
   * for one input text, or None when the call raises.
   */
  type EmbeddingService = string -> Option<seq<Embedding>>

  /** A chat completion choice's message: its text and its context's citations. */
  datatype Message = Message(content: string, citations: seq<Citation>)

  /**
   * The chat completion collaborator (with its search data source): the
   * `choices` messages for the user's text, or None when the call raises.
   */
  type ChatService = string -> Option<seq<Message>>

  /** What `perform_rag` hands back: the answer text and its citations. */
  datatype Answer = Answer(content: string, citations: seq<Citation>)

  /** The canned refusal the prompt tells the model to answer with (the f-string `wrong`). */
  const Refusal: string :=
    "\n            I'm sorry, but I can't provide that information.\n"
    + "            Please contact <a href='https://wa.me/7049969643'>German</a> for more informtion. Thank you!\n"
    + "        "

  /**
   * `generate_embedding`: the first embedding of the response; None when the
   * call raises or its data list is empty (the `data[0]` lookup raises).
   */
  function GenerateEmbedding(embed: EmbeddingService, text: string): (r: Option<Embedding>)
    ensures r.None? <==> embed(text).None? || embed(text).value == []
    ensures r.Some? ==> r.value == embed(text).value[0]
  {
    match embed(text)
    case None => None
    case Some(data) => if data == [] then None else Some(data[0])
  }

  /** `completion.choices[0].message`, or None when the call raises or there is no choice. */
  function FirstChoice(choices: Option<seq<Message>>): Option<Message>
  {
    match choices
    case None => None
    case Some(ms) => if ms == [] then None else Some(ms[0])
  }

  /** The `{"title": c['title'], "url": c['url']}` dictionary built for a citation. */
  function TitleAndUrl(c: Citation): Citation
  {
    Citation(c.title, c.url, map[])
  }

  /**
   * The citation loop of `perform_rag`: one dictionary per citation, in the
   * same order and with duplicates kept, holding only the title and url.
   */
  method ProjectCitations(raw: seq<Citation>) returns (cs: seq<Citation>)
    ensures |cs| == |raw|
    ensures forall k :: 0 <= k < |raw| ==>
      cs[k].title == raw[k].title && cs[k].url == raw[k].url && cs[k].others == map[]
  {
    cs := [];
    for i := 0 to |raw|
      invariant |cs| == i
      invariant forall k :: 0 <= k < i ==> cs[k] == TitleAndUrl(raw[k])
    {
      cs := cs + [TitleAndUrl(raw[i])];
    }
  }

  /** No cached answer is the canned refusal. */
  ghost predicate NoRefusalCached(records: seq<CacheRecord>)
  {
    forall i :: 0 <= i < |records| ==> records[i].content != Refusal
  }

  /** Every cached record's embedding was asked for on its question, a space and its answer. */
  ghost predicate EmbeddedFromPair(records: seq<CacheRecord>, embed: EmbeddingService)
  {
    forall i :: 0 <= i < |records| ==>
      records[i].embedding == GenerateEmbedding(embed, records[i].question + " " + records[i].content)
  }

  /** The handler of one question; `cacheManager` is the semantic cache it consults and fills. */
  class RAGHandler {
    const cacheManager: CacheManager

    /** Takes the cache manager the service was set up with. */
    constructor (cache: CacheManager)
      ensures cacheManager == cache
    {
      cacheManager := cache;
    }

    /**
     * `perform_rag`. The cache is consulted with the embedding of `text`; a
     * hit is returned as stored and nothing else happens. On a miss the chat
     * completion is asked; when it raises (or has no choice) the result is
     * None and nothing is stored. Otherwise the reply's own citations are
     * returned, and the reply is stored, with title/url citations and the
     * embedding of `text + " " + reply`, unless it is the canned refusal.
     * `inserted` says whether the collection accepts the insert.
     */
    method PerformRag(text: string, embed: EmbeddingService, search: VectorSearch,
                      chat: ChatService, inserted: bool)
      returns (r: Option<Answer>)
      modifies cacheManager
      ensures var hit := Admission(search(old(cacheManager.records), GenerateEmbedding(embed, text)), text);
        hit.Some? ==>
          r == Some(Answer(hit.value.content, hit.value.citations))
          && cacheManager.records == old(cacheManager.records)
      ensures var hit := Admission(search(old(cacheManager.records), GenerateEmbedding(embed, text)), text);
        hit.None? && FirstChoice(chat(text)).None? ==>
          r == None && cacheManager.records == old(cacheManager.records)
      ensures var hit := Admission(search(old(cacheManager.records), GenerateEmbedding(embed, text)), text);
        var reply := FirstChoice(chat(text));
        hit.None? && reply.Some? ==>
          r == Some(Answer(reply.value.content, reply.value.citations))
          && (reply.value.content == Refusal || !inserted ==> cacheManager.records == old(cacheManager.records))
          && (reply.value.content != Refusal && inserted ==>
                var n := |old(cacheManager.records)|;
                && |cacheManager.records| == n + 1
                && cacheManager.records[..n] == old(cacheManager.records)
                && var stored := cacheManager.records[n];
                && stored.question == text
                && stored.content == reply.value.content
                && stored.embedding == GenerateEmbedding(embed, text + " " + reply.value.content)
                && |stored.citations| == |reply.value.citations|
                && (forall k :: 0 <= k < |stored.citations| ==>
                      stored.citations[k] == TitleAndUrl(reply.value.citations[k])))
      ensures NoRefusalCached(old(cacheManager.records)) ==> NoRefusalCached(cacheManager.records)
      ensures EmbeddedFromPair(old(cacheManager.records), embed) ==> EmbeddedFromPair(cacheManager.records, embed)
    {
      var queryEmbedding := GenerateEmbedding(embed, text);
      var result := cacheManager.SemanticFilter(queryEmbedding, text, search);
      if result.Some? {
        return Some(Answer(result.value.content, result.value.citations));
      }
      var choices := chat(text);
      if choices.None? || choices.value == [] {
        return None;
      }
      var response := choices.value[0];
      var citations := ProjectCitations(response.citations);
      if Refusal != response.content {
        var embedding := GenerateEmbedding(embed, text + " " + response.content);
        cacheManager.StoreRecord(text, response.content, citations, embedding, inserted);
      }
      r := Some(Answer(response.content, response.citations));
    }
  }
}
