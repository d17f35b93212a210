/**
 * Four requests through `RAGHandler.PerformRag`: a miss that is stored, a
 * refusal, a failed embedding and a failed generation. Each is proved from
 * the contracts of the cache and the handler alone.
 */
module Scenarios {
  import opened Wrappers
  import opened Cache
  import opened Bot

  /**
   * A question with no hit above the cut-off goes to the chat completion, and
   * the reply is cached with an embedding asked for on question and reply.
   */
  method MissIsGeneratedAndStored(handler: RAGHandler, embed: EmbeddingService, source: Citation)
    returns (r: Option<Answer>)
    modifies handler.cacheManager
    ensures r == Some(Answer("FUPRE is in Effurun.", [source]))
    ensures handler.cacheManager.records == old(handler.cacheManager.records) + [
      CacheRecord("random gibberish xq", "FUPRE is in Effurun.", [TitleAndUrl(source)],
                  GenerateEmbedding(embed, "random gibberish xq" + " " + "FUPRE is in Effurun."))]
  {
    var lowHit := Candidate("random gibberish xq", "old answer", [], 0.5);
    var search: VectorSearch := (records, e) => Some([lowHit]);
    var chat: ChatService := q => Some([Message("FUPRE is in Effurun.", [source])]);
    assert Admission(search(handler.cacheManager.records, GenerateEmbedding(embed, "random gibberish xq")),
                     "random gibberish xq") == None by {
      ThresholdedNoneIff([lowHit]);
    }
    assert FirstChoice(chat("random gibberish xq")) == Some(Message("FUPRE is in Effurun.", [source]));
    ghost var before := handler.cacheManager.records;
    r := handler.PerformRag("random gibberish xq", embed, search, chat, true);
    ghost var stored := handler.cacheManager.records[|before|];
    assert stored.citations == [TitleAndUrl(source)];
    assert handler.cacheManager.records == before + [stored];
  }

  /** The canned refusal reaches the user but never the cache. */
  method RefusalIsNotCached(handler: RAGHandler, embed: EmbeddingService)
    returns (r: Option<Answer>)
    modifies handler.cacheManager
    ensures r == Some(Answer(Refusal, []))
    ensures handler.cacheManager.records == old(handler.cacheManager.records)
  {
    var search: VectorSearch := (records, e) => None;
    var chat: ChatService := q => Some([Message(Refusal, [])]);
    r := handler.PerformRag("who won the world cup", embed, search, chat, true);
  }

  /**
   * When every embedding call fails and the search rejects the missing
   * vector, the question is answered by the chat completion, and the reply
   * is still stored, with no embedding.
   */
  method MissingEmbeddingFallsBack(handler: RAGHandler) returns (r: Option<Answer>)
    modifies handler.cacheManager
    ensures r == Some(Answer("42", []))
    ensures handler.cacheManager.records == old(handler.cacheManager.records) + [
      CacheRecord("what is fupre", "42", [], None)]
  {
    var embed: EmbeddingService := t => None;
    var search: VectorSearch := (records: seq<CacheRecord>, e: Option<Embedding>) => if e.None? then None else Some([]);
    var chat: ChatService := q => Some([Message("42", [])]);
    r := handler.PerformRag("what is fupre", embed, search, chat, true);
  }

  /** A failing chat completion makes the whole request fail and stores nothing. */
  method GenerationFailureFails(handler: RAGHandler, embed: EmbeddingService)
    returns (r: Option<Answer>)
    modifies handler.cacheManager
    ensures r == None
    ensures handler.cacheManager.records == old(handler.cacheManager.records)
  {
    var search: VectorSearch := (records, e) => Some([]);
    var chat: ChatService := q => None;
    r := handler.PerformRag("what is fupre", embed, search, chat, true);
  }
}
