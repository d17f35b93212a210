/**
 * The semantic cache of the chatbot (cache.py): the score cut-off applied to
 * the vector index's hits, the character-level admission test, the
 * first-maximum pick and the append-only record store.
 */
module Cache {
  import opened Wrappers

  /** An embedding vector; the cache only passes it through. */
  type Embedding = seq<real>

  /**
   * A citation object. `title` and `url` are the keys the cache keeps;
   * `others` holds every other key the generator attached (content,
   * filepath, chunk id, ...).
   */
  datatype Citation = Citation(title: string, url: string, others: map<string, string>)

  /** A document of the cache collection, as `store_record` inserts it. */
  datatype CacheRecord = CacheRecord(
    question: string,
    content: string,
    citations: seq<Citation>,
    embedding: Option<Embedding>)

  /** One hit of the vector search, projected to the question, answer, citations and score. */
  datatype Candidate = Candidate(
    question: string,
    content: string,
    citations: seq<Citation>,
    score: real)

  /**
   * The vector index collaborator: given the collection and the query vector
   * (which may be missing), the hits of the `$vectorSearch` pipeline, or None
   * when the aggregation raises.
   */
  type VectorSearch = (seq<CacheRecord>, Option<Embedding>) -> Option<seq<Candidate>>

  /** Hits must score strictly above this to be reused. */
  const ScoreCutoff: real := 0.95

  // ---------------------------------------------------------------------
  // Order-preserving filtering, the shape of both `for ... append` loops
  // ---------------------------------------------------------------------

  /** The elements of `s` that satisfy `keep`, in their original order. */
  function Filter<T>(s: seq<T>, keep: T -> bool): seq<T>
  {
    if s == [] then []
    else Filter(s[..|s| - 1], keep) + (if keep(s[|s| - 1]) then [s[|s| - 1]] else [])
  }

  /** Filtering a sequence extended by one element extends the filtered sequence by at most that element. */
  lemma FilterSnoc<T>(s: seq<T>, x: T, keep: T -> bool)
    ensures Filter(s + [x], keep) == Filter(s, keep) + (if keep(x) then [x] else [])
  {
    assert (s + [x])[..|s|] == s;
  }

  /**
   * `idx` lists, strictly increasing, the positions in `s` of the elements of
   * `r`, and a position of `s` is listed iff its element satisfies `keep`.
   */
  ghost predicate IsSelection<T>(s: seq<T>, keep: T -> bool, r: seq<T>, idx: seq<nat>)
  {
    && |idx| == |r|
    && (forall k :: 0 <= k < |idx| ==> idx[k] < |s| && r[k] == s[idx[k]])
    && (forall k, l :: 0 <= k < l < |idx| ==> idx[k] < idx[l])
    && (forall j :: 0 <= j < |s| ==> (keep(s[j]) <==> j in idx))
  }

  /** A selection of `s` extends to a selection of `s + [x]`. */
  lemma SelectionSnoc<T>(s: seq<T>, x: T, keep: T -> bool, r: seq<T>, pre: seq<nat>) returns (idx: seq<nat>)
    requires IsSelection(s, keep, r, pre)
    ensures IsSelection(s + [x], keep, r + (if keep(x) then [x] else []), idx)
  {
    var t := s + [x];
    idx := if keep(x) then pre + [|s|] else pre;
    forall j | 0 <= j < |t|
      ensures keep(t[j]) <==> j in idx
    {
      if j < |s| {
        assert t[j] == s[j];
        assert j in idx <==> j in pre;
      }
    }
  }

  /**
   * `Filter(s, keep)` is exactly the subsequence of `s` made of the elements
   * that satisfy `keep`, in their original order.
   */
  lemma {:induction false} FilterIndices<T>(s: seq<T>, keep: T -> bool) returns (idx: seq<nat>)
    ensures IsSelection(s, keep, Filter(s, keep), idx)
  {
    if s == [] {
      idx := [];
    } else {
      var init, x := s[..|s| - 1], s[|s| - 1];
      var pre := FilterIndices(init, keep);
      idx := SelectionSnoc(init, x, keep, Filter(init, keep), pre);
      assert init + [x] == s;
    }
  }

  /** Filtering twice is filtering once by the conjunction of the two tests. */
  lemma {:induction false} FilterFilter<T>(s: seq<T>, p: T -> bool, q: T -> bool, both: T -> bool)
    requires forall x :: both(x) == (p(x) && q(x))
    ensures Filter(Filter(s, p), q) == Filter(s, both)
  {
    if s != [] {
      var init, x := s[..|s| - 1], s[|s| - 1];
      FilterFilter(init, p, q, both);
      if p(x) {
        FilterSnoc(Filter(init, p), x, q);
      } else {
        assert Filter(s, p) == Filter(init, p);
      }
    }
  }

  // ---------------------------------------------------------------------
  // semantic_query: the score cut-off
  // ---------------------------------------------------------------------

  /** The hit test applied to each search result. */
  function AboveCutoff(c: Candidate): bool
  {
    c.score > ScoreCutoff
  }

  /** Python's `response if response else None`: an empty list becomes None. */
  function NonEmpty<T>(s: seq<T>): Option<seq<T>>
  {
    if s == [] then None else Some(s)
  }

  /** What `semantic_query` returns for the search outcome `hits`. */
  function Thresholded(hits: Option<seq<Candidate>>): Option<seq<Candidate>>
  {
    match hits
    case None => None
    case Some(hs) => NonEmpty(Filter(hs, AboveCutoff))
  }

  /** `semantic_query` yields nothing exactly when no hit scores above the cut-off. */
  lemma ThresholdedNoneIff(hs: seq<Candidate>)
    ensures Thresholded(Some(hs)).None? <==> forall j :: 0 <= j < |hs| ==> hs[j].score <= ScoreCutoff
  {
    var idx := FilterIndices(hs, AboveCutoff);
    if Thresholded(Some(hs)).Some? {
      assert idx[0] in idx;
    }
  }

  // ---------------------------------------------------------------------
  // semantic_filter: lower-casing, the character test and the best pick
  // ---------------------------------------------------------------------

  /** `str.lower()` on one character, restricted to ASCII letters. */
  function LowerChar(c: char): char
  {
    if 'A' <= c <= 'Z' then (c as int - 'A' as int + 'a' as int) as char else c
  }

  /** `str.lower()`: characterwise, so the length is kept. */
  function LowerStr(s: string): string
  {
    seq(|s|, i requires 0 <= i < |s| => LowerChar(s[i]))
  }

  /**
   * `sum(1 for word in key if word in text)`: iterating a string yields its
   * characters, so this counts the positions of `key` whose character occurs
   * somewhere in `text`.
   */
  function MatchCount(key: string, text: string): nat
  {
    if key == [] then 0
    else MatchCount(key[..|key| - 1], text) + (if key[|key| - 1] in text then 1 else 0)
  }

  /** The test `match_count >= len(query_keywords) * 1.0` on a candidate's lower-cased question. */
  predicate Admitted(key: string, question: string)
  {
    (MatchCount(key, LowerStr(question)) as real) >= (|key| as real) * 1.0
  }

  /** The reference meaning of the test: every character of `key` occurs in `text`. */
  predicate ContainsAllChars(key: string, text: string)
  {
    forall i :: 0 <= i < |key| ==> key[i] in text
  }

  /** The admission test as a predicate on candidates, for the query key `key`. */
  function MatchesQuery(key: string): Candidate -> bool
  {
    (c: Candidate) => Admitted(key, c.question)
  }

  /** A hit that is reused for `key`: above the cut-off and containing every query character. */
  function Reusable(key: string): Candidate -> bool
  {
    (c: Candidate) => c.score > ScoreCutoff && ContainsAllChars(key, LowerStr(c.question))
  }

  /** The count never exceeds the key's length, and reaches it iff every character matches. */
  lemma {:induction false} MatchCountBound(key: string, text: string)
    ensures MatchCount(key, text) <= |key|
    ensures MatchCount(key, text) == |key| <==> ContainsAllChars(key, text)
  {
    if key != [] {
      var init := key[..|key| - 1];
      MatchCountBound(init, text);
      if ContainsAllChars(key, text) {
        assert forall i :: 0 <= i < |init| ==> init[i] == key[i];
      }
      if ContainsAllChars(init, text) && key[|key| - 1] in text {
        forall i | 0 <= i < |key| ensures key[i] in text {
          if i < |init| {
            assert init[i] == key[i];
          }
        }
      }
    }
  }

  /** The 100% threshold holds exactly when every character of the key occurs in the question. */
  lemma AdmittedIff(key: string, question: string)
    ensures Admitted(key, question) <==> ContainsAllChars(key, LowerStr(question))
  {
    MatchCountBound(key, LowerStr(question));
  }

  /** An empty query has no characters to miss, so every candidate passes the test. */
  lemma {:induction false} EmptyQueryRetainsAll(cs: seq<Candidate>)
    ensures Filter(cs, MatchesQuery(LowerStr(""))) == cs
  {
    if cs != [] {
      EmptyQueryRetainsAll(cs[..|cs| - 1]);
      assert cs[..|cs| - 1] + [cs[|cs| - 1]] == cs;
    }
  }

  /**
   * Python's `max(s, key=score)`: the position of the highest score, the
   * first one when several candidates share it.
   */
  function FirstMaxIndex(s: seq<Candidate>): (k: nat)
    requires s != []
    ensures k < |s|
    ensures forall j :: 0 <= j < |s| ==> s[j].score <= s[k].score
    ensures forall j :: 0 <= j < k ==> s[j].score < s[k].score
  {
    if |s| == 1 then 0
    else
      var m := FirstMaxIndex(s[..|s| - 1]);
      if s[|s| - 1].score > s[m].score then |s| - 1 else m
  }

  /** What `semantic_filter` returns for the search outcome `hits` and the query text. */
  function Admission(hits: Option<seq<Candidate>>, queryText: string): Option<Candidate>
  {
    match Thresholded(hits)
    case None => None
    case Some(qs) =>
      var retained := Filter(qs, MatchesQuery(LowerStr(queryText)));
      if retained == [] then None else Some(retained[FirstMaxIndex(retained)])
  }

  /** The candidates `semantic_filter` chooses from are the reusable hits, in search order. */
  lemma RetainedAreReusable(hs: seq<Candidate>, key: string)
    ensures Filter(Filter(hs, AboveCutoff), MatchesQuery(key)) == Filter(hs, Reusable(key))
  {
    forall c
      ensures Reusable(key)(c) == (AboveCutoff(c) && MatchesQuery(key)(c))
    {
      AdmittedIff(key, c.question);
    }
    FilterFilter(hs, AboveCutoff, MatchesQuery(key), Reusable(key));
  }

  /**
   * When `semantic_filter` returns a hit, it is a reusable hit of the search,
   * no reusable hit scores higher, and every reusable hit before it scores
   * strictly lower (it is the first of the best).
   */
  lemma AdmissionBest(hs: seq<Candidate>, queryText: string)
    requires Admission(Some(hs), queryText).Some?
    ensures var c, key := Admission(Some(hs), queryText).value, LowerStr(queryText);
      exists k :: 0 <= k < |hs| && hs[k] == c && Reusable(key)(hs[k])
        && (forall j :: 0 <= j < |hs| && Reusable(key)(hs[j]) ==> hs[j].score <= c.score)
        && (forall j :: 0 <= j < k && Reusable(key)(hs[j]) ==> hs[j].score < c.score)
  {
    var key := LowerStr(queryText);
    RetainedAreReusable(hs, key);
    var retained := Filter(hs, Reusable(key));
    var m := FirstMaxIndex(retained);
    var c := retained[m];
    assert Admission(Some(hs), queryText) == Some(c);
    var idx := FilterIndices(hs, Reusable(key));
    var k := idx[m];
    forall j | 0 <= j < |hs| && Reusable(key)(hs[j])
      ensures hs[j].score <= c.score
      ensures j < k ==> hs[j].score < c.score
    {
      var a :| 0 <= a < |idx| && idx[a] == j;
      assert retained[a] == hs[j];
      if j < k {
        assert a < m;
      }
    }
  }

  /** `semantic_filter` returns None exactly when no hit is reusable. */
  lemma AdmissionNoneIff(hs: seq<Candidate>, queryText: string)
    ensures Admission(Some(hs), queryText).None?
        <==> forall j :: 0 <= j < |hs| ==> !Reusable(LowerStr(queryText))(hs[j])
  {
    var key := LowerStr(queryText);
    RetainedAreReusable(hs, key);
    var idx := FilterIndices(hs, Reusable(key));
    if Admission(Some(hs), queryText).None? && Thresholded(Some(hs)).None? {
      assert Filter(hs, AboveCutoff) == [];
      assert Filter(hs, Reusable(key)) == Filter([], MatchesQuery(key));
    }
    if Filter(hs, Reusable(key)) != [] {
      assert idx[0] in idx;
    }
  }

  /** With an empty query text, the best thresholded hit is returned whatever the questions say. */
  lemma AdmissionEmptyQuery(hs: seq<Candidate>)
    ensures Admission(Some(hs), "") ==
      var qs := Filter(hs, AboveCutoff);
      if qs == [] then None else Some(qs[FirstMaxIndex(qs)])
  {
    EmptyQueryRetainsAll(Filter(hs, AboveCutoff));
  }

  /** A lower-cased exact repeat of a stored question at score 0.97 is reused. */
  lemma CaseInsensitiveRepeatIsReused(content: string, citations: seq<Citation>)
    ensures var hit := Candidate("What is FUPRE", content, citations, 0.97);
      Admission(Some([hit]), "what is fupre") == Some(hit)
  {
    var hit := Candidate("What is FUPRE", content, citations, 0.97);
    var key := LowerStr("what is fupre");
    assert LowerStr("What is FUPRE") == key;
    assert Reusable(key)(hit);
    AdmissionNoneIff([hit], "what is fupre");
    AdmissionBest([hit], "what is fupre");
  }

  // ---------------------------------------------------------------------
  // CacheManager
  // ---------------------------------------------------------------------

  /** The cache manager; `records` stands for the MongoDB collection it inserts into. */
  class CacheManager {
    var records: seq<CacheRecord>

    /** Connects to a collection that already holds `existing`. */
    constructor (existing: seq<CacheRecord>)
      ensures records == existing
    {
      records := existing;
    }

    /**
     * `semantic_query`: the hits scoring above the cut-off, in search order;
     * None when none does or when the search raises.
     */
    method SemanticQuery(queryEmbedding: Option<Embedding>, search: VectorSearch)
      returns (r: Option<seq<Candidate>>)
      ensures r == Thresholded(search(records, queryEmbedding))
      ensures r.Some? ==> r.value != []
    {
      var found := search(records, queryEmbedding);
      if found.None? {
        return None;
      }
      var results := found.value;
      var response: seq<Candidate> := [];
      for i := 0 to |results|
        invariant response == Filter(results[..i], AboveCutoff)
      {
        assert results[..i + 1] == results[..i] + [results[i]];
        FilterSnoc(results[..i], results[i], AboveCutoff);
        if results[i].score > ScoreCutoff {
          response := response + [results[i]];
        }
      }
      assert results[..|results|] == results;
      r := NonEmpty(response);
    }

    /**
     * `semantic_filter`: among the thresholded hits, those whose lower-cased
     * question contains every character of the lower-cased query; then the
     * first of the highest-scoring ones, or None.
     */
    method SemanticFilter(queryEmbedding: Option<Embedding>, queryText: string, search: VectorSearch)
      returns (r: Option<Candidate>)
      ensures r == Admission(search(records, queryEmbedding), queryText)
      ensures Thresholded(search(records, queryEmbedding)).None? ==> r.None?
    {
      var queries := SemanticQuery(queryEmbedding, search);
      if queries.None? {
        return None;
      }
      var qs := queries.value;
      var key := LowerStr(queryText);
      var filtered: seq<Candidate> := [];
      for i := 0 to |qs|
        invariant filtered == Filter(qs[..i], MatchesQuery(key))
      {
        assert qs[..i + 1] == qs[..i] + [qs[i]];
        FilterSnoc(qs[..i], qs[i], MatchesQuery(key));
        var responseText := LowerStr(qs[i].question);
        var matchCount := MatchCount(key, responseText);
        if (matchCount as real) >= (|key| as real) * 1.0 {
          filtered := filtered + [qs[i]];
        }
      }
      assert qs[..|qs|] == qs;
      if filtered != [] {
        r := Some(filtered[FirstMaxIndex(filtered)]);
      } else {
        r := None;
      }
    }

    /**
     * `store_record`: appends one record built verbatim from the arguments
     * when the insert succeeds (`inserted`); a failed insert is swallowed and
     * leaves the collection as it was.
     */
    method StoreRecord(question: string, response: string, citations: seq<Citation>,
                       embedding: Option<Embedding>, inserted: bool)
      modifies this
      ensures records == if inserted
        then old(records) + [CacheRecord(question, response, citations, embedding)]
        else old(records)
    {
      if inserted {
        records := records + [CacheRecord(question, response, citations, embedding)];
      }
    }
  }
}
