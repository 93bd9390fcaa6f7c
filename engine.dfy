/**
 * `SimSearch<Id>`: the search engine object. Its three fields are updated in
 * place by `delete` and `insert_tokens`; each method is proved to move the
 * fields exactly as the functions of module Index say, and so to keep the
 * invariant `Index.Consistent`.
 */
module Engine {
  import opened Wrappers
  import opened Text
  import opened Options
  import opened Tokenizer
  import opened Index
  import opened Ranking

  class SimSearch<Id(==)> {
    const options: SearchOptions
    var ids: seq<Option<Id>>
    var forwardMap: map<nat, seq<string>>
    var reverseMap: map<string, seq<nat>>

    /** The fields as a value. */
    function Model(): State<Id>
      reads this
    {
      State(ids, forwardMap, reverseMap)
    }

    ghost predicate Valid()
      reads this
    {
      Consistent(Model())
    }

    /** `new()`: an empty engine with the default options. */
    constructor ()
      ensures Valid()
      ensures options == Default()
      ensures Model() == Empty()
    {
      options := Default();
      ids := [];
      forwardMap := map[];
      reverseMap := map[];
      new;
      EmptyConsistent<Id>();
    }

    /** `new_with(option)`: an empty engine with the options `o`. */
    constructor NewWith(o: SearchOptions)
      ensures Valid()
      ensures options == o
      ensures Model() == Empty()
    {
      options := o;
      ids := [];
      forwardMap := map[];
      reverseMap := map[];
      new;
      EmptyConsistent<Id>();
    }

    /** `tokenize`: fold case, split on whitespace, split on each stop word in turn, drop empty pieces. */
    method Tokenize(frags: seq<string>) returns (tokens: seq<string>)
      ensures tokens == Tokens(options, frags)
    {
      var folded := FoldAll(options, frags);
      tokens := if options.stopWhitespace then SplitAllWhitespace(folded) else folded;
      ghost var base := tokens;
      var words := options.stopWords;
      for i := 0 to |words|
        invariant tokens == StopSplit(base, words[..i])
      {
        StopSplitSnoc(base, words, i);
        tokens := SplitAllTerminator(tokens, words[i]);
      }
      assert words[..|words|] == words;
      assert tokens == StopSplit(base, options.stopWords);
      tokens := NonEmptyOnly(tokens);
    }

    /** `delete(id)`: tombstone the slot of `id` and filter it out of the buckets of its tokens. */
    method Delete(id: Id)
      requires Valid()
      modifies this
      ensures Valid()
      ensures Model() == Index.Delete(old(Model()), id)
    {
      match FindSlot(ids, id)
      case None =>
      case Some(s) =>
        ghost var st := Model();
        assert s in forwardMap;
        var toks := forwardMap[s];
        StrictlySortedNoDup(toks);
        FilterBuckets(toks, s);
        forwardMap := forwardMap - {s};
        ids := ids[s := None];
        assert Model() == Index.Delete(st, id);
    }

    /** The loop of `delete`: `retain(|i| *i != slot)` on the bucket of each token in `toks`. */
    method FilterBuckets(toks: seq<string>, slot: nat)
      requires NoDup(toks) && forall t :: t in toks ==> t in reverseMap
      modifies this
      ensures ids == old(ids) && forwardMap == old(forwardMap)
      ensures reverseMap == RemoveSlot(old(reverseMap), toks, slot)
    {
      for k := 0 to |toks|
        invariant ids == old(ids) && forwardMap == old(forwardMap)
        invariant reverseMap == RemoveSlot(old(reverseMap), toks[..k], slot)
      {
        var t := toks[k];
        RemoveSlotStep(old(reverseMap), toks, k, slot);
        reverseMap := reverseMap[t := Without(reverseMap[t], slot)];
      }
      assert toks[..|toks|] == toks;
    }

    /**
     * `insert_tokens(id, frags)`: delete any entry for `id`, push a fresh slot,
     * add the slot to the bucket of each of its sorted, deduplicated tokens and
     * record the tokens in the forward map.
     */
    method InsertTokens(id: Id, frags: seq<string>)
      requires Valid()
      modifies this
      ensures Valid()
      ensures Model() == Index.InsertTokens(old(Model()), options, id, frags)
    {
      ghost var st := Model();
      Delete(id);
      ghost var d := Model();
      var slot := |ids|;
      ids := ids + [Some(id)];
      var tokens := Tokenize(frags);
      tokens := Canon(tokens);
      StrictlySortedNoDup(tokens);
      ExtendBuckets(tokens, slot);
      forwardMap := forwardMap[slot := tokens];
      assert Model() == Place(d, id, tokens);
      assert Place(d, id, tokens) == Index.InsertTokens(st, options, id, frags);
    }

    /** The loop of `insert_tokens`: push `slot` onto the bucket of each token in `toks`, creating missing buckets. */
    method ExtendBuckets(toks: seq<string>, slot: nat)
      requires NoDup(toks)
      modifies this
      ensures ids == old(ids) && forwardMap == old(forwardMap)
      ensures reverseMap == AddSlot(old(reverseMap), toks, slot)
    {
      for k := 0 to |toks|
        invariant ids == old(ids) && forwardMap == old(forwardMap)
        invariant reverseMap == AddSlot(old(reverseMap), toks[..k], slot)
      {
        var t := toks[k];
        AddSlotStep(old(reverseMap), toks, k, slot);
        var bucket := if t in reverseMap then reverseMap[t] else [];
        reverseMap := reverseMap[t := bucket + [slot]];
      }
      assert toks[..|toks|] == toks;
    }

    /**
     * The first loop of `search_tokens`: for each query token, in order, every
     * vocabulary token that beats the threshold gets that score. The keys of
     * `reverse_map` are visited in an unspecified order.
     */
    method ScoreTokens(q: seq<string>, sim: (string, string) -> real) returns (tokenScores: map<string, real>)
      ensures tokenScores == Scores(reverseMap.Keys, q, sim, options.threshold)
    {
      var th := options.threshold;
      tokenScores := map[];
      for i := 0 to |q|
        invariant tokenScores == Scores(reverseMap.Keys, q[..i], sim, th)
      {
        var pending := reverseMap.Keys;
        PartialScoresStart(reverseMap.Keys, q, i, sim, th);
        while pending != {}
          invariant pending <= reverseMap.Keys
          invariant tokenScores == PartialScores(reverseMap.Keys, pending, q, i, sim, th)
          decreases |pending|
        {
          var v :| v in pending;
          PartialScoresStep(reverseMap.Keys, pending, q, i, sim, th, v);
          var score := sim(v, q[i]);
          if score > th {
            tokenScores := tokenScores[v := score];
          }
          pending := pending - {v};
        }
        PartialScoresEnd(reverseMap.Keys, q, i, sim, th);
      }
      assert q[..|q|] == q;
    }

    /**
     * The second loop of `search_tokens`: each scored token adds its score to
     * the total of every slot in its bucket. `drain` yields the tokens in an
     * unspecified order; the totals do not depend on it.
     */
    method AccumulateTotals(tokenScores: map<string, real>) returns (resultScores: map<nat, real>)
      requires tokenScores.Keys <= reverseMap.Keys
      requires forall v :: v in reverseMap ==> NoDup(reverseMap[v])
      ensures resultScores.Keys == HitsIn(tokenScores.Keys, reverseMap)
      ensures forall s :: s in resultScores ==> resultScores[s] == Total(tokenScores, reverseMap, s)
    {
      resultScores := map[];
      var pending := tokenScores.Keys;
      ghost var done: set<string> := {};
      while pending != {}
        invariant done + pending == tokenScores.Keys && done * pending == {}
        invariant resultScores == Totals(done, reverseMap, tokenScores)
        decreases |pending|
      {
        var v :| v in pending;
        var score := tokenScores[v];
        var bucket := reverseMap[v];
        resultScores := AddToSlots(resultScores, bucket, score);
        TotalsAdd(done, reverseMap, tokenScores, v);
        pending := pending - {v};
        done := done + {v};
      }
      TotalsMeaning(tokenScores, reverseMap);
    }

    /**
     * `search_tokens(frags)`: the identifiers of the ranked slots, best total
     * first. `ranked` names the slot each identifier came from.
     */
    method SearchTokens(frags: seq<string>, sim: (string, string) -> real) returns (result: seq<Id>, ghost ranked: seq<nat>)
      requires Valid()
      ensures |ranked| == |result|
      ensures forall k :: 0 <= k < |ranked| ==> ranked[k] < |ids| && ids[ranked[k]] == Some(result[k])
      ensures forall s :: s in ranked <==> s in Matches(Model(), options, frags, sim)
      ensures NoDup(ranked) && NoDup(result)
      ensures forall j, k :: 0 <= j < k < |ranked| ==>
        Total(QueryScores(Model(), options, frags, sim), reverseMap, ranked[j])
          >= Total(QueryScores(Model(), options, frags, sim), reverseMap, ranked[k])
      ensures forall id :: id in result <==> Found(Model(), options, frags, sim, id)
    {
      var q := Tokenize(frags);
      q := Canon(q);
      var tokenScores := ScoreTokens(q, sim);
      ghost var qs := QueryScores(Model(), options, frags, sim);
      assert tokenScores == qs;
      var resultScores := AccumulateTotals(tokenScores);
      var pairs := Collect(resultScores);
      var sorted := SortDesc(pairs);
      SortKeepsSlots(pairs, resultScores);
      HitsAreLive(Model(), qs.Keys);
      var slots := Slots(sorted);
      result := IdsAt(slots);
      ranked := slots;
      IdsOfRanked(Model(), ranked, result);
      FoundIffListed(Model(), options, frags, sim, ranked, result);
    }

    /** The last step of `search_tokens`: the id held by each slot, in order. */
    method IdsAt(slots: seq<nat>) returns (result: seq<Id>)
      requires forall k :: 0 <= k < |slots| ==> slots[k] < |ids| && ids[slots[k]].Some?
      ensures |result| == |slots|
      ensures forall k :: 0 <= k < |slots| ==> slots[k] < |ids| && ids[slots[k]] == Some(result[k])
    {
      result := [];
      for k := 0 to |slots|
        invariant |result| == k
        invariant forall j :: 0 <= j < k ==> slots[j] < |ids| && ids[slots[j]] == Some(result[j])
      {
        result := result + [ids[slots[k]].value];
      }
    }

    /** `search(pattern)`: `search_tokens` with a single fragment. */
    method Search(pattern: string, sim: (string, string) -> real) returns (result: seq<Id>, ghost ranked: seq<nat>)
      requires Valid()
      ensures |ranked| == |result|
      ensures forall k :: 0 <= k < |ranked| ==> ranked[k] < |ids| && ids[ranked[k]] == Some(result[k])
      ensures forall s :: s in ranked <==> s in Matches(Model(), options, [pattern], sim)
      ensures NoDup(ranked) && NoDup(result)
      ensures forall j, k :: 0 <= j < k < |ranked| ==>
        Total(QueryScores(Model(), options, [pattern], sim), reverseMap, ranked[j])
          >= Total(QueryScores(Model(), options, [pattern], sim), reverseMap, ranked[k])
      ensures forall id :: id in result <==> Found(Model(), options, [pattern], sim, id)
    {
      result, ranked := SearchTokens([pattern], sim);
    }

    /** `insert(id, content)`: `insert_tokens` with a single fragment. */
    method Insert(id: Id, content: string)
      requires Valid()
      modifies this
      ensures Valid()
      ensures Model() == Index.InsertTokens(old(Model()), options, id, [content])
    {
      InsertTokens(id, [content]);
    }
  }

  /** The inner loop of the second phase of `search_tokens`: add `score` to the running total of each slot of `bucket`. */
  method AddToSlots(acc: map<nat, real>, bucket: seq<nat>, score: real) returns (totals: map<nat, real>)
    requires NoDup(bucket)
    ensures totals == AddAll(acc, bucket, score)
  {
    totals := acc;
    AddAllStart(acc, score);
    for k := 0 to |bucket|
      invariant totals == AddAll(acc, bucket[..k], score)
    {
      AddAllStep(acc, bucket, k, score);
      var s := bucket[k];
      totals := totals[s := Get0(totals, s) + score];
    }
    assert bucket[..|bucket|] == bucket;
  }

  /** One more token's bucket filtered: the loop step of `delete`. */
  lemma RemoveSlotStep(rev: map<string, seq<nat>>, toks: seq<string>, k: nat, s: nat)
    requires NoDup(toks) && k < |toks| && toks[k] in rev
    ensures toks[k] in RemoveSlot(rev, toks[..k], s)
    ensures RemoveSlot(rev, toks[..k + 1], s)
         == RemoveSlot(rev, toks[..k], s)[toks[k] := Without(RemoveSlot(rev, toks[..k], s)[toks[k]], s)]
  {
    assert toks[k] !in toks[..k];
    assert forall t :: t in toks[..k + 1] <==> t in toks[..k] || t == toks[k];
  }

  /** One more token's bucket extended: the loop step of `insert_tokens`. */
  lemma AddSlotStep(rev: map<string, seq<nat>>, toks: seq<string>, k: nat, s: nat)
    requires NoDup(toks) && k < |toks|
    ensures AddSlot(rev, toks[..k + 1], s)
         == AddSlot(rev, toks[..k], s)[toks[k] := Bucket(AddSlot(rev, toks[..k], s), toks[k]) + [s]]
  {
    assert toks[k] !in toks[..k];
    assert forall t :: t in toks[..k + 1] <==> t in toks[..k] || t == toks[k];
  }

  /** Distinct live slots hold distinct identifiers. */
  lemma IdsOfRanked<Id>(st: State<Id>, ranked: seq<nat>, result: seq<Id>)
    requires UniqueIds(st.ids) && NoDup(ranked) && |ranked| == |result|
    requires forall k :: 0 <= k < |ranked| ==> ranked[k] < |st.ids| && st.ids[ranked[k]] == Some(result[k])
    ensures NoDup(result)
  {
    forall j, k | 0 <= j < k < |result| ensures result[j] != result[k] {
      if ranked[j] < ranked[k] {
        assert st.ids[ranked[j]] != st.ids[ranked[k]];
      } else {
        assert st.ids[ranked[k]] != st.ids[ranked[j]];
      }
    }
  }

  /** An identifier is listed exactly when one of the ranked slots holds it. */
  lemma FoundIffListed<Id>(st: State<Id>, o: SearchOptions, frags: seq<string>, sim: (string, string) -> real, ranked: seq<nat>, result: seq<Id>)
    requires |ranked| == |result|
    requires forall k :: 0 <= k < |ranked| ==> ranked[k] < |st.ids| && st.ids[ranked[k]] == Some(result[k])
    requires forall s :: s in ranked <==> s in Matches(st, o, frags, sim)
    ensures forall id :: id in result <==> Found(st, o, frags, sim, id)
  {
    forall id ensures id in result <==> Found(st, o, frags, sim, id) {
      if id in result {
        var k :| 0 <= k < |result| && result[k] == id;
        assert ranked[k] in ranked;
      }
      if Found(st, o, frags, sim, id) {
        var s :| s in Matches(st, o, frags, sim) && s < |st.ids| && st.ids[s] == Some(id);
        var k :| 0 <= k < |ranked| && ranked[k] == s;
      }
    }
  }
}
