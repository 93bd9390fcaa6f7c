/**
 * The engine's state as a value, and what `insert_tokens`, `delete` and
 * `search_tokens` do to it, as functions. The engine class in module Engine
 * is proved to follow these functions; the lemmas here state what the
 * functions promise.
 */
module Index {
  import opened Wrappers
  import opened Text
  import opened Options
  import opened Tokenizer

  /**
   * `ids` is the append-only slot table (a deleted entry leaves `None`),
   * `forward` maps a slot to its sorted, deduplicated tokens, and `reverse`
   * maps a token to the slots holding it.
   */
  datatype State<Id> = State(ids: seq<Option<Id>>, forward: map<nat, seq<string>>, reverse: map<string, seq<nat>>)

  function Empty<Id>(): State<Id>
  {
    State([], map[], map[])
  }

  /** No identifier is live in two slots. */
  ghost predicate UniqueIds<Id>(ids: seq<Option<Id>>)
  {
    forall j, k :: 0 <= j < k < |ids| && ids[j].Some? ==> ids[j] != ids[k]
  }

  /** A slot has a forward entry exactly when it is live. */
  ghost predicate ForwardLive<Id>(st: State<Id>)
  {
    forall s: nat :: s in st.forward <==> s < |st.ids| && st.ids[s].Some?
  }

  /** Every slot in a bucket holds that bucket's token. */
  ghost predicate ReverseSound<Id>(st: State<Id>)
  {
    forall t, s: nat :: t in st.reverse && s in st.reverse[t] ==> s in st.forward && t in st.forward[s]
  }

  /** Every token of a live slot has a bucket holding that slot. */
  ghost predicate ReverseComplete<Id>(st: State<Id>)
  {
    forall s: nat, t :: s in st.forward && t in st.forward[s] ==> t in st.reverse && s in st.reverse[t]
  }

  ghost predicate EntriesSorted<Id>(st: State<Id>)
  {
    forall s :: s in st.forward ==> StrictlySorted(st.forward[s])
  }

  ghost predicate BucketsDistinct<Id>(st: State<Id>)
  {
    forall t :: t in st.reverse ==> NoDup(st.reverse[t])
  }

  /**
   * The consistency the source relies on when it indexes the maps and
   * unwraps `ids` (src/lib.rs:209-211): slot `s` is in the bucket of `t`
   * exactly when `s` is live and `t` is one of its tokens.
   */
  ghost predicate Consistent<Id>(st: State<Id>)
  {
    && ForwardLive(st)
    && ReverseSound(st)
    && ReverseComplete(st)
    && EntriesSorted(st)
    && BucketsDistinct(st)
    && UniqueIds(st.ids)
  }

  lemma EmptyConsistent<Id>()
    ensures Consistent(Empty<Id>())
  {
  }

  /** `ids.iter().position(|i| i.as_ref() == Some(id))`: the first slot holding `id`. */
  function FindSlot<Id(==)>(ids: seq<Option<Id>>, id: Id): (r: Option<nat>)
    ensures r.None? <==> Some(id) !in ids
    ensures r.Some? ==> r.value < |ids| && ids[r.value] == Some(id) && Some(id) !in ids[..r.value]
  {
    if ids == [] then None
    else if ids[0] == Some(id) then Some(0)
    else
      match FindSlot(ids[1..], id)
      case None => None
      case Some(k) =>
        assert ids[..k + 1] == [ids[0]] + ids[1..][..k];
        Some(k + 1)
  }

  /** With unique identifiers, a slot holding `id` is the only one. */
  lemma OnlySlot<Id>(ids: seq<Option<Id>>, id: Id, s: nat)
    requires UniqueIds(ids) && s < |ids| && ids[s] == Some(id)
    ensures forall j :: 0 <= j < |ids| && j != s ==> ids[j] != Some(id)
  {
    forall j | 0 <= j < |ids| && j != s ensures ids[j] != Some(id) {
      if j < s {
        assert ids[j] != ids[s];
      } else {
        assert ids[s] != ids[j];
      }
    }
  }

  /** With unique identifiers the first slot holding `id` is its only slot. */
  lemma FindSlotUnique<Id>(ids: seq<Option<Id>>, id: Id, s: nat)
    requires UniqueIds(ids) && s < |ids| && ids[s] == Some(id)
    ensures FindSlot(ids, id) == Some(s)
  {
    assert ids[s] in ids;
    OnlySlot(ids, id, s);
  }

  function Bucket(rev: map<string, seq<nat>>, t: string): seq<nat>
  {
    if t in rev then rev[t] else []
  }

  /** `bucket.retain(|i| *i != x)`. */
  function Without(b: seq<nat>, x: nat): (r: seq<nat>)
    ensures forall y :: y in r <==> y in b && y != x
    ensures NoDup(b) ==> NoDup(r)
    ensures x !in b ==> r == b
  {
    if b == [] then []
    else if b[0] == x then Without(b[1..], x)
    else
      var rest := Without(b[1..], x);
      assert b == [b[0]] + b[1..];
      assert NoDup(b) ==> b[0] !in b[1..];
      [b[0]] + rest
  }

  /** The bucket of every token in `toks` loses the slot `s`; other buckets are kept. */
  function RemoveSlot(rev: map<string, seq<nat>>, toks: seq<string>, s: nat): map<string, seq<nat>>
  {
    map t | t in rev :: if t in toks then Without(rev[t], s) else rev[t]
  }

  /** The slot `s` is appended to the bucket of every token in `toks`, creating missing buckets. */
  function AddSlot(rev: map<string, seq<nat>>, toks: seq<string>, s: nat): map<string, seq<nat>>
  {
    map t | t in rev.Keys + (set u | u in toks) :: if t in toks then Bucket(rev, t) + [s] else rev[t]
  }

  /** `r` is `st` with slot `s` tombstoned and filtered out of every bucket. */
  ghost predicate Tombstoned<Id>(st: State<Id>, r: State<Id>, s: nat)
  {
    && s < |st.ids|
    && r.ids == st.ids[s := None] && r.forward == st.forward - {s}
    && r.reverse.Keys == st.reverse.Keys
    && forall t :: t in st.reverse ==> r.reverse[t] == Without(st.reverse[t], s)
  }

  lemma TombstoneSound<Id>(st: State<Id>, r: State<Id>, s: nat)
    requires ReverseSound(st) && Tombstoned(st, r, s)
    ensures ReverseSound(r)
  {
    forall t, s': nat | t in r.reverse && s' in r.reverse[t] ensures s' in r.forward && t in r.forward[s'] {
      TombstoneSoundAt(st, r, s, t, s');
    }
  }

  lemma TombstoneSoundAt<Id>(st: State<Id>, r: State<Id>, s: nat, t: string, s': nat)
    requires ReverseSound(st) && Tombstoned(st, r, s)
    requires t in r.reverse && s' in r.reverse[t]
    ensures s' in r.forward && t in r.forward[s']
  {
    var b := st.reverse[t];
    assert r.reverse[t] == Without(b, s);
    assert s' in b && s' != s;
  }

  lemma TombstoneComplete<Id>(st: State<Id>, r: State<Id>, s: nat)
    requires ReverseComplete(st) && Tombstoned(st, r, s)
    ensures ReverseComplete(r)
  {
    forall s': nat, t | s' in r.forward && t in r.forward[s'] ensures t in r.reverse && s' in r.reverse[t] {
      assert s' in st.forward && s' != s && t in st.forward[s'];
    }
  }

  lemma TombstoneUnique<Id>(st: State<Id>, r: State<Id>, s: nat)
    requires UniqueIds(st.ids) && Tombstoned(st, r, s)
    ensures UniqueIds(r.ids)
  {
    forall j, k | 0 <= j < k < |r.ids| && r.ids[j].Some? ensures r.ids[j] != r.ids[k] {
      assert st.ids[j] == r.ids[j] && st.ids[j] != st.ids[k];
    }
  }

  /** Tombstoning one slot keeps the state consistent. */
  lemma TombstoneConsistent<Id>(st: State<Id>, r: State<Id>, s: nat)
    requires Consistent(st) && Tombstoned(st, r, s)
    ensures Consistent(r)
  {
    TombstoneSound(st, r, s);
    TombstoneComplete(st, r, s);
    TombstoneUnique(st, r, s);
  }

  /** Filtering the buckets of a live slot's own tokens filters the slot out of every bucket. */
  lemma RemoveSlotTombstones<Id>(st: State<Id>, s: nat)
    requires Consistent(st) && s in st.forward
    ensures Tombstoned(st, State(st.ids[s := None], st.forward - {s}, RemoveSlot(st.reverse, st.forward[s], s)), s)
  {
    forall t | t in st.reverse && t !in st.forward[s] ensures s !in st.reverse[t] {
      assert ReverseSound(st);
    }
  }

  /**
   * `delete(id)`: tombstone the slot holding `id`, drop its forward entry and
   * filter it out of the buckets of its tokens; no effect when `id` is not live.
   */
  function Delete<Id(==)>(st: State<Id>, id: Id): (r: State<Id>)
    requires Consistent(st)
    ensures Consistent(r)
    ensures |r.ids| == |st.ids|
    ensures r.reverse.Keys == st.reverse.Keys
    ensures Some(id) !in r.ids
    ensures Some(id) !in st.ids ==> r == st
  {
    match FindSlot(st.ids, id)
    case None => st
    case Some(s) =>
      var r := State(st.ids[s := None], st.forward - {s}, RemoveSlot(st.reverse, st.forward[s], s));
      RemoveSlotTombstones(st, s);
      TombstoneConsistent(st, r, s);
      OnlySlot(st.ids, id, s);
      r
  }

  /** What deleting a live identifier does: its slot is emptied everywhere, and nothing else changes. */
  lemma DeleteEffect<Id>(st: State<Id>, id: Id, s: nat)
    requires Consistent(st) && s < |st.ids| && st.ids[s] == Some(id)
    ensures Delete(st, id).ids == st.ids[s := None]
    ensures Delete(st, id).forward == st.forward - {s}
    ensures forall t :: t in st.reverse ==> Delete(st, id).reverse[t] == Without(st.reverse[t], s)
    ensures forall t :: t in st.reverse && s !in st.reverse[t] ==> Delete(st, id).reverse[t] == st.reverse[t]
    ensures forall t :: t in Delete(st, id).reverse ==> s !in Delete(st, id).reverse[t]
  {
    FindSlotUnique(st.ids, id, s);
    RemoveSlotTombstones(st, s);
  }

  /** Deleting twice is deleting once. */
  lemma DeleteIdempotent<Id>(st: State<Id>, id: Id)
    requires Consistent(st)
    ensures Delete(Delete(st, id), id) == Delete(st, id)
  {
  }

  /** The second half of `insert_tokens`: a fresh slot at the end of `ids` holding `toks`. */
  function Place<Id>(st: State<Id>, id: Id, toks: seq<string>): State<Id>
  {
    var slot := |st.ids|;
    State(st.ids + [Some(id)], st.forward[slot := toks], AddSlot(st.reverse, toks, slot))
  }

  lemma PlaceConsistent<Id>(st: State<Id>, id: Id, toks: seq<string>)
    requires Consistent(st) && Some(id) !in st.ids && StrictlySorted(toks)
    ensures Consistent(Place(st, id, toks))
  {
    PlaceForward(st, id, toks);
    PlaceBuckets(st, id, toks);
    PlaceSound(st, id, toks);
    PlaceUnique(st, id, toks);
  }

  /** The fresh slot is live with the given tokens; the other slots keep theirs. */
  lemma PlaceForward<Id>(st: State<Id>, id: Id, toks: seq<string>)
    requires ForwardLive(st) && ReverseComplete(st) && EntriesSorted(st) && StrictlySorted(toks)
    ensures ForwardLive(Place(st, id, toks)) && ReverseComplete(Place(st, id, toks)) && EntriesSorted(Place(st, id, toks))
  {
  }

  /** Each bucket of the new state: the old bucket, plus the fresh slot when the token is one of `toks`. */
  lemma PlaceBucketAt<Id>(st: State<Id>, id: Id, toks: seq<string>, t: string)
    requires t in Place(st, id, toks).reverse
    ensures Place(st, id, toks).reverse[t] == if t in toks then Bucket(st.reverse, t) + [|st.ids|] else st.reverse[t]
  {
  }

  /** Buckets only gain the fresh slot, which no bucket held before. */
  lemma PlaceBuckets<Id>(st: State<Id>, id: Id, toks: seq<string>)
    requires ForwardLive(st) && ReverseSound(st) && BucketsDistinct(st)
    ensures BucketsDistinct(Place(st, id, toks))
  {
    var slot := |st.ids|;
    var r := Place(st, id, toks);
    assert slot !in st.forward;
    forall t | t in r.reverse ensures NoDup(r.reverse[t]) {
      PlaceBucketAt(st, id, toks, t);
      if t in toks && t in st.reverse {
        assert slot !in st.reverse[t];
      }
    }
  }

  /** Every slot in a bucket of the new state holds the bucket's token. */
  lemma PlaceSound<Id>(st: State<Id>, id: Id, toks: seq<string>)
    requires ForwardLive(st) && ReverseSound(st)
    ensures ReverseSound(Place(st, id, toks))
  {
    var slot := |st.ids|;
    var r := Place(st, id, toks);
    assert slot !in st.forward;
    assert forall t :: t in st.reverse ==> slot !in st.reverse[t];
    forall t, s: nat | t in r.reverse && s in r.reverse[t] ensures s in r.forward && t in r.forward[s] {
      PlaceBucketAt(st, id, toks, t);
      if s != slot {
        assert s in st.reverse[t];
      }
    }
  }

  /** The appended identifier was live nowhere, so identifiers stay unique. */
  lemma PlaceUnique<Id>(st: State<Id>, id: Id, toks: seq<string>)
    requires UniqueIds(st.ids) && Some(id) !in st.ids
    ensures UniqueIds(Place(st, id, toks).ids)
  {
    var slot := |st.ids|;
    var r := Place(st, id, toks);
    forall j, k | 0 <= j < k < |r.ids| && r.ids[j].Some? ensures r.ids[j] != r.ids[k] {
      if k == slot {
        assert st.ids[j] in st.ids;
      } else {
        assert st.ids[j] != st.ids[k];
      }
    }
  }

  /**
   * `insert_tokens(id, frags)`: delete any live entry for `id`, then give the
   * sorted, deduplicated tokens of `frags` a fresh slot at the end of `ids`.
   */
  function InsertTokens<Id(==)>(st: State<Id>, o: SearchOptions, id: Id, frags: seq<string>): (r: State<Id>)
    requires Consistent(st)
    ensures Consistent(r)
    ensures |r.ids| == |st.ids| + 1 && r.ids[|st.ids|] == Some(id)
    ensures r.ids[..|st.ids|] == Delete(st, id).ids
    ensures |st.ids| in r.forward && r.forward[|st.ids|] == Canon(Tokens(o, frags))
    ensures st.reverse.Keys <= r.reverse.Keys
  {
    var d := Delete(st, id);
    PlaceConsistent(d, id, Canon(Tokens(o, frags)));
    Place(d, id, Canon(Tokens(o, frags)))
  }

  /** After a re-insert the identifier lives only in the new slot, which holds only the new content's tokens. */
  lemma ReinsertReplaces<Id>(st: State<Id>, o: SearchOptions, id: Id, frags: seq<string>, s: nat)
    requires Consistent(st)
    requires s < |InsertTokens(st, o, id, frags).ids| && InsertTokens(st, o, id, frags).ids[s] == Some(id)
    ensures s == |st.ids|
    ensures InsertTokens(st, o, id, frags).forward[s] == Canon(Tokens(o, frags))
  {
    var r := InsertTokens(st, o, id, frags);
    assert forall j :: 0 <= j < |st.ids| ==> r.ids[j] != r.ids[|st.ids|];
  }

  /**
   * What an insert leaves alone: after the delete, it only pushes one slot,
   * records that slot's tokens and appends the slot to those tokens' buckets.
   */
  lemma InsertEffect<Id>(st: State<Id>, o: SearchOptions, id: Id, frags: seq<string>)
    requires Consistent(st)
    ensures var d, toks := Delete(st, id), Canon(Tokens(o, frags));
            var r := InsertTokens(st, o, id, frags);
            && r.ids == d.ids + [Some(id)]
            && r.forward == d.forward[|st.ids| := toks]
            && r.reverse.Keys == d.reverse.Keys + (set t | t in toks)
            && forall t :: t in r.reverse ==> r.reverse[t] == if t in toks then Bucket(d.reverse, t) + [|st.ids|] else d.reverse[t]
  {
    var d, toks := Delete(st, id), Canon(Tokens(o, frags));
    assert InsertTokens(st, o, id, frags) == Place(d, id, toks);
    assert |d.ids| == |st.ids|;
    forall t | t in Place(d, id, toks).reverse
      ensures Place(d, id, toks).reverse[t] == if t in toks then Bucket(d.reverse, t) + [|st.ids|] else d.reverse[t]
    {
      PlaceBucketAt(d, id, toks, t);
    }
  }

  /** An insert keeps the forward entry of every live slot holding another identifier. */
  lemma InsertKeepsOthers<Id>(st: State<Id>, o: SearchOptions, id: Id, frags: seq<string>)
    requires Consistent(st)
    ensures forall s :: s in st.forward && st.ids[s] != Some(id) ==>
              s in InsertTokens(st, o, id, frags).forward && InsertTokens(st, o, id, frags).forward[s] == st.forward[s]
  {
    var d := Delete(st, id);
    assert InsertTokens(st, o, id, frags).forward == d.forward[|st.ids| := Canon(Tokens(o, frags))];
    forall s | s in st.forward && st.ids[s] != Some(id) ensures s in d.forward && d.forward[s] == st.forward[s] && s != |st.ids| {
      DeleteKeepsOther(st, id, s);
    }
  }

  /** A delete keeps the forward entry of a live slot holding another identifier. */
  lemma DeleteKeepsOther<Id>(st: State<Id>, id: Id, s: nat)
    requires Consistent(st) && s in st.forward && st.ids[s] != Some(id)
    ensures s < |st.ids| && s in Delete(st, id).forward && Delete(st, id).forward[s] == st.forward[s]
  {
    assert ForwardLive(st);
    match FindSlot(st.ids, id)
    case None =>
    case Some(k) =>
      assert Delete(st, id).forward == st.forward - {k};
  }

  // ---------------------------------------------------------------------------
  // Any sequence of inserts and deletes

  datatype Op<Id> = InsertOp(id: Id, frags: seq<string>) | DeleteOp(id: Id)

  /** One operation: `insert_tokens` or `delete`. */
  function Apply<Id(==)>(st: State<Id>, o: SearchOptions, op: Op<Id>): (r: State<Id>)
    requires Consistent(st)
    ensures Consistent(r)
    ensures st.reverse.Keys <= r.reverse.Keys
    ensures |st.ids| <= |r.ids|
  {
    match op
    case InsertOp(id, frags) => InsertTokens(st, o, id, frags)
    case DeleteOp(id) => Delete(st, id)
  }

  /** The state after applying `ops` in order; consistency holds throughout and no token key is ever dropped. */
  function Run<Id(==)>(st: State<Id>, o: SearchOptions, ops: seq<Op<Id>>): (r: State<Id>)
    requires Consistent(st)
    ensures Consistent(r)
    ensures st.reverse.Keys <= r.reverse.Keys
    ensures |st.ids| <= |r.ids|
    decreases |ops|
  {
    if ops == [] then st else Run(Apply(st, o, ops[0]), o, ops[1..])
  }

  /** From a new engine, after any operations each identifier is live in at most one slot, and a slot has tokens exactly when it is live. */
  lemma RunFromEmpty<Id>(o: SearchOptions, ops: seq<Op<Id>>)
    ensures UniqueIds(Run(Empty<Id>(), o, ops).ids)
    ensures forall s: nat :: s in Run(Empty<Id>(), o, ops).forward <==> s < |Run(Empty<Id>(), o, ops).ids| && Run(Empty<Id>(), o, ops).ids[s].Some?
  {
    EmptyConsistent<Id>();
    var r := Run(Empty<Id>(), o, ops);
  }

  // ---------------------------------------------------------------------------
  // Scoring

  /**
   * The score `token_scores` holds for the vocabulary token `v` after the
   * loop over the sorted query tokens `q`: `insert` overwrites, so it is the
   * score against the LAST query token that beats the threshold.
   */
  function TokenScore(v: string, q: seq<string>, sim: (string, string) -> real, threshold: real): Option<real>
  {
    if q == [] then None
    else if sim(v, q[|q| - 1]) > threshold then Some(sim(v, q[|q| - 1]))
    else TokenScore(v, q[..|q| - 1], sim, threshold)
  }

  /**
   * A token has a score exactly when some query token beats the threshold,
   * and then it is the score against the last such query token.
   */
  lemma {:induction false} TokenScoreSpec(v: string, q: seq<string>, sim: (string, string) -> real, threshold: real)
    ensures TokenScore(v, q, sim, threshold).None? <==> forall k :: 0 <= k < |q| ==> sim(v, q[k]) <= threshold
    ensures TokenScore(v, q, sim, threshold).Some? ==>
      exists k :: 0 <= k < |q| && TokenScore(v, q, sim, threshold).value == sim(v, q[k]) && sim(v, q[k]) > threshold &&
                  forall k' :: k < k' < |q| ==> sim(v, q[k']) <= threshold
  {
    if q != [] && sim(v, q[|q| - 1]) <= threshold {
      TokenScoreSpec(v, q[..|q| - 1], sim, threshold);
      assert forall k :: 0 <= k < |q| - 1 ==> q[..|q| - 1][k] == q[k];
    }
  }

  /** One more query token: the step of the loop over the query. */
  lemma TokenScoreStep(v: string, q: seq<string>, i: nat, sim: (string, string) -> real, threshold: real)
    requires i < |q|
    ensures TokenScore(v, q[..i + 1], sim, threshold)
         == if sim(v, q[i]) > threshold then Some(sim(v, q[i])) else TokenScore(v, q[..i], sim, threshold)
  {
    assert q[..i + 1][i] == q[i];
    assert q[..i + 1][..i] == q[..i];
  }

  /**
   * `token_scores` part-way through the pass for the query token `q[i]`: the
   * vocabulary tokens no longer `pending` have been compared with it.
   */
  function PartialScores(vocab: set<string>, pending: set<string>, q: seq<string>, i: nat, sim: (string, string) -> real, threshold: real): map<string, real>
    requires i < |q|
  {
    map v | v in vocab && TokenScore(v, Seen(v, pending, q, i), sim, threshold).Some? ::
      TokenScore(v, Seen(v, pending, q, i), sim, threshold).value
  }

  /** The query tokens `v` has been compared with so far. */
  function Seen(v: string, pending: set<string>, q: seq<string>, i: nat): seq<string>
    requires i < |q|
  {
    if v in pending then q[..i] else q[..i + 1]
  }

  lemma PartialScoresStart(vocab: set<string>, q: seq<string>, i: nat, sim: (string, string) -> real, threshold: real)
    requires i < |q|
    ensures PartialScores(vocab, vocab, q, i, sim, threshold) == Scores(vocab, q[..i], sim, threshold)
  {
  }

  /** Comparing one more vocabulary token `v` with `q[i]` records its score when it beats the threshold. */
  lemma PartialScoresStep(vocab: set<string>, pending: set<string>, q: seq<string>, i: nat, sim: (string, string) -> real, threshold: real, v: string)
    requires i < |q| && v in pending && pending <= vocab
    ensures PartialScores(vocab, pending - {v}, q, i, sim, threshold)
         == if sim(v, q[i]) > threshold then PartialScores(vocab, pending, q, i, sim, threshold)[v := sim(v, q[i])]
            else PartialScores(vocab, pending, q, i, sim, threshold)
  {
    TokenScoreStep(v, q, i, sim, threshold);
    var before := PartialScores(vocab, pending, q, i, sim, threshold);
    var after := PartialScores(vocab, pending - {v}, q, i, sim, threshold);
    var expected := if sim(v, q[i]) > threshold then before[v := sim(v, q[i])] else before;
    assert Seen(v, pending - {v}, q, i) == q[..i + 1] && Seen(v, pending, q, i) == q[..i];
    forall w | w in vocab
      ensures (w in after <==> w in expected) && (w in after ==> after[w] == expected[w])
    {
      if w != v {
        assert Seen(w, pending - {v}, q, i) == Seen(w, pending, q, i);
      }
    }
    assert after.Keys == expected.Keys;
  }

  lemma PartialScoresEnd(vocab: set<string>, q: seq<string>, i: nat, sim: (string, string) -> real, threshold: real)
    requires i < |q|
    ensures PartialScores(vocab, {}, q, i, sim, threshold) == Scores(vocab, q[..i + 1], sim, threshold)
  {
  }

  /** Some query token is similar enough to `v`. */
  ghost predicate Qualifies(v: string, q: seq<string>, sim: (string, string) -> real, threshold: real)
  {
    exists k :: 0 <= k < |q| && sim(v, q[k]) > threshold
  }

  /** `token_scores` after the first loop: the qualifying vocabulary tokens and their scores. */
  function Scores(vocab: set<string>, q: seq<string>, sim: (string, string) -> real, threshold: real): map<string, real>
  {
    map v | v in vocab && TokenScore(v, q, sim, threshold).Some? :: TokenScore(v, q, sim, threshold).value
  }

  /** The slots in the buckets of the tokens in `tv`. */
  ghost function HitsIn(tv: set<string>, rev: map<string, seq<nat>>): set<nat>
  {
    set v, s | v in tv && v in rev && s in rev[v] :: s
  }

  /** The tokens in `tv` whose bucket holds the slot `s`. */
  ghost function ContribIn(tv: set<string>, rev: map<string, seq<nat>>, s: nat): set<string>
  {
    set v | v in tv && v in rev && s in rev[v]
  }

  function Get0<K>(m: map<K, real>, k: K): real
  {
    if k in m then m[k] else 0.0
  }

  /** The sum of `scores` over the tokens of `tv` (the sum does not depend on the order; see SumScoresPick). */
  ghost function SumScores(tv: set<string>, scores: map<string, real>): real
    decreases tv
  {
    if tv == {} then 0.0
    else
      var v :| v in tv;
      Get0(scores, v) + SumScores(tv - {v}, scores)
  }

  /** Any element may be taken out first: the order in which `drain` yields the tokens does not change the totals. */
  lemma {:induction false} SumScoresPick(tv: set<string>, scores: map<string, real>, x: string)
    requires x in tv
    ensures SumScores(tv, scores) == Get0(scores, x) + SumScores(tv - {x}, scores)
    decreases tv
  {
    var v :| v in tv && SumScores(tv, scores) == Get0(scores, v) + SumScores(tv - {v}, scores);
    if v != x {
      SumScoresPick(tv - {v}, scores, x);
      SumScoresPick(tv - {x}, scores, v);
      assert tv - {v} - {x} == tv - {x} - {v};
    }
  }

  lemma SumScoresAdd(tv: set<string>, scores: map<string, real>, x: string)
    requires x !in tv
    ensures SumScores(tv + {x}, scores) == Get0(scores, x) + SumScores(tv, scores)
  {
    SumScoresPick(tv + {x}, scores, x);
    assert tv + {x} - {x} == tv;
  }

  lemma NoHitNoContribution(tv: set<string>, rev: map<string, seq<nat>>, s: nat)
    requires s !in HitsIn(tv, rev)
    ensures ContribIn(tv, rev, s) == {}
  {
  }

  /** One more token's bucket joins the hits. */
  lemma HitsAdd(tv: set<string>, rev: map<string, seq<nat>>, v: string)
    requires v in rev
    ensures HitsIn(tv + {v}, rev) == HitsIn(tv, rev) + (set x | x in rev[v])
  {
  }

  /** One more token adds its score to the slots in its bucket. */
  lemma ContribAdd(tv: set<string>, rev: map<string, seq<nat>>, s: nat, scores: map<string, real>, v: string)
    requires v !in tv && v in rev
    ensures SumScores(ContribIn(tv + {v}, rev, s), scores)
         == SumScores(ContribIn(tv, rev, s), scores) + (if s in rev[v] then Get0(scores, v) else 0.0)
  {
    if s in rev[v] {
      assert ContribIn(tv + {v}, rev, s) == ContribIn(tv, rev, s) + {v};
      SumScoresAdd(ContribIn(tv, rev, s), scores, v);
    } else {
      assert ContribIn(tv + {v}, rev, s) == ContribIn(tv, rev, s);
    }
  }

  /** `result_scores` once the tokens of `tv` have been drained. */
  ghost function Totals(tv: set<string>, rev: map<string, seq<nat>>, scores: map<string, real>): map<nat, real>
  {
    map s | s in HitsIn(tv, rev) :: SumScores(ContribIn(tv, rev, s), scores)
  }

  /** `acc` after `*entry(s).or_insert(0.) += x` for every slot `s` of `b`. */
  function AddAll(acc: map<nat, real>, b: seq<nat>, x: real): map<nat, real>
  {
    map s | s in acc.Keys + (set y | y in b) :: Get0(acc, s) + (if s in b then x else 0.0)
  }

  lemma AddAllStart(acc: map<nat, real>, x: real)
    ensures AddAll(acc, [], x) == acc
  {
  }

  /** One more slot of the bucket. */
  lemma AddAllStep(acc: map<nat, real>, b: seq<nat>, k: nat, x: real)
    requires NoDup(b) && k < |b|
    ensures AddAll(acc, b[..k + 1], x) == AddAll(acc, b[..k], x)[b[k] := Get0(AddAll(acc, b[..k], x), b[k]) + x]
  {
    assert b[k] !in b[..k];
    assert b[..k + 1] == b[..k] + [b[k]];
  }

  /** Draining one more token adds its score to the totals of exactly the slots in its bucket. */
  lemma TotalsAdd(tv: set<string>, rev: map<string, seq<nat>>, scores: map<string, real>, v: string)
    requires v !in tv && v in rev
    ensures AddAll(Totals(tv, rev, scores), rev[v], Get0(scores, v)) == Totals(tv + {v}, rev, scores)
  {
    var before := Totals(tv, rev, scores);
    var after := Totals(tv + {v}, rev, scores);
    var sum := AddAll(before, rev[v], Get0(scores, v));
    HitsAdd(tv, rev, v);
    forall s | s in after ensures s in sum && sum[s] == after[s] {
      ContribAdd(tv, rev, s, scores, v);
      if s !in HitsIn(tv, rev) {
        NoHitNoContribution(tv, rev, s);
      }
    }
    assert sum.Keys == after.Keys;
  }

  /** The totals after draining every scored token: one per hit slot, each its `Total`. */
  lemma TotalsMeaning(scores: map<string, real>, rev: map<string, seq<nat>>)
    ensures Totals(scores.Keys, rev, scores).Keys == HitsIn(scores.Keys, rev)
    ensures forall s :: s in Totals(scores.Keys, rev, scores) ==> Totals(scores.Keys, rev, scores)[s] == Total(scores, rev, s)
  {
  }

  /** The total of slot `s`: one score per qualifying token whose bucket holds `s`. */
  ghost function Total(scores: map<string, real>, rev: map<string, seq<nat>>, s: nat): real
  {
    SumScores(ContribIn(scores.Keys, rev, s), scores)
  }

  /** The query tokens of `search_tokens`: tokenized, sorted and deduplicated. */
  function Query(o: SearchOptions, frags: seq<string>): seq<string>
  {
    Canon(Tokens(o, frags))
  }

  function QueryScores<Id>(st: State<Id>, o: SearchOptions, frags: seq<string>, sim: (string, string) -> real): map<string, real>
  {
    Scores(st.reverse.Keys, Query(o, frags), sim, o.threshold)
  }

  /** The slots that `search_tokens(frags)` ranks. */
  ghost function Matches<Id>(st: State<Id>, o: SearchOptions, frags: seq<string>, sim: (string, string) -> real): set<nat>
  {
    HitsIn(QueryScores(st, o, frags, sim).Keys, st.reverse)
  }

  /** `id` is among the identifiers `search_tokens(frags)` returns. */
  ghost predicate Found<Id>(st: State<Id>, o: SearchOptions, frags: seq<string>, sim: (string, string) -> real, id: Id)
  {
    exists s :: s in Matches(st, o, frags, sim) && s < |st.ids| && st.ids[s] == Some(id)
  }

  /** Every slot in a bucket is live, so mapping the ranked slots back to ids never fails (the `expect` at src/lib.rs:211). */
  lemma HitsAreLive<Id>(st: State<Id>, tv: set<string>)
    requires Consistent(st)
    ensures forall s :: s in HitsIn(tv, st.reverse) ==> s in st.forward && s < |st.ids| && st.ids[s].Some?
  {
    forall s | s in HitsIn(tv, st.reverse) ensures s in st.forward && s < |st.ids| && st.ids[s].Some? {
      var v :| v in tv && v in st.reverse && s in st.reverse[v];
      assert s in st.forward;
    }
  }

  /** A slot is ranked exactly when it is live and holds a vocabulary token similar enough to some query token. */
  lemma HitsCharacterized<Id>(st: State<Id>, q: seq<string>, sim: (string, string) -> real, threshold: real)
    requires Consistent(st)
    ensures forall s: nat :: s in HitsIn(Scores(st.reverse.Keys, q, sim, threshold).Keys, st.reverse) <==>
                               s in st.forward && exists v :: v in st.forward[s] && Qualifies(v, q, sim, threshold)
  {
    var sc := Scores(st.reverse.Keys, q, sim, threshold);
    forall v ensures TokenScore(v, q, sim, threshold).Some? <==> Qualifies(v, q, sim, threshold) {
      TokenScoreSpec(v, q, sim, threshold);
    }
    forall s: nat ensures s in HitsIn(sc.Keys, st.reverse) <==> s in st.forward && exists v :: v in st.forward[s] && Qualifies(v, q, sim, threshold) {
      if s in st.forward && exists v :: v in st.forward[s] && Qualifies(v, q, sim, threshold) {
        var v :| v in st.forward[s] && Qualifies(v, q, sim, threshold);
        assert v in sc;
      }
    }
  }

  /** The total of a live slot adds up the scores of its own qualifying tokens. */
  lemma ContributorsAreOwnTokens<Id>(st: State<Id>, scores: map<string, real>, s: nat)
    requires Consistent(st) && s in st.forward
    ensures ContribIn(scores.Keys, st.reverse, s) == set v | v in st.forward[s] && v in scores
  {
  }

  /** Raising the threshold never adds a slot to the result. */
  lemma {:induction false} ThresholdMonotone<Id>(st: State<Id>, q: seq<string>, sim: (string, string) -> real, low: real, high: real)
    requires low <= high
    ensures HitsIn(Scores(st.reverse.Keys, q, sim, high).Keys, st.reverse) <= HitsIn(Scores(st.reverse.Keys, q, sim, low).Keys, st.reverse)
  {
    var sh := Scores(st.reverse.Keys, q, sim, high);
    var sl := Scores(st.reverse.Keys, q, sim, low);
    forall v | v in sh ensures v in sl {
      TokenScoreSpec(v, q, sim, high);
      TokenScoreSpec(v, q, sim, low);
      var k :| 0 <= k < |q| && sim(v, q[k]) > high;
      assert sim(v, q[k]) > low;
    }
  }

  /**
   * An identifier is found exactly when it is live in a slot one of whose
   * tokens is similar enough to some query token.
   */
  lemma FoundCharacterized<Id>(st: State<Id>, o: SearchOptions, frags: seq<string>, sim: (string, string) -> real, id: Id)
    requires Consistent(st)
    ensures Found(st, o, frags, sim, id) <==>
      exists s: nat :: s in st.forward && st.ids[s] == Some(id) && LiveHit(st, s, Query(o, frags), sim, o.threshold)
  {
    HitsCharacterized(st, Query(o, frags), sim, o.threshold);
  }

  /** Slot `s` holds a token similar enough to some query token. */
  ghost predicate LiveHit<Id>(st: State<Id>, s: nat, q: seq<string>, sim: (string, string) -> real, threshold: real)
    requires s in st.forward
  {
    exists v :: v in st.forward[s] && Qualifies(v, q, sim, threshold)
  }

  /** Searching with the very fragments just inserted finds the identifier, provided one of their tokens is similar enough to itself. */
  lemma InsertThenSearchFinds<Id>(st: State<Id>, o: SearchOptions, id: Id, frags: seq<string>, sim: (string, string) -> real, t: string)
    requires Consistent(st)
    requires t in Tokens(o, frags) && sim(t, t) > o.threshold
    ensures Found(InsertTokens(st, o, id, frags), o, frags, sim, id)
  {
    var r := InsertTokens(st, o, id, frags);
    var q := Query(o, frags);
    assert t in q;
    var k :| 0 <= k < |q| && q[k] == t;
    assert Qualifies(t, q, sim, o.threshold);
    HitsCharacterized(r, q, sim, o.threshold);
    assert |st.ids| in Matches(r, o, frags, sim);
  }

  /** After `delete(id)` no search finds `id`. */
  lemma DeletedNeverFound<Id>(st: State<Id>, id: Id, o: SearchOptions, frags: seq<string>, sim: (string, string) -> real)
    requires Consistent(st)
    ensures !Found(Delete(st, id), o, frags, sim, id)
  {
    var d := Delete(st, id);
    assert forall s :: 0 <= s < |d.ids| ==> d.ids[s] in d.ids;
  }
}
