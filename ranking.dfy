/**
 * The ranking step of `search_tokens`: `(slot, total)` pairs sorted by
 * non-increasing total, as `sort_by(|l, r| r.1.partial_cmp(&l.1))` leaves
 * them. `sort_by` is a stable sort; it is modelled by a stable insertion sort.
 */
module Ranking {
  import opened Text

  type Scored = (nat, real)

  predicate SortedDesc(ps: seq<Scored>)
  {
    forall j, k :: 0 <= j < k < |ps| ==> ps[j].1 >= ps[k].1
  }

  /** The slots of `ps`, in order. */
  function Slots(ps: seq<Scored>): (r: seq<nat>)
    ensures |r| == |ps| && forall k :: 0 <= k < |ps| ==> r[k] == ps[k].0
  {
    seq(|ps|, k requires 0 <= k < |ps| => ps[k].0)
  }

  /** Insert `p` after every pair scoring at least as much as it does. */
  function InsertDesc(p: Scored, ps: seq<Scored>): (r: seq<Scored>)
    ensures multiset(r) == multiset(ps) + multiset{p}
  {
    if ps == [] then [p]
    else if ps[0].1 >= p.1 then
      assert ps == [ps[0]] + ps[1..];
      [ps[0]] + InsertDesc(p, ps[1..])
    else
      [p] + ps
  }

  /** Inserting into a descending sequence keeps it descending. */
  lemma {:induction false} InsertDescSorted(p: Scored, ps: seq<Scored>)
    requires SortedDesc(ps)
    ensures SortedDesc(InsertDesc(p, ps))
  {
    if ps != [] && ps[0].1 >= p.1 {
      assert ps == [ps[0]] + ps[1..];
      var rest := InsertDesc(p, ps[1..]);
      InsertDescSorted(p, ps[1..]);
      assert forall x :: x in rest ==> x in multiset(ps[1..]) + multiset{p};
      ConsSorted(ps[0], ps[1..], p, rest);
    }
  }

  lemma ConsSorted(h: Scored, tail: seq<Scored>, p: Scored, rest: seq<Scored>)
    requires SortedDesc([h] + tail) && h.1 >= p.1
    requires SortedDesc(rest) && forall x :: x in rest ==> x in tail || x == p
    ensures SortedDesc([h] + rest)
  {
    forall k | 0 <= k < |rest| ensures h.1 >= rest[k].1 {
      assert rest[k] in rest;
      if rest[k] != p {
        var j :| 0 <= j < |tail| && tail[j] == rest[k];
        assert ([h] + tail)[0] == h && ([h] + tail)[j + 1] == tail[j];
      }
    }
  }

  /** Inserting a new pair into a sequence without repeats gives one without repeats. */
  lemma {:induction false} InsertDescNoDup(p: Scored, ps: seq<Scored>)
    requires NoDup(ps) && p !in ps
    ensures NoDup(InsertDesc(p, ps))
  {
    if ps != [] && ps[0].1 >= p.1 {
      assert ps == [ps[0]] + ps[1..];
      var rest := InsertDesc(p, ps[1..]);
      InsertDescNoDup(p, ps[1..]);
      assert forall x :: x in rest ==> x in multiset(ps[1..]) + multiset{p};
      assert ps[0] !in rest;
      assert forall k :: 0 <= k < |rest| ==> rest[k] in rest;
    }
  }

  /** The pairs of `ps` ordered by non-increasing score: a permutation of `ps`. */
  function SortDesc(ps: seq<Scored>): (r: seq<Scored>)
    ensures multiset(r) == multiset(ps)
  {
    if ps == [] then []
    else
      var init := ps[..|ps| - 1];
      assert ps == init + [ps[|ps| - 1]];
      InsertDesc(ps[|ps| - 1], SortDesc(init))
  }

  /** The sort keeps exactly the pairs of its input. */
  lemma SortDescMembers(ps: seq<Scored>)
    ensures forall x :: x in SortDesc(ps) <==> x in ps
  {
    var r := SortDesc(ps);
    forall x ensures x in r <==> x in ps {
      assert x in r <==> x in multiset(r);
      assert x in ps <==> x in multiset(ps);
    }
  }

  /** The sort's result is descending. */
  lemma {:induction false} SortDescSorted(ps: seq<Scored>)
    ensures SortedDesc(SortDesc(ps))
  {
    if ps != [] {
      var init := ps[..|ps| - 1];
      SortDescSorted(init);
      InsertDescSorted(ps[|ps| - 1], SortDesc(init));
    }
  }

  /** The sort's result has no repeats when its input has none. */
  lemma {:induction false} SortDescNoDup(ps: seq<Scored>)
    requires NoDup(ps)
    ensures NoDup(SortDesc(ps))
  {
    if ps != [] {
      var init := ps[..|ps| - 1];
      assert ps == init + [ps[|ps| - 1]];
      assert forall j, k :: 0 <= j < k < |init| ==> init[j] == ps[j] && init[k] == ps[k];
      SortDescNoDup(init);
      assert ps[|ps| - 1] !in multiset(init);
      InsertDescNoDup(ps[|ps| - 1], SortDesc(init));
    }
  }

  /** Sorting pairs that are already in order changes nothing: the sort is stable. */
  lemma {:induction false} SortDescOfSorted(ps: seq<Scored>)
    requires SortedDesc(ps)
    ensures SortDesc(ps) == ps
  {
    if ps != [] {
      var last := ps[|ps| - 1];
      var init := ps[..|ps| - 1];
      SortedAllButLast(ps, init);
      SortDescOfSorted(init);
      InsertLastDesc(last, init);
      calc {
        SortDesc(ps);
        InsertDesc(last, SortDesc(init));
        InsertDesc(last, init);
        init + [last];
        ps;
      }
    }
  }

  lemma SortedAllButLast(ps: seq<Scored>, init: seq<Scored>)
    requires SortedDesc(ps) && ps != [] && init == ps[..|ps| - 1]
    ensures SortedDesc(init)
    ensures forall k :: 0 <= k < |init| ==> init[k].1 >= ps[|ps| - 1].1
  {
    assert forall k :: 0 <= k < |init| ==> init[k] == ps[k];
  }

  /** Inserting a pair that scores no more than any other puts it last. */
  lemma {:induction false} InsertLastDesc(p: Scored, ps: seq<Scored>)
    requires forall k :: 0 <= k < |ps| ==> ps[k].1 >= p.1
    ensures InsertDesc(p, ps) == ps + [p]
  {
    if ps != [] {
      InsertLastDesc(p, ps[1..]);
      assert ps == [ps[0]] + ps[1..];
    }
  }

  /** Every pair records the score `totals` gives its slot. */
  predicate ScoresOf(ps: seq<Scored>, totals: map<nat, real>)
  {
    forall k :: 0 <= k < |ps| ==> ps[k].0 in totals && ps[k].1 == totals[ps[k].0]
  }

  /** `drain().collect()`: the entries of `totals` as pairs, one per slot, in an unspecified order. */
  method Collect(totals: map<nat, real>) returns (ps: seq<Scored>)
    ensures ScoresOf(ps, totals)
    ensures forall s :: s in Slots(ps) <==> s in totals
    ensures NoDup(Slots(ps))
  {
    ps := [];
    var rest := totals.Keys;
    while rest != {}
      invariant rest <= totals.Keys
      invariant ScoresOf(ps, totals)
      invariant forall s :: s in totals ==> (s in Slots(ps) <==> s !in rest)
      invariant NoDup(Slots(ps))
      decreases |rest|
    {
      var s :| s in rest;
      assert Slots(ps + [(s, totals[s])]) == Slots(ps) + [s];
      ps := ps + [(s, totals[s])];
      rest := rest - {s};
    }
  }

  /** Pairs with distinct slots are distinct. */
  lemma DistinctSlotsDistinctPairs(ps: seq<Scored>)
    requires NoDup(Slots(ps))
    ensures NoDup(ps)
  {
    forall j, k | 0 <= j < k < |ps| ensures ps[j] != ps[k] {
      assert Slots(ps)[j] != Slots(ps)[k];
    }
  }

  /** Distinct pairs that each carry their slot's own score have distinct slots. */
  lemma DistinctPairsDistinctSlots(ps: seq<Scored>, totals: map<nat, real>)
    requires ScoresOf(ps, totals) && NoDup(ps)
    ensures NoDup(Slots(ps))
  {
    forall j, k | 0 <= j < k < |ps| ensures Slots(ps)[j] != Slots(ps)[k] {
      assert ps[j] != ps[k];
    }
  }

  /**
   * Sorting the collected pairs keeps one pair per slot, each with its own
   * score, and the same slots, in descending order of score.
   */
  lemma SortKeepsSlots(ps: seq<Scored>, totals: map<nat, real>)
    requires ScoresOf(ps, totals) && NoDup(Slots(ps))
    ensures ScoresOf(SortDesc(ps), totals)
    ensures forall s :: s in Slots(SortDesc(ps)) <==> s in totals && s in Slots(ps)
    ensures NoDup(Slots(SortDesc(ps)))
    ensures SortedDesc(SortDesc(ps))
  {
    var r := SortDesc(ps);
    SortDescSorted(ps);
    DistinctSlotsDistinctPairs(ps);
    SortDescNoDup(ps);
    SortDescMembers(ps);
    forall k | 0 <= k < |r| ensures r[k].0 in totals && r[k].1 == totals[r[k].0] {
      assert r[k] in ps;
    }
    DistinctPairsDistinctSlots(r, totals);
    forall s ensures s in Slots(r) <==> s in totals && s in Slots(ps) {
      if s in Slots(r) {
        var k :| 0 <= k < |r| && r[k].0 == s;
        assert r[k] in ps;
      }
      if s in Slots(ps) {
        var k :| 0 <= k < |ps| && ps[k].0 == s;
        assert ps[k] in r;
      }
    }
  }
}
