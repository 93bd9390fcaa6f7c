/**
 * Strings as sequences of characters: the order Rust's `String` sorts by,
 * sorting with deduplication (`sort` followed by `dedup`), and substring search.
 */
module Text {
  import opened Wrappers

  predicate NoDup<T(==)>(s: seq<T>)
  {
    forall j, k :: 0 <= j < k < |s| ==> s[j] != s[k]
  }

  /** Lexicographic order by code point: the order of Rust's `String` (byte order of UTF-8). */
  predicate Less(a: string, b: string)
    decreases |a|
  {
    if a == [] then b != []
    else if b == [] then false
    else if a[0] != b[0] then a[0] < b[0]
    else Less(a[1..], b[1..])
  }

  lemma {:induction false} LessIrreflexive(a: string)
    ensures !Less(a, a)
    decreases |a|
  {
    if a != [] {
      LessIrreflexive(a[1..]);
    }
  }

  lemma {:induction false} LessTransitive(a: string, b: string, c: string)
    requires Less(a, b) && Less(b, c)
    ensures Less(a, c)
    decreases |a|
  {
    if a != [] && a[0] == b[0] && b[0] == c[0] {
      LessTransitive(a[1..], b[1..], c[1..]);
    }
  }

  lemma {:induction false} LessTotal(a: string, b: string)
    ensures a == b || Less(a, b) || Less(b, a)
    decreases |a|
  {
    if a != [] && b != [] && a[0] == b[0] {
      LessTotal(a[1..], b[1..]);
      if a[1..] == b[1..] {
        assert a == [a[0]] + a[1..] && b == [b[0]] + b[1..];
      }
    }
  }

  lemma LessAsymmetric(a: string, b: string)
    requires Less(a, b)
    ensures !Less(b, a)
  {
    if Less(b, a) {
      LessTransitive(a, b, a);
      LessIrreflexive(a);
    }
  }

  predicate StrictlySorted(xs: seq<string>)
  {
    forall j, k :: 0 <= j < k < |xs| ==> Less(xs[j], xs[k])
  }

  lemma StrictlySortedNoDup(xs: seq<string>)
    requires StrictlySorted(xs)
    ensures NoDup(xs)
  {
    forall j, k | 0 <= j < k < |xs| ensures xs[j] != xs[k] {
      LessIrreflexive(xs[j]);
    }
  }

  /** Inserts `t` into a strictly sorted sequence unless it is already there. */
  function InsertSorted(t: string, xs: seq<string>): (r: seq<string>)
    requires StrictlySorted(xs)
    ensures StrictlySorted(r)
    ensures forall u :: u in r <==> u == t || u in xs
  {
    if xs == [] then [t]
    else if t == xs[0] then xs
    else if Less(t, xs[0]) then
      assert forall k :: 0 < k < |xs| ==> Less(t, xs[k]) by {
        forall k | 0 < k < |xs| ensures Less(t, xs[k]) {
          LessTransitive(t, xs[0], xs[k]);
        }
      }
      [t] + xs
    else
      LessTotal(t, xs[0]);
      var rest := InsertSorted(t, xs[1..]);
      assert forall u :: u in rest ==> Less(xs[0], u);
      [xs[0]] + rest
  }

  /**
   * `v.sort(); v.dedup();` on a vector of strings: the strictly increasing
   * sequence holding exactly the elements of `ts`.
   */
  function Canon(ts: seq<string>): (r: seq<string>)
    ensures StrictlySorted(r)
    ensures forall u :: u in r <==> u in ts
  {
    if ts == [] then []
    else InsertSorted(ts[|ts| - 1], Canon(ts[..|ts| - 1]))
  }

  lemma HeadIn<T>(s: seq<T>)
    requires s != []
    ensures s[0] in s
  {
  }

  lemma HeadIsLeast(a: seq<string>)
    requires StrictlySorted(a) && a != []
    ensures forall u :: u in a ==> u == a[0] || Less(a[0], u)
  {
  }

  /** Two strictly sorted sequences with the same elements are equal, so `Canon` is the only result sort-and-dedup can produce. */
  lemma {:induction false} SortedUnique(a: seq<string>, b: seq<string>)
    requires StrictlySorted(a) && StrictlySorted(b)
    requires forall u :: u in a <==> u in b
    ensures a == b
    decreases |a|
  {
    if a != [] && b != [] {
      HeadIsLeast(a);
      HeadIsLeast(b);
      assert a[0] in b && b[0] in a;
      if a[0] != b[0] {
        LessAsymmetric(a[0], b[0]);
      }
      forall u ensures u in a[1..] <==> u in b[1..] {
        if u in a[1..] {
          var k :| 1 <= k < |a| && a[k] == u;
          assert Less(a[0], u);
          LessIrreflexive(u);
          assert u in b && u != b[0];
        }
        if u in b[1..] {
          var k :| 1 <= k < |b| && b[k] == u;
          assert Less(b[0], u);
          LessIrreflexive(u);
          assert u in a && u != a[0];
        }
      }
      SortedUnique(a[1..], b[1..]);
      assert a == [a[0]] + a[1..] && b == [b[0]] + b[1..];
    } else if a != [] {
      HeadIn(a);
      assert false;
    } else if b != [] {
      HeadIn(b);
      assert false;
    }
  }

  /** `w` occurs in `s` starting at position `i`. */
  predicate OccursAt(s: string, w: string, i: nat)
  {
    i + |w| <= |s| && s[i..i + |w|] == w
  }

  /** `w` is a contiguous substring of `s` (Rust's `s.contains(w)`). */
  ghost predicate IsInfix(w: string, s: string)
  {
    exists i: nat :: OccursAt(s, w, i)
  }

  lemma SliceIsInfix(s: string, i: nat, j: nat)
    requires i <= j <= |s|
    ensures IsInfix(s[i..j], s)
  {
    assert OccursAt(s, s[i..j], i);
  }

  lemma InfixTransitive(a: string, b: string, c: string)
    requires IsInfix(a, b) && IsInfix(b, c)
    ensures IsInfix(a, c)
  {
    var i: nat :| OccursAt(b, a, i);
    var j: nat :| OccursAt(c, b, j);
    assert forall k :: 0 <= k < |a| ==> a[k] == b[i + k] == c[j + i + k];
    assert c[j + i..j + i + |a|] == a;
    assert OccursAt(c, a, j + i);
  }

  lemma OccursShift(s: string, w: string, i: nat)
    requires s != []
    ensures OccursAt(s, w, i + 1) <==> OccursAt(s[1..], w, i)
  {
    if i + 1 + |w| <= |s| {
      assert s[i + 1..i + 1 + |w|] == s[1..][i..i + |w|];
    }
  }

  /** The position of the leftmost occurrence of `w` in `s`, as Rust's `str::find`. */
  function Find(s: string, w: string): (r: Option<nat>)
    ensures r.Some? ==> OccursAt(s, w, r.value) && forall i: nat :: i < r.value ==> !OccursAt(s, w, i)
    ensures r.None? ==> forall i: nat :: !OccursAt(s, w, i)
    decreases |s|
  {
    if |s| < |w| then None
    else if s[..|w|] == w then Some(0)
    else
      match Find(s[1..], w)
      case None =>
        assert forall i: nat :: OccursAt(s, w, i + 1) ==> OccursAt(s[1..], w, i) by {
          forall i: nat { OccursShift(s, w, i); }
        }
        assert forall i: nat :: OccursAt(s, w, i) ==> i > 0;
        assert forall i: nat :: !OccursAt(s, w, i) by {
          forall i: nat ensures !OccursAt(s, w, i) {
            if i > 0 { OccursShift(s, w, i - 1); }
          }
        }
        None
      case Some(k) =>
        OccursShift(s, w, k);
        assert forall i: nat :: i < k + 1 ==> !OccursAt(s, w, i) by {
          forall i: nat | i < k + 1 ensures !OccursAt(s, w, i) {
            if i > 0 { OccursShift(s, w, i - 1); }
          }
        }
        Some(k + 1)
  }
}
