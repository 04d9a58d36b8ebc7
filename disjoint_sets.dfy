/**
 * The `DisjointSets` wrapper around a union-find over segment ids, and the
 * agglomeration helpers beside it.
 *
 * The union-find is kept as a representative map: every tracked id maps to
 * the root of its set (the parent map after full path compression). Which
 * of the two roots survives a union is the library's rank rule; here it is
 * left open, and every contract holds for either choice.
 */
module DisjointSets {
  import opened Volume

  type Pair = (SegId, SegId)

  // ---------------------------------------------------------------------
  // Representative maps

  /** Every tracked id maps to a tracked root, and a root maps to itself. */
  predicate Canonical(rep: map<SegId, SegId>) {
    forall k {:trigger rep[k]} :: k in rep ==> rep[k] in rep && rep[rep[k]] == rep[k]
  }

  /**
   * The library's find_set. An untracked id has parent 0 (the value the
   * parent map default-inserts), so it ends where 0 ends: at 0's root when 0
   * is tracked, at 0 otherwise.
   */
  function Root(rep: map<SegId, SegId>, a: SegId): SegId {
    if a in rep then rep[a] else if 0 in rep then rep[0] else 0
  }

  /** DisjointSets::find_set: the root, except that a root of 0 gives back `sid` itself. */
  function FindSetOf(rep: map<SegId, SegId>, sid: SegId): (r: SegId)
    ensures sid > 0 ==> r > 0
    ensures r != sid ==> r == Root(rep, sid) && r != 0
  {
    var root := Root(rep, sid);
    if root == 0 then sid else root
  }

  predicate SameSet(rep: map<SegId, SegId>, a: SegId, b: SegId) {
    a in rep && b in rep && rep[a] == rep[b]
  }

  /** make_set guarded by the rank-map lookup: only an untracked id becomes a singleton. */
  function WithSet(rep: map<SegId, SegId>, s: SegId): (r: map<SegId, SegId>)
    ensures r.Keys == rep.Keys + {s}
    ensures s !in rep ==> r[s] == s
    ensures forall k :: k in rep ==> r[k] == rep[k]
  {
    if s in rep then rep else rep[s := s]
  }

  /** Linking root `from` under root `to`: every member of `from`'s set now maps to `to`. */
  function Linked(rep: map<SegId, SegId>, from: SegId, to: SegId): (r: map<SegId, SegId>)
    ensures r.Keys == rep.Keys
  {
    map k | k in rep :: if rep[k] == from then to else rep[k]
  }

  /** `rep'` is `rep` after union_set(s0, s1), whichever root survives. */
  predicate UnionOf(rep: map<SegId, SegId>, rep': map<SegId, SegId>, s0: SegId, s1: SegId)
    requires s0 in rep && s1 in rep
  {
    rep' == Linked(rep, rep[s0], rep[s1]) || rep' == Linked(rep, rep[s1], rep[s0])
  }

  /**
   * The partition `rep0` joined along `pairs`, one pair after the other: a
   * is related to b when they are equal or already together, or when the
   * last pair connects a's class to b's.
   */
  predicate Related(rep0: map<SegId, SegId>, pairs: seq<Pair>, a: SegId, b: SegId)
    decreases |pairs|
  {
    if pairs == [] then a == b || SameSet(rep0, a, b)
    else
      var init, p := pairs[..|pairs| - 1], pairs[|pairs| - 1];
      || Related(rep0, init, a, b)
      || (Related(rep0, init, a, p.0) && Related(rep0, init, p.1, b))
      || (Related(rep0, init, a, p.1) && Related(rep0, init, p.0, b))
  }

  /** The ids the pairs mention. */
  function PairIds(pairs: seq<Pair>): (ids: set<SegId>)
    ensures forall k :: 0 <= k < |pairs| ==> pairs[k].0 in ids && pairs[k].1 in ids
  {
    (set k | 0 <= k < |pairs| :: pairs[k].0) + (set k | 0 <= k < |pairs| :: pairs[k].1)
  }

  /** rep' holds exactly the partition `rep0` joined along `pairs`, over the ids it tracks. */
  predicate Joins(rep': map<SegId, SegId>, rep0: map<SegId, SegId>, pairs: seq<Pair>) {
    && rep'.Keys == rep0.Keys + PairIds(pairs)
    && forall a, b :: a in rep' && b in rep' ==> (SameSet(rep', a, b) <==> Related(rep0, pairs, a, b))
  }

  // ---------------------------------------------------------------------
  // Lemmas about the representative map

  /** make_set on a tracked id changes nothing, so make_set is idempotent. */
  lemma {:induction false} MakeSetIdempotent(rep: map<SegId, SegId>, s: SegId)
    ensures s in rep ==> WithSet(rep, s) == rep
    ensures WithSet(WithSet(rep, s), s) == WithSet(rep, s)
  {
  }

  /** make_set keeps the map canonical and leaves every existing set as it was. */
  lemma {:induction false} MakeSetKeepsPartition(rep: map<SegId, SegId>, s: SegId)
    requires Canonical(rep)
    ensures Canonical(WithSet(rep, s))
    ensures forall a, b :: a in rep && b in rep ==> (SameSet(WithSet(rep, s), a, b) <==> SameSet(rep, a, b))
    ensures forall a :: a in WithSet(rep, s) ==> (SameSet(WithSet(rep, s), a, s) <==> a == s || SameSet(rep, a, s))
  {
  }

  /**
   * union_set joins exactly the two sets of s0 and s1: afterwards a and b
   * are together iff they were, or one was with s0 and the other with s1.
   */
  lemma {:induction false} UnionJoins(rep: map<SegId, SegId>, rep': map<SegId, SegId>, s0: SegId, s1: SegId)
    requires Canonical(rep) && s0 in rep && s1 in rep && UnionOf(rep, rep', s0, s1)
    ensures Canonical(rep') && rep'.Keys == rep.Keys
    ensures SameSet(rep', s0, s1)
    ensures forall a, b :: a in rep && b in rep ==>
      (SameSet(rep', a, b) <==>
        SameSet(rep, a, b) || (SameSet(rep, a, s0) && SameSet(rep, s1, b)) || (SameSet(rep, a, s1) && SameSet(rep, s0, b)))
  {
    UnionCanonical(rep, rep', s0, s1);
    UnionAt(rep, rep', s0, s1, s0, s1);
    forall a, b | a in rep && b in rep
      ensures SameSet(rep', a, b) <==>
        SameSet(rep, a, b) || (SameSet(rep, a, s0) && SameSet(rep, s1, b)) || (SameSet(rep, a, s1) && SameSet(rep, s0, b))
    {
      UnionAt(rep, rep', s0, s1, a, b);
    }
  }

  lemma {:induction false} UnionCanonical(rep: map<SegId, SegId>, rep': map<SegId, SegId>, s0: SegId, s1: SegId)
    requires Canonical(rep) && s0 in rep && s1 in rep && UnionOf(rep, rep', s0, s1)
    ensures Canonical(rep') && rep'.Keys == rep.Keys
  {
    var r0, r1 := rep[s0], rep[s1];
    if rep' == Linked(rep, r0, r1) {
      LinkedCanonical(rep, r0, r1);
    } else {
      LinkedCanonical(rep, r1, r0);
    }
  }

  /** union_set as seen from one pair of tracked ids. */
  lemma {:induction false} UnionAt(rep: map<SegId, SegId>, rep': map<SegId, SegId>, s0: SegId, s1: SegId, a: SegId, b: SegId)
    requires Canonical(rep) && s0 in rep && s1 in rep && UnionOf(rep, rep', s0, s1)
    requires a in rep && b in rep
    ensures SameSet(rep', a, b) <==>
      SameSet(rep, a, b) || (SameSet(rep, a, s0) && SameSet(rep, s1, b)) || (SameSet(rep, a, s1) && SameSet(rep, s0, b))
  {
    var r0, r1 := rep[s0], rep[s1];
    var from, to := if rep' == Linked(rep, r0, r1) then r0 else r1, if rep' == Linked(rep, r0, r1) then r1 else r0;
    assert rep' == Linked(rep, from, to);
    assert rep'[a] == if rep[a] == from then to else rep[a];
    assert rep'[b] == if rep[b] == from then to else rep[b];
  }

  lemma {:induction false} LinkedCanonical(rep: map<SegId, SegId>, from: SegId, to: SegId)
    requires Canonical(rep) && from in rep && to in rep && rep[from] == from && rep[to] == to
    ensures Canonical(Linked(rep, from, to))
  {
    forall k | k in Linked(rep, from, to)
      ensures Linked(rep, from, to)[k] in Linked(rep, from, to)
      ensures Linked(rep, from, to)[Linked(rep, from, to)[k]] == Linked(rep, from, to)[k]
    {
      LinkedAt(rep, from, to, k);
    }
  }

  lemma {:induction false} LinkedAt(rep: map<SegId, SegId>, from: SegId, to: SegId, k: SegId)
    requires Canonical(rep) && from in rep && to in rep && rep[from] == from && rep[to] == to
    requires k in rep
    ensures Linked(rep, from, to)[k] in rep
    ensures Linked(rep, from, to)[Linked(rep, from, to)[k]] == Linked(rep, from, to)[k]
  {
    var r := Linked(rep, from, to);
    if rep[k] == from {
      assert r[k] == to;
    } else {
      assert r[k] == rep[k];
    }
  }

  /**
   * After a union the two ids share a root, yet find_set tells them apart
   * when that root is 0: it then answers each id with itself.
   */
  lemma {:induction false} UnionFindSet(rep': map<SegId, SegId>, s0: SegId, s1: SegId)
    requires SameSet(rep', s0, s1)
    ensures rep'[s0] != 0 ==> FindSetOf(rep', s0) == FindSetOf(rep', s1)
    ensures rep'[s0] == 0 && s0 != s1 ==> FindSetOf(rep', s0) != FindSetOf(rep', s1)
  {
  }

  /** find_set answers an id with its root, or with itself when the root is 0. */
  lemma {:induction false} FindSetCases(rep: map<SegId, SegId>, sid: SegId)
    ensures Root(rep, sid) == 0 ==> FindSetOf(rep, sid) == sid
    ensures Root(rep, sid) != 0 ==> FindSetOf(rep, sid) == Root(rep, sid)
  {
  }

  // ---------------------------------------------------------------------
  // The joined partition

  lemma {:induction false} RelatedReflexive(rep0: map<SegId, SegId>, pairs: seq<Pair>, a: SegId)
    ensures Related(rep0, pairs, a, a)
  {
    if pairs != [] {
      RelatedReflexive(rep0, pairs[..|pairs| - 1], a);
    }
  }

  /** An id that is neither tracked nor mentioned by a pair is related only to itself. */
  lemma {:induction false} RelatedOutside(rep0: map<SegId, SegId>, pairs: seq<Pair>, a: SegId, b: SegId)
    requires a !in rep0 && a !in PairIds(pairs)
    ensures Related(rep0, pairs, a, b) ==> a == b
    ensures Related(rep0, pairs, b, a) ==> a == b
  {
    if pairs != [] {
      var init, p := pairs[..|pairs| - 1], pairs[|pairs| - 1];
      assert pairs == init + [p];
      PairIdsSnoc(init, p);
      RelatedOutside(rep0, init, a, b);
      RelatedOutside(rep0, init, a, p.0);
      RelatedOutside(rep0, init, a, p.1);
    }
  }

  lemma {:induction false} PairIdsSnoc(pairs: seq<Pair>, p: Pair)
    ensures PairIds(pairs + [p]) == PairIds(pairs) + {p.0, p.1}
  {
    var l := pairs + [p];
    forall e | e in PairIds(l)
      ensures e in PairIds(pairs) + {p.0, p.1}
    {
      var k :| 0 <= k < |l| && (l[k].0 == e || l[k].1 == e);
      if k < |pairs| {
        assert l[k] == pairs[k];
      }
    }
    forall e | e in PairIds(pairs)
      ensures e in PairIds(l)
    {
      var k :| 0 <= k < |pairs| && (pairs[k].0 == e || pairs[k].1 == e);
      assert l[k] == pairs[k];
    }
    assert l[|pairs|] == p;
  }

  lemma {:induction false} RelatedSnoc(rep0: map<SegId, SegId>, pairs: seq<Pair>, p: Pair, a: SegId, b: SegId)
    ensures Related(rep0, pairs + [p], a, b) <==>
      || Related(rep0, pairs, a, b)
      || (Related(rep0, pairs, a, p.0) && Related(rep0, pairs, p.1, b))
      || (Related(rep0, pairs, a, p.1) && Related(rep0, pairs, p.0, b))
  {
    assert (pairs + [p])[..|pairs|] == pairs;
  }

  /** Joining along a single pair. */
  lemma {:induction false} RelatedOne(rep0: map<SegId, SegId>, p: Pair, a: SegId, b: SegId)
    ensures Related(rep0, [p], a, b) <==>
      || (a == b || SameSet(rep0, a, b))
      || ((a == p.0 || SameSet(rep0, a, p.0)) && (p.1 == b || SameSet(rep0, p.1, b)))
      || ((a == p.1 || SameSet(rep0, a, p.1)) && (p.0 == b || SameSet(rep0, p.0, b)))
  {
    assert [p][..0] == [];
  }

  lemma {:induction false} PairIdsOne(p: Pair)
    ensures PairIds([p]) == {p.0, p.1}
  {
    assert [p][0] == p;
  }

  /** Over the ids `next` tracks, `cur`'s sets are the partition joined along `pairs`. */
  lemma {:induction false} JoinedBase(rep0: map<SegId, SegId>, pairs: seq<Pair>, cur: map<SegId, SegId>, u: SegId, v: SegId)
    requires Joins(cur, rep0, pairs)
    ensures (u == v || SameSet(cur, u, v)) <==> Related(rep0, pairs, u, v)
  {
    if u == v {
      RelatedReflexive(rep0, pairs, u);
    } else if u !in cur {
      RelatedOutside(rep0, pairs, u, v);
    } else if v !in cur {
      RelatedOutside(rep0, pairs, v, u);
    }
  }

  /** Joining a partition along one more pair extends the partition joined so far. */
  lemma {:induction false} JoinsSnoc(rep0: map<SegId, SegId>, pairs: seq<Pair>, cur: map<SegId, SegId>, next: map<SegId, SegId>, p: Pair)
    requires Joins(cur, rep0, pairs) && Joins(next, cur, [p])
    ensures Joins(next, rep0, pairs + [p])
  {
    PairIdsSnoc(pairs, p);
    PairIdsOne(p);
    forall a, b | a in next && b in next
      ensures SameSet(next, a, b) <==> Related(rep0, pairs + [p], a, b)
    {
      RelatedOne(cur, p, a, b);
      RelatedSnoc(rep0, pairs, p, a, b);
      JoinedBase(rep0, pairs, cur, a, b);
      JoinedBase(rep0, pairs, cur, a, p.0);
      JoinedBase(rep0, pairs, cur, p.1, b);
      JoinedBase(rep0, pairs, cur, a, p.1);
      JoinedBase(rep0, pairs, cur, p.0, b);
    }
  }

  /** Once joined along the pairs, the two ids of every pair are in one set. */
  lemma {:induction false} RelatedPairs(rep0: map<SegId, SegId>, pairs: seq<Pair>, k: nat)
    requires k < |pairs|
    ensures Related(rep0, pairs, pairs[k].0, pairs[k].1)
  {
    var init, p := pairs[..|pairs| - 1], pairs[|pairs| - 1];
    if k < |init| {
      RelatedPairs(rep0, init, k);
      assert init[k] == pairs[k];
    } else {
      RelatedReflexive(rep0, init, p.0);
      RelatedReflexive(rep0, init, p.1);
    }
  }

  /** After joining, every pair's ids share a representative, and sets already joined stay joined. */
  lemma {:induction false} JoinsKeepsTogether(rep': map<SegId, SegId>, rep0: map<SegId, SegId>, pairs: seq<Pair>)
    requires Joins(rep', rep0, pairs)
    ensures forall k :: 0 <= k < |pairs| ==> SameSet(rep', pairs[k].0, pairs[k].1)
    ensures forall a, b :: SameSet(rep0, a, b) ==> SameSet(rep', a, b)
  {
    forall k | 0 <= k < |pairs|
      ensures SameSet(rep', pairs[k].0, pairs[k].1)
    {
      RelatedPairs(rep0, pairs, k);
    }
    forall a, b | SameSet(rep0, a, b)
      ensures SameSet(rep', a, b)
    {
      RelatedBase(rep0, pairs, a, b);
    }
  }

  lemma {:induction false} RelatedBase(rep0: map<SegId, SegId>, pairs: seq<Pair>, a: SegId, b: SegId)
    requires SameSet(rep0, a, b)
    ensures Related(rep0, pairs, a, b)
  {
    if pairs != [] {
      RelatedBase(rep0, pairs[..|pairs| - 1], a, b);
    }
  }

  /** make_and_union_set joins the partition along the one pair. */
  lemma {:induction false} MakeAndUnionJoins(rep: map<SegId, SegId>, rep': map<SegId, SegId>, s0: SegId, s1: SegId)
    requires Canonical(rep)
    requires UnionOf(WithSet(WithSet(rep, s0), s1), rep', s0, s1)
    ensures Canonical(rep') && Joins(rep', rep, [(s0, s1)])
  {
    MidCanonical(rep, s0, s1);
    UnionJoins(WithSet(WithSet(rep, s0), s1), rep', s0, s1);
    MakeAndUnionKeys(rep, rep', s0, s1);
    forall a, b | a in rep' && b in rep'
      ensures SameSet(rep', a, b) <==> Related(rep, [(s0, s1)], a, b)
    {
      MakeAndUnionAt(rep, rep', s0, s1, a, b);
    }
  }

  lemma {:induction false} MidCanonical(rep: map<SegId, SegId>, s0: SegId, s1: SegId)
    requires Canonical(rep)
    ensures Canonical(WithSet(WithSet(rep, s0), s1))
  {
    MakeSetKeepsPartition(rep, s0);
    MakeSetKeepsPartition(WithSet(rep, s0), s1);
  }

  lemma {:induction false} MakeAndUnionAt(rep: map<SegId, SegId>, rep': map<SegId, SegId>, s0: SegId, s1: SegId, a: SegId, b: SegId)
    requires Canonical(rep)
    requires UnionOf(WithSet(WithSet(rep, s0), s1), rep', s0, s1)
    requires a in rep' && b in rep'
    ensures SameSet(rep', a, b) <==> Related(rep, [(s0, s1)], a, b)
  {
    var mid := WithSet(WithSet(rep, s0), s1);
    MidCanonical(rep, s0, s1);
    UnionCanonical(mid, rep', s0, s1);
    UnionAt(mid, rep', s0, s1, a, b);
    assert a in mid && b in mid;
    JoinOneFrom(rep, s0, s1, a, b);
  }

  /**
   * After make_set(s0) and make_set(s1), "together once s0's and s1's sets
   * are joined" is the relation joined along the one pair.
   */
  lemma {:induction false} JoinOneFrom(rep: map<SegId, SegId>, s0: SegId, s1: SegId, a: SegId, b: SegId)
    requires Canonical(rep)
    requires a in WithSet(WithSet(rep, s0), s1) && b in WithSet(WithSet(rep, s0), s1)
    ensures var mid := WithSet(WithSet(rep, s0), s1);
      (SameSet(mid, a, b) || (SameSet(mid, a, s0) && SameSet(mid, s1, b)) || (SameSet(mid, a, s1) && SameSet(mid, s0, b)))
        <==> Related(rep, [(s0, s1)], a, b)
  {
    RelatedOne(rep, (s0, s1), a, b);
    MidBase(rep, s0, s1, a, b);
    MidBase(rep, s0, s1, a, s0);
    MidBase(rep, s0, s1, s1, b);
    MidBase(rep, s0, s1, a, s1);
    MidBase(rep, s0, s1, s0, b);
  }

  lemma {:induction false} MakeAndUnionKeys(rep: map<SegId, SegId>, rep': map<SegId, SegId>, s0: SegId, s1: SegId)
    requires UnionOf(WithSet(WithSet(rep, s0), s1), rep', s0, s1)
    ensures rep'.Keys == rep.Keys + PairIds([(s0, s1)])
  {
    PairIdsOne((s0, s1));
  }

  lemma {:induction false} MidBase(rep: map<SegId, SegId>, s0: SegId, s1: SegId, u: SegId, v: SegId)
    requires Canonical(rep)
    requires u in WithSet(WithSet(rep, s0), s1) && v in WithSet(WithSet(rep, s0), s1)
    ensures SameSet(WithSet(WithSet(rep, s0), s1), u, v) <==> u == v || SameSet(rep, u, v)
  {
    MakeSetKeepsPartition(rep, s0);
    MakeSetKeepsPartition(WithSet(rep, s0), s1);
  }

  lemma {:induction false} JoinsNothing(rep: map<SegId, SegId>)
    ensures Joins(rep, rep, [])
  {
    assert PairIds([]) == {};
  }

  // ---------------------------------------------------------------------
  // Ascending iteration over std::set and std::map keys

  predicate IsMinId(k: SegId, ids: set<SegId>) {
    k in ids && forall j :: j in ids ==> k <= j
  }

  lemma {:induction false} MinIdExists(ids: set<SegId>)
    requires ids != {}
    ensures exists k :: IsMinId(k, ids)
    decreases |ids|
  {
    var x :| x in ids;
    if ids != {x} {
      MinIdExists(ids - {x});
      var m :| IsMinId(m, ids - {x});
      if x < m {
        forall j | j in ids
          ensures x <= j
        {
          if j != x {
            assert j in ids - {x};
          }
        }
        assert IsMinId(x, ids);
      } else {
        forall j | j in ids
          ensures m <= j
        {
          if j != x {
            assert j in ids - {x};
          }
        }
        assert IsMinId(m, ids);
      }
    } else {
      assert IsMinId(x, ids);
    }
  }

  ghost function MinId(ids: set<SegId>): (k: SegId)
    requires ids != {}
    ensures IsMinId(k, ids)
  {
    MinIdExists(ids);
    var k :| IsMinId(k, ids); k
  }

  /** The ids in ascending order: the iteration order of a std::set or std::map. */
  ghost function SortedIds(ids: set<SegId>): seq<SegId>
    decreases |ids|
  {
    if ids == {} then []
    else
      var m := MinId(ids);
      [m] + SortedIds(ids - {m})
  }

  /** The ascending walk visits every id once and in increasing order. */
  lemma {:induction false} SortedIdsOrder(ids: set<SegId>)
    ensures var ks := SortedIds(ids);
      && (forall k :: k in ks <==> k in ids)
      && (forall i, j :: 0 <= i < j < |ks| ==> ks[i] < ks[j])
    decreases |ids|
  {
    if ids != {} {
      var m := MinId(ids);
      var rest := SortedIds(ids - {m});
      SortedIdsOrder(ids - {m});
      var ks := [m] + rest;
      assert SortedIds(ids) == ks;
      forall k
        ensures k in ks <==> k in ids
      {
        assert k in ks <==> k == m || k in rest;
      }
      forall i, j | 0 <= i < j < |ks|
        ensures ks[i] < ks[j]
      {
        assert ks[j] == rest[j - 1];
        if i > 0 {
          assert ks[i] == rest[i - 1];
        } else {
          assert rest[j - 1] in ids - {m};
        }
      }
    }
  }

  predicate LexLess(p: Pair, q: Pair) {
    p.0 < q.0 || (p.0 == q.0 && p.1 < q.1)
  }

  predicate IsLexMin(p: Pair, pairs: set<Pair>) {
    p in pairs && forall q :: q in pairs ==> p == q || LexLess(p, q)
  }

  lemma {:induction false} LexMinExists(pairs: set<Pair>)
    requires pairs != {}
    ensures exists p :: IsLexMin(p, pairs)
    decreases |pairs|
  {
    var x :| x in pairs;
    if pairs != {x} {
      LexMinExists(pairs - {x});
      var m :| IsLexMin(m, pairs - {x});
      if LexLess(x, m) {
        forall q | q in pairs
          ensures x == q || LexLess(x, q)
        {
          if q != x {
            assert q in pairs - {x};
          }
        }
        assert IsLexMin(x, pairs);
      } else {
        forall q | q in pairs
          ensures m == q || LexLess(m, q)
        {
          if q != x {
            assert q in pairs - {x};
          }
        }
        assert IsLexMin(m, pairs);
      }
    } else {
      assert IsLexMin(x, pairs);
    }
  }

  ghost function LexMin(pairs: set<Pair>): (p: Pair)
    requires pairs != {}
    ensures IsLexMin(p, pairs)
  {
    LexMinExists(pairs);
    var p :| IsLexMin(p, pairs); p
  }

  /** The pairs in lexicographic order: the iteration order of a std::set of pairs. */
  ghost function SortedPairs(pairs: set<Pair>): seq<Pair>
    decreases |pairs|
  {
    if pairs == {} then []
    else
      var m := LexMin(pairs);
      [m] + SortedPairs(pairs - {m})
  }

  /** The lexicographic walk visits every pair once and in increasing order. */
  lemma {:induction false} SortedPairsOrder(pairs: set<Pair>)
    ensures var ps := SortedPairs(pairs);
      && (forall p :: p in ps <==> p in pairs)
      && (forall i, j :: 0 <= i < j < |ps| ==> LexLess(ps[i], ps[j]))
    decreases |pairs|
  {
    if pairs != {} {
      var m := LexMin(pairs);
      var rest := SortedPairs(pairs - {m});
      SortedPairsOrder(pairs - {m});
      var ps := [m] + rest;
      assert SortedPairs(pairs) == ps;
      forall p
        ensures p in ps <==> p in pairs
      {
        assert p in ps <==> p == m || p in rest;
      }
      forall i, j | 0 <= i < j < |ps|
        ensures LexLess(ps[i], ps[j])
      {
        assert ps[j] == rest[j - 1];
        if i > 0 {
          assert ps[i] == rest[i - 1];
        } else {
          assert rest[j - 1] in pairs - {m};
        }
      }
    }
  }

  lemma {:induction false} SortedIdsStep(ids: set<SegId>, k: SegId)
    requires IsMinId(k, ids)
    ensures SortedIds(ids) == [k] + SortedIds(ids - {k})
  {
    assert k == MinId(ids);
  }

  lemma {:induction false} LexMinUnique(p: Pair, q: Pair, pairs: set<Pair>)
    requires IsLexMin(p, pairs) && IsLexMin(q, pairs)
    ensures p == q
  {
  }

  lemma {:induction false} SortedPairsStep(pairs: set<Pair>, p: Pair)
    requires IsLexMin(p, pairs)
    ensures SortedPairs(pairs) == [p] + SortedPairs(pairs - {p})
  {
    LexMinUnique(p, LexMin(pairs), pairs);
  }

  /** An identity map is a valid partition into singletons. */
  lemma {:induction false} IdentityCanonical(ids: set<SegId>)
    ensures Canonical(map id | id in ids :: id)
  {
  }

  // ---------------------------------------------------------------------
  // Pairs and arrays

  /** The distinct rows of an n x 2 array. */
  function RowSet(arr: array2<SegId>): (rows: set<Pair>)
    requires arr.Length1 == 2
    reads arr
    ensures forall i :: 0 <= i < arr.Length0 ==> (arr[i, 0], arr[i, 1]) in rows
  {
    set i | 0 <= i < arr.Length0 :: (arr[i, 0], arr[i, 1])
  }

  /** The loop of merge_array that gathers the rows into a std::set. */
  method RowsOf(arr: array2<SegId>) returns (pairs: set<Pair>)
    requires arr.Length1 == 2
    ensures pairs == RowSet(arr)
  {
    pairs := {};
    for idx := 0 to arr.Length0
      invariant pairs == set i | 0 <= i < idx :: (arr[i, 0], arr[i, 1])
    {
      pairs := pairs + {(arr[idx, 0], arr[idx, 1])};
    }
  }

  /** seg_pairs_to_array: one row per pair, in order. */
  method SegPairsToArray(pairs: seq<Pair>) returns (arr: array2<SegId>)
    ensures fresh(arr) && arr.Length0 == |pairs| && arr.Length1 == 2
    ensures forall i :: 0 <= i < |pairs| ==> arr[i, 0] == pairs[i].0 && arr[i, 1] == pairs[i].1
  {
    arr := new SegId[|pairs|, 2];
    for idx := 0 to |pairs|
      invariant forall i :: 0 <= i < idx ==> arr[i, 0] == pairs[i].0 && arr[i, 1] == pairs[i].1
    {
      var (segid0, root) := pairs[idx];
      arr[idx, 0] := segid0;
      arr[idx, 1] := root;
    }
  }

  /** The (id, find_set(id)) rows to_array emits while walking `keys`. */
  function NonRootsIn(rep: map<SegId, SegId>, keys: seq<SegId>): seq<Pair> {
    if keys == [] then []
    else
      var k := keys[|keys| - 1];
      var root := FindSetOf(rep, k);
      NonRootsIn(rep, keys[..|keys| - 1]) + (if root != k then [(k, root)] else [])
  }

  lemma {:induction false} NonRootsInSnoc(rep: map<SegId, SegId>, keys: seq<SegId>, k: SegId)
    ensures NonRootsIn(rep, keys + [k]) ==
      NonRootsIn(rep, keys) + (if FindSetOf(rep, k) != k then [(k, FindSetOf(rep, k))] else [])
  {
    assert (keys + [k])[..|keys|] == keys;
  }

  /** to_array's rows: the tracked ids whose find_set is another id, in ascending id order. */
  ghost function NonRootPairs(rep: map<SegId, SegId>): seq<Pair> {
    NonRootsIn(rep, SortedIds(rep.Keys))
  }

  lemma {:induction false} NonRootsInMembers(rep: map<SegId, SegId>, keys: seq<SegId>, p: Pair)
    ensures p in NonRootsIn(rep, keys) <==> p.0 in keys && p.1 == FindSetOf(rep, p.0) && p.1 != p.0
  {
    if keys != [] {
      var init, k := keys[..|keys| - 1], keys[|keys| - 1];
      assert keys == init + [k];
      NonRootsInMembers(rep, init, p);
    }
  }

  lemma {:induction false} NonRootsInAscending(rep: map<SegId, SegId>, keys: seq<SegId>)
    requires forall i, j :: 0 <= i < j < |keys| ==> keys[i] < keys[j]
    ensures var ps := NonRootsIn(rep, keys);
      forall i, j :: 0 <= i < j < |ps| ==> ps[i].0 < ps[j].0
  {
    if keys != [] {
      var init, k := keys[..|keys| - 1], keys[|keys| - 1];
      var front := NonRootsIn(rep, init);
      NonRootsInAscending(rep, init);
      forall i | 0 <= i < |front|
        ensures front[i].0 < k
      {
        NonRootsInMembers(rep, init, front[i]);
        var m :| 0 <= m < |init| && init[m] == front[i].0;
      }
    }
  }

  /**
   * to_array emits (id, find_set(id)) for exactly the tracked ids whose
   * find_set differs from themselves, so no row has equal columns, with
   * the first column strictly ascending.
   */
  lemma {:induction false} ToArrayRows(rep: map<SegId, SegId>)
    ensures var ps := NonRootPairs(rep);
      && (forall i :: 0 <= i < |ps| ==> ps[i].0 in rep && ps[i].1 == FindSetOf(rep, ps[i].0) && ps[i].1 != ps[i].0)
      && (forall k :: k in rep && FindSetOf(rep, k) != k ==> (k, FindSetOf(rep, k)) in ps)
      && (forall i, j :: 0 <= i < j < |ps| ==> ps[i].0 < ps[j].0)
  {
    var keys := SortedIds(rep.Keys);
    SortedIdsOrder(rep.Keys);
    var ps := NonRootPairs(rep);
    forall i | 0 <= i < |ps|
      ensures ps[i].0 in rep && ps[i].1 == FindSetOf(rep, ps[i].0) && ps[i].1 != ps[i].0
    {
      NonRootsInMembers(rep, keys, ps[i]);
    }
    forall k | k in rep && FindSetOf(rep, k) != k
      ensures (k, FindSetOf(rep, k)) in ps
    {
      NonRootsInMembers(rep, keys, (k, FindSetOf(rep, k)));
    }
    NonRootsInAscending(rep, keys);
    assert ps == NonRootsIn(rep, keys);
  }

  /** What relabel writes for a voxel holding `sid`. */
  function RelabelledId(rep: map<SegId, SegId>, sid: SegId): (r: SegId)
    ensures sid == 0 ==> r == 0
    ensures sid > 0 ==> r > 0 && r == FindSetOf(rep, sid)
  {
    if sid > 0 then
      var rootId := FindSetOf(rep, sid);
      if sid != rootId then rootId else sid
    else sid
  }

  /** make_set for each id in turn, starting from no sets. */
  method Singletons(ids: set<SegId>) returns (rep: map<SegId, SegId>)
    ensures rep.Keys == ids && forall k :: k in rep ==> rep[k] == k
  {
    rep := map[];
    var remaining := ids;
    while remaining != {}
      invariant remaining <= ids
      invariant rep.Keys == ids - remaining && forall k :: k in rep ==> rep[k] == k
      decreases |remaining|
    {
      var id :| id in remaining;
      rep := WithSet(rep, id);
      remaining := remaining - {id};
    }
  }

  // ---------------------------------------------------------------------
  // The class

  class DisjointSets {
    /** Each tracked id's root: the parent map after full path compression. */
    var rep: map<SegId, SegId>

    predicate Valid()
      reads this
    {
      Canonical(rep)
    }

    /** The empty structure. */
    constructor ()
      ensures Valid() && rep == map[]
    {
      rep := map[];
    }

    /** make_set for every nonzero id of a segmentation: each its own singleton. */
    constructor FromSegmentation(seg: array3<SegId>)
      ensures Valid() && rep == map id | id in Labels(seg) - {0} :: id
    {
      var ids := Labels(seg) - {0};
      var singletons := Singletons(ids);
      assert singletons == map id | id in ids :: id;
      rep := singletons;
      IdentityCanonical(ids);
    }

    /** make_set: a new id becomes a singleton; a tracked id is left alone. */
    method MakeSet(segid: SegId)
      modifies this
      ensures rep == WithSet(old(rep), segid)
    {
      if segid !in rep {
        rep := rep[segid := segid];
      }
    }

    /** union_set: link the root of one id's set under the root of the other's. */
    method UnionSet(s0: SegId, s1: SegId)
      requires Valid() && s0 in rep && s1 in rep
      modifies this
      ensures Valid() && UnionOf(old(rep), rep, s0, s1)
    {
      var r0, r1 := rep[s0], rep[s1];
      var underSecond: bool :| true;
      if underSecond {
        rep := Linked(rep, r0, r1);
      } else {
        rep := Linked(rep, r1, r0);
      }
      UnionJoins(old(rep), rep, s0, s1);
    }

    /** make_and_union_set: track both ids, then join their sets. */
    method MakeAndUnionSet(s0: SegId, s1: SegId)
      requires Valid()
      modifies this
      ensures Valid() && Joins(rep, old(rep), [(s0, s1)])
    {
      MakeSet(s0);
      MakeSet(s1);
      MidCanonical(old(rep), s0, s1);
      UnionSet(s0, s1);
      MakeAndUnionJoins(old(rep), rep, s0, s1);
    }

    function FindSet(sid: SegId): SegId
      reads this
    {
      FindSetOf(rep, sid)
    }

    /**
     * merge_array: collect the distinct rows into a std::set, then
     * make_and_union_set each row in lexicographic order.
     */
    method MergeArray(arr: array2<SegId>)
      requires Valid() && arr.Length1 == 2
      modifies this
      ensures Valid() && Joins(rep, old(rep), SortedPairs(RowSet(arr)))
    {
      var pairs := RowsOf(arr);
      JoinsNothing(rep);
      ghost var done: seq<Pair> := [];
      var remaining := pairs;
      while remaining != {}
        invariant done + SortedPairs(remaining) == SortedPairs(pairs)
        invariant Valid() && Joins(rep, old(rep), done)
        decreases |remaining|
      {
        LexMinExists(remaining);
        var p :| IsLexMin(p, remaining);
        SortedPairsStep(remaining, p);
        assert done + SortedPairs(remaining) == (done + [p]) + SortedPairs(remaining - {p});
        ghost var cur := rep;
        MakeAndUnionSet(p.0, p.1);
        JoinsSnoc(old(rep), done, cur, rep, p);
        done := done + [p];
        remaining := remaining - {p};
      }
      assert done == SortedPairs(pairs);
    }

    /** to_array: walk the tracked ids in ascending order and keep the non-root ones. */
    method ToArray() returns (arr: array2<SegId>)
      ensures fresh(arr) && arr.Length0 == |NonRootPairs(rep)| && arr.Length1 == 2
      ensures forall i :: 0 <= i < arr.Length0 ==>
        arr[i, 0] == NonRootPairs(rep)[i].0 && arr[i, 1] == NonRootPairs(rep)[i].1
    {
      var pairs: seq<Pair> := [];
      ghost var done: seq<SegId> := [];
      var remaining := rep.Keys;
      while remaining != {}
        invariant done + SortedIds(remaining) == SortedIds(rep.Keys)
        invariant pairs == NonRootsIn(rep, done)
        decreases |remaining|
      {
        MinIdExists(remaining);
        var segid0 :| IsMinId(segid0, remaining);
        SortedIdsStep(remaining, segid0);
        assert done + SortedIds(remaining) == (done + [segid0]) + SortedIds(remaining - {segid0});
        var root := FindSet(segid0);
        if root != segid0 {
          pairs := pairs + [(segid0, root)];
        }
        NonRootsInSnoc(rep, done, segid0);
        done := done + [segid0];
        remaining := remaining - {segid0};
      }
      assert done == SortedIds(rep.Keys);
      arr := SegPairsToArray(pairs);
    }

    /** relabel: every nonzero voxel becomes find_set of its id; background stays 0. */
    method Relabel(seg: array3<SegId>)
      modifies seg
      ensures forall z, y, x :: 0 <= z < seg.Length0 && 0 <= y < seg.Length1 && 0 <= x < seg.Length2 ==>
        seg[z, y, x] == RelabelledId(rep, old(seg[z, y, x]))
    {
      var r := rep;
      MapVolume(seg, sid => RelabelledId(r, sid));
    }
  }

  // ---------------------------------------------------------------------
  // agglomerated_segmentation_to_merge_pairs

  predicate SameShape(a: array3<SegId>, b: array3<SegId>) {
    a.Length0 == b.Length0 && a.Length1 == b.Length1 && a.Length2 == b.Length2
  }

  /** The step's voxel lies inside the volume. */
  predicate InVolume(a: array3<SegId>, s: Step) {
    s.z < a.Length0 && s.y < a.Length1 && s.x < a.Length2
  }

  /** The fragment pair a step looks at: the voxel's fragment, then its neighbour's. */
  function FragmentsAt(frag: array3<SegId>, s: Step): Pair
    requires InVolume(frag, s) && HasNeighbour(s)
    reads frag
  {
    var (nz, ny, nx) := Neighbour(s);
    (frag[s.z, s.y, s.x], frag[nz, ny, nx])
  }

  /**
   * A step emits a merge pair when two different non-background fragments
   * meet across it inside one agglomerated segment.
   */
  predicate Emits(frag: array3<SegId>, seg: array3<SegId>, s: Step)
    requires SameShape(frag, seg)
    reads frag, seg
  {
    && InVolume(frag, s) && HasNeighbour(s)
    && var (nz, ny, nx) := Neighbour(s);
    && frag[s.z, s.y, s.x] != frag[nz, ny, nx]
    && seg[s.z, s.y, s.x] == seg[nz, ny, nx]
    && frag[s.z, s.y, s.x] > 0 && frag[nz, ny, nx] > 0
  }

  /** The pairs emitted along a sequence of steps, in step order. */
  function EmittedPairs(frag: array3<SegId>, seg: array3<SegId>, steps: seq<Step>): seq<Pair>
    requires SameShape(frag, seg)
    reads frag, seg
  {
    if steps == [] then []
    else
      var s := steps[|steps| - 1];
      EmittedPairs(frag, seg, steps[..|steps| - 1]) + (if Emits(frag, seg, s) then [FragmentsAt(frag, s)] else [])
  }

  /** All the pairs of one scan of the volume. */
  function MergePairs(frag: array3<SegId>, seg: array3<SegId>): seq<Pair>
    requires SameShape(frag, seg)
    reads frag, seg
  {
    EmittedPairs(frag, seg, ScanSteps(frag.Length0, frag.Length1, frag.Length2))
  }

  lemma {:induction false} EmittedSnoc(frag: array3<SegId>, seg: array3<SegId>, steps: seq<Step>, s: Step)
    requires SameShape(frag, seg)
    ensures EmittedPairs(frag, seg, steps + [s]) ==
      EmittedPairs(frag, seg, steps) + (if Emits(frag, seg, s) then [FragmentsAt(frag, s)] else [])
  {
    assert (steps + [s])[..|steps|] == steps;
  }

  lemma {:induction false} EmittedMembers(frag: array3<SegId>, seg: array3<SegId>, steps: seq<Step>, p: Pair)
    requires SameShape(frag, seg)
    ensures p in EmittedPairs(frag, seg, steps) <==>
      exists s :: s in steps && Emits(frag, seg, s) && FragmentsAt(frag, s) == p
  {
    if steps != [] {
      var init, last := steps[..|steps| - 1], steps[|steps| - 1];
      assert steps == init + [last];
      EmittedMembers(frag, seg, init, p);
      if p in EmittedPairs(frag, seg, steps) && p !in EmittedPairs(frag, seg, init) {
        assert last in steps && Emits(frag, seg, last) && FragmentsAt(frag, last) == p;
      }
    }
  }

  /**
   * The merge pairs are exactly the fragment pairs of face-adjacent voxels
   * (the later voxel first) that differ, are both foreground, and lie in one
   * agglomerated segment; so every pair joins two distinct nonzero fragments.
   */
  lemma {:induction false} MergePairsExactly(frag: array3<SegId>, seg: array3<SegId>, p: Pair)
    requires SameShape(frag, seg)
    ensures p in MergePairs(frag, seg) <==> exists s :: Emits(frag, seg, s) && FragmentsAt(frag, s) == p
    ensures p in MergePairs(frag, seg) ==> p.0 != p.1 && p.0 > 0 && p.1 > 0
  {
    EmittedMembers(frag, seg, ScanSteps(frag.Length0, frag.Length1, frag.Length2), p);
    forall s | Emits(frag, seg, s)
      ensures s in ScanSteps(frag.Length0, frag.Length1, frag.Length2)
    {
      ScanStepsCover(frag.Length0, frag.Length1, frag.Length2, s);
    }
  }

  /** The three looks at voxel (z, y, x), appended in the source's order. */
  method EmitAt(frag: array3<SegId>, seg: array3<SegId>, z: nat, y: nat, x: nat, pairs: seq<Pair>)
      returns (r: seq<Pair>)
    requires SameShape(frag, seg) && z < frag.Length0 && y < frag.Length1 && x < frag.Length2
    ensures r == pairs + EmittedPairs(frag, seg, VoxelSteps(z, y, x))
  {
    r := pairs;
    var obj0 := frag[z, y, x];
    if z > 0 {
      var obj1 := frag[z - 1, y, x];
      if obj0 != obj1 && seg[z, y, x] == seg[z - 1, y, x] && obj0 > 0 && obj1 > 0 {
        r := r + [(obj0, obj1)];
      }
    }
    ghost var afterZ := r;
    if y > 0 {
      var obj1 := frag[z, y - 1, x];
      if obj0 != obj1 && seg[z, y, x] == seg[z, y - 1, x] && obj0 > 0 && obj1 > 0 {
        r := r + [(obj0, obj1)];
      }
    }
    ghost var afterY := r;
    if x > 0 {
      var obj1 := frag[z, y, x - 1];
      if obj0 != obj1 && seg[z, y, x] == seg[z, y, x - 1] && obj0 > 0 && obj1 > 0 {
        r := r + [(obj0, obj1)];
      }
    }
    var sz, sy, sx := Step(z, y, x, Z), Step(z, y, x, Y), Step(z, y, x, X);
    assert VoxelSteps(z, y, x) == [sz] + [sy] + [sx];
    EmittedSnoc(frag, seg, [], sz);
    EmittedSnoc(frag, seg, [sz], sy);
    EmittedSnoc(frag, seg, [sz] + [sy], sx);
    assert [] + [sz] == [sz];
  }

  lemma {:induction false} EmittedConcat(frag: array3<SegId>, seg: array3<SegId>, a: seq<Step>, b: seq<Step>)
    requires SameShape(frag, seg)
    ensures EmittedPairs(frag, seg, a + b) == EmittedPairs(frag, seg, a) + EmittedPairs(frag, seg, b)
    decreases |b|
  {
    if b == [] {
      assert a + b == a;
    } else {
      var init, last := b[..|b| - 1], b[|b| - 1];
      assert a + b == (a + init) + [last];
      EmittedSnoc(frag, seg, a + init, last);
      EmittedSnoc(frag, seg, init, last);
      assert b == init + [last];
      EmittedConcat(frag, seg, a, init);
    }
  }

  /** The innermost loop of the scan: the voxels of row (z, y). */
  method EmitRow(frag: array3<SegId>, seg: array3<SegId>, z: nat, y: nat, pairs: seq<Pair>)
      returns (r: seq<Pair>)
    requires SameShape(frag, seg) && z < frag.Length0 && y < frag.Length1
    requires pairs == EmittedPairs(frag, seg, StepsBefore(z, y, 0, frag.Length1, frag.Length2))
    ensures r == EmittedPairs(frag, seg, StepsBefore(z, y, frag.Length2, frag.Length1, frag.Length2))
  {
    var sy, sx := frag.Length1, frag.Length2;
    r := pairs;
    for x := 0 to sx
      invariant r == EmittedPairs(frag, seg, StepsBefore(z, y, x, sy, sx))
    {
      r := EmitAt(frag, seg, z, y, x, r);
      NextVoxel(z, y, x, sy, sx);
      EmittedConcat(frag, seg, StepsBefore(z, y, x, sy, sx), VoxelSteps(z, y, x));
    }
  }

  /**
   * agglomerated_segmentation_to_merge_pairs: scan the fragments in C order
   * and emit a pair wherever two different fragments touch inside one
   * agglomerated segment; one row per emitted pair.
   */
  method AgglomeratedSegmentationToMergePairs(frag: array3<SegId>, seg: array3<SegId>)
      returns (arr: array2<SegId>)
    requires SameShape(frag, seg)
    ensures fresh(arr) && arr.Length0 == |MergePairs(frag, seg)| && arr.Length1 == 2
    ensures forall i :: 0 <= i < arr.Length0 ==>
      arr[i, 0] == MergePairs(frag, seg)[i].0 && arr[i, 1] == MergePairs(frag, seg)[i].1
  {
    var sz, sy, sx := seg.Length0, seg.Length1, seg.Length2;
    var pairs: seq<Pair> := [];
    for z := 0 to sz
      invariant pairs == EmittedPairs(frag, seg, StepsBefore(z, 0, 0, sy, sx))
    {
      for y := 0 to sy
        invariant pairs == EmittedPairs(frag, seg, StepsBefore(z, y, 0, sy, sx))
      {
        pairs := EmitRow(frag, seg, z, y, pairs);
        NextRow(z, y, sy, sx);
      }
      NextPlane(z, sy, sx);
    }
    WholeScan(sz, sy, sx);
    arr := SegPairsToArray(pairs);
  }
}
