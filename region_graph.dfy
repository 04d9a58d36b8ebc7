/**
 * The region adjacency graph of a fragment volume and its greedy mean
 * affinity agglomeration: regions keyed by segment id, each holding its
 * contact edges to other regions (the count of touching voxel faces and the
 * sum of their affinities).
 */
module RegionGraph {
  import opened Volume
  import opened DisjointSets

  // ---------------------------------------------------------------------
  // RegionEdge

  /** A contact between two regions: how many voxel faces touch and their summed affinity. */
  datatype RegionEdge = RegionEdge(count: real, sum: real)

  /** A default-constructed edge. */
  const NoEdge := RegionEdge(0.0, 0.0)

  /** Two contacts taken together; adding a fresh edge leaves the other as it is. */
  function Plus(a: RegionEdge, b: RegionEdge): RegionEdge {
    if a == NoEdge then b
    else if b == NoEdge then a
    else RegionEdge(a.count + b.count, a.sum + b.sum)
  }

  /** Plus is the key-by-key sum of count and affinity. */
  lemma {:induction false} PlusAdds(a: RegionEdge, b: RegionEdge)
    ensures Plus(a, b) == RegionEdge(a.count + b.count, a.sum + b.sum)
  {
  }

  /** get_mean: the mean affinity over the contact. */
  function Mean(e: RegionEdge): real
    requires e.count != 0.0
  {
    e.sum / e.count
  }

  /**
   * RegionEdge::absorb: the receiving edge takes over the other's count
   * and sum, and the other is reset; between them nothing is lost.
   */
  function AbsorbEdge(e: RegionEdge, other: RegionEdge): (r: (RegionEdge, RegionEdge))
    ensures r.1 == NoEdge
    ensures Plus(r.0, r.1) == Plus(e, other)
  {
    (RegionEdge(e.count + other.count, e.sum + other.sum), NoEdge)
  }

  /** Absorbing one contact into another averages them: the new mean lies between the two. */
  lemma {:induction false} AbsorbMeanBetween(e: RegionEdge, other: RegionEdge)
    requires e.count > 0.0 && other.count > 0.0
    ensures var m := Mean(AbsorbEdge(e, other).0);
      && (Mean(e) <= m || Mean(other) <= m)
      && (m <= Mean(e) || m <= Mean(other))
      && (Mean(e) <= Mean(other) ==> Mean(e) <= m <= Mean(other))
  {
    var c := AbsorbEdge(e, other).0;
    assert e.sum == Mean(e) * e.count;
    assert other.sum == Mean(other) * other.count;
    if Mean(e) <= Mean(other) {
      WeightedBounds(Mean(e), Mean(other), e.count, other.count);
      MeanBounds(c, Mean(e), Mean(other));
    } else {
      WeightedBounds(Mean(other), Mean(e), other.count, e.count);
      MeanBounds(c, Mean(other), Mean(e));
    }
  }

  /** A weighted sum of two values lies between the weighted extremes. */
  lemma {:induction false} WeightedBounds(lo: real, hi: real, wlo: real, whi: real)
    requires lo <= hi && wlo > 0.0 && whi > 0.0
    ensures lo * (wlo + whi) <= lo * wlo + hi * whi <= hi * (wlo + whi)
  {
    assert lo * whi <= hi * whi;
    assert lo * wlo <= hi * wlo;
  }

  lemma {:induction false} MeanBounds(c: RegionEdge, lo: real, hi: real)
    requires c.count > 0.0 && lo * c.count <= c.sum <= hi * c.count
    ensures lo <= Mean(c) <= hi
  {
    assert c.sum == Mean(c) * c.count;
  }

  // ---------------------------------------------------------------------
  // RegionProps

  /** One region: its id, its voxel tally and its contacts keyed by the other region's id. */
  datatype RegionProps = RegionProps(segid: SegId, voxelNum: nat, neighbors: map<SegId, RegionEdge>)

  /** A default-constructed region (what std::map inserts on a missing key). */
  const DefaultProps := RegionProps(0, 0, map[])

  /** neighbors[segid] read through std::map: a missing contact reads as a fresh edge. */
  function Get(neighbors: map<SegId, RegionEdge>, segid: SegId): RegionEdge {
    if segid in neighbors then neighbors[segid] else NoEdge
  }

  /** has_neighbor. */
  predicate HasNeighbor(p: RegionProps, segid: SegId) {
    segid in p.neighbors
  }

  /** The contacts of two regions added key by key. */
  function AddEdges(a: map<SegId, RegionEdge>, b: map<SegId, RegionEdge>): map<SegId, RegionEdge> {
    map k | k in a.Keys + b.Keys :: Plus(Get(a, k), Get(b, k))
  }

  /** The contacts after the keys in `done` of `b` have been added into `a`. */
  function PartialAdd(a: map<SegId, RegionEdge>, b: map<SegId, RegionEdge>, done: set<SegId>): map<SegId, RegionEdge> {
    map k | k in a.Keys + (b.Keys * done) :: if k in b && k in done then Plus(Get(a, k), b[k]) else a[k]
  }

  lemma {:induction false} PartialAddStep(a: map<SegId, RegionEdge>, b: map<SegId, RegionEdge>, remaining: set<SegId>, k: SegId)
    requires k in remaining && remaining <= b.Keys
    ensures PartialAdd(a, b, b.Keys - (remaining - {k})) ==
      PartialAdd(a, b, b.Keys - remaining)[k := AbsorbEdge(Get(PartialAdd(a, b, b.Keys - remaining), k), b[k]).0]
  {
    assert b.Keys - (remaining - {k}) == (b.Keys - remaining) + {k};
  }

  lemma {:induction false} PartialAddEnds(a: map<SegId, RegionEdge>, b: map<SegId, RegionEdge>)
    ensures PartialAdd(a, b, b.Keys - b.Keys) == a
    ensures PartialAdd(a, b, b.Keys - {}) == AddEdges(a, b)
  {
    assert b.Keys - b.Keys == {};
    assert b.Keys - {} == b.Keys;
  }

  /**
   * RegionProps::absorb followed by _cleanup of the smaller region: the
   * receiver adds the other's voxels and every one of its contacts; the
   * other keeps its id and nothing else.
   */
  method AbsorbProps(target: RegionProps, smaller: RegionProps) returns (t: RegionProps, s: RegionProps)
    ensures t == RegionProps(target.segid, target.voxelNum + smaller.voxelNum, AddEdges(target.neighbors, smaller.neighbors))
    ensures s == RegionProps(smaller.segid, 0, map[])
  {
    PartialAddEnds(target.neighbors, smaller.neighbors);
    var neighbors := target.neighbors;
    var remaining := smaller.neighbors.Keys;
    while remaining != {}
      invariant remaining <= smaller.neighbors.Keys
      invariant neighbors == PartialAdd(target.neighbors, smaller.neighbors, smaller.neighbors.Keys - remaining)
      decreases |remaining|
    {
      MinIdExists(remaining);
      var segid :| IsMinId(segid, remaining);
      var absorbed := AbsorbEdge(Get(neighbors, segid), smaller.neighbors[segid]);
      PartialAddStep(target.neighbors, smaller.neighbors, remaining, segid);
      neighbors := neighbors[segid := absorbed.0];
      remaining := remaining - {segid};
    }
    t := RegionProps(target.segid, target.voxelNum + smaller.voxelNum, neighbors);
    s := RegionProps(smaller.segid, 0, map[]);
  }

  /**
   * absorb conserves every contact and the voxel tally: what the two
   * regions held towards any id, the receiver now holds alone, and it
   * touches exactly the ids either of them touched.
   */
  lemma {:induction false} AbsorbConserves(target: RegionProps, smaller: RegionProps, k: SegId)
    ensures var merged := AddEdges(target.neighbors, smaller.neighbors);
      && Get(merged, k) == Plus(Get(target.neighbors, k), Get(smaller.neighbors, k))
      && (k in merged <==> HasNeighbor(target, k) || HasNeighbor(smaller, k))
  {
  }

  // ---------------------------------------------------------------------
  // The graph: regions keyed by id

  type Graph = map<SegId, RegionProps>

  /** _rg[segid] read through std::map: a missing region reads as a default one. */
  function Props(g: Graph, segid: SegId): RegionProps {
    if segid in g then g[segid] else DefaultProps
  }

  /** _rg[segid] as an lvalue: a missing id gets a default region. */
  function Touch(g: Graph, segid: SegId): (r: Graph)
    ensures r.Keys == g.Keys + {segid}
    ensures forall k :: k in r ==> r[k] == Props(g, k)
  {
    if segid in g then g else g[segid := DefaultProps]
  }

  /** The contact between two regions where the graph keeps it: at the smaller id. */
  function Between(g: Graph, a: SegId, b: SegId): RegionEdge {
    if a < b then Get(Props(g, a).neighbors, b) else Get(Props(g, b).neighbors, a)
  }

  /** Edges are kept at their smaller id, towards a tracked region, with at least one contact. */
  predicate WellFormed(g: Graph) {
    forall s1 :: s1 in g ==> forall s2 :: s2 in g[s1].neighbors ==>
      s1 < s2 && s2 in g && g[s1].neighbors[s2].count >= 1.0
  }

  /** accumulate_edge: one more face between segid1 and segid2, of affinity `aff`. */
  function WithContact(g: Graph, segid1: SegId, segid2: SegId, aff: real): Graph {
    if segid2 > 0 && segid1 != segid2 then
      var (s1, s2) := if segid2 < segid1 then (segid2, segid1) else (segid1, segid2);
      var p := Props(g, s1);
      var e := Get(p.neighbors, s2);
      g[s1 := p.(neighbors := p.neighbors[s2 := RegionEdge(e.count + 1.0, e.sum + aff)])]
    else g
  }

  /**
   * accumulate_edge adds exactly one face of affinity `aff` to the contact
   * between the two regions (when the second is foreground and differs
   * from the first) and leaves every other contact as it was.
   */
  lemma {:induction false} WithContactBetween(g: Graph, segid1: SegId, segid2: SegId, aff: real, a: SegId, b: SegId)
    ensures Between(WithContact(g, segid1, segid2, aff), a, b) ==
      if segid2 > 0 && segid1 != segid2 && ((a == segid1 && b == segid2) || (a == segid2 && b == segid1))
      then Plus(Between(g, a, b), RegionEdge(1.0, aff))
      else Between(g, a, b)
  {
  }

  /** Setting the edge from lo to a later tracked region hi, with at least one face, keeps the graph well formed. */
  lemma SetEdgeWellFormed(g: Graph, lo: SegId, hi: SegId, e: RegionEdge)
    requires WellFormed(g) && lo in g && hi in g && lo < hi && e.count >= 1.0
    ensures WellFormed(g[lo := g[lo].(neighbors := g[lo].neighbors[hi := e])])
  {
    var g' := g[lo := g[lo].(neighbors := g[lo].neighbors[hi := e])];
    forall s1: SegId, s2: SegId | s1 in g' && s2 in g'[s1].neighbors
      ensures s1 < s2 && s2 in g' && g'[s1].neighbors[s2].count >= 1.0
    {
      if s1 != lo {
        assert g'[s1] == g[s1];
      } else if s2 != hi {
        assert s2 in g[lo].neighbors;
      }
    }
  }

  /** A contact between two tracked regions keeps the graph well formed and its ids unchanged. */
  lemma WithContactWellFormed(g: Graph, segid1: SegId, segid2: SegId, aff: real)
    requires WellFormed(g) && segid1 in g && (segid2 > 0 ==> segid2 in g)
    ensures WellFormed(WithContact(g, segid1, segid2, aff))
    ensures WithContact(g, segid1, segid2, aff).Keys == g.Keys
  {
    if segid2 > 0 && segid1 != segid2 {
      var (lo, hi) := if segid2 < segid1 then (segid2, segid1) else (segid1, segid2);
      var e := Get(g[lo].neighbors, hi);
      assert e.count >= 0.0;
      SetEdgeWellFormed(g, lo, hi, RegionEdge(e.count + 1.0, e.sum + aff));
    }
  }

  /** The affinity channel of each axis: x, y, z in channels 0, 1, 2. */
  function Channel(a: Axis): nat {
    match a
    case Z => 2
    case Y => 1
    case X => 0
  }

  /** Three affinity channels over the fragment volume. */
  predicate AffinityShape(affs: array4<real>, frag: array3<SegId>) {
    && affs.Length0 == 3
    && affs.Length1 == frag.Length0 && affs.Length2 == frag.Length1 && affs.Length3 == frag.Length2
  }

  /** One region per nonzero fragment id, with no voxels counted and no contacts. */
  function InitialGraph(frag: array3<SegId>): (g: Graph)
    reads frag
    ensures g.Keys == Labels(frag) - {0}
  {
    map id | id in Labels(frag) - {0} :: RegionProps(id, 0, map[])
  }

  /** The contact a step of the scan records, if any. */
  function StepContact(g: Graph, affs: array4<real>, frag: array3<SegId>, s: Step): Graph
    requires AffinityShape(affs, frag)
    reads affs, frag
  {
    if InVolume(frag, s) && HasNeighbour(s) && frag[s.z, s.y, s.x] > 0 then
      var (nz, ny, nx) := Neighbour(s);
      WithContact(g, frag[s.z, s.y, s.x], frag[nz, ny, nx], affs[Channel(s.axis), s.z, s.y, s.x])
    else g
  }

  /** The graph after the contacts of a sequence of steps. */
  function Contacts(g: Graph, affs: array4<real>, frag: array3<SegId>, steps: seq<Step>): Graph
    requires AffinityShape(affs, frag)
    reads affs, frag
  {
    if steps == [] then g
    else StepContact(Contacts(g, affs, frag, steps[..|steps| - 1]), affs, frag, steps[|steps| - 1])
  }

  /** The graph the constructor builds. */
  function BuiltGraph(affs: array4<real>, frag: array3<SegId>): Graph
    requires AffinityShape(affs, frag)
    reads affs, frag
  {
    Contacts(InitialGraph(frag), affs, frag, ScanSteps(frag.Length0, frag.Length1, frag.Length2))
  }

  /** A step touches regions a and b: two different foreground fragments meet across it. */
  predicate Touches(frag: array3<SegId>, s: Step, a: SegId, b: SegId)
    reads frag
  {
    && InVolume(frag, s) && HasNeighbour(s)
    && var (nz, ny, nx) := Neighbour(s);
    && var u, v := frag[s.z, s.y, s.x], frag[nz, ny, nx];
    && u > 0 && v > 0 && u != v
    && ((u == a && v == b) || (u == b && v == a))
  }

  /** How many faces of the steps lie between regions a and b. */
  function ContactCount(frag: array3<SegId>, a: SegId, b: SegId, steps: seq<Step>): nat
    reads frag
  {
    if steps == [] then 0
    else ContactCount(frag, a, b, steps[..|steps| - 1]) + (if Touches(frag, steps[|steps| - 1], a, b) then 1 else 0)
  }

  /** The affinities of those faces, summed. */
  function ContactSum(affs: array4<real>, frag: array3<SegId>, a: SegId, b: SegId, steps: seq<Step>): real
    requires AffinityShape(affs, frag)
    reads affs, frag
  {
    if steps == [] then 0.0
    else
      var s := steps[|steps| - 1];
      ContactSum(affs, frag, a, b, steps[..|steps| - 1]) +
        (if Touches(frag, s, a, b) then affs[Channel(s.axis), s.z, s.y, s.x] else 0.0)
  }

  /** After a run of steps, each contact has grown by the faces the steps cross between its regions. */
  lemma {:induction false} ContactsBetween(g: Graph, affs: array4<real>, frag: array3<SegId>, steps: seq<Step>, a: SegId, b: SegId)
    requires AffinityShape(affs, frag)
    ensures Between(Contacts(g, affs, frag, steps), a, b) ==
      Plus(Between(g, a, b), RegionEdge(ContactCount(frag, a, b, steps) as real, ContactSum(affs, frag, a, b, steps)))
  {
    if steps != [] {
      var init, s := steps[..|steps| - 1], steps[|steps| - 1];
      var before := Contacts(g, affs, frag, init);
      ContactsBetween(g, affs, frag, init, a, b);
      StepContactBetween(before, affs, frag, s, a, b);
      var n, t := ContactCount(frag, a, b, init), ContactSum(affs, frag, a, b, init);
      if Touches(frag, s, a, b) {
        var aff := affs[Channel(s.axis), s.z, s.y, s.x];
        assert ContactCount(frag, a, b, steps) == n + 1;
        assert ContactSum(affs, frag, a, b, steps) == t + aff;
        assert Plus(Plus(Between(g, a, b), RegionEdge(n as real, t)), RegionEdge(1.0, aff)) ==
          Plus(Between(g, a, b), RegionEdge((n + 1) as real, t + aff));
      } else {
        assert ContactCount(frag, a, b, steps) == n;
        assert ContactSum(affs, frag, a, b, steps) == t;
      }
    }
  }

  lemma {:induction false} StepContactBetween(g: Graph, affs: array4<real>, frag: array3<SegId>, s: Step, a: SegId, b: SegId)
    requires AffinityShape(affs, frag)
    ensures Between(StepContact(g, affs, frag, s), a, b) ==
      if Touches(frag, s, a, b) then Plus(Between(g, a, b), RegionEdge(1.0, affs[Channel(s.axis), s.z, s.y, s.x]))
      else Between(g, a, b)
  {
    if InVolume(frag, s) && HasNeighbour(s) && frag[s.z, s.y, s.x] > 0 {
      var (nz, ny, nx) := Neighbour(s);
      WithContactBetween(g, frag[s.z, s.y, s.x], frag[nz, ny, nx], affs[Channel(s.axis), s.z, s.y, s.x], a, b);
    }
  }

  /** Contacts between tracked regions keep the graph well formed and its ids fixed. */
  lemma {:induction false} ContactsWellFormed(g: Graph, affs: array4<real>, frag: array3<SegId>, steps: seq<Step>)
    requires AffinityShape(affs, frag) && WellFormed(g) && g.Keys == Labels(frag) - {0}
    ensures WellFormed(Contacts(g, affs, frag, steps))
    ensures Contacts(g, affs, frag, steps).Keys == g.Keys
  {
    if steps != [] {
      var init, s := steps[..|steps| - 1], steps[|steps| - 1];
      ContactsWellFormed(g, affs, frag, init);
      var before := Contacts(g, affs, frag, init);
      if InVolume(frag, s) && HasNeighbour(s) && frag[s.z, s.y, s.x] > 0 {
        var (nz, ny, nx) := Neighbour(s);
        WithContactWellFormed(before, frag[s.z, s.y, s.x], frag[nz, ny, nx], affs[Channel(s.axis), s.z, s.y, s.x]);
      }
    }
  }

  /**
   * The constructed graph has one region per nonzero fragment id, each
   * with no voxels counted, and between any two regions a contact whose
   * count is the number of faces where they touch and whose sum is the
   * affinity across those faces; contacts sit at the smaller id.
   */
  lemma {:induction false} BuiltGraphContacts(affs: array4<real>, frag: array3<SegId>, a: SegId, b: SegId)
    requires AffinityShape(affs, frag)
    ensures var g := BuiltGraph(affs, frag);
      && g.Keys == Labels(frag) - {0}
      && WellFormed(g)
      && (forall k :: k in g ==> g[k].voxelNum == 0 && g[k].segid == k)
      && Between(g, a, b) == RegionEdge(
           ContactCount(frag, a, b, ScanSteps(frag.Length0, frag.Length1, frag.Length2)) as real,
           ContactSum(affs, frag, a, b, ScanSteps(frag.Length0, frag.Length1, frag.Length2)))
  {
    var steps := ScanSteps(frag.Length0, frag.Length1, frag.Length2);
    var g0 := InitialGraph(frag);
    ContactsWellFormed(g0, affs, frag, steps);
    ContactsBetween(g0, affs, frag, steps, a, b);
    ContactsKeepRegions(g0, affs, frag, steps);
  }

  /** Contacts never change a region's id or voxel tally. */
  lemma {:induction false} ContactsKeepRegions(g: Graph, affs: array4<real>, frag: array3<SegId>, steps: seq<Step>)
    requires AffinityShape(affs, frag)
    ensures forall k :: k in g ==> (
      && k in Contacts(g, affs, frag, steps)
      && Contacts(g, affs, frag, steps)[k].voxelNum == g[k].voxelNum
      && Contacts(g, affs, frag, steps)[k].segid == g[k].segid)
  {
    if steps != [] {
      ContactsKeepRegions(g, affs, frag, steps[..|steps| - 1]);
    }
  }

  // ---------------------------------------------------------------------
  // merge

  /** The region merge(s0, s1) keeps: s1, unless s0 has more voxels. */
  function Survivor(g: Graph, s0: SegId, s1: SegId): SegId {
    if Props(g, s0).voxelNum > Props(g, s1).voxelNum then s0 else s1
  }

  /** The region merge(s0, s1) empties: the other one. */
  function Absorbee(g: Graph, s0: SegId, s1: SegId): SegId {
    if Props(g, s0).voxelNum > Props(g, s1).voxelNum then s1 else s0
  }

  /** The surviving region absorbs the other, which is cleaned up. */
  function Absorbed(g: Graph, small: SegId, large: SegId): (r: Graph)
    requires small in g && large in g && small != large
    ensures r.Keys == g.Keys
  {
    g[large := RegionProps(g[large].segid, g[large].voxelNum + g[small].voxelNum,
                           AddEdges(g[large].neighbors, g[small].neighbors))]
     [small := RegionProps(g[small].segid, 0, map[])]
  }

  /** A region below the absorbed one, other than the survivor, that still has an edge to it. */
  predicate Moves(g: Graph, small: SegId, large: SegId, k: SegId) {
    k in g && k < small && k != large && small in g[k].neighbors
  }

  /** Region k after its edge to the absorbed region is handed on (kept at k when k is below the survivor). */
  function Lowered(p: RegionProps, small: SegId, large: SegId, k: SegId): RegionProps
    requires small in p.neighbors
  {
    var nb := p.neighbors;
    p.(neighbors := (if k < large then nb[large := Plus(Get(nb, large), nb[small])] else nb) - {small})
  }

  /** The survivor's contacts after the edges of the regions in `done` above it are handed over. */
  function Gathered(g: Graph, small: SegId, large: SegId, done: set<SegId>): map<SegId, RegionEdge>
    requires large in g
  {
    var nb := g[large].neighbors;
    var movers := set k | k in done && Moves(g, small, large, k) && large < k;
    map j | j in nb.Keys + movers :: if j in movers then Plus(Get(nb, j), g[j].neighbors[small]) else nb[j]
  }

  /** The graph after the loop of merge has visited the ids in `done`. */
  function Redirected(g: Graph, small: SegId, large: SegId, done: set<SegId>): (r: Graph)
    requires large in g
    ensures r.Keys == g.Keys
  {
    map k | k in g ::
      if k == large then g[k].(neighbors := Gathered(g, small, large, done))
      else if k in done && Moves(g, small, large, k) then Lowered(g[k], small, large, k)
      else g[k]
  }

  /** The whole of merge(s0, s1) on the graph. */
  function Merged(g: Graph, s0: SegId, s1: SegId): (r: Graph)
    requires s0 != s1
    ensures r.Keys == g.Keys + {s0, s1}
  {
    var small, large := Absorbee(g, s0, s1), Survivor(g, s0, s1);
    var a := Absorbed(Touch(Touch(g, s0), s1), small, large);
    Redirected(a, small, large, a.Keys)
  }

  /** The contact between a and b wherever it is kept, at a or at b. */
  function Contact(g: Graph, a: SegId, b: SegId): RegionEdge {
    Plus(Get(Props(g, a).neighbors, b), Get(Props(g, b).neighbors, a))
  }

  lemma {:induction false} MergedAt(g: Graph, s0: SegId, s1: SegId, k: SegId)
    requires s0 != s1
    ensures var small, large := Absorbee(g, s0, s1), Survivor(g, s0, s1);
      var a := Absorbed(Touch(Touch(g, s0), s1), small, large);
      && a == Absorbed(Touch(Touch(g, s0), s1), small, large)
      && Props(Merged(g, s0, s1), k) ==
        if k == large then a[k].(neighbors := Gathered(a, small, large, a.Keys))
        else if Moves(a, small, large, k) then Lowered(a[k], small, large, k)
        else Props(a, k)
  {
  }

  /**
   * After merge the absorbed region is empty: no voxels and no contacts,
   * and no region below it other than the survivor keeps an edge to it.
   * The survivor holds both voxel tallies; every other region keeps its
   * id and tally.
   */
  lemma {:induction false} MergeAbsorbs(g: Graph, s0: SegId, s1: SegId)
    requires s0 != s1
    ensures var small, large := Absorbee(g, s0, s1), Survivor(g, s0, s1);
      var m := Merged(g, s0, s1);
      && m[small].voxelNum == 0 && m[small].neighbors == map[]
      && m[large].voxelNum == Props(g, s0).voxelNum + Props(g, s1).voxelNum
      && (forall k :: k in g && k != s0 && k != s1 ==> m[k].voxelNum == g[k].voxelNum && m[k].segid == g[k].segid)
      && (forall k :: k in m && k < small && k != large ==> small !in m[k].neighbors)
  {
    var small, large := Absorbee(g, s0, s1), Survivor(g, s0, s1);
    var m := Merged(g, s0, s1);
    MergedAt(g, s0, s1, small);
    MergedAt(g, s0, s1, large);
    forall k | k in g && k != s0 && k != s1
      ensures m[k].voxelNum == g[k].voxelNum && m[k].segid == g[k].segid
    {
      MergedAt(g, s0, s1, k);
    }
    forall k | k in m && k < small && k != large
      ensures small !in m[k].neighbors
    {
      MergedAt(g, s0, s1, k);
    }
  }

  /** In a well-formed graph nothing is kept at the larger end of a contact. */
  lemma {:induction false} NothingBelow(g: Graph, a: SegId, b: SegId)
    requires WellFormed(g) && b <= a
    ensures Get(Props(g, a).neighbors, b) == NoEdge
  {
  }

  /**
   * merge loses no contact: starting from a well-formed graph, what any
   * other region k had with the two merged regions, it now has with the
   * survivor alone (at whichever end it is kept), it has nothing left with
   * the absorbed region, and contacts between two other regions are
   * untouched.
   */
  lemma {:induction false} MergeConservesContacts(g: Graph, s0: SegId, s1: SegId, k: SegId, j: SegId)
    requires s0 != s1 && WellFormed(g)
    ensures var small, large := Absorbee(g, s0, s1), Survivor(g, s0, s1);
      var m := Merged(g, s0, s1);
      && (k != small && k != large ==>
           && Contact(m, k, large) == Plus(Contact(g, k, large), Contact(g, k, small))
           && Contact(m, k, small) == NoEdge)
      && (k != small && k != large && j != small && j != large ==> Contact(m, k, j) == Contact(g, k, j))
  {
    var small, large := Absorbee(g, s0, s1), Survivor(g, s0, s1);
    if k != small && k != large {
      if j != small && j != large {
        MergedKeepsOther(g, s0, s1, k, j);
      }
      WellFormedAround(g, small, large, k);
      MergedAtLower(g, s0, s1, k);
      MergedAtSurvivor(g, s0, s1, k);
      SurvivorSum(g, Merged(g, s0, s1), small, large, k);
      MergedToAbsorbed(g, s0, s1, k);
    }
  }

  /**
   * merge does not keep the layout, so a second merge can strand a contact.
   * Region 1 touches region 2. merge(1, 3) copies that edge to region 3
   * under its old key 2, i.e. at the larger end. merge(2, 5) then only
   * redirects edges held by regions below 2, so region 3's contact with
   * the absorbed region 2 stays where it is and the survivor 5 never gets it.
   */
  lemma {:induction false} MergeStrandsContact()
    ensures var e := RegionEdge(1.0, 0.5);
      var g := map[1 := RegionProps(1, 0, map[2 := e]), 2 := RegionProps(2, 0, map[]),
                   3 := RegionProps(3, 0, map[]), 5 := RegionProps(5, 0, map[])];
      var g1 := Merged(g, 1, 3);
      var g2 := Merged(g1, 2, 5);
      && WellFormed(g) && !WellFormed(g1)
      && Contact(g1, 3, 2) == e
      && Contact(g2, 3, 5) == NoEdge && Contact(g2, 3, 2) == e
  {
    var e := RegionEdge(1.0, 0.5);
    var g := map[1 := RegionProps(1, 0, map[2 := e]), 2 := RegionProps(2, 0, map[]),
                 3 := RegionProps(3, 0, map[]), 5 := RegionProps(5, 0, map[])];
    assert WellFormed(g);
    FirstMergeOfExample(g, e);
    var g1 := Merged(g, 1, 3);
    assert 3 in g1 && 2 in g1[3].neighbors && !(3 < 2);
    SecondMergeOfExample(g1, e);
  }

  /** The first merge of MergeStrandsContact: region 3 receives 1's edge under the key 2. */
  lemma {:induction false} FirstMergeOfExample(g: Graph, e: RegionEdge)
    requires 1 in g && 2 in g && 3 in g && 5 in g
    requires g[1].voxelNum == 0 && g[3] == RegionProps(3, 0, map[])
    requires g[1].neighbors == map[2 := e]
    ensures var g1 := Merged(g, 1, 3);
      && 2 in g1 && 3 in g1 && 5 in g1
      && g1[2] == g[2] && g1[5] == g[5] && g1[3].neighbors == map[2 := e]
  {
    var g1 := Merged(g, 1, 3);
    assert Absorbee(g, 1, 3) == 1 && Survivor(g, 1, 3) == 3;
    MergedAt(g, 1, 3, 2);
    MergedAt(g, 1, 3, 3);
    MergedAt(g, 1, 3, 5);
    assert AddEdges(map[], map[2 := e]) == map[2 := e];
  }

  /** The second merge of MergeStrandsContact: nothing redirects region 3's edge to region 2. */
  lemma {:induction false} SecondMergeOfExample(g1: Graph, e: RegionEdge)
    requires 2 in g1 && 3 in g1 && 5 in g1
    requires g1[2] == RegionProps(2, 0, map[]) && g1[5] == RegionProps(5, 0, map[])
    requires g1[3].neighbors == map[2 := e]
    ensures Contact(g1, 3, 2) == e
    ensures var g2 := Merged(g1, 2, 5);
      Contact(g2, 3, 5) == NoEdge && Contact(g2, 3, 2) == e
  {
    var g2 := Merged(g1, 2, 5);
    MergedAt(g1, 2, 5, 2);
    MergedAt(g1, 2, 5, 3);
    MergedAt(g1, 2, 5, 5);
    assert AddEdges(map[], map[]) == map[];
    assert g2[3].neighbors == map[2 := e];
    assert g2[2].neighbors == map[] && g2[5].neighbors == map[];
  }

  /** The four facts of a well-formed layout that merge's bookkeeping relies on around region k. */
  predicate LayoutAround(g: Graph, small: SegId, large: SegId, k: SegId) {
    && (k < small ==> Get(Props(g, small).neighbors, k) == NoEdge)
    && (small < k ==> Get(Props(g, k).neighbors, small) == NoEdge)
    && (k < large ==> Get(Props(g, large).neighbors, k) == NoEdge)
    && (large < k ==> Get(Props(g, k).neighbors, large) == NoEdge)
  }

  lemma {:induction false} WellFormedAround(g: Graph, small: SegId, large: SegId, k: SegId)
    requires WellFormed(g)
    ensures LayoutAround(g, small, large, k)
  {
    if k < small {
      NothingBelow(g, small, k);
    } else {
      NothingBelow(g, k, small);
    }
    if k > large {
      NothingBelow(g, k, large);
    } else {
      NothingBelow(g, large, k);
    }
  }

  lemma {:induction false} MergedKeepsOther(g: Graph, s0: SegId, s1: SegId, k: SegId, j: SegId)
    requires s0 != s1
    requires var small, large := Absorbee(g, s0, s1), Survivor(g, s0, s1);
      k != small && k != large && j != small && j != large
    ensures Contact(Merged(g, s0, s1), k, j) == Contact(g, k, j)
  {
    MergedOtherEntry(g, s0, s1, k, j);
    MergedOtherEntry(g, s0, s1, j, k);
  }

  lemma {:induction false} MergedOtherEntry(g: Graph, s0: SegId, s1: SegId, k: SegId, j: SegId)
    requires s0 != s1
    requires var small, large := Absorbee(g, s0, s1), Survivor(g, s0, s1);
      k != small && k != large && j != small && j != large
    ensures Get(Props(Merged(g, s0, s1), k).neighbors, j) == Get(Props(g, k).neighbors, j)
  {
    var small, large := Absorbee(g, s0, s1), Survivor(g, s0, s1);
    MergedAt(g, s0, s1, k);
    var a := Absorbed(Touch(Touch(g, s0), s1), small, large);
    assert Props(a, k) == Props(g, k);
    if Moves(a, small, large, k) {
      var p := Lowered(a[k], small, large, k);
      assert Get(p.neighbors, j) == Get(a[k].neighbors, j);
    }
  }

  /** What region k keeps towards the survivor once merge has handed on its edge to the absorbed region. */
  function KeptAtOther(g: Graph, small: SegId, large: SegId, k: SegId): RegionEdge {
    var nb := Props(g, k).neighbors;
    if k < small && small in nb && k < large then Plus(Get(nb, large), nb[small]) else Get(nb, large)
  }

  /** What the survivor keeps towards region k once merge has gathered both regions' edges. */
  function KeptAtSurvivor(g: Graph, small: SegId, large: SegId, k: SegId): RegionEdge {
    var nb := Props(g, k).neighbors;
    Plus(Plus(Get(Props(g, large).neighbors, k), Get(Props(g, small).neighbors, k)),
         if k < small && small in nb && large < k then nb[small] else NoEdge)
  }

  /** Given what merge leaves at region k and at the survivor (m is the graph after merge), their contact adds up. */
  lemma {:induction false} SurvivorSum(g: Graph, m: Graph, small: SegId, large: SegId, k: SegId)
    requires LayoutAround(g, small, large, k) && k != small && k != large && small != large
    requires Get(Props(m, k).neighbors, large) == KeptAtOther(g, small, large, k)
    requires Get(Props(m, large).neighbors, k) == KeptAtSurvivor(g, small, large, k)
    ensures Contact(m, k, large) == Plus(Contact(g, k, large), Contact(g, k, small))
  {
  }

  /** What region k keeps towards the survivor after merge. */
  lemma {:induction false} MergedAtLower(g: Graph, s0: SegId, s1: SegId, k: SegId)
    requires s0 != s1
    requires var small, large := Absorbee(g, s0, s1), Survivor(g, s0, s1);
      k != small && k != large
    ensures Get(Props(Merged(g, s0, s1), k).neighbors, Survivor(g, s0, s1)) ==
      KeptAtOther(g, Absorbee(g, s0, s1), Survivor(g, s0, s1), k)
  {
    var small, large := Absorbee(g, s0, s1), Survivor(g, s0, s1);
    MergedAt(g, s0, s1, k);
    var a := Absorbed(Touch(Touch(g, s0), s1), small, large);
    assert Props(a, k) == Props(g, k);
  }

  lemma {:induction false} GatheredAt(g: Graph, small: SegId, large: SegId, done: set<SegId>, k: SegId)
    requires large in g
    ensures Get(Gathered(g, small, large, done), k) ==
      if k in done && Moves(g, small, large, k) && large < k
      then Plus(Get(g[large].neighbors, k), g[k].neighbors[small])
      else Get(g[large].neighbors, k)
  {
  }

  /** What the survivor keeps towards region k after merge. */
  lemma {:induction false} MergedAtSurvivor(g: Graph, s0: SegId, s1: SegId, k: SegId)
    requires s0 != s1
    requires var small, large := Absorbee(g, s0, s1), Survivor(g, s0, s1);
      k != small && k != large
    ensures Get(Props(Merged(g, s0, s1), Survivor(g, s0, s1)).neighbors, k) ==
      KeptAtSurvivor(g, Absorbee(g, s0, s1), Survivor(g, s0, s1), k)
  {
    var small, large := Absorbee(g, s0, s1), Survivor(g, s0, s1);
    var a := Absorbed(Touch(Touch(g, s0), s1), small, large);
    SurvivorEntry(g, s0, s1);
    GatheredFromGraph(g, s0, s1, small, large, k);
  }

  lemma {:induction false} SurvivorEntry(g: Graph, s0: SegId, s1: SegId)
    requires s0 != s1
    ensures var small, large := Absorbee(g, s0, s1), Survivor(g, s0, s1);
      var a := Absorbed(Touch(Touch(g, s0), s1), small, large);
      Merged(g, s0, s1)[large].neighbors == Gathered(a, small, large, a.Keys)
  {
  }

  lemma {:induction false} GatheredFromGraph(g: Graph, s0: SegId, s1: SegId, small: SegId, large: SegId, k: SegId)
    requires (small == s0 && large == s1) || (small == s1 && large == s0)
    requires s0 != s1 && k != small && k != large
    ensures var a := Absorbed(Touch(Touch(g, s0), s1), small, large);
      Get(Gathered(a, small, large, a.Keys), k) == KeptAtSurvivor(g, small, large, k)
  {
    var a := Absorbed(Touch(Touch(g, s0), s1), small, large);
    AbsorbedFromGraph(g, s0, s1, small, large, k);
    AbsorbConserves(Props(g, large), Props(g, small), k);
    GatheredFrom(a, g, small, large, k);
  }

  /** The survivor's entry for k after the loop, given what absorb left in a. */
  lemma {:induction false} GatheredFrom(a: Graph, g: Graph, small: SegId, large: SegId, k: SegId)
    requires large in a && k != small && k != large
    requires Get(a[large].neighbors, k) == Plus(Get(Props(g, large).neighbors, k), Get(Props(g, small).neighbors, k))
    requires Props(a, k) == Props(g, k)
    ensures Get(Gathered(a, small, large, a.Keys), k) == KeptAtSurvivor(g, small, large, k)
  {
    GatheredAt(a, small, large, a.Keys, k);
  }

  lemma {:induction false} AbsorbedFromGraph(g: Graph, s0: SegId, s1: SegId, small: SegId, large: SegId, k: SegId)
    requires (small == s0 && large == s1) || (small == s1 && large == s0)
    requires s0 != s1 && k != small && k != large
    ensures var a := Absorbed(Touch(Touch(g, s0), s1), small, large);
      && a[large].neighbors == AddEdges(Props(g, large).neighbors, Props(g, small).neighbors)
      && Props(a, k) == Props(g, k)
  {
    var t := Touch(Touch(g, s0), s1);
    assert t[large] == Props(g, large) && t[small] == Props(g, small);
    assert Props(t, k) == Props(g, k);
  }

  lemma {:induction false} MergedToAbsorbed(g: Graph, s0: SegId, s1: SegId, k: SegId)
    requires s0 != s1 && k != Absorbee(g, s0, s1) && k != Survivor(g, s0, s1)
    requires LayoutAround(g, Absorbee(g, s0, s1), Survivor(g, s0, s1), k)
    ensures Contact(Merged(g, s0, s1), k, Absorbee(g, s0, s1)) == NoEdge
  {
    MergedAt(g, s0, s1, k);
    MergedAt(g, s0, s1, Absorbee(g, s0, s1));
  }

  /**
   * As written, the constructor never fills in voxel tallies, so every
   * region has voxelNum 0; then merge(s0, s1) always absorbs s0 into s1,
   * and tallies stay 0.
   */
  lemma {:induction false} MergeWithoutTallies(g: Graph, s0: SegId, s1: SegId)
    requires s0 != s1 && forall k :: k in g ==> g[k].voxelNum == 0
    ensures Absorbee(g, s0, s1) == s0 && Survivor(g, s0, s1) == s1
    ensures forall k :: k in Merged(g, s0, s1) ==> Merged(g, s0, s1)[k].voxelNum == 0
  {
    forall k | k in Merged(g, s0, s1)
      ensures Merged(g, s0, s1)[k].voxelNum == 0
    {
      MergedAt(g, s0, s1, k);
    }
  }

  // ---------------------------------------------------------------------
  // Building the graph, voxel by voxel

  lemma {:induction false} ContactsSnoc(g: Graph, affs: array4<real>, frag: array3<SegId>, steps: seq<Step>, s: Step)
    requires AffinityShape(affs, frag)
    ensures Contacts(g, affs, frag, steps + [s]) == StepContact(Contacts(g, affs, frag, steps), affs, frag, s)
  {
    assert (steps + [s])[..|steps|] == steps;
  }

  /** Contacts over two runs of steps is contacts over the first, then over the second. */
  lemma {:induction false} ContactsConcat(g: Graph, affs: array4<real>, frag: array3<SegId>, a: seq<Step>, b: seq<Step>)
    requires AffinityShape(affs, frag)
    ensures Contacts(g, affs, frag, a + b) == Contacts(Contacts(g, affs, frag, a), affs, frag, b)
    decreases |b|
  {
    if b == [] {
      assert a + b == a;
    } else {
      var init, last := b[..|b| - 1], b[|b| - 1];
      assert a + b == (a + init) + [last];
      ContactsSnoc(g, affs, frag, a + init, last);
      ContactsConcat(g, affs, frag, a, init);
    }
  }

  /** One more voxel of a row: its contacts come after those of the voxels before it. */
  lemma ContactsLineNext(g: Graph, affs: array4<real>, frag: array3<SegId>, z: nat, y: nat, x: nat)
    requires AffinityShape(affs, frag)
    ensures Contacts(g, affs, frag, LineSteps(z, y, x + 1)) ==
      Contacts(Contacts(g, affs, frag, LineSteps(z, y, x)), affs, frag, VoxelSteps(z, y, x))
  {
    ContactsConcat(g, affs, frag, LineSteps(z, y, x), VoxelSteps(z, y, x));
  }

  /** One more row of a plane: its contacts come after those of the rows before it. */
  lemma ContactsPlaneNext(g: Graph, affs: array4<real>, frag: array3<SegId>, z: nat, y: nat, sx: nat)
    requires AffinityShape(affs, frag)
    ensures Contacts(g, affs, frag, PlaneSteps(z, y + 1, sx)) ==
      Contacts(Contacts(g, affs, frag, PlaneSteps(z, y, sx)), affs, frag, LineSteps(z, y, sx))
  {
    ContactsConcat(g, affs, frag, PlaneSteps(z, y, sx), LineSteps(z, y, sx));
  }

  /** One more plane of the volume: its contacts come after those of the planes before it. */
  lemma ContactsScanNext(g: Graph, affs: array4<real>, frag: array3<SegId>, z: nat, sy: nat, sx: nat)
    requires AffinityShape(affs, frag)
    ensures Contacts(g, affs, frag, ScanSteps(z + 1, sy, sx)) ==
      Contacts(Contacts(g, affs, frag, ScanSteps(z, sy, sx)), affs, frag, PlaneSteps(z, sy, sx))
  {
    ContactsConcat(g, affs, frag, ScanSteps(z, sy, sx), PlaneSteps(z, sy, sx));
  }

  /** The contacts of one voxel are its z, y and x looks, in that order. */
  lemma {:induction false} ContactsVoxel(g: Graph, affs: array4<real>, frag: array3<SegId>, z: nat, y: nat, x: nat)
    requires AffinityShape(affs, frag)
    ensures Contacts(g, affs, frag, VoxelSteps(z, y, x)) ==
      StepContact(StepContact(StepContact(g, affs, frag, Step(z, y, x, Z)), affs, frag, Step(z, y, x, Y)), affs, frag, Step(z, y, x, X))
  {
    var sz, sy, sx := Step(z, y, x, Z), Step(z, y, x, Y), Step(z, y, x, X);
    ContactsSnoc(g, affs, frag, [], sz);
    ContactsSnoc(g, affs, frag, [sz], sy);
    ContactsSnoc(g, affs, frag, [sz, sy], sx);
    assert [] + [sz] == [sz];
    assert [sz] + [sy] == [sz, sy];
    assert [sz, sy] + [sx] == VoxelSteps(z, y, x);
  }

  /** One region per nonzero label of the fragments, in ascending order of id. */
  method InitialRegions(frag: array3<SegId>) returns (g: Graph)
    ensures g == InitialGraph(frag)
  {
    var segids := Labels(frag);
    g := map[];
    var remaining := segids;
    while remaining != {}
      invariant remaining <= segids
      invariant g.Keys == (segids - remaining) - {0}
      invariant forall k :: k in g ==> g[k] == RegionProps(k, 0, map[])
      decreases |remaining|
    {
      MinIdExists(remaining);
      var segid :| IsMinId(segid, remaining);
      if segid > 0 {
        g := g[segid := RegionProps(segid, 0, map[])];
      }
      remaining := remaining - {segid};
    }
    assert g.Keys == InitialGraph(frag).Keys;
  }

  // ---------------------------------------------------------------------
  // merge, step by step

  /** Visiting a region in merge's loop leaves the survivor's contacts alone unless that region is above it. */
  lemma {:induction false} GatheredStep(a: Graph, small: SegId, large: SegId, done: set<SegId>, k: SegId)
    requires large in a && k !in done
    ensures var g0 := Gathered(a, small, large, done);
      Gathered(a, small, large, done + {k}) ==
        if Moves(a, small, large, k) && large < k then g0[k := Plus(Get(g0, k), a[k].neighbors[small])] else g0
  {
    var g0 := Gathered(a, small, large, done);
    if Moves(a, small, large, k) && large < k {
      assert Get(g0, k) == Get(a[large].neighbors, k);
    }
  }

  /** Visiting a region that keeps its contacts, or lowers its edge to a region below the survivor. */
  lemma {:induction false} RedirectedAtOther(a: Graph, small: SegId, large: SegId, done: set<SegId>, k: SegId)
    requires large in a && k in a && k !in done && !(Moves(a, small, large, k) && large < k)
    ensures var cur := Redirected(a, small, large, done);
      Redirected(a, small, large, done + {k}) ==
        if Moves(a, small, large, k) then cur[k := Lowered(a[k], small, large, k)] else cur
  {
    GatheredStep(a, small, large, done, k);
  }

  /** Visiting a region above the survivor: its edge to the absorbed region joins the survivor's contact with it. */
  lemma {:induction false} RedirectedAtUpper(a: Graph, small: SegId, large: SegId, done: set<SegId>, k: SegId)
    requires large in a && k in a && k !in done && Moves(a, small, large, k) && large < k
    ensures var cur := Redirected(a, small, large, done);
      var nb := cur[large].neighbors;
      Redirected(a, small, large, done + {k}) ==
        cur[large := cur[large].(neighbors := nb[k := Plus(Get(nb, k), a[k].neighbors[small])])]
           [k := Lowered(a[k], small, large, k)]
  {
    GatheredStep(a, small, large, done, k);
  }

  lemma {:induction false} RedirectedEnds(a: Graph, small: SegId, large: SegId)
    requires large in a
    ensures Redirected(a, small, large, a.Keys - a.Keys) == a
  {
    assert a.Keys - a.Keys == {};
    assert Gathered(a, small, large, {}) == a[large].neighbors;
  }

  // ---------------------------------------------------------------------
  // greedy_merge_until

  /** An entry of the heap: the two regions of a contact and its mean affinity. */
  type HeapEdge = (SegId, SegId, real)

  /** The heap entries of one region's contacts, except those towards the ids in `rest`. */
  function ContactEdges(s1: SegId, nb: map<SegId, RegionEdge>, rest: set<SegId>): set<HeapEdge>
    requires forall s2 :: s2 in nb ==> nb[s2].count >= 1.0
  {
    set s2 | s2 in nb && s2 !in rest :: (s1, s2, Mean(nb[s2]))
  }

  /** The heap entries of the contacts kept at every region except those in `rest`. */
  function EdgesOf(g: Graph, rest: set<SegId>): (heap: set<HeapEdge>)
    requires WellFormed(g)
    ensures forall e :: e in heap ==> e.0 < e.1 && e.0 in g && e.1 in g && e.0 !in rest
  {
    set s1, s2 | s1 in g && s1 !in rest && s2 in g[s1].neighbors :: (s1, s2, Mean(g[s1].neighbors[s2]))
  }

  /** The heap greedy_merge_until starts from: every contact of the graph with its mean affinity. */
  function HeapEdges(g: Graph): (heap: set<HeapEdge>)
    requires WellFormed(g)
    ensures forall e :: e in heap ==> e.0 < e.1 && e.0 in g && e.1 in g
  {
    EdgesOf(g, {})
  }

  lemma {:induction false} ContactEdgesStep(s1: SegId, nb: map<SegId, RegionEdge>, rest: set<SegId>, k: SegId)
    requires forall s2 :: s2 in nb ==> nb[s2].count >= 1.0
    requires k in rest && k in nb
    ensures ContactEdges(s1, nb, rest - {k}) == ContactEdges(s1, nb, rest) + {(s1, k, Mean(nb[k]))}
  {
  }

  lemma {:induction false} PushOne(before: set<HeapEdge>, pushed: set<HeapEdge>, e: HeapEdge)
    ensures (before + pushed) + {e} == before + (pushed + {e})
  {
  }

  lemma {:induction false} ContactEdgesEnds(s1: SegId, nb: map<SegId, RegionEdge>)
    requires forall s2 :: s2 in nb ==> nb[s2].count >= 1.0
    ensures ContactEdges(s1, nb, nb.Keys) == {}
  {
  }

  lemma {:induction false} EdgesOfStep(g: Graph, rest: set<SegId>, k: SegId)
    requires WellFormed(g) && k in g && k in rest
    ensures EdgesOf(g, rest - {k}) == EdgesOf(g, rest) + ContactEdges(k, g[k].neighbors, {})
  {
  }

  lemma {:induction false} EdgesOfEnds(g: Graph)
    requires WellFormed(g)
    ensures EdgesOf(g, g.Keys) == {}
  {
  }

  /** A nonempty heap has a top: an entry whose mean no other entry exceeds. */
  lemma {:induction false} TopExists(heap: set<HeapEdge>)
    requires heap != {}
    ensures exists e :: e in heap && forall f :: f in heap ==> f.2 <= e.2
    decreases |heap|
  {
    var x :| x in heap;
    if heap != {x} {
      TopExists(heap - {x});
      var m :| m in heap - {x} && forall f :: f in heap - {x} ==> f.2 <= m.2;
      if m.2 < x.2 {
        assert forall f :: f in heap ==> f.2 <= x.2;
      } else {
        assert forall f :: f in heap ==> f.2 <= m.2;
      }
    } else {
      assert forall f :: f in heap ==> f.2 <= x.2;
    }
  }

  /** Every entry joins a lower id to a higher one, as the heap's entries do. */
  predicate Ordered(edges: seq<HeapEdge>)
  {
    forall i :: 0 <= i < |edges| ==> edges[i].0 < edges[i].1
  }

  /** Both ids of every entry are keys of `rep0`. */
  predicate Tracked(edges: seq<HeapEdge>, rep0: map<SegId, SegId>)
  {
    forall i :: 0 <= i < |edges| ==> edges[i].0 in rep0 && edges[i].1 in rep0
  }

  /** The graph after merge along each entry in turn. */
  function MergedAll(g: Graph, edges: seq<HeapEdge>): Graph
    requires Ordered(edges)
  {
    if edges == [] then g
    else
      var e := edges[|edges| - 1];
      Merged(MergedAll(g, edges[..|edges| - 1]), e.0, e.1)
  }

  /** The region pairs of heap entries, for the union-find. */
  function PairsOf(edges: seq<HeapEdge>): (pairs: seq<Pair>)
    ensures |pairs| == |edges|
    ensures forall i :: 0 <= i < |edges| ==> pairs[i] == (edges[i].0, edges[i].1)
  {
    seq(|edges|, i requires 0 <= i < |edges| => (edges[i].0, edges[i].1))
  }

  lemma {:induction false} MergedAllSnoc(g: Graph, edges: seq<HeapEdge>, e: HeapEdge)
    requires Ordered(edges) && Ordered(edges + [e]) && e.0 < e.1
    ensures MergedAll(g, edges + [e]) == Merged(MergedAll(g, edges), e.0, e.1)
  {
    assert (edges + [e])[..|edges|] == edges;
  }

  lemma {:induction false} PairsOfSnoc(edges: seq<HeapEdge>, e: HeapEdge)
    ensures PairsOf(edges + [e]) == PairsOf(edges) + [(e.0, e.1)]
  {
    assert PairsOf(edges + [e])[|edges|] == (e.0, e.1);
  }

  /**
   * The representative map after union_set along each entry's regions in
   * turn; the library's union by rank decides which root survives, recorded
   * in `toFirst` (true: the second id's root is linked under the first's).
   * An entry naming an id outside the structure leaves it as it is; the
   * heap's entries never do (every label was made a set first).
   */
  function UnitedAlong(rep0: map<SegId, SegId>, edges: seq<HeapEdge>, toFirst: seq<bool>): (rep: map<SegId, SegId>)
    requires |toFirst| == |edges|
    ensures rep.Keys == rep0.Keys
  {
    if edges == [] then rep0
    else
      var n := |edges| - 1;
      UniteStep(UnitedAlong(rep0, edges[..n], toFirst[..n]), edges[n], toFirst[n])
  }

  /** One union_set of the fold: link one of the entry's roots under the other. */
  function UniteStep(r: map<SegId, SegId>, e: HeapEdge, toFirst: bool): (r': map<SegId, SegId>)
    ensures r'.Keys == r.Keys
  {
    if e.0 !in r || e.1 !in r then r
    else if toFirst then Linked(r, r[e.1], r[e.0]) else Linked(r, r[e.0], r[e.1])
  }

  lemma {:induction false} UniteStepCanonical(r: map<SegId, SegId>, e: HeapEdge, toFirst: bool)
    requires Canonical(r)
    ensures Canonical(UniteStep(r, e, toFirst))
  {
    if e.0 in r && e.1 in r {
      if toFirst {
        LinkedCanonical(r, r[e.1], r[e.0]);
      } else {
        LinkedCanonical(r, r[e.0], r[e.1]);
      }
    }
  }

  lemma {:induction false} UnitedAlongSnoc(rep0: map<SegId, SegId>, edges: seq<HeapEdge>, toFirst: seq<bool>, e: HeapEdge, b: bool)
    requires |toFirst| == |edges|
    ensures UnitedAlong(rep0, edges + [e], toFirst + [b]) == UniteStep(UnitedAlong(rep0, edges, toFirst), e, b)
  {
    assert (edges + [e])[..|edges|] == edges;
    assert (toFirst + [b])[..|edges|] == toFirst;
  }

  /** Every tracked id is still a set of its own, as make_set leaves it. */
  predicate AllSingletons(rep: map<SegId, SegId>)
  {
    forall k :: k in rep ==> rep[k] == k
  }

  /** Whichever roots survive, union_set along the entries from singletons keeps the map canonical. */
  lemma {:induction false} UnitedAlongCanonical(rep0: map<SegId, SegId>, edges: seq<HeapEdge>, toFirst: seq<bool>)
    requires AllSingletons(rep0) && |toFirst| == |edges|
    ensures Canonical(UnitedAlong(rep0, edges, toFirst))
  {
    if edges == [] {
      assert Canonical(rep0);
    } else {
      var n := |edges| - 1;
      var r := UnitedAlong(rep0, edges[..n], toFirst[..n]);
      assert UnitedAlong(rep0, edges, toFirst) == UniteStep(r, edges[n], toFirst[n]);
      UnitedAlongCanonical(rep0, edges[..n], toFirst[..n]);
      UniteStepCanonical(r, edges[n], toFirst[n]);
    }
  }

  /**
   * Whichever roots survive, union_set along the entries leaves a canonical
   * map holding exactly the starting partition joined along their pairs.
   */
  lemma {:induction false} UnitedAlongJoins(rep0: map<SegId, SegId>, edges: seq<HeapEdge>, toFirst: seq<bool>)
    requires AllSingletons(rep0)
    requires |toFirst| == |edges| && Tracked(edges, rep0)
    ensures Canonical(UnitedAlong(rep0, edges, toFirst))
    ensures Joins(UnitedAlong(rep0, edges, toFirst), rep0, PairsOf(edges))
  {
    if edges == [] {
      assert Canonical(rep0);
      JoinsNothing(rep0);
    } else {
      var n := |edges| - 1;
      var init, e := edges[..n], edges[n];
      assert init + [e] == edges;
      PairsOfSnoc(init, e);
      var p := (e.0, e.1);
      UnitedAlongLast(rep0, edges, toFirst);
      var r := UnitedAlong(rep0, init, toFirst[..n]);
      var r' := UnitedAlong(rep0, edges, toFirst);
      UnitedAlongJoins(rep0, init, toFirst[..n]);
      MakeSetIdempotent(r, p.0);
      MakeSetIdempotent(r, p.1);
      MakeAndUnionJoins(r, r', p.0, p.1);
      JoinsSnoc(rep0, PairsOf(init), r, r', p);
    }
  }

  /** The last entry's union_set takes the map along all but the last entry to the map along all of them. */
  lemma {:induction false} UnitedAlongLast(rep0: map<SegId, SegId>, edges: seq<HeapEdge>, toFirst: seq<bool>)
    requires |toFirst| == |edges| && edges != [] && Tracked(edges, rep0)
    ensures var n := |edges| - 1;
      var r := UnitedAlong(rep0, edges[..n], toFirst[..n]);
      && edges[n].0 in r && edges[n].1 in r
      && UnionOf(r, UnitedAlong(rep0, edges, toFirst), edges[n].0, edges[n].1)
  {
  }

  /**
   * The loop state of greedy_merge_until: `popped` holds, in the order they
   * were taken, the entries of `heap0` no longer in `heap`, all at or above
   * `threshold`, with nonincreasing means none below what is left.
   */
  ghost predicate PoppedInOrder(heap0: set<HeapEdge>, heap: set<HeapEdge>, popped: seq<HeapEdge>, threshold: real)
  {
    && heap <= heap0
    && (forall e :: e in popped <==> e in heap0 && e !in heap)
    && (forall i :: 0 <= i < |popped| ==> popped[i].2 >= threshold)
    && (forall i, j :: 0 <= i < j < |popped| ==> popped[i] != popped[j] && popped[j].2 <= popped[i].2)
    && (forall i, e :: 0 <= i < |popped| && e in heap ==> e.2 <= popped[i].2)
  }

  /** Taking the top off the heap keeps the loop state, and shrinks the heap. */
  lemma {:induction false} PopTop(heap0: set<HeapEdge>, heap: set<HeapEdge>, popped: seq<HeapEdge>, threshold: real,
                                  rep0: map<SegId, SegId>, top: HeapEdge)
    requires forall e :: e in heap0 ==> e.0 < e.1 && e.0 in rep0 && e.1 in rep0
    requires PoppedInOrder(heap0, heap, popped, threshold) && Ordered(popped)
    requires top in heap && top.2 >= threshold && forall e :: e in heap ==> e.2 <= top.2
    ensures PoppedInOrder(heap0, heap - {top}, popped + [top], threshold)
    ensures Ordered(popped + [top])
    ensures top.0 < top.1 && top.0 in rep0 && top.1 in rep0
    ensures |heap - {top}| < |heap|
  {
    var p := popped + [top];
    forall e
      ensures e in p <==> e in heap0 && e !in heap - {top}
    {
      if e in p && e != top {
        var i :| 0 <= i < |p| && p[i] == e;
        assert i < |popped| && popped[i] == e;
      }
      if e == top {
        assert p[|popped|] == e;
      }
    }
  }

  /** Once everything left is below the threshold, the popped entries are exactly those at or above it. */
  lemma {:induction false} PoppedAll(heap0: set<HeapEdge>, heap: set<HeapEdge>, popped: seq<HeapEdge>, threshold: real,
                                     rep0: map<SegId, SegId>)
    requires forall e :: e in heap0 ==> e.0 in rep0 && e.1 in rep0
    requires PoppedInOrder(heap0, heap, popped, threshold)
    requires forall e :: e in heap ==> e.2 < threshold
    ensures Tracked(popped, rep0)
    ensures forall i :: 0 <= i < |popped| ==> popped[i] in heap0
    ensures forall e :: e in popped <==> e in heap0 && e.2 >= threshold
    ensures forall i, j :: 0 <= i < j < |popped| ==> popped[i] != popped[j] && popped[j].2 <= popped[i].2
  {
    forall e | e in popped
      ensures e.2 >= threshold
    {
      var i :| 0 <= i < |popped| && popped[i] == e;
    }
  }

  /** The representative map make_set leaves over `ids`: every id a set of its own. */
  function FreshSets(ids: set<SegId>): (rep: map<SegId, SegId>)
    ensures rep.Keys == ids && AllSingletons(rep)
  {
    map id | id in ids :: id
  }

  /** make_set over every label: each one a singleton. */
  method MakeSets(segids: set<SegId>) returns (dsets: DisjointSets)
    ensures fresh(dsets)
    ensures dsets.rep == FreshSets(segids)
  {
    dsets := new DisjointSets();
    var remaining := segids;
    while remaining != {}
      invariant remaining <= segids
      invariant dsets.rep.Keys == segids - remaining && forall k :: k in dsets.rep ==> dsets.rep[k] == k
      decreases |remaining|
    {
      MinIdExists(remaining);
      var segid :| IsMinId(segid, remaining);
      dsets.MakeSet(segid);
      remaining := remaining - {segid};
    }
    assert dsets.rep == FreshSets(segids);
  }

  /** Whichever root union_set kept, the map after it is the fold along one more entry. */
  lemma {:induction false} UniteAfter(rep0: map<SegId, SegId>, done: seq<HeapEdge>, toFirst: seq<bool>, e: HeapEdge,
                                      cur: map<SegId, SegId>, next: map<SegId, SegId>)
    requires |toFirst| == |done| && e.0 in rep0 && e.1 in rep0
    requires cur == UnitedAlong(rep0, done, toFirst) && UnionOf(cur, next, e.0, e.1)
    ensures next == UnitedAlong(rep0, done + [e], toFirst + [next == Linked(cur, cur[e.1], cur[e.0])])
  {
    var c := next == Linked(cur, cur[e.1], cur[e.0]);
    UnitedAlongSnoc(rep0, done, toFirst, e, c);
  }

  /** union_set on the regions of one more heap entry; `toFirst` records which root survived. */
  method UniteAlong(dsets: DisjointSets, ghost rep0: map<SegId, SegId>, ghost done: seq<HeapEdge>, ghost toFirst: seq<bool>, e: HeapEdge)
    returns (ghost c: bool)
    requires |toFirst| == |done| && e.0 in rep0 && e.1 in rep0 && AllSingletons(rep0)
    requires dsets.rep == UnitedAlong(rep0, done, toFirst)
    modifies dsets
    ensures dsets.rep == UnitedAlong(rep0, done + [e], toFirst + [c])
  {
    ghost var cur := dsets.rep;
    UnitedAlongCanonical(rep0, done, toFirst);
    dsets.UnionSet(e.0, e.1);
    UniteAfter(rep0, done, toFirst, e, cur, dsets.rep);
    c := dsets.rep == Linked(cur, cur[e.1], cur[e.0]);
  }

  // ---------------------------------------------------------------------
  // The class

  class RegionGraph {
    /** The regions keyed by id. */
    var rg: Graph

    /** accumulate_edge: one more face between segid1 and segid2, of affinity `aff`. */
    method AccumulateEdge(segid1: SegId, segid2: SegId, aff: real)
      modifies this
      ensures rg == WithContact(old(rg), segid1, segid2, aff)
    {
      if segid2 > 0 && segid1 != segid2 {
        var s1, s2 := segid1, segid2;
        if segid2 < segid1 {
          s1, s2 := segid2, segid1;
        }
        var props := if s1 in rg then rg[s1] else DefaultProps;
        var edge := if s2 in props.neighbors then props.neighbors[s2] else NoEdge;
        edge := edge.(count := edge.count + 1.0);
        edge := edge.(sum := edge.sum + aff);
        rg := rg[s1 := props.(neighbors := props.neighbors[s2 := edge])];
      }
    }

    /** One pass of the constructor's innermost loop: voxel (z, y, x) against its z, y and x predecessors. */
    method AccumulateVoxel(affs: array4<real>, frag: array3<SegId>, z: nat, y: nat, x: nat)
      requires AffinityShape(affs, frag) && z < frag.Length0 && y < frag.Length1 && x < frag.Length2
      modifies this
      ensures rg == Contacts(old(rg), affs, frag, VoxelSteps(z, y, x))
    {
      ContactsVoxel(rg, affs, frag, z, y, x);
      var segid := frag[z, y, x];
      if segid > 0 {
        if z > 0 {
          AccumulateEdge(segid, frag[z - 1, y, x], affs[2, z, y, x]);
        }
        if y > 0 {
          AccumulateEdge(segid, frag[z, y - 1, x], affs[1, z, y, x]);
        }
        if x > 0 {
          AccumulateEdge(segid, frag[z, y, x - 1], affs[0, z, y, x]);
        }
      }
    }

    /** The constructor's x loop over row y of plane z. */
    method AccumulateRow(affs: array4<real>, frag: array3<SegId>, z: nat, y: nat)
      requires AffinityShape(affs, frag) && z < frag.Length0 && y < frag.Length1
      modifies this
      ensures rg == Contacts(old(rg), affs, frag, LineSteps(z, y, frag.Length2))
    {
      ghost var r0 := rg;
      for x := 0 to frag.Length2
        invariant rg == Contacts(r0, affs, frag, LineSteps(z, y, x))
      {
        AccumulateVoxel(affs, frag, z, y, x);
        ContactsLineNext(r0, affs, frag, z, y, x);
      }
    }

    /** The constructor's y loop over plane z. */
    method AccumulatePlane(affs: array4<real>, frag: array3<SegId>, z: nat)
      requires AffinityShape(affs, frag) && z < frag.Length0
      modifies this
      ensures rg == Contacts(old(rg), affs, frag, PlaneSteps(z, frag.Length1, frag.Length2))
    {
      ghost var r0 := rg;
      for y := 0 to frag.Length1
        invariant rg == Contacts(r0, affs, frag, PlaneSteps(z, y, frag.Length2))
      {
        ContactsPlaneNext(r0, affs, frag, z, y, frag.Length2);
        AccumulateRow(affs, frag, z, y);
      }
    }

    /** The constructor's z loop over the whole volume. */
    method AccumulateVolume(affs: array4<real>, frag: array3<SegId>)
      requires AffinityShape(affs, frag)
      modifies this
      ensures rg == Contacts(old(rg), affs, frag, ScanSteps(frag.Length0, frag.Length1, frag.Length2))
    {
      ghost var r0 := rg;
      for z := 0 to frag.Length0
        invariant rg == Contacts(r0, affs, frag, ScanSteps(z, frag.Length1, frag.Length2))
      {
        AccumulatePlane(affs, frag, z);
        ContactsScanNext(r0, affs, frag, z, frag.Length1, frag.Length2);
      }
    }

    /**
     * The constructor: one region per nonzero fragment id, then one contact
     * per face between two different fragments, scanned in C order.
     */
    constructor (affs: array4<real>, frag: array3<SegId>)
      requires AffinityShape(affs, frag)
      ensures rg == BuiltGraph(affs, frag)
    {
      var g0 := InitialRegions(frag);
      rg := g0;
      new;
      AccumulateVolume(affs, frag);
    }

    /** The start of merge: both regions exist, and the one with fewer voxels is absorbed into the other. */
    method AbsorbSmaller(segid0: SegId, segid1: SegId) returns (small: SegId, large: SegId)
      requires segid0 != segid1
      modifies this
      ensures small == Absorbee(old(rg), segid0, segid1) && large == Survivor(old(rg), segid0, segid1)
      ensures rg == Absorbed(Touch(Touch(old(rg), segid0), segid1), small, large)
    {
      if segid0 !in rg {
        rg := rg[segid0 := DefaultProps];
      }
      if segid1 !in rg {
        rg := rg[segid1 := DefaultProps];
      }
      small, large := segid0, segid1;
      if rg[segid0].voxelNum > rg[segid1].voxelNum {
        small, large := segid1, segid0;
      }
      var t, s := AbsorbProps(rg[large], rg[small]);
      rg := rg[large := t][small := s];
    }

    /** One pass of merge's loop: region `segid` hands its edge to the absorbed region on to the survivor. */
    method HandOn(segid: SegId, small: SegId, large: SegId, ghost a: Graph, ghost done: set<SegId>)
      requires large in a && segid in a && segid !in done && small != large
      requires rg == Redirected(a, small, large, done)
      modifies this
      ensures rg == Redirected(a, small, large, done + {segid})
    {
      var props := rg[segid];
      if segid < small && segid != large && HasNeighbor(props, small) {
        assert props == a[segid];
        var edge := props.neighbors[small];
        if segid < large {
          RedirectedAtOther(a, small, large, done, segid);
          var nb := props.neighbors;
          if large in nb {
            PlusAdds(nb[large], edge);
            nb := nb[large := AbsorbEdge(nb[large], edge).0];
          } else {
            nb := nb[large := edge];
          }
          rg := rg[segid := props.(neighbors := nb - {small})];
        } else {
          RedirectedAtUpper(a, small, large, done, segid);
          var survivor := rg[large];
          var nb := survivor.neighbors;
          if segid in nb {
            PlusAdds(nb[segid], edge);
            nb := nb[segid := AbsorbEdge(nb[segid], edge).0];
          } else {
            nb := nb[segid := edge];
          }
          rg := rg[large := survivor.(neighbors := nb)];
          rg := rg[segid := props.(neighbors := props.neighbors - {small})];
        }
      } else {
        RedirectedAtOther(a, small, large, done, segid);
      }
    }

    /**
     * merge: the region with fewer voxels is absorbed into the other, and
     * every region below it hands its edge to it on to the survivor.
     */
    method Merge(segid0: SegId, segid1: SegId)
      requires segid0 != segid1
      modifies this
      ensures rg == Merged(old(rg), segid0, segid1)
    {
      var small, large := AbsorbSmaller(segid0, segid1);
      ghost var a := rg;
      RedirectedEnds(a, small, large);
      var remaining := rg.Keys;
      while remaining != {}
        invariant remaining <= a.Keys
        invariant rg == Redirected(a, small, large, a.Keys - remaining)
        decreases |remaining|
      {
        MinIdExists(remaining);
        var segid :| IsMinId(segid, remaining);
        HandOn(segid, small, large, a, a.Keys - remaining);
        assert a.Keys - (remaining - {segid}) == (a.Keys - remaining) + {segid};
        remaining := remaining - {segid};
      }
      assert a.Keys - {} == a.Keys;
    }

    /** The heap's entries, pushed region by region and contact by contact. */
    method InitialHeap() returns (heap: set<HeapEdge>)
      requires WellFormed(rg)
      ensures heap == HeapEdges(rg)
    {
      heap := {};
      var regions := rg.Keys;
      EdgesOfEnds(rg);
      while regions != {}
        invariant regions <= rg.Keys
        invariant heap == EdgesOf(rg, regions)
        decreases |regions|
      {
        MinIdExists(regions);
        var segid1 :| IsMinId(segid1, regions);
        var neighbors := rg[segid1].neighbors;
        var rest := neighbors.Keys;
        ghost var before := heap;
        ContactEdgesEnds(segid1, neighbors);
        while rest != {}
          invariant rest <= neighbors.Keys
          invariant heap == before + ContactEdges(segid1, neighbors, rest)
          decreases |rest|
        {
          MinIdExists(rest);
          var segid2 :| IsMinId(segid2, rest);
          ContactEdgesStep(segid1, neighbors, rest, segid2);
          ghost var pushed := ContactEdges(segid1, neighbors, rest);
          var edge := (segid1, segid2, Mean(neighbors[segid2]));
          PushOne(before, pushed, edge);
          heap := heap + {edge};
          rest := rest - {segid2};
        }
        EdgesOfStep(rg, regions, segid1);
        regions := regions - {segid1};
      }
    }

    /** merge along one more heap entry. */
    method MergeAlong(ghost g0: Graph, ghost done: seq<HeapEdge>, e: HeapEdge)
      requires Ordered(done) && Ordered(done + [e]) && rg == MergedAll(g0, done)
      modifies this
      ensures rg == MergedAll(g0, done + [e])
    {
      assert (done + [e])[|done|] == e;
      Merge(e.0, e.1);
      MergedAllSnoc(g0, done, e);
    }

    /** One pass of greedy_merge_until's loop after the pop: merge, then union_set, on the entry's regions. */
    method MergeStep(dsets: DisjointSets, ghost g0: Graph, ghost rep0: map<SegId, SegId>,
                     ghost done: seq<HeapEdge>, ghost toFirst: seq<bool>, e: HeapEdge)
      returns (ghost c: bool)
      requires Ordered(done) && Ordered(done + [e]) && e.0 in rep0 && e.1 in rep0
      requires rg == MergedAll(g0, done)
      requires |toFirst| == |done| && AllSingletons(rep0) && dsets.rep == UnitedAlong(rep0, done, toFirst)
      modifies this, dsets
      ensures rg == MergedAll(g0, done + [e])
      ensures dsets.rep == UnitedAlong(rep0, done + [e], toFirst + [c])
    {
      MergeAlong(g0, done, e);
      c := UniteAlong(dsets, rep0, done, toFirst, e);
    }

    /**
     * The while loop of greedy_merge_until: take the entry of highest mean
     * off the heap until the top falls below `threshold`, merging its two
     * regions in the graph and uniting them in `dsets`.
     */
    method MergeWhileAbove(heap0: set<HeapEdge>, dsets: DisjointSets, threshold: real)
      returns (ghost popped: seq<HeapEdge>, ghost toFirst: seq<bool>)
      requires AllSingletons(dsets.rep)
      requires forall e :: e in heap0 ==> e.0 < e.1 && e.0 in dsets.rep && e.1 in dsets.rep
      modifies this, dsets
      ensures Ordered(popped) && Tracked(popped, old(dsets.rep))
      ensures forall i :: 0 <= i < |popped| ==> popped[i] in heap0
      ensures rg == MergedAll(old(rg), popped)
      ensures forall e :: e in popped <==> e in heap0 && e.2 >= threshold
      ensures forall i, j :: 0 <= i < j < |popped| ==> popped[i] != popped[j] && popped[j].2 <= popped[i].2
      ensures |toFirst| == |popped| && dsets.rep == UnitedAlong(old(dsets.rep), popped, toFirst)
    {
      ghost var rep0 := dsets.rep;
      ghost var g0 := rg;
      var heap := heap0;
      popped, toFirst := [], [];
      while heap != {}
        invariant PoppedInOrder(heap0, heap, popped, threshold) && Ordered(popped)
        invariant rg == MergedAll(g0, popped)
        invariant |toFirst| == |popped| && dsets.rep == UnitedAlong(rep0, popped, toFirst)
        decreases |heap|
      {
        TopExists(heap);
        var top :| top in heap && forall e :: e in heap ==> e.2 <= top.2;
        var (segid0, segid1, meanAffinity) := top;
        if meanAffinity < threshold {
          assert forall e :: e in heap ==> e.2 < threshold;
          break;
        }
        PopTop(heap0, heap, popped, threshold, rep0, top);
        heap := heap - {top};
        ghost var c := MergeStep(dsets, g0, rep0, popped, toFirst, top);
        popped, toFirst := popped + [top], toFirst + [c];
      }
      PoppedAll(heap0, heap, popped, threshold, rep0);
    }

    /**
     * greedy_merge_until: merge along the contacts of highest mean affinity
     * (means as they were when the heap was built) until the top falls below
     * `threshold`, uniting the merged regions in a union-find over every
     * label; then relabel each voxel by its label's root.
     */
    method GreedyMergeUntil(frag: array3<SegId>, threshold: real) returns (ghost popped: seq<HeapEdge>, ghost rep: map<SegId, SegId>)
      requires WellFormed(rg) && rg.Keys <= Labels(frag)
      modifies this, frag
      ensures Ordered(popped)
      ensures rg == MergedAll(old(rg), popped)
      ensures forall e :: e in popped <==> e in HeapEdges(old(rg)) && e.2 >= threshold
      ensures forall i, j :: 0 <= i < j < |popped| ==> popped[i] != popped[j] && popped[j].2 <= popped[i].2
      ensures Canonical(rep) && rep.Keys == old(Labels(frag))
      ensures Joins(rep, FreshSets(old(Labels(frag))), PairsOf(popped))
      ensures forall z, y, x :: 0 <= z < frag.Length0 && 0 <= y < frag.Length1 && 0 <= x < frag.Length2 ==>
        old(frag[z, y, x]) in rep && frag[z, y, x] == rep[old(frag[z, y, x])]
    {
      var segids := Labels(frag);
      var heap := InitialHeap();
      var dsets := MakeSets(segids);
      ghost var singles := dsets.rep;
      assert forall e :: e in heap ==> e.0 < e.1 && e.0 in dsets.rep && e.1 in dsets.rep;
      ghost var toFirst;
      popped, toFirst := MergeWhileAbove(heap, dsets, threshold);
      UnitedAlongJoins(singles, popped, toFirst);
      rep := dsets.rep;
      var r := dsets.rep;
      MapVolume(frag, segid => Root(r, segid));
    }
  }
}
