/**
 * The Python `Skeleton` class: building the node and attribute tables,
 * and the little-endian "precomputed" binary skeleton layout.
 *
 * A node is one row of the float32 node table. On the precomputed path the
 * row is (x, y, z, radius): the decoder stacks the vertex xyz with the
 * radius, and the encoder writes columns 0-2 as the vertex and column 3 as
 * the radius. A float32 is kept as its four little-endian bytes and never
 * interpreted, so the byte layout is exact.
 */
module Skeleton {

  type Byte = b: int | 0 <= b < 256

  /** A float32, as its four little-endian bytes. */
  type F32 = w: seq<Byte> | |w| == 4 witness [0, 0, 0, 0]

  /** The float32 +0.0. */
  const PosZero: F32 := [0, 0, 0, 0]

  /** The float32 -0.0: only the sign bit, in the last byte, is set. */
  const NegZero: F32 := [0, 0, 0, 128]

  /** The float32 values that compare equal to 0: +0.0 and -0.0. */
  predicate IsZero(w: F32) {
    w[0] == 0 && w[1] == 0 && w[2] == 0 && (w[3] == 0 || w[3] == 128)
  }

  lemma {:induction false} ZeroIsSigned(w: F32)
    ensures IsZero(w) <==> w == PosZero || w == NegZero
  {
    if IsZero(w) {
      assert w == [w[0], w[1], w[2], w[3]];
    }
  }

  const U32Limit: int := 0x1_0000_0000
  const I32Limit: int := 0x8000_0000

  /** numpy's cast to uint32: wrap modulo 2^32. */
  function ToUint32(v: int): (r: nat)
    ensures r < U32Limit
    ensures 0 <= v < U32Limit ==> r == v
  {
    v % U32Limit
  }

  /** numpy's cast to uint8: wrap modulo 2^8. */
  function ToUint8(v: int): (r: Byte)
    ensures 0 <= v < 256 ==> r == v
    ensures (r - v) % 256 == 0
  {
    v % 256
  }

  /** numpy's cast to int32: wrap into [-2^31, 2^31). */
  function ToInt32(v: int): (r: int)
    ensures -I32Limit <= r < I32Limit
    ensures -I32Limit <= v < I32Limit ==> r == v
    ensures (r - v) % U32Limit == 0
  {
    var m := v % U32Limit;
    if m < I32Limit then m else m - U32Limit
  }

  /** A uint32 as four little-endian bytes (struct format '<I'). */
  function EncodeU32(n: nat): (b: seq<Byte>)
    requires n < U32Limit
    ensures |b| == 4
  {
    [n % 256, (n / 256) % 256, (n / 65536) % 256, n / 16777216]
  }

  /** Four little-endian bytes read as a uint32. */
  function DecodeU32(b: seq<Byte>): (n: nat)
    requires |b| == 4
    ensures n < U32Limit
  {
    var b0, b1, b2, b3: int := b[0], b[1], b[2], b[3];
    b0 + 256 * b1 + 65536 * b2 + 16777216 * b3
  }

  lemma {:induction false} DecodeEncodeU32(n: nat)
    requires n < U32Limit
    ensures DecodeU32(EncodeU32(n)) == n
  {
    var b := EncodeU32(n);
    var b0, b1, b2, b3: int := b[0], b[1], b[2], b[3];
    assert n == b0 + 256 * (n / 256);
    assert n / 256 == b1 + 256 * (n / 65536);
    assert n / 65536 == b2 + 256 * b3;
  }

  /** One row of the node table, in precomputed column order. */
  datatype Node = Node(x: F32, y: F32, z: F32, radius: F32)

  /** One row of the int32 attribute table. */
  datatype NodeAttributes = NodeAttributes(nodeClass: int, parent: int, firstChild: int, nextSibling: int)

  /** The node table and the attribute table handed to the skeleton constructor. */
  datatype Skeleton = Skeleton(nodes: seq<Node>, attributes: seq<NodeAttributes>) {
    predicate Aligned() {
      |nodes| == |attributes|
    }
  }

  /** A two-dimensional float32 array as passed to from_nodes_and_parents. */
  datatype NodeArray = NodeArray(columns: nat, rows: seq<seq<F32>>) {
    predicate Rectangular() {
      forall i :: 0 <= i < |rows| ==> |rows[i]| == columns
    }
  }

  datatype Option<T> = None | Some(value: T)

  /** The exceptions the Python code raises, by cause. */
  datatype Error =
    | HeaderTruncated       // ValueError: fewer than 8 bytes
    | BufferTooShort        // ValueError: shorter than the header's mandatory sections
    | ChildOutOfRange       // IndexError: an edge names a child past the vertex count
    | RadiiSectionPartial   // AssertionError: bytes after the edges, but fewer than a radii section
    | ClassSectionPartial   // AssertionError: bytes after the radii, but fewer than a class section
    | NodeColumnsNotFour    // AssertionError: the node array does not have 4 columns
    | LengthMismatch        // AssertionError: node, parent and class counts differ
    | ClassesMissing        // TypeError: len(None)
    | CountTooLarge         // struct.error: a count does not fit a uint32

  datatype Result<T> = Ok(value: T) | Err(error: Error)

  /** The node of a 4-column row. */
  function RowNode(row: seq<F32>): Node
    requires |row| == 4
  {
    Node(row[0], row[1], row[2], row[3])
  }

  /**
   * from_nodes_and_parents with an omitted class column defaulting to all
   * zeros, as its `else` branch intends: column 0 of the attributes is the
   * class, column 1 the parent, columns 2-3 the unset marker -2.
   */
  function NodesAndParents(nodes: NodeArray, parents: seq<int>, classes: Option<seq<int>>): (r: Result<Skeleton>)
    requires nodes.Rectangular()
    ensures nodes.columns != 4 ==> r == Err(NodeColumnsNotFour)
    ensures r.Ok? <==> (nodes.columns == 4 && |nodes.rows| == |parents| &&
      (classes.Some? ==> |classes.value| == |parents|))
    ensures r.Err? ==> r.error == NodeColumnsNotFour || r.error == LengthMismatch
    ensures r.Ok? ==> (r.value.Aligned() && |r.value.nodes| == |parents| &&
      forall i :: 0 <= i < |parents| ==>
        && r.value.nodes[i] == RowNode(nodes.rows[i])
        && r.value.attributes[i].nodeClass == (if classes.Some? then ToInt32(classes.value[i]) else 0)
        && r.value.attributes[i].parent == ToInt32(parents[i])
        && r.value.attributes[i].firstChild == -2
        && r.value.attributes[i].nextSibling == -2)
  {
    if nodes.columns != 4 then Err(NodeColumnsNotFour)
    else if |nodes.rows| != |parents| then Err(LengthMismatch)
    else if classes.Some? && |classes.value| != |parents| then Err(LengthMismatch)
    else
      var cls := if classes.Some? then classes.value else seq(|parents|, i => 0);
      Ok(Skeleton(
        seq(|parents|, i requires 0 <= i < |parents| => RowNode(nodes.rows[i])),
        seq(|parents|, i requires 0 <= i < |parents| =>
          NodeAttributes(ToInt32(cls[i]), ToInt32(parents[i]), -2, -2))))
  }

  /**
   * from_nodes_and_parents as written: `len(classes)` is evaluated in the
   * length assertion, so an omitted class column raises TypeError before
   * the default branch is reached.
   */
  function NodesAndParentsAsWritten(nodes: NodeArray, parents: seq<int>, classes: Option<seq<int>>): (r: Result<Skeleton>)
    requires nodes.Rectangular()
  {
    if nodes.columns != 4 then Err(NodeColumnsNotFour)
    else if |nodes.rows| != |parents| then Err(LengthMismatch)
    else if classes.None? then Err(ClassesMissing)
    else NodesAndParents(nodes, parents, classes)
  }

  /** The default class branch of from_nodes_and_parents cannot be reached as written. */
  lemma {:induction false} DefaultClassesUnreachable(nodes: NodeArray, parents: seq<int>)
    requires nodes.Rectangular() && nodes.columns == 4 && |nodes.rows| == |parents|
    ensures NodesAndParentsAsWritten(nodes, parents, None) == Err(ClassesMissing)
    ensures NodesAndParents(nodes, parents, None).Ok?
    ensures forall c: seq<int> :: |c| == |parents| ==>
      NodesAndParentsAsWritten(nodes, parents, Some(c)) == NodesAndParents(nodes, parents, Some(c))
  {
  }

  /**
   * Skeleton.from_nodes_and_parents as written: check the shapes, then fill
   * an int32 attribute table with -2 and overwrite the class and parent
   * columns in place.
   */
  method FromNodesAndParents(nodes: NodeArray, parents: seq<int>, classes: Option<seq<int>>)
    returns (r: Result<Skeleton>)
    requires nodes.Rectangular()
    ensures r == NodesAndParentsAsWritten(nodes, parents, classes)
  {
    if nodes.columns != 4 {
      return Err(NodeColumnsNotFour);
    }
    if |nodes.rows| != |parents| {
      return Err(LengthMismatch);
    }
    if classes.None? {
      return Err(ClassesMissing);
    }
    if |classes.value| != |parents| {
      return Err(LengthMismatch);
    }
    var n := |parents|;
    var attributes := new int[n, 4]((i, j) => -2);
    for i := 0 to n
      invariant forall k, j :: 0 <= k < n && 0 <= j < 4 ==>
        attributes[k, j] == if j == 0 && k < i then ToInt32(classes.value[k]) else -2
    {
      attributes[i, 0] := ToInt32(classes.value[i]);
    }
    for i := 0 to n
      invariant forall k, j :: 0 <= k < n && 0 <= j < 4 ==>
        attributes[k, j] == if j == 0 then ToInt32(classes.value[k])
                            else if j == 1 && k < i then ToInt32(parents[k])
                            else -2
    {
      attributes[i, 1] := ToInt32(parents[i]);
    }
    var rows := seq(n, i requires 0 <= i < n reads attributes =>
      NodeAttributes(attributes[i, 0], attributes[i, 1], attributes[i, 2], attributes[i, 3]));
    r := Ok(Skeleton(seq(n, i requires 0 <= i < n => RowNode(nodes.rows[i])), rows));
    ghost var spec := NodesAndParents(nodes, parents, classes);
    assert spec.value.attributes == rows;
    assert spec.value.nodes == r.value.nodes;
  }

  // ---------------------------------------------------------------------
  // The precomputed layout

  /** The length of the header, vertex and edge sections together. */
  function MinFormatLength(vertexCount: nat, edgeCount: nat): nat {
    8 + 12 * vertexCount + 8 * edgeCount
  }

  /** The four bytes at `offset`, as a float32. */
  function WordAt(buf: seq<Byte>, offset: nat): F32
    requires offset + 4 <= |buf|
  {
    buf[offset..offset + 4]
  }

  function VertexCount(buf: seq<Byte>): nat
    requires |buf| >= 8
  {
    DecodeU32(buf[0..4])
  }

  function EdgeCount(buf: seq<Byte>): nat
    requires |buf| >= 8
  {
    DecodeU32(buf[4..8])
  }

  /** The `count` (child, parent) uint32 rows starting at byte `offset`. */
  function EdgeRows(buf: seq<Byte>, offset: nat, count: nat): (edges: seq<(nat, nat)>)
    requires offset + 8 * count <= |buf|
    ensures |edges| == count
  {
    if count == 0 then [] else EdgeRows(buf, offset, count - 1) + [EdgeRow(buf, offset + 8 * (count - 1))]
  }

  /** The (child, parent) uint32 row at byte `offset`. */
  function EdgeRow(buf: seq<Byte>, offset: nat): (nat, nat)
    requires offset + 8 <= |buf|
  {
    (DecodeU32(buf[offset..offset + 4]), DecodeU32(buf[offset + 4..offset + 8]))
  }

  lemma {:induction false} EdgeRowsAt(buf: seq<Byte>, offset: nat, count: nat, k: nat)
    requires offset + 8 * count <= |buf| && k < count
    ensures EdgeRows(buf, offset, count)[k] == EdgeRow(buf, offset + 8 * k)
  {
    if k < count - 1 {
      EdgeRowsAt(buf, offset, count - 1, k);
    }
  }

  /** The edge section named by the header of a buffer that holds it. */
  function Edges(buf: seq<Byte>): (edges: seq<(nat, nat)>)
    requires |buf| >= 8 && |buf| >= MinFormatLength(VertexCount(buf), EdgeCount(buf))
    ensures |edges| == EdgeCount(buf)
  {
    EdgeRows(buf, 8 + 12 * VertexCount(buf), EdgeCount(buf))
  }

  predicate ChildrenInRange(edges: seq<(nat, nat)>, vertexCount: nat) {
    forall k :: 0 <= k < |edges| ==> edges[k].0 < vertexCount
  }

  /**
   * The parent of vertex `i` after `parents[edges[:, 0]] = edges[:, 1]` on
   * an array of -2: the parent of the last row naming `i` as its child,
   * cast to int32, or -2 when no row does.
   */
  function LastParent(edges: seq<(nat, nat)>, i: nat): int
  {
    LastParentAmong(edges, |edges|, i)
  }

  /** LastParent over the first `count` rows only. */
  function LastParentAmong(edges: seq<(nat, nat)>, count: nat, i: nat): int
    requires count <= |edges|
  {
    if count == 0 then -2
    else if edges[count - 1].0 == i then ToInt32(edges[count - 1].1)
    else LastParentAmong(edges, count - 1, i)
  }

  lemma {:induction false} LastParentIsInt32(edges: seq<(nat, nat)>, count: nat, i: nat)
    requires count <= |edges|
    ensures -I32Limit <= LastParentAmong(edges, count, i) < I32Limit
  {
    if count > 0 && edges[count - 1].0 != i {
      LastParentIsInt32(edges, count - 1, i);
    }
  }

  /** Whether a buffer of `len` bytes passes the two section-length assertions. */
  predicate SectionsComplete(len: nat, minLen: nat, vertexCount: nat) {
    && (len >= minLen + 4 * vertexCount || len == minLen)
    && (len >= minLen + 5 * vertexCount || len <= minLen + 4 * vertexCount)
  }

  /** The node rows of a buffer whose mandatory sections are present. */
  function VertexRows(buf: seq<Byte>, vertexCount: nat, radii: seq<F32>): (rows: seq<seq<F32>>)
    requires 8 + 12 * vertexCount <= |buf| && |radii| == vertexCount
    ensures |rows| == vertexCount && forall i :: 0 <= i < |rows| ==> |rows[i]| == 4
  {
    seq(vertexCount, i requires 0 <= i < vertexCount =>
      [WordAt(buf, 8 + 12 * i), WordAt(buf, 8 + 12 * i + 4), WordAt(buf, 8 + 12 * i + 8), radii[i]])
  }

  /** The header and section lengths of a buffer pass every check of from_precomputed. */
  predicate Decodable(buf: seq<Byte>) {
    && |buf| >= 8
    && var nv, ne := VertexCount(buf), EdgeCount(buf);
    && |buf| >= MinFormatLength(nv, ne)
    && ChildrenInRange(Edges(buf), nv)
    && SectionsComplete(|buf|, MinFormatLength(nv, ne), nv)
  }

  /** The radius of node `i`: its word of the radii section when present, +0.0 otherwise. */
  function RadiusAt(buf: seq<Byte>, i: nat): F32
    requires Decodable(buf) && i < VertexCount(buf)
  {
    var nv := VertexCount(buf);
    var minLen := MinFormatLength(nv, EdgeCount(buf));
    if |buf| >= minLen + 4 * nv then WordAt(buf, minLen + 4 * i) else PosZero
  }

  /** The class of node `i`: its byte of the class section when present, 0 otherwise. */
  function ClassAt(buf: seq<Byte>, i: nat): int
    requires Decodable(buf) && i < VertexCount(buf)
  {
    var nv := VertexCount(buf);
    var minLen := MinFormatLength(nv, EdgeCount(buf));
    if |buf| >= minLen + 5 * nv then buf[minLen + 4 * nv + i] as int else 0
  }

  /** The radius column. */
  function Radii(buf: seq<Byte>): (radii: seq<F32>)
    requires Decodable(buf)
    ensures |radii| == VertexCount(buf)
  {
    seq(VertexCount(buf), i requires 0 <= i < VertexCount(buf) => RadiusAt(buf, i))
  }

  /** The class column. */
  function Classes(buf: seq<Byte>): (classes: seq<int>)
    requires Decodable(buf)
    ensures |classes| == VertexCount(buf)
  {
    seq(VertexCount(buf), i requires 0 <= i < VertexCount(buf) => ClassAt(buf, i))
  }

  /** The parent column filled in from the edge rows. */
  function Parents(buf: seq<Byte>): (parents: seq<int>)
    requires Decodable(buf)
    ensures |parents| == VertexCount(buf)
  {
    var nv, ne := VertexCount(buf), EdgeCount(buf);
    var edges := Edges(buf);
    seq(nv, i requires 0 <= i < nv => LastParent(edges, i))
  }

  /** The skeleton of a decodable buffer, built by from_nodes_and_parents. */
  function DecodeSections(buf: seq<Byte>): (sk: Skeleton)
    requires Decodable(buf)
    ensures sk.Aligned() && |sk.nodes| == VertexCount(buf)
  {
    var nv := VertexCount(buf);
    var rows := VertexRows(buf, nv, Radii(buf));
    NodesAndParents(NodeArray(4, rows), Parents(buf), Some(Classes(buf))).value
  }

  /**
   * Where each field of a decoded node comes from: the xyz words of the
   * vertex section, the radii and class sections when present (zero
   * otherwise), and the last edge row naming the node as its child.
   */
  lemma {:induction false} DecodeLayout(buf: seq<Byte>, i: nat)
    requires Decodable(buf) && i < VertexCount(buf)
    ensures DecodeSections(buf).nodes[i] ==
      Node(WordAt(buf, 8 + 12 * i), WordAt(buf, 8 + 12 * i + 4), WordAt(buf, 8 + 12 * i + 8), RadiusAt(buf, i))
    ensures DecodeSections(buf).attributes[i] ==
      NodeAttributes(ClassAt(buf, i), LastParent(Edges(buf), i), -2, -2)
  {
    LastParentIsInt32(Edges(buf), EdgeCount(buf), i);
  }

  /**
   * Skeleton.from_precomputed: the header gives the vertex and edge counts;
   * the vertex section is bytes [8, 8 + 12 Nv), the edge section the next
   * 8 Ne bytes. Radii are read when a whole radii section follows and
   * classes when a whole class section follows that; absent sections are
   * zeros. A length strictly inside either optional section fails.
   */
  function Decode(buf: seq<Byte>): (r: Result<Skeleton>)
    ensures |buf| < 8 <==> r == Err(HeaderTruncated)
    ensures |buf| >= 8 && |buf| < MinFormatLength(VertexCount(buf), EdgeCount(buf)) ==> r == Err(BufferTooShort)
    ensures r.Ok? <==> Decodable(buf)
    ensures r.Ok? ==> r.value == DecodeSections(buf)
  {
    if |buf| < 8 then Err(HeaderTruncated)
    else
      var nv, ne := VertexCount(buf), EdgeCount(buf);
      var minLen := MinFormatLength(nv, ne);
      if |buf| < minLen then Err(BufferTooShort)
      else if !ChildrenInRange(Edges(buf), nv) then Err(ChildOutOfRange)
      else if !(|buf| >= minLen + 4 * nv || |buf| == minLen) then Err(RadiiSectionPartial)
      else if !(|buf| >= minLen + 5 * nv || |buf| <= minLen + 4 * nv) then Err(ClassSectionPartial)
      else Ok(DecodeSections(buf))
  }

  /**
   * `parents = np.full(Nv, -2); parents[edges[:, 0]] = edges[:, 1]`: a
   * scatter into an int32 array of -2, where the last row naming a child
   * wins; a child past the end raises IndexError (None here).
   */
  method ScatterParents(edges: seq<(nat, nat)>, vertexCount: nat) returns (r: Option<seq<int>>)
    ensures r.Some? <==> ChildrenInRange(edges, vertexCount)
    ensures r.Some? ==> r.value == seq(vertexCount, i requires 0 <= i < vertexCount => LastParent(edges, i))
  {
    var parents := new int[vertexCount](i => -2);
    for k := 0 to |edges|
      invariant ChildrenInRange(edges[..k], vertexCount)
      invariant forall i :: 0 <= i < vertexCount ==> parents[i] == LastParentAmong(edges, k, i)
    {
      var (child, parent) := edges[k];
      if child >= vertexCount {
        return None;
      }
      parents[child] := ToInt32(parent);
      assert edges[..k + 1][..k] == edges[..k];
    }
    return Some(parents[..]);
  }

  /**
   * Skeleton.from_precomputed as a procedure: after the length checks it
   * fills a parent array of -2 in place from the edge rows, then reads the
   * optional sections and builds the skeleton.
   */
  method FromPrecomputed(buf: seq<Byte>) returns (r: Result<Skeleton>)
    ensures r == Decode(buf)
  {
    if |buf| < 8 {
      return Err(HeaderTruncated);
    }
    var nv, ne := DecodeU32(buf[0..4]), DecodeU32(buf[4..8]);
    var minLen := 8 + 12 * nv + 8 * ne;
    if |buf| < minLen {
      return Err(BufferTooShort);
    }
    var edges := EdgeRows(buf, 8 + 12 * nv, ne);
    var parents := ScatterParents(edges, nv);
    if parents.None? {
      return Err(ChildOutOfRange);
    }
    var hasRadii := |buf| >= minLen + 4 * nv;
    var hasClasses := |buf| >= minLen + 5 * nv;
    if !hasRadii && |buf| != minLen {
      return Err(RadiiSectionPartial);
    }
    if !hasClasses && |buf| > minLen + 4 * nv {
      return Err(ClassSectionPartial);
    }
    var radii := seq(nv, i requires 0 <= i < nv => if hasRadii then WordAt(buf, minLen + 4 * i) else PosZero);
    var classes := seq(nv, i requires 0 <= i < nv => if hasClasses then buf[minLen + 4 * nv + i] as int else 0);
    assert Decodable(buf);
    assert radii == Radii(buf);
    assert classes == Classes(buf);
    assert parents.value == Parents(buf);
    r := FromNodesAndParents(NodeArray(4, VertexRows(buf, nv, radii)), parents.value, Some(classes));
  }

  // ---------------------------------------------------------------------
  // Encoding

  /** Bytes [i, j) of a concatenation that fall inside its first part. */
  lemma {:induction false} SliceLeft(a: seq<Byte>, b: seq<Byte>, i: nat, j: nat)
    requires i <= j <= |a|
    ensures (a + b)[i..j] == a[i..j]
  {
  }

  /** Bytes [i, j) of a concatenation that fall inside its second part. */
  lemma {:induction false} SliceRight(a: seq<Byte>, b: seq<Byte>, i: nat, j: nat)
    requires |a| <= i <= j <= |a| + |b|
    ensures (a + b)[i..j] == b[i - |a|..j - |a|]
  {
  }

  /** `nodes[:, :3].tobytes('C')`: x, y, z of each node, node after node. */
  function XyzBytes(nodes: seq<Node>): (b: seq<Byte>)
    ensures |b| == 12 * |nodes|
  {
    if nodes == [] then []
    else
      var n := nodes[|nodes| - 1];
      XyzBytes(nodes[..|nodes| - 1]) + n.x + n.y + n.z
  }

  /** `edges.astype(np.uint32).tobytes('C')`: child then parent of each row, as uint32. */
  function EdgeBytes(edges: seq<(int, int)>): (b: seq<Byte>)
    ensures |b| == 8 * |edges|
  {
    if edges == [] then []
    else
      var e := edges[|edges| - 1];
      EdgeBytes(edges[..|edges| - 1]) + EncodeU32(ToUint32(e.0)) + EncodeU32(ToUint32(e.1))
  }

  /** `nodes[:, 3].tobytes('C')`: the radius column. */
  function RadiusBytes(nodes: seq<Node>): (b: seq<Byte>)
    ensures |b| == 4 * |nodes|
  {
    if nodes == [] then [] else RadiusBytes(nodes[..|nodes| - 1]) + nodes[|nodes| - 1].radius
  }

  /** `attributes[:, 0].astype(np.uint8).tobytes('C')`: the class column. */
  function ClassBytes(attributes: seq<NodeAttributes>): (b: seq<Byte>)
    ensures |b| == |attributes|
  {
    seq(|attributes|, i requires 0 <= i < |attributes| => ToUint8(attributes[i].nodeClass))
  }

  lemma {:induction false} XyzBytesLayout(nodes: seq<Node>, i: nat)
    requires i < |nodes|
    ensures XyzBytes(nodes)[12 * i..12 * i + 4] == nodes[i].x
    ensures XyzBytes(nodes)[12 * i + 4..12 * i + 8] == nodes[i].y
    ensures XyzBytes(nodes)[12 * i + 8..12 * i + 12] == nodes[i].z
  {
    var init := nodes[..|nodes| - 1];
    var n := nodes[|nodes| - 1];
    assert XyzBytes(nodes) == XyzBytes(init) + (n.x + n.y + n.z);
    if i < |init| {
      XyzBytesLayout(init, i);
      SliceLeft(XyzBytes(init), n.x + n.y + n.z, 12 * i, 12 * i + 4);
      SliceLeft(XyzBytes(init), n.x + n.y + n.z, 12 * i + 4, 12 * i + 8);
      SliceLeft(XyzBytes(init), n.x + n.y + n.z, 12 * i + 8, 12 * i + 12);
    } else {
      SliceRight(XyzBytes(init), n.x + n.y + n.z, 12 * i, 12 * i + 4);
      SliceRight(XyzBytes(init), n.x + n.y + n.z, 12 * i + 4, 12 * i + 8);
      SliceRight(XyzBytes(init), n.x + n.y + n.z, 12 * i + 8, 12 * i + 12);
    }
  }

  lemma {:induction false} EdgeBytesLayout(edges: seq<(int, int)>, k: nat)
    requires k < |edges|
    ensures EdgeBytes(edges)[8 * k..8 * k + 4] == EncodeU32(ToUint32(edges[k].0))
    ensures EdgeBytes(edges)[8 * k + 4..8 * k + 8] == EncodeU32(ToUint32(edges[k].1))
  {
    var init := edges[..|edges| - 1];
    var e := edges[|edges| - 1];
    var w := EncodeU32(ToUint32(e.0)) + EncodeU32(ToUint32(e.1));
    assert EdgeBytes(edges) == EdgeBytes(init) + w;
    if k < |init| {
      EdgeBytesLayout(init, k);
      SliceLeft(EdgeBytes(init), w, 8 * k, 8 * k + 4);
      SliceLeft(EdgeBytes(init), w, 8 * k + 4, 8 * k + 8);
    } else {
      SliceRight(EdgeBytes(init), w, 8 * k, 8 * k + 4);
      SliceRight(EdgeBytes(init), w, 8 * k + 4, 8 * k + 8);
    }
  }

  lemma {:induction false} RadiusBytesLayout(nodes: seq<Node>, i: nat)
    requires i < |nodes|
    ensures RadiusBytes(nodes)[4 * i..4 * i + 4] == nodes[i].radius
  {
    var init := nodes[..|nodes| - 1];
    if i < |init| {
      RadiusBytesLayout(init, i);
      SliceLeft(RadiusBytes(init), nodes[|nodes| - 1].radius, 4 * i, 4 * i + 4);
    } else {
      SliceRight(RadiusBytes(init), nodes[|nodes| - 1].radius, 4 * i, 4 * i + 4);
    }
  }

  /** `not np.ma.allequal(classes, 0)` on the uint8 class column. */
  predicate WritesClasses(sk: Skeleton) {
    exists i :: 0 <= i < |sk.attributes| && ToUint8(sk.attributes[i].nodeClass) != 0
  }

  /** `not np.ma.allequal(radii, 0) or not np.ma.allequal(classes, 0)`. */
  predicate WritesRadii(sk: Skeleton) {
    (exists i :: 0 <= i < |sk.nodes| && !IsZero(sk.nodes[i].radius)) || WritesClasses(sk)
  }

  /** The radii section as written: present when a radius or a class is nonzero. */
  function RadiiSection(sk: Skeleton): (b: seq<Byte>)
    ensures |b| == if WritesRadii(sk) then 4 * |sk.nodes| else 0
  {
    if WritesRadii(sk) then RadiusBytes(sk.nodes) else []
  }

  /** The class section as written: present when a class is nonzero. */
  function ClassSection(sk: Skeleton): (b: seq<Byte>)
    ensures |b| == if WritesClasses(sk) then |sk.attributes| else 0
  {
    if WritesClasses(sk) then ClassBytes(sk.attributes) else []
  }

  /**
   * Skeleton.to_precomputed: the header, the xyz section, the edge section,
   * then the radii section when a radius or a class is nonzero and the class
   * section when a class is nonzero. `struct.pack('<II', ...)` fails on a
   * count that does not fit a uint32.
   */
  function Encode(sk: Skeleton, edges: seq<(int, int)>): (r: Result<seq<Byte>>)
    requires sk.Aligned()
    ensures r.Err? <==> |sk.nodes| >= U32Limit || |edges| >= U32Limit
    ensures r.Err? ==> r.error == CountTooLarge
    ensures r.Ok? ==> (|r.value| == MinFormatLength(|sk.nodes|, |edges|) +
      (if WritesClasses(sk) then 5 * |sk.nodes| else if WritesRadii(sk) then 4 * |sk.nodes| else 0))
  {
    if |sk.nodes| >= U32Limit || |edges| >= U32Limit then Err(CountTooLarge)
    else
      Ok(EncodeU32(|sk.nodes|) + EncodeU32(|edges|) + XyzBytes(sk.nodes) + EdgeBytes(edges)
        + RadiiSection(sk) + ClassSection(sk))
  }

  /** `result.write(nodes[:, :3].tobytes('C'))`. */
  method WriteXyz(buffer: seq<Byte>, nodes: seq<Node>) returns (result: seq<Byte>)
    ensures result == buffer + XyzBytes(nodes)
  {
    result := buffer;
    for i := 0 to |nodes|
      invariant result == buffer + XyzBytes(nodes[..i])
    {
      var node := nodes[i];
      assert nodes[..i + 1][..i] == nodes[..i];
      result := result + node.x + node.y + node.z;
    }
    assert nodes[..|nodes|] == nodes;
  }

  /** `result.write(edges.tobytes('C'))` after the cast to uint32. */
  method WriteEdges(buffer: seq<Byte>, edges: seq<(int, int)>) returns (result: seq<Byte>)
    ensures result == buffer + EdgeBytes(edges)
  {
    result := buffer;
    for k := 0 to |edges|
      invariant result == buffer + EdgeBytes(edges[..k])
    {
      var (child, parent) := edges[k];
      assert edges[..k + 1][..k] == edges[..k];
      result := result + EncodeU32(ToUint32(child)) + EncodeU32(ToUint32(parent));
    }
    assert edges[..|edges|] == edges;
  }

  /** `result.write(nodes[:, 3].tobytes('C'))`. */
  method WriteRadii(buffer: seq<Byte>, nodes: seq<Node>) returns (result: seq<Byte>)
    ensures result == buffer + RadiusBytes(nodes)
  {
    result := buffer;
    for i := 0 to |nodes|
      invariant result == buffer + RadiusBytes(nodes[..i])
    {
      assert nodes[..i + 1][..i] == nodes[..i];
      result := result + nodes[i].radius;
    }
    assert nodes[..|nodes|] == nodes;
  }

  /** The two `np.ma.allequal(..., 0)` tests, in one pass over the columns. */
  method ZeroColumns(sk: Skeleton) returns (radiiZero: bool, classesZero: bool)
    requires sk.Aligned()
    ensures classesZero <==> !WritesClasses(sk)
    ensures radiiZero && classesZero <==> !WritesRadii(sk)
  {
    radiiZero, classesZero := true, true;
    for i := 0 to |sk.nodes|
      invariant radiiZero <==> forall j :: 0 <= j < i ==> IsZero(sk.nodes[j].radius)
      invariant classesZero <==> forall j :: 0 <= j < i ==> ToUint8(sk.attributes[j].nodeClass) == 0
    {
      radiiZero := radiiZero && IsZero(sk.nodes[i].radius);
      classesZero := classesZero && ToUint8(sk.attributes[i].nodeClass) == 0;
    }
  }

  /**
   * Skeleton.to_precomputed as a procedure: append the sections to a
   * growing buffer one at a time.
   */
  method ToPrecomputed(sk: Skeleton, edges: seq<(int, int)>) returns (r: Result<seq<Byte>>)
    requires sk.Aligned()
    ensures r == Encode(sk, edges)
  {
    var n, m := |sk.nodes|, |edges|;
    if n >= U32Limit || m >= U32Limit {
      return Err(CountTooLarge);
    }
    var classes := ClassBytes(sk.attributes);
    var result := WriteXyz(EncodeU32(n) + EncodeU32(m), sk.nodes);
    result := WriteEdges(result, edges);
    var radiiZero, classesZero := ZeroColumns(sk);
    if !radiiZero || !classesZero {
      result := WriteRadii(result, sk.nodes);
    } else {
      assert result == result + [];
    }
    if !classesZero {
      result := result + classes;
    } else {
      assert result == result + [];
    }
    return Ok(result);
  }

  /**
   * The encoder's output always passes the decoder's length checks: it is
   * exactly `min`, `min + 4 Nv` or `min + 5 Nv` bytes long.
   */
  lemma {:induction false} EncodePassesLengthChecks(sk: Skeleton, edges: seq<(int, int)>)
    requires sk.Aligned() && Encode(sk, edges).Ok?
    ensures var buf := Encode(sk, edges).value;
      var minLen := MinFormatLength(|sk.nodes|, |edges|);
      && |buf| >= 8
      && VertexCount(buf) == |sk.nodes| && EdgeCount(buf) == |edges|
      && |buf| >= minLen
      && SectionsComplete(|buf|, minLen, |sk.nodes|)
      && (|buf| >= minLen + 4 * |sk.nodes| <==> WritesRadii(sk) || |sk.nodes| == 0)
      && (|buf| >= minLen + 5 * |sk.nodes| <==> WritesClasses(sk) || |sk.nodes| == 0)
  {
    EncodedSections(sk, edges);
    LayoutHeader(Encode(sk, edges).value, |sk.nodes|, |edges|);
    if WritesClasses(sk) {
      assert WritesRadii(sk);
    }
  }

  /** The header words of a buffer that starts with the encoded counts. */
  lemma {:induction false} LayoutHeader(buf: seq<Byte>, n: nat, ne: nat)
    requires n < U32Limit && ne < U32Limit
    requires |buf| >= 8 && buf[0..8] == EncodeU32(n) + EncodeU32(ne)
    ensures VertexCount(buf) == n && EdgeCount(buf) == ne
  {
    var h := EncodeU32(n) + EncodeU32(ne);
    SubSlice(buf, 0, h, 0, 4);
    SubSlice(buf, 0, h, 4, 8);
    assert h[0..4] == EncodeU32(n);
    assert h[4..8] == EncodeU32(ne);
    DecodeEncodeU32(n);
    DecodeEncodeU32(ne);
  }

  /** The edge rows after `edges.astype(np.uint32)`. */
  function Uint32Edges(edges: seq<(int, int)>): (u: seq<(nat, nat)>)
    ensures |u| == |edges|
  {
    seq(|edges|, k requires 0 <= k < |edges| => (ToUint32(edges[k].0), ToUint32(edges[k].1)))
  }

  /** Where each section of the encoded buffer lies. */
  lemma {:induction false} EncodedSections(sk: Skeleton, edges: seq<(int, int)>)
    requires sk.Aligned() && Encode(sk, edges).Ok?
    ensures var buf := Encode(sk, edges).value;
      var n, ne := |sk.nodes|, |edges|;
      var minLen := MinFormatLength(n, ne);
      && |buf| == minLen + |RadiiSection(sk)| + |ClassSection(sk)|
      && buf[0..8] == EncodeU32(n) + EncodeU32(ne)
      && buf[8..8 + 12 * n] == XyzBytes(sk.nodes)
      && buf[8 + 12 * n..minLen] == EdgeBytes(edges)
      && buf[minLen..minLen + |RadiiSection(sk)|] == RadiiSection(sk)
      && buf[minLen + |RadiiSection(sk)|..|buf|] == ClassSection(sk)
  {
    ConcatSections(EncodeU32(|sk.nodes|) + EncodeU32(|edges|), XyzBytes(sk.nodes), EdgeBytes(edges), RadiiSection(sk), ClassSection(sk));
  }

  /** The five parts of a concatenation, as slices of it. */
  lemma {:induction false} ConcatSections(h: seq<Byte>, x: seq<Byte>, e: seq<Byte>, rs: seq<Byte>, cs: seq<Byte>)
    ensures var buf := h + x + e + rs + cs;
      && buf[0..|h|] == h
      && buf[|h|..|h| + |x|] == x
      && buf[|h| + |x|..|h| + |x| + |e|] == e
      && buf[|h| + |x| + |e|..|h| + |x| + |e| + |rs|] == rs
      && buf[|h| + |x| + |e| + |rs|..|buf|] == cs
  {
  }

  /** Bytes [i, j) of a part `e` that lies at `o` in `buf`. */
  lemma {:induction false} SubSlice(buf: seq<Byte>, o: nat, e: seq<Byte>, i: nat, j: nat)
    requires o + |e| <= |buf| && buf[o..o + |e|] == e && i <= j <= |e|
    ensures buf[o + i..o + j] == e[i..j]
  {
    forall k | 0 <= k < j - i
      ensures buf[o + i..o + j][k] == e[i..j][k]
    {
      assert buf[o..o + |e|][i + k] == buf[o + i + k];
    }
  }

  /** The decoder reads back the edge rows the encoder wrote, as uint32. */
  lemma {:induction false} EncodedEdgeRows(sk: Skeleton, edges: seq<(int, int)>)
    requires sk.Aligned() && Encode(sk, edges).Ok?
    ensures var buf := Encode(sk, edges).value;
      && |buf| >= 8 && |buf| >= MinFormatLength(VertexCount(buf), EdgeCount(buf))
      && Edges(buf) == Uint32Edges(edges)
  {
    EncodePassesLengthChecks(sk, edges);
    EncodedSections(sk, edges);
    EdgesFrom(Encode(sk, edges).value, |sk.nodes|, edges);
  }

  /** The edge section of a buffer whose header gives `n` vertices and `|edges|` edges, and which holds `edges` there. */
  lemma {:induction false} EdgesFrom(buf: seq<Byte>, n: nat, edges: seq<(int, int)>)
    requires |buf| >= 8 && VertexCount(buf) == n && EdgeCount(buf) == |edges|
    requires |buf| >= MinFormatLength(n, |edges|)
    requires buf[8 + 12 * n..MinFormatLength(n, |edges|)] == EdgeBytes(edges)
    ensures Edges(buf) == Uint32Edges(edges)
  {
    LayoutEdgeRows(buf, 8 + 12 * n, edges);
  }

  /** The rows of an edge section written at `o`, as the decoder reads them. */
  lemma {:induction false} LayoutEdgeRows(buf: seq<Byte>, o: nat, edges: seq<(int, int)>)
    requires o + 8 * |edges| <= |buf| && buf[o..o + 8 * |edges|] == EdgeBytes(edges)
    ensures EdgeRows(buf, o, |edges|) == Uint32Edges(edges)
  {
    forall k | 0 <= k < |edges|
      ensures EdgeRows(buf, o, |edges|)[k] == Uint32Edges(edges)[k]
    {
      EdgeRowsAt(buf, o, |edges|, k);
      LayoutEdgeRow(buf, o, edges, k);
    }
  }

  /** Row k of an edge section written at `o`, as the decoder reads it. */
  lemma {:induction false} LayoutEdgeRow(buf: seq<Byte>, o: nat, edges: seq<(int, int)>, k: nat)
    requires o + 8 * |edges| <= |buf| && buf[o..o + 8 * |edges|] == EdgeBytes(edges) && k < |edges|
    ensures o + 8 * k + 8 <= |buf|
    ensures EdgeRow(buf, o + 8 * k) == (ToUint32(edges[k].0), ToUint32(edges[k].1))
  {
    EdgeBytesLayout(edges, k);
    SubSlice(buf, o, EdgeBytes(edges), 8 * k, 8 * k + 4);
    SubSlice(buf, o, EdgeBytes(edges), 8 * k + 4, 8 * k + 8);
    DecodeEncodeU32(ToUint32(edges[k].0));
    DecodeEncodeU32(ToUint32(edges[k].1));
  }

  /** The xyz words the decoder reads for node `i` are the ones the encoder wrote. */
  lemma {:induction false} EncodedXyz(sk: Skeleton, edges: seq<(int, int)>, i: nat)
    requires sk.Aligned() && Encode(sk, edges).Ok? && i < |sk.nodes|
    ensures var buf := Encode(sk, edges).value;
      && WordAt(buf, 8 + 12 * i) == sk.nodes[i].x
      && WordAt(buf, 8 + 12 * i + 4) == sk.nodes[i].y
      && WordAt(buf, 8 + 12 * i + 8) == sk.nodes[i].z
  {
    EncodedSections(sk, edges);
    LayoutXyz(Encode(sk, edges).value, sk.nodes, i);
  }

  /** The xyz words of node `i` of a buffer whose xyz section holds `nodes`. */
  lemma {:induction false} LayoutXyz(buf: seq<Byte>, nodes: seq<Node>, i: nat)
    requires 8 + 12 * |nodes| <= |buf| && buf[8..8 + 12 * |nodes|] == XyzBytes(nodes) && i < |nodes|
    ensures 8 + 12 * i + 12 <= |buf|
    ensures && WordAt(buf, 8 + 12 * i) == nodes[i].x
            && WordAt(buf, 8 + 12 * i + 4) == nodes[i].y
            && WordAt(buf, 8 + 12 * i + 8) == nodes[i].z
  {
    XyzBytesLayout(nodes, i);
    SubSlice(buf, 8, XyzBytes(nodes), 12 * i, 12 * i + 4);
    SubSlice(buf, 8, XyzBytes(nodes), 12 * i + 4, 12 * i + 8);
    SubSlice(buf, 8, XyzBytes(nodes), 12 * i + 8, 12 * i + 12);
  }

  /** The radius and class the decoder reads for node `i`, when written, are the encoder's. */
  lemma {:induction false} EncodedOptional(sk: Skeleton, edges: seq<(int, int)>, i: nat)
    requires sk.Aligned() && Encode(sk, edges).Ok? && i < |sk.nodes|
    ensures var buf := Encode(sk, edges).value;
      var minLen := MinFormatLength(|sk.nodes|, |edges|);
      && (WritesRadii(sk) ==> WordAt(buf, minLen + 4 * i) == sk.nodes[i].radius)
      && (WritesClasses(sk) ==> buf[minLen + 4 * |sk.nodes| + i] == ToUint8(sk.attributes[i].nodeClass))
  {
    var buf := Encode(sk, edges).value;
    var minLen := MinFormatLength(|sk.nodes|, |edges|);
    EncodedSections(sk, edges);
    if WritesRadii(sk) {
      LayoutRadius(buf, minLen, sk.nodes, i);
    }
    if WritesClasses(sk) {
      assert WritesRadii(sk);
      LayoutClass(buf, minLen + 4 * |sk.nodes|, sk.attributes, i);
    }
  }

  /** The radius word of node `i` of a radii section written at `o`. */
  lemma {:induction false} LayoutRadius(buf: seq<Byte>, o: nat, nodes: seq<Node>, i: nat)
    requires o + 4 * |nodes| <= |buf| && buf[o..o + 4 * |nodes|] == RadiusBytes(nodes) && i < |nodes|
    ensures o + 4 * i + 4 <= |buf| && WordAt(buf, o + 4 * i) == nodes[i].radius
  {
    RadiusBytesLayout(nodes, i);
    SubSlice(buf, o, RadiusBytes(nodes), 4 * i, 4 * i + 4);
  }

  /** The class byte of node `i` of a class section written at `o`. */
  lemma {:induction false} LayoutClass(buf: seq<Byte>, o: nat, attributes: seq<NodeAttributes>, i: nat)
    requires o + |attributes| <= |buf| && buf[o..o + |attributes|] == ClassBytes(attributes) && i < |attributes|
    ensures o + i < |buf| && buf[o + i] == ToUint8(attributes[i].nodeClass)
  {
    assert buf[o..o + |attributes|][i] == buf[o + i];
  }

  /**
   * Decoding what the encoder wrote: it succeeds exactly when every edge
   * child (as uint32) names a node, and then gives back each node's xyz,
   * its radius when the radii section was written (+0.0 otherwise, where
   * every radius was zero), its class as uint8, and the parent set by the
   * last edge naming it, with the child and sibling columns unset.
   */
  lemma {:induction false} EncodeDecodeRoundTrip(sk: Skeleton, edges: seq<(int, int)>)
    requires sk.Aligned() && Encode(sk, edges).Ok?
    ensures var buf := Encode(sk, edges).value;
      && (Decode(buf).Ok? <==> ChildrenInRange(Uint32Edges(edges), |sk.nodes|))
      && (Decode(buf).Ok? ==>
        var d := Decode(buf).value;
        && d.Aligned() && |d.nodes| == |sk.nodes|
        && forall i :: 0 <= i < |sk.nodes| ==>
          && d.nodes[i].x == sk.nodes[i].x
          && d.nodes[i].y == sk.nodes[i].y
          && d.nodes[i].z == sk.nodes[i].z
          && d.nodes[i].radius == (if WritesRadii(sk) then sk.nodes[i].radius else PosZero)
          && (!WritesRadii(sk) ==> IsZero(sk.nodes[i].radius))
          && d.attributes[i] == NodeAttributes(ToUint8(sk.attributes[i].nodeClass), LastParent(Uint32Edges(edges), i), -2, -2))
  {
    EncodedDecodable(sk, edges);
    if Decode(Encode(sk, edges).value).Ok? {
      RoundTripNodes(sk, edges);
    }
  }

  lemma {:induction false} RoundTripNodes(sk: Skeleton, edges: seq<(int, int)>)
    requires sk.Aligned() && Encode(sk, edges).Ok?
    requires Decode(Encode(sk, edges).value).Ok?
    ensures var d := Decode(Encode(sk, edges).value).value;
      && d.Aligned() && |d.nodes| == |sk.nodes|
      && forall i :: 0 <= i < |sk.nodes| ==>
        && d.nodes[i].x == sk.nodes[i].x
        && d.nodes[i].y == sk.nodes[i].y
        && d.nodes[i].z == sk.nodes[i].z
        && d.nodes[i].radius == (if WritesRadii(sk) then sk.nodes[i].radius else PosZero)
        && (!WritesRadii(sk) ==> IsZero(sk.nodes[i].radius))
        && d.attributes[i] == NodeAttributes(ToUint8(sk.attributes[i].nodeClass), LastParent(Uint32Edges(edges), i), -2, -2)
  {
    var d := Decode(Encode(sk, edges).value).value;
    EncodePassesLengthChecks(sk, edges);
    forall i | 0 <= i < |sk.nodes|
      ensures && d.nodes[i].x == sk.nodes[i].x
        && d.nodes[i].y == sk.nodes[i].y
        && d.nodes[i].z == sk.nodes[i].z
        && d.nodes[i].radius == (if WritesRadii(sk) then sk.nodes[i].radius else PosZero)
        && (!WritesRadii(sk) ==> IsZero(sk.nodes[i].radius))
        && d.attributes[i] == NodeAttributes(ToUint8(sk.attributes[i].nodeClass), LastParent(Uint32Edges(edges), i), -2, -2)
    {
      RoundTripNode(sk, edges, i);
    }
  }

  lemma {:induction false} EncodedDecodable(sk: Skeleton, edges: seq<(int, int)>)
    requires sk.Aligned() && Encode(sk, edges).Ok?
    ensures Decode(Encode(sk, edges).value).Ok? <==> ChildrenInRange(Uint32Edges(edges), |sk.nodes|)
  {
    var buf := Encode(sk, edges).value;
    EncodePassesLengthChecks(sk, edges);
    EncodedEdgeRows(sk, edges);
    DecodableWhen(buf, |sk.nodes|, |edges|, Uint32Edges(edges));
  }

  /** A buffer with the expected header, lengths and edge rows is decodable exactly when the children are in range. */
  lemma {:induction false} DecodableWhen(buf: seq<Byte>, nv: nat, ne: nat, edges: seq<(nat, nat)>)
    requires |buf| >= 8 && VertexCount(buf) == nv && EdgeCount(buf) == ne
    requires |buf| >= MinFormatLength(nv, ne) && SectionsComplete(|buf|, MinFormatLength(nv, ne), nv)
    requires Edges(buf) == edges
    ensures Decodable(buf) <==> ChildrenInRange(edges, nv)
  {
  }

  lemma {:induction false} RoundTripNode(sk: Skeleton, edges: seq<(int, int)>, i: nat)
    requires sk.Aligned() && Encode(sk, edges).Ok? && i < |sk.nodes|
    requires Decode(Encode(sk, edges).value).Ok?
    ensures var d := Decode(Encode(sk, edges).value).value;
      && d.Aligned() && |d.nodes| == |sk.nodes|
      && d.nodes[i].x == sk.nodes[i].x
      && d.nodes[i].y == sk.nodes[i].y
      && d.nodes[i].z == sk.nodes[i].z
      && d.nodes[i].radius == (if WritesRadii(sk) then sk.nodes[i].radius else PosZero)
      && (!WritesRadii(sk) ==> IsZero(sk.nodes[i].radius))
      && d.attributes[i] == NodeAttributes(ToUint8(sk.attributes[i].nodeClass), LastParent(Uint32Edges(edges), i), -2, -2)
  {
    var buf := Encode(sk, edges).value;
    EncodedLayout(sk, edges, i);
    var c := ToUint8(sk.attributes[i].nodeClass);
    DecodedNodeFrom(buf, |sk.nodes|, |edges|, Uint32Edges(edges), sk.nodes[i], c, WritesRadii(sk), WritesClasses(sk), i);
  }

  /** Everything the decoder reads for node `i` of an encoded buffer, as the encoder wrote it. */
  lemma {:induction false} EncodedLayout(sk: Skeleton, edges: seq<(int, int)>, i: nat)
    requires sk.Aligned() && Encode(sk, edges).Ok? && i < |sk.nodes|
    ensures var buf := Encode(sk, edges).value;
      var n, ne := |sk.nodes|, |edges|;
      && |buf| >= 8 && VertexCount(buf) == n && EdgeCount(buf) == ne && |buf| >= MinFormatLength(n, ne)
      && (|buf| >= MinFormatLength(n, ne) + 4 * n <==> WritesRadii(sk) || n == 0)
      && (|buf| >= MinFormatLength(n, ne) + 5 * n <==> WritesClasses(sk) || n == 0)
      && Edges(buf) == Uint32Edges(edges)
      && WordAt(buf, 8 + 12 * i) == sk.nodes[i].x
      && WordAt(buf, 8 + 12 * i + 4) == sk.nodes[i].y
      && WordAt(buf, 8 + 12 * i + 8) == sk.nodes[i].z
      && (WritesRadii(sk) ==> WordAt(buf, MinFormatLength(n, ne) + 4 * i) == sk.nodes[i].radius)
      && (WritesClasses(sk) ==> buf[MinFormatLength(n, ne) + 4 * n + i] == ToUint8(sk.attributes[i].nodeClass))
      && (!WritesClasses(sk) ==> ToUint8(sk.attributes[i].nodeClass) == 0)
  {
    EncodePassesLengthChecks(sk, edges);
    EncodedEdgeRows(sk, edges);
    EncodedXyz(sk, edges, i);
    EncodedOptional(sk, edges, i);
  }

  /**
   * Node `i` of a decodable buffer laid out as the encoder lays out a node
   * and its class: the xyz words are the node's, the radii section is
   * present exactly when `wr`, the class section exactly when `wc`, and the
   * edge rows are `edges`.
   */
  lemma {:induction false} DecodedNodeFrom(buf: seq<Byte>, n: nat, ne: nat, edges: seq<(nat, nat)>, node: Node, c: Byte, wr: bool, wc: bool, i: nat)
    requires Decodable(buf) && VertexCount(buf) == n && EdgeCount(buf) == ne && i < n
    requires |buf| >= MinFormatLength(n, ne) + 4 * n <==> wr || n == 0
    requires |buf| >= MinFormatLength(n, ne) + 5 * n <==> wc || n == 0
    requires Edges(buf) == edges
    requires && WordAt(buf, 8 + 12 * i) == node.x
             && WordAt(buf, 8 + 12 * i + 4) == node.y
             && WordAt(buf, 8 + 12 * i + 8) == node.z
    requires wr ==> WordAt(buf, MinFormatLength(n, ne) + 4 * i) == node.radius
    requires wc ==> buf[MinFormatLength(n, ne) + 4 * n + i] == c
    requires !wc ==> c == 0
    ensures var d := Decode(buf).value;
      && d.Aligned() && |d.nodes| == n
      && d.nodes[i] == Node(node.x, node.y, node.z, if wr then node.radius else PosZero)
      && d.attributes[i] == NodeAttributes(c, LastParent(edges, i), -2, -2)
  {
    DecodedXyzFrom(buf, node, i);
    DecodedRadiusFrom(buf, n, ne, wr, node.radius, i);
    DecodedAttributesFrom(buf, n, ne, wc, c, i);
    DecodedParentFrom(buf, edges, i);
  }

  /** The xyz words of node `i` of a decodable buffer. */
  lemma {:induction false} DecodedXyzFrom(buf: seq<Byte>, node: Node, i: nat)
    requires Decodable(buf) && i < VertexCount(buf)
    requires && WordAt(buf, 8 + 12 * i) == node.x
             && WordAt(buf, 8 + 12 * i + 4) == node.y
             && WordAt(buf, 8 + 12 * i + 8) == node.z
    ensures var d := Decode(buf).value;
      && d.Aligned() && |d.nodes| == VertexCount(buf)
      && d.nodes[i].x == node.x && d.nodes[i].y == node.y && d.nodes[i].z == node.z
  {
    DecodeLayout(buf, i);
  }

  /** The radius of node `i` of a decodable buffer whose radii section is present exactly when `writes`. */
  lemma {:induction false} DecodedRadiusFrom(buf: seq<Byte>, n: nat, ne: nat, writes: bool, radius: F32, i: nat)
    requires Decodable(buf) && VertexCount(buf) == n && EdgeCount(buf) == ne && i < n
    requires |buf| >= MinFormatLength(n, ne) + 4 * n <==> writes || n == 0
    requires writes ==> WordAt(buf, MinFormatLength(n, ne) + 4 * i) == radius
    ensures Decode(buf).value.nodes[i].radius == if writes then radius else PosZero
  {
    DecodeLayout(buf, i);
    RadiusFrom(buf, n, ne, writes, radius, i);
  }

  /**
   * The attribute row of node `i` of a decodable buffer whose class section
   * is present exactly when `writes` and whose edge rows are `edges`.
   */
  lemma {:induction false} DecodedAttributesFrom(buf: seq<Byte>, n: nat, ne: nat, writes: bool, c: Byte, i: nat)
    requires Decodable(buf) && VertexCount(buf) == n && EdgeCount(buf) == ne && i < n
    requires |buf| >= MinFormatLength(n, ne) + 5 * n <==> writes || n == 0
    requires writes ==> buf[MinFormatLength(n, ne) + 4 * n + i] == c
    requires !writes ==> c == 0
    ensures var a := Decode(buf).value.attributes[i];
      a.nodeClass == c && a.firstChild == -2 && a.nextSibling == -2
  {
    DecodeLayout(buf, i);
    ClassFrom(buf, n, ne, writes, c, i);
  }

  /** The parent of node `i` of a decodable buffer whose edge rows are `edges`. */
  lemma {:induction false} DecodedParentFrom(buf: seq<Byte>, edges: seq<(nat, nat)>, i: nat)
    requires Decodable(buf) && i < VertexCount(buf)
    requires Edges(buf) == edges
    ensures Decode(buf).value.attributes[i].parent == LastParent(edges, i)
  {
    DecodeLayout(buf, i);
  }

  /** The radius read from a buffer whose radii section is present exactly when `writes`. */
  lemma {:induction false} RadiusFrom(buf: seq<Byte>, n: nat, ne: nat, writes: bool, radius: F32, i: nat)
    requires Decodable(buf) && VertexCount(buf) == n && EdgeCount(buf) == ne && i < n
    requires |buf| >= MinFormatLength(n, ne) + 4 * n <==> writes
    requires writes ==> MinFormatLength(n, ne) + 4 * i + 4 <= |buf| && WordAt(buf, MinFormatLength(n, ne) + 4 * i) == radius
    ensures RadiusAt(buf, i) == if writes then radius else PosZero
  {
  }

  /** The class read from a buffer whose class section is present exactly when `writes`. */
  lemma {:induction false} ClassFrom(buf: seq<Byte>, n: nat, ne: nat, writes: bool, c: Byte, i: nat)
    requires Decodable(buf) && VertexCount(buf) == n && EdgeCount(buf) == ne && i < n
    requires |buf| >= MinFormatLength(n, ne) + 5 * n <==> writes
    requires writes ==> MinFormatLength(n, ne) + 4 * n + i < |buf| && buf[MinFormatLength(n, ne) + 4 * n + i] == c
    requires !writes ==> c == 0
    ensures ClassAt(buf, i) == c
  {
  }

  /**
   * A skeleton in the form the decoder produces (uint8 classes, no -0.0
   * radius, parents given by the edges, unset child and sibling columns)
   * survives encoding and decoding unchanged.
   */
  lemma {:induction false} RoundTripExact(sk: Skeleton, edges: seq<(int, int)>)
    requires sk.Aligned() && |sk.nodes| < U32Limit && |edges| < U32Limit
    requires ChildrenInRange(Uint32Edges(edges), |sk.nodes|)
    requires forall i :: 0 <= i < |sk.nodes| ==> sk.nodes[i].radius != NegZero
    requires forall i :: 0 <= i < |sk.attributes| ==>
      sk.attributes[i] == NodeAttributes(sk.attributes[i].nodeClass, LastParent(Uint32Edges(edges), i), -2, -2)
      && 0 <= sk.attributes[i].nodeClass < 256
    ensures Encode(sk, edges).Ok? && Decode(Encode(sk, edges).value) == Ok(sk)
  {
    EncodeDecodeRoundTrip(sk, edges);
    var d := Decode(Encode(sk, edges).value).value;
    forall i | 0 <= i < |sk.nodes|
      ensures d.nodes[i] == sk.nodes[i] && d.attributes[i] == sk.attributes[i]
    {
      ZeroIsSigned(sk.nodes[i].radius);
    }
    assert d.nodes == sk.nodes;
    assert d.attributes == sk.attributes;
  }

  // ---------------------------------------------------------------------
  // Equality

  /**
   * Skeleton.__eq__: every node value is close to the other's (`close`
   * stands for np.ma.allclose with atol 0.001) and the two attribute tables
   * are exactly equal, column by column.
   */
  function Equals(a: Skeleton, b: Skeleton, close: (F32, F32) -> bool): (r: bool)
    requires a.Aligned() && b.Aligned() && |a.nodes| == |b.nodes|
    ensures r <==>
      && (forall i :: 0 <= i < |a.nodes| ==> NodeClose(a.nodes[i], b.nodes[i], close))
      && (forall i, c :: 0 <= i < |a.attributes| && 0 <= c < 4 ==>
            Column(a.attributes[i], c) == Column(b.attributes[i], c))
  {
    ColumnsDetermineRows(a.attributes, b.attributes);
    (forall i :: 0 <= i < |a.nodes| ==> NodeClose(a.nodes[i], b.nodes[i], close))
    && a.attributes == b.attributes
  }

  /** Two attribute tables of one length are equal exactly when they agree in every column. */
  lemma ColumnsDetermineRows(x: seq<NodeAttributes>, y: seq<NodeAttributes>)
    requires |x| == |y|
    ensures x == y <==> forall i, c :: 0 <= i < |x| && 0 <= c < 4 ==> Column(x[i], c) == Column(y[i], c)
  {
    if forall i, c :: 0 <= i < |x| && 0 <= c < 4 ==> Column(x[i], c) == Column(y[i], c) {
      forall i | 0 <= i < |x|
        ensures x[i] == y[i]
      {
        assert Column(x[i], 0) == Column(y[i], 0) && Column(x[i], 1) == Column(y[i], 1);
        assert Column(x[i], 2) == Column(y[i], 2) && Column(x[i], 3) == Column(y[i], 3);
      }
    }
  }

  /** Column `c` of an attribute row. */
  function Column(row: NodeAttributes, c: nat): int
    requires c < 4
  {
    match c
    case 0 => row.nodeClass
    case 1 => row.parent
    case 2 => row.firstChild
    case _ => row.nextSibling
  }

  predicate NodeClose(p: Node, q: Node, close: (F32, F32) -> bool) {
    close(p.x, q.x) && close(p.y, q.y) && close(p.z, q.z) && close(p.radius, q.radius)
  }

  /** Attribute tables that differ in any column make two skeletons unequal. */
  lemma {:induction false} EqualsNeedsEqualAttributes(a: Skeleton, b: Skeleton, close: (F32, F32) -> bool, i: nat, c: nat)
    requires a.Aligned() && b.Aligned() && |a.nodes| == |b.nodes|
    requires i < |a.attributes| && c < 4 && Column(a.attributes[i], c) != Column(b.attributes[i], c)
    ensures !Equals(a, b, close)
  {
  }

  /** A skeleton equals itself when closeness is reflexive. */
  lemma {:induction false} EqualsReflexive(a: Skeleton, close: (F32, F32) -> bool)
    requires a.Aligned()
    requires forall w :: close(w, w)
    ensures Equals(a, a, close)
  {
  }

  /**
   * Under `==`, a skeleton in decoder form comes back from encoding and
   * decoding equal to itself, -0.0 radii included, since +0.0 and -0.0 are
   * close.
   */
  lemma {:induction false} RoundTripEquals(sk: Skeleton, edges: seq<(int, int)>, close: (F32, F32) -> bool)
    requires sk.Aligned() && |sk.nodes| < U32Limit && |edges| < U32Limit
    requires ChildrenInRange(Uint32Edges(edges), |sk.nodes|)
    requires forall i :: 0 <= i < |sk.attributes| ==>
      sk.attributes[i] == NodeAttributes(sk.attributes[i].nodeClass, LastParent(Uint32Edges(edges), i), -2, -2)
      && 0 <= sk.attributes[i].nodeClass < 256
    requires forall w :: close(w, w)
    requires close(PosZero, NegZero)
    ensures Encode(sk, edges).Ok?
    ensures var d := Decode(Encode(sk, edges).value);
      d.Ok? && d.value.Aligned() && |d.value.nodes| == |sk.nodes| && Equals(d.value, sk, close)
  {
    EncodeDecodeRoundTrip(sk, edges);
    var d := Decode(Encode(sk, edges).value).value;
    forall i | 0 <= i < |sk.nodes|
      ensures NodeClose(d.nodes[i], sk.nodes[i], close) && d.attributes[i] == sk.attributes[i]
    {
      if !WritesRadii(sk) {
        assert d.nodes[i].radius == PosZero;
        ZeroIsSigned(sk.nodes[i].radius);
      }
    }
    assert d.attributes == sk.attributes;
  }
}
