/**
 * Three-dimensional label volumes in C order (z, y, x), and the order in
 * which the segmentation code visits them: voxel by voxel with x fastest,
 * and at each voxel its backward neighbours along z, then y, then x.
 */
module Volume {

  /** A segment id (`segid_t`, an unsigned integer); 0 is background. */
  type SegId = nat

  datatype Axis = Z | Y | X

  /** Visiting voxel (z, y, x) and looking back along `axis`. */
  datatype Step = Step(z: nat, y: nat, x: nat, axis: Axis)

  /** The position of an axis among the three looks of one voxel. */
  function AxisRank(a: Axis): nat {
    match a
    case Z => 0
    case Y => 1
    case X => 2
  }

  /** Whether the step has a backward neighbour inside the volume. */
  predicate HasNeighbour(s: Step) {
    match s.axis
    case Z => s.z > 0
    case Y => s.y > 0
    case X => s.x > 0
  }

  /** The voxel one step back along the step's axis. */
  function Neighbour(s: Step): (v: (nat, nat, nat))
    requires HasNeighbour(s)
  {
    match s.axis
    case Z => (s.z - 1, s.y, s.x)
    case Y => (s.z, s.y - 1, s.x)
    case X => (s.z, s.y, s.x - 1)
  }

  /** The three looks at one voxel: z, then y, then x. */
  function VoxelSteps(z: nat, y: nat, x: nat): (steps: seq<Step>)
    ensures |steps| == 3
  {
    [Step(z, y, x, Z), Step(z, y, x, Y), Step(z, y, x, X)]
  }

  /** The steps of voxels (z, y, 0) .. (z, y, n - 1). */
  function LineSteps(z: nat, y: nat, n: nat): seq<Step> {
    if n == 0 then [] else LineSteps(z, y, n - 1) + VoxelSteps(z, y, n - 1)
  }

  /** The steps of rows 0 .. n - 1 of plane z, each `sx` voxels long. */
  function PlaneSteps(z: nat, n: nat, sx: nat): seq<Step> {
    if n == 0 then [] else PlaneSteps(z, n - 1, sx) + LineSteps(z, n - 1, sx)
  }

  /** The steps of planes 0 .. n - 1 of a volume with `sy` rows of `sx` voxels. */
  function ScanSteps(n: nat, sy: nat, sx: nat): seq<Step> {
    if n == 0 then [] else ScanSteps(n - 1, sy, sx) + PlaneSteps(n - 1, sy, sx)
  }

  /** The steps taken before voxel (z, y, x) in a volume of `sy` rows of `sx` voxels. */
  function StepsBefore(z: nat, y: nat, x: nat, sy: nat, sx: nat): seq<Step> {
    ScanSteps(z, sy, sx) + PlaneSteps(z, y, sx) + LineSteps(z, y, x)
  }

  /** Voxel (vz, vy, vx) comes strictly before voxel (z, y, x) in C order. */
  predicate VoxelBefore(vz: nat, vy: nat, vx: nat, z: nat, y: nat, x: nat) {
    vz < z || (vz == z && (vy < y || (vy == y && vx < x)))
  }

  /** Step s is taken strictly before step t. */
  predicate StepBefore(s: Step, t: Step) {
    VoxelBefore(s.z, s.y, s.x, t.z, t.y, t.x)
    || (s.z == t.z && s.y == t.y && s.x == t.x && AxisRank(s.axis) < AxisRank(t.axis))
  }

  predicate Ascending(steps: seq<Step>) {
    forall i, j :: 0 <= i < j < |steps| ==> StepBefore(steps[i], steps[j])
  }

  // ---------------------------------------------------------------------
  // Which steps are taken

  /** Every step of row y of plane z, up to voxel n, looks at a voxel of that row before x = n. */
  lemma {:induction false} LineStepsBounds(z: nat, y: nat, n: nat, i: nat)
    requires i < |LineSteps(z, y, n)|
    ensures LineSteps(z, y, n)[i].z == z && LineSteps(z, y, n)[i].y == y && LineSteps(z, y, n)[i].x < n
  {
    var prefix := LineSteps(z, y, n - 1);
    assert LineSteps(z, y, n) == prefix + VoxelSteps(z, y, n - 1);
    if i < |prefix| {
      LineStepsBounds(z, y, n - 1, i);
    }
  }

  /** Every look of every voxel of row y of plane z before x = n is a step of the row. */
  lemma {:induction false} LineStepsCover(z: nat, y: nat, n: nat, s: Step)
    requires s.z == z && s.y == y && s.x < n
    ensures s in LineSteps(z, y, n)
  {
    var prefix, voxel := LineSteps(z, y, n - 1), VoxelSteps(z, y, n - 1);
    assert LineSteps(z, y, n) == prefix + voxel;
    if s.x == n - 1 {
      assert (prefix + voxel)[|prefix| + AxisRank(s.axis)] == s;
    } else {
      LineStepsCover(z, y, n - 1, s);
    }
  }

  /** Every step of the first n rows of plane z looks at a voxel of those rows. */
  lemma {:induction false} PlaneStepsBounds(z: nat, n: nat, sx: nat, i: nat)
    requires i < |PlaneSteps(z, n, sx)|
    ensures PlaneSteps(z, n, sx)[i].z == z && PlaneSteps(z, n, sx)[i].y < n && PlaneSteps(z, n, sx)[i].x < sx
  {
    var prefix, line := PlaneSteps(z, n - 1, sx), LineSteps(z, n - 1, sx);
    assert PlaneSteps(z, n, sx) == prefix + line;
    if i < |prefix| {
      PlaneStepsBounds(z, n - 1, sx, i);
    } else {
      LineStepsBounds(z, n - 1, sx, i - |prefix|);
    }
  }

  /** Every look of every voxel of the first n rows of plane z is a step of the plane. */
  lemma {:induction false} PlaneStepsCover(z: nat, n: nat, sx: nat, s: Step)
    requires s.z == z && s.y < n && s.x < sx
    ensures s in PlaneSteps(z, n, sx)
  {
    var prefix, line := PlaneSteps(z, n - 1, sx), LineSteps(z, n - 1, sx);
    assert PlaneSteps(z, n, sx) == prefix + line;
    if s.y == n - 1 {
      LineStepsCover(z, n - 1, sx, s);
    } else {
      PlaneStepsCover(z, n - 1, sx, s);
    }
  }

  /** Every step of the scan of the first n planes looks at a voxel of those planes. */
  lemma {:induction false} ScanStepsBounds(n: nat, sy: nat, sx: nat, i: nat)
    requires i < |ScanSteps(n, sy, sx)|
    ensures ScanSteps(n, sy, sx)[i].z < n && ScanSteps(n, sy, sx)[i].y < sy && ScanSteps(n, sy, sx)[i].x < sx
  {
    var prefix, plane := ScanSteps(n - 1, sy, sx), PlaneSteps(n - 1, sy, sx);
    assert ScanSteps(n, sy, sx) == prefix + plane;
    if i < |prefix| {
      ScanStepsBounds(n - 1, sy, sx, i);
    } else {
      PlaneStepsBounds(n - 1, sy, sx, i - |prefix|);
    }
  }

  /** The scan of the first n planes visits every look of every voxel of those planes. */
  lemma {:induction false} ScanStepsCover(n: nat, sy: nat, sx: nat, s: Step)
    requires s.z < n && s.y < sy && s.x < sx
    ensures s in ScanSteps(n, sy, sx)
  {
    var prefix, plane := ScanSteps(n - 1, sy, sx), PlaneSteps(n - 1, sy, sx);
    assert ScanSteps(n, sy, sx) == prefix + plane;
    if s.z == n - 1 {
      PlaneStepsCover(n - 1, sy, sx, s);
    } else {
      ScanStepsCover(n - 1, sy, sx, s);
    }
  }

  // ---------------------------------------------------------------------
  // In which order

  lemma AscendingConcat(a: seq<Step>, b: seq<Step>)
    requires Ascending(a) && Ascending(b)
    requires forall i, j :: 0 <= i < |a| && 0 <= j < |b| ==> StepBefore(a[i], b[j])
    ensures Ascending(a + b)
  {
    forall i, j | 0 <= i < j < |a + b|
      ensures StepBefore((a + b)[i], (a + b)[j])
    {
      if j < |a| {
      } else if i >= |a| {
        assert (a + b)[i] == b[i - |a|];
      } else {
        assert (a + b)[j] == b[j - |a|];
      }
    }
  }

  lemma {:induction false} LineStepsAscending(z: nat, y: nat, n: nat)
    ensures Ascending(LineSteps(z, y, n))
  {
    if n > 0 {
      var prefix := LineSteps(z, y, n - 1);
      LineStepsAscending(z, y, n - 1);
      forall i | 0 <= i < |prefix|
        ensures prefix[i].z == z && prefix[i].y == y && prefix[i].x < n - 1
      {
        LineStepsBounds(z, y, n - 1, i);
      }
      AscendingConcat(prefix, VoxelSteps(z, y, n - 1));
    }
  }

  lemma {:induction false} PlaneStepsAscending(z: nat, n: nat, sx: nat)
    ensures Ascending(PlaneSteps(z, n, sx))
  {
    if n > 0 {
      var prefix, line := PlaneSteps(z, n - 1, sx), LineSteps(z, n - 1, sx);
      PlaneStepsAscending(z, n - 1, sx);
      LineStepsAscending(z, n - 1, sx);
      forall i | 0 <= i < |prefix|
        ensures prefix[i].z == z && prefix[i].y < n - 1
      {
        PlaneStepsBounds(z, n - 1, sx, i);
      }
      forall j | 0 <= j < |line|
        ensures line[j].z == z && line[j].y == n - 1
      {
        LineStepsBounds(z, n - 1, sx, j);
      }
      AscendingConcat(prefix, line);
    }
  }

  /**
   * The scan takes its steps in strictly increasing order: voxels in C
   * order, and at each voxel the z look before the y look before the x look.
   */
  lemma {:induction false} ScanStepsAscending(n: nat, sy: nat, sx: nat)
    ensures Ascending(ScanSteps(n, sy, sx))
  {
    if n > 0 {
      var prefix, plane := ScanSteps(n - 1, sy, sx), PlaneSteps(n - 1, sy, sx);
      ScanStepsAscending(n - 1, sy, sx);
      PlaneStepsAscending(n - 1, sy, sx);
      forall i | 0 <= i < |prefix|
        ensures prefix[i].z < n - 1
      {
        ScanStepsBounds(n - 1, sy, sx, i);
      }
      forall j | 0 <= j < |plane|
        ensures plane[j].z == n - 1
      {
        PlaneStepsBounds(n - 1, sy, sx, j);
      }
      AscendingConcat(prefix, plane);
    }
  }

  // ---------------------------------------------------------------------
  // Advancing the cursor of a triple loop

  lemma NextVoxel(z: nat, y: nat, x: nat, sy: nat, sx: nat)
    ensures StepsBefore(z, y, x + 1, sy, sx) == StepsBefore(z, y, x, sy, sx) + VoxelSteps(z, y, x)
  {
    var p := ScanSteps(z, sy, sx) + PlaneSteps(z, y, sx);
    assert LineSteps(z, y, x + 1) == LineSteps(z, y, x) + VoxelSteps(z, y, x);
    assert p + (LineSteps(z, y, x) + VoxelSteps(z, y, x)) == (p + LineSteps(z, y, x)) + VoxelSteps(z, y, x);
  }

  lemma NextRow(z: nat, y: nat, sy: nat, sx: nat)
    ensures StepsBefore(z, y + 1, 0, sy, sx) == StepsBefore(z, y, sx, sy, sx)
  {
    var p := ScanSteps(z, sy, sx);
    assert PlaneSteps(z, y + 1, sx) == PlaneSteps(z, y, sx) + LineSteps(z, y, sx);
    assert p + (PlaneSteps(z, y, sx) + LineSteps(z, y, sx)) + [] == p + PlaneSteps(z, y, sx) + LineSteps(z, y, sx);
  }

  lemma NextPlane(z: nat, sy: nat, sx: nat)
    ensures StepsBefore(z + 1, 0, 0, sy, sx) == StepsBefore(z, sy, 0, sy, sx)
  {
    assert ScanSteps(z + 1, sy, sx) == ScanSteps(z, sy, sx) + PlaneSteps(z, sy, sx);
    assert ScanSteps(z + 1, sy, sx) + [] + [] == ScanSteps(z, sy, sx) + PlaneSteps(z, sy, sx) + [];
  }

  lemma WholeScan(sz: nat, sy: nat, sx: nat)
    ensures StepsBefore(sz, 0, 0, sy, sx) == ScanSteps(sz, sy, sx)
  {
    assert ScanSteps(sz, sy, sx) + [] + [] == ScanSteps(sz, sy, sx);
  }

  // ---------------------------------------------------------------------
  // Whole-volume operations

  /** The distinct labels of a volume (`xt::unique`). */
  function Labels(a: array3<SegId>): (labels: set<SegId>)
    reads a
    ensures forall z, y, x :: 0 <= z < a.Length0 && 0 <= y < a.Length1 && 0 <= x < a.Length2 ==>
      a[z, y, x] in labels
  {
    set z, y, x | 0 <= z < a.Length0 && 0 <= y < a.Length1 && 0 <= x < a.Length2 :: a[z, y, x]
  }

  /** Every label of a volume sits at some voxel. */
  lemma LabelsOccur(a: array3<SegId>, id: SegId)
    requires id in Labels(a)
    ensures exists z, y, x :: 0 <= z < a.Length0 && 0 <= y < a.Length1 && 0 <= x < a.Length2 && a[z, y, x] == id
  {
  }

  /**
   * Overwrite every voxel with `f` of its value, in C order (the shape of
   * `relabel`'s triple loop and of `std::transform` over a volume).
   */
  method MapVolume(a: array3<SegId>, f: SegId -> SegId)
    modifies a
    ensures forall z, y, x :: 0 <= z < a.Length0 && 0 <= y < a.Length1 && 0 <= x < a.Length2 ==>
      a[z, y, x] == f(old(a[z, y, x]))
  {
    for z := 0 to a.Length0
      invariant forall i, j, k :: 0 <= i < a.Length0 && 0 <= j < a.Length1 && 0 <= k < a.Length2 ==>
        a[i, j, k] == if i < z then f(old(a[i, j, k])) else old(a[i, j, k])
    {
      for y := 0 to a.Length1
        invariant forall i, j, k :: 0 <= i < a.Length0 && 0 <= j < a.Length1 && 0 <= k < a.Length2 ==>
          a[i, j, k] == if VoxelBefore(i, j, k, z, y, 0) then f(old(a[i, j, k])) else old(a[i, j, k])
      {
        for x := 0 to a.Length2
          invariant forall i, j, k :: 0 <= i < a.Length0 && 0 <= j < a.Length1 && 0 <= k < a.Length2 ==>
            a[i, j, k] == if VoxelBefore(i, j, k, z, y, x) then f(old(a[i, j, k])) else old(a[i, j, k])
        {
          a[z, y, x] := f(a[z, y, x]);
        }
      }
    }
  }
}
