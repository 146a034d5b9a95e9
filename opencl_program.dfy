/** Host side of the two GPU kernels: the structure-of-arrays buffers, the
    kernel argument table, the launch size and the chunked read-back of the
    boolean output buffer. Platform, context, queue and buffer lifetime are
    not modelled; a kernel is what it writes at each work item. */
module OpenCLProgram {
  import opened Geometry
  import opened Chunking

  /** Largest number of output flags read back in one transfer. */
  const MaxRead: nat := 30000

  /** A device buffer as the host fills it: float columns, the integer metadata
      pair, or the write-only boolean output of the given length. */
  datatype DeviceBuffer = Floats(values: seq<real>) | Ints(ints: seq<int>) | Flags(length: nat)

  /** Kernel arguments, bound by index. */
  type KernelArgs = map<nat, DeviceBuffer>

  /** A compiled kernel: the flag it writes at work item k, given its bound
      arguments. The kernel source is not part of this model. */
  type Kernel = (KernelArgs, nat) -> bool

  // ---------------------------------------------------------------------------
  // Columns: which component of which value goes into which buffer
  // ---------------------------------------------------------------------------

  /** Stage-1 ray columns: 0 position X, 1 position Y, 2 direction X, 3 direction Y. */
  function PlanarRayComponent(r: Ray, k: nat): real
    requires k < 4
  {
    if k == 0 then r.position.x
    else if k == 1 then r.position.y
    else if k == 2 then r.direction.x
    else r.direction.y
  }

  /** Stage-2 ray columns: 0..2 position X, Y, Z; 3..5 direction X, Y, Z. */
  function SpatialRayComponent(r: Ray, k: nat): real
    requires k < 6
  {
    var p := if k < 3 then r.position else r.direction;
    Coordinate(p, k % 3)
  }

  function Coordinate(p: Point3, j: nat): real
    requires j < 3
  {
    if j == 0 then p.x else if j == 1 then p.y else p.z
  }

  /** Circle columns: 0 origin X, 1 origin Y, 2 radius. */
  function CircleComponent(c: BoundingCircle, k: nat): real
    requires k < 3
  {
    if k == 0 then c.originX else if k == 1 then c.originY else c.radius
  }

  /** Triangle columns: 3 * v + j holds coordinate j of vertex v. */
  function VertexComponent(t: Triangle, k: nat): real
    requires k < 9
  {
    var v := if k / 3 == 0 then t.v0 else if k / 3 == 1 then t.v1 else t.v2;
    Coordinate(v, k % 3)
  }

  function PlanarRayColumn(rays: seq<Ray>, k: nat): seq<real>
    requires k < 4
  {
    seq(|rays|, j requires 0 <= j < |rays| => PlanarRayComponent(rays[j], k))
  }

  function SpatialRayColumn(rays: seq<Ray>, k: nat): seq<real>
    requires k < 6
  {
    seq(|rays|, j requires 0 <= j < |rays| => SpatialRayComponent(rays[j], k))
  }

  function CircleColumn(circles: seq<BoundingCircle>, k: nat): seq<real>
    requires k < 3
  {
    seq(|circles|, j requires 0 <= j < |circles| => CircleComponent(circles[j], k))
  }

  function VertexColumn(triangles: seq<Triangle>, k: nat): seq<real>
    requires k < 9
  {
    seq(|triangles|, j requires 0 <= j < |triangles| => VertexComponent(triangles[j], k))
  }

  // ---------------------------------------------------------------------------
  // Argument binding
  // ---------------------------------------------------------------------------

  /** The table that binding `first` at 0.., then `second`, then the metadata
      and the output buffer produces. */
  function Layout(first: seq<DeviceBuffer>, second: seq<DeviceBuffer>, meta: DeviceBuffer, output: DeviceBuffer): KernelArgs
  {
    var all := first + second + [meta, output];
    map i: nat | i < |all| :: all[i]
  }

  /** The SetKernelArg sequence common to both kernels: first-array buffers at
      their own index, second-array buffers after them, the metadata next and
      the output buffer last. */
  method BindKernelArgs(first: seq<DeviceBuffer>, second: seq<DeviceBuffer>, meta: DeviceBuffer, output: DeviceBuffer)
    returns (args: KernelArgs)
    ensures forall i: nat :: i in args <==> i < |first| + |second| + 2
    ensures forall i :: 0 <= i < |first| ==> args[i] == first[i]
    ensures forall i :: 0 <= i < |second| ==> args[|first| + i] == second[i]
    ensures args[|first| + |second|] == meta && args[|first| + |second| + 1] == output
    ensures args == Layout(first, second, meta, output)
  {
    var all := first + second + [meta, output];
    args := map[];
    for i := 0 to |first|
      invariant forall j: nat :: j in args <==> j < i
      invariant forall j: nat :: j < i ==> args[j] == all[j]
    {
      args := args[i := first[i]];
    }
    for i := 0 to |second|
      invariant forall j: nat :: j in args <==> j < |first| + i
      invariant forall j: nat :: j < |first| + i ==> args[j] == all[j]
    {
      assert all[|first| + i] == second[i];
      args := args[|first| + i := second[i]];
    }
    args := args[|first| + |second| := meta];
    args := args[|first| + |second| + 1 := output];
    TableOfEntries(args, all);
    LayoutEntries(first, second, meta, output);
  }

  /** Where each buffer sits in the layout table. */
  lemma LayoutEntries(first: seq<DeviceBuffer>, second: seq<DeviceBuffer>, meta: DeviceBuffer, output: DeviceBuffer)
    ensures var args := Layout(first, second, meta, output);
      && (forall i: nat :: i in args <==> i < |first| + |second| + 2)
      && (forall i :: 0 <= i < |first| ==> args[i] == first[i])
      && (forall i :: 0 <= i < |second| ==> args[|first| + i] == second[i])
      && args[|first| + |second|] == meta && args[|first| + |second| + 1] == output
  {
  }

  /** A table whose keys are 0..|all| and whose entries are those of `all`
      is the table of `all`. */
  lemma TableOfEntries(args: KernelArgs, all: seq<DeviceBuffer>)
    requires forall j: nat :: j in args <==> j < |all|
    requires forall j: nat :: j < |all| ==> args[j] == all[j]
    ensures args == map i: nat | i < |all| :: all[i]
  {
  }

  /** Arguments of the circle kernel: the three circle columns, the four
      planar ray columns, the metadata and the output, bound in that order. */
  function CircleKernelArgs(rays: seq<Ray>, circles: seq<BoundingCircle>): KernelArgs
  {
    var circleMemo := [Floats(CircleColumn(circles, 0)), Floats(CircleColumn(circles, 1)), Floats(CircleColumn(circles, 2))];
    var rayMemo := [Floats(PlanarRayColumn(rays, 0)), Floats(PlanarRayColumn(rays, 1)),
                    Floats(PlanarRayColumn(rays, 2)), Floats(PlanarRayColumn(rays, 3))];
    Layout(circleMemo, rayMemo, Ints([|circles|, |rays|]), Flags(|rays| * |circles|))
  }

  /** Circle kernel layout: circle columns at 0..2 (origin X, origin Y,
      radius), ray columns at 3..6 (position X, Y, direction X, Y), the
      metadata [circle count, ray count] at 7 and an output of
      |rays| * |circles| flags at 8; nothing else is bound. */
  lemma CircleKernelLayout(rays: seq<Ray>, circles: seq<BoundingCircle>)
    ensures var args := CircleKernelArgs(rays, circles);
      && (forall i: nat :: i in args <==> i < 9)
      && (forall k, j :: 0 <= k < 3 && 0 <= j < |circles| ==>
            args[k].Floats? && |args[k].values| == |circles| && args[k].values[j] == CircleComponent(circles[j], k))
      && (forall k, j :: 0 <= k < 4 && 0 <= j < |rays| ==>
            args[3 + k].Floats? && |args[3 + k].values| == |rays| && args[3 + k].values[j] == PlanarRayComponent(rays[j], k))
      && args[7] == Ints([|circles|, |rays|])
      && args[8] == Flags(|rays| * |circles|)
  {
  }

  /** Arguments of the triangle kernel: the nine vertex columns, the six
      spatial ray columns, the metadata and the output, bound in that order. */
  function TriangleKernelArgs(rays: seq<Ray>, triangles: seq<Triangle>): KernelArgs
  {
    var triangleMemo := seq(9, k requires 0 <= k < 9 => Floats(VertexColumn(triangles, k)));
    var rayMemo := seq(6, k requires 0 <= k < 6 => Floats(SpatialRayColumn(rays, k)));
    Layout(triangleMemo, rayMemo, Ints([|triangles|, |rays|]), Flags(|rays| * |triangles|))
  }

  /** Triangle kernel layout: coordinate j of vertex v at 3 * v + j (0..8),
      ray position X, Y, Z and direction X, Y, Z at 9..14, the metadata
      [triangle count, ray count] at 15 and an output of |rays| * |triangles|
      flags at 16; nothing else is bound. */
  lemma TriangleKernelLayout(rays: seq<Ray>, triangles: seq<Triangle>)
    ensures var args := TriangleKernelArgs(rays, triangles);
      && (forall i: nat :: i in args <==> i < 17)
      && (forall v, j, t :: 0 <= v < 3 && 0 <= j < 3 && 0 <= t < |triangles| ==>
            args[3 * v + j].Floats? && |args[3 * v + j].values| == |triangles|
            && args[3 * v + j].values[t] == Coordinate([triangles[t].v0, triangles[t].v1, triangles[t].v2][v], j))
      && (forall k, j :: 0 <= k < 6 && 0 <= j < |rays| ==>
            args[9 + k].Floats? && |args[9 + k].values| == |rays| && args[9 + k].values[j] == SpatialRayComponent(rays[j], k))
      && args[15] == Ints([|triangles|, |rays|])
      && args[16] == Flags(|rays| * |triangles|)
  {
    forall v, j, t | 0 <= v < 3 && 0 <= j < 3 && 0 <= t < |triangles|
      ensures VertexComponent(triangles[t], 3 * v + j) == Coordinate([triangles[t].v0, triangles[t].v1, triangles[t].v2][v], j)
    {
      VertexColumnOrder(triangles[t], v, j);
    }
  }

  /** The output buffer after a launch over `size` work items. */
  function KernelOutput(args: KernelArgs, size: nat, kernel: Kernel): (out: seq<bool>)
    ensures |out| == size
  {
    seq(size, k requires 0 <= k < size => kernel(args, k))
  }

  // ---------------------------------------------------------------------------
  // Read-back
  // ---------------------------------------------------------------------------

  /** The read loop as written: ceil(size / MaxRead) reads of MaxRead flags
      and a final read of size % MaxRead, each appended to the result, but
      every read is issued at device offset 0 (the computed offset is never
      passed). So flag k of the result is flag k % MaxRead of the device. */
  method ReadOutputAsWritten(output: seq<bool>) returns (result: seq<bool>)
    ensures |result| == |output|
    ensures forall k :: 0 <= k < |output| ==> k % MaxRead <= k && result[k] == output[k % MaxRead]
    ensures |output| <= MaxRead ==> result == output
  {
    var size := |output|;
    result := [];
    var i := 0;
    while i < ChunkCount(size, MaxRead)
      invariant 0 <= i <= ChunkCount(size, MaxRead)
      invariant |result| == LengthSum(size, MaxRead, i) <= size
      invariant forall k :: 0 <= k < |result| ==> k % MaxRead <= k && result[k] == output[k % MaxRead]
    {
      var offset := i * MaxRead;   // computed, never used
      var len := ChunkLength(i, size, MaxRead);
      ChunkShape(size, MaxRead, i);
      LengthSumCovers(size, MaxRead, i);
      var chunk := output[0..len];
      forall k | |result| <= k < |result| + len
        ensures k % MaxRead == k - offset
      {
        DivUnique(k, MaxRead, i, k - offset);
      }
      result := result + chunk;
      i := i + 1;
      LengthSumCovers(size, MaxRead, i);
    }
    ChunkLengthsSum(size, MaxRead);
    if size <= MaxRead {
      forall k | 0 <= k < size ensures result[k] == output[k] {
        DivUnique(k, MaxRead, 0, k);
      }
    }
  }

  /** What offset-0 reads lose: a result that repeats output[k % MaxRead]
      differs from the device output as soon as some flag past the first
      MaxRead differs from the flag it is aliased to. */
  lemma OffsetZeroReadLosesFlags(output: seq<bool>, result: seq<bool>, k: nat)
    requires |result| == |output| && k < |output|
    requires forall j :: 0 <= j < |output| ==> j % MaxRead <= j && result[j] == output[j % MaxRead]
    requires output[k] != output[k % MaxRead]
    ensures result != output
  {
    assert result[k] != output[k];
  }

  /** A concrete case: of 30001 flags only the last is set; the offset-0 reads
      bring back flag 0 in its place, so the host never sees it. */
  lemma OffsetZeroReadExample(output: seq<bool>, result: seq<bool>)
    requires output == seq(MaxRead + 1, j => j == MaxRead)
    requires |result| == |output|
    requires forall j :: 0 <= j < |output| ==> j % MaxRead <= j && result[j] == output[j % MaxRead]
    ensures result != output && !result[MaxRead]
  {
    DivUnique(MaxRead, MaxRead, 1, 0);
    OffsetZeroReadLosesFlags(output, result, MaxRead);
  }

  /** Vertex v's coordinate j is column 3 * v + j of the triangle arguments. */
  lemma VertexColumnOrder(t: Triangle, v: nat, j: nat)
    requires v < 3 && j < 3
    ensures VertexComponent(t, 3 * v + j) == Coordinate([t.v0, t.v1, t.v2][v], j)
  {
    DivUnique(3 * v + j, 3, v, j);
  }

  /** The read loop with each read issued at its computed offset i * MaxRead:
      the chunks tile the buffer, so the host sees exactly the device output. */
  method ReadOutput(output: seq<bool>) returns (result: seq<bool>)
    ensures result == output
  {
    var size := |output|;
    result := [];
    var i := 0;
    while i < ChunkCount(size, MaxRead)
      invariant 0 <= i <= ChunkCount(size, MaxRead)
      invariant result == Chunks(output, MaxRead, i)
    {
      var offset := i * MaxRead;
      var len := ChunkLength(i, size, MaxRead);
      ChunkShape(size, MaxRead, i);
      result := result + output[offset .. offset + len];
      i := i + 1;
    }
    ChunksTile(output, MaxRead);
  }

  // ---------------------------------------------------------------------------
  // The two launches
  // ---------------------------------------------------------------------------

  /** Stage-1 marshalling: the four planar ray columns, the three circle
      columns, the metadata [circle count, ray count] and an output buffer of
      |rays| * |circles| flags, bound circle columns first. */
  method MarshalCircleKernel(rays: seq<Ray>, circles: seq<BoundingCircle>) returns (args: KernelArgs)
    ensures args == CircleKernelArgs(rays, circles)
  {
    var size := |rays| * |circles|;
    var rayMemo := [Floats(PlanarRayColumn(rays, 0)), Floats(PlanarRayColumn(rays, 1)),
                    Floats(PlanarRayColumn(rays, 2)), Floats(PlanarRayColumn(rays, 3))];
    var circleMemo := [Floats(CircleColumn(circles, 0)), Floats(CircleColumn(circles, 1)), Floats(CircleColumn(circles, 2))];
    var metaBuffer := Ints([|circles|, |rays|]);
    var outputBuffer := Flags(size);
    args := BindKernelArgs(circleMemo, rayMemo, metaBuffer, outputBuffer);
  }

  /** Stage-2 marshalling: the six spatial ray columns, the nine vertex
      columns, the metadata [triangle count, ray count] and an output buffer
      of |rays| * |triangles| flags, bound vertex columns first. */
  method MarshalTriangleKernel(rays: seq<Ray>, triangles: seq<Triangle>) returns (args: KernelArgs)
    ensures args == TriangleKernelArgs(rays, triangles)
  {
    var size := |rays| * |triangles|;
    var rayMemo := [];
    for k := 0 to 6
      invariant |rayMemo| == k
      invariant forall j :: 0 <= j < k ==> rayMemo[j] == Floats(SpatialRayColumn(rays, j))
    {
      rayMemo := rayMemo + [Floats(SpatialRayColumn(rays, k))];
    }
    var triangleMemo := [];
    for k := 0 to 9
      invariant |triangleMemo| == k
      invariant forall j :: 0 <= j < k ==> triangleMemo[j] == Floats(VertexColumn(triangles, j))
    {
      triangleMemo := triangleMemo + [Floats(VertexColumn(triangles, k))];
    }
    var metaBuffer := Ints([|triangles|, |rays|]);
    var outputBuffer := Flags(size);
    args := BindKernelArgs(triangleMemo, rayMemo, metaBuffer, outputBuffer);
    assert triangleMemo == seq(9, k requires 0 <= k < 9 => Floats(VertexColumn(triangles, k)));
    assert rayMemo == seq(6, k requires 0 <= k < 6 => Floats(SpatialRayColumn(rays, k)));
  }

  /** Stage 1 as written: one work item per (ray, circle) pair, and the
      |rays| * |circles| flags read back by the offset-0 loop, so flag k is
      the device's flag k % MaxRead. */
  method RunCheckCircleIntersection(rays: seq<Ray>, circles: seq<BoundingCircle>, kernel: Kernel)
    returns (result: seq<bool>)
    ensures |result| == |rays| * |circles|
    ensures forall k :: 0 <= k < |result| ==>
      k % MaxRead <= k && result[k] == KernelOutput(CircleKernelArgs(rays, circles), |rays| * |circles|, kernel)[k % MaxRead]
    ensures |rays| * |circles| <= MaxRead ==>
      result == KernelOutput(CircleKernelArgs(rays, circles), |rays| * |circles|, kernel)
  {
    var size := |rays| * |circles|;
    var args := MarshalCircleKernel(rays, circles);
    var output := KernelOutput(args, size, kernel);
    result := ReadOutputAsWritten(output);
  }

  /** Stage 2 as written: one work item per element of the full
      |rays| * |triangles| product, read back by the offset-0 loop. */
  method RunCheckIntersection(rays: seq<Ray>, triangles: seq<Triangle>, kernel: Kernel)
    returns (result: seq<bool>)
    ensures |result| == |rays| * |triangles|
    ensures forall k :: 0 <= k < |result| ==>
      k % MaxRead <= k && result[k] == KernelOutput(TriangleKernelArgs(rays, triangles), |rays| * |triangles|, kernel)[k % MaxRead]
    ensures |rays| * |triangles| <= MaxRead ==>
      result == KernelOutput(TriangleKernelArgs(rays, triangles), |rays| * |triangles|, kernel)
  {
    var size := |rays| * |triangles|;
    var args := MarshalTriangleKernel(rays, triangles);
    var output := KernelOutput(args, size, kernel);
    result := ReadOutputAsWritten(output);
  }

  /** Stage 1 with the corrected read-back: the host sees exactly the
      |rays| * |circles| flags the kernel wrote. */
  method RunCheckCircleIntersectionCorrected(rays: seq<Ray>, circles: seq<BoundingCircle>, kernel: Kernel)
    returns (result: seq<bool>)
    ensures |result| == |rays| * |circles|
    ensures result == KernelOutput(CircleKernelArgs(rays, circles), |rays| * |circles|, kernel)
  {
    var size := |rays| * |circles|;
    var args := MarshalCircleKernel(rays, circles);
    var output := KernelOutput(args, size, kernel);
    result := ReadOutput(output);
  }

  /** Stage 2 with the corrected read-back: the host sees exactly the
      |rays| * |triangles| flags the kernel wrote. */
  method RunCheckIntersectionCorrected(rays: seq<Ray>, triangles: seq<Triangle>, kernel: Kernel)
    returns (result: seq<bool>)
    ensures |result| == |rays| * |triangles|
    ensures result == KernelOutput(TriangleKernelArgs(rays, triangles), |rays| * |triangles|, kernel)
  {
    var size := |rays| * |triangles|;
    var args := MarshalTriangleKernel(rays, triangles);
    var output := KernelOutput(args, size, kernel);
    result := ReadOutput(output);
  }
}
