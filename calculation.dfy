/** Two of the counting strategies: the sequential scan and the host side of
    the two-stage GPU pipeline. Both answer `Run(rays, meshes)` with a count;
    None stands for an exception escaping Run. */
module Calculation {
  import opened Geometry
  import opened Chunking
  import opened Utills
  import opened OpenCLProgram

  // ---------------------------------------------------------------------------
  // Sequential scan
  // ---------------------------------------------------------------------------

  predicate AllMeshesValid(meshes: seq<Mesh>)
  {
    forall j :: 0 <= j < |meshes| ==> AllFacesValid(meshes[j])
  }

  /** The inner mesh loop for one ray, from mesh j on: IsHit on each mesh until
      one hits (the break) or one throws. */
  function FirstMeshHit(meshes: seq<Mesh>, ray: Ray, test: TriangleTest, j: nat): Option<bool>
    requires j <= |meshes|
    decreases |meshes| - j
  {
    if j == |meshes| then Some(false)
    else match HitFrom(meshes[j], ray, test, 0)
      case None => None
      case Some(hit) => if hit then Some(true) else FirstMeshHit(meshes, ray, test, j + 1)
  }

  /** The counter after the outer loop has handled the first k rays. */
  function SyncCount(rays: seq<Ray>, meshes: seq<Mesh>, test: TriangleTest, k: nat): Option<nat>
    requires k <= |rays|
  {
    if k == 0 then Some(0)
    else match SyncCount(rays, meshes, test, k - 1)
      case None => None
      case Some(v) =>
        match FirstMeshHit(meshes, rays[k - 1], test, 0)
        case None => None
        case Some(hit) => Some(if hit then v + 1 else v)
  }

  /** Reference answer for one ray: some triangle of some mesh passes the test. */
  predicate RayHits(meshes: seq<Mesh>, ray: Ray, test: TriangleTest)
  {
    exists j :: 0 <= j < |meshes| && MeshHit(meshes[j], ray, test)
  }

  /** Number of rays among the first k that hit some mesh. */
  function HitRayCount(rays: seq<Ray>, meshes: seq<Mesh>, test: TriangleTest, k: nat): nat
    requires k <= |rays|
  {
    if k == 0 then 0
    else HitRayCount(rays, meshes, test, k - 1) + (if RayHits(meshes, rays[k - 1], test) then 1 else 0)
  }

  /** Each ray is counted at most once, and never when there is no mesh. */
  lemma {:induction false} HitRayCountBounds(rays: seq<Ray>, meshes: seq<Mesh>, test: TriangleTest, k: nat)
    requires k <= |rays|
    ensures HitRayCount(rays, meshes, test, k) <= k
    ensures |meshes| == 0 ==> HitRayCount(rays, meshes, test, k) == 0
  {
    if k > 0 {
      HitRayCountBounds(rays, meshes, test, k - 1);
    }
  }

  /** With valid meshes the mesh loop never throws and finds a hit exactly when
      some mesh from j on is hit by the ray. */
  lemma {:induction false} FirstMeshHitValid(meshes: seq<Mesh>, ray: Ray, test: TriangleTest, j: nat)
    requires AllMeshesValid(meshes) && j <= |meshes|
    ensures FirstMeshHit(meshes, ray, test, j)
         == Some(exists i :: j <= i < |meshes| && MeshHit(meshes[i], ray, test))
    decreases |meshes| - j
  {
    if j < |meshes| {
      HitFromMatchesTriangles(meshes[j], ray, test);
      FirstMeshHitValid(meshes, ray, test, j + 1);
      if !MeshHit(meshes[j], ray, test) && exists i :: j <= i < |meshes| && MeshHit(meshes[i], ray, test) {
        var i :| j <= i < |meshes| && MeshHit(meshes[i], ray, test);
        assert i != j;
      }
    }
  }

  /** With valid meshes the sequential scan counts the rays that hit some
      triangle of some mesh: the brute-force reference over GetTriangles. */
  lemma {:induction false} SyncCountValid(rays: seq<Ray>, meshes: seq<Mesh>, test: TriangleTest, k: nat)
    requires AllMeshesValid(meshes) && k <= |rays|
    ensures SyncCount(rays, meshes, test, k) == Some(HitRayCount(rays, meshes, test, k))
  {
    if k > 0 {
      SyncCountValid(rays, meshes, test, k - 1);
      FirstMeshHitValid(meshes, rays[k - 1], test, 0);
    }
  }

  /** The counter never exceeds the number of rays handled, and an exception
      ends the run for good. */
  lemma {:induction false} SyncCountBound(rays: seq<Ray>, meshes: seq<Mesh>, test: TriangleTest, k: nat, n: nat)
    requires k <= n <= |rays|
    ensures SyncCount(rays, meshes, test, k).Some? ==> SyncCount(rays, meshes, test, k).value <= k
    ensures SyncCount(rays, meshes, test, k).None? ==> SyncCount(rays, meshes, test, n).None?
    decreases n
  {
    if k < n {
      SyncCountBound(rays, meshes, test, k, n - 1);
    } else if k > 0 {
      SyncCountBound(rays, meshes, test, k - 1, k - 1);
    }
  }

  /** CheckWaySync.Run: for each ray, test the meshes in order and count the
      ray once at the first mesh it hits. */
  method SyncRun(rays: seq<Ray>, meshes: seq<Mesh>, test: TriangleTest) returns (r: Option<nat>)
    ensures r == SyncCount(rays, meshes, test, |rays|)
    ensures AllMeshesValid(meshes) ==> r == Some(HitRayCount(rays, meshes, test, |rays|))
    ensures r.Some? ==> r.value <= |rays|
    ensures |rays| == 0 || |meshes| == 0 ==> r == Some(0)
  {
    var value := 0;
    for i := 0 to |rays|
      invariant SyncCount(rays, meshes, test, i) == Some(value)
    {
      var ray := rays[i];
      var hit := false;
      var j := 0;
      while j < |meshes| && !hit
        invariant 0 <= j <= |meshes|
        invariant !hit ==> FirstMeshHit(meshes, ray, test, 0) == FirstMeshHit(meshes, ray, test, j)
        invariant hit ==> FirstMeshHit(meshes, ray, test, 0) == Some(true)
        invariant hit ==> SyncCount(rays, meshes, test, i + 1) == Some(value)
        invariant !hit ==> SyncCount(rays, meshes, test, i) == Some(value)
      {
        var h := IsHit(meshes[j], ray, test);
        if h.None? {
          SyncCountBound(rays, meshes, test, i + 1, |rays|);
          return None;
        }
        if h.value {
          value := value + 1;
          hit := true;   // break
        }
        j := j + 1;
      }
    }
    r := Some(value);
    SyncCountBound(rays, meshes, test, |rays|, |rays|);
    if AllMeshesValid(meshes) {
      SyncCountValid(rays, meshes, test, |rays|);
      HitRayCountBounds(rays, meshes, test, |rays|);
    }
  }

  // ---------------------------------------------------------------------------
  // GPU pipeline: the stage-1 matrix
  // ---------------------------------------------------------------------------

  /** Cell (r, c) of the rays x meshes stage-1 matrix, stored row-major. */
  lemma MatrixIndexInRange(x: nat, y: nat, r: nat, c: nat)
    requires r < x && c < y
    ensures r * y + c < x * y
  {
    MulLe(r + 1, x, y);
    MulSucc(r, y);
  }

  /** Distinct cells have distinct indices. */
  lemma MatrixIndexInjective(y: nat, r1: nat, c1: nat, r2: nat, c2: nat)
    requires c1 < y && c2 < y
    ensures r1 * y + c1 == r2 * y + c2 <==> r1 == r2 && c1 == c2
  {
    if r1 * y + c1 == r2 * y + c2 {
      DivUnique(r1 * y + c1, y, r1, c1);
      DivUnique(r2 * y + c2, y, r2, c2);
    }
  }

  function Cell(result: seq<bool>, x: nat, y: nat, r: nat, c: nat): bool
    requires |result| == x * y && r < x && c < y
  {
    assert r * y + c < x * y by { MatrixIndexInRange(x, y, r, c); }
    result[r * y + c]
  }

  /** Row r of the matrix has a true cell. */
  predicate RowHit(result: seq<bool>, x: nat, y: nat, r: nat)
    requires |result| == x * y && r < x
  {
    exists c :: 0 <= c < y && Cell(result, x, y, r, c)
  }

  /** Every mesh whose circle some ray among the first k hit has valid faces. */
  predicate HitMeshesValid(meshes: seq<Mesh>, result: seq<bool>, x: nat, k: nat)
    requires |result| == x * |meshes| && k <= x
  {
    forall r, c :: 0 <= r < k && 0 <= c < |meshes| && Cell(result, x, |meshes|, r, c) ==> AllFacesValid(meshes[c])
  }

  // ---------------------------------------------------------------------------
  // GPU pipeline: the stage-2 work lists
  // ---------------------------------------------------------------------------

  datatype WorkLists = WorkLists(rays: seq<Ray>, faces: seq<Triangle>)

  /** `_rays` after the first k rows: each ray whose row has a true cell, once,
      in order. */
  function WorkRays(rays: seq<Ray>, result: seq<bool>, y: nat, k: nat): seq<Ray>
    requires |result| == |rays| * y && k <= |rays|
  {
    if k == 0 then []
    else WorkRays(rays, result, y, k - 1) + (if RowHit(result, |rays|, y, k - 1) then [rays[k - 1]] else [])
  }

  /** What row r adds to `_faces` for its first c cells: the triangles of mesh
      c' for every true cell (r, c'). */
  function RowFaces(meshes: seq<Mesh>, result: seq<bool>, x: nat, r: nat, c: nat): seq<Triangle>
    requires |result| == x * |meshes| && r < x && c <= |meshes|
  {
    if c == 0 then []
    else RowFaces(meshes, result, x, r, c - 1)
         + (if Cell(result, x, |meshes|, r, c - 1) then TrianglesOf(meshes[c - 1]) else [])
  }

  /** `_faces` after the first k rows. */
  function WorkFaces(meshes: seq<Mesh>, result: seq<bool>, x: nat, k: nat): seq<Triangle>
    requires |result| == x * |meshes| && k <= x
  {
    if k == 0 then [] else WorkFaces(meshes, result, x, k - 1) + RowFaces(meshes, result, x, k - 1, |meshes|)
  }

  lemma AppendAssoc<T>(a: seq<T>, b: seq<T>, c: seq<T>)
    ensures a + b + c == a + (b + c)
  {
  }

  /** The face loop run for each true cell: appends (A, B, C), and (A, C, D)
      for a quad, of every face of the mesh to `_faces`. Unlike GetTriangles
      it has no try/catch: a bad index throws (None). */
  method AppendMeshTriangles(mesh: Mesh, faces: seq<Triangle>) returns (r: Option<seq<Triangle>>)
    ensures AllFacesValid(mesh) ==> r == Some(faces + TrianglesOf(mesh))
    ensures !AllFacesValid(mesh) ==> r == None
  {
    var acc := faces;
    for k := 0 to |mesh.faces|
      invariant acc == faces + TrianglesOfFaces(mesh, k)
      invariant forall i :: 0 <= i < k ==> ValidFace(mesh, mesh.faces[i])
    {
      var face := mesh.faces[k];
      ghost var before := acc;
      if !(InRange(mesh, face.a) && InRange(mesh, face.b) && InRange(mesh, face.c)) {
        assert !ValidFace(mesh, mesh.faces[k]);
        return None;
      }
      acc := acc + [Triangle(mesh.vertices[face.a], mesh.vertices[face.b], mesh.vertices[face.c])];
      if face.isQuad {
        if !InRange(mesh, face.d) {
          assert !ValidFace(mesh, mesh.faces[k]);
          return None;
        }
        acc := acc + [Triangle(mesh.vertices[face.a], mesh.vertices[face.c], mesh.vertices[face.d])];
      }
      assert acc == before + FaceTriangles(mesh, face);
      AppendAssoc(faces, TrianglesOfFaces(mesh, k), FaceTriangles(mesh, face));
    }
    r := Some(acc);
  }

  /** Every mesh whose cell in row r is true has valid faces. */
  predicate RowMeshesValid(meshes: seq<Mesh>, result: seq<bool>, x: nat, r: nat)
    requires |result| == x * |meshes| && r < x
  {
    forall c :: 0 <= c < |meshes| && Cell(result, x, |meshes|, r, c) ==> AllFacesValid(meshes[c])
  }

  /** One row of the matrix scan: notes whether the row has a true cell and
      appends the triangles of each mesh whose cell is true. */
  method ScanRow(meshes: seq<Mesh>, result: seq<bool>, x: nat, r: nat, faces: seq<Triangle>)
    returns (add: bool, appended: Option<seq<Triangle>>)
    requires |result| == x * |meshes| && r < x
    ensures add <==> RowHit(result, x, |meshes|, r)
    ensures appended.Some? <==> RowMeshesValid(meshes, result, x, r)
    ensures appended.Some? ==> appended.value == faces + RowFaces(meshes, result, x, r, |meshes|)
  {
    var y := |meshes|;
    add := false;
    var acc := faces;
    for c := 0 to y
      invariant add <==> exists c' :: 0 <= c' < c && Cell(result, x, y, r, c')
      invariant acc == faces + RowFaces(meshes, result, x, r, c)
      invariant forall c' :: 0 <= c' < c && Cell(result, x, y, r, c') ==> AllFacesValid(meshes[c'])
    {
      var index := r * y + c;
      MatrixIndexInRange(x, y, r, c);
      var cell := result[index];
      assert cell == Cell(result, x, y, r, c);
      if cell {
        add := true;
        var next := AppendMeshTriangles(meshes[c], acc);
        if next.None? {
          return add, None;
        }
        acc := next.value;
      }
    }
    appended := Some(acc);
  }

  /** Builds `_rays` and `_faces` from the stage-1 matrix. A bad vertex index
      in a mesh of a true cell throws out of Run. */
  method BuildWorkLists(rays: seq<Ray>, meshes: seq<Mesh>, result: seq<bool>) returns (w: Option<WorkLists>)
    requires |result| == |rays| * |meshes|
    ensures w.Some? <==> HitMeshesValid(meshes, result, |rays|, |rays|)
    ensures w.Some? ==> w.value.rays == WorkRays(rays, result, |meshes|, |rays|)
    ensures w.Some? ==> w.value.faces == WorkFaces(meshes, result, |rays|, |rays|)
  {
    var x, y := |rays|, |meshes|;
    var workRays: seq<Ray> := [];
    var workFaces: seq<Triangle> := [];
    for r := 0 to x
      invariant workRays == WorkRays(rays, result, y, r)
      invariant workFaces == WorkFaces(meshes, result, x, r)
      invariant HitMeshesValid(meshes, result, x, r)
    {
      var add, appended := ScanRow(meshes, result, x, r, workFaces);
      if appended.None? {
        assert !HitMeshesValid(meshes, result, x, x) by {
          var c :| 0 <= c < y && Cell(result, x, y, r, c) && !AllFacesValid(meshes[c]);
        }
        return None;
      }
      workFaces := appended.value;
      if add {
        workRays := workRays + [rays[r]];
      }
    }
    w := Some(WorkLists(workRays, workFaces));
  }

  /** Number of rows among the first k that have a true cell. */
  function HitRowCount(result: seq<bool>, x: nat, y: nat, k: nat): nat
    requires |result| == x * y && k <= x
  {
    if k == 0 then 0 else HitRowCount(result, x, y, k - 1) + (if RowHit(result, x, y, k - 1) then 1 else 0)
  }

  /** `_rays` after k rows holds one ray per row with a true cell. */
  lemma {:induction false} WorkRaysLength(rays: seq<Ray>, result: seq<bool>, y: nat, k: nat)
    requires |result| == |rays| * y && k <= |rays|
    ensures |WorkRays(rays, result, y, k)| == HitRowCount(result, |rays|, y, k) <= k
  {
    if k > 0 {
      WorkRaysLength(rays, result, y, k - 1);
    }
  }

  /** `_rays` only grows: its value after r rows is a prefix of its value after k rows. */
  lemma {:induction false} WorkRaysPrefix(rays: seq<Ray>, result: seq<bool>, y: nat, r: nat, k: nat)
    requires |result| == |rays| * y && r <= k <= |rays|
    ensures |WorkRays(rays, result, y, r)| <= |WorkRays(rays, result, y, k)|
    ensures WorkRays(rays, result, y, r) == WorkRays(rays, result, y, k)[..|WorkRays(rays, result, y, r)|]
  {
    if r < k {
      WorkRaysPrefix(rays, result, y, r, k - 1);
      var pre := WorkRays(rays, result, y, k - 1);
      assert WorkRays(rays, result, y, k)[..|pre|] == pre;
    }
  }

  /** The ray of a row with a true cell sits at the length `_rays` had
      before that row. */
  lemma WorkRaysAt(rays: seq<Ray>, result: seq<bool>, y: nat, r: nat, k: nat)
    requires |result| == |rays| * y && r < k <= |rays| && RowHit(result, |rays|, y, r)
    ensures |WorkRays(rays, result, y, r)| < |WorkRays(rays, result, y, k)|
    ensures WorkRays(rays, result, y, k)[|WorkRays(rays, result, y, r)|] == rays[r]
  {
    WorkRaysPrefix(rays, result, y, r + 1, k);
    var upto := WorkRays(rays, result, y, r + 1);
    assert upto == WorkRays(rays, result, y, r) + [rays[r]];
    assert upto[|WorkRays(rays, result, y, r)|] == rays[r];
  }

  /** Every position of `_rays` after k rows was filled by some earlier row
      with a true cell, at the moment `_rays` had exactly that length. */
  lemma {:induction false} WorkRaysSource(rays: seq<Ray>, result: seq<bool>, y: nat, k: nat, i: nat)
    requires |result| == |rays| * y && k <= |rays| && i < |WorkRays(rays, result, y, k)|
    ensures exists r :: 0 <= r < k && RowHit(result, |rays|, y, r) && |WorkRays(rays, result, y, r)| == i
  {
    if i < |WorkRays(rays, result, y, k - 1)| {
      WorkRaysSource(rays, result, y, k - 1, i);
    } else {
      assert RowHit(result, |rays|, y, k - 1) && |WorkRays(rays, result, y, k - 1)| == i;
    }
  }

  /** Entry i of `_rays` after k rows is the ray of some row r < k with a true
      cell, appended when `_rays` had length i. */
  predicate FilledByRow(rays: seq<Ray>, result: seq<bool>, y: nat, k: nat, i: nat)
    requires |result| == |rays| * y && k <= |rays| && i < |WorkRays(rays, result, y, k)|
  {
    exists r :: 0 <= r < k && RowHit(result, |rays|, y, r) && |WorkRays(rays, result, y, r)| == i
      && WorkRays(rays, result, y, k)[i] == rays[r]
  }

  /** Entry i of `_rays` is the ray of the row that filled it. */
  lemma WorkRaysEntry(rays: seq<Ray>, result: seq<bool>, y: nat, k: nat, i: nat)
    requires |result| == |rays| * y && k <= |rays| && i < |WorkRays(rays, result, y, k)|
    ensures FilledByRow(rays, result, y, k, i)
  {
    WorkRaysSource(rays, result, y, k, i);
    var r :| 0 <= r < k && RowHit(result, |rays|, y, r) && |WorkRays(rays, result, y, r)| == i;
    WorkRaysAt(rays, result, y, r, k);
  }

  /** `_rays` lists each ray whose row has a true cell, once and in order: it
      holds one entry per such row, the ray of row r sits at index
      |WorkRays(r)|, and every index is filled that way by some such row. */
  lemma WorkRaysOrder(rays: seq<Ray>, result: seq<bool>, y: nat, k: nat)
    requires |result| == |rays| * y && k <= |rays|
    ensures |WorkRays(rays, result, y, k)| == HitRowCount(result, |rays|, y, k) <= k
    ensures forall r :: 0 <= r < k && RowHit(result, |rays|, y, r) ==>
      |WorkRays(rays, result, y, r)| < |WorkRays(rays, result, y, k)|
      && WorkRays(rays, result, y, k)[|WorkRays(rays, result, y, r)|] == rays[r]
    ensures forall i :: 0 <= i < |WorkRays(rays, result, y, k)| ==> FilledByRow(rays, result, y, k, i)
  {
    WorkRaysLength(rays, result, y, k);
    forall r | 0 <= r < k && RowHit(result, |rays|, y, r)
      ensures |WorkRays(rays, result, y, r)| < |WorkRays(rays, result, y, k)|
      ensures WorkRays(rays, result, y, k)[|WorkRays(rays, result, y, r)|] == rays[r]
    {
      WorkRaysAt(rays, result, y, r, k);
    }
    forall i | 0 <= i < |WorkRays(rays, result, y, k)|
      ensures FilledByRow(rays, result, y, k, i)
    {
      WorkRaysEntry(rays, result, y, k, i);
    }
  }

  /** Sum of TriangleCount over the true cells of row r among its first c cells. */
  function RowTriangleSum(meshes: seq<Mesh>, result: seq<bool>, x: nat, r: nat, c: nat): nat
    requires |result| == x * |meshes| && r < x && c <= |meshes|
  {
    if c == 0 then 0
    else RowTriangleSum(meshes, result, x, r, c - 1)
         + (if Cell(result, x, |meshes|, r, c - 1) then TriangleCount(meshes[c - 1]) else 0)
  }

  /** Sum of TriangleCount over the true cells of the first k rows. */
  function TriangleSum(meshes: seq<Mesh>, result: seq<bool>, x: nat, k: nat): nat
    requires |result| == x * |meshes| && k <= x
  {
    if k == 0 then 0 else TriangleSum(meshes, result, x, k - 1) + RowTriangleSum(meshes, result, x, k - 1, |meshes|)
  }

  lemma {:induction false} RowFacesLength(meshes: seq<Mesh>, result: seq<bool>, x: nat, r: nat, c: nat)
    requires |result| == x * |meshes| && r < x && c <= |meshes|
    requires forall c' :: 0 <= c' < c && Cell(result, x, |meshes|, r, c') ==> AllFacesValid(meshes[c'])
    ensures |RowFaces(meshes, result, x, r, c)| == RowTriangleSum(meshes, result, x, r, c)
  {
    if c > 0 {
      RowFacesLength(meshes, result, x, r, c - 1);
      if Cell(result, x, |meshes|, r, c - 1) {
        TrianglesOfFacesLength(meshes[c - 1], |meshes[c - 1].faces|);
      }
    }
  }

  /** `_faces` holds, for every true cell (r, c), all triangles of mesh c: its
      length is the sum of the meshes' triangle counts over the true cells. */
  lemma {:induction false} WorkFacesLength(meshes: seq<Mesh>, result: seq<bool>, x: nat, k: nat)
    requires |result| == x * |meshes| && k <= x && HitMeshesValid(meshes, result, x, k)
    ensures |WorkFaces(meshes, result, x, k)| == TriangleSum(meshes, result, x, k)
  {
    if k > 0 {
      WorkFacesLength(meshes, result, x, k - 1);
      RowFacesLength(meshes, result, x, k - 1, |meshes|);
    }
  }

  // ---------------------------------------------------------------------------
  // GPU pipeline: stage-2 batches
  // ---------------------------------------------------------------------------

  /** Largest number of triangles sent to one stage-2 launch. */
  const MaxBatch: nat := 500

  /** The flags collected from the first k batches: batch i is the slice of
      `_faces` at offset i * 500, launched against all of `_rays`. */
  function Collected(workRays: seq<Ray>, workFaces: seq<Triangle>, kernel: Kernel, k: nat): seq<bool>
    requires k <= ChunkCount(|workFaces|, MaxBatch)
  {
    if k == 0 then []
    else
      var batch := Chunk(workFaces, MaxBatch, k - 1);
      Collected(workRays, workFaces, kernel, k - 1)
        + KernelOutput(TriangleKernelArgs(workRays, batch), |workRays| * |batch|, kernel)
  }

  /** Every batch is launched over the full |_rays| x |batch| product, so the
      collector grows by |_rays| flags per triangle. */
  lemma {:induction false} CollectedLength(workRays: seq<Ray>, workFaces: seq<Triangle>, kernel: Kernel, k: nat)
    requires k <= ChunkCount(|workFaces|, MaxBatch)
    ensures |Collected(workRays, workFaces, kernel, k)| == |workRays| * LengthSum(|workFaces|, MaxBatch, k)
  {
    if k > 0 {
      CollectedLength(workRays, workFaces, kernel, k - 1);
      MulAdd(|workRays|, LengthSum(|workFaces|, MaxBatch, k - 1), ChunkLength(k - 1, |workFaces|, MaxBatch));
    }
  }

  /** The stage-2 launch loop: ceil(|_faces| / 500) batches, each appended to
      the collector in launch order. */
  method RunBatches(workRays: seq<Ray>, workFaces: seq<Triangle>, kernel: Kernel) returns (collector: seq<bool>)
    ensures collector == Collected(workRays, workFaces, kernel, ChunkCount(|workFaces|, MaxBatch))
    ensures |collector| == |workRays| * |workFaces|
  {
    var size := |workFaces|;
    collector := [];
    var i := 0;
    while i < ChunkCount(size, MaxBatch)
      invariant 0 <= i <= ChunkCount(size, MaxBatch)
      invariant collector == Collected(workRays, workFaces, kernel, i)
    {
      var offset := i * MaxBatch;
      var len := ChunkLength(i, size, MaxBatch);
      ChunkShape(size, MaxBatch, i);
      var batch := workFaces[offset .. offset + len];
      assert batch == Chunk(workFaces, MaxBatch, i);
      var flags := RunCheckIntersectionCorrected(workRays, batch, kernel);
      assert Collected(workRays, workFaces, kernel, i + 1) == collector + flags;
      collector := collector + flags;
      i := i + 1;
    }
    CollectedLength(workRays, workFaces, kernel, ChunkCount(size, MaxBatch));
    ChunkLengthsSum(size, MaxBatch);
  }

  // ---------------------------------------------------------------------------
  // GPU pipeline: reassembly
  // ---------------------------------------------------------------------------

  /** Number of true flags. */
  function TrueCount(s: seq<bool>): nat
  {
    if |s| == 0 then 0 else TrueCount(s[..|s| - 1]) + (if s[|s| - 1] then 1 else 0)
  }

  lemma {:induction false} TrueCountPrefix(s: seq<bool>, i: nat, j: nat)
    requires i <= j <= |s|
    ensures TrueCount(s[..i]) <= TrueCount(s[..j]) <= j
  {
    if i < j {
      TrueCountPrefix(s, i, j - 1);
      assert s[..j][..j - 1] == s[..j - 1];
    } else if j > 0 {
      TrueCountPrefix(s, j - 1, j - 1);
      assert s[..j][..j - 1] == s[..j - 1];
    }
  }

  /** The replay: one collector flag per true matrix cell, in row-major order;
      the count is the number of true flags among them. None when the
      collector runs out first (the indexing throws). */
  function ReplayCount(result: seq<bool>, collector: seq<bool>): Option<nat>
  {
    var t := TrueCount(result);
    if t <= |collector| then Some(TrueCount(collector[..t])) else None
  }

  /** The count is bounded by the number of true cells, not by the number of
      rays: with the break commented out a ray adds one per true cell of its row. */
  lemma ReplayBound(result: seq<bool>, collector: seq<bool>)
    ensures ReplayCount(result, collector).Some? ==>
      ReplayCount(result, collector).value <= TrueCount(result) <= |result|
  {
    var t := TrueCount(result);
    TrueCountPrefix(result, |result|, |result|);
    assert result[..|result|] == result;
    if t <= |collector| {
      TrueCountPrefix(collector, t, t);
    }
  }

  /** A sequence of true flags counts its own length. */
  lemma {:induction false} TrueCountAllTrue(s: seq<bool>)
    requires forall i :: 0 <= i < |s| ==> s[i]
    ensures TrueCount(s) == |s|
  {
    if |s| > 0 {
      TrueCountAllTrue(s[..|s| - 1]);
    }
  }

  /** The count goes up once per true cell whose flag is true, not once per
      ray: when the first TrueCount(result) flags are all true the count is
      the number of true cells. For a single ray (x = 1, result is its row of
      y cells) whose circle test passes for every mesh, that ray alone adds y. */
  lemma ReplayCountsCellsNotRays(result: seq<bool>, collector: seq<bool>)
    requires TrueCount(result) <= |collector|
    requires forall i :: 0 <= i < TrueCount(result) ==> collector[i]
    ensures ReplayCount(result, collector) == Some(TrueCount(result))
    ensures (forall i :: 0 <= i < |result| ==> result[i]) ==> ReplayCount(result, collector) == Some(|result|)
  {
    TrueCountAllTrue(collector[..TrueCount(result)]);
    if forall i :: 0 <= i < |result| ==> result[i] {
      TrueCountAllTrue(result);
    }
  }

  /** The reassembly loop: walk the matrix row-major, and for every true cell
      take the next collector flag, counting the true ones. */
  method Replay(x: nat, y: nat, result: seq<bool>, collector: seq<bool>) returns (r: Option<nat>)
    requires |result| == x * y
    ensures r == ReplayCount(result, collector)
  {
    var resultRaysIntersected := 0;
    var n := 0;
    ghost var start := 0;   // row * y
    for row := 0 to x
      invariant start == row * y && start <= |result|
      invariant n == TrueCount(result[..start]) && n <= |collector|
      invariant resultRaysIntersected == TrueCount(collector[..n])
    {
      MulLe(row + 1, x, y);
      MulSucc(row, y);
      for c := 0 to y
        invariant n == TrueCount(result[..start + c]) && n <= |collector|
        invariant resultRaysIntersected == TrueCount(collector[..n])
      {
        var index := row * y + c;
        assert index == start + c;
        assert result[..index + 1][..index] == result[..index];
        if result[index] {
          if n >= |collector| {
            TrueCountPrefix(result, index + 1, |result|);
            assert result[..|result|] == result;
            return None;
          }
          assert collector[..n + 1][..n] == collector[..n];
          if collector[n] {
            resultRaysIntersected := resultRaysIntersected + 1;
          }
          n := n + 1;
        }
      }
      start := start + y;
    }
    assert result[..start] == result;
    r := Some(resultRaysIntersected);
  }

  // ---------------------------------------------------------------------------
  // GPU pipeline: the whole run
  // ---------------------------------------------------------------------------

  /** One bounding circle per mesh, in mesh order. */
  function Circles(meshes: seq<Mesh>, circleOf: Mesh -> BoundingCircle): (cs: seq<BoundingCircle>)
    ensures |cs| == |meshes|
  {
    seq(|meshes|, i requires 0 <= i < |meshes| => circleOf(meshes[i]))
  }

  /** The count CheckWayOpenCL.Run returns, stage by stage. */
  function OpenCLCount(rays: seq<Ray>, meshes: seq<Mesh>, circleOf: Mesh -> BoundingCircle,
                       circleKernel: Kernel, triangleKernel: Kernel): Option<nat>
  {
    var x, y := |rays|, |meshes|;
    var result := KernelOutput(CircleKernelArgs(rays, Circles(meshes, circleOf)), x * y, circleKernel);
    if !HitMeshesValid(meshes, result, x, x) then None
    else
      var workRays := WorkRays(rays, result, y, x);
      var workFaces := WorkFaces(meshes, result, x, x);
      ReplayCount(result, Collected(workRays, workFaces, triangleKernel, ChunkCount(|workFaces|, MaxBatch)))
  }

  /** CheckWayOpenCL.Run: stage 1 culls (ray, mesh) pairs by bounding circle,
      the host builds the work lists, stage 2 tests them in batches of 500,
      and the matrix is replayed against the collected flags. */
  method OpenCLRun(rays: seq<Ray>, meshes: seq<Mesh>, circleOf: Mesh -> BoundingCircle,
                   circleKernel: Kernel, triangleKernel: Kernel) returns (r: Option<nat>)
    ensures r == OpenCLCount(rays, meshes, circleOf, circleKernel, triangleKernel)
    ensures r.Some? ==> r.value <= |rays| * |meshes|
    ensures |rays| == 0 || |meshes| == 0 ==> r == Some(0)
  {
    var boundingCircles := Circles(meshes, circleOf);
    var x, y := |rays|, |boundingCircles|;
    var result := RunCheckCircleIntersectionCorrected(rays, boundingCircles, circleKernel);
    var work := BuildWorkLists(rays, meshes, result);
    if work.None? {
      return None;
    }
    var collector := RunBatches(work.value.rays, work.value.faces, triangleKernel);
    r := Replay(x, y, result, collector);
    ReplayBound(result, collector);
    if x == 0 || y == 0 {
      assert result == [];
    }
  }

  /** A mesh with no faces whose circle is hit makes the run throw: its true
      cell consumes a collector flag, but no triangle was ever launched. */
  lemma FacelessMeshThrows(ray: Ray, mesh: Mesh, circleOf: Mesh -> BoundingCircle,
                           circleKernel: Kernel, triangleKernel: Kernel)
    requires |mesh.faces| == 0
    requires circleKernel(CircleKernelArgs([ray], [circleOf(mesh)]), 0)
    ensures OpenCLCount([ray], [mesh], circleOf, circleKernel, triangleKernel) == None
  {
    var result := KernelOutput(CircleKernelArgs([ray], Circles([mesh], circleOf)), 1, circleKernel);
    assert Circles([mesh], circleOf) == [circleOf(mesh)];
    assert result == [true];
    assert [true][..0] == [];
    assert TrueCount(result) == 1;
    assert Cell(result, 1, 1, 0, 0);
    assert HitMeshesValid([mesh], result, 1, 1);
    assert TrianglesOf(mesh) == [];
    assert RowFaces([mesh], result, 1, 0, 1) == [];
    assert WorkFaces([mesh], result, 1, 1) == [];
    assert ChunkCount(0, MaxBatch) == 0;
  }
}
