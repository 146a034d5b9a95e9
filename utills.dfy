/** Face-to-triangle expansion and the per-mesh hit test. */
module Utills {
  import opened Geometry

  // ---------------------------------------------------------------------------
  // GetTriangles
  // ---------------------------------------------------------------------------

  /** What one face adds to GetTriangles' list. The body of the try block adds
      (A, B, C) once the first three lookups succeed, then (A, C, D) for a quad
      once the lookup of D succeeds; a lookup that throws ends the face and the
      catch discards the exception. */
  function FaceTriangles(m: Mesh, f: Face): seq<Triangle>
  {
    if !(InRange(m, f.a) && InRange(m, f.b) && InRange(m, f.c)) then []
    else if f.isQuad && InRange(m, f.d) then [FirstTriangle(m, f), SecondTriangle(m, f)]
    else [FirstTriangle(m, f)]
  }

  /** The triangles of the first k faces of m, in face order. */
  function TrianglesOfFaces(m: Mesh, k: nat): seq<Triangle>
    requires k <= |m.faces|
  {
    if k == 0 then [] else TrianglesOfFaces(m, k - 1) + FaceTriangles(m, m.faces[k - 1])
  }

  /** The list GetTriangles returns for m. */
  function TrianglesOf(m: Mesh): seq<Triangle>
  {
    TrianglesOfFaces(m, |m.faces|)
  }

  /** Number of quad faces among the first k faces. */
  function QuadCount(m: Mesh, k: nat): nat
    requires k <= |m.faces|
  {
    if k == 0 then 0 else QuadCount(m, k - 1) + (if m.faces[k - 1].isQuad then 1 else 0)
  }

  /** Number of triangles a mesh with valid indices expands to: one per
      triangle face and two per quad, that is one per face plus one per quad. */
  function TriangleCount(m: Mesh): nat
  {
    |m.faces| + QuadCount(m, |m.faces|)
  }

  /** Expands every face of the mesh into triangles: a triangle face gives
      (A, B, C), a quad gives (A, B, C) then (A, C, D). A face with a bad index
      is skipped (or, for a bad D alone, keeps only its first triangle). */
  method GetTriangles(mesh: Mesh) returns (triangles: seq<Triangle>)
    ensures triangles == TrianglesOf(mesh)
    ensures AllFacesValid(mesh) ==> |triangles| == TriangleCount(mesh)
  {
    triangles := [];
    for i := 0 to |mesh.faces|
      invariant triangles == TrianglesOfFaces(mesh, i)
    {
      var face := mesh.faces[i];
      // try {
      if InRange(mesh, face.a) && InRange(mesh, face.b) && InRange(mesh, face.c) {
        var pts := [mesh.vertices[face.a], mesh.vertices[face.b], mesh.vertices[face.c]];
        triangles := triangles + [Triangle(pts[0], pts[1], pts[2])];
        if face.isQuad && InRange(mesh, face.d) {
          pts := [mesh.vertices[face.a], mesh.vertices[face.c], mesh.vertices[face.d]];
          triangles := triangles + [Triangle(pts[0], pts[1], pts[2])];
        }
      }
      // } catch (Exception) { }
    }
    if AllFacesValid(mesh) {
      TrianglesOfFacesLength(mesh, |mesh.faces|);
    }
  }

  /** With all indices valid, each face contributes one triangle, plus one more
      for a quad. */
  lemma {:induction false} TrianglesOfFacesLength(m: Mesh, k: nat)
    requires k <= |m.faces| && AllFacesValid(m)
    ensures QuadCount(m, k) <= k
    ensures |TrianglesOfFaces(m, k)| == k + QuadCount(m, k)
  {
    if k > 0 {
      TrianglesOfFacesLength(m, k - 1);
      assert ValidFace(m, m.faces[k - 1]);
    }
  }

  /** The triangles of an earlier face prefix are a prefix of the whole list:
      expansion never reorders or rewrites what it has emitted. */
  lemma {:induction false} TrianglesPrefix(m: Mesh, k: nat, n: nat)
    requires k <= n <= |m.faces|
    ensures |TrianglesOfFaces(m, k)| <= |TrianglesOfFaces(m, n)|
    ensures TrianglesOfFaces(m, k) == TrianglesOfFaces(m, n)[..|TrianglesOfFaces(m, k)|]
  {
    if k < n {
      TrianglesPrefix(m, k, n - 1);
    }
  }

  /** Face order is preserved: with all indices valid, face i's triangles sit
      at offset |triangles of faces before i| of GetTriangles' list, (A, B, C)
      first and, for a quad, (A, C, D) right after it, the two sharing A and C. */
  lemma FaceOrder(m: Mesh, i: nat)
    requires AllFacesValid(m) && i < |m.faces|
    ensures var off := |TrianglesOfFaces(m, i)|;
      && off < |TrianglesOf(m)|
      && TrianglesOf(m)[off] == FirstTriangle(m, m.faces[i])
      && (m.faces[i].isQuad ==>
            && off + 1 < |TrianglesOf(m)|
            && TrianglesOf(m)[off + 1] == SecondTriangle(m, m.faces[i])
            && TrianglesOf(m)[off].v0 == TrianglesOf(m)[off + 1].v0
            && TrianglesOf(m)[off].v2 == TrianglesOf(m)[off + 1].v1)
      && (!m.faces[i].isQuad ==> |TrianglesOfFaces(m, i + 1)| == off + 1)
  {
    var f := m.faces[i];
    assert ValidFace(m, f);
    var pre, upto := TrianglesOfFaces(m, i), TrianglesOfFaces(m, i + 1);
    assert upto == pre + FaceTriangles(m, f);
    TrianglesPrefix(m, i + 1, |m.faces|);
    assert upto[|pre|] == FirstTriangle(m, f);
    if f.isQuad {
      assert upto[|pre| + 1] == SecondTriangle(m, f);
    }
  }

  /** A face whose A, B or C index is out of range contributes nothing; the
      expansion goes on with the next face. */
  lemma MalformedFaceSkipped(m: Mesh, k: nat)
    requires k < |m.faces|
    requires !(InRange(m, m.faces[k].a) && InRange(m, m.faces[k].b) && InRange(m, m.faces[k].c))
    ensures TrianglesOfFaces(m, k + 1) == TrianglesOfFaces(m, k)
  {
    assert FaceTriangles(m, m.faces[k]) == [];
  }

  /** A quad whose A, B, C are valid but whose D is not keeps (A, B, C): that
      triangle was added before the lookup of D threw. */
  lemma QuadWithBadFourthIndex(m: Mesh, k: nat)
    requires k < |m.faces|
    requires InRange(m, m.faces[k].a) && InRange(m, m.faces[k].b) && InRange(m, m.faces[k].c)
    requires m.faces[k].isQuad && !InRange(m, m.faces[k].d)
    ensures TrianglesOfFaces(m, k + 1) == TrianglesOfFaces(m, k) + [FirstTriangle(m, m.faces[k])]
  {
  }

  /** A mesh with a single triangle face yields exactly one triangle; with a
      single quad face, exactly two that share vertices A and C. */
  lemma SingleFace(m: Mesh)
    requires |m.faces| == 1 && AllFacesValid(m)
    ensures var f := m.faces[0];
      && (!f.isQuad ==> TrianglesOf(m) == [FirstTriangle(m, f)])
      && (f.isQuad ==> TrianglesOf(m) == [FirstTriangle(m, f), SecondTriangle(m, f)])
  {
    assert ValidFace(m, m.faces[0]);
    assert TrianglesOf(m) == TrianglesOfFaces(m, 0) + FaceTriangles(m, m.faces[0]);
  }

  // ---------------------------------------------------------------------------
  // IsHit
  // ---------------------------------------------------------------------------

  /** Does some triangle of a valid face pass the test: (A, B, C), or for a
      quad also (A, C, D)? */
  predicate FaceHit(m: Mesh, f: Face, ray: Ray, test: TriangleTest)
    requires ValidFace(m, f)
  {
    test(ray, FirstTriangle(m, f)) || (f.isQuad && test(ray, SecondTriangle(m, f)))
  }

  /** IsHit's loop read sequentially, from face i on. Some(b) is the returned
      flag; None means a vertex lookup threw (IsHit has no catch). A face that
      hits stops the loop, but only after its own body has finished, so a quad
      whose first triangle hits still looks up D. */
  function HitFrom(m: Mesh, ray: Ray, test: TriangleTest, i: nat): Option<bool>
    requires i <= |m.faces|
    decreases |m.faces| - i
  {
    if i == |m.faces| then Some(false)
    else
      var f := m.faces[i];
      if !(InRange(m, f.a) && InRange(m, f.b) && InRange(m, f.c)) then None
      else if f.isQuad && !InRange(m, f.d) then None
      else if FaceHit(m, f, ray, test) then Some(true)
      else HitFrom(m, ray, test, i + 1)
  }

  /** Reference answer: some triangle of GetTriangles' list passes the test. */
  predicate MeshHit(m: Mesh, ray: Ray, test: TriangleTest)
  {
    exists t :: t in TrianglesOf(m) && test(ray, t)
  }

  /** Existential over faces i.. of a valid mesh. */
  predicate SomeFaceHitFrom(m: Mesh, ray: Ray, test: TriangleTest, i: nat)
    requires AllFacesValid(m)
  {
    exists j :: i <= j < |m.faces| && FaceHit(m, m.faces[j], ray, test)
  }

  /** On a mesh with valid indices the loop never throws and answers whether
      some face from i on is hit. */
  lemma {:induction false} HitFromValid(m: Mesh, ray: Ray, test: TriangleTest, i: nat)
    requires AllFacesValid(m) && i <= |m.faces|
    ensures HitFrom(m, ray, test, i) == Some(SomeFaceHitFrom(m, ray, test, i))
    decreases |m.faces| - i
  {
    if i < |m.faces| {
      assert ValidFace(m, m.faces[i]);
      HitFromValid(m, ray, test, i + 1);
      if FaceHit(m, m.faces[i], ray, test) {
        assert SomeFaceHitFrom(m, ray, test, i);
      } else {
        assert SomeFaceHitFrom(m, ray, test, i) == SomeFaceHitFrom(m, ray, test, i + 1) by {
          if SomeFaceHitFrom(m, ray, test, i) {
            var j :| i <= j < |m.faces| && FaceHit(m, m.faces[j], ray, test);
            assert j != i;
          }
        }
      }
    }
  }

  /** One valid face hits exactly when one of the triangles it expands to
      passes the test. */
  lemma FaceTrianglesHit(m: Mesh, f: Face, ray: Ray, test: TriangleTest)
    requires ValidFace(m, f)
    ensures (exists t :: t in FaceTriangles(m, f) && test(ray, t)) <==> FaceHit(m, f, ray, test)
  {
    if FaceHit(m, f, ray, test) {
      if test(ray, FirstTriangle(m, f)) {
        assert FaceTriangles(m, f)[0] == FirstTriangle(m, f);
      } else {
        assert FaceTriangles(m, f)[1] == SecondTriangle(m, f);
      }
    }
  }

  /** A triangle of the first k faces passes the test exactly when one of
      those faces is hit: IsHit and GetTriangles split a quad the same way. */
  lemma {:induction false} FacesHitIffTrianglesHit(m: Mesh, ray: Ray, test: TriangleTest, k: nat)
    requires AllFacesValid(m) && k <= |m.faces|
    ensures (exists t :: t in TrianglesOfFaces(m, k) && test(ray, t))
        <==> (exists j :: 0 <= j < k && FaceHit(m, m.faces[j], ray, test))
  {
    if k > 0 {
      FacesHitIffTrianglesHit(m, ray, test, k - 1);
      var f := m.faces[k - 1];
      assert ValidFace(m, f);
      FaceTrianglesHit(m, f, ray, test);
      var pre, last := TrianglesOfFaces(m, k - 1), FaceTriangles(m, f);
      assert TrianglesOfFaces(m, k) == pre + last;
      if exists j :: 0 <= j < k && FaceHit(m, m.faces[j], ray, test) {
        var j :| 0 <= j < k && FaceHit(m, m.faces[j], ray, test);
        if j < k - 1 {
          var t :| t in pre && test(ray, t);
          assert t in pre + last;
        } else {
          var t :| t in last && test(ray, t);
          assert t in pre + last;
        }
      }
    }
  }

  /** On valid meshes IsHit agrees with the brute-force test of every triangle
      GetTriangles produces. */
  lemma HitFromMatchesTriangles(m: Mesh, ray: Ray, test: TriangleTest)
    requires AllFacesValid(m)
    ensures HitFrom(m, ray, test, 0) == Some(MeshHit(m, ray, test))
  {
    HitFromValid(m, ray, test, 0);
    FacesHitIffTrianglesHit(m, ray, test, |m.faces|);
  }

  /** The isHit flag when every face body runs (no loop.Stop): each hitting
      face sets it to true and nothing resets it. */
  function FlagAfter(m: Mesh, ray: Ray, test: TriangleTest, i: nat, flag: bool): bool
    requires AllFacesValid(m) && i <= |m.faces|
    decreases |m.faces| - i
  {
    if i == |m.faces| then flag
    else FlagAfter(m, ray, test, i + 1, flag || FaceHit(m, m.faces[i], ray, test))
  }

  /** The flag only moves from false to true, so once set the remaining faces
      cannot change the answer, and stopping at the first hit gives the same
      result as running every face. */
  lemma {:induction false} StopIsHarmless(m: Mesh, ray: Ray, test: TriangleTest, i: nat, flag: bool)
    requires AllFacesValid(m) && i <= |m.faces|
    ensures flag ==> FlagAfter(m, ray, test, i, flag)
    ensures FlagAfter(m, ray, test, i, flag) == (flag || SomeFaceHitFrom(m, ray, test, i))
    decreases |m.faces| - i
  {
    if i < |m.faces| {
      assert ValidFace(m, m.faces[i]);
      StopIsHarmless(m, ray, test, i + 1, flag || FaceHit(m, m.faces[i], ray, test));
      if !FaceHit(m, m.faces[i], ray, test) && SomeFaceHitFrom(m, ray, test, i) {
        var j :| i <= j < |m.faces| && FaceHit(m, m.faces[j], ray, test);
        assert j != i;
      }
    }
  }

  /** Whether the ray hits some triangle of the mesh. The parallel face loop
      is run in face order; a face that hits stops it. None: a vertex index
      was out of range and the lookup threw. */
  method IsHit(mesh: Mesh, ray: Ray, test: TriangleTest) returns (r: Option<bool>)
    ensures r == HitFrom(mesh, ray, test, 0)
    ensures AllFacesValid(mesh) ==> r == Some(MeshHit(mesh, ray, test))
    ensures |mesh.faces| == 0 ==> r == Some(false)
    ensures r == Some(true) ==> exists i :: 0 <= i < |mesh.faces| && ValidFace(mesh, mesh.faces[i])
                                            && FaceHit(mesh, mesh.faces[i], ray, test)
  {
    var isHit := false;
    var i := 0;
    while i < |mesh.faces| && !isHit
      invariant 0 <= i <= |mesh.faces|
      invariant !isHit ==> HitFrom(mesh, ray, test, 0) == HitFrom(mesh, ray, test, i)
      invariant isHit ==> 0 < i && ValidFace(mesh, mesh.faces[i - 1])
                          && FaceHit(mesh, mesh.faces[i - 1], ray, test)
                          && HitFrom(mesh, ray, test, 0) == HitFrom(mesh, ray, test, i - 1)
    {
      var face := mesh.faces[i];
      if !(InRange(mesh, face.a) && InRange(mesh, face.b) && InRange(mesh, face.c)) {
        return None;
      }
      var pts := [mesh.vertices[face.a], mesh.vertices[face.b], mesh.vertices[face.c]];
      if test(ray, Triangle(pts[0], pts[1], pts[2])) {
        isHit := true;   // loop.Stop(): no further face is started
      }
      if face.isQuad {
        if !InRange(mesh, face.d) {
          return None;
        }
        if test(ray, Triangle(pts[0], pts[2], mesh.vertices[face.d])) {
          isHit := true;
        }
      }
      i := i + 1;
    }
    r := Some(isHit);
    if AllFacesValid(mesh) {
      HitFromMatchesTriangles(mesh, ray, test);
    }
  }
}
