# INSOL ray/mesh intersection counting — Dafny model

INSOL counts how many rays of a sun-path study hit a set of triangulated meshes.
This project models the discrete, index-level part of that engine:

- `Utills.GetTriangles`: the face-to-triangle expansion. A triangle face gives (A, B, C). A quad also gives (A, C, D). Faces with bad indices are skipped by the `try/catch`.
- `Utills.IsHit`: the per-mesh hit test over the face triangles.
- `CheckWaySync.Run` (`Calculation.SyncRun`): the sequential count of rays that hit some mesh.
- The host side of `CheckWayOpenCL.Run` (`Calculation.OpenCLRun`):
  - the stage-1 ray × mesh matrix, read row-major;
  - the `_rays` / `_faces` work lists (`BuildWorkLists`);
  - the stage-2 batches of 500 triangles (`RunBatches`);
  - the cursor replay that produces the count (`Replay`).
- `OpenCLProgram.RunCheckCircleIntersection` / `RunCheckIntersection`:
  - the output sizes;
  - the metadata buffer;
  - the kernel-argument layout (`BindKernelArgs`);
  - the chunked read-back loop with `MaxRead = 30000`.

The floating-point predicates are parameters of the model:
- the ray/triangle test `IntersectRayTriangle(...)` is not NaN: `TriangleTest`;
- the bounding circle of a mesh: `circleOf`;
- the flag a GPU kernel writes for work item k, given its bound arguments: `Kernel`.

Every property is stated relative to these parameters. An index that the source dereferences out of range and does not catch becomes `None` (an exception escaping the operation).

Modules:
- `Geometry`: the value types.
- `Chunking`: the ceiling-division chunk arithmetic. The 500-triangle batch loop and the 30000-flag read loop share it.
- `Utills`
- `OpenCLProgram`
- `Calculation`

Facts about the code that shape the model:
- **Read chunk size.** The read-back loops use `MaxRead = 30000` (`INSOL/ways/OpenCLProgram.cs:16`). The constant `Slice = 5000` (`INSOL/ways/Calculation.cs:102`) is never used.
- **Work lists are not paired.** `_rays` holds each ray with a circle hit once (`INSOL/ways/Calculation.cs:164`), not once per triangle. Stage 2 therefore runs over the full `#_rays × #batch` product (`INSOL/ways/OpenCLProgram.cs:179`).
- **Replay cursor.** The replay consumes one collector flag per true matrix cell (`INSOL/ways/Calculation.cs:195-197`). That cursor is not aligned with the product layout of the stage-2 output; `ReplayCount` states what the code computes.
- **Meshes with no faces.** A face-less mesh whose circle is hit uses up a collector flag that no batch produced for it. The replay throws exactly when the true cells outnumber the collector's #_rays·#_faces flags (`ReplayCount`). With one ray and that mesh alone, the run throws (`FacelessMeshThrows`).
- **Read-back offset.** Every chunk is read at device offset 0 (see Findings). `RunCheckCircleIntersection` and `RunCheckIntersection` model the loops as written. The GPU pipeline (`RunBatches`, `OpenCLRun`) uses their corrected twins; see Left out.

## Model

In the table, `#s` is the length of s.

| member | source | states |
|---|---|---|
| Utills.GetTriangles | INSOL/ways/Utills.cs:38-66 | returns the per-face expansion in face order: (A,B,C), then (A,C,D) for a quad, nothing for a face whose A/B/C is bad, only (A,B,C) for a quad whose D is bad; with valid indices its length is #triangle faces + 2·#quads |
| Utills.TrianglesOfFacesLength | INSOL/ways/Utills.cs:41-65 | with valid indices the first k faces expand to k + (number of quads among them) triangles |
| Utills.TrianglesPrefix | INSOL/ways/Utills.cs:41-65 | the expansion of a face prefix is a prefix of the expansion of a longer prefix (appending only) |
| Utills.FaceOrder | INSOL/ways/Utills.cs:45-61 | face i's (A,B,C) sits right after the triangles of faces 0..i-1, and a quad's (A,C,D) directly follows it, sharing A and C |
| Utills.MalformedFaceSkipped | INSOL/ways/Utills.cs:43-63 | a face with an out-of-range A, B or C adds nothing and the loop goes on |
| Utills.QuadWithBadFourthIndex | INSOL/ways/Utills.cs:51-63 | a quad with valid A, B, C but a bad D still adds (A,B,C), which was appended before the throw |
| Utills.SingleFace | INSOL/ways/Utills.cs:45-61 | a single valid triangle face yields exactly [(A,B,C)]; a single valid quad yields [(A,B,C), (A,C,D)] |
| Utills.FaceTrianglesHit | INSOL/ways/Utills.cs:82-103 | a valid face hits (its (A,B,C), or its (A,C,D) for a quad) exactly when one of the triangles GetTriangles makes of it passes the test |
| Utills.HitFromValid | INSOL/ways/Utills.cs:80-105 | on a mesh with valid indices the face loop never throws and reports whether some face's triangle passes the test |
| Utills.FacesHitIffTrianglesHit | INSOL/ways/Utills.cs:82-98 | some triangle of the first k faces' expansion passes the test iff one of those faces hits (both directions) |
| Utills.HitFromMatchesTriangles | INSOL/ways/Utills.cs:75-107 | on valid meshes IsHit's answer equals "some triangle of GetTriangles(mesh) passes the test" |
| Utills.StopIsHarmless | INSOL/ways/Utills.cs:77-106 | the flag only goes from false to true, so after it is set the remaining faces cannot change it: stopping early gives the same answer |
| Utills.IsHit | INSOL/ways/Utills.cs:75-107 | returns the sequential face loop's outcome; on valid meshes `Some(MeshHit)`; a mesh with no faces gives false; a true answer needs a valid hitting face |
| Calculation.HitRayCountBounds | INSOL/ways/Calculation.cs:23-35 | the count of hitting rays among the first k is at most k, and 0 when there are no meshes |
| Calculation.FirstMeshHitValid | INSOL/ways/Calculation.cs:26-33 | with valid meshes the inner mesh loop never throws and finds a hit iff some mesh is hit by the ray |
| Calculation.SyncCountValid | INSOL/ways/Calculation.cs:23-35 | with valid meshes the sequential counter after k rays equals the number of those rays that hit some mesh |
| Calculation.SyncCountBound | INSOL/ways/Calculation.cs:23-35 | the counter never exceeds the rays handled; once an exception escapes, the whole run faults |
| Calculation.SyncRun | INSOL/ways/Calculation.cs:21-36 | CheckWaySync.Run counts each ray at most once (the `break`): with valid meshes the result is the number of rays hitting some mesh, always ≤ #rays, and 0 for empty rays or meshes |
| Calculation.MatrixIndexInRange | INSOL/ways/Calculation.cs:142 | every index r*y + c with r < x, c < y lies in [0, x*y) |
| Calculation.MatrixIndexInjective | INSOL/ways/Calculation.cs:194 | distinct (r, c) pairs give distinct indices r*y + c (both directions) |
| Calculation.AppendMeshTriangles | INSOL/ways/Calculation.cs:146-161 | the un-caught face loop appends all of a valid mesh's triangles in GetTriangles' order, and throws on any bad index |
| Calculation.ScanRow | INSOL/ways/Calculation.cs:138-163 | `add` is true iff row r has a true cell; the row appends the triangles of every mesh whose cell is true, in column order, and throws iff one of them has a bad index |
| Calculation.BuildWorkLists | INSOL/ways/Calculation.cs:133-165 | succeeds iff every mesh with a true cell has valid indices; `_rays` is then WorkRays and `_faces` is WorkFaces (row-major concatenation of expansions) |
| Calculation.WorkRaysLength | INSOL/ways/Calculation.cs:136-165 | after k rows `_rays` holds one entry per row with a true cell, at most k |
| Calculation.WorkRaysPrefix | INSOL/ways/Calculation.cs:164 | `_rays` is only appended to: its value after r rows is a prefix of its value after k ≥ r rows |
| Calculation.WorkRaysOrder | INSOL/ways/Calculation.cs:136-165 | `_rays` is the in-order subsequence of rays whose row has a true cell: it has exactly one entry per such row, the ray of row r sits at the length `_rays` had before row r, and every entry is the ray of the row that appended it |
| Calculation.RowFacesLength | INSOL/ways/Calculation.cs:140-163 | what one row adds to `_faces` has length equal to the sum of the triangle counts over its true cells |
| Calculation.WorkFacesLength | INSOL/ways/Calculation.cs:136-165 | #_faces is the sum of the triangle counts of the meshes over all true cells |
| Calculation.CollectedLength | INSOL/ways/Calculation.cs:178-181 | after k batches the collector holds #_rays flags per triangle sent so far |
| Calculation.RunBatches | INSOL/ways/Calculation.cs:174-182 | ceil(#_faces/500) batches, batch i = `_faces[i*500 ..]` of ChunkLength, launched against all `_rays`, appended in order; the collector has #_rays·#_faces flags |
| Calculation.ReplayBound | INSOL/ways/Calculation.cs:190-204 | the returned count is at most the number of true matrix cells, which is at most x*y |
| Calculation.ReplayCountsCellsNotRays | INSOL/ways/Calculation.cs:190-204 | when the first TrueCount(result) flags are true the count is the number of true cells, not of rays: a single ray whose row is all true adds y on its own, because the `break` at line 200 is commented out |
| Calculation.Replay | INSOL/ways/Calculation.cs:187-205 | walks the matrix row-major; n ends at the number of true cells and the result is the number of true flags in collector[0..n); throws when the collector runs out |
| Calculation.OpenCLRun | INSOL/ways/Calculation.cs:117-206 | the GPU strategy's count is the stage-by-stage OpenCLCount; it is ≤ #rays·#meshes and 0 when rays or meshes are empty |
| Calculation.FacelessMeshThrows | INSOL/ways/Calculation.cs:190-197 | a single ray whose circle hits a mesh with no faces makes the run throw: a true cell consumes a flag no batch produced |
| Chunking.ChunkCountIsCeiling | INSOL/ways/Calculation.cs:176 | the loop bound (size+m-1)/m is the ceiling of size/m, and it is 0 exactly when size is 0 |
| Chunking.ChunkShape | INSOL/ways/OpenCLProgram.cs:128-129 | chunk i starts at i*m, has length in (0, m], stays inside the data; all but the last are full and the last ends at size |
| Chunking.LengthSumCovers | INSOL/ways/OpenCLProgram.cs:126-134 | the first k chunk lengths sum to k*m, or to size once all chunks are taken |
| Chunking.ChunkLengthsSum | INSOL/ways/OpenCLProgram.cs:281-289 | all chunk lengths sum to size |
| Chunking.Chunk | INSOL/ways/Calculation.cs:178-180 | the slice at offset i*m has the computed length, between 1 and m |
| Chunking.ChunksArePrefix | INSOL/ways/Calculation.cs:176-182 | the first k chunks concatenated are the prefix of the data of length LengthSum(k) |
| Chunking.ChunksTile | INSOL/ways/Calculation.cs:176-182 | all chunks concatenated give the data back, with no gap and no overlap |
| OpenCLProgram.BindKernelArgs | INSOL/ways/OpenCLProgram.cs:99-115 | binds the first array's buffers at 0.., the second's right after, the metadata next and the output last, and nothing else |
| OpenCLProgram.CircleKernelLayout | INSOL/ways/OpenCLProgram.cs:75-115 | circle kernel arguments: origin X, origin Y, radius at 0..2; ray pos X, pos Y, dir X, dir Y at 3..6; metadata [#circles, #rays] at 7; #rays·#circles output flags at 8 |
| OpenCLProgram.TriangleKernelLayout | INSOL/ways/OpenCLProgram.cs:207-271 | triangle kernel arguments: vertex v coordinate j at 3v+j (0..8); ray pos XYZ, dir XYZ at 9..14; metadata [#triangles, #rays] at 15; #rays·#triangles output flags at 16 |
| OpenCLProgram.MarshalCircleKernel | INSOL/ways/OpenCLProgram.cs:75-115 | the buffers written and bound for stage 1 are exactly the circle argument layout (CircleKernelLayout) |
| OpenCLProgram.MarshalTriangleKernel | INSOL/ways/OpenCLProgram.cs:207-271 | the buffers written and bound for stage 2 are exactly the triangle argument layout (TriangleKernelLayout) |
| OpenCLProgram.ReadOutputAsWritten | INSOL/ways/OpenCLProgram.cs:124-138 | the read loop as written returns #output flags, flag k being output[k mod 30000]; it equals the output when size ≤ 30000 |
| OpenCLProgram.OffsetZeroReadLosesFlags | INSOL/ways/OpenCLProgram.cs:128-131 | whenever output[k] differs from output[k mod 30000], the offset-0 reads return something other than the device output |
| OpenCLProgram.OffsetZeroReadExample | INSOL/ways/OpenCLProgram.cs:281-289 | for 30001 flags with only the last set, the offset-0 reads lose that flag |
| OpenCLProgram.ReadOutput | INSOL/ways/OpenCLProgram.cs:281-289 | the read loop with each read at offset i*30000 returns exactly the device output |
| OpenCLProgram.RunCheckCircleIntersection | INSOL/ways/OpenCLProgram.cs:42-172 | stage 1 as written returns #rays·#circles flags; flag k is the kernel's flag k mod 30000 over the circle argument layout (offset-0 reads), which is the kernel's output when #rays·#circles ≤ 30000 |
| OpenCLProgram.RunCheckIntersection | INSOL/ways/OpenCLProgram.cs:174-293 | stage 2 as written returns #rays·#triangles flags, the full cross product; flag k is the kernel's flag k mod 30000 over the triangle argument layout, which is the kernel's output when #rays·#triangles ≤ 30000 |
| OpenCLProgram.RunCheckCircleIntersectionCorrected | INSOL/ways/OpenCLProgram.cs:42-172 | stage 1 with reads at offset i*30000 returns exactly the kernel's #rays·#circles flags over the circle argument layout |
| OpenCLProgram.RunCheckIntersectionCorrected | INSOL/ways/OpenCLProgram.cs:174-293 | stage 2 with reads at offset i*30000 returns exactly the kernel's #rays·#triangles flags over the triangle argument layout |

## Left out

- The floating-point geometry is not modelled. This covers the Möller–Trumbore `IntersectRayTriangle` routine, `Intersects`, and the `BoundingCircle` construction (atan2, sin, vector lengths). These are the parameters `TriangleTest`, `Kernel` and `circleOf`.
- The OpenCL kernel source is not part of this model. Each kernel is a function from its bound arguments and a work-item index to the flag it writes.
- `CheckWayAsync` is left out. Its tasks capture shared loop variables, so the pairs it examines depend on scheduling.
- `CheckWayOptimized` is left out. Its unsynchronised `result++` inside `Parallel.For` makes the result depend on interleaving.
- The background threads and busy-wait loops of `CheckWayOpenCL.Run` are modelled as direct sequential calls.
- The OpenCL plumbing is left out: platform, context and queue setup, buffer creation and release, `CheckErr` logging, the pinned-handle no-ops, and the obsolete `Run` method.
- The loop bounds use integer ceiling division. The source computes `(int)Math.Ceiling((float)size / m)`, which differs only for sizes above 2^24.
- The double→float casts during marshalling are left out. Coordinates are reals, and only which component goes to which column is modelled.
- 32-bit overflow of `rays.Count * circles.Count`, of the counters and of the batch offsets is not modelled. Integers are unbounded.
- `INSOL/Program.cs` is not part of this model. This covers file and JSON loading, the fixed ray origin, Stopwatch timing and console output.
- Utills.IsHit: modelled as a sequential face loop that stops after the first hitting face. Under `Parallel.ForEach` a face with a bad index is still run or skipped after a hit depending on scheduling. The model therefore fixes one order for when an exception escapes. On meshes with valid indices, the answer does not depend on the order (`StopIsHarmless`).
- Calculation.RunBatches: launches each batch through `RunCheckIntersectionCorrected`, not the as-written offset-0 reads (see Findings). Once #_rays·#batch exceeds 30000 (more than 60 rays with a full batch of 500), the deployed collector repeats flags k mod 30000, and this model does not capture that.
- Calculation.OpenCLRun: uses the corrected stage methods (`RunCheckCircleIntersectionCorrected`, and `RunBatches` above), not the as-written offset-0 reads. For stage outputs longer than 30000 flags, the deployed code's count can differ from this model.

## Findings

| source | as written | input that shows it | evidently intended | confidence | as-written member | corrected member |
|---|---|---|---|---|---|---|
| INSOL/ways/OpenCLProgram.cs:128-131 (same at 283-286) | each chunk read passes device offset 0, and the computed `__offset` is never used, so flag k of the result is output[k mod 30000] | an output of 30001 flags where only flag 30000 is true: the returned flag 30000 is false | read chunk i at offset i*30000, so that the result equals the device output | not executed | OpenCLProgram.ReadOutputAsWritten | OpenCLProgram.ReadOutput |
