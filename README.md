# Jobified mesh deformation, modelled in Dafny

This project models the core of a Unity component that deforms a flat grid
mesh where objects touch it, leaving footprints in snow:

- **Grid generation** (`DeformableMesh.GeneratePlane`). Nested loops with
  running counters fill a row-major vertex array of `(w + 1) * (h + 1)`
  points `(x, 0, y)`, a UV array computed with integer division, a copy of
  the vertices (`modifiedVertices`), and six triangle indices per cell.
- **The indentation kernel** (`IndentationJob.Execute`). For one vertex, it
  loops over the contact points. Whenever the squared distance from the
  vertex's current value to a contact is below `radius`, it overwrites the
  vertex with its initial position moved `force` down.
- **Batch bookkeeping** (`OnCollisionEnter`, `IndentSnow`, `CompleteJob`,
  `Update`, `HandledResult`):
  - a collision with contacts schedules a job over fresh copies of both
    vertex buffers;
  - completing a job removes it from the schedule and copies its output
    over `modifiedVertices` and `vertices`;
  - `Update` walks the schedule with an index while completions remove
    from it.

Files and modules:

| file | module | contents |
|---|---|---|
| `vectors.dfy` | `Vectors` | `Vector3` and `Vector2` over `real`, and the cross product with the flat-cell normal lemma |
| `grid.dfy` | `Grid` | `GeneratePlane`'s loops as methods over arrays, with two specifications of each buffer and the layout lemmas |
| `indentation_job.dfy` | `Indentation` | the kernel's specification function `IndentVertex`, its lemmas, and class `IndentationJob` with `Execute` |
| `batches.dfy` | `Batches` | the bookkeeping as functions on values: `Issue`, `Complete` and `Tick` (one `Update`), with the lemmas about what a frame does |
| `deformable_mesh.dfy` | `Deformable` | class `DeformableMesh`; every method is proved to move `Abstract()` exactly as the `Batches` functions say |

Each buffer of the grid has two descriptions:

- a closed form that gives entry `k` from `k` alone (`Lattice`,
  `UvLattice`, `Triangles`, written with `/` and `%`);
- the order in which the nested loops append entries (`GridOrder`,
  `GridQuads`).

The `Build` methods are proved to produce the loop order. The `Agree`
lemmas prove the two descriptions equal, and the layout lemmas are stated
on the closed forms. Row offsets are written `Rows(s, y)`, which is `s * y`
by repeated addition (`RowsProduct`). `Index(w, x, y)` is the row-major
position `y * (w + 1) + x` (`IndexIsRowMajor`).

In the class:

- a scheduled job is a `HandledResult(id, job)`;
- ghost `Pending` lists the batch each job holds;
- `Valid()` keeps each job's buffers holding its batch, the buffer each job
  writes apart from `vertices`, `modifiedVertices` and every other job's
  buffers, and the ids unique. The triangle and UV arrays lie outside the
  footprint the methods may modify, so they keep what `GeneratePlane` wrote.

Behaviour of the code worth knowing:

- **Contact order.** The kernel's result does not depend on the order of
  the contacts, although each test reads the value earlier contacts wrote.
  Every hit writes the same value, the initial position pressed down
  (`Indentation.IndentVertexOrderIndependent`).
- **UV.** UV coordinates use integer division, so a UV component is 1 only
  on the last column or row (`Grid.UvLayout`).
- **`Update`.** `Update` does not complete every pending batch. Because the
  index advances while `CompleteJob` removes from the same list, one frame
  completes the batches at positions 0, 2, 4, … and leaves the others for
  later frames (`Batches.UpdateEffect`).
- **Earlier batches of a frame.** Two batches issued in the same frame both
  snapshot the same buffers, so the second overwrites the first one's
  indentation (`Batches.LaterBatchDiscardsEarlier`).
- **Depth across frames.** Depth does not accumulate within one batch. But
  `CompleteJob` also makes `vertices` the new output
  (Assets/DeformableMesh.cs:199), so the next batch presses from there and
  depth accumulates across frames (`Batches.DepthAccumulatesAcrossTicks`).
- **Distance test.** The kernel compares the squared distance with `radius`
  itself. The model keeps that comparison (`Indentation.HitsIsSquaredDistance`).

## Model

| member | source | states |
|---|---|---|
| `Grid.BuildLattice` | Assets/DeformableMesh.cs:65-78 | the nested loops with running counter `z` fill the vertex and UV arrays in loop order, row after row: `(x, 0, y)` and `(x / w, y / h)` in integer division |
| `Grid.FillRow` | Assets/DeformableMesh.cs:72-77 | the inner loop appends exactly the `w + 1` points of row `y` and their UVs after what the earlier rows wrote |
| `Grid.WritePoint` | Assets/DeformableMesh.cs:74-76 | one loop body writes the point and its UV to slot `z` and leaves the earlier slots alone |
| `Grid.NewVertexBuffers` | Assets/DeformableMesh.cs:65-67 | the vertex and UV arrays are fresh and have `(w + 1) * (h + 1)` entries |
| `Grid.LatticeAgree` | Assets/DeformableMesh.cs:70-78 | the loop order of the vertices is the row-major lattice, whose entry `k` is `(k % (w + 1), 0, k / (w + 1))` |
| `Grid.UvAgree` | Assets/DeformableMesh.cs:70-78 | the loop order of the UVs is the closed form, whose entry `k` is `((k % (w + 1)) / w, (k / (w + 1)) / h)` |
| `Grid.GridOrderEntry` | Assets/DeformableMesh.cs:70-78 | in loop order, the entry for column `x` of row `y` sits at `Rows(cols, y) + x` |
| `Grid.GridOrderLength` | Assets/DeformableMesh.cs:70-72 | the loops write `Rows(cols, rows)` entries in all |
| `Grid.LatticeLayout` | Assets/DeformableMesh.cs:74 | vertex `(x, y)` of the generated lattice, at `Index(w, x, y)`, is the point `(x, 0, y)` |
| `Grid.UvLayout` | Assets/DeformableMesh.cs:75-76 | a UV component is 1 on the last column (row) and 0 everywhere else, because the source divides integers |
| `Grid.VertexRowMajor` | Assets/DeformableMesh.cs:65-78 | both arrays have `(w + 1) * (h + 1)` entries; entry `y * (w + 1) + x` is `(x, 0, y)` with UV `(x / w, y / h)` |
| `Grid.IndexIsRowMajor` | Assets/DeformableMesh.cs:70-72 | the running counter's position of `(x, y)` is `y * (w + 1) + x`, and a cell's number is `y * w + x` |
| `Grid.IndexBelow` | Assets/DeformableMesh.cs:65-66 | every lattice point's position lies inside the vertex array |
| `Grid.CopyBuffer` | Assets/DeformableMesh.cs:86-90 | the copy loop makes `modifiedVertices` a fresh, element-wise equal copy of `vertices` |
| `Grid.NewIndexBuffer` | Assets/DeformableMesh.cs:96-97 | the index array is fresh and has `6 * w * h` entries |
| `Grid.BuildTriangles` | Assets/DeformableMesh.cs:96-108 | the nested loops with counters `t` and `v` emit the six indices of each cell in loop order, row after row; `v` skips one vertex at the end of each row |
| `Grid.EmitRow` | Assets/DeformableMesh.cs:101-107 | the inner loop appends the quads of the `w` cells of row `y` after what was written before; `t` advances by `6 * w` and `v` by `w` |
| `Grid.Quad` | Assets/DeformableMesh.cs:103-106 | the six indices of the cell whose first corner is `v`: triangles `(v, v + w + 1, v + 1)` and `(v + 1, v + w + 1, v + w + 2)`; its properties are stated by `TriangleLayout`, `QuadBelow` and `QuadFacesUp` |
| `Grid.WriteQuad` | Assets/DeformableMesh.cs:103-106 | the six assignments of one cell write `[v, v + w + 1, v + 1, v + 1, v + w + 1, v + w + 2]` at `t` and leave the earlier slots alone |
| `Grid.RowQuadsEntry` | Assets/DeformableMesh.cs:101-106 | in one row's loop order, corner `k` of cell `x` sits at `6 * x + k` |
| `Grid.GridQuadsEntry` | Assets/DeformableMesh.cs:99-108 | in loop order, corner `k` of cell `(x, y)` sits at `6 * Cell(w, x, y) + k` |
| `Grid.GridQuadsLength` | Assets/DeformableMesh.cs:96-99 | the loops emit `6 * Rows(w, h)` indices, filling the array |
| `Grid.TrianglesAgree` | Assets/DeformableMesh.cs:96-108 | the loop order of the indices is the closed form, whose entry `j` is corner `j % 6` of cell `j / 6` |
| `Grid.EntryCell` | Assets/DeformableMesh.cs:96-108 | every index entry `j` is corner `k` of a cell `(x, y)` of the grid, at `j == 6 * Cell(w, x, y) + k` |
| `Grid.TriangleLayout` | Assets/DeformableMesh.cs:103-106 | the six entries of cell `(x, y)` start at `6 * Cell(w, x, y)` and are the two triangles `(v, v + w + 1, v + 1)` and `(v + 1, v + w + 1, v + w + 2)` |
| `Grid.TriangleRowMajor` | Assets/DeformableMesh.cs:96-108 | the array has `w * h * 6` entries; with `t = 6 * (y * w + x)` and `v = y * (w + 1) + x`, `triangles[t .. t + 6]` is `[v, v + w + 1, v + 1, v + 1, v + w + 1, v + w + 2]` |
| `Grid.QuadBelow` | Assets/DeformableMesh.cs:103-106 | all four corners of a cell are vertices of the lattice |
| `Grid.TriangleBounds` | Assets/DeformableMesh.cs:99-108 | every triangle index lies in `[0, (w + 1) * (h + 1))` |
| `Grid.CellCorners` | Assets/DeformableMesh.cs:70-78 | the corners of cell `(x, y)` are `(x, 0, y)` and its neighbours one step along x, along z, and along both |
| `Grid.CellFacesUp` | Assets/DeformableMesh.cs:103-112 | both triangles of every cell of the generated plane have the normal +Y, so the winding faces up |
| `Grid.QuadFacesUp` | Assets/DeformableMesh.cs:103-106 | the two triangles of any flat unit square in the vertex list face +Y |
| `Vectors.FlatCellNormals` | Assets/DeformableMesh.cs:103-106 | the triangles (a, c, b) and (b, c, d) of a flat unit square both have the cross-product normal +Y |
| `Indentation.Hits` | Assets/IndentationJob.cs:20-23 | the influence test: the squared distance from the vertex's current value to the contact is below `radius`; `HitsIsSquaredDistance` and `Step` state its consequences |
| `Indentation.Step` | Assets/IndentationJob.cs:20-27 | one pass of the contact loop changes the vertex only on a hit, and then only to `Pressed(initial)`; a radius of 0 or less never moves it |
| `Indentation.Pressed` | Assets/IndentationJob.cs:25 | the replacement keeps x and z of the initial vertex and lowers y by exactly `force` |
| `Indentation.IndentVertexAppend` | Assets/IndentationJob.cs:18-28 | one more contact is one more test-and-overwrite on the value the earlier contacts left |
| `Indentation.IndentVertexIffHit` | Assets/IndentationJob.cs:18-28 | after the contact loop, the vertex is the initial vertex pressed down if and only if some contact hit its starting value, and unchanged otherwise |
| `Indentation.IndentVertex` | Assets/IndentationJob.cs:18-29 | the contact loop for one vertex ends either at the vertex's prior value or exactly at `Pressed(initial)`, so depth never accumulates within one call; a radius of 0 or less leaves it unchanged |
| `Indentation.IndentVertexNoContacts` | Assets/IndentationJob.cs:18 | with no contact points, the vertex is unchanged |
| `Indentation.IndentVertexIdempotent` | Assets/IndentationJob.cs:20-26 | running the contact loop a second time on its own result changes nothing |
| `Indentation.IndentVertexOrderIndependent` | Assets/IndentationJob.cs:18-26 | reordering the contacts (same multiset) gives the same vertex |
| `Indentation.HitsIsSquaredDistance` | Assets/IndentationJob.cs:20-23 | a contact at distance `d` along the x axis hits exactly when `d * d < radius`: the radius is never squared |
| `Indentation.JobOutput` | Assets/IndentationJob.cs:16-30 | the job over every index keeps the buffer's length, and each vertex keeps its value or is pressed down from its own initial position; with a radius of 0 or less nothing moves |
| `Indentation.JobOutputIffHit` | Assets/IndentationJob.cs:16-30 | the whole job, index by index: a vertex some contact hits is pressed down from its initial position, the others keep their value; the length is unchanged |
| `Indentation.JobOutputIdempotent` | Assets/IndentationJob.cs:16-30 | running the whole job again over its output changes nothing |
| `Indentation.IndentationJob.constructor` | Assets/DeformableMesh.cs:171-178 | the job is built over the given buffers, force and radius, and is valid exactly when the buffer it writes is neither buffer it reads and both vertex buffers have the same length |
| `Indentation.IndentationJob.Execute` | Assets/IndentationJob.cs:16-30 | `modifiedVertices[i]` becomes `IndentVertex` of its old value over all contacts in order; no other index and neither input buffer changes |
| `Indentation.IndentationJob.Complete` | Assets/DeformableMesh.cs:180-191 | running `Execute` for every index, in ascending order, turns `modifiedVertices` into the job's output |
| `Indentation.IndentationJob.ExecuteInOrder` | Assets/IndentationJob.cs:16-26 | `Execute` in any order, repetitions allowed: each index named ends at its `IndentVertex` value and the others are untouched; naming every index gives the job's output whatever the order |
| `Batches.Output` | Assets/IndentationJob.cs:16-30 | a completed batch's output buffer, index by index, is the initial vertex pressed down where some contact hits and the snapshot value elsewhere |
| `Batches.Remove` | Assets/DeformableMesh.cs:189 | `List.Remove` shortens the list by one exactly when the element is present |
| `Batches.RemoveMultiset` | Assets/DeformableMesh.cs:189 | `List.Remove` takes away one occurrence of the element and nothing else |
| `Batches.RemoveSubset` | Assets/DeformableMesh.cs:189 | `List.Remove` never introduces an element |
| `Batches.RemoveAt` | Assets/DeformableMesh.cs:189 | removing an element whose first occurrence is at `k` deletes exactly position `k` |
| `Batches.IndexOf` | Assets/DeformableMesh.cs:189 | the position `List.Remove` deletes: the first occurrence of the element |
| `Batches.Issue` | Assets/DeformableMesh.cs:161-185 | `IndentSnow` on values: the earlier schedule is kept as a prefix, both vertex buffers stay, and the one batch appended has the new id, the contacts and snapshots of both buffers |
| `Batches.OnCollision` | Assets/DeformableMesh.cs:125-140 | a collision never changes the vertex buffers; it appends one batch over the local contact points when there are contacts and none otherwise, keeping the earlier schedule |
| `Batches.LocalPoints` | Assets/DeformableMesh.cs:128-134 | one local point per contact, in the same order, each taken through the inverse transform |
| `Batches.Complete` | Assets/DeformableMesh.cs:187-199 | completing a batch keeps the state well formed and the buffers' length, shortens the schedule by one when the batch is on it, and leaves `vertices` and `modifiedVertices` equal |
| `Batches.UpdateFrom` | Assets/DeformableMesh.cs:50-53 | the loop from index `i` on keeps the state well formed and the buffers' length, never lengthens the schedule, and leaves both buffers equal once it has completed a batch |
| `Batches.Tick` | Assets/DeformableMesh.cs:46-55 | one `Update` keeps the state well formed, never lengthens the schedule, leaves both vertex buffers equal when anything was pending, and changes nothing when nothing was |
| `Batches.IssuePreserves` | Assets/DeformableMesh.cs:161-185 | issuing appends exactly one batch, leaves both vertex buffers unchanged, and keeps the state well formed and the ids unique |
| `Batches.CompletePreserves` | Assets/DeformableMesh.cs:187-199 | completing the batch at position `k` deletes exactly that position, keeps ids unique, and leaves `vertices == modifiedVertices ==` the batch's output |
| `Batches.UpdateFromStep` | Assets/DeformableMesh.cs:50-53 | one round of `Update`'s loop completes the batch at the index, shows its output, and shifts the rest one place left under the index |
| `Batches.UpdateFromSplit` | Assets/DeformableMesh.cs:50-53 | from the index on, the loop completes the batches at even positions, keeps those at odd positions in order, and ends showing the last completed batch's output |
| `Batches.UpdateEffect` | Assets/DeformableMesh.cs:46-55 | one `Update` leaves exactly the batches at odd positions, in order (half the schedule, rounded down), and the mesh shows the output of the batch at the last even position; with nothing pending, nothing changes |
| `Batches.UpdatePreserves` | Assets/DeformableMesh.cs:46-55 | `Update` keeps batch ids unique |
| `Batches.LaterBatchDiscardsEarlier` | Assets/DeformableMesh.cs:46-199 | two collisions in one frame: the next `Update` shows only the first batch's output, the one after shows only the second's, and the first indentation is lost |
| `Batches.DepthAccumulatesAcrossTicks` | Assets/DeformableMesh.cs:195-199 | a vertex hit in two successive frames ends `2 * force` below where it started |
| `Batches.DistinctFirst` | Assets/DeformableMesh.cs:50-52 | in a schedule without repeats, the job at the index is the one `List.Remove` finds |
| `Batches.UniqueIdsDelete` | Assets/DeformableMesh.cs:189 | deleting one batch keeps the ids unique |
| `Deformable.NewJob` | Assets/DeformableMesh.cs:164-178 | the job gets fresh copies of the contacts and of both vertex buffers, and the given force and radius |
| `Deformable.CompleteInto` | Assets/DeformableMesh.cs:191-199 | the job's output lands in `modifiedVertices` in full, whatever it held, and a fresh copy of it is handed back as the new `vertices` |
| `Deformable.Unscheduled` | Assets/DeformableMesh.cs:189 | removing a scheduled job keeps every invariant on the schedule, and the buffer the removed job writes belongs to no job left |
| `Deformable.DeformableMesh.ScheduledDistinct` | Assets/DeformableMesh.cs:161-185 | no job is scheduled twice, because each has its own fresh buffers |
| `Deformable.DeformableMesh.constructor` | Assets/DeformableMesh.cs:35-123 | Awake and GeneratePlane: both vertex buffers are the row-major lattice, UVs and triangles are their closed forms, nothing is scheduled, and every buffer is freshly allocated |
| `Deformable.DeformableMesh.IndentSnow` | Assets/DeformableMesh.cs:161-185 | exactly one batch is appended at the end of the schedule, snapshotting `vertices` and `modifiedVertices`; neither buffer changes, the triangle and UV arrays stay, and only fresh arrays are written |
| `Deformable.DeformableMesh.OnCollisionEnter` | Assets/DeformableMesh.cs:125-140 | a collision without contacts changes nothing; otherwise one batch is issued over the local contact points, in order; the triangle and UV arrays stay |
| `Deformable.DeformableMesh.Unschedule` | Assets/DeformableMesh.cs:189 | the handle and its batch leave the schedule at the same position, and the handle's buffers still hold that batch; the triangle and UV arrays stay |
| `Deformable.DeformableMesh.CompleteJob` | Assets/DeformableMesh.cs:187-202 | the abstract state moves exactly as `Batches.Complete`: the batch leaves the schedule and both vertex buffers become its output; the triangle and UV arrays and their contents stay |
| `Deformable.DeformableMesh.Update` | Assets/DeformableMesh.cs:46-55 | the abstract state moves exactly as `Batches.Tick`; the triangle and UV arrays and their contents stay |
| `Deformable.PlaneIndentation` | Assets/DeformableMesh.cs:46-199 | a fresh plane hit once and updated once: each lattice vertex hit by a local contact ends `force` lower, every other vertex stays, and nothing is left scheduled |
| `Deformable.FourByFourScenario` | Assets/DeformableMesh.cs:46-199 | on a 4 x 4 plane hit at `(2, 0, 2)` with force 0.5 and radius 1.0, one update leaves that vertex at height -0.5 and the corner `(0, 0, 0)` at 0 |

## Left out

- Unity engine objects are not modelled: the mesh filter, renderer,
  collider and material, and the `mesh.vertices`, `mesh.uv` and
  `mesh.triangles` setters. Assigning `mesh.vertices` and reading it back
  (lines 198-199) is modelled as a fresh copy of the array.
- `RecalculateNormals`, `RecalculateBounds` and `RecalculateTangents` are
  engine calls. `Grid.CellFacesUp` proves instead that every triangle of
  the generated plane has the normal +Y.
- `transform.InverseTransformPoint` is a function parameter of
  `OnCollisionEnter`, with no properties assumed. The collision's contacts
  are a sequence of points.
- Job-system concurrency is not modelled. `Schedule` defers the job, and
  `JobHandle.Complete` runs the kernel for every index, one after the
  other. `ExecuteInOrder` shows that the order of those runs does not
  matter.
- `NativeArray` allocation and `Dispose` are not modelled. Each batch's
  buffers are fresh arrays, and disposal has no visible effect on the
  state that is modelled.
- The identity of a job's freshly allocated buffers, which makes
  `List.Remove` find exactly that job, is stood for by a numeric id.
- `AddForce` and `MarkHitpointDebug` only spawn and destroy a debug sphere
  in a coroutine. Assets/MouseInput.cs is not part of this model.
- Floating-point arithmetic is modelled as exact real arithmetic.
- The casts `(int)horizontalSize` and `(int)verticalSize` are taken as
  given: the sizes are naturals of at least 1. A zero `horizontalSize` divides
  by zero at line 75, and a zero `verticalSize` at line 76. Negative sizes
  are not modelled: depending on their signs the array lengths at lines
  65-66 and 96-97 come out negative, which throws, or small and positive
  (both sizes -2 give one vertex and 24 indices), with no loop running.
- 32-bit `int` overflow is not modelled. The lengths `(w + 1) * (h + 1)`
  and `w * h * 6` (lines 65-66 and 96-97) are unbounded naturals here,
  while C# wraps them around: from `w = h = 18919` on, `w * h * 6` exceeds
  `int.MaxValue`, and the wrapped length is negative (an exception) or
  too short (an index out of range in the loops).
