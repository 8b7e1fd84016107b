/** The DeformableMesh component: it builds the plane when it wakes up,
    turns each collision into a scheduled IndentationJob over snapshots of
    its vertex buffers, and completes scheduled jobs in Update. Every
    state-changing method is proved to move the abstract state exactly as
    the functions of module Batches say. */
module Deformable {
  import opened Vectors
  import opened Grid
  import opened Indentation
  import opened Batches

  /** HandledResult: the scheduled job together with its three buffers
      (the job object owns them) and the id that distinguishes it from
      every other scheduled job, as the identity of its freshly allocated
      buffers does in the engine. */
  datatype HandledResult = HandledResult(id: nat, job: IndentationJob)

  /** The buffers a scheduled job reads or writes. */
  function Buffers(h: HandledResult): set<array<Vec3>> {
    {h.job.contactPoints, h.job.initialVertices, h.job.modifiedVertices}
  }

  /** The buffers of all scheduled jobs. */
  function Footprint(jobs: seq<HandledResult>): set<array<Vec3>> {
    set i, o | 0 <= i < |jobs| && o in Buffers(jobs[i]) :: o
  }

  /** The job holds exactly the batch: same id, same force and radius, and
      buffers with the batch's contents. */
  ghost predicate Holds(h: HandledResult, b: Batch)
    reads Buffers(h)
  {
    && h.id == b.id && h.job.Valid()
    && h.job.contactPoints[..] == b.contacts
    && h.job.initialVertices[..] == b.initial
    && h.job.modifiedVertices[..] == b.modified
    && h.job.force == b.force && h.job.radius == b.radius
  }

  /** Each scheduled job holds the batch at the same position. */
  ghost predicate JobsHold(jobs: seq<HandledResult>, pending: seq<Batch>)
    reads Footprint(jobs)
  {
    && |jobs| == |pending|
    && forall i | 0 <= i < |jobs| :: Holds(jobs[i], pending[i])
  }

  /** The buffer a job writes is no buffer of another job. */
  predicate SeparateWrites(jobs: seq<HandledResult>) {
    forall i, j | 0 <= i < |jobs| && 0 <= j < |jobs| && i != j ::
      jobs[i].job.modifiedVertices !in Buffers(jobs[j])
  }

  /** Every scheduled job has an id below `bound`. */
  predicate IdsBelow(jobs: seq<HandledResult>, bound: nat) {
    forall i | 0 <= i < |jobs| :: jobs[i].id < bound
  }

  lemma FootprintDelete(jobs: seq<HandledResult>, k: nat)
    requires k < |jobs|
    ensures Footprint(jobs[..k] + jobs[k + 1..]) <= Footprint(jobs)
  {
    DeleteShift(jobs, k);
  }

  lemma FootprintAppend(jobs: seq<HandledResult>, h: HandledResult)
    ensures Footprint(jobs + [h]) == Footprint(jobs) + Buffers(h)
  {
    var js := jobs + [h];
    forall o | o in Footprint(jobs)
      ensures o in Footprint(js)
    {
      var i :| 0 <= i < |jobs| && o in Buffers(jobs[i]);
      assert js[i] == jobs[i];
    }
    assert js[|jobs|] == h;
  }

  /** Deleting position k from both lists keeps every invariant on jobs. */
  lemma JobsDelete(jobs: seq<HandledResult>, pending: seq<Batch>, k: nat, bound: nat)
    requires JobsHold(jobs, pending) && SeparateWrites(jobs) && IdsBelow(jobs, bound) && k < |jobs|
    ensures var js, ps := jobs[..k] + jobs[k + 1..], pending[..k] + pending[k + 1..];
      JobsHold(js, ps) && SeparateWrites(js) && IdsBelow(js, bound)
  {
    var js, ps := jobs[..k] + jobs[k + 1..], pending[..k] + pending[k + 1..];
    DeleteShift(jobs, k);
    DeleteShift(pending, k);
    FootprintDelete(jobs, k);
    forall i, j | 0 <= i < |js| && 0 <= j < |js| && i != j
      ensures js[i].job.modifiedVertices !in Buffers(js[j])
    {
      assert js[i] == jobs[if i < k then i else i + 1];
      assert js[j] == jobs[if j < k then j else j + 1];
    }
  }

  /** Appending a job whose buffers are new to the schedule keeps every
      invariant on jobs. */
  lemma JobsAppend(jobs: seq<HandledResult>, pending: seq<Batch>, h: HandledResult, b: Batch, bound: nat)
    requires JobsHold(jobs, pending) && SeparateWrites(jobs) && IdsBelow(jobs, bound)
    requires Holds(h, b) && h.id == bound && Buffers(h) !! Footprint(jobs)
    ensures JobsHold(jobs + [h], pending + [b]) && SeparateWrites(jobs + [h]) && IdsBelow(jobs + [h], bound + 1)
    ensures Footprint(jobs + [h]) == Footprint(jobs) + Buffers(h)
  {
    var js := jobs + [h];
    FootprintAppend(jobs, h);
    forall i | 0 <= i < |jobs|
      ensures Buffers(jobs[i]) <= Footprint(jobs)
    {
    }
  }

  /** The middle of IndentSnow: copy the contact points and both vertex
      buffers into fresh buffers (the NativeArray copies) and build the
      job over them. */
  method NewJob(worldPositions: array<Vec3>, vertices: array<Vec3>, modifiedVertices: array<Vec3>, force: real, radius: real)
    returns (job: IndentationJob)
    requires vertices.Length == modifiedVertices.Length
    ensures fresh(job) && fresh(job.contactPoints) && fresh(job.initialVertices) && fresh(job.modifiedVertices)
    ensures job.Valid() && job.force == force && job.radius == radius
    ensures job.contactPoints[..] == worldPositions[..]
    ensures job.initialVertices[..] == vertices[..]
    ensures job.modifiedVertices[..] == modifiedVertices[..]
  {
    var contactpoints := CopyBuffer(worldPositions);
    var initialVerts := CopyBuffer(vertices);
    var modifiedVerts := CopyBuffer(modifiedVertices);
    job := new IndentationJob(contactpoints, initialVerts, modifiedVerts, force, radius);
  }

  /** The tail of CompleteJob: wait for the job (JobHandle.Complete),
      copy its output into `target` (NativeArray.CopyTo) and hand back a
      fresh copy of the result, as assigning mesh.vertices and reading it
      back does. */
  method CompleteInto(job: IndentationJob, target: array<Vec3>) returns (copy: array<Vec3>)
    requires job.Valid() && target.Length == job.modifiedVertices.Length
    requires target != job.modifiedVertices && target != job.initialVertices && target != job.contactPoints
    modifies job.modifiedVertices, target
    ensures target[..] == JobOutput(job.initialVertices[..], old(job.modifiedVertices[..]), job.contactPoints[..], job.force, job.radius)
    ensures fresh(copy) && copy[..] == target[..]
  {
    ghost var out := JobOutput(job.initialVertices[..], job.modifiedVertices[..], job.contactPoints[..], job.force, job.radius);
    job.Complete();
    assert job.modifiedVertices[..] == out;
    forall i | 0 <= i < target.Length {
      target[i] := job.modifiedVertices[i];
    }
    assert target[..] == job.modifiedVertices[..];
    copy := CopyBuffer(target);
    assert target[..] == out;
    assert job.initialVertices[..] == old(job.initialVertices[..]);
    assert job.contactPoints[..] == old(job.contactPoints[..]);
  }

  /** What removing the job at position k (its first occurrence) does to
      the invariants on the schedule: they all hold of what is left, and
      the removed job's buffers are no buffers of the jobs left. */
  lemma {:induction false} Unscheduled(jobs: seq<HandledResult>, pending: seq<Batch>, k: nat, bound: nat, mv: object, s: MeshState)
    requires JobsHold(jobs, pending) && SeparateWrites(jobs) && IdsBelow(jobs, bound)
    requires UniqueIds(pending) && WellFormed(s) && s.scheduledJobs == pending
    requires k < |jobs| && jobs[k] !in jobs[..k] && mv !in Footprint(jobs)
    ensures var js, ps := Remove(jobs, jobs[k]), Remove(pending, pending[k]);
      && JobsHold(js, ps) && SeparateWrites(js) && IdsBelow(js, bound)
      && UniqueIds(ps) && WellFormed(s.(scheduledJobs := ps))
      && Footprint(js) <= Footprint(jobs) && mv !in Footprint(js)
      && jobs[k].job.modifiedVertices !in Footprint(js)
      && Holds(jobs[k], pending[k]) && Buffers(jobs[k]) <= Footprint(jobs)
  {
    RemoveAt(jobs, k);
    CompletePreserves(s, k);
    JobsDelete(jobs, pending, k, bound);
    FootprintDelete(jobs, k);
    DeleteShift(jobs, k);
  }

  class DeformableMesh {
    const horizontalSize: nat
    const verticalSize: nat
    const force: real
    const radius: real

    var vertices: array<Vec3>
    var modifiedVertices: array<Vec3>
    var triangles: array<int>
    var uv: array<Vec2>
    var scheduledJobs: seq<HandledResult>
    /** The id the next scheduled job receives. */
    var nextId: nat

    /** The batches the scheduled jobs hold, in schedule order. */
    ghost var Pending: seq<Batch>
    ghost var Repr: set<object>

    ghost function Abstract(): MeshState
      reads this, vertices, modifiedVertices
    {
      MeshState(vertices[..], modifiedVertices[..], Pending)
    }

    /** Every scheduled job holds its batch; the buffer a job writes is
        neither vertices, nor modifiedVertices, nor a buffer of another job;
        ids are unique and below nextId. The triangle and UV arrays lie
        outside Repr: nothing after GeneratePlane writes them. */
    ghost predicate Valid()
      reads this, Repr
    {
      && this in Repr && vertices in Repr && modifiedVertices in Repr
      && Footprint(scheduledJobs) <= Repr
      && JobsHold(scheduledJobs, Pending)
      && triangles !in Repr && uv !in Repr
      && vertices !in Footprint(scheduledJobs) && modifiedVertices !in Footprint(scheduledJobs)
      && SeparateWrites(scheduledJobs)
      && IdsBelow(scheduledJobs, nextId)
      && UniqueIds(Pending)
      && WellFormed(Abstract())
    }

    /** No job is scheduled twice. */
    lemma ScheduledDistinct()
      requires Valid()
      ensures Distinct(scheduledJobs)
    {
      forall i, j | 0 <= i < j < |scheduledJobs|
        ensures scheduledJobs[i] != scheduledJobs[j]
      {
        assert scheduledJobs[i].job.modifiedVertices !in Buffers(scheduledJobs[j]);
      }
    }

    /** Awake and GeneratePlane: the plane of horizontalSize x
        verticalSize cells, both vertex buffers equal to its lattice,
        nothing scheduled. */
    constructor (horizontalSize: nat, verticalSize: nat, force: real, radius: real)
      requires 1 <= horizontalSize && 1 <= verticalSize
      ensures Valid() && fresh(Repr) && fresh(triangles) && fresh(uv)
      ensures this.horizontalSize == horizontalSize && this.verticalSize == verticalSize
      ensures this.force == force && this.radius == radius
      ensures Abstract() == MeshState(Lattice(horizontalSize, verticalSize), Lattice(horizontalSize, verticalSize), [])
      ensures uv[..] == UvLattice(horizontalSize, verticalSize)
      ensures triangles[..] == Triangles(horizontalSize, verticalSize)
      ensures scheduledJobs == [] && nextId == 0
    {
      this.horizontalSize := horizontalSize;
      this.verticalSize := verticalSize;
      this.force := force;
      this.radius := radius;
      var vs, uvs := BuildLattice(horizontalSize, verticalSize);
      LatticeAgree(horizontalSize, verticalSize);
      UvAgree(horizontalSize, verticalSize);
      var copy := CopyBuffer(vs);
      var tris := BuildTriangles(horizontalSize, verticalSize);
      TrianglesAgree(horizontalSize, verticalSize);
      vertices := vs;
      uv := uvs;
      modifiedVertices := copy;
      triangles := tris;
      scheduledJobs := [];
      nextId := 0;
      Pending := [];
      new;
      Repr := {this, vertices, modifiedVertices};
    }

    /** IndentSnow: copy the contact points and both vertex buffers into
        fresh buffers, build the job over them and add it to the schedule.
        Only fresh arrays are written. */
    method IndentSnow(force: real, worldPositions: array<Vec3>) returns (newHandledResult: HandledResult)
      requires Valid()
      modifies this
      ensures Valid() && fresh(Repr - old(Repr))
      ensures Abstract() == Issue(old(Abstract()), old(nextId), old(worldPositions[..]), force, radius)
      ensures scheduledJobs == old(scheduledJobs) + [newHandledResult]
      ensures newHandledResult.id == old(nextId) && nextId == old(nextId) + 1
      ensures vertices == old(vertices) && modifiedVertices == old(modifiedVertices)
      ensures triangles == old(triangles) && uv == old(uv)
    {
      ghost var b := Batch(nextId, worldPositions[..], vertices[..], modifiedVertices[..], force, radius);
      ghost var fp, before := Footprint(scheduledJobs), Abstract();
      IssuePreserves(before, nextId, worldPositions[..], force, radius);
      var meshIndentationJob := NewJob(worldPositions, vertices, modifiedVertices, force, radius);
      newHandledResult := HandledResult(nextId, meshIndentationJob);
      assert unchanged(fp) && Abstract() == before;
      assert Buffers(newHandledResult) !! Repr + {triangles, uv};
      JobsAppend(scheduledJobs, Pending, newHandledResult, b, nextId);
      scheduledJobs := scheduledJobs + [newHandledResult];
      Pending := Pending + [b];
      nextId := nextId + 1;
      Repr := Repr + Buffers(newHandledResult);
    }

    /** OnCollisionEnter: a collision with contact points schedules a job
        over those points taken into local space; one without contact
        points changes nothing. */
    method OnCollisionEnter(contacts: seq<Vec3>, inverseTransformPoint: Vec3 -> Vec3)
      requires Valid()
      modifies this
      ensures Valid() && fresh(Repr - old(Repr))
      ensures Abstract() == OnCollision(old(Abstract()), old(nextId), contacts, inverseTransformPoint, force, radius)
      ensures triangles == old(triangles) && uv == old(uv)
    {
      if |contacts| > 0 {
        var contactPoints := new Vec3[|contacts|];
        for i := 0 to |contacts|
          invariant Valid() && Abstract() == old(Abstract()) && Repr == old(Repr) && nextId == old(nextId)
          invariant triangles == old(triangles) && uv == old(uv)
          invariant forall j :: 0 <= j < i ==> contactPoints[j] == inverseTransformPoint(contacts[j])
        {
          var currentContactpoint := contacts[i];
          currentContactpoint := inverseTransformPoint(currentContactpoint);
          contactPoints[i] := currentContactpoint;
        }
        assert contactPoints[..] == LocalPoints(contacts, inverseTransformPoint);
        var newHandledResult := IndentSnow(force, contactPoints);
      }
    }

    /** scheduledJobs.Remove(handle): the handle leaves the schedule and
        the batch it holds leaves the abstract schedule at the same
        position; the handle's buffers keep that batch. */
    method Unschedule(handle: HandledResult) returns (ghost b: Batch)
      requires Valid() && handle in scheduledJobs
      modifies this
      ensures Valid() && Repr == old(Repr) && nextId == old(nextId)
      ensures vertices == old(vertices) && modifiedVertices == old(modifiedVertices)
      ensures b == old(Pending[IndexOf(scheduledJobs, handle)])
      ensures scheduledJobs == Remove(old(scheduledJobs), handle)
      ensures Pending == Remove(old(Pending), b)
      ensures Holds(handle, b) && Buffers(handle) <= Repr && modifiedVertices !in Buffers(handle)
      ensures handle.job.modifiedVertices !in Footprint(scheduledJobs)
      ensures triangles == old(triangles) && uv == old(uv)
    {
      ghost var k := IndexOf(scheduledJobs, handle);
      b := Pending[k];
      Unscheduled(scheduledJobs, Pending, k, nextId, modifiedVertices, Abstract());
      scheduledJobs := Remove(scheduledJobs, handle);
      Pending := Remove(Pending, b);
    }

    /** CompleteJob: take the job off the schedule, run it to completion,
        copy its output into modifiedVertices and make that the mesh's
        vertices. */
    method CompleteJob(handle: HandledResult)
      requires Valid() && handle in scheduledJobs
      modifies Repr
      ensures Valid() && fresh(Repr - old(Repr))
      ensures Abstract() == Complete(old(Abstract()), old(Pending[IndexOf(scheduledJobs, handle)]))
      ensures nextId == old(nextId)
      ensures triangles == old(triangles) && uv == old(uv)
      ensures triangles[..] == old(triangles[..]) && uv[..] == old(uv[..])
    {
      ghost var b := Unschedule(handle);
      ghost var fp := Footprint(scheduledJobs);
      vertices := CompleteInto(handle.job, modifiedVertices);
      Repr := Repr + {vertices};
      assert unchanged(fp);
    }

    /** Update: complete scheduledJobs[i] for i = 0, 1, ... while i is
        below the current count, as Batches.Tick describes. */
    method Update()
      requires Valid()
      modifies Repr
      ensures Valid() && fresh(Repr - old(Repr))
      ensures Abstract() == Tick(old(Abstract()))
      ensures triangles == old(triangles) && uv == old(uv)
      ensures triangles[..] == old(triangles[..]) && uv[..] == old(uv[..])
    {
      if |scheduledJobs| > 0 {
        var i := 0;
        while i < |scheduledJobs|
          invariant Valid() && fresh(Repr - old(Repr))
          invariant UpdateFrom(Abstract(), i) == Tick(old(Abstract()))
          invariant triangles == old(triangles) && uv == old(uv)
          decreases |scheduledJobs| - i
        {
          ScheduledDistinct();
          DistinctFirst(scheduledJobs, i);
          CompleteJob(scheduledJobs[i]);
          i := i + 1;
        }
      }
    }
  }

  /** End to end: a freshly generated plane hit once and updated once.
      Each lattice vertex (x, 0, y) within the influence test of some
      contact, taken into local space, ends `force` lower; every other
      vertex stays, and nothing is left scheduled. */
  lemma PlaneIndentation(w: nat, h: nat, contacts: seq<Vec3>, toLocal: Vec3 -> Vec3, force: real, radius: real, x: nat, y: nat)
    requires 1 <= w && 1 <= h && x <= w && y <= h && |contacts| > 0
    ensures var plane := MeshState(Lattice(w, h), Lattice(w, h), []);
      && WellFormed(OnCollision(plane, 0, contacts, toLocal, force, radius))
      && var s := Tick(OnCollision(plane, 0, contacts, toLocal, force, radius));
      && s.scheduledJobs == []
      && 0 <= Index(w, x, y) < |s.vertices|
      && s.vertices[Index(w, x, y)]
         == if AnyHit(Vec3(x as real, 0.0, y as real), LocalPoints(contacts, toLocal), radius)
            then Vec3(x as real, -force, y as real)
            else Vec3(x as real, 0.0, y as real)
  {
    var plane := MeshState(Lattice(w, h), Lattice(w, h), []);
    var s1 := OnCollision(plane, 0, contacts, toLocal, force, radius);
    IssuePreserves(plane, 0, LocalPoints(contacts, toLocal), force, radius);
    UpdateEffect(s1);
    LatticeLayout(w, h, x, y);
  }

  /** A transform whose local space is world space. */
  function Unmoved(p: Vec3): Vec3 {
    p
  }

  /** A 4 x 4 plane hit once at local point (2, 0, 2) with force 0.5 and
      radius 1.0, then updated once: the vertex under the contact ends at
      height -0.5 and the corner vertex (0, 0, 0) keeps height 0. */
  lemma FourByFourScenario(size: nat, contact: Vec3, force: real, radius: real)
    requires size == 4 && contact == Vec3(2.0, 0.0, 2.0) && force == 0.5 && radius == 1.0
    ensures var plane := MeshState(Lattice(size, size), Lattice(size, size), []);
      && WellFormed(OnCollision(plane, 0, [contact], Unmoved, force, radius))
      && var s := Tick(OnCollision(plane, 0, [contact], Unmoved, force, radius));
      && 12 < |s.vertices|
      && s.vertices[12] == Vec3(2.0, -0.5, 2.0)
      && s.vertices[0] == Vec3(0.0, 0.0, 0.0)
  {
    var local := LocalPoints([contact], Unmoved);
    assert local == [contact];
    assert AnyHit(Vec3(2.0, 0.0, 2.0), local, radius) by {
      assert Hits(Vec3(2.0, 0.0, 2.0), local[0], radius);
    }
    assert !AnyHit(Vec3(0.0, 0.0, 0.0), local, radius) by {
      assert SqrMagnitude(Sub(Vec3(0.0, 0.0, 0.0), contact)) == 8.0;
      assert !Hits(Vec3(0.0, 0.0, 0.0), contact, radius);
      forall j | 0 <= j < |local|
        ensures !Hits(Vec3(0.0, 0.0, 0.0), local[j], radius)
      {
        assert local[j] == contact;
      }
    }
    assert Index(size, 2, 2) == 12 && Index(size, 0, 0) == 0 by {
      NextRow(5, 0);
      NextRow(5, 1);
    }
    PlaneIndentation(size, size, [contact], Unmoved, force, radius, 2, 2);
    PlaneIndentation(size, size, [contact], Unmoved, force, radius, 0, 0);
  }
}
