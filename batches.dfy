/** The bookkeeping of DeformableMesh, on values: a collision issues a
    batch that snapshots both vertex buffers, and a frame's Update
    completes scheduled batches, each completion overwriting the mesh with
    that batch's output. The class DeformableMesh is proved to follow
    these functions step by step. */
module Batches {
  import opened Vectors
  import opened Indentation

  /** One scheduled IndentationJob with its buffers: the contact points,
      the snapshot of `vertices` and of `modifiedVertices` taken when it
      was issued, and the force and radius it was given. The id stands for
      the identity of the freshly allocated buffers. */
  datatype Batch = Batch(id: nat, contacts: seq<Vec3>, initial: seq<Vec3>, modified: seq<Vec3>, force: real, radius: real)

  /** What the bookkeeping sees of a DeformableMesh. */
  datatype MeshState = MeshState(vertices: seq<Vec3>, modifiedVertices: seq<Vec3>, scheduledJobs: seq<Batch>)

  /** Both snapshots of the batch have `n` entries. */
  predicate Fits(b: Batch, n: nat) {
    |b.initial| == n && |b.modified| == n
  }

  /** Both vertex buffers have the same length and every scheduled batch
      was taken from buffers of that length. */
  predicate WellFormed(s: MeshState) {
    && |s.vertices| == |s.modifiedVertices|
    && forall i | 0 <= i < |s.scheduledJobs| :: Fits(s.scheduledJobs[i], |s.modifiedVertices|)
  }

  /** No two scheduled batches share an id. */
  predicate UniqueIds(jobs: seq<Batch>) {
    forall i, j :: 0 <= i < j < |jobs| ==> jobs[i].id != jobs[j].id
  }

  /** No two elements are equal. */
  predicate Distinct<T(==)>(xs: seq<T>) {
    forall i, j :: 0 <= i < j < |xs| ==> xs[i] != xs[j]
  }

  /** The buffer a completed batch leaves behind. */
  function Output(b: Batch): (r: seq<Vec3>)
    requires |b.initial| == |b.modified|
    ensures |r| == |b.modified|
    ensures forall k :: 0 <= k < |r| ==>
      r[k] == if AnyHit(b.modified[k], b.contacts, b.radius) then Pressed(b.initial[k], b.force) else b.modified[k]
  {
    JobOutputIffHit(b.initial, b.modified, b.contacts, b.force, b.radius);
    JobOutput(b.initial, b.modified, b.contacts, b.force, b.radius)
  }

  /** List.Remove: drop the first element equal to `x`, if any. */
  function Remove<T(==)>(xs: seq<T>, x: T): (r: seq<T>)
    ensures |r| == if x in xs then |xs| - 1 else |xs|
  {
    if xs == [] then []
    else
      assert xs == [xs[0]] + xs[1..];
      if xs[0] == x then xs[1..]
      else [xs[0]] + Remove(xs[1..], x)
  }

  /** The position of the first element equal to `x`. */
  function IndexOf<T(==)>(xs: seq<T>, x: T): (r: nat)
    requires x in xs
    ensures r < |xs| && xs[r] == x && x !in xs[..r]
  {
    if xs[0] == x then 0
    else
      assert x in xs[1..];
      var k := IndexOf(xs[1..], x);
      assert xs[..k + 1] == [xs[0]] + xs[1..][..k];
      k + 1
  }

  /** IndentSnow: schedule a batch with snapshots of both buffers. */
  function Issue(s: MeshState, id: nat, contacts: seq<Vec3>, force: real, radius: real): (r: MeshState)
    ensures r.vertices == s.vertices && r.modifiedVertices == s.modifiedVertices
    ensures |r.scheduledJobs| == |s.scheduledJobs| + 1 && r.scheduledJobs[..|s.scheduledJobs|] == s.scheduledJobs
    ensures var b := r.scheduledJobs[|s.scheduledJobs|];
      b.id == id && b.contacts == contacts && b.initial == s.vertices && b.modified == s.modifiedVertices
  {
    s.(scheduledJobs := s.scheduledJobs + [Batch(id, contacts, s.vertices, s.modifiedVertices, force, radius)])
  }

  /** The contact points, each taken into the mesh's local space. */
  function LocalPoints(contacts: seq<Vec3>, toLocal: Vec3 -> Vec3): (r: seq<Vec3>)
    ensures |r| == |contacts| && forall i :: 0 <= i < |r| ==> r[i] == toLocal(contacts[i])
  {
    seq(|contacts|, i requires 0 <= i < |contacts| => toLocal(contacts[i]))
  }

  /** OnCollisionEnter: a collision with contact points issues a batch in
      the mesh's local space; one without contact points does nothing. */
  function OnCollision(s: MeshState, id: nat, contacts: seq<Vec3>, toLocal: Vec3 -> Vec3, force: real, radius: real): (r: MeshState)
    ensures r.vertices == s.vertices && r.modifiedVertices == s.modifiedVertices
    ensures |r.scheduledJobs| == |s.scheduledJobs| + (if |contacts| > 0 then 1 else 0)
    ensures r.scheduledJobs[..|s.scheduledJobs|] == s.scheduledJobs
    ensures |contacts| > 0 ==> r.scheduledJobs[|s.scheduledJobs|].contacts == LocalPoints(contacts, toLocal)
  {
    if |contacts| > 0 then Issue(s, id, LocalPoints(contacts, toLocal), force, radius) else s
  }

  /** CompleteJob: take the batch off the schedule and make its output
      both the modified buffer and the mesh's vertices. */
  function Complete(s: MeshState, b: Batch): (r: MeshState)
    requires WellFormed(s) && Fits(b, |s.modifiedVertices|)
    ensures WellFormed(r) && |r.modifiedVertices| == |s.modifiedVertices|
    ensures |r.scheduledJobs| == if b in s.scheduledJobs then |s.scheduledJobs| - 1 else |s.scheduledJobs|
    ensures r.vertices == r.modifiedVertices
  {
    var out := Output(b);
    RemoveKeepsFits(s.scheduledJobs, b, |s.modifiedVertices|);
    MeshState(out, out, Remove(s.scheduledJobs, b))
  }

  /** Update's loop from index `i` on: CompleteJob(scheduledJobs[i]) and
      i++, re-reading the count every round, so each completion shifts
      the remaining batches one place left under the index. */
  function UpdateFrom(s: MeshState, i: nat): (r: MeshState)
    requires WellFormed(s)
    ensures WellFormed(r) && |r.modifiedVertices| == |s.modifiedVertices|
    ensures |r.scheduledJobs| <= |s.scheduledJobs|
    ensures i < |s.scheduledJobs| ==> r.vertices == r.modifiedVertices
    decreases |s.scheduledJobs| - i
  {
    if i < |s.scheduledJobs| then UpdateFrom(Complete(s, s.scheduledJobs[i]), i + 1) else s
  }

  /** One frame's Update: it never lengthens the schedule, and once it has
      completed a batch both vertex buffers show the same output. */
  function Tick(s: MeshState): (r: MeshState)
    requires WellFormed(s)
    ensures WellFormed(r) && |r.modifiedVertices| == |s.modifiedVertices|
    ensures |r.scheduledJobs| <= |s.scheduledJobs|
    ensures s.scheduledJobs != [] ==> r.vertices == r.modifiedVertices
    ensures s.scheduledJobs == [] ==> r == s
  {
    UpdateFrom(s, 0)
  }

  /** The elements at even positions, in order. */
  function Evens<T>(xs: seq<T>): seq<T> {
    seq((|xs| + 1) / 2, j requires 0 <= j < (|xs| + 1) / 2 => xs[2 * j])
  }

  /** The elements at odd positions, in order. */
  function Odds<T>(xs: seq<T>): seq<T> {
    seq(|xs| / 2, j requires 0 <= j < |xs| / 2 => xs[2 * j + 1])
  }

  /** The last even position of a non-empty sequence of length n. */
  function LastEven(n: nat): (r: nat)
    requires 1 <= n
    ensures r < n && r % 2 == 0 && n <= r + 2
  {
    2 * ((n - 1) / 2)
  }

  // ---------------------------------------------------------------------
  // Lists

  lemma LastEvenStep(n: nat)
    requires 3 <= n
    ensures LastEven(n) == LastEven(n - 2) + 2
  {
    assert (n - 1) / 2 == (n - 3) / 2 + 1;
  }

  /** Removing the element at a position where it occurs first deletes
      exactly that position. */
  lemma {:induction false} RemoveAt<T>(xs: seq<T>, k: nat)
    requires k < |xs| && xs[k] !in xs[..k]
    ensures Remove(xs, xs[k]) == xs[..k] + xs[k + 1..]
    decreases k
  {
    if k > 0 {
      var x, tail := xs[k], xs[1..];
      assert xs[0] == xs[..k][0];
      assert xs[0] != x;
      assert tail[k - 1] == x;
      assert tail[..k - 1] == xs[1..k];
      RemoveAt(tail, k - 1);
      assert Remove(xs, x) == [xs[0]] + Remove(tail, x);
      assert xs[..k] == [xs[0]] + tail[..k - 1];
      assert xs[k + 1..] == tail[k..];
    }
  }

  /** Removing an element keeps every remaining batch fitting. */
  lemma RemoveKeepsFits(xs: seq<Batch>, x: Batch, n: nat)
    requires forall i | 0 <= i < |xs| :: Fits(xs[i], n)
    ensures forall i | 0 <= i < |Remove(xs, x)| :: Fits(Remove(xs, x)[i], n)
  {
    var r := Remove(xs, x);
    RemoveSubset(xs, x);
    forall i | 0 <= i < |r|
      ensures Fits(r[i], n)
    {
      assert r[i] in r;
      var j :| 0 <= j < |xs| && xs[j] == r[i];
    }
  }

  /** Removing never introduces an element. */
  lemma {:induction false} RemoveSubset<T>(xs: seq<T>, x: T)
    ensures forall y :: y in Remove(xs, x) ==> y in xs
  {
    if xs != [] {
      assert xs == [xs[0]] + xs[1..];
      RemoveSubset(xs[1..], x);
    }
  }

  /** Remove takes away exactly one occurrence of `x` when there is one,
      and nothing else. */
  lemma {:induction false} RemoveMultiset<T>(xs: seq<T>, x: T)
    ensures multiset(Remove(xs, x)) == multiset(xs) - multiset{x}
  {
    if xs != [] {
      assert xs == [xs[0]] + xs[1..];
      assert multiset(xs) == multiset{xs[0]} + multiset(xs[1..]);
      if xs[0] != x {
        RemoveMultiset(xs[1..], x);
        assert Remove(xs, x) == [xs[0]] + Remove(xs[1..], x);
      }
    }
  }

  /** After deleting position k, position i holds what position i (below
      k) or i + 1 (from k on) held. */
  lemma DeleteShift<T>(xs: seq<T>, k: nat)
    requires k < |xs|
    ensures var ys := xs[..k] + xs[k + 1..];
      forall i | 0 <= i < |ys| :: ys[i] == xs[if i < k then i else i + 1]
  {
  }

  /** Deleting one position keeps ids unique. */
  lemma UniqueIdsDelete(xs: seq<Batch>, k: nat)
    requires UniqueIds(xs) && k < |xs|
    ensures UniqueIds(xs[..k] + xs[k + 1..])
  {
    var ys := xs[..k] + xs[k + 1..];
    forall i, j | 0 <= i < j < |ys|
      ensures ys[i].id != ys[j].id
    {
      var i' := if i < k then i else i + 1;
      var j' := if j < k then j else j + 1;
      assert ys[i] == xs[i'] && ys[j] == xs[j'];
    }
  }

  /** Unique ids make the batches themselves distinct. */
  lemma UniqueIdsDistinct(xs: seq<Batch>)
    requires UniqueIds(xs)
    ensures Distinct(xs)
  {
  }

  /** In a list without repeats, the element at position k occurs first there. */
  lemma DistinctFirst<T>(xs: seq<T>, k: nat)
    requires Distinct(xs) && k < |xs|
    ensures xs[k] !in xs[..k] && IndexOf(xs, xs[k]) == k
  {
    forall j | 0 <= j < k
      ensures xs[..k][j] != xs[k]
    {
      assert xs[..k][j] == xs[j];
    }
    var r := IndexOf(xs, xs[k]);
  }

  lemma OddsCons<T>(xs: seq<T>)
    requires 2 <= |xs|
    ensures Odds(xs) == [xs[1]] + Odds(xs[2..])
    ensures Evens(xs) == [xs[0]] + Evens(xs[2..])
  {
  }

  // ---------------------------------------------------------------------
  // Invariants

  /** A batch issued with an id no scheduled batch has keeps the state
      well formed and the ids unique. */
  lemma IssuePreserves(s: MeshState, id: nat, contacts: seq<Vec3>, force: real, radius: real)
    requires WellFormed(s) && UniqueIds(s.scheduledJobs)
    requires forall b | b in s.scheduledJobs :: b.id != id
    ensures var r := Issue(s, id, contacts, force, radius);
      WellFormed(r) && UniqueIds(r.scheduledJobs)
      && r.vertices == s.vertices && r.modifiedVertices == s.modifiedVertices
      && |r.scheduledJobs| == |s.scheduledJobs| + 1
  {
    var r := Issue(s, id, contacts, force, radius);
    forall i, j | 0 <= i < j < |r.scheduledJobs|
      ensures r.scheduledJobs[i].id != r.scheduledJobs[j].id
    {
      if j == |s.scheduledJobs| {
        assert r.scheduledJobs[i] in s.scheduledJobs;
      }
    }
  }

  /** Completing a scheduled batch keeps the ids unique and removes that
      batch alone: the others keep their order. */
  lemma CompletePreserves(s: MeshState, k: nat)
    requires WellFormed(s) && UniqueIds(s.scheduledJobs) && k < |s.scheduledJobs|
    ensures var r := Complete(s, s.scheduledJobs[k]);
      && r.scheduledJobs == s.scheduledJobs[..k] + s.scheduledJobs[k + 1..]
      && UniqueIds(r.scheduledJobs)
      && r.vertices == r.modifiedVertices == Output(s.scheduledJobs[k])
  {
    UniqueIdsDistinct(s.scheduledJobs);
    DistinctFirst(s.scheduledJobs, k);
    RemoveAt(s.scheduledJobs, k);
    UniqueIdsDelete(s.scheduledJobs, k);
  }

  // ---------------------------------------------------------------------
  // What one Update does

  /** One round of Update's loop when `kept` batches sit below the index
      and `rest` starts at it: the batch at the index is completed, the
      mesh shows its output and the rest moves down one place. */
  lemma UpdateFromStep(s: MeshState, kept: seq<Batch>, rest: seq<Batch>) returns (s': MeshState)
    requires WellFormed(s) && UniqueIds(s.scheduledJobs) && s.scheduledJobs == kept + rest && rest != []
    ensures WellFormed(s') && UniqueIds(s'.scheduledJobs)
    ensures s'.scheduledJobs == kept + rest[1..]
    ensures Fits(rest[0], |s.modifiedVertices|) && s'.vertices == s'.modifiedVertices == Output(rest[0])
    ensures UpdateFrom(s, |kept|) == UpdateFrom(s', |kept| + 1)
  {
    var k := |kept|;
    assert s.scheduledJobs[k] == rest[0];
    CompletePreserves(s, k);
    assert s.scheduledJobs[..k] == kept && s.scheduledJobs[k + 1..] == rest[1..];
    s' := Complete(s, rest[0]);
  }

  /** Update's loop, from the point where `kept` batches sit below the
      index and a non-empty `rest` starts at it: it completes the batches
      at even positions of `rest`, keeps those at odd positions, and the
      mesh ends with the output of the last one it completed. */
  lemma {:induction false} UpdateFromSplit(s: MeshState, kept: seq<Batch>, rest: seq<Batch>)
    requires WellFormed(s) && UniqueIds(s.scheduledJobs) && s.scheduledJobs == kept + rest && rest != []
    ensures UpdateFrom(s, |kept|).scheduledJobs == kept + Odds(rest)
    ensures var b := rest[LastEven(|rest|)];
      && Fits(b, |s.modifiedVertices|)
      && UpdateFrom(s, |kept|).vertices == UpdateFrom(s, |kept|).modifiedVertices == Output(b)
    decreases |rest|
  {
    var s' := UpdateFromStep(s, kept, rest);
    if |rest| == 1 {
      assert s'.scheduledJobs == kept + Odds(rest);
    } else if |rest| == 2 {
      assert s'.scheduledJobs == kept + Odds(rest);
    } else {
      ShiftOne(kept, rest);
      UpdateFromSplit(s', kept + [rest[1]], rest[2..]);
      EvenTail(rest);
    }
  }

  /** The last even position of `rest` is that of `rest[2..]`, two on. */
  lemma EvenTail<T>(rest: seq<T>)
    requires 3 <= |rest|
    ensures rest[2..][LastEven(|rest| - 2)] == rest[LastEven(|rest|)]
  {
    LastEvenStep(|rest|);
  }

  /** Sequence bookkeeping for one round of UpdateFromSplit. */
  lemma ShiftOne<T>(kept: seq<T>, rest: seq<T>)
    requires 2 <= |rest|
    ensures kept + rest[1..] == (kept + [rest[1]]) + rest[2..]
    ensures (kept + [rest[1]]) + Odds(rest[2..]) == kept + Odds(rest)
  {
    OddsCons(rest);
  }

  /** One Update: the batches at even positions of the schedule are
      completed, those at odd positions stay for the next frame, so half
      the schedule (rounded down) is left. The mesh shows the output of
      the last batch completed, whatever the earlier ones produced; with
      nothing scheduled, nothing changes. */
  lemma UpdateEffect(s: MeshState)
    requires WellFormed(s) && UniqueIds(s.scheduledJobs)
    ensures Tick(s).scheduledJobs == Odds(s.scheduledJobs)
    ensures |Tick(s).scheduledJobs| == |s.scheduledJobs| / 2
    ensures s.scheduledJobs == [] ==> Tick(s) == s
    ensures s.scheduledJobs != [] ==>
      && Tick(s).vertices == Output(s.scheduledJobs[LastEven(|s.scheduledJobs|)])
      && Tick(s).modifiedVertices == Output(s.scheduledJobs[LastEven(|s.scheduledJobs|)])
  {
    if s.scheduledJobs != [] {
      assert s.scheduledJobs == [] + s.scheduledJobs;
      UpdateFromSplit(s, [], s.scheduledJobs);
      assert [] + Odds(s.scheduledJobs) == Odds(s.scheduledJobs);
    }
  }

  /** Update keeps batch ids unique. */
  lemma UpdatePreserves(s: MeshState)
    requires WellFormed(s) && UniqueIds(s.scheduledJobs)
    ensures UniqueIds(Tick(s).scheduledJobs)
  {
    UpdateEffect(s);
    var xs := s.scheduledJobs;
    var ys := Odds(xs);
    forall i, j | 0 <= i < j < |ys|
      ensures ys[i].id != ys[j].id
    {
      assert ys[i] == xs[2 * i + 1] && ys[j] == xs[2 * j + 1];
    }
  }

  // ---------------------------------------------------------------------
  // Consequences across frames

  /** Two collisions in one frame, with nothing pending before: the next
      Update completes only the first batch and the mesh shows it; the
      Update after that completes the second, whose snapshots predate the
      first, so the mesh ends with exactly what the second batch alone
      would give and the first collision's indentation is gone. */
  lemma LaterBatchDiscardsEarlier(s: MeshState, id1: nat, c1: seq<Vec3>, id2: nat, c2: seq<Vec3>, force: real, radius: real)
    requires WellFormed(s) && s.scheduledJobs == [] && id1 != id2
    ensures var s2 := Issue(Issue(s, id1, c1, force, radius), id2, c2, force, radius);
      && WellFormed(s2)
      && Tick(s2).vertices == JobOutput(s.vertices, s.modifiedVertices, c1, force, radius)
      && Tick(s2).scheduledJobs == [Batch(id2, c2, s.vertices, s.modifiedVertices, force, radius)]
      && Tick(Tick(s2)).vertices == JobOutput(s.vertices, s.modifiedVertices, c2, force, radius)
      && Tick(Tick(s2)).scheduledJobs == []
  {
    var s1 := Issue(s, id1, c1, force, radius);
    IssuePreserves(s, id1, c1, force, radius);
    var s2 := Issue(s1, id2, c2, force, radius);
    IssuePreserves(s1, id2, c2, force, radius);
    UpdateEffect(s2);
    UpdatePreserves(s2);
    UpdateEffect(Tick(s2));
  }

  /** A vertex hit by the same contacts in two successive frames sinks
      twice: each batch snapshots the buffers the previous one wrote, so
      depth accumulates across frames although it never does within one
      batch. */
  lemma DepthAccumulatesAcrossTicks(s: MeshState, id1: nat, id2: nat, contacts: seq<Vec3>, force: real, radius: real, k: nat)
    requires WellFormed(s) && s.scheduledJobs == [] && k < |s.vertices|
    requires AnyHit(s.modifiedVertices[k], contacts, radius)
    requires AnyHit(Pressed(s.vertices[k], force), contacts, radius)
    ensures var s1 := Tick(Issue(s, id1, contacts, force, radius));
      && WellFormed(s1) && s1.scheduledJobs == []
      && var s2 := Tick(Issue(s1, id2, contacts, force, radius));
      && k < |s2.vertices|
      && s2.vertices[k] == Vec3(s.vertices[k].x, s.vertices[k].y - 2.0 * force, s.vertices[k].z)
  {
    var t := Issue(s, id1, contacts, force, radius);
    IssuePreserves(s, id1, contacts, force, radius);
    UpdateEffect(t);
    var s1 := Tick(t);
    assert s1.vertices[k] == Pressed(s.vertices[k], force);
    var u := Issue(s1, id2, contacts, force, radius);
    IssuePreserves(s1, id2, contacts, force, radius);
    UpdateEffect(u);
  }
}
