/** IndentationJob: the per-vertex rule that presses a vertex down when a
    contact point comes close to it. The job holds three buffers: the
    contact points, the vertices as they were when the batch was issued
    ("initial") and the buffer it rewrites ("modified"). */
module Indentation {
  import opened Vectors

  /** The influence test of the kernel: the SQUARED distance between the
      vertex and the contact is compared with the radius itself. */
  predicate Hits(vertex: Vec3, contact: Vec3, radius: real) {
    SqrMagnitude(Sub(vertex, contact)) < radius
  }

  /** The value a hit writes: the initial vertex moved `force` along
      Vector3.down. */
  function Pressed(initial: Vec3, force: real): (r: Vec3)
    ensures r.x == initial.x && r.y == initial.y - force && r.z == initial.z
  {
    Add(initial, Scale(DOWN, force))
  }

  /** One pass of the contact loop: test the current value, overwrite on a
      hit. The vertex only ever changes to the pressed value, and only on a
      hit; a radius of 0 or less never moves it. */
  function Step(current: Vec3, initial: Vec3, contact: Vec3, force: real, radius: real): (r: Vec3)
    ensures r == current || r == Pressed(initial, force)
    ensures r != current ==> Hits(current, contact, radius)
    ensures radius <= 0.0 ==> r == current
  {
    SqrMagnitudeNonNegative(Sub(current, contact));
    if Hits(current, contact, radius) then Pressed(initial, force) else current
  }

  /** The value of modifiedVertices[i] after the contact loop has run over
      `contacts` in order, each test reading the value the earlier
      contacts left behind. It ends either at its prior value or exactly
      `force` below its initial position, so depth never accumulates within
      one call however many contacts hit; a radius of 0 or less never moves
      it. */
  function IndentVertex(current: Vec3, initial: Vec3, contacts: seq<Vec3>, force: real, radius: real): (r: Vec3)
    ensures r == current || r == Pressed(initial, force)
    ensures radius <= 0.0 ==> r == current
    decreases |contacts|
  {
    if contacts == [] then current
    else IndentVertex(Step(current, initial, contacts[0], force, radius), initial, contacts[1..], force, radius)
  }

  /** Some contact lies within the influence test of `vertex`. */
  predicate AnyHit(vertex: Vec3, contacts: seq<Vec3>, radius: real) {
    exists j :: 0 <= j < |contacts| && Hits(vertex, contacts[j], radius)
  }

  /** The whole job: IndentVertex at every index. Each vertex keeps its
      value or is pressed down from its initial position. */
  function JobOutput(initial: seq<Vec3>, modified: seq<Vec3>, contacts: seq<Vec3>, force: real, radius: real): (r: seq<Vec3>)
    requires |initial| == |modified|
    ensures |r| == |modified|
    ensures forall i :: 0 <= i < |r| ==> r[i] == modified[i] || r[i] == Pressed(initial[i], force)
    ensures radius <= 0.0 ==> r == modified
  {
    seq(|modified|, i requires 0 <= i < |modified| => IndentVertex(modified[i], initial[i], contacts, force, radius))
  }

  /** Processing one more contact is one more Step on what the earlier
      contacts produced. */
  lemma {:induction false} IndentVertexAppend(current: Vec3, initial: Vec3, contacts: seq<Vec3>, c: Vec3, force: real, radius: real)
    ensures IndentVertex(current, initial, contacts + [c], force, radius)
         == Step(IndentVertex(current, initial, contacts, force, radius), initial, c, force, radius)
    decreases |contacts|
  {
    if contacts != [] {
      assert (contacts + [c])[1..] == contacts[1..] + [c];
      IndentVertexAppend(Step(current, initial, contacts[0], force, radius), initial, contacts[1..], c, force, radius);
    }
  }

  /** Closed form of the contact loop: the vertex ends at exactly
      Pressed(initial) when some contact hits the value it started from,
      and is untouched otherwise. Once pressed it is only ever rewritten
      with the same value, so later tests cannot undo or deepen it. */
  lemma {:induction false} IndentVertexIffHit(current: Vec3, initial: Vec3, contacts: seq<Vec3>, force: real, radius: real)
    ensures IndentVertex(current, initial, contacts, force, radius)
         == if AnyHit(current, contacts, radius) then Pressed(initial, force) else current
    decreases |contacts|
  {
    if contacts != [] {
      var p := Pressed(initial, force);
      var next := Step(current, initial, contacts[0], force, radius);
      IndentVertexIffHit(next, initial, contacts[1..], force, radius);
      if Hits(current, contacts[0], radius) {
        assert AnyHit(current, contacts, radius);
      } else if AnyHit(current, contacts[1..], radius) {
        var j :| 0 <= j < |contacts[1..]| && Hits(current, contacts[1..][j], radius);
        assert Hits(current, contacts[j + 1], radius);
      } else {
        forall j | 0 <= j < |contacts|
          ensures !Hits(current, contacts[j], radius)
        {
          if j > 0 {
            assert contacts[j] == contacts[1..][j - 1];
          }
        }
      }
    }
  }

  /** No contacts, no change. */
  lemma IndentVertexNoContacts(current: Vec3, initial: Vec3, force: real, radius: real)
    ensures IndentVertex(current, initial, [], force, radius) == current
  {
  }

  /** Running the contact loop a second time changes nothing. */
  lemma IndentVertexIdempotent(current: Vec3, initial: Vec3, contacts: seq<Vec3>, force: real, radius: real)
    ensures var once := IndentVertex(current, initial, contacts, force, radius);
      IndentVertex(once, initial, contacts, force, radius) == once
  {
    var once := IndentVertex(current, initial, contacts, force, radius);
    IndentVertexIffHit(current, initial, contacts, force, radius);
    IndentVertexIffHit(once, initial, contacts, force, radius);
  }

  /** Although each test reads the value earlier contacts wrote, the result
      does not depend on the order of the contacts: every hit writes the
      same value. */
  lemma IndentVertexOrderIndependent(current: Vec3, initial: Vec3, contacts: seq<Vec3>, reordered: seq<Vec3>, force: real, radius: real)
    requires multiset(contacts) == multiset(reordered)
    ensures IndentVertex(current, initial, contacts, force, radius)
         == IndentVertex(current, initial, reordered, force, radius)
  {
    IndentVertexIffHit(current, initial, contacts, force, radius);
    IndentVertexIffHit(current, initial, reordered, force, radius);
    SameHits(current, contacts, reordered, radius);
    SameHits(current, reordered, contacts, radius);
  }

  lemma SameHits(vertex: Vec3, contacts: seq<Vec3>, reordered: seq<Vec3>, radius: real)
    requires multiset(contacts) == multiset(reordered)
    ensures AnyHit(vertex, contacts, radius) ==> AnyHit(vertex, reordered, radius)
  {
    if AnyHit(vertex, contacts, radius) {
      var j :| 0 <= j < |contacts| && Hits(vertex, contacts[j], radius);
      assert contacts[j] in multiset(reordered);
      var k :| 0 <= k < |reordered| && reordered[k] == contacts[j];
    }
  }

  /** A contact at distance `d` from the vertex along the x axis hits
      exactly when d * d < radius: the radius is compared with a
      squared distance and is never squared itself. */
  lemma HitsIsSquaredDistance(vertex: Vec3, d: real, radius: real)
    ensures Hits(vertex, Vec3(vertex.x + d, vertex.y, vertex.z), radius) <==> d * d < radius
  {
    var c := Vec3(vertex.x + d, vertex.y, vertex.z);
    assert Sub(vertex, c) == Vec3(-d, 0.0, 0.0);
  }

  /** The whole job, index by index: a vertex some contact hits is set to
      its initial position pressed down by `force`; every other vertex
      keeps its value. The length never changes. */
  lemma JobOutputIffHit(initial: seq<Vec3>, modified: seq<Vec3>, contacts: seq<Vec3>, force: real, radius: real)
    requires |initial| == |modified|
    ensures var r := JobOutput(initial, modified, contacts, force, radius);
      && |r| == |modified|
      && forall k :: 0 <= k < |r| ==>
           r[k] == if AnyHit(modified[k], contacts, radius) then Pressed(initial[k], force) else modified[k]
  {
    forall k | 0 <= k < |modified|
      ensures JobOutput(initial, modified, contacts, force, radius)[k]
           == if AnyHit(modified[k], contacts, radius) then Pressed(initial[k], force) else modified[k]
    {
      IndentVertexIffHit(modified[k], initial[k], contacts, force, radius);
    }
  }

  /** A second run of the whole job over its own output changes nothing. */
  lemma JobOutputIdempotent(initial: seq<Vec3>, modified: seq<Vec3>, contacts: seq<Vec3>, force: real, radius: real)
    requires |initial| == |modified|
    ensures var once := JobOutput(initial, modified, contacts, force, radius);
      JobOutput(initial, once, contacts, force, radius) == once
  {
    var once := JobOutput(initial, modified, contacts, force, radius);
    forall i | 0 <= i < |modified|
      ensures JobOutput(initial, once, contacts, force, radius)[i] == once[i]
    {
      IndentVertexIdempotent(modified[i], initial[i], contacts, force, radius);
    }
  }

  /** The job's buffers. The fields are fixed when the job is built; only
      the elements of modifiedVertices change. */
  class IndentationJob {
    const contactPoints: array<Vec3>
    const initialVertices: array<Vec3>
    const modifiedVertices: array<Vec3>
    const force: real
    const radius: real

    /** The buffer the job rewrites is distinct from the ones it reads, and
        both vertex buffers have one entry per vertex. */
    ghost predicate Valid() {
      && modifiedVertices != initialVertices
      && modifiedVertices != contactPoints
      && initialVertices.Length == modifiedVertices.Length
    }

    constructor (contactPoints: array<Vec3>, initialVertices: array<Vec3>, modifiedVertices: array<Vec3>, force: real, radius: real)
      ensures this.contactPoints == contactPoints && this.initialVertices == initialVertices
      ensures this.modifiedVertices == modifiedVertices
      ensures this.force == force && this.radius == radius
      ensures Valid() <==> modifiedVertices != initialVertices && modifiedVertices != contactPoints
                           && initialVertices.Length == modifiedVertices.Length
    {
      this.contactPoints := contactPoints;
      this.initialVertices := initialVertices;
      this.modifiedVertices := modifiedVertices;
      this.force := force;
      this.radius := radius;
    }

    /** Execute(i): run the contact loop for vertex `i`. Only
        modifiedVertices[i] changes. */
    method Execute(i: int)
      requires Valid() && 0 <= i < modifiedVertices.Length
      modifies modifiedVertices
      ensures modifiedVertices[i]
           == IndentVertex(old(modifiedVertices[i]), initialVertices[i], contactPoints[..], force, radius)
      ensures forall j :: 0 <= j < modifiedVertices.Length && j != i ==> modifiedVertices[j] == old(modifiedVertices[j])
      ensures unchanged(initialVertices, contactPoints)
    {
      var c := 0;
      while c < contactPoints.Length
        invariant 0 <= c <= contactPoints.Length
        invariant modifiedVertices[i]
               == IndentVertex(old(modifiedVertices[i]), initialVertices[i], contactPoints[..c], force, radius)
        invariant forall j :: 0 <= j < modifiedVertices.Length && j != i ==> modifiedVertices[j] == old(modifiedVertices[j])
      {
        var pointToVert := Sub(modifiedVertices[i], contactPoints[c]);
        var distance := SqrMagnitude(pointToVert);
        IndentVertexAppend(old(modifiedVertices[i]), initialVertices[i], contactPoints[..c], contactPoints[c], force, radius);
        if distance < radius {
          var newVertice := Add(initialVertices[i], Scale(DOWN, force));
          modifiedVertices[i] := newVertice;
        }
        assert contactPoints[..c + 1] == contactPoints[..c] + [contactPoints[c]];
        c := c + 1;
      }
      assert contactPoints[..c] == contactPoints[..];
    }

    /** Completing the scheduled job: Execute for every index
        0 .. initialVertices.Length - 1, here in ascending order. */
    method Complete()
      requires Valid()
      modifies modifiedVertices
      ensures modifiedVertices[..]
           == JobOutput(initialVertices[..], old(modifiedVertices[..]), contactPoints[..], force, radius)
    {
      var i := 0;
      while i < initialVertices.Length
        invariant 0 <= i <= initialVertices.Length
        invariant forall j :: 0 <= j < i ==>
          modifiedVertices[j] == IndentVertex(old(modifiedVertices[j]), initialVertices[j], contactPoints[..], force, radius)
        invariant forall j :: i <= j < modifiedVertices.Length ==> modifiedVertices[j] == old(modifiedVertices[j])
      {
        Execute(i);
        i := i + 1;
      }
    }

    /** Execute called in any order, with repetitions allowed: each index
        named at least once ends at its IndentVertex value, the others are
        untouched. When every index is named, the result is the job's
        output whatever the order. */
    method ExecuteInOrder(order: seq<int>)
      requires Valid()
      requires forall k :: 0 <= k < |order| ==> 0 <= order[k] < modifiedVertices.Length
      modifies modifiedVertices
      ensures forall j :: 0 <= j < modifiedVertices.Length ==>
        modifiedVertices[j] == if j in order
          then IndentVertex(old(modifiedVertices[j]), initialVertices[j], contactPoints[..], force, radius)
          else old(modifiedVertices[j])
      ensures (forall j :: 0 <= j < modifiedVertices.Length ==> j in order) ==>
        modifiedVertices[..] == JobOutput(initialVertices[..], old(modifiedVertices[..]), contactPoints[..], force, radius)
    {
      for k := 0 to |order|
        invariant forall j :: 0 <= j < modifiedVertices.Length ==>
          modifiedVertices[j] == if j in order[..k]
            then IndentVertex(old(modifiedVertices[j]), initialVertices[j], contactPoints[..], force, radius)
            else old(modifiedVertices[j])
      {
        var i := order[k];
        if i in order[..k] {
          IndentVertexIdempotent(old(modifiedVertices[i]), initialVertices[i], contactPoints[..], force, radius);
        }
        Execute(i);
        assert order[..k + 1] == order[..k] + [i];
      }
      assert order[..|order|] == order;
    }
  }
}
