/**
  The upload path and the grow-only vertex buffer: `update` and
  `update_buffers` in src/update.cpp, and `update` / `create_vertex_buffer`
  in src/sigil.cpp.

  The vertex buffer is a `raii::resource` living in a `Resource.World`, so
  replacing it runs the wrapper's own move-assignment and its destroy log
  shows which buffer was freed. `held` is the byte size the currently
  held buffer was created with (0 when there is none); the source does not
  store it, but it is what a copy into the buffer must fit.
*/
module Update {
  import Resource
  import Render

  /** `sizeof(vertex)`: a glm::vec3 position and a glm::vec4 colour of floats (src/sigil.hpp:19-22). */
  const VertexSize: nat := 28

  datatype Alloc = Allocated(buffer: Resource.Handle) | AllocFailed

  datatype Call =
    | WaitIdle
    | CreateBuffer(size: nat)
    | CopyVertices(bytes: nat)
    | CopyMatrices(slot: nat)
    | WriteDescriptor(slot: nat)

  /** `context::vertex_buffer` and the temporary used to replace it. */
  const BufferObj: Resource.ObjId := 0
  const TempObj: Resource.ObjId := 1

  datatype Buffers = Buffers(
    capacity: nat,        // vertex_buffer_create_info.size
    held: nat,
    world: Resource.World,
    dirty: bool)          // update_buffers (newer) / update_vertex_buffer (older)

  predicate Valid(b: Buffers) {
    BufferObj in b.world.live && TempObj !in b.world.live
  }

  /** The byte size the current vertex list needs. */
  function Required(vertexCount: nat): nat {
    vertexCount * VertexSize
  }

  /** The context as it starts: no buffer, capacity 0 (src/sigil.hpp:84-85). */
  const Initial := Buffers(0, 0, Resource.DefaultConstruct(Resource.Start, BufferObj), false)

  /** `c->vertex_buffer = raii::resource<...>{a0, alloc, buf}` (update.cpp:222). */
  function Replace(w: Resource.World, h: Resource.Handle): (r: Resource.World)
    requires BufferObj in w.live && TempObj !in w.live
    ensures BufferObj in r.live && TempObj !in r.live
    ensures Resource.Owns(r, BufferObj, h)
    ensures r.destroyed == w.destroyed + (if w.live[BufferObj].owns then [w.live[BufferObj].handle] else [])
  {
    var w1 := Resource.ConstructFrom(w, TempObj, h);
    Resource.Destruct(Resource.MoveAssign(w1, BufferObj, TempObj), TempObj)
  }

  /**
    `update_buffers` (update.cpp:192-224) and `create_vertex_buffer`
    (sigil.cpp:327-359): nothing happens while the list fits; otherwise the
    declared capacity is raised to exactly the required size BEFORE the
    allocation is tried, and only a successful allocation replaces the buffer.
  */
  function Grow(b: Buffers, vertexCount: nat, alloc: Alloc): (r: (bool, Buffers, seq<Call>))
    requires Valid(b)
    ensures Valid(r.1) && r.1.dirty == b.dirty
    ensures r.1.capacity >= b.capacity && r.1.capacity >= Required(vertexCount)
    ensures Required(vertexCount) <= b.capacity ==> r == (true, b, [])
    ensures Required(vertexCount) > b.capacity ==>
      && r.1.capacity == Required(vertexCount)
      && r.2 == [CreateBuffer(Required(vertexCount))]
      && (r.0 <==> alloc.Allocated?)
    ensures Required(vertexCount) > b.capacity && alloc.AllocFailed? ==>
      r.1.world == b.world && r.1.held == b.held
    ensures Required(vertexCount) > b.capacity && alloc.Allocated? ==>
      && Resource.Owns(r.1.world, BufferObj, alloc.buffer)
      && r.1.held == Required(vertexCount)
      && var old_ := b.world.live[BufferObj];
         r.1.world.destroyed == b.world.destroyed + (if old_.owns then [old_.handle] else [])
  {
    var need := Required(vertexCount);
    if need <= b.capacity then (true, b, [])
    else
      var raised := b.(capacity := need);
      match alloc
      case AllocFailed => (false, raised, [CreateBuffer(need)])
      case Allocated(h) =>
        (true, raised.(world := Replace(b.world, h), held := need), [CreateBuffer(need)])
  }

  /** The answers of one `update` call, in the order they are asked. */
  datatype Answers = Answers(
    alloc: Alloc,
    vertexCopy: bool,
    matrixCopy: seq<bool>,   // one per frame slot; a missing answer is a failure
    keyPressed: bool)        // update_input saw a key that changes the transform

  function MatrixCopyOk(a: Answers, i: nat): bool {
    i < |a.matrixCopy| && a.matrixCopy[i]
  }

  /**
    The per-slot loop of update.cpp:28-48: copy the matrices into the slot's
    uniform buffer, then rewrite its descriptor set; the first failed copy
    ends the loop.
  */
  function CopySlots(a: Answers, i: nat): (r: (bool, seq<Call>))
    requires i <= Render.Frames
    ensures r.0 <==> forall k :: i <= k < Render.Frames ==> MatrixCopyOk(a, k)
    ensures r.0 ==> forall k :: i <= k < Render.Frames ==> WriteDescriptor(k) in r.1
    decreases Render.Frames - i
  {
    if i == Render.Frames then (true, [])
    else if !MatrixCopyOk(a, i) then (false, [CopyMatrices(i)])
    else
      var rest := CopySlots(a, i + 1);
      (rest.0, [CopyMatrices(i), WriteDescriptor(i)] + rest.1)
  }

  /**
    `update` of src/update.cpp (lines 15-59): when the buffers are dirty or
    party mode is on, wait for the device to go idle, grow the vertex buffer
    (its result is ignored), copy `capacity` bytes of vertices, then each
    slot's matrices; only when all of that succeeded is the flag cleared.
    Key input (update_input) may set the flag again afterwards.
  */
  function Tick(b: Buffers, vertexCount: nat, party: bool, a: Answers): (r: (bool, Buffers, seq<Call>))
    requires Valid(b)
    ensures Valid(r.1)
    ensures r.1.capacity >= b.capacity
    ensures |r.2| > 0 <==> b.dirty || party
    ensures |r.2| > 0 ==> r.2[0] == WaitIdle
    ensures !r.0 ==> r.1.dirty == b.dirty
    ensures r.0 && (b.dirty || party) ==> r.1.dirty == a.keyPressed
    ensures r.0 && (b.dirty || party) ==>
      forall k :: 0 <= k < Render.Frames ==> WriteDescriptor(k) in r.2
    ensures !(b.dirty || party) ==> r.0 && r.1 == b.(dirty := a.keyPressed)
    ensures r.0 <==> !(b.dirty || party)
                     || (a.vertexCopy && forall k :: 0 <= k < Render.Frames ==> MatrixCopyOk(a, k))
    ensures (b.dirty || party) ==> r.1.capacity >= Required(vertexCount)
  {
    if b.dirty || party then
      var (_, g, growCalls) := Grow(b, vertexCount, a.alloc);
      var pre := [WaitIdle] + growCalls + [CopyVertices(g.capacity)];
      if !a.vertexCopy then (false, g, pre)
      else
        var (slotsOk, slotCalls) := CopySlots(a, 0);
        if !slotsOk then (false, g, pre + slotCalls)
        else (true, g.(dirty := a.keyPressed), pre + slotCalls)
    else
      (true, b.(dirty := b.dirty || a.keyPressed), [])
  }

  /**
    `update` of src/sigil.cpp (lines 90-107): only the dirty flag gates the
    upload; there are no matrices, no party mode and no key input.
  */
  function LegacyTick(b: Buffers, vertexCount: nat, a: Answers): (r: (bool, Buffers, seq<Call>))
    requires Valid(b)
    ensures Valid(r.1)
    ensures r.1.capacity >= b.capacity
    ensures |r.2| > 0 <==> b.dirty
    ensures |r.2| > 0 ==> r.2[0] == WaitIdle
    ensures r.1.dirty <==> b.dirty && !a.vertexCopy
    ensures r.0 <==> !b.dirty || a.vertexCopy
  {
    if b.dirty then
      var (_, g, growCalls) := Grow(b, vertexCount, a.alloc);
      var calls := [WaitIdle] + growCalls + [CopyVertices(g.capacity)];
      if !a.vertexCopy then (false, g, calls)
      else (true, g.(dirty := false), calls)
    else
      (true, b, [])
  }

  // ---------------------------------------------------------------------------
  // Properties

  /** Growing twice for the same or a smaller list allocates at most once. */
  lemma GrowIsIdempotent(b: Buffers, n: nat, m: nat, a1: Alloc, a2: Alloc)
    requires Valid(b) && m <= n
    ensures var g := Grow(b, n, a1).1;
      Grow(g, m, a2) == (true, g, [])
  {
    var g := Grow(b, n, a1).1;
    assert Required(m) <= Required(n);
  }

  /**
    Over any sequence of uploads the declared capacity never decreases and
    ends at least as large as every upload in the sequence required.
  */
  lemma {:induction false} CapacityMonotone(b: Buffers, counts: seq<nat>, allocs: seq<Alloc>)
    requires Valid(b) && |allocs| == |counts|
    ensures GrowAll(b, counts, allocs).capacity >= b.capacity
    ensures forall i :: 0 <= i < |counts| ==> GrowAll(b, counts, allocs).capacity >= Required(counts[i])
    decreases |counts|
  {
    if |counts| > 0 {
      var g := Grow(b, counts[0], allocs[0]).1;
      CapacityMonotone(g, counts[1..], allocs[1..]);
      forall i | 0 < i < |counts|
        ensures GrowAll(b, counts, allocs).capacity >= Required(counts[i])
      {
        assert counts[1..][i - 1] == counts[i];
      }
    }
  }

  function GrowAll(b: Buffers, counts: seq<nat>, allocs: seq<Alloc>): (r: Buffers)
    requires Valid(b) && |allocs| == |counts|
    ensures Valid(r)
    decreases |counts|
  {
    if |counts| == 0 then b
    else GrowAll(Grow(b, counts[0], allocs[0]).1, counts[1..], allocs[1..])
  }

  /** The device-idle barrier comes before any buffer is created in the same update. */
  lemma BarrierBeforeRealloc(b: Buffers, n: nat, party: bool, a: Answers)
    requires Valid(b)
    ensures var calls := Tick(b, n, party, a).2;
      forall i :: 0 <= i < |calls| && calls[i].CreateBuffer? ==> i > 0 && calls[0] == WaitIdle
  {
  }

  /**
    The vertex copy always asks for `capacity` bytes, not for the bytes the
    current list occupies.
  */
  lemma CopyLengthIsCapacity(b: Buffers, n: nat, party: bool, a: Answers)
    requires Valid(b) && (b.dirty || party)
    ensures var r := Tick(b, n, party, a);
      CopyVertices(r.1.capacity) in r.2
  {
    var (_, g, growCalls) := Grow(b, n, a.alloc);
    var pre := [WaitIdle] + growCalls + [CopyVertices(g.capacity)];
    assert CopyVertices(g.capacity) in pre;
  }

  /** A failed allocation does not fail the update: its result is ignored. */
  lemma AllocFailureIgnored(b: Buffers, n: nat, party: bool, a: Answers)
    requires Valid(b) && (b.dirty || party) && Required(n) > b.capacity
    requires a.alloc.AllocFailed? && a.vertexCopy
    requires forall k :: 0 <= k < Render.Frames ==> MatrixCopyOk(a, k)
    ensures var r := Tick(b, n, party, a);
      r.0 && r.1.world == b.world && r.1.capacity == Required(n)
  {
  }

  // ---------------------------------------------------------------------------
  // Finding: the vertex copy can overrun the buffer

  /** Some vertex copy in `calls` asks for more bytes than the held buffer has. */
  predicate Overruns(calls: seq<Call>, held: nat) {
    exists i :: 0 <= i < |calls| && calls[i].CopyVertices? && calls[i].bytes > held
  }

  /**
    As written: the first upload of the older program (3 seed vertices,
    sigil.cpp:320-323) whose allocation fails still copies 84 bytes into a
    context that holds no buffer at all; the newer `update` does the same.
  */
  lemma AsWrittenCopyOverruns()
    ensures var b := Initial.(dirty := true);
      var a := Answers(AllocFailed, true, [true, true], false);
      var r := Tick(b, 3, false, a);
      r.0 && Overruns(r.2, r.1.held)
      && var l := LegacyTick(b, 3, a);
      l.0 && Overruns(l.2, l.1.held)
  {
    var b := Initial.(dirty := true);
    var a := Answers(AllocFailed, true, [true, true], false);
    var r := Tick(b, 3, false, a);
    assert r.2[2] == CopyVertices(84);
    var l := LegacyTick(b, 3, a);
    assert l.2[2] == CopyVertices(84);
  }

  /**
    Corrected growth: the capacity is raised only together with a successful
    allocation, so it always equals the size of the buffer actually held.
  */
  function GrowChecked(b: Buffers, vertexCount: nat, alloc: Alloc): (r: (bool, Buffers, seq<Call>))
    requires Valid(b)
    ensures Valid(r.1) && r.1.dirty == b.dirty
    ensures r.1.capacity >= b.capacity
    ensures r.0 ==> r.1.capacity >= Required(vertexCount)
    ensures b.capacity == b.held ==> r.1.capacity == r.1.held
    ensures !r.0 ==> r.1 == b
    ensures r.0 <==> Required(vertexCount) <= b.capacity || alloc.Allocated?
  {
    var need := Required(vertexCount);
    if need <= b.capacity then (true, b, [])
    else
      match alloc
      case AllocFailed => (false, b, [CreateBuffer(need)])
      case Allocated(h) =>
        (true, b.(world := Replace(b.world, h), held := need, capacity := need), [CreateBuffer(need)])
  }

  /** Corrected `update`: a failed growth fails the update before anything is copied. */
  function TickChecked(b: Buffers, vertexCount: nat, party: bool, a: Answers): (r: (bool, Buffers, seq<Call>))
    requires Valid(b)
    ensures Valid(r.1)
    ensures b.capacity == b.held ==> r.1.capacity == r.1.held
    ensures !r.0 ==> r.1.dirty == b.dirty
    ensures r.0 <==> !(b.dirty || party)
                     || (&& (Required(vertexCount) <= b.capacity || a.alloc.Allocated?)
                         && a.vertexCopy
                         && forall k :: 0 <= k < Render.Frames ==> MatrixCopyOk(a, k))
    ensures r.0 && (b.dirty || party) ==> r.1.capacity >= Required(vertexCount)
    ensures (b.dirty || party) && Required(vertexCount) > b.capacity && a.alloc.AllocFailed? ==>
      && !r.0
      && r.1 == b
      && r.2 == [WaitIdle, CreateBuffer(Required(vertexCount))]
  {
    if b.dirty || party then
      var (grown, g, growCalls) := GrowChecked(b, vertexCount, a.alloc);
      if !grown then (false, g, [WaitIdle] + growCalls)
      else
        var pre := [WaitIdle] + growCalls + [CopyVertices(g.capacity)];
        if !a.vertexCopy then (false, g, pre)
        else
          var (slotsOk, slotCalls) := CopySlots(a, 0);
          if !slotsOk then (false, g, pre + slotCalls)
          else (true, g.(dirty := a.keyPressed), pre + slotCalls)
    else
      (true, b.(dirty := b.dirty || a.keyPressed), [])
  }

  /** Corrected, the failed allocation of `AllocFailureIgnored` fails the update and copies nothing. */
  lemma CheckedAllocFailureFails(b: Buffers, n: nat, party: bool, a: Answers)
    requires Valid(b) && (b.dirty || party) && Required(n) > b.capacity
    requires a.alloc.AllocFailed? && a.vertexCopy
    requires forall k :: 0 <= k < Render.Frames ==> MatrixCopyOk(a, k)
    ensures var r := TickChecked(b, n, party, a);
      !r.0 && r.1 == b && forall i :: 0 <= i < |r.2| ==> !r.2[i].CopyVertices?
  {
  }

  /**
    With the correction, no vertex copy ever asks for more bytes than the
    buffer held at that moment, and the list always fits when the copy runs.
  */
  lemma CheckedCopyFits(b: Buffers, n: nat, party: bool, a: Answers)
    requires Valid(b) && b.capacity == b.held
    ensures var r := TickChecked(b, n, party, a);
      !Overruns(r.2, r.1.held)
      && forall i :: 0 <= i < |r.2| && r.2[i].CopyVertices? ==> r.2[i].bytes >= Required(n)
  {
    var r := TickChecked(b, n, party, a);
    if b.dirty || party {
      var (grown, g, growCalls) := GrowChecked(b, n, a.alloc);
      if grown {
        var pre := [WaitIdle] + growCalls + [CopyVertices(g.capacity)];
        var (slotsOk, slotCalls) := CopySlots(a, 0);
        assert forall c :: c in slotCalls ==> !c.CopyVertices?;
        assert forall i :: 0 <= i < |r.2| && r.2[i].CopyVertices? ==> r.2[i] == CopyVertices(g.capacity);
      }
    }
  }
}
