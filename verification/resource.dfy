/**
  The single-owner handle wrapper `raii::resource<T>` (include/resource.hpp).

  A wrapper is the policy's handle plus the private `cleanup_` flag. The C++
  objects live in a `World`: a map from object identities to wrappers, the log
  of every `T::destroy()` call in the order it happened, and two bookkeeping
  sets that let the invariant talk about handles nobody holds any more:
  `adopted` (real handles some wrapper was built from) and `relinquished`
  (handles whose ownership was given up without a destroy, through `release()`
  or `cleanup(false)`).

  `Null` stands for the value-initialised handle `{}` (VK_NULL_HANDLE).
*/
module Resource {

  datatype Handle = Null | Real(id: nat)

  /** One `raii::resource<T>` object: `T::handle` and `cleanup_`. */
  datatype Wrapper = Wrapper(handle: Handle, owns: bool)

  type ObjId = nat

  datatype World = World(
    live: map<ObjId, Wrapper>,
    destroyed: seq<Handle>,
    adopted: set<Handle>,
    relinquished: set<Handle>)

  const Empty := Wrapper(Null, false)

  /** The empty world: no live wrappers, nothing destroyed. */
  const Start := World(map[], [], {}, {})

  predicate Owns(w: World, a: ObjId, h: Handle) {
    a in w.live && w.live[a].owns && w.live[a].handle == h
  }

  /** A call of `T::destroy()` on handle `h`. */
  function CallDestroy(w: World, h: Handle): (r: World)
    ensures r.destroyed == w.destroyed + [h]
    ensures r.live == w.live && r.adopted == w.adopted && r.relinquished == w.relinquished
  {
    w.(destroyed := w.destroyed + [h])
  }

  /** `resource()`: the default constructor clears the flag (resource.hpp:36). */
  function DefaultConstruct(w: World, id: ObjId): (r: World)
    requires id !in w.live
    ensures id in r.live && !r.live[id].owns && r.live[id].handle == Null
    ensures r.destroyed == w.destroyed
    ensures r.live.Keys == w.live.Keys + {id}
    ensures forall a :: a in w.live ==> r.live[a] == w.live[a]
    ensures r.adopted == w.adopted && r.relinquished == w.relinquished
  {
    w.(live := w.live[id := Empty])
  }

  /**
    `resource(args...)`: the policy is built from the raw handle and the flag
    keeps its default member initialiser `true` (resource.hpp:31-34, 54).
  */
  function ConstructFrom(w: World, id: ObjId, h: Handle): (r: World)
    requires id !in w.live
    ensures Owns(r, id, h)
    ensures r.destroyed == w.destroyed
    ensures h.Real? ==> h in r.adopted
    ensures r.adopted - w.adopted <= {h} && w.adopted <= r.adopted
    ensures r.relinquished == w.relinquished
    ensures r.live.Keys == w.live.Keys + {id}
    ensures forall a :: a in w.live ==> r.live[a] == w.live[a]
  {
    w.(live := w.live[id := Wrapper(h, true)],
       adopted := if h.Real? then w.adopted + {h} else w.adopted)
  }

  /** The body of `release()` without bookkeeping: handle := {}, cleanup_ := false. */
  function Strip(w: World, id: ObjId): World
    requires id in w.live
  {
    w.(live := w.live[id := Empty])
  }

  /**
    `release()` called by user code (resource.hpp:46-51): it returns the old
    handle, leaves the wrapper empty and never calls `destroy()`.
  */
  function Release(w: World, id: ObjId): (r: (Handle, World))
    requires id in w.live
    ensures r.0 == w.live[id].handle
    ensures id in r.1.live && r.1.live[id] == Empty
    ensures r.1.destroyed == w.destroyed
    ensures forall a :: a in w.live && a != id ==> a in r.1.live && r.1.live[a] == w.live[a]
  {
    var old_ := w.live[id];
    var w1 := if old_.owns && old_.handle.Real?
              then w.(relinquished := w.relinquished + {old_.handle}) else w;
    (old_.handle, Strip(w1, id))
  }

  /**
    `operator=(resource&&)` (resource.hpp:16-27): unless it is a self-move,
    destroy the destination if it owns, copy the policy fields and then the
    flag from the source, and release the source.
  */
  function MoveAssign(w: World, dst: ObjId, src: ObjId): (r: World)
    requires dst in w.live && src in w.live
    ensures dst == src ==> r == w
    ensures dst != src ==> r.destroyed == w.destroyed + (if w.live[dst].owns then [w.live[dst].handle] else [])
    ensures dst != src ==> dst in r.live && r.live[dst] == w.live[src]
    ensures dst != src ==> src in r.live && r.live[src] == Empty
    ensures r.live.Keys == w.live.Keys
    ensures forall a :: a in w.live && a != dst && a != src ==> r.live[a] == w.live[a]
    ensures r.adopted == w.adopted && r.relinquished == w.relinquished
  {
    if dst == src then w
    else
      var w1 := if w.live[dst].owns then CallDestroy(w, w.live[dst].handle) else w;
      var w2 := w1.(live := w1.live[dst := w1.live[dst].(handle := w1.live[src].handle)]);
      var w3 := w2.(live := w2.live[dst := w2.live[dst].(owns := w2.live[src].owns)]);
      Strip(w3, src)
  }

  /**
    `resource(resource&&)` (resource.hpp:29): the new object starts with a
    default policy (empty handle) and `cleanup_` already `true` (line 54), and
    then runs the move-assignment, whose first step destroys that empty handle.
  */
  function MoveConstruct(w: World, dst: ObjId, src: ObjId): (r: World)
    requires dst !in w.live && src in w.live
    ensures r.destroyed == w.destroyed + [Null]
    ensures dst in r.live && r.live[dst] == w.live[src]
    ensures src in r.live && r.live[src] == Empty
    ensures r.live.Keys == w.live.Keys + {dst}
    ensures forall a :: a in w.live && a != src ==> r.live[a] == w.live[a]
    ensures r.adopted == w.adopted && r.relinquished == w.relinquished
  {
    MoveAssign(w.(live := w.live[dst := Wrapper(Null, true)]), dst, src)
  }

  /** `~resource()` (resource.hpp:37-40): destroys exactly when the flag is set. */
  function Destruct(w: World, id: ObjId): (r: World)
    requires id in w.live
    ensures id !in r.live
    ensures r.destroyed == w.destroyed + (if w.live[id].owns then [w.live[id].handle] else [])
    ensures r.live.Keys == w.live.Keys - {id}
    ensures forall a :: a in w.live && a != id ==> r.live[a] == w.live[a]
    ensures r.adopted == w.adopted && r.relinquished == w.relinquished
  {
    var w1 := if w.live[id].owns then CallDestroy(w, w.live[id].handle) else w;
    w1.(live := w1.live - {id})
  }

  /** The public setter `cleanup(bool)` (resource.hpp:43). */
  function SetCleanup(w: World, id: ObjId, v: bool): (r: World)
    requires id in w.live
    ensures id in r.live && r.live[id].owns == v && r.live[id].handle == w.live[id].handle
    ensures r.destroyed == w.destroyed
    ensures r.live.Keys == w.live.Keys
    ensures forall a :: a in w.live && a != id ==> r.live[a] == w.live[a]
    ensures r.adopted == w.adopted
    ensures w.relinquished <= r.relinquished && r.relinquished - w.relinquished <= {w.live[id].handle}
    ensures r.relinquished != w.relinquished ==> w.live[id].owns && !v
  {
    var cur := w.live[id];
    var w1 := if cur.owns && !v && cur.handle.Real?
              then w.(relinquished := w.relinquished + {cur.handle}) else w;
    w1.(live := w1.live[id := cur.(owns := v)])
  }

  // ---------------------------------------------------------------------------
  // The ownership invariant

  /** Every real handle appears at most once in the destroy log. */
  predicate DestroyedAtMostOnce(d: seq<Handle>) {
    forall i, j :: 0 <= i < j < |d| && d[i].Real? ==> d[i] != d[j]
  }

  /** At most one live wrapper owns a given real handle. */
  ghost predicate UniqueOwners(w: World) {
    forall a: ObjId, b: ObjId, h: Handle :: h.Real? && Owns(w, a, h) && Owns(w, b, h) ==> a == b
  }

  /** An owned real handle was adopted, is not handed off and is not destroyed yet. */
  ghost predicate OwnedAreAlive(w: World) {
    forall a: ObjId, h: Handle :: h.Real? && Owns(w, a, h) ==>
      h in w.adopted && h !in w.relinquished && h !in w.destroyed
  }

  /** A destroyed real handle was adopted and not handed off. */
  ghost predicate DestroyedAccounted(w: World) {
    forall h :: h in w.destroyed && h.Real? ==> h in w.adopted && h !in w.relinquished
  }

  ghost predicate BookkeepingReal(w: World) {
    (forall h :: h in w.adopted ==> h.Real?) && w.relinquished <= w.adopted
  }

  /** No leak: every adopted handle is owned by a live wrapper, destroyed, or handed off. */
  ghost predicate NoLeak(w: World) {
    forall h :: h in w.adopted ==>
      h in w.relinquished || h in w.destroyed || exists a :: Owns(w, a, h)
  }

  ghost predicate Inv(w: World) {
    && UniqueOwners(w)
    && OwnedAreAlive(w)
    && DestroyedAtMostOnce(w.destroyed)
    && DestroyedAccounted(w)
    && BookkeepingReal(w)
    && NoLeak(w)
  }

  /** A handle coming fresh from a create call: null, or never wrapped before. */
  predicate Fresh(w: World, h: Handle) {
    h == Null || h !in w.adopted
  }

  lemma StartInv()
    ensures Inv(Start)
  {
  }

  lemma DefaultConstructKeepsInv(w: World, id: ObjId)
    requires Inv(w) && id !in w.live
    ensures Inv(DefaultConstruct(w, id))
  {
    var r := DefaultConstruct(w, id);
    forall a: ObjId, h: Handle | Owns(r, a, h) && h.Real?
      ensures Owns(w, a, h)
    {
      assert a != id;
    }
    forall h | h in r.adopted
      ensures h in r.relinquished || h in r.destroyed || exists a :: Owns(r, a, h)
    {
      if h !in w.relinquished && h !in w.destroyed {
        var a :| Owns(w, a, h);
        assert Owns(r, a, h);
      }
    }
  }

  lemma ConstructFromKeepsInv(w: World, id: ObjId, h: Handle)
    requires Inv(w) && id !in w.live && Fresh(w, h)
    ensures Inv(ConstructFrom(w, id, h))
  {
    var r := ConstructFrom(w, id, h);
    forall a: ObjId, g: Handle | Owns(r, a, g) && g.Real? && a != id
      ensures Owns(w, a, g)
    {
    }
    forall g | g in r.adopted
      ensures g in r.relinquished || g in r.destroyed || exists a :: Owns(r, a, g)
    {
      if g == h {
        assert Owns(r, id, g);
      } else if g !in w.relinquished && g !in w.destroyed {
        var a :| Owns(w, a, g);
        assert Owns(r, a, g);
      }
    }
  }

  lemma ReleaseKeepsInv(w: World, id: ObjId)
    requires Inv(w) && id in w.live
    ensures Inv(Release(w, id).1)
  {
    var r := Release(w, id).1;
    var c := w.live[id];
    assert c.owns && c.handle.Real? ==> Owns(w, id, c.handle);
    forall a: ObjId, g: Handle | Owns(r, a, g) && g.Real?
      ensures Owns(w, a, g) && a != id
    {
    }
    forall g | g in r.adopted
      ensures g in r.relinquished || g in r.destroyed || exists a :: Owns(r, a, g)
    {
      if g !in w.relinquished && g !in w.destroyed {
        var a :| Owns(w, a, g);
        if a != id {
          assert Owns(r, a, g);
        } else {
          assert g in r.relinquished;
        }
      }
    }
    assert BookkeepingReal(r) by {
      if c.owns && c.handle.Real? {
        assert Owns(w, id, c.handle);
      }
    }
  }

  /** Where the owner `a` of the world after a move-assignment sat before it. */
  function MovedFrom(a: ObjId, dst: ObjId, src: ObjId): ObjId {
    if a == dst then src else a
  }

  lemma MoveAssignKeepsInv(w: World, dst: ObjId, src: ObjId)
    requires Inv(w) && dst in w.live && src in w.live
    ensures Inv(MoveAssign(w, dst, src))
  {
    if dst != src {
      var r := MoveAssign(w, dst, src);
      var d := w.live[dst];
      assert forall h :: h in r.destroyed ==> h in w.destroyed || (d.owns && h == d.handle);
      assert d.owns && d.handle.Real? ==> Owns(w, dst, d.handle);
      forall a: ObjId, h: Handle | Owns(r, a, h) && h.Real?
        ensures Owns(w, MovedFrom(a, dst, src), h) && a != src
      {
      }
      forall a: ObjId, h: Handle | h.Real? && Owns(r, a, h)
        ensures h in r.adopted && h !in r.relinquished && h !in r.destroyed
      {
        assert Owns(w, MovedFrom(a, dst, src), h);
      }
      forall a: ObjId, b: ObjId, h: Handle | h.Real? && Owns(r, a, h) && Owns(r, b, h)
        ensures a == b
      {
        assert Owns(w, MovedFrom(a, dst, src), h) && Owns(w, MovedFrom(b, dst, src), h);
      }
      forall g | g in r.adopted
        ensures g in r.relinquished || g in r.destroyed || exists a :: Owns(r, a, g)
      {
        if g !in w.relinquished && g !in w.destroyed {
          var a :| Owns(w, a, g);
          if a == dst {
            assert g in r.destroyed;
          } else if a == src {
            assert Owns(r, dst, g);
          } else {
            assert Owns(r, a, g);
          }
        }
      }
      assert DestroyedAtMostOnce(r.destroyed) by {
        if d.owns && d.handle.Real? {
          assert Owns(w, dst, d.handle);
        }
      }
    }
  }

  lemma MoveConstructKeepsInv(w: World, dst: ObjId, src: ObjId)
    requires Inv(w) && dst !in w.live && src in w.live
    ensures Inv(MoveConstruct(w, dst, src))
  {
    var w0 := w.(live := w.live[dst := Wrapper(Null, true)]);
    forall a: ObjId, h: Handle | Owns(w0, a, h) && h.Real?
      ensures Owns(w, a, h)
    {
    }
    forall g | g in w0.adopted
      ensures g in w0.relinquished || g in w0.destroyed || exists a :: Owns(w0, a, g)
    {
      if g !in w.relinquished && g !in w.destroyed {
        var a :| Owns(w, a, g);
        assert Owns(w0, a, g);
      }
    }
    assert Inv(w0);
    MoveAssignKeepsInv(w0, dst, src);
  }

  lemma DestructKeepsInv(w: World, id: ObjId)
    requires Inv(w) && id in w.live
    ensures Inv(Destruct(w, id))
  {
    var r := Destruct(w, id);
    var c := w.live[id];
    assert forall h :: h in r.destroyed ==> h in w.destroyed || (c.owns && h == c.handle);
    assert c.owns && c.handle.Real? ==> Owns(w, id, c.handle);
    forall a: ObjId, h: Handle | Owns(r, a, h) && h.Real?
      ensures Owns(w, a, h) && a != id
    {
    }
    forall a: ObjId, h: Handle | h.Real? && Owns(r, a, h)
      ensures h !in r.destroyed
    {
      assert Owns(w, a, h);
    }
    forall g | g in r.adopted
      ensures g in r.relinquished || g in r.destroyed || exists a :: Owns(r, a, g)
    {
      if g !in w.relinquished && g !in w.destroyed {
        var a :| Owns(w, a, g);
        if a == id {
          assert g in r.destroyed;
        } else {
          assert Owns(r, a, g);
        }
      }
    }
    assert DestroyedAtMostOnce(r.destroyed) by {
      if c.owns && c.handle.Real? {
        assert Owns(w, id, c.handle);
      }
    }
  }

  /**
    `cleanup(false)` always keeps the invariant; `cleanup(true)` keeps it when
    the wrapper holds no real handle, which is how the program uses it (the
    GLFW guard, whose handle is always empty).
  */
  lemma SetCleanupKeepsInv(w: World, id: ObjId, v: bool)
    requires Inv(w) && id in w.live
    requires v ==> w.live[id].handle == Null
    ensures Inv(SetCleanup(w, id, v))
  {
    var r := SetCleanup(w, id, v);
    var c := w.live[id];
    assert c.owns && c.handle.Real? ==> Owns(w, id, c.handle);
    forall a: ObjId, h: Handle | Owns(r, a, h) && h.Real?
      ensures Owns(w, a, h)
    {
    }
    forall g | g in r.adopted
      ensures g in r.relinquished || g in r.destroyed || exists a :: Owns(r, a, g)
    {
      if g !in w.relinquished && g !in w.destroyed {
        var a :| Owns(w, a, g);
        if a != id {
          assert Owns(r, a, g);
        }
      }
    }
    assert BookkeepingReal(r) by {
      if c.owns && !v && c.handle.Real? {
        assert Owns(w, id, c.handle);
      }
    }
  }
  // ---------------------------------------------------------------------------
  // Arbitrary sequences of wrapper operations

  datatype Op =
    | OpDefault(id: ObjId)
    | OpConstruct(id: ObjId, h: Handle)
    | OpMoveAssign(dst: ObjId, src: ObjId)
    | OpMoveConstruct(dst: ObjId, src: ObjId)
    | OpRelease(id: ObjId)
    | OpDestruct(id: ObjId)
    | OpSetCleanup(id: ObjId, v: bool)

  /**
    The operations the program issues: they name live objects (and a fresh
    one for constructors), wrap only handles fresh from a create call, and
    set the flag to true only on a wrapper with an empty handle, as the one
    such call does, on the GLFW guard whose handle is always empty
    (initialize.cpp:159, sigil.cpp:1184, glfw_adapter.hpp:9). C++ itself
    allows more: `cleanup(true)` on a wrapper holding a handle, and
    wrapping a handle some wrapper already adopted.
  */
  predicate Enabled(w: World, op: Op) {
    match op
    case OpDefault(id) => id !in w.live
    case OpConstruct(id, h) => id !in w.live && Fresh(w, h)
    case OpMoveAssign(dst, src) => dst in w.live && src in w.live
    case OpMoveConstruct(dst, src) => dst !in w.live && src in w.live
    case OpRelease(id) => id in w.live
    case OpDestruct(id) => id in w.live
    case OpSetCleanup(id, v) => id in w.live && (v ==> w.live[id].handle == Null)
  }

  function Step(w: World, op: Op): World
    requires Enabled(w, op)
  {
    match op
    case OpDefault(id) => DefaultConstruct(w, id)
    case OpConstruct(id, h) => ConstructFrom(w, id, h)
    case OpMoveAssign(dst, src) => MoveAssign(w, dst, src)
    case OpMoveConstruct(dst, src) => MoveConstruct(w, dst, src)
    case OpRelease(id) => Release(w, id).1
    case OpDestruct(id) => Destruct(w, id)
    case OpSetCleanup(id, v) => SetCleanup(w, id, v)
  }

  predicate Runnable(w: World, ops: seq<Op>)
    decreases |ops|
  {
    |ops| == 0 || (Enabled(w, ops[0]) && Runnable(Step(w, ops[0]), ops[1..]))
  }

  function Run(w: World, ops: seq<Op>): World
    requires Runnable(w, ops)
    decreases |ops|
  {
    if |ops| == 0 then w else Run(Step(w, ops[0]), ops[1..])
  }

  lemma StepKeepsInv(w: World, op: Op)
    requires Inv(w) && Enabled(w, op)
    ensures Inv(Step(w, op))
  {
    match op
    case OpDefault(id) => DefaultConstructKeepsInv(w, id);
    case OpConstruct(id, h) => ConstructFromKeepsInv(w, id, h);
    case OpMoveAssign(dst, src) => MoveAssignKeepsInv(w, dst, src);
    case OpMoveConstruct(dst, src) => MoveConstructKeepsInv(w, dst, src);
    case OpRelease(id) => ReleaseKeepsInv(w, id);
    case OpDestruct(id) => DestructKeepsInv(w, id);
    case OpSetCleanup(id, v) => SetCleanupKeepsInv(w, id, v);
  }

  /** Every step only appends to the destroy log. */
  lemma StepExtendsLog(w: World, op: Op)
    requires Enabled(w, op)
    ensures |Step(w, op).destroyed| >= |w.destroyed|
    ensures Step(w, op).destroyed[..|w.destroyed|] == w.destroyed
  {
  }

  /** A whole run only appends to the destroy log: the earlier log stays a prefix. */
  lemma {:induction false} RunExtendsLog(w: World, ops: seq<Op>)
    requires Runnable(w, ops)
    ensures |Run(w, ops).destroyed| >= |w.destroyed|
    ensures Run(w, ops).destroyed[..|w.destroyed|] == w.destroyed
    decreases |ops|
  {
    if |ops| > 0 {
      var next := Step(w, ops[0]);
      StepExtendsLog(w, ops[0]);
      RunExtendsLog(next, ops[1..]);
      var log := Run(next, ops[1..]).destroyed;
      assert log[..|next.destroyed|] == next.destroyed;
      assert log[..|w.destroyed|] == next.destroyed[..|w.destroyed|];
    }
  }

  /**
    Whatever sequence of constructions, moves, releases and destructions runs
    from the empty world, no real handle is destroyed twice, and no adopted
    handle is lost: each is still owned by exactly one live wrapper, or was
    destroyed, or was handed off.
  */
  lemma {:induction false} RunKeepsInv(w: World, ops: seq<Op>)
    requires Inv(w) && Runnable(w, ops)
    ensures Inv(Run(w, ops))
    ensures DestroyedAtMostOnce(Run(w, ops).destroyed)
    decreases |ops|
  {
    if |ops| > 0 {
      StepKeepsInv(w, ops[0]);
      RunKeepsInv(Step(w, ops[0]), ops[1..]);
    }
  }

  lemma AtMostOnceFromStart(ops: seq<Op>)
    requires Runnable(Start, ops)
    ensures DestroyedAtMostOnce(Run(Start, ops).destroyed)
  {
    StartInv();
    RunKeepsInv(Start, ops);
  }

  /**
    At teardown, once no wrapper is alive, every handle that was ever wrapped
    has been destroyed exactly once or explicitly handed off.
  */
  lemma TeardownAccountsForAll(w: World, h: Handle)
    requires Inv(w) && w.live == map[] && h in w.adopted
    ensures h in w.destroyed <==> h !in w.relinquished
  {
  }

  // ---------------------------------------------------------------------------
  // Single-object facts

  /** A default-constructed wrapper never calls `destroy()` when it dies. */
  lemma DefaultDestructsNothing(w: World, id: ObjId)
    requires id !in w.live
    ensures Destruct(DefaultConstruct(w, id), id).destroyed == w.destroyed
  {
  }

  /** A wrapper built from a raw handle destroys exactly that handle when it dies. */
  lemma ConstructedDestructsOnce(w: World, id: ObjId, h: Handle)
    requires id !in w.live
    ensures Destruct(ConstructFrom(w, id, h), id).destroyed == w.destroyed + [h]
  {
  }

  /**
    The replacement idiom `x = resource{h}` used for every handle in the
    program: a temporary is built, move-assigned into `x` and destroyed. The
    old handle of `x` is destroyed if `x` owned it, `x` ends up owning `h`, and
    the temporary's destructor destroys nothing.
  */
  lemma ReplaceViaTemporary(w: World, x: ObjId, tmp: ObjId, h: Handle)
    requires x in w.live && tmp !in w.live
    ensures var r := Destruct(MoveAssign(ConstructFrom(w, tmp, h), x, tmp), tmp);
      && Owns(r, x, h)
      && r.destroyed == w.destroyed + (if w.live[x].owns then [w.live[x].handle] else [])
  {
  }
}
