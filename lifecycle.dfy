/** The ownership discipline of `opaq::PrivateAutoPtr`, stated on values.

    A `World` is a snapshot of a program that uses the library: the owning
    pointers that exist (each one's held `ptr`, by index), the free store (which
    private instances are alive, and every deletion so far, in order), and the
    sentinel field of every instance ever allocated.  `Step` gives the effect of
    one library operation, `Run` that of a trace of them.  The lemmas show that a
    program that keeps the library's caller contract never deletes an object
    twice, never trips the sentinel assertion, and destroys every owned object
    exactly once when its owning pointers go out of scope, while a released
    object is left alone until an owning pointer is handed it again.

    The object type `O` is left abstract: identities are compared, never
    dereferenced, and an identity is never handed out twice by the allocator. */
module Lifecycle {

  /** `OPAQ_IPRIVATE_VERIFICATION`: the value every `IPrivate` constructor
      writes into its 32-bit verification field. */
  const IPrivateVerification: bv32 := 0xBEEFDEAD

  datatype Option<T> = None | Some(value: T)

  /** The object a pointer holds, as a sequence of length at most one. */
  function Contents<T>(p: Option<T>): seq<T>
  {
    if p.Some? then [p.value] else []
  }

  /** The free store: the objects alive now and the log of `delete`s. */
  datatype Heap<O> = Heap(live: set<O>, destroyed: seq<O>)

  /** `new`: the object becomes alive. */
  function Allocate<O(==)>(h: Heap<O>, o: O): (r: Heap<O>)
    ensures o in r.live && h.live <= r.live
    ensures r.live - {o} == h.live - {o}
    ensures r.destroyed == h.destroyed
  {
    h.(live := h.live + {o})
  }

  /** What `reset` does to the free store: when a pointer is held, it is
      deleted (it leaves the live set and is appended to the log); a null held
      pointer deletes nothing. */
  function Dispose<O(==)>(h: Heap<O>, held: Option<O>): (r: Heap<O>)
    ensures held.None? ==> r == h
    ensures held.Some? ==> held.value !in r.live && r.live + {held.value} == h.live + {held.value}
    ensures held.Some? ==> h.destroyed <= r.destroyed && |r.destroyed| == |h.destroyed| + 1
  {
    match held
    case None => h
    case Some(o) => Heap(h.live - {o}, h.destroyed + [o])
  }

  /** `reset` of a non-null pointer logs its object exactly one more time. */
  lemma DisposeLogsOnce<O>(h: Heap<O>, o: O)
    ensures multiset(Dispose(h, Some(o)).destroyed)[o] == multiset(h.destroyed)[o] + 1
  {
    assert Dispose(h, Some(o)).destroyed == h.destroyed + [o];
  }

  /** `Dispose` appends the held object, if any, to the deletion log. */
  lemma DisposeAppends<O>(h: Heap<O>, held: Option<O>)
    ensures Dispose(h, held).destroyed == h.destroyed + Contents(held)
  {
    if held.None? {
      assert h.destroyed + [] == h.destroyed;
    }
  }

  datatype World<O> = World(slots: seq<Option<O>>, heap: Heap<O>, sentinel: map<O, bv32>)

  /** A program before anything is allocated. */
  function Empty<O(==)>(): (r: World<O>)
    ensures r.slots == [] && r.heap.destroyed == [] && r.heap.live == {}
    ensures Inv(r) && Intact(r)
  {
    World([], Heap({}, []), map[])
  }

  /** The operations a program performs on instances and owning pointers. */
  datatype Op<O> =
    | New(o: O)                   // allocate a private instance; its constructor writes the sentinel
    | Own(p: Option<O>)           // construct a new owning pointer holding p (null by default)
    | Reset(i: nat, p: Option<O>) // slot i's `reset(p)`; the destructor is `Reset(i, None)`
    | Release(i: nat)             // slot i's `release()`
    | Swap(i: nat, j: nat)        // slot i's `swap(slot j)`
    | Overwrite(o: O, v: bv32)    // any code writing the public verification field of o
    | Delete(o: O)                // the caller's own `delete o`, e.g. of a pointer it got from `release()`

  /** `Aborted` is the failed sentinel assertion of a checked build;
      `Undefined` is a step C++ gives no meaning to: using an owning pointer
      that does not exist, reading or deleting an object that is no longer
      alive, or an allocation that returns an identity used before (reuse of
      a freed address is not modelled). */
  datatype Outcome<O> = Ok(world: World<O>) | Aborted | Undefined

  /** The sentinel of o reads `OPAQ_IPRIVATE_VERIFICATION`. */
  predicate SentinelOk<O(==)>(w: World<O>, o: O)
  {
    o in w.sentinel && w.sentinel[o] == IPrivateVerification
  }

  /** Slot i exists, is non-null and its pointee passes the sentinel check:
      `isValid()`.  It reads the pointee, which must therefore be alive. */
  predicate IsValid<O(==)>(w: World<O>, i: nat)
    requires i < |w.slots| && w.slots[i].Some? ==> w.slots[i].value in w.heap.live
    // a valid pointer is non-null and its pointee's sentinel reads 0xBEEFDEAD
    ensures IsValid(w, i) ==> i < |w.slots| && w.slots[i].Some? && SentinelOk(w, w.slots[i].value)
    // while no sentinel is overwritten, every non-null pointer is valid
    ensures Intact(w) && i < |w.slots| && w.slots[i].Some? ==> IsValid(w, i)
  {
    i < |w.slots| && w.slots[i].Some? && SentinelOk(w, w.slots[i].value)
  }

  /** Some owning pointer holds o. */
  predicate HeldBy<O(==)>(slots: seq<Option<O>>, o: O)
  {
    exists k :: 0 <= k < |slots| && slots[k] == Some(o)
  }

  function Step<O(==)>(w: World<O>, op: Op<O>): (r: Outcome<O>)
    // deletions are never undone, and one step deletes at most one object
    ensures r.Ok? ==> w.heap.destroyed <= r.world.heap.destroyed
    ensures r.Ok? ==> |r.world.heap.destroyed| <= |w.heap.destroyed| + 1
    // only `reset` (and so the destructor) and the caller's own `delete` delete anything
    ensures r.Ok? && !op.Reset? && !op.Delete? ==> r.world.heap.destroyed == w.heap.destroyed
    // the caller's `delete` of a live object deletes exactly it, and checks no sentinel
    ensures op.Delete? ==> (r.Ok? <==> op.o in w.heap.live)
    ensures r.Ok? && op.Delete? ==> r.world.heap == Dispose(w.heap, Some(op.o)) && r.world.slots == w.slots
    // once written by the constructor, a sentinel changes only by an explicit overwrite
    ensures r.Ok? && !op.New? && !op.Overwrite? ==> r.world.sentinel == w.sentinel
    // construction writes 0xBEEFDEAD into the new object's sentinel, and only there
    ensures r.Ok? && op.New? ==>
      op.o in r.world.heap.live && r.world.sentinel == w.sentinel[op.o := IPrivateVerification]
    // the assertion fires only in `reset`, on a live pointee whose sentinel is wrong
    ensures r.Aborted? <==>
      op.Reset? && op.i < |w.slots| && w.slots[op.i].Some? &&
      w.slots[op.i].value in w.heap.live && !SentinelOk(w, w.slots[op.i].value)
  {
    match op
    case New(o) =>
      if o in w.sentinel then Undefined
      else Ok(w.(heap := Allocate(w.heap, o), sentinel := w.sentinel[o := IPrivateVerification]))
    case Own(p) =>
      Ok(w.(slots := w.slots + [p]))
    case Reset(i, p) =>
      if i >= |w.slots| then Undefined
      else
        var held := w.slots[i];
        if held.Some? && held.value !in w.heap.live then Undefined
        else if held.Some? && !SentinelOk(w, held.value) then Aborted
        else Ok(w.(slots := w.slots[i := p], heap := Dispose(w.heap, held)))
    case Release(i) =>
      if i >= |w.slots| then Undefined
      else Ok(w.(slots := w.slots[i := None]))
    case Swap(i, j) =>
      if i >= |w.slots| || j >= |w.slots| then Undefined
      else Ok(w.(slots := w.slots[i := w.slots[j]][j := w.slots[i]]))
    case Overwrite(o, v) =>
      if o !in w.heap.live then Undefined
      else Ok(w.(sentinel := w.sentinel[o := v]))
    case Delete(o) =>
      if o !in w.heap.live then Undefined
      else Ok(w.(heap := Dispose(w.heap, Some(o))))
  }

  /** The trace ops from w, stopping at the first step that does not end `Ok`. */
  function Run<O(==)>(w: World<O>, ops: seq<Op<O>>): (r: Outcome<O>)
    ensures r.Ok? ==> w.heap.destroyed <= r.world.heap.destroyed
    ensures r.Ok? ==> |r.world.heap.destroyed| <= |w.heap.destroyed| + |ops|
    decreases |ops|
  {
    if ops == [] then Ok(w)
    else
      match Step(w, ops[0])
      case Ok(w') => Run(w', ops[1..])
      case Aborted => Aborted
      case Undefined => Undefined
  }

  /** No object occurs twice in s. */
  predicate NoDuplicates<O(==)>(s: seq<O>)
  {
    forall a, b :: 0 <= a < b < |s| ==> s[a] != s[b]
  }

  /** The ownership invariant: every held object is alive, no two owning
      pointers hold the same object, no object was deleted twice, a deleted
      object is not alive, and every object alive or deleted was allocated. */
  predicate Inv<O(==)>(w: World<O>)
  {
    && (forall k :: 0 <= k < |w.slots| && w.slots[k].Some? ==> w.slots[k].value in w.heap.live)
    && (forall k, m :: 0 <= k < m < |w.slots| && w.slots[k].Some? ==> w.slots[k] != w.slots[m])
    && NoDuplicates(w.heap.destroyed)
    && (forall a :: 0 <= a < |w.heap.destroyed| ==>
          w.heap.destroyed[a] !in w.heap.live && w.heap.destroyed[a] in w.sentinel)
    && (forall o :: o in w.heap.live ==> o in w.sentinel)
  }

  /** No live object has had its sentinel overwritten. */
  predicate Intact<O(==)>(w: World<O>)
  {
    forall o :: o in w.heap.live ==> SentinelOk(w, o)
  }

  /** p may be handed to an owning pointer: null, or alive and owned by no one
      (freshly allocated, or released earlier).  This excludes `reset(get())`. */
  predicate Adoptable<O(==)>(w: World<O>, p: Option<O>)
  {
    p.Some? ==> p.value in w.heap.live && !HeldBy(w.slots, p.value)
  }

  /** The caller contract of the library for one operation. */
  predicate Allowed<O(==)>(w: World<O>, op: Op<O>)
    // the contract never writes a sentinel
    ensures Allowed(w, op) ==> !op.Overwrite?
    // an allocation returns an identity never used before
    ensures Allowed(w, op) && op.New? ==> op.o !in w.sentinel
    // every operation names owning pointers that exist
    ensures Allowed(w, op) && (op.Reset? || op.Release?) ==> op.i < |w.slots|
    ensures Allowed(w, op) && op.Swap? ==> op.i < |w.slots| && op.j < |w.slots|
    // no `reset(get())`: a pointer is never handed the object it holds
    ensures Allowed(w, op) && op.Reset? && op.p.Some? ==> w.slots[op.i] != op.p
    // what an owning pointer is handed is alive and owned by no one else
    ensures Allowed(w, op) && (op.Own? || op.Reset?) && op.p.Some? ==>
      op.p.value in w.heap.live && forall k :: 0 <= k < |w.slots| ==> w.slots[k] != op.p
    // the caller deletes only a live object that no owning pointer holds
    ensures Allowed(w, op) && op.Delete? ==>
      op.o in w.heap.live && forall k :: 0 <= k < |w.slots| ==> w.slots[k] != Some(op.o)
  {
    match op
    case New(o) => o !in w.sentinel
    case Own(p) => Adoptable(w, p)
    case Reset(i, p) => i < |w.slots| && Adoptable(w, p)
    case Release(i) => i < |w.slots|
    case Swap(i, j) => i < |w.slots| && j < |w.slots|
    case Overwrite(_, _) => false
    case Delete(o) => o in w.heap.live && !HeldBy(w.slots, o)
  }

  /** Every operation of ops is allowed in the world it is applied to. */
  predicate Follows<O(==)>(w: World<O>, ops: seq<Op<O>>)
    decreases |ops|
  {
    ops == [] || (Allowed(w, ops[0]) && (Step(w, ops[0]).Ok? ==> Follows(Step(w, ops[0]).world, ops[1..])))
  }

  lemma AllowedResetIsSafe<O>(w: World<O>, i: nat, p: Option<O>)
    requires Inv(w) && Intact(w) && Allowed(w, Reset(i, p))
    ensures Step(w, Reset(i, p)).Ok?
    ensures Inv(Step(w, Reset(i, p)).world) && Intact(Step(w, Reset(i, p)).world)
  {
    var w' := Step(w, Reset(i, p)).world;
    var held := w.slots[i];
    forall k, m | 0 <= k < m < |w'.slots| && w'.slots[k].Some?
      ensures w'.slots[k] != w'.slots[m]
    {
      if k != i && m != i {
        assert w'.slots[k] == w.slots[k] && w'.slots[m] == w.slots[m];
      } else if k == i {
        assert w'.slots[m] == w.slots[m];
      } else {
        assert w'.slots[k] == w.slots[k];
      }
    }
    forall k | 0 <= k < |w'.slots| && w'.slots[k].Some?
      ensures w'.slots[k].value in w'.heap.live
    {
      if k != i {
        assert w'.slots[k] == w.slots[k];
        if held.Some? {
          assert w.slots[k] != w.slots[i] by {
            if k < i { } else { }
          }
        }
      }
    }
  }

  lemma AllowedSwapIsSafe<O>(w: World<O>, i: nat, j: nat)
    requires Inv(w) && Intact(w) && Allowed(w, Swap(i, j))
    ensures Step(w, Swap(i, j)).Ok?
    ensures Inv(Step(w, Swap(i, j)).world) && Intact(Step(w, Swap(i, j)).world)
  {
    var s := w.slots;
    var s' := Step(w, Swap(i, j)).world.slots;
    // the permutation of indices that the swap applies
    assert forall k :: 0 <= k < |s| ==> s'[k] == s[if k == i then j else if k == j then i else k];
    forall k, m | 0 <= k < m < |s'| && s'[k].Some?
      ensures s'[k] != s'[m]
    {
      var k0 := if k == i then j else if k == j then i else k;
      var m0 := if m == i then j else if m == j then i else m;
      assert k0 != m0;
      if k0 < m0 { } else { }
    }
  }

  lemma AllowedNewIsSafe<O>(w: World<O>, o: O)
    requires Inv(w) && Intact(w) && Allowed(w, New(o))
    ensures Step(w, New(o)).Ok?
    ensures Inv(Step(w, New(o)).world) && Intact(Step(w, New(o)).world)
  {
  }

  lemma AllowedOwnIsSafe<O>(w: World<O>, p: Option<O>)
    requires Inv(w) && Intact(w) && Allowed(w, Own(p))
    ensures Step(w, Own(p)).Ok?
    ensures Inv(Step(w, Own(p)).world) && Intact(Step(w, Own(p)).world)
  {
    var s' := Step(w, Own(p)).world.slots;
    forall k, m | 0 <= k < m < |s'| && s'[k].Some?
      ensures s'[k] != s'[m]
    {
      if m == |w.slots| {
        assert s'[k] == w.slots[k];
      }
    }
  }

  lemma AllowedReleaseIsSafe<O>(w: World<O>, i: nat)
    requires Inv(w) && Intact(w) && Allowed(w, Release(i))
    ensures Step(w, Release(i)).Ok?
    ensures Inv(Step(w, Release(i)).world) && Intact(Step(w, Release(i)).world)
  {
  }

  lemma AllowedDeleteIsSafe<O>(w: World<O>, o: O)
    requires Inv(w) && Intact(w) && Allowed(w, Delete(o))
    ensures Step(w, Delete(o)).Ok?
    ensures Inv(Step(w, Delete(o)).world) && Intact(Step(w, Delete(o)).world)
  {
    var w' := Step(w, Delete(o)).world;
    forall a, b | 0 <= a < b < |w'.heap.destroyed|
      ensures w'.heap.destroyed[a] != w'.heap.destroyed[b]
    {
      if b == |w.heap.destroyed| {
        assert w'.heap.destroyed[a] == w.heap.destroyed[a];
      } else {
        assert w'.heap.destroyed[a] == w.heap.destroyed[a] && w'.heap.destroyed[b] == w.heap.destroyed[b];
      }
    }
    forall k | 0 <= k < |w'.slots| && w'.slots[k].Some?
      ensures w'.slots[k].value in w'.heap.live
    {
      assert w.slots[k] != Some(o);
    }
  }

  /** One allowed operation keeps the invariant, keeps every sentinel intact
      and never aborts or leaves C++'s defined behaviour. */
  lemma AllowedStepIsSafe<O>(w: World<O>, op: Op<O>)
    requires Inv(w) && Intact(w) && Allowed(w, op)
    ensures Step(w, op).Ok?
    ensures Inv(Step(w, op).world) && Intact(Step(w, op).world)
  {
    match op
    case New(o) => AllowedNewIsSafe(w, o);
    case Own(p) => AllowedOwnIsSafe(w, p);
    case Reset(i, p) => AllowedResetIsSafe(w, i, p);
    case Release(i) => AllowedReleaseIsSafe(w, i);
    case Swap(i, j) => AllowedSwapIsSafe(w, i, j);
    case Delete(o) => AllowedDeleteIsSafe(w, o);
  }

  /** A whole trace that keeps the caller contract runs to completion: no
      assertion failure, no undefined step, and the ownership invariant holds
      at the end, so in particular no object has been deleted twice. */
  lemma {:induction false} ContractRunIsSafe<O>(w: World<O>, ops: seq<Op<O>>)
    requires Inv(w) && Intact(w) && Follows(w, ops)
    ensures Run(w, ops).Ok?
    ensures Inv(Run(w, ops).world) && Intact(Run(w, ops).world)
    ensures NoDuplicates(Run(w, ops).world.heap.destroyed)
    decreases |ops|
  {
    if ops != [] {
      AllowedStepIsSafe(w, ops[0]);
      ContractRunIsSafe(Step(w, ops[0]).world, ops[1..]);
    }
  }

  /** Starting from nothing, any program that keeps the caller contract
      deletes every object at most once, and every held pointer is valid. */
  lemma ProgramNeverDeletesTwice<O>(ops: seq<Op<O>>)
    requires Follows(Empty<O>(), ops)
    ensures Run(Empty<O>(), ops).Ok?
    ensures NoDuplicates(Run(Empty<O>(), ops).world.heap.destroyed)
    ensures Inv(Run(Empty<O>(), ops).world)
    ensures forall k :: 0 <= k < |Run(Empty<O>(), ops).world.slots| && Run(Empty<O>(), ops).world.slots[k].Some? ==>
        IsValid(Run(Empty<O>(), ops).world, k)
  {
    ContractRunIsSafe(Empty<O>(), ops);
  }

  /** The objects held by slots, last slot first: the order in which scope
      exit destroys them. */
  function Owned<O(==)>(slots: seq<Option<O>>): (r: seq<O>)
    ensures |r| <= |slots|
    ensures forall o :: o in r ==> HeldBy(slots, o)
    decreases |slots|
  {
    if slots == [] then []
    else
      var last := slots[|slots| - 1];
      Contents(last) + Owned(slots[..|slots| - 1])
  }

  lemma {:induction false} HeldIsOwned<O>(slots: seq<Option<O>>, o: O)
    requires HeldBy(slots, o)
    ensures o in Owned(slots)
    decreases |slots|
  {
    var k :| 0 <= k < |slots| && slots[k] == Some(o);
    if k < |slots| - 1 {
      assert slots[..|slots| - 1][k] == Some(o);
      HeldIsOwned(slots[..|slots| - 1], o);
    }
  }

  /** The destructors of owning pointers 0 .. n-1, in reverse order of
      construction, as C++ runs them at scope exit. */
  function EndScope<O(==)>(n: nat): (ops: seq<Op<O>>)
    ensures |ops| == n
    ensures forall k :: 0 <= k < n ==> ops[k] == Reset(n - 1 - k, None)
  {
    if n == 0 then [] else [Reset(n - 1, None)] + EndScope(n - 1)
  }

  /** Running a trace that starts with op: its first step, then the rest. */
  lemma RunFirst<O>(w: World<O>, ops: seq<Op<O>>)
    requires ops != [] && Step(w, ops[0]).Ok?
    ensures Run(w, ops) == Run(Step(w, ops[0]).world, ops[1..])
  {
  }

  /** The destructor of slot i in a world that keeps the invariant. */
  lemma DestructStep<O>(w: World<O>, i: nat)
    requires Inv(w) && Intact(w) && i < |w.slots|
    ensures Step(w, Reset(i, None)) == Ok(w.(slots := w.slots[i := None], heap := Dispose(w.heap, w.slots[i])))
    ensures Inv(Step(w, Reset(i, None)).world) && Intact(Step(w, Reset(i, None)).world)
  {
    AllowedResetIsSafe(w, i, None);
  }

  /** Nulling slot n-1 leaves the slots before it as they are. */
  lemma ClearedPrefix<O>(s: seq<Option<O>>, n: nat)
    requires 0 < n <= |s|
    ensures s[n - 1 := None][..n - 1] == s[..n - 1]
  {
  }

  lemma AppendAssoc<T>(a: seq<T>, b: seq<T>, c: seq<T>)
    ensures a + b + c == a + (b + c)
  {
  }

  /** Owned of the first n slots: slot n-1's object, if any, then the rest. */
  lemma OwnedPrefix<O>(s: seq<Option<O>>, n: nat)
    requires 0 < n <= |s|
    ensures Owned(s[..n]) == Contents(s[n - 1]) + Owned(s[..n - 1])
  {
    assert s[..n][..n - 1] == s[..n - 1];
  }

  /** The first destructor of a scope exit of n pointers is that of slot n-1. */
  lemma EndScopeUnfold<O>(w: World<O>, n: nat)
    requires Inv(w) && Intact(w) && 0 < n <= |w.slots|
    ensures Run(w, EndScope(n)) == Run(w.(slots := w.slots[n - 1 := None], heap := Dispose(w.heap, w.slots[n - 1])), EndScope(n - 1))
    ensures Inv(w.(slots := w.slots[n - 1 := None], heap := Dispose(w.heap, w.slots[n - 1])))
    ensures Intact(w.(slots := w.slots[n - 1 := None], heap := Dispose(w.heap, w.slots[n - 1])))
    ensures w.slots[n - 1 := None][..n - 1] == w.slots[..n - 1]
  {
    var ops := EndScope<O>(n);
    DestructStep(w, n - 1);
    assert ops[0] == Reset(n - 1, None) && ops[1..] == EndScope(n - 1);
    RunFirst(w, ops);
  }

  /** What the destructors of the first n pointers do when none of them
      fails: slot n-1 first, each nulled and its object disposed. */
  function ClearSlots<O(==)>(w: World<O>, n: nat): (r: World<O>)
    requires n <= |w.slots|
    ensures |r.slots| == |w.slots| && r.sentinel == w.sentinel
    decreases n
  {
    if n == 0 then w
    else ClearSlots(w.(slots := w.slots[n - 1 := None], heap := Dispose(w.heap, w.slots[n - 1])), n - 1)
  }

  /** The destructors of the first n pointers run without failure, end in
      `ClearSlots` and keep the invariant. */
  lemma {:induction false} EndScopeClears<O>(w: World<O>, n: nat)
    requires Inv(w) && Intact(w) && n <= |w.slots|
    ensures Run(w, EndScope(n)) == Ok(ClearSlots(w, n))
    ensures Inv(ClearSlots(w, n)) && Intact(ClearSlots(w, n))
    decreases n
  {
    if n > 0 {
      EndScopeUnfold(w, n);
      EndScopeClears(w.(slots := w.slots[n - 1 := None], heap := Dispose(w.heap, w.slots[n - 1])), n - 1);
    }
  }

  /** Clearing the first n slots nulls exactly those. */
  lemma {:induction false} ClearSlotsNulls<O>(w: World<O>, n: nat)
    requires n <= |w.slots|
    ensures forall k :: 0 <= k < n ==> ClearSlots(w, n).slots[k] == None
    ensures forall k :: n <= k < |w.slots| ==> ClearSlots(w, n).slots[k] == w.slots[k]
    decreases n
  {
    if n > 0 {
      ClearSlotsNulls(w.(slots := w.slots[n - 1 := None], heap := Dispose(w.heap, w.slots[n - 1])), n - 1);
    }
  }

  /** The destructors of the first n pointers run without failure, null
      exactly those pointers and keep the invariant. */
  lemma EndScopeRuns<O>(w: World<O>, n: nat)
    requires Inv(w) && Intact(w) && n <= |w.slots|
    ensures Run(w, EndScope(n)) == Ok(ClearSlots(w, n))
    ensures Inv(Run(w, EndScope(n)).world) && Intact(Run(w, EndScope(n)).world)
    ensures |Run(w, EndScope(n)).world.slots| == |w.slots|
    ensures forall k :: 0 <= k < n ==> Run(w, EndScope(n)).world.slots[k] == None
    ensures forall k :: n <= k < |w.slots| ==> Run(w, EndScope(n)).world.slots[k] == w.slots[k]
  {
    EndScopeClears(w, n);
    ClearSlotsNulls(w, n);
  }

  /** Clearing the first n slots appends exactly their objects to the
      deletion log. */
  lemma {:induction false} EndScopeLog<O>(w: World<O>, n: nat)
    requires n <= |w.slots|
    ensures ClearSlots(w, n).heap.destroyed == w.heap.destroyed + Owned(w.slots[..n])
    decreases n
  {
    if n > 0 {
      var held := w.slots[n - 1];
      var w1 := w.(slots := w.slots[n - 1 := None], heap := Dispose(w.heap, held));
      EndScopeLog(w1, n - 1);
      ClearedPrefix(w.slots, n);
      OwnedPrefix(w.slots, n);
      DisposeAppends(w.heap, held);
      AppendAssoc(w.heap.destroyed, Contents(held), Owned(w.slots[..n - 1]));
    }
  }

  /** Clearing the first n slots removes exactly their objects from the
      live set. */
  lemma {:induction false} EndScopeLive<O>(w: World<O>, n: nat)
    requires n <= |w.slots|
    ensures forall o :: o in ClearSlots(w, n).heap.live <==> o in w.heap.live && o !in Owned(w.slots[..n])
    decreases n
  {
    if n > 0 {
      var held := w.slots[n - 1];
      var w1 := w.(slots := w.slots[n - 1 := None], heap := Dispose(w.heap, held));
      EndScopeLive(w1, n - 1);
      assert w1.slots[..n - 1] == w.slots[..n - 1];
      var r := ClearSlots(w1, n - 1);
      OwnedPrefix(w.slots, n);
      forall o ensures o in r.heap.live <==> o in w.heap.live && o !in Owned(w.slots[..n]) {
        assert o in Owned(w.slots[..n]) <==> (held.Some? && o == held.value) || o in Owned(w.slots[..n - 1]);
      }
    }
  }

  /** The destructors of the first n pointers append exactly their objects
      to the deletion log and remove exactly those from the live set. */
  lemma EndScopePrefix<O>(w: World<O>, n: nat)
    requires Inv(w) && Intact(w) && n <= |w.slots|
    ensures Run(w, EndScope(n)).Ok?
    ensures Run(w, EndScope(n)).world.heap.destroyed == w.heap.destroyed + Owned(w.slots[..n])
    ensures forall o :: o in Run(w, EndScope(n)).world.heap.live <==> o in w.heap.live && o !in Owned(w.slots[..n])
  {
    EndScopeRuns(w, n);
    EndScopeLog(w, n);
    EndScopeLive(w, n);
  }

  /** Scope exit of every owning pointer deletes exactly the objects they
      hold, each once, and leaves every other object (in particular a
      released one) alive. */
  lemma ScopeExitDestroysOwned<O>(w: World<O>)
    requires Inv(w) && Intact(w)
    ensures Run(w, EndScope(|w.slots|)).Ok?
    ensures
      var w' := Run(w, EndScope(|w.slots|)).world;
      && (forall k :: 0 <= k < |w'.slots| ==> w'.slots[k] == None)
      && w'.heap.destroyed == w.heap.destroyed + Owned(w.slots)
      && NoDuplicates(w'.heap.destroyed)
      && (forall o :: o in w'.heap.live <==> o in w.heap.live && !HeldBy(w.slots, o))
  {
    EndScopeRuns(w, |w.slots|);
    EndScopePrefix(w, |w.slots|);
    assert w.slots[..|w.slots|] == w.slots;
    forall o | HeldBy(w.slots, o) ensures o in Owned(w.slots) {
      HeldIsOwned(w.slots, o);
    }
  }

  /** A non-null owning pointer's object is destroyed by scope exit exactly
      once: it did not occur in the log before, it does exactly once after. */
  lemma ScopeExitDestroysOnce<O>(w: World<O>, i: nat)
    requires Inv(w) && Intact(w) && i < |w.slots| && w.slots[i].Some?
    ensures Run(w, EndScope(|w.slots|)).Ok?
    ensures w.slots[i].value !in w.heap.destroyed
    ensures multiset(Run(w, EndScope(|w.slots|)).world.heap.destroyed)[w.slots[i].value] == 1
  {
    ScopeExitDestroysOwned(w);
    var o := w.slots[i].value;
    var d' := Run(w, EndScope(|w.slots|)).world.heap.destroyed;
    HeldIsOwned(w.slots, o);
    assert o in d';
    OnceInNoDuplicates(d', o);
  }

  lemma {:induction false} OnceInNoDuplicates<O>(s: seq<O>, o: O)
    requires NoDuplicates(s) && o in s
    ensures multiset(s)[o] == 1
    decreases |s|
  {
    assert s == [s[0]] + s[1..];
    if s[0] == o {
      assert o !in s[1..];
    } else {
      OnceInNoDuplicates(s[1..], o);
    }
  }

  /** `release()` hands the object out and destroys nothing; a later scope
      exit of every owning pointer does not touch it.  Without the release
      the same scope exit destroys it. */
  lemma ReleaseSurvivesScopeExit<O>(w: World<O>, i: nat)
    requires Inv(w) && Intact(w) && i < |w.slots| && w.slots[i].Some?
    ensures Step(w, Release(i)).Ok?
    ensures Step(w, Release(i)).world.heap == w.heap
    ensures
      var w1 := Step(w, Release(i)).world;
      var o := w.slots[i].value;
      && Run(w1, EndScope(|w1.slots|)).Ok?
      && o in Run(w1, EndScope(|w1.slots|)).world.heap.live
      && o !in Run(w1, EndScope(|w1.slots|)).world.heap.destroyed
      && Run(w, EndScope(|w.slots|)).Ok?
      && o in Run(w, EndScope(|w.slots|)).world.heap.destroyed
  {
    var o := w.slots[i].value;
    var w1 := Step(w, Release(i)).world;
    AllowedReleaseIsSafe(w, i);
    ScopeExitDestroysOwned(w);
    forall k | 0 <= k < |w1.slots| ensures w1.slots[k] != Some(o) {
      if k != i {
        if k < i { } else { }
      }
    }
    ScopeExitDestroysOwned(w1);
    HeldIsOwned(w.slots, o);
  }

  /** op hands o to an owning pointer, or is the caller's own `delete o`. */
  predicate Claims<O(==)>(op: Op<O>, o: O)
  {
    ((op.Own? || op.Reset?) && op.p == Some(o)) || (op.Delete? && op.o == o)
  }

  /** An allowed operation that neither hands o to an owning pointer nor
      deletes it keeps an alive, unowned o alive and unowned. */
  lemma UnownedStepKeepsAlive<O>(w: World<O>, op: Op<O>, o: O)
    requires Inv(w) && Intact(w) && Allowed(w, op) && !Claims(op, o)
    requires o in w.heap.live && !HeldBy(w.slots, o)
    ensures Step(w, op).Ok?
    ensures o in Step(w, op).world.heap.live && !HeldBy(Step(w, op).world.slots, o)
  {
    AllowedStepIsSafe(w, op);
    var s := w.slots;
    var s' := Step(w, op).world.slots;
    match op
    case Reset(i, p) =>
      assert s[i] != Some(o);
      forall k | 0 <= k < |s'| ensures s'[k] != Some(o) {
        if k != i { assert s'[k] == s[k]; }
      }
    case Swap(i, j) =>
      forall k | 0 <= k < |s'| ensures s'[k] != Some(o) {
        assert s'[k] == s[if k == i then j else if k == j then i else k];
      }
    case Own(p) =>
      forall k | 0 <= k < |s'| ensures s'[k] != Some(o) {
        if k < |s| { assert s'[k] == s[k]; }
      }
    case Release(i) =>
      forall k | 0 <= k < |s'| ensures s'[k] != Some(o) {
        if k != i { assert s'[k] == s[k]; }
      }
    case New(x) =>
    case Delete(x) =>
  }

  /** A contract-keeping trace that never hands o to an owning pointer and
      never deletes it keeps an alive, unowned o alive and unowned. */
  lemma {:induction false} UnownedStaysAlive<O>(w: World<O>, ops: seq<Op<O>>, o: O)
    requires Inv(w) && Intact(w) && Follows(w, ops)
    requires forall k :: 0 <= k < |ops| ==> !Claims(ops[k], o)
    requires o in w.heap.live && !HeldBy(w.slots, o)
    ensures Run(w, ops).Ok?
    ensures o in Run(w, ops).world.heap.live && !HeldBy(Run(w, ops).world.slots, o)
    ensures Inv(Run(w, ops).world) && Intact(Run(w, ops).world)
    decreases |ops|
  {
    if ops != [] {
      var w1, rest := Step(w, ops[0]).world, ops[1..];
      AllowedStepIsSafe(w, ops[0]);
      UnownedStepKeepsAlive(w, ops[0], o);
      assert Follows(w1, rest);
      forall k | 0 <= k < |rest| ensures !Claims(rest[k], o) {
        assert rest[k] == ops[k + 1];
      }
      UnownedStaysAlive(w1, rest, o);
      RunFirst(w, ops);
    }
  }

  /** After `release()`, any contract-keeping trace that neither hands the
      released object to an owning pointer again nor deletes it, followed by
      the scope exit of every owning pointer, leaves that object alive and
      undeleted: no operation of the library deletes it. */
  lemma ReleasedNeverDeleted<O>(w: World<O>, i: nat, ops: seq<Op<O>>)
    requires Inv(w) && Intact(w) && i < |w.slots| && w.slots[i].Some?
    requires Follows(Step(w, Release(i)).world, ops)
    requires forall k :: 0 <= k < |ops| ==> !Claims(ops[k], w.slots[i].value)
    ensures Run(Step(w, Release(i)).world, ops).Ok?
    ensures
      var w2 := Run(Step(w, Release(i)).world, ops).world;
      && Run(w2, EndScope(|w2.slots|)).Ok?
      && w.slots[i].value in Run(w2, EndScope(|w2.slots|)).world.heap.live
      && w.slots[i].value !in Run(w2, EndScope(|w2.slots|)).world.heap.destroyed
  {
    var o := w.slots[i].value;
    var w1 := Step(w, Release(i)).world;
    AllowedReleaseIsSafe(w, i);
    forall k | 0 <= k < |w1.slots| ensures w1.slots[k] != Some(o) {
      if k != i {
        if k < i { } else { }
      }
    }
    UnownedStaysAlive(w1, ops, o);
    var w2 := Run(w1, ops).world;
    ScopeExitDestroysOwned(w2);
    var w3 := Run(w2, EndScope(|w2.slots|)).world;
    assert Inv(w3) by { EndScopeRuns(w2, |w2.slots|); }
  }

  /** After `release()` the caller is responsible for the object: its own
      `delete` is allowed, deletes exactly that object, and keeps the
      invariant, so the object is deleted once and by the caller alone. */
  lemma ReleasedCallerDeletes<O>(w: World<O>, i: nat)
    requires Inv(w) && Intact(w) && i < |w.slots| && w.slots[i].Some?
    ensures Allowed(Step(w, Release(i)).world, Delete(w.slots[i].value))
    ensures Run(w, [Release(i), Delete(w.slots[i].value)]).Ok?
    ensures
      var w2 := Run(w, [Release(i), Delete(w.slots[i].value)]).world;
      && w2.heap.destroyed == w.heap.destroyed + [w.slots[i].value]
      && w.slots[i].value !in w2.heap.live
      && Inv(w2) && Intact(w2)
  {
    var o := w.slots[i].value;
    var w1 := Step(w, Release(i)).world;
    AllowedReleaseIsSafe(w, i);
    forall k | 0 <= k < |w1.slots| ensures w1.slots[k] != Some(o) {
      if k != i {
        if k < i { } else { }
      }
    }
    AllowedDeleteIsSafe(w1, o);
    var ops := [Release(i), Delete(o)];
    RunFirst(w, ops);
    assert ops[1..] == [Delete(o)];
    RunFirst(w1, ops[1..]);
    assert ops[1..][1..] == [];
  }

  /** The scenario `reset(Y)` on a pointer holding X: exactly one deletion,
      of X, and the pointer then holds Y. */
  lemma ResetDestroysExactlyOne<O>(w: World<O>, i: nat, y: O)
    requires Inv(w) && Intact(w) && i < |w.slots| && w.slots[i].Some?
    ensures Step(w, Reset(i, Some(y))).Ok?
    ensures Step(w, Reset(i, Some(y))).world.heap.destroyed == w.heap.destroyed + [w.slots[i].value]
    ensures Step(w, Reset(i, Some(y))).world.slots[i] == Some(y)
  {
  }

  /** `reset(p)` on a null pointer deletes nothing and stores p. */
  lemma ResetOfNullDestroysNothing<O>(w: World<O>, i: nat, p: Option<O>)
    requires i < |w.slots| && w.slots[i].None?
    ensures Step(w, Reset(i, p)) == Ok(w.(slots := w.slots[i := p]))
  {
  }

  /** Checked build: once some code overwrites the sentinel of a held object,
      the next `reset` of its owner (and so its destructor) fails the
      assertion instead of deleting. */
  lemma OverwrittenSentinelAborts<O>(w: World<O>, i: nat, v: bv32, p: Option<O>)
    requires Inv(w) && i < |w.slots| && w.slots[i].Some? && v != IPrivateVerification
    ensures Run(w, [Overwrite(w.slots[i].value, v), Reset(i, p)]) == Aborted
    ensures !IsValid(Step(w, Overwrite(w.slots[i].value, v)).world, i)
  {
    var ops := [Overwrite(w.slots[i].value, v), Reset(i, p)];
    var w1 := Step(w, ops[0]).world;
    assert ops[1..] == [Reset(i, p)];
    assert Run(w1, ops[1..]) == Step(w1, Reset(i, p));
  }

  /** `reset(get())`: the source does not guard against it.  The object is
      deleted while the owning pointer keeps it, and the next `reset` (or the
      destructor) deletes freed memory.  `Allowed` rules this call out. */
  lemma SelfResetDeletesTwice<O>(w: World<O>, i: nat)
    requires Inv(w) && Intact(w) && i < |w.slots| && w.slots[i].Some?
    ensures !Allowed(w, Reset(i, w.slots[i]))
    ensures Step(w, Reset(i, w.slots[i])).Ok?
    ensures
      var w1 := Step(w, Reset(i, w.slots[i])).world;
      && w1.slots[i] == w.slots[i]
      && w1.slots[i].value !in w1.heap.live
      && Step(w1, Reset(i, None)) == Undefined
  {
    assert w.slots[i] == Some(w.slots[i].value);
  }

  /** `swap` twice restores both slots and never touches the free store. */
  lemma SwapTwiceRestores<O>(w: World<O>, i: nat, j: nat)
    requires i < |w.slots| && j < |w.slots|
    ensures Step(w, Swap(i, j)).Ok? && Step(w, Swap(i, j)).world.heap == w.heap
    ensures Step(Step(w, Swap(i, j)).world, Swap(i, j)) == Ok(w)
  {
    var s := w.slots;
    var t := s[i := s[j]][j := s[i]];
    assert t[i := t[j]][j := t[i]] == s;
  }
}
