/** The classes of `opaque.h`: the verified base `IPrivate`, the owning
    pointer `PrivateAutoPtr` and the back-reference base `Private<T>`, in the
    checked build (the sentinel and its assertion present).

    C++'s free store is global; here it is a ghost `FreeStore` object that a
    constructor of an instance registers with and that `delete` updates, with
    the same `Allocate` and `Dispose` as the value model in `Lifecycle`. */
module Opaque {
  import opened Lifecycle

  /** The free store as seen by ownership: which instances are alive, and the
      log of deletions. */
  class FreeStore {
    ghost var heap: Heap<IPrivate>

    constructor ()
      ensures heap == Heap({}, [])
    {
      heap := Heap({}, []);
    }

    /** The caller's own `delete o`: deleting an object that is no longer
        alive is undefined; no sentinel is checked. */
    ghost method Delete(o: IPrivate)
      requires o in heap.live
      modifies this
      ensures heap == Dispose(old(heap), Some(o))
    {
      heap := Dispose(heap, Some(o));
    }
  }

  /** `opaq::IPrivate`: the base of every private instance.  Its verification
      field is a public data member, so any code may write it; no member of
      this library does after the constructor. */
  class IPrivate {
    var verification: bv32

    /** Allocation of a private instance: the constructor writes the sentinel
        and the instance is alive in the free store. */
    constructor (ghost store: FreeStore)
      modifies store
      ensures verification == IPrivateVerification
      ensures store.heap == Allocate(old(store.heap), this)
    {
      verification := IPrivateVerification;
      new;
      store.heap := Allocate(store.heap, this);
    }

    /** `privateInstVerification()`: the sentinel as stored. */
    function PrivateInstVerification(): (v: bv32)
      reads this
      ensures v == verification
    {
      verification
    }
  }

  /** Some(p) for a non-null pointer, None for null. */
  function Held(p: IPrivate?): (r: Option<IPrivate>)
    ensures r.Some? <==> p != null
    ensures r.Some? ==> r.value == p
  {
    if p == null then None else Some(p as IPrivate)
  }

  /** `opaq::PrivateAutoPtr<T>`: the sole owner of one private instance.
      There is no copy constructor and no assignment: ownership moves only by
      `Release`, `Reset` and `Swap`. */
  class PrivateAutoPtr {
    var ptr: IPrivate?
    /** The free store that `delete` acts on. */
    ghost const store: FreeStore

    /** `PrivateAutoPtr(T *p = 0)`: takes p as it is; no sentinel check. */
    constructor (ghost store: FreeStore, p: IPrivate? := null)
      ensures ptr == p && this.store == store
    {
      ptr := p;
      this.store := store;
    }

    /** `reset(T *p = 0)`: checks the held object's sentinel (the assertion
        becomes a precondition), deletes the held object if there is one, and
        then holds p.  Deleting an object that is no longer alive is undefined,
        hence the first precondition.  Nothing guards against p == ptr: then
        the object is deleted and the pointer still holds it. */
    method Reset(p: IPrivate? := null)
      requires ptr != null ==> ptr in store.heap.live
      requires ptr != null ==> ptr.verification == IPrivateVerification
      modifies this, store
      ensures ptr == p
      ensures store.heap == Dispose(old(store.heap), Held(old(ptr)))
    {
      var ip := ptr;
      if ip != null {
        assert ip.PrivateInstVerification() == IPrivateVerification;
        store.heap := Dispose(store.heap, Some(ip));
      }
      ptr := p;
    }

    /** `~PrivateAutoPtr()`: exactly `reset()`. */
    method Destroy()
      requires ptr != null ==> ptr in store.heap.live
      requires ptr != null ==> ptr.verification == IPrivateVerification
      modifies this, store
      ensures ptr == null
      ensures store.heap == Dispose(old(store.heap), Held(old(ptr)))
    {
      Reset();
    }

    /** `operator*`: the pointee; dereferencing null is undefined. */
    function Deref(): (r: IPrivate)
      reads this
      requires ptr != null
      ensures r == ptr
    {
      ptr
    }

    /** `operator->`: the held pointer. */
    function Arrow(): (r: IPrivate?)
      reads this
      ensures r == ptr
    {
      ptr
    }

    /** `get()`: the held pointer, ownership kept. */
    function Get(): (r: IPrivate?)
      reads this
      ensures r == ptr
    {
      ptr
    }

    /** `getConst()`: the held pointer, read-only. */
    function GetConst(): (r: IPrivate?)
      reads this
      ensures r == ptr
    {
      ptr
    }

    /** `operator T *()`: the held pointer. */
    function AsPointer(): (r: IPrivate?)
      reads this
      ensures r == ptr
    {
      ptr
    }

    /** `release()`: hands out the held pointer, holds null, deletes nothing.
        The caller now owns the object. */
    method Release() returns (p: IPrivate?)
      modifies this
      ensures p == old(ptr) && ptr == null
      ensures store.heap == old(store.heap)
    {
      p := ptr;
      ptr := null;
    }

    /** `swap(other)`: exchanges the held pointers; nothing is deleted.  A
        program has one free store, which both pointers share. */
    method Swap(other: PrivateAutoPtr)
      requires other.store == store
      modifies this, other
      ensures ptr == old(other.ptr) && other.ptr == old(ptr)
      ensures store.heap == old(store.heap) && other.store.heap == old(other.store.heap)
    {
      ptr, other.ptr := other.ptr, ptr;
    }

    /** `isNull()`. */
    function IsNull(): (b: bool)
      reads this
      ensures b <==> ptr == null
    {
      ptr == null
    }

    /** `isValid()`: non-null and the pointee's sentinel is intact.  It reads
        the pointee, so on a pointer to a deleted object it is undefined. */
    function IsValid(): (b: bool)
      reads this, ptr, store
      requires ptr != null ==> ptr in store.heap.live
      ensures b <==> ptr != null && ptr.verification == IPrivateVerification
    {
      ptr != null && ptr.PrivateInstVerification() == IPrivateVerification
    }
  }

  /** `opaq::Private<T>`: a private instance that can call back into its
      public object.  C++ derives it from `IPrivate`; here the `IPrivate`
      part is the `base` object, which is what an owning pointer holds.  The
      back-reference `self` is a constant: it is never reseated. */
  class Private<T> {
    const self: T
    const base: IPrivate

    /** `Private(T &i)`. */
    constructor (i: T, ghost store: FreeStore)
      modifies store
      ensures self == i
      ensures fresh(base) && base.verification == IPrivateVerification
      ensures store.heap == Allocate(old(store.heap), base)
    {
      self := i;
      base := new IPrivate(store);
    }

    /** `Private(T *i)`: the pointer is dereferenced, so it must not be null. */
    constructor FromPointer(i: Option<T>, ghost store: FreeStore)
      requires i.Some?
      modifies store
      ensures self == i.value
      ensures fresh(base) && base.verification == IPrivateVerification
      ensures store.heap == Allocate(old(store.heap), base)
    {
      self := i.value;
      base := new IPrivate(store);
    }
  }

  /** The class and the value model agree on `reset`: when slot i of w
      stands for `o` (same held pointer, same free store, and w's sentinel of
      the pointee is its verification field), `o.Reset(p)` changes the held
      pointer and the free store exactly as `Step` changes slot i and the
      heap. */
  method ResetAsStep(o: PrivateAutoPtr, p: IPrivate?, ghost w: World<IPrivate>, ghost i: nat)
    requires i < |w.slots| && w.slots[i] == Held(o.ptr) && w.heap == o.store.heap
    requires o.ptr != null ==> o.ptr in o.store.heap.live && o.ptr.verification == IPrivateVerification
    requires o.ptr != null ==> o.ptr in w.sentinel && w.sentinel[o.ptr] == o.ptr.verification
    modifies o, o.store
    ensures Step(w, Reset(i, Held(p))) == Ok(w.(slots := w.slots[i := Held(o.ptr)], heap := o.store.heap))
  {
    o.Reset(p);
  }

  /** The same agreement for `release()`: the free store is untouched and
      slot i becomes null. */
  method ReleaseAsStep(o: PrivateAutoPtr, ghost w: World<IPrivate>, ghost i: nat) returns (q: IPrivate?)
    requires i < |w.slots| && w.slots[i] == Held(o.ptr) && w.heap == o.store.heap
    modifies o
    ensures Held(q) == w.slots[i]
    ensures Step(w, Release(i)) == Ok(w.(slots := w.slots[i := Held(o.ptr)], heap := o.store.heap))
  {
    q := o.Release();
  }

  /** The same agreement for `swap`: slots i and j exchange what they hold. */
  method SwapAsStep(a: PrivateAutoPtr, b: PrivateAutoPtr, ghost w: World<IPrivate>, ghost i: nat, ghost j: nat)
    requires a.store == b.store
    requires i < |w.slots| && j < |w.slots| && w.heap == a.store.heap
    requires w.slots[i] == Held(a.ptr) && w.slots[j] == Held(b.ptr)
    modifies a, b
    ensures Step(w, Swap(i, j)) == Ok(w.(slots := w.slots[i := Held(a.ptr)][j := Held(b.ptr)], heap := a.store.heap))
  {
    a.Swap(b);
  }

  /** Construct X, `reset(Y)`: one deletion, of X, and the pointer holds Y. */
  method ResetScenario()
  {
    var store := new FreeStore();
    var x := new IPrivate(store);
    var y := new IPrivate(store);
    var o := new PrivateAutoPtr(store, x);
    o.Reset(y);
    assert store.heap.destroyed == [x] && o.Get() == y;
    assert y in store.heap.live && o.IsValid();
    o.Destroy();
    assert store.heap.destroyed == [x, y] && o.IsNull();
  }

  /** Construct X, `release()`, scope exit: X is handed back and never deleted. */
  method ReleaseScenario()
  {
    var store := new FreeStore();
    var x := new IPrivate(store);
    var o := new PrivateAutoPtr(store, x);
    var p := o.Release();
    assert p == x && o.IsNull();
    o.Destroy();
    assert store.heap.destroyed == [] && x in store.heap.live;
  }

  /** Construct X, `delete o.release()`: the caller deletes X, once, and the
      destructor then deletes nothing. */
  method ReleaseDeleteScenario()
  {
    var store := new FreeStore();
    var x := new IPrivate(store);
    var o := new PrivateAutoPtr(store, x);
    var p := o.Release();
    store.Delete(p);
    o.Destroy();
    assert store.heap.destroyed == [x] && x !in store.heap.live;
  }

  /** Swapping twice restores both owners. */
  method SwapScenario()
  {
    var store := new FreeStore();
    var x := new IPrivate(store);
    var a := new PrivateAutoPtr(store, x);
    var b := new PrivateAutoPtr(store);
    a.Swap(b);
    assert a.IsNull() && b.Get() == x;
    a.Swap(b);
    assert a.Get() == x && b.IsNull() && store.heap.destroyed == [];
  }

  /** Overwriting the sentinel makes `isValid()` false; `reset` would then
      fail its precondition, the assertion of the checked build. */
  method OverwriteScenario()
  {
    var store := new FreeStore();
    var x := new IPrivate(store);
    var o := new PrivateAutoPtr(store, x);
    assert o.IsValid();
    x.verification := 0;
    assert !o.IsValid();
  }

  /** `reset(get())`: the object is deleted while still held, so the
      precondition of the next `reset` (or the destructor) is not met. */
  method SelfResetScenario()
  {
    var store := new FreeStore();
    var x := new IPrivate(store);
    var o := new PrivateAutoPtr(store, x);
    o.Reset(o.Get());
    assert o.Get() == x && x !in store.heap.live;
  }

  /** A private instance with a back-reference to its public object `pub`,
      owned by that object's owning pointer. */
  method PrivateScenario<T>(pub: T)
  {
    var store := new FreeStore();
    var inst := new Private(pub, store);
    var d := new PrivateAutoPtr(store, inst.base);
    assert d.IsValid() && inst.self == pub;
    d.Destroy();
    assert store.heap.destroyed == [inst.base];
  }
}
