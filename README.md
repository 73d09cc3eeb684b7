# opaque: a Dafny model of `opaq::PrivateAutoPtr`

`opaque.h` supports the "opaque private implementation" pattern. A public class
owns exactly one private instance through `opaq::PrivateAutoPtr<T>`: a
non-copyable owning pointer that deletes its instance on `reset` or on its own
destruction, and hands it out without deleting it on `release`. Every private
instance derives from `opaq::IPrivate`. In a checked build, `IPrivate`'s
constructor writes the sentinel `0xBEEFDEAD` into a verification field, and
`reset` asserts that sentinel before it deletes. A private instance that calls
back into its public object derives from `opaq::Private<T>`, which holds a
fixed reference `self` to that object.

The model has two modules.

- `Opaque` (`opaque.dfy`) holds the classes, with the source's own state.
  - `IPrivate` has the field `verification`.
  - `PrivateAutoPtr` has the field `ptr`. Its methods change `ptr` in place.
  - `Private<T>` has the constant `self`.
  - `delete` becomes visible through a ghost `FreeStore` object, Dafny's stand-in
    for C++'s global free store. It records which instances are alive and logs
    every deletion in order. A constructor registers each new instance there, and
    `Reset` and `Destroy` update it, as does the caller's own `delete`
    (`FreeStore.Delete`). A program has one `FreeStore`, which all its owning
    pointers share.
  - The methods `ResetScenario`, `ReleaseScenario`, `ReleaseDeleteScenario`,
    `SwapScenario`, `OverwriteScenario`, `SelfResetScenario` and
    `PrivateScenario` are clients that use only these contracts. They show the
    library's usage scenarios.
  - The methods `ResetAsStep`, `ReleaseAsStep` and `SwapAsStep` tie the two
    modules together. When a `World` slot stands for an owning pointer, the
    class method changes the pointer and the free store exactly as `Step`
    changes that slot and the heap. The trace results below therefore hold for
    programs written with the classes. The tie is stated one operation at a
    time: no function maps a whole heap of objects to a `World`.
- `Lifecycle` (`lifecycle.dfy`) states the same operations on values, for a whole
  program at a time. A `World` holds three things:
  - the owning pointers in existence (`slots`);
  - the free store (`Heap`: live objects and the deletion log);
  - every allocated object's sentinel.

  `Step` is one operation, either of the library or the caller's own `delete`
  of an object (`Delete`), and `Run` is a trace of them. A `reset` whose
  sentinel check fails ends in `Aborted`, the assertion failure of a checked
  build. A step C++ gives no meaning to ends in `Undefined`:
  - deleting or reading an object that is no longer alive;
  - naming an owning pointer that does not exist;
  - an allocation that returns an identity used before. Reuse of a freed
    address is not modelled.

  The classes and the value model share the functions `Allocate` (what `new`
  does to the free store) and `Dispose` (what `reset` and `delete` do to it).
  `Allowed` is the library's caller contract:
  - an object handed to an owning pointer, by its constructor or by `reset`,
    is alive and held by no owning pointer, in particular not by the one being
    reset (never `reset(get())`);
  - `new` returns an identity that was never used before;
  - `reset`, `release` and `swap` name owning pointers that exist;
  - the caller deletes only a live object that no owning pointer holds, such
    as one it got back from `release()`;
  - never write the verification field.

  The lemmas prove five results for every program that keeps this contract:
  - no object is ever deleted twice;
  - no assertion ever fires;
  - scope exit deletes every owned object exactly once;
  - after `release()` the caller may delete the object, and it is then deleted once;
  - no library operation deletes a released object unless an owning pointer is handed it again.

Here the sentinel is the C++ `unsigned int`, a 32-bit word, so it is `bv32`.
The template parameter `T` of `PrivateAutoPtr` becomes `IPrivate`: the library
touches its pointee only through `reinterpret_cast<IPrivate *>`. Pointer
identity stands for the C++ address, and an allocation never returns an
identity that was used before.

## Model

| member | source | states |
|---|---|---|
| `Opaque.IPrivate.constructor` | include/opaque/opaque.h:97-99 | a new instance's verification field is `0xBEEFDEAD`, and the instance becomes alive in the free store |
| `Opaque.IPrivate.PrivateInstVerification` | include/opaque/opaque.h:100 | returns the stored verification field |
| `Opaque.PrivateAutoPtr.constructor` | include/opaque/opaque.h:113 | holds the given pointer, null by default, and checks nothing |
| `Opaque.PrivateAutoPtr.Reset` | include/opaque/opaque.h:121-129 | needs a live held object whose sentinel is `0xBEEFDEAD` (the assertion); deletes the held object once if non-null and nothing if null; then holds p; may touch only itself and the free store, never an instance's verification field |
| `Opaque.PrivateAutoPtr.Destroy` | include/opaque/opaque.h:114 | the destructor: the same precondition and deletion as `reset()`, and then holds null |
| `Opaque.PrivateAutoPtr.Deref` | include/opaque/opaque.h:119 | `operator*` needs a non-null pointer and returns the pointee |
| `Opaque.PrivateAutoPtr.Arrow` | include/opaque/opaque.h:120 | `operator->` returns the held pointer and reads only the pointer's own state |
| `Opaque.PrivateAutoPtr.Get` | include/opaque/opaque.h:130-132 | returns the held pointer and changes nothing |
| `Opaque.PrivateAutoPtr.GetConst` | include/opaque/opaque.h:133-135 | returns the held pointer and changes nothing |
| `Opaque.PrivateAutoPtr.AsPointer` | include/opaque/opaque.h:136-138 | the conversion to `T *` returns the held pointer and changes nothing |
| `Opaque.PrivateAutoPtr.Release` | include/opaque/opaque.h:139-143 | returns the previously held pointer, then holds null, and leaves the free store unchanged |
| `Opaque.PrivateAutoPtr.Swap` | include/opaque/opaque.h:144-146 | between two pointers of the same free store, exchanges the held pointers and deletes nothing |
| `Opaque.PrivateAutoPtr.IsNull` | include/opaque/opaque.h:147-149 | true exactly when the pointer is null |
| `Opaque.PrivateAutoPtr.IsValid` | include/opaque/opaque.h:151-153 | true exactly when the pointer is non-null and the pointee's sentinel is `0xBEEFDEAD`; it reads the pointee, so a non-null pointee must be alive |
| `Opaque.Private.constructor` | include/opaque/opaque.h:171 | `self` is the given public object; the `IPrivate` part is a new instance with its sentinel written; `self` is a constant |
| `Opaque.Private.FromPointer` | include/opaque/opaque.h:172 | the pointer overload needs a non-null pointer and fixes `self` to its target |
| `Lifecycle.Allocate` | include/opaque/opaque.h:97-99 | `new`: the object becomes alive, every other object keeps its liveness, and the deletion log is unchanged |
| `Lifecycle.Dispose` | include/opaque/opaque.h:123-127 | `delete` of a non-null held pointer: its object is no longer alive, every other object keeps its liveness, and the log grows by exactly that one deletion; a null pointer changes nothing |
| `Lifecycle.DisposeLogsOnce` | include/opaque/opaque.h:126 | each `delete` of an object adds exactly one occurrence of it to the deletion log |
| `Lifecycle.IsValid` | include/opaque/opaque.h:151-153 | `isValid()` on a live or null pointee: true only for a non-null pointer whose pointee's sentinel is `0xBEEFDEAD`, and true for every non-null pointer while no sentinel has been overwritten |
| `Lifecycle.Allowed` | include/opaque/opaque.h:113-146 | the caller contract: whatever is handed to an owning pointer is alive and unowned, and never what the reset pointer itself holds; `new` uses a fresh identity; named owning pointers exist; no sentinel is overwritten; the caller deletes only a live object that no owning pointer holds |
| `Lifecycle.Step` | include/opaque/opaque.h:113-153 | one operation: the deletion log only grows, by at most one object; only `reset` and the caller's own `delete` delete; that `delete` succeeds exactly on a live object, deletes exactly it and checks no sentinel; construction makes the new object alive, writes `0xBEEFDEAD` into its sentinel and changes no other sentinel; no other operation of the library changes a sentinel; the assertion fails exactly when a `reset` finds its live pointee's sentinel wrong |
| `Lifecycle.Run` | include/opaque/opaque.h:109-158 | a trace of operations: the deletion log only grows, by at most one object per step |
| `Lifecycle.AllowedStepIsSafe` | include/opaque/opaque.h:113-146 | an operation that keeps the caller contract completes without an assertion failure or undefined behaviour, and keeps both the ownership invariant (single owner, owned objects alive, no double deletion) and every sentinel intact |
| `Lifecycle.AllowedResetIsSafe` | include/opaque/opaque.h:121-129 | the same fact for `reset`: once the old object is deleted, the new one has no other owner |
| `Lifecycle.AllowedSwapIsSafe` | include/opaque/opaque.h:144-146 | the same fact for `swap`: exchanging two slots keeps each object at most one owner |
| `Lifecycle.AllowedNewIsSafe` | include/opaque/opaque.h:97-99 | the same fact for constructing a private instance under a fresh identity |
| `Lifecycle.AllowedReleaseIsSafe` | include/opaque/opaque.h:139-143 | the same fact for `release`: nulling a slot deletes nothing and keeps each object at most one owner |
| `Lifecycle.AllowedOwnIsSafe` | include/opaque/opaque.h:113 | the same fact for constructing an owning pointer around an unowned object |
| `Lifecycle.ContractRunIsSafe` | include/opaque/opaque.h:109-158 | every trace that keeps the caller contract runs to completion and keeps the invariant, so no object is deleted twice |
| `Lifecycle.ProgramNeverDeletesTwice` | include/opaque/opaque.h:109-158 | starting from an empty program, a trace that keeps the caller contract deletes no object twice, and every non-null owning pointer `isValid()` at its end |
| `Lifecycle.Owned` | include/opaque/opaque.h:114 | the objects the owning pointers hold: each of them is held by some owning pointer, and there are no more of them than owning pointers |
| `Lifecycle.HeldIsOwned` | include/opaque/opaque.h:114 | every held object occurs in `Owned` |
| `Lifecycle.EndScope` | include/opaque/opaque.h:114 | scope exit runs the destructor, `reset()`, of each owning pointer, in reverse order of construction |
| `Lifecycle.EndScopeRuns` | include/opaque/opaque.h:114 | running the destructors of the first n pointers completes, nulls exactly those pointers, leaves the others as they are, and keeps the invariant |
| `Lifecycle.EndScopePrefix` | include/opaque/opaque.h:114 | running the destructors of the first n pointers appends exactly their objects to the deletion log and removes exactly those objects from the live set |
| `Lifecycle.ScopeExitDestroysOwned` | include/opaque/opaque.h:114 | scope exit of all owning pointers deletes exactly the held objects, each once, and leaves every other live object alive |
| `Lifecycle.ScopeExitDestroysOnce` | include/opaque/opaque.h:114 | the object of a non-null owning pointer was never deleted before, and it occurs in the deletion log exactly once after scope exit |
| `Lifecycle.OnceInNoDuplicates` | include/opaque/opaque.h:126 | an object in a deletion log without duplicates was deleted exactly once |
| `Lifecycle.ReleaseSurvivesScopeExit` | include/opaque/opaque.h:139-143 | `release()` deletes nothing, and the released object stays alive through a later scope exit; without the release, the same scope exit deletes it |
| `Lifecycle.UnownedStepKeepsAlive` | include/opaque/opaque.h:113-146 | an allowed operation that neither hands an alive, unowned object to an owning pointer nor deletes it leaves it alive and unowned |
| `Lifecycle.UnownedStaysAlive` | include/opaque/opaque.h:113-146 | the same fact for every contract-keeping trace that never hands that object to an owning pointer and never deletes it |
| `Lifecycle.ReleasedNeverDeleted` | include/opaque/opaque.h:139-143 | after `release()`, any contract-keeping trace that neither hands the released object to an owning pointer again nor deletes it, followed by scope exit of every owning pointer, leaves it alive and undeleted |
| `Lifecycle.ReleasedCallerDeletes` | include/opaque/opaque.h:139-143 | after `release()`, the caller's own `delete` of the object is allowed, deletes exactly that object once, and keeps the invariant |
| `Lifecycle.AllowedDeleteIsSafe` | include/opaque/opaque.h:139-143 | the same fact as `AllowedStepIsSafe` for the caller's `delete` of a live, unowned object: no dangling owning pointer and no double deletion |
| `Opaque.FreeStore.Delete` | include/opaque/opaque.h:139-143 | the caller's own `delete` of a live object is `Dispose` of that object |
| `Opaque.ResetAsStep` | include/opaque/opaque.h:121-129 | the class `reset` changes the held pointer and the free store exactly as `Step` changes the corresponding slot and the heap |
| `Opaque.ReleaseAsStep` | include/opaque/opaque.h:139-143 | the class `release()` returns what the slot held, and changes the pointer and the free store exactly as `Step` changes the slot and the heap |
| `Opaque.SwapAsStep` | include/opaque/opaque.h:144-146 | the class `swap` changes both pointers exactly as `Step` changes the two slots, and leaves the heap alone |
| `Lifecycle.ResetDestroysExactlyOne` | include/opaque/opaque.h:121-129 | `reset(Y)` on a pointer that holds X logs exactly one deletion, of X, and the pointer then holds Y |
| `Lifecycle.ResetOfNullDestroysNothing` | include/opaque/opaque.h:121-129 | `reset(p)` on a null pointer deletes nothing and stores p |
| `Lifecycle.OverwrittenSentinelAborts` | include/opaque/opaque.h:125 | after the held object's sentinel is overwritten, `isValid()` is false and the next `reset` (so also the destructor) fails the assertion |
| `Lifecycle.SelfResetDeletesTwice` | include/opaque/opaque.h:121-128 | `reset(get())` is outside the caller contract: it deletes the object while the pointer still holds it, and the next `reset` deletes freed memory |
| `Lifecycle.SwapTwiceRestores` | include/opaque/opaque.h:144-146 | `swap` leaves the free store unchanged, and swapping twice restores both pointers |

## Left out

- The macros `OPAQ_IMPLEMENT`, `OPAQ_IMPLEMENT_NOREF`, `OPAQ_DECLARE` and `this_public` are left out. They are textual sugar with no meaning of their own.
- The deleted copy constructor and copy assignment are left out. They are a compile-time ban, so the model simply has no copy operation.
- `reinterpret_cast<IPrivate *>` is left out. The held pointer is typed `IPrivate` directly.
- `Private<T>` derives from `IPrivate` in C++. Without inheritance, it keeps its `IPrivate` part as the field `base`.
- The virtual destructor of the derived type is left out. `delete` is modelled only by its effect on the free store, so side effects of a private type's own destructor are not modelled.
- The unchecked build (`NDEBUG` without `_DEBUG`) is left out. It has no sentinel, no assertion and no `isValid()`, and only the checked build is modelled.
- Opaque.PrivateAutoPtr.Reset: the sentinel assertion is a precondition, so the class does not model the abort itself. `Lifecycle.Step` models it as `Aborted`.
- Opaque.Private.FromPointer: a C++ pointer to an arbitrary `T` is modelled as `Option<T>`, because Dafny has no nullable form of a type parameter.
- Real deallocation, reuse of freed addresses, and threads are left out. Neither the library nor a verifier can say anything about them.
