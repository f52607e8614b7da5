// The poison flag of src/std/sync/poison.rs, kept by the runtime's locks: it
// is set when a lock holder starts panicking while it holds the lock, unless
// the holder is a coroutine that is being cancelled.  Whether the thread is
// panicking, and whether the current coroutine is cancelled, are parameters.

module Poison {
  import opened Wrappers

  /** Guard: whether the thread was already panicking when it took the lock. */
  datatype Guard = Guard(panicking: bool)

  /** std::sync::PoisonError, carrying what the lock would have given. */
  datatype PoisonError<G> = PoisonError(inner: G)

  /** std::sync::LockResult. */
  type LockResult<T> = Result<T, PoisonError<T>>

  /** Flag: the `failed` word, 0 until poisoned and 1 from then on. */
  class Flag {
    var failed: nat

    /** Flag::new: not poisoned. */
    constructor ()
      ensures failed == 0 && !Get()
    {
      failed := 0;
    }

    /** get: poisoned when `failed` is not 0. */
    function Get(): (r: bool)
      reads this
      ensures r <==> failed != 0
    {
      failed != 0
    }

    /** borrow, on a thread that is `panicking` or not: a guard recording
        that, wrapped in a PoisonError exactly when the flag is set. */
    function Borrow(panicking: bool): (r: LockResult<Guard>)
      reads this
      ensures r.Err? <==> Get()
      ensures r.Ok? ==> r.value == Guard(panicking)
      ensures r.Err? ==> r.error.inner == Guard(panicking)
    {
      var ret := Guard(panicking);
      if Get() then Err(PoisonError(ret)) else Ok(ret)
    }

    /** done, when the holder releases the lock: the thread is `panicking`
        now or not, and is a coroutine (`inCoroutine`) that may be
        `canceled`.  The flag is set when the holder started panicking while
        holding the lock and is not a cancelled coroutine; it is never
        cleared. */
    method Done(guard: Guard, panicking: bool, inCoroutine: bool, canceled: bool)
      modifies this
      ensures Get() <==> old(Get()) || Poisons(guard, panicking, inCoroutine, canceled)
      ensures failed == if Poisons(guard, panicking, inCoroutine, canceled) then 1 else old(failed)
    {
      if !guard.panicking && panicking {
        var isCanceled := if inCoroutine then canceled else false;
        if !isCanceled {
          failed := 1;
        }
      }
    }
  }

  /** When done poisons the flag. */
  predicate Poisons(guard: Guard, panicking: bool, inCoroutine: bool, canceled: bool)
  {
    !guard.panicking && panicking && !(inCoroutine && canceled)
  }

  /** A cancelled coroutine that unwinds while holding the lock does not
      poison it, while a thread that does is poisoning it. */
  lemma CancelDoesNotPoison(inCoroutine: bool)
    ensures !Poisons(Guard(false), true, true, true)
    ensures Poisons(Guard(false), true, false, true)
    ensures !Poisons(Guard(true), true, inCoroutine, false)
  {
  }

  /** map_result: apply `f` to what the lock result carries, keeping Ok as Ok
      and a poisoned result poisoned. */
  function MapResult<T, U>(result: LockResult<T>, f: T -> U): (r: LockResult<U>)
    ensures r.Ok? <==> result.Ok?
    ensures r.Ok? ==> r.value == f(result.value)
    ensures r.Err? ==> r.error.inner == f(result.error.inner)
  {
    match result
    case Ok(t) => Ok(f(t))
    case Err(guard) => Err(PoisonError(f(guard.inner)))
  }

  /** Mapping with the identity changes nothing, and mapping twice is mapping
      once with the composition. */
  lemma MapResultIdentity<T>(result: LockResult<T>)
    ensures MapResult(result, (x: T) => x) == result
  {
  }

  lemma MapResultCompose<T, U, V>(result: LockResult<T>, f: T -> U, g: U -> V)
    ensures MapResult(MapResult(result, f), g) == MapResult(result, (x: T) => g(f(x)))
  {
  }

  /** A lock's life: borrowed on a healthy thread, released while panicking,
      then borrowed again.  The second borrow reports the poison, and a later
      clean release does not clear it. */
  method PanicWhileHeld() returns (first: LockResult<Guard>, second: LockResult<Guard>, poisoned: bool)
    ensures first == Ok(Guard(false))
    ensures second == Err(PoisonError(Guard(false)))
    ensures poisoned
  {
    var flag := new Flag();
    first := flag.Borrow(false);
    flag.Done(first.value, true, false, false);
    second := flag.Borrow(false);
    flag.Done(second.error.inner, false, false, false);
    poisoned := flag.Get();
  }
}
