// The single-threaded cells of src/std/lazy/mod.rs: `unsync::OnceCell`, a
// slot written at most once, and `unsync::Lazy`, a value computed by its
// initialiser on first access.  Closures become Dafny function values; a
// closure that panics is not modelled.

module OnceCells {
  import opened Wrappers

  /** unsync::OnceCell: the `inner` slot, `None` until written. */
  class OnceCell<T> {
    var inner: Option<T>

    /** OnceCell::new: an empty cell. */
    constructor ()
      ensures inner == None
    {
      inner := None;
    }

    /** From<T>: a cell already holding `value`. */
    constructor FromValue(value: T)
      ensures inner == Some(value)
    {
      inner := Some(value);
    }

    /** get: the content, if any. */
    function Get(): (r: Option<T>)
      reads this
      ensures r.Some? <==> inner.Some?
      ensures r.Some? ==> r.value == inner.value
    {
      inner
    }

    /** try_insert: write `value` into an empty cell and hand back the stored
        value; a full cell is left as it is and the existing value comes back
        with `value`. */
    method TryInsert(value: T) returns (r: Result<T, (T, T)>)
      modifies this
      ensures old(inner).Some? ==> inner == old(inner) && r == Err((old(inner).value, value))
      ensures old(inner).None? ==> inner == Some(value) && r == Ok(value)
    {
      var current := Get();
      if current.Some? {
        return Err((current.value, value));
      }
      inner := Some(value);
      r := Ok(inner.value);
    }

    /** set: try_insert without the reference; the rejected value comes back. */
    method Set(value: T) returns (r: Result<(), T>)
      modifies this
      ensures old(inner).Some? ==> inner == old(inner) && r == Err(value)
      ensures old(inner).None? ==> inner == Some(value) && r == Ok(())
    {
      var inserted := TryInsert(value);
      match inserted
      case Ok(_) => r := Ok(());
      case Err((_, v)) => r := Err(v);
    }

    /** get_or_try_init: the content of a full cell, without running `f`;
        otherwise run `f` once, store its value on success and return it, and
        leave the cell empty on failure.  `called` records whether `f` ran. */
    method GetOrTryInit<E>(f: () -> Result<T, E>) returns (r: Result<T, E>, ghost called: bool)
      modifies this
      ensures called <==> old(inner).None?
      ensures old(inner).Some? ==> inner == old(inner) && r == Ok(old(inner).value)
      ensures old(inner).None? && f().Err? ==> inner == None && r == Err(f().error)
      ensures old(inner).None? && f().Ok? ==> inner == Some(f().value) && r == Ok(f().value)
    {
      called := false;
      var current := Get();
      if current.Some? {
        return Ok(current.value), called;
      }
      var made := f();
      called := true;
      if made.Err? {
        return Err(made.error), called;
      }
      var stored := Set(made.value);
      // No initialiser can run re-entrantly here, so the write succeeds.
      assert stored.Ok?;
      r := Ok(inner.value);
    }

    /** get_or_init: get_or_try_init with an initialiser that cannot fail;
        `called` records whether `f` ran. */
    method GetOrInit(f: () -> T) returns (v: T, ghost called: bool)
      modifies this
      ensures called <==> old(inner).None?
      ensures old(inner).Some? ==> inner == old(inner) && v == old(inner).value
      ensures old(inner).None? ==> inner == Some(f()) && v == f()
    {
      var r;
      r, called := GetOrTryInit<()>(() => Ok(f()));
      v := r.value;
    }

    /** sync::OnceCell::try_insert, which goes through get_or_init with an
        initialiser that takes `value` out of a local slot; whether the slot
        was emptied tells whether the cell took the value.  Run by one
        thread it behaves as TryInsert. */
    method SyncTryInsert(value: T) returns (r: Result<T, (T, T)>)
      modifies this
      ensures old(inner).Some? ==> inner == old(inner) && r == Err((old(inner).value, value))
      ensures old(inner).None? ==> inner == Some(value) && r == Ok(value)
    {
      var slot := Some(value);
      var res: T;
      if inner.Some? {
        res := inner.value;
      } else {
        var taken := slot.value;
        slot := None;
        inner := Some(taken);
        res := taken;
      }
      match slot
      case None => r := Ok(res);
      case Some(v) => r := Err((res, v));
    }

    /** take: move the content out and leave the cell empty. */
    method Take() returns (r: Option<T>)
      modifies this
      ensures r == old(inner) && inner == None
    {
      r := inner;
      inner := None;
    }

    /** into_inner: the content, the cell being consumed. */
    function IntoInner(): (r: Option<T>)
      reads this
      ensures r.None? <==> Get().None?
      ensures r.Some? ==> r.value == Get().value
    {
      inner
    }

    /** clone: a new cell with the same content. */
    method Clone() returns (c: OnceCell<T>)
      ensures fresh(c) && c.inner == inner
    {
      c := new OnceCell();
      var current := Get();
      if current.Some? {
        var written := c.Set(current.value);
        assert written.Ok?;
      }
    }
  }

  /** unsync::Lazy: the cell and the initialiser, which force takes out the
      one time it runs it.  `runs` counts the initialiser's runs. */
  class Lazy<T> {
    var cell: OnceCell<T>
    var init: Option<() -> T>
    ghost var runs: nat

    /** Either nothing has been computed and the initialiser is still there,
        or it has run exactly once and the cell holds its value. */
    ghost predicate Valid()
      reads this, cell
    {
      || (runs == 0 && init.Some? && cell.inner.None?)
      || (runs == 1 && init.None? && cell.inner.Some?)
    }

    /** Lazy::new: an empty cell and the initialiser. */
    constructor (f: () -> T)
      ensures Valid() && fresh(cell)
      ensures cell.inner == None && init == Some(f) && runs == 0
    {
      cell := new OnceCell();
      init := Some(f);
      runs := 0;
    }

    /** Lazy::force: the cell's value, computed by taking and running the
        initialiser when the cell is still empty. */
    method Force() returns (v: T)
      requires Valid()
      modifies this, cell
      ensures Valid() && cell == old(cell) && runs == 1
      ensures old(cell.inner).Some? ==> cell.inner == old(cell.inner) && init == old(init)
      ensures old(cell.inner).None? ==> cell.inner == Some(old(init).value()) && init == None
      ensures cell.inner == Some(v)
    {
      if cell.inner.Some? {
        v := cell.inner.value;
        return;
      }
      var f := init.value;
      init := None;
      runs := runs + 1;
      ghost var called;
      v, called := cell.GetOrInit(f);
    }

    /** Lazy::into_value: the value when forced, the initialiser otherwise. */
    function IntoValue(): (r: Result<T, () -> T>)
      requires Valid()
      reads this, cell
      ensures r.Ok? <==> runs == 1
      ensures r.Ok? ==> Some(r.value) == cell.Get()
      ensures r.Err? ==> Some(r.error) == init
    {
      match cell.IntoInner()
      case Some(v) => Ok(v)
      case None => Err(init.value)
    }
  }

  /** eq: two cells are equal when both are empty or both hold equal
      values. */
  function CellsEqual<T(==)>(a: OnceCell<T>, b: OnceCell<T>): (r: bool)
    reads a, b
    ensures r <==> (a.inner.None? && b.inner.None?) || (a.inner.Some? && b.inner.Some? && a.inner.value == b.inner.value)
  {
    a.Get() == b.Get()
  }

  /** The set example: the first set of an empty cell succeeds, the second
      hands its value back, and the first value stays. */
  method SetTwice<T>(first: T, second: T) returns (r1: Result<(), T>, r2: Result<(), T>, content: Option<T>)
    ensures r1 == Ok(()) && r2 == Err(second) && content == Some(first)
  {
    var cell := new OnceCell<T>();
    r1 := cell.Set(first);
    r2 := cell.Set(second);
    content := cell.Get();
  }

  /** The try_insert example: a second insertion reports the stored value
      along with the rejected one. */
  method TryInsertTwice<T>(first: T, second: T) returns (r1: Result<T, (T, T)>, r2: Result<T, (T, T)>)
    ensures r1 == Ok(first) && r2 == Err((first, second))
  {
    var cell := new OnceCell<T>();
    r1 := cell.TryInsert(first);
    r2 := cell.SyncTryInsert(second);
  }

  /** get_or_init is idempotent: the second call returns the first value and
      does not run its own initialiser. */
  method GetOrInitTwice<T>(f: () -> T, g: () -> T) returns (v1: T, v2: T, ghost ranF: bool, ghost ranG: bool)
    ensures v1 == f() && v2 == f()
    ensures ranF && !ranG
  {
    var cell := new OnceCell<T>();
    v1, ranF := cell.GetOrInit(f);
    v2, ranG := cell.GetOrInit(g);
  }

  /** get_or_try_init: a failing initialiser leaves the cell empty, so a
      later succeeding one fills it. */
  method FailThenInit<T, E>(e: E, v: T) returns (r1: Result<T, E>, r2: Result<T, E>, content: Option<T>)
    ensures r1 == Err(e) && r2 == Ok(v) && content == Some(v)
  {
    var cell := new OnceCell<T>();
    ghost var called;
    r1, called := cell.GetOrTryInit(() => Err(e));
    assert cell.inner == None;
    r2, called := cell.GetOrTryInit(() => Ok(v));
    content := cell.Get();
  }

  /** take returns the content and leaves the cell empty; clone copies it. */
  method TakeAfterSet<T>(v: T) returns (copied: Option<T>, taken: Option<T>, after: Option<T>)
    ensures copied == Some(v) && taken == Some(v) && after == None
  {
    var cell := new OnceCell.FromValue(v);
    var copy := cell.Clone();
    copied := copy.Get();
    taken := cell.Take();
    after := cell.IntoInner();
  }

  /** Lazy runs its initialiser once: two forces return its value, and
      into_value then gives that value. */
  method ForceTwice<T>(f: () -> T) returns (v1: T, v2: T, value: Result<T, () -> T>, ghost runs: nat)
    ensures v1 == f() && v2 == f() && value == Ok(f()) && runs == 1
  {
    var lazy := new Lazy(f);
    v1 := lazy.Force();
    v2 := lazy.Force();
    value := lazy.IntoValue();
    runs := lazy.runs;
  }

  /** An unforced Lazy gives its initialiser back from into_value. */
  method UnforcedIntoValue<T>(f: () -> T) returns (value: Result<T, () -> T>)
    ensures value == Err(f)
  {
    var lazy := new Lazy(f);
    value := lazy.IntoValue();
  }
}
