/** `LazyInit` (vendor/lazyinit/src/lib.rs): a cell written once and read
    many times.  The model is sequential: the atomic state byte is a field,
    and the compare-and-exchange in `call_once` always finds the cell as the
    previous call left it, so the `INITIALIZING` state is never observed
    from outside a call. */
module Lazy {

  import opened Common

  /** The three values of the state byte. */
  const UNINIT: u8 := 0
  const INITIALIZING: u8 := 1
  const INITED: u8 := 2

  /** Why an operation on the cell panics. */
  datatype LazyPanic = AlreadyInitialized | UseUninitialized

  /** One `call_once(|| v)` on a cell holding `s`: the new contents and
      what the call returns. */
  function CallOnceStep<T>(s: Option<T>, v: T): (Option<T>, Option<T>)
  {
    if s.Some? then (s, None) else (Some(v), Some(v))
  }

  class LazyInit<T> {
    var inited: u8
    /** `MaybeUninit<T>`: `None` while uninitialised. */
    var data: Option<T>

    /** Outside a call the state is `UNINIT` or `INITED`, and the data is
        written exactly when it is `INITED`. */
    ghost predicate Valid()
      reads this
    {
      (inited == UNINIT || inited == INITED) && (data.Some? <==> inited == INITED)
    }

    /** `new`: uninitialised. */
    constructor ()
      ensures Valid() && !IsInited() && Get() == None
    {
      inited := UNINIT;
      data := None;
    }

    /** `is_inited`. */
    predicate IsInited()
      reads this
    {
      inited == INITED
    }

    /** `get`: the value once initialised, `None` before. */
    function Get(): (r: Option<T>)
      reads this
      requires Valid()
      ensures r.Some? <==> IsInited()
      ensures r == data
    {
      if IsInited() then Some(data.value) else None
    }

    /** `get_unchecked`: its caller must have initialised the cell. */
    function GetUnchecked(): (r: T)
      reads this
      requires Valid() && IsInited()
      ensures Get() == Some(r)
    {
      data.value
    }

    /** `deref`: the value, or a panic before initialisation. */
    function Deref(): (r: Result<T, LazyPanic>)
      reads this
      requires Valid()
      ensures r.Err? <==> !IsInited()
      ensures r.Err? ==> r.error == UseUninitialized
      ensures r.Ok? ==> Get() == Some(r.value)
    {
      if IsInited() then Ok(data.value) else Err(UseUninitialized)
    }

    /** `call_once(|| value)`: on an uninitialised cell the state goes to
        `INITIALIZING`, the value is written and the state goes to
        `INITED`; on an initialised cell nothing changes and the closure
        does not run. */
    method CallOnce(value: T) returns (r: Option<T>)
      requires Valid()
      modifies this
      ensures Valid()
      ensures (Get(), r) == CallOnceStep(old(Get()), value)
    {
      if IsInited() {
        return None;
      }
      // The exchange from UNINIT to INITIALIZING succeeds.
      inited := INITIALIZING;
      data := Some(value);
      inited := INITED;
      r := Some(data.value);
    }

    /** `init_once(value)`: `call_once`, panicking when it returns `None`. */
    method InitOnce(value: T) returns (r: Result<T, LazyPanic>)
      requires Valid()
      modifies this
      ensures Valid()
      ensures r == if old(IsInited()) then Err(AlreadyInitialized) else Ok(value)
      ensures Get() == if old(IsInited()) then old(Get()) else Some(value)
    {
      var o := CallOnce(value);
      if o.None? {
        r := Err(AlreadyInitialized);
      } else {
        r := Ok(o.value);
      }
    }

    /** `*deref_mut() = value`: overwrites the value, or panics before
        initialisation and changes nothing. */
    method DerefMutSet(value: T) returns (r: Result<(), LazyPanic>)
      requires Valid()
      modifies this
      ensures Valid() && inited == old(inited)
      ensures r.Err? <==> !old(IsInited())
      ensures r.Err? ==> r.error == UseUninitialized && data == old(data)
      ensures r.Ok? ==> Get() == Some(value)
    {
      if IsInited() {
        data := Some(value);
        r := Ok(());
      } else {
        r := Err(UseUninitialized);
      }
    }

    /** `get_mut` followed by a write through the reference it gives:
        `false`, and nothing written, before initialisation. */
    method GetMutSet(value: T) returns (written: bool)
      requires Valid()
      modifies this
      ensures Valid() && inited == old(inited)
      ensures written == old(IsInited())
      ensures Get() == if written then Some(value) else old(Get())
    {
      written := IsInited();
      if written {
        data := Some(value);
      }
    }

    /** `get_mut_unchecked` followed by a write through the reference: its
        caller must have initialised the cell. */
    method GetMutUncheckedSet(value: T)
      requires Valid() && IsInited()
      modifies this
      ensures Valid() && IsInited() && Get() == Some(value)
    {
      data := Some(value);
    }
  }

  /** What a sequence of `call_once` calls returns, one per value, starting
      from a cell holding `s`. */
  function CallResults<T>(s: Option<T>, vals: seq<T>): (r: seq<Option<T>>)
    ensures |r| == |vals|
    decreases vals
  {
    if vals == [] then []
    else [CallOnceStep(s, vals[0]).1] + CallResults(CallOnceStep(s, vals[0]).0, vals[1..])
  }

  /** The contents after that sequence of calls. */
  function CallFinal<T>(s: Option<T>, vals: seq<T>): Option<T>
    decreases vals
  {
    if vals == [] then s else CallFinal(CallOnceStep(s, vals[0]).0, vals[1..])
  }

  /** On an initialised cell every further `call_once` returns `None` and
      keeps the value. */
  lemma {:induction false} InitedStays<T>(x: T, vals: seq<T>)
    ensures CallFinal(Some(x), vals) == Some(x)
    ensures forall i :: 0 <= i < |vals| ==> CallResults(Some(x), vals)[i] == None
  {
    if vals != [] {
      InitedStays(x, vals[1..]);
      assert CallResults(Some(x), vals) == [None] + CallResults(Some(x), vals[1..]);
    }
  }

  /** Of several `call_once` calls on a fresh cell, exactly the first
      succeeds, and the cell keeps the first value. */
  lemma OnlyFirstSucceeds<T>(vals: seq<T>)
    requires vals != []
    ensures CallResults(None, vals)[0] == Some(vals[0])
    ensures forall i :: 1 <= i < |vals| ==> CallResults(None, vals)[i] == None
    ensures CallFinal(None, vals) == Some(vals[0])
  {
    InitedStays(vals[0], vals[1..]);
    assert CallResults(None, vals) == [Some(vals[0])] + CallResults(Some(vals[0]), vals[1..]);
  }
}
