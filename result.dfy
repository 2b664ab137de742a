/** The value a `Result<S>` object stands for, and every operation of the
    class on it. A Result is a success holding a non-null value, or an error
    holding a non-null exception: never both and never neither. Operations
    that can throw in Java return an `Outcome`; the exceptions that cross
    their boundary are part of their contract. */
module Results {
  import opened Java

  /** Message of the NoSuchElementException thrown by `getError()` on a success. */
  const NotErroneousMessage := "Attempted to retrieve error on non-erroneous result"
  /** Message of the NoSuchElementException thrown by `get()` on an error. */
  const ErroneousMessage := "Attempted to retrieve value on erroneous result"

  datatype Result<S> = Ok(value: S) | Err(error: Exception) {

    /** isError(): true exactly when an error is held; when it is false a
        value is held. */
    function IsError(): (b: bool)
      ensures b <==> Err?
      ensures !b <==> Ok?
    {
      Err?
    }

    /** isSuccess(): true exactly when a value is held, so never together
        with isError(). */
    function IsSuccess(): (b: bool)
      ensures b <==> Ok?
      ensures b != IsError()
    {
      Ok?
    }

    /** getError(): the stored exception; on a success the call fails with
        NoSuchElementException, as a caller who did not check the state first
        deserves. */
    function GetError(): (o: Outcome<Exception>)
      ensures o.Returned? <==> IsError()
      ensures IsError() ==> o.ret == error
      ensures IsSuccess() ==> o.exc == NoSuchElementException(NotErroneousMessage)
    {
      if !IsError() then Threw(NoSuchElementException(NotErroneousMessage))
      else Returned(error)
    }

    /** get(): the stored value; on an error the call fails with
        NoSuchElementException. */
    function Get(): (o: Outcome<S>)
      ensures o.Returned? <==> IsSuccess()
      ensures IsSuccess() ==> o.ret == value
      ensures IsError() ==> o.exc == NoSuchElementException(ErroneousMessage)
    {
      if IsError() then Threw(NoSuchElementException(ErroneousMessage))
      else Returned(value)
    }

    /** getOrElse(def): the value, or `def` (which Java lets be null) on an error. */
    function GetOrElse(def: Nullable<S>): (v: Nullable<S>)
      ensures IsError() ==> v == def
      ensures IsSuccess() ==> v == Object(value)
    {
      if IsError() then def else Object(value)
    }

    /** getOrThrow(): the value, or the stored exception thrown to the caller. */
    function GetOrThrow(): (o: Outcome<S>)
      ensures IsSuccess() ==> o == Get()
      ensures IsError() ==> o == Threw(GetError().ret)
    {
      if IsError() then Threw(error) else Returned(value)
    }

    /** map(f): an error is passed on untouched and `f` is not called; on a
        success the result is `from(() -> f.apply(value))`, so an exception
        `f` throws, or a null it returns, becomes the new error. */
    function Map<N>(f: Fn<S, N>): (r: Result<N>)
      ensures IsError() ==> r == Err(error)
      ensures IsSuccess() ==> From(Object(f(value))) == Returned(r)
    {
      if IsError() then Err(error) else Capture(f(value))
    }

    /** mapError(f): a success comes back untouched and `f` is not called; on
        an error the result is `fail(f.apply(error))`, which throws if `f`
        throws or returns null. */
    function MapError(f: Fn<Exception, Exception>): (o: Outcome<Result<S>>)
      ensures IsSuccess() ==> o == Returned(this)
      ensures IsError() ==> o == f(error).AndThen(Fail)
    {
      if IsError() then f(error).AndThen(Fail) else Returned(this)
    }

    /** wrapError(f, message): `fail(f.apply(message, error))` on an error, the
        Result itself on a success. */
    function WrapErrorWithMessage(f: (Nullable<string>, Exception) -> Outcome<Nullable<Exception>>,
                                  message: Nullable<string>): (o: Outcome<Result<S>>)
      ensures o == MapError(e => f(message, e))
    {
      if IsError() then f(message, error).AndThen(Fail) else Returned(this)
    }

    /** wrapError(f): an alias of mapError(f). */
    function WrapError(f: Fn<Exception, Exception>): (o: Outcome<Result<S>>)
      ensures o == MapError(f)
      ensures IsSuccess() ==> o == Returned(this)
      ensures IsError() ==> o == f(error).AndThen(Fail)
    {
      MapError(f)
    }

    /** asOptional(): the value as a present Optional, or an empty one on an
        error, whose exception is dropped. */
    function AsOptional(): (o: Optional<S>)
      ensures o.Of? <==> IsSuccess()
      ensures o.Of? ==> o.get == value
    {
      if IsSuccess() then Of(value) else Empty
    }
  }

  /** success(s): a successful Result, or NullPointerException when `s` is null. */
  function Success<S>(s: Nullable<S>): (o: Outcome<Result<S>>)
    ensures o.Returned? <==> s.Object?
    ensures o.Returned? ==> o.ret.IsSuccess() && !o.ret.IsError() && o.ret.Get() == Returned(s.obj)
    ensures o.Threw? ==> o.exc == NullPointerException
  {
    RequireNonNull(s).AndThen(v => Returned(Ok(v)))
  }

  /** fail(e): an erroneous Result, or NullPointerException when `e` is null. */
  function Fail<S>(e: Nullable<Exception>): (o: Outcome<Result<S>>)
    ensures o.Returned? <==> e.Object?
    ensures o.Returned? ==> o.ret.IsError() && !o.ret.IsSuccess() && o.ret.GetError() == Returned(e.obj)
    ensures o.Threw? ==> o.exc == NullPointerException
  {
    RequireNonNull(e).AndThen(x => Returned(Err(x)))
  }

  /** The `try` block of `from`: call the supplier, hand what it returns to
      `success`, and catch any exception thrown along the way as `fail(t)`.
      `call` is how the supplier's one invocation completes. */
  function Capture<S>(call: Outcome<Nullable<S>>): (r: Result<S>)
    ensures call.Returned? && call.ret.Object? ==> r == Ok(call.ret.obj)
    ensures call == Returned(Null) ==> r == Err(NullPointerException)
    ensures call.Threw? ==> r == Err(call.exc)
  {
    match call.AndThen(Success)
    case Returned(r) => r
    case Threw(t) => Fail(Object(t)).ret
  }

  /** from(supplier): a null supplier is rejected before anything runs;
      otherwise the supplier is called once and its outcome captured. */
  function From<S>(supplier: Nullable<Outcome<Nullable<S>>>): (o: Outcome<Result<S>>)
    ensures o.Threw? <==> supplier.Null?
    ensures o.Threw? ==> o.exc == NullPointerException
    ensures supplier.Object? && supplier.obj.Returned? && supplier.obj.ret.Object?
            ==> o == Returned(Ok(supplier.obj.ret.obj))
    ensures supplier == Object(Returned(Null)) ==> o == Returned(Err(NullPointerException))
    ensures supplier.Object? && supplier.obj.Threw? ==> o == Returned(Err(supplier.obj.exc))
  {
    RequireNonNull(supplier).AndThen(call => Returned(Capture(call)))
  }

  /** getOrElse(null) yields null exactly when the Result is an error: a success
      never hands out null. */
  lemma GetOrElseNullIffError<S>(r: Result<S>)
    ensures r.GetOrElse(Null) == Null <==> r.IsError()
  {
  }

  /** getOrElse(def) is asOptional().orElse(def). */
  lemma GetOrElseIsOptionalOrElse<S>(r: Result<S>, def: Nullable<S>)
    ensures r.GetOrElse(def) == match r.AsOptional() case Of(v) => Object(v) case Empty => def
  {
  }

  /** asOptional() forgets which exception an error held. */
  lemma AsOptionalLosesError<S>(e1: Exception, e2: Exception)
    ensures Result<S>.Err(e1).AsOptional() == Result<S>.Err(e2).AsOptional() == Empty
  {
  }

  /** from(() -> r.getOrThrow()) rebuilds r: getOrThrow turns a Result into
      Java control flow, and from turns it back. */
  lemma FromGetOrThrow<S>(r: Result<S>)
    ensures From(Object(Lift(r.GetOrThrow()))) == Returned(r)
  {
  }

  /** The other direction: capturing a supplier and re-throwing gives back how
      the supplier completed, except that a null it returned has become a
      NullPointerException. */
  lemma GetOrThrowFrom<S>(call: Outcome<Nullable<S>>)
    ensures From(Object(call)).Returned?
    ensures call != Returned(Null) ==> Lift(From(Object(call)).ret.GetOrThrow()) == call
    ensures call == Returned(Null) ==> From(Object(call)).ret.GetOrThrow() == Threw(NullPointerException)
  {
  }

  /** map(x -> x) changes nothing. */
  lemma MapIdentity<S>(r: Result<S>)
    ensures r.Map(Identity()) == r
  {
  }

  /** map(f).map(g) is one map of the chained function. */
  lemma MapThen<S, N, M>(r: Result<S>, f: Fn<S, N>, g: Fn<N, M>)
    ensures r.Map(f).Map(g) == r.Map(Then(f, g))
  {
  }

  /** A null function passed to map fails only when map calls it: an error
      passes through, and on a success the NullPointerException it raises
      inside `from` is caught as the new error. mapError with a null function
      returns a success untouched and throws NullPointerException on an error. */
  lemma NullFunctionArguments<S, N>(r: Result<S>)
    ensures r.IsError() ==> r.Map(NullFn<S, N>()) == Err(r.error)
    ensures r.IsSuccess() ==> r.Map(NullFn<S, N>()) == Err(NullPointerException)
    ensures r.IsSuccess() ==> r.MapError(NullFn()) == Returned(r)
    ensures r.IsError() ==> r.MapError(NullFn()) == Threw(NullPointerException)
  {
  }

  /** mapError(e -> e) changes nothing. */
  lemma MapErrorIdentity<S>(r: Result<S>)
    ensures r.MapError(Identity()) == Returned(r)
  {
  }

  /** mapError(f).mapError(g) is one mapError of the chained function. */
  lemma MapErrorThen<S>(r: Result<S>, f: Fn<Exception, Exception>, g: Fn<Exception, Exception>)
    ensures r.MapError(f).AndThen((q: Result<S>) => q.MapError(g)) == r.MapError(Then(f, g))
  {
  }

  /** A chain of map calls, `r.map(fs[0]).map(fs[1])...` as callers write them.
      An error entering the chain leaves it untouched. */
  function MapAll<S>(r: Result<S>, fs: seq<Fn<S, S>>): (q: Result<S>)
    ensures r.IsError() ==> q == r
    decreases |fs|
  {
    if fs == [] then r else MapAll(r.Map(fs[0]), fs[1..])
  }

  /** The single function a chain of maps amounts to. */
  function ThenAll<S>(fs: seq<Fn<S, S>>): (h: Fn<S, S>)
    decreases |fs|
  {
    if fs == [] then Identity() else Then(fs[0], ThenAll(fs[1..]))
  }

  /** A chain of maps is one map of the chained function. */
  lemma {:induction false} MapAllIsOneMap<S>(r: Result<S>, fs: seq<Fn<S, S>>)
    ensures MapAll(r, fs) == r.Map(ThenAll(fs))
    decreases |fs|
  {
    if fs == [] {
      MapIdentity(r);
    } else {
      MapAllIsOneMap(r.Map(fs[0]), fs[1..]);
      MapThen(r, fs[0], ThenAll(fs[1..]));
    }
  }

  /** A chain of mapError (or wrapError) calls; an exception thrown by one of
      them propagates past the rest. A success passes through untouched. */
  function MapErrorAll<S>(r: Result<S>, fs: seq<Fn<Exception, Exception>>): (o: Outcome<Result<S>>)
    ensures r.IsSuccess() ==> o == Returned(r)
    decreases |fs|
  {
    if fs == [] then Returned(r)
    else r.MapError(fs[0]).AndThen((q: Result<S>) => MapErrorAll(q, fs[1..]))
  }

  /** Along a chain of maps a Result can only go from success to error: no
      `map` call turns an error back into a success, and the error that came
      out of a prefix of the chain is the one the whole chain ends with. */
  lemma {:induction false} MapAllNeverRecovers<S>(r: Result<S>, fs: seq<Fn<S, S>>, k: nat)
    requires k <= |fs|
    requires MapAll(r, fs[..k]).IsError()
    ensures MapAll(r, fs).IsError()
    ensures MapAll(r, fs).error == MapAll(r, fs[..k]).error
    decreases |fs|
  {
    if k > 0 {
      assert fs[..k][1..] == fs[1..][..k - 1];
      MapAllNeverRecovers(r.Map(fs[0]), fs[1..], k - 1);
    } else {
      assert fs[..k] == [];
    }
  }
}
