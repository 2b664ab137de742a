/** The Result class as it is written: two private final fields, `e` and `s`,
    either of which may be null, filled in once by a private constructor that
    checks nothing. Every method is written here over those two fields, with
    the same null tests as the class, and is proved to agree with the abstract
    `Results.Result` it represents. The factories are what keep the fields in
    the "exactly one is non-null" shape that the readers rely on. */
module Representation {
  import opened Java
  import Results

  /** The fields of one Result object: `new Result<>(e, s)`. */
  datatype Fields<S> = Fields(e: Nullable<Exception>, s: Nullable<S>) {

    /** The object invariant: exactly one of the two fields is non-null. */
    predicate Valid() { e.Object? != s.Object? }

    /** The Result a valid object stands for. */
    function Abs(): (r: Results.Result<S>)
      requires Valid()
      ensures r.IsError() <==> e.Object?
      ensures r.IsError() ==> Object(r.error) == e
      ensures r.IsSuccess() ==> Object(r.value) == s
    {
      if e.Object? then Results.Err(e.obj) else Results.Ok(s.obj)
    }

    /** isError(): `e != null`. */
    function IsError(): (b: bool)
      ensures Valid() ==> (b <==> Abs().IsError())
    {
      e.Object?
    }

    /** isSuccess(): `s != null`. */
    function IsSuccess(): (b: bool)
      ensures Valid() ==> (b <==> Abs().IsSuccess())
    {
      s.Object?
    }

    /** getError(): throws NoSuchElementException unless isError(), and
        otherwise returns the field `e`. */
    function GetError(): (o: Outcome<Nullable<Exception>>)
      ensures Valid() ==> o == Lift(Abs().GetError())
    {
      if !IsError() then Threw(NoSuchElementException(Results.NotErroneousMessage))
      else Returned(e)
    }

    /** get(): throws NoSuchElementException if isError(), and otherwise
        returns the field `s`, which only the invariant keeps from being null. */
    function Get(): (o: Outcome<Nullable<S>>)
      ensures Valid() ==> o == Lift(Abs().Get())
    {
      if IsError() then Threw(NoSuchElementException(Results.ErroneousMessage))
      else Returned(s)
    }

    /** getOrElse(def): `def` if isError(), the field `s` otherwise. */
    function GetOrElse(def: Nullable<S>): (v: Nullable<S>)
      ensures Valid() ==> v == Abs().GetOrElse(def)
    {
      if IsError() then def else s
    }

    /** getOrThrow(): throws the field `e` if isError(), returns `s` otherwise. */
    function GetOrThrow(): (o: Outcome<Nullable<S>>)
      ensures Valid() ==> o == Lift(Abs().GetOrThrow())
    {
      if IsError() then Threw(e.obj) else Returned(s)
    }

    /** map(f): an erroneous object is returned itself, cast to Result<N>; the
        cast is sound only because its `s` is null. Otherwise
        `from(() -> f.apply(s))`. */
    function Map<N>(f: Fn<S, N>): (r: Fields<N>)
      requires Valid()
      ensures r.Valid() && r.Abs() == Abs().Map(f)
    {
      if IsError() then Fields(e, Null)
      else From(Object(f(s.obj))).ret
    }

    /** mapError(f): `fail(f.apply(e))` if isError(), the object itself otherwise. */
    function MapError(f: Fn<Exception, Exception>): (o: Outcome<Fields<S>>)
      ensures Valid() ==> o == Rep(Abs().MapError(f))
    {
      if IsError() then f(e.obj).AndThen(Fail) else Returned(this)
    }

    /** wrapError(f, message): `fail(f.apply(message, e))` if isError(), the
        object itself otherwise. */
    function WrapErrorWithMessage(f: (Nullable<string>, Exception) -> Outcome<Nullable<Exception>>,
                                  message: Nullable<string>): (o: Outcome<Fields<S>>)
      ensures Valid() ==> o == Rep(Abs().WrapErrorWithMessage(f, message))
    {
      if IsError() then f(message, e.obj).AndThen(Fail) else Returned(this)
    }

    /** wrapError(f): delegates to mapError(f). */
    function WrapError(f: Fn<Exception, Exception>): (o: Outcome<Fields<S>>)
      ensures Valid() ==> o == Rep(Abs().WrapError(f))
    {
      MapError(f)
    }

    /** asOptional(): `Optional.ofNullable(s)`. It never looks at `e`, so it
        agrees with isSuccess() only through the invariant. */
    function AsOptional(): (o: Optional<S>)
      ensures Valid() ==> o == Abs().AsOptional()
    {
      OfNullable(s)
    }
  }

  /** The outcome of a call returning a Result, seen on the fields: a returned
      Result is the object that represents it. */
  function Rep<S>(o: Outcome<Results.Result<S>>): (p: Outcome<Fields<S>>)
    ensures p.Threw? <==> o.Threw?
    ensures o.Threw? ==> p.exc == o.exc
    ensures o.Returned? ==> p.ret.Valid() && p.ret.Abs() == o.ret
  {
    match o
    case Returned(r) => Returned(Represent(r))
    case Threw(t) => Threw(t)
  }

  /** The fields that represent r. */
  function Represent<S>(r: Results.Result<S>): (f: Fields<S>)
    ensures f.Valid() && f.Abs() == r
  {
    match r
    case Ok(v) => Fields(Null, Object(v))
    case Err(x) => Fields(Object(x), Null)
  }

  /** Valid objects and Results are in one-to-one correspondence. */
  lemma RepresentAbs<S>(f: Fields<S>)
    requires f.Valid()
    ensures Represent(f.Abs()) == f
  {
  }

  /** success(s): `new Result<>(null, Objects.requireNonNull(s))`. */
  function Success<S>(s: Nullable<S>): (o: Outcome<Fields<S>>)
    ensures o == Rep(Results.Success(s))
  {
    RequireNonNull(s).AndThen(v => Returned(Fields(Null, Object(v))))
  }

  /** fail(e): `new Result<>(Objects.requireNonNull(e), null)`. */
  function Fail<S>(e: Nullable<Exception>): (o: Outcome<Fields<S>>)
    ensures o == Rep(Results.Fail(e))
  {
    RequireNonNull(e).AndThen(x => Returned(Fields(Object(x), Null)))
  }

  /** from(supplier): requireNonNull(supplier), then `success(supplier.get())`
      with any exception caught and passed to `fail`. */
  function From<S>(supplier: Nullable<Outcome<Nullable<S>>>): (o: Outcome<Fields<S>>)
    ensures o == Rep(Results.From(supplier))
  {
    match RequireNonNull(supplier)
    case Threw(t) => Threw(t)
    case Returned(call) =>
      match call.AndThen(Success)
      case Returned(r) => Returned(r)
      case Threw(t) => Fail(Object(t))
  }

  /** On every object the factories can build, exactly one of isError() and
      isSuccess() holds, and exactly one of get() and getError() throws. */
  lemma ExactlyOneState<S>(f: Fields<S>)
    requires f.Valid()
    ensures f.IsError() != f.IsSuccess()
    ensures f.Get().Threw? != f.GetError().Threw?
  {
  }

  /** The factories never build an object with both fields set or with
      neither: whatever they return satisfies the invariant. */
  lemma FactoriesEstablishValid<S>(s: Nullable<S>, e: Nullable<Exception>,
                                   supplier: Nullable<Outcome<Nullable<S>>>)
    ensures Success(s).Returned? ==> Success(s).ret.e.Null? && Success(s).ret.s.Object?
    ensures Fail<S>(e).Returned? ==> Fail<S>(e).ret.e.Object? && Fail<S>(e).ret.s.Null?
    ensures From(supplier).Returned? ==> From(supplier).ret.Valid()
  {
  }

  /** The combinators keep the invariant: an object map, mapError or either
      wrapError returns is valid. */
  lemma CombinatorsPreserveValid<S, N>(f: Fields<S>, g: Fn<S, N>, h: Fn<Exception, Exception>,
                                       w: (Nullable<string>, Exception) -> Outcome<Nullable<Exception>>,
                                       message: Nullable<string>)
    requires f.Valid()
    ensures f.Map(g).Valid()
    ensures f.MapError(h).Returned? ==> f.MapError(h).ret.Valid()
    ensures f.WrapError(h).Returned? ==> f.WrapError(h).ret.Valid()
    ensures f.WrapErrorWithMessage(w, message).Returned? ==> f.WrapErrorWithMessage(w, message).ret.Valid()
  {
  }

  /** The private constructor alone would admit an object with neither field
      set, on which isError() and isSuccess() are both false and get() returns
      null: the invariant is the factories' doing. */
  lemma ConstructorAloneAdmitsNeither<S>()
    ensures var f: Fields<S> := Fields(Null, Null);
      !f.Valid() && !f.IsError() && !f.IsSuccess() && f.Get() == Returned(Null)
  {
  }
}
