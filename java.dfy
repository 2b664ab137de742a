/** The parts of the Java platform the Result class is written against:
    nullable references, java.util.Optional, the exceptions the class itself
    raises, and the two ways a Java call can complete. */
module Java {

  /** A Java reference of static type T: null, or an object. */
  datatype Nullable<+T> = Null | Object(obj: T)

  /** java.util.Optional: an empty optional, or one holding a non-null value. */
  datatype Optional<+T> = Empty | Of(get: T)

  /** An Exception object. Two are told apart: the NullPointerException that
      Objects.requireNonNull raises, and the NoSuchElementException the Result
      class throws itself. Every other exception is known only by its
      identity, since its class, message and cause belong to whoever created
      it. */
  datatype Exception =
    | NullPointerException
    | NoSuchElementException(message: string)
    | Other(id: nat)

  /** How a Java call completes: it returns a value normally, or it throws, in
      which case the exception unwinds to the nearest matching catch. */
  datatype Outcome<+T> = Returned(ret: T) | Threw(exc: Exception) {

    /** Runs `next` on the returned value; an exception propagates past it,
        as in two Java statements in sequence. */
    function AndThen<U>(next: T -> Outcome<U>): (o: Outcome<U>)
      ensures Threw? ==> o == Threw(exc)
      ensures Returned? ==> o == next(ret)
    {
      match this
      case Returned(v) => next(v)
      case Threw(t) => Threw(t)
    }
  }

  /** A Java function as a caller passes it in: applied to an argument, it
      returns a reference (possibly null) or throws. */
  type Fn<-A, B> = A -> Outcome<Nullable<B>>

  /** Views a call that returns a non-null T as one returning a reference. */
  function Lift<T>(o: Outcome<T>): (l: Outcome<Nullable<T>>)
    ensures l.Threw? <==> o.Threw?
    ensures o.Threw? ==> l.exc == o.exc
    ensures o.Returned? ==> l.ret == Object(o.ret)
  {
    match o
    case Returned(v) => Returned(Object(v))
    case Threw(t) => Threw(t)
  }

  /** Objects.requireNonNull: the argument itself, or a NullPointerException
      when it is null. */
  function RequireNonNull<T>(x: Nullable<T>): (o: Outcome<T>)
    ensures o.Returned? <==> x.Object?
    ensures o.Returned? ==> o.ret == x.obj
    ensures o.Threw? ==> o.exc == NullPointerException
  {
    match x
    case Null => Threw(NullPointerException)
    case Object(v) => Returned(v)
  }

  /** Optional.ofNullable: empty for null, otherwise the object. */
  function OfNullable<T>(x: Nullable<T>): (o: Optional<T>)
    ensures o.Of? <==> x.Object?
    ensures o.Of? ==> o.get == x.obj
  {
    match x
    case Null => Empty
    case Object(v) => Of(v)
  }

  /** The Java function that calls `f`, insists on a non-null answer, and
      passes it to `g`: what a caller obtains by chaining two Result
      combinators, written as one lambda. */
  function Then<A, B, C>(f: Fn<A, B>, g: Fn<B, C>): (h: Fn<A, C>)
  {
    x => match f(x)
         case Threw(t) => Threw(t)
         case Returned(Null) => Threw(NullPointerException)
         case Returned(Object(y)) => g(y)
  }

  /** The Java identity function `x -> x`. */
  function Identity<A>(): (id: Fn<A, A>)
  {
    x => Returned(Object(x))
  }

  /** A null function reference: calling its `apply` throws
      NullPointerException, whatever the argument. */
  function NullFn<A, B>(): (f: Fn<A, B>)
  {
    x => Threw(NullPointerException)
  }
}
