# Result: a success-or-exception value, modelled in Dafny

`uk.co.samwho.result.Result<S>` is an immutable Java value that holds either
a successful value of type `S` or the `Exception` an operation failed with,
never both and never neither. It is built by the factories `success`, `fail`
and `from` (which runs a supplier and captures whatever it throws), inspected
with `isError`/`isSuccess`, transformed with `map`, `mapError` and the two
`wrapError` overloads, and consumed with `get`, `getError`, `getOrElse`,
`getOrThrow` or `asOptional`.

The model has three modules.

- `Java` (java.dfy): the Java notions the class is written against. A
  reference is `Nullable<T>` (`Null` or `Object(obj)`); `Optional<T>` is
  `java.util.Optional`; an exception is data, `Exception`, whose
  `NullPointerException` is the one `Objects.requireNonNull` raises,
  `NoSuchElementException(message)` is the one the class throws itself, and `Other(id)` is any other exception
  object. A Java call completes as `Outcome<T>`: `Returned(v)` or
  `Threw(e)`. A lambda passed in by a caller is `Fn<A, B>`, a function from
  its argument to an `Outcome<Nullable<B>>`, so it may return null or throw.
  `RequireNonNull` is `Objects.requireNonNull`, `OfNullable` is
  `Optional.ofNullable`, and `Then` is the lambda a caller gets by chaining
  two combinators.
- `Results` (result.dfy): the abstract value, `datatype Result<S> = Ok(value)
  | Err(error)`, with every method of the class as a member function and the
  three factories as module functions. Calls that can throw in Java return an
  `Outcome`: `success(null)` and `fail(null)` throw `NullPointerException`,
  `get()` on an error and `getError()` on a success throw
  `NoSuchElementException` with the class's own messages, `getOrThrow()`
  throws the stored exception, and `mapError`/`wrapError` throw when their
  function throws or returns null (because `fail(null)` does). A supplier
  handed to `from` is a `Nullable` of the outcome its single invocation
  has. `map` never throws: it routes `f` through `from`, so an `f` that
  throws or returns null yields an error. Lemmas state the round trip
  between `from` and `getOrThrow`, the identity and composition laws of `map`
  and `mapError`, and what chains of combinators do.
- `Representation` (representation.dfy): the class as written, over its two
  nullable private fields `e` and `s`. Each method is written with the same
  null tests as the source and carries an `ensures` that, on a valid object,
  it agrees with the abstract operation. `Valid` (exactly one field non-null)
  is established by the factories and kept by the combinators; the private
  constructor on its own would admit an object with neither field set.

`success(null)`, `fail(null)` and `from(null)` throw
`NullPointerException`. The error type is `Exception`. An exception thrown
by `mapError`'s function propagates out of `mapError`, and a null it returns
makes `fail` throw. A null function reference is the function `NullFn`,
whose every call throws `NullPointerException`.

`get()` and `getError()` are total here and model the
`NoSuchElementException` path explicitly. The datatype's `value` and
`error` destructors are the precondition-guarded accessors.

## Model

| member | source | states |
|---|---|---|
| `Results.Success` | src/main/java/uk/co/samwho/result/Result.java:20-22 | success(s) returns exactly when s is non-null; the result is a success and not an error, and its get() returns s; success(null) throws NullPointerException |
| `Results.Fail` | src/main/java/uk/co/samwho/result/Result.java:30-32 | fail(e) returns exactly when e is non-null; the result is an error and not a success, and its getError() returns e; fail(null) throws NullPointerException |
| `Results.From` | src/main/java/uk/co/samwho/result/Result.java:43-50 | from throws (NullPointerException) exactly when the supplier is null; a supplier returning non-null v gives a success of v, one returning null gives an error holding NullPointerException, one throwing t gives an error holding t |
| `Results.Capture` | src/main/java/uk/co/samwho/result/Result.java:45-49 | the try/catch of from: a supplier returning non-null v gives a success of v, one returning null an error holding NullPointerException, one throwing t an error holding t |
| `Results.Result.IsError` | src/main/java/uk/co/samwho/result/Result.java:64-66 | isError() holds exactly on an error; when it is false a value is held |
| `Results.Result.IsSuccess` | src/main/java/uk/co/samwho/result/Result.java:72-74 | isSuccess() holds exactly on a success, and never together with isError() |
| `Results.Result.GetError` | src/main/java/uk/co/samwho/result/Result.java:86-90 | getError() returns exactly on an error, and then returns the stored exception; on a success it throws NoSuchElementException with the class's message |
| `Results.Result.Get` | src/main/java/uk/co/samwho/result/Result.java:102-106 | get() returns exactly on a success, and then returns the stored value; on an error it throws NoSuchElementException with the class's message |
| `Results.Result.GetOrElse` | src/main/java/uk/co/samwho/result/Result.java:114-117 | getOrElse(def) is def on an error and the stored value on a success |
| `Results.GetOrElseNullIffError` | src/main/java/uk/co/samwho/result/Result.java:114-117 | getOrElse(null) is null exactly when the Result is an error |
| `Results.GetOrElseIsOptionalOrElse` | src/main/java/uk/co/samwho/result/Result.java:114-117 | getOrElse(def) equals asOptional() with def substituted for an empty optional |
| `Results.Result.GetOrThrow` | src/main/java/uk/co/samwho/result/Result.java:123-126 | getOrThrow() behaves as get() on a success and throws the exception getError() would return on an error |
| `Results.FromGetOrThrow` | src/main/java/uk/co/samwho/result/Result.java:43-50 | from(() -> r.getOrThrow()) returns r itself, for successes and errors alike |
| `Results.GetOrThrowFrom` | src/main/java/uk/co/samwho/result/Result.java:45-49 | from with a non-null supplier never throws, and getOrThrow() on its result completes as the supplier did, except that a null the supplier returned comes back as a thrown NullPointerException |
| `Results.Result.Map` | src/main/java/uk/co/samwho/result/Result.java:139-142 | map(f) on an error is that same error (f is not consulted); on a success it is what from(() -> f.apply(value)) returns |
| `Results.MapIdentity` | src/main/java/uk/co/samwho/result/Result.java:139-142 | map(x -> x) leaves every Result unchanged |
| `Results.MapThen` | src/main/java/uk/co/samwho/result/Result.java:139-142 | map(f).map(g) equals one map of the lambda that applies f, requires a non-null answer and applies g |
| `Results.MapAll` | src/main/java/uk/co/samwho/result/Result.java:139-142 | an error entering any chain of map calls comes out of it unchanged |
| `Results.MapAllIsOneMap` | src/main/java/uk/co/samwho/result/Result.java:139-142 | any chain of map calls equals a single map of the chained lambda |
| `Results.MapAllNeverRecovers` | src/main/java/uk/co/samwho/result/Result.java:139-142 | once a prefix of a map chain has produced an error, the whole chain ends in that same error |
| `Results.Result.MapError` | src/main/java/uk/co/samwho/result/Result.java:153-156 | mapError(f) returns a success unchanged; on an error e it completes as fail(f.apply(e)) does, throwing what f throws and NullPointerException when f returns null |
| `Results.NullFunctionArguments` | src/main/java/uk/co/samwho/result/Result.java:139-156 | a null function passed to map leaves an error unchanged and turns a success into an error holding NullPointerException; passed to mapError it leaves a success unchanged and makes the call throw NullPointerException on an error |
| `Results.MapErrorIdentity` | src/main/java/uk/co/samwho/result/Result.java:153-156 | mapError(e -> e) returns every Result unchanged |
| `Results.MapErrorThen` | src/main/java/uk/co/samwho/result/Result.java:153-156 | mapError(f) followed by mapError(g) completes exactly as one mapError of the chained lambda |
| `Results.MapErrorAll` | src/main/java/uk/co/samwho/result/Result.java:153-156 | a success passes through any chain of mapError calls unchanged |
| `Results.Result.WrapErrorWithMessage` | src/main/java/uk/co/samwho/result/Result.java:169-172 | wrapError(f, message) completes exactly as mapError(e -> f.apply(message, e)) |
| `Results.Result.WrapError` | src/main/java/uk/co/samwho/result/Result.java:179-181 | wrapError(f) returns a success unchanged and on an error e completes as fail(f.apply(e)), exactly as mapError(f) |
| `Results.Result.AsOptional` | src/main/java/uk/co/samwho/result/Result.java:188-190 | asOptional() is present exactly on a success, and then holds the stored value |
| `Results.AsOptionalLosesError` | src/main/java/uk/co/samwho/result/Result.java:188-190 | asOptional() of two errors with different exceptions is the same empty optional |
| `Representation.Fields.Abs` | src/main/java/uk/co/samwho/result/Result.java:52-58 | an object with exactly one non-null field stands for an error exactly when e is set, holding e, and otherwise for a success holding s |
| `Representation.Represent` | src/main/java/uk/co/samwho/result/Result.java:52-58 | every Result has a field pair with exactly one non-null field that stands for it |
| `Representation.RepresentAbs` | src/main/java/uk/co/samwho/result/Result.java:52-58 | valid field pairs and Results correspond one to one |
| `Representation.Success` | src/main/java/uk/co/samwho/result/Result.java:20-22 | building the fields as success does (requireNonNull, then e null and s set) completes exactly as the abstract success |
| `Representation.Fail` | src/main/java/uk/co/samwho/result/Result.java:30-32 | building the fields as fail does completes exactly as the abstract fail |
| `Representation.From` | src/main/java/uk/co/samwho/result/Result.java:43-50 | from over the fields, with its try/catch, completes exactly as the abstract from |
| `Representation.ExactlyOneState` | src/main/java/uk/co/samwho/result/Result.java:64-106 | on every valid object exactly one of isError() and isSuccess() holds, and exactly one of get() and getError() throws |
| `Representation.FactoriesEstablishValid` | src/main/java/uk/co/samwho/result/Result.java:20-50 | success only builds objects with e null and s set, fail only objects with e set and s null, and from only objects with exactly one field set |
| `Representation.CombinatorsPreserveValid` | src/main/java/uk/co/samwho/result/Result.java:139-156 | map, mapError and both wrapError overloads on a valid object only return valid objects |
| `Representation.ConstructorAloneAdmitsNeither` | src/main/java/uk/co/samwho/result/Result.java:55-58 | the unchecked private constructor admits an object with neither field set, on which isError() and isSuccess() are both false and get() returns null |
| `Representation.Fields.IsError` | src/main/java/uk/co/samwho/result/Result.java:64-66 | the test e != null holds exactly when the represented Result is an error |
| `Representation.Fields.IsSuccess` | src/main/java/uk/co/samwho/result/Result.java:72-74 | the test s != null holds exactly when the represented Result is a success |
| `Representation.Fields.GetError` | src/main/java/uk/co/samwho/result/Result.java:86-90 | getError() over the fields completes as the abstract getError() |
| `Representation.Fields.Get` | src/main/java/uk/co/samwho/result/Result.java:102-106 | get() over the fields completes as the abstract get(), so on a valid object it never returns null |
| `Representation.Fields.GetOrElse` | src/main/java/uk/co/samwho/result/Result.java:114-117 | getOrElse(def) over the fields returns what the abstract getOrElse(def) does |
| `Representation.Fields.GetOrThrow` | src/main/java/uk/co/samwho/result/Result.java:123-126 | getOrThrow() over the fields completes as the abstract getOrThrow() |
| `Representation.Fields.Map` | src/main/java/uk/co/samwho/result/Result.java:139-142 | map(f) over the fields, with its cast of an erroneous object, returns a valid object standing for the abstract map(f) |
| `Representation.Fields.MapError` | src/main/java/uk/co/samwho/result/Result.java:153-156 | mapError(f) over the fields completes as the abstract mapError(f) |
| `Representation.Fields.WrapErrorWithMessage` | src/main/java/uk/co/samwho/result/Result.java:169-172 | wrapError(f, message) over the fields completes as the abstract wrapError(f, message) |
| `Representation.Fields.WrapError` | src/main/java/uk/co/samwho/result/Result.java:179-181 | wrapError(f) over the fields completes as the abstract wrapError(f) |
| `Representation.Fields.AsOptional` | src/main/java/uk/co/samwho/result/Result.java:188-190 | Optional.ofNullable(s) equals the abstract asOptional() on a valid object, though it never reads e |

## Left out

- Throwables that are not `Exception` (a JVM `Error`): `ThrowingSupplier.get`
  and the functions passed to `map`, `mapError` and both `wrapError`
  overloads may throw them. They escape `mapError` and `wrapError` directly,
  and escape `map` and `from` because `from` catches only `Exception`. In the
  model a supplier or a caller's function completes only by returning or by
  throwing an `Exception`.
- Object identity: "returns `this`" and the unchecked cast in `map` are
  modelled as value equality.
- The exceptions' classes, messages, causes and `getCause()` chaining: they
  belong to the constructors callers pass in. `Exception.Other(id)` is
  opaque, and `mapError`'s and `wrapError`'s functions are arbitrary.
- The `Supplier<S>` interface the class implements: only its `get` is
  modelled.
- The demo entry point `App.java` (randomness and console output) and the
  example program `ReadingFiles.java` (filesystem access and console output).
  Neither is part of this model.
- Thread-safe publication of instances: there is no concurrency in the model.
- Representation.Fields.Map: requires the object invariant `Valid()`, which
  `map` does not check but every object the factories build satisfies. On an
  object with neither field set the Java method would call `f` with null.
