/** The `raises(*allowed_errors)` decorator: the wrapped callable's outcome
    is passed on, except that an `Exception` which is not an instance of any
    allowed class is replaced by an `AssertionError`. The callable itself is
    a parameter, a function from its arguments to its outcome. */
module Raises {
  import opened Classes
  import opened ErrorValue

  /** How a call ends: it returns a value, or it raises an exception object. */
  datatype Outcome = Returned(value: Obj) | Raised(error: Instance)

  /** The outcome mentions only classes of the registry. */
  predicate InRegistry(cs: seq<ClassInfo>, o: Outcome)
  {
    o.Raised? ==> o.error.cls < |cs|
  }

  /** `isinstance(error, allowed_errors)` for an object of class `c` and a
      tuple of classes, tried left to right. */
  predicate IsInstance(cs: seq<ClassInfo>, c: ClassId, allowed: seq<ClassId>)
    requires WellFormed(cs) && c < |cs|
    ensures IsInstance(cs, c, allowed) <==> exists i :: 0 <= i < |allowed| && IsA(cs, c, allowed[i])
    decreases |allowed|
  {
    |allowed| > 0 && (IsA(cs, c, allowed[0]) || IsInstance(cs, c, allowed[1..]))
  }

  /** The outcome is an `Exception` raised that is an instance of no allowed class. */
  predicate Disallowed(cs: seq<ClassInfo>, allowed: seq<ClassId>, o: Outcome)
    requires WellFormed(cs) && |cs| > ErrorId && InRegistry(cs, o)
  {
    o.Raised? && IsA(cs, o.error.cls, ExceptionId) && !IsInstance(cs, o.error.cls, allowed)
  }

  /** The `AssertionError` that reports a disallowed exception; the text of
      its message is given by the caller. */
  function Violation(message: string): (e: Instance)
    ensures e.cls == AssertionErrorId && e.args == [Str(message)]
  {
    Instance(AssertionErrorId, [Str(message)], map[])
  }

  /** The `try`/`except Exception` around the call: a return and a raise of
      something that is not an `Exception` pass untouched, an allowed
      exception is raised again as it is, and any other becomes `Violation`. */
  function Guard(cs: seq<ClassInfo>, allowed: seq<ClassId>, o: Outcome, message: string): (r: Outcome)
    requires WellFormed(cs) && |cs| > ErrorId && InRegistry(cs, o)
    ensures InRegistry(cs, r)
    ensures r == o || r == Raised(Violation(message))
    ensures r != o ==> Disallowed(cs, allowed, o)
  {
    match o
    case Returned(_) => o
    case Raised(e) =>
      if !IsA(cs, e.cls, ExceptionId) then o
      else if IsInstance(cs, e.cls, allowed) then o
      else Raised(Violation(message))
  }

  /** `raises(*allowed)(what)(*args, **kwargs)`: one call of `what` with the
      same arguments, its outcome guarded. */
  function Call(cs: seq<ClassInfo>, allowed: seq<ClassId>, what: (seq<Obj>, map<string, Obj>) -> Outcome,
                args: seq<Obj>, kwargs: map<string, Obj>, message: string): (r: Outcome)
    requires WellFormed(cs) && |cs| > ErrorId && InRegistry(cs, what(args, kwargs))
    ensures what(args, kwargs).Returned? ==> r == what(args, kwargs)
  {
    Guard(cs, allowed, what(args, kwargs), message)
  }

  /** An exception that is an instance of some allowed class is raised again,
      the same object. */
  lemma AllowedReraised(cs: seq<ClassInfo>, allowed: seq<ClassId>, e: Instance, message: string, i: nat)
    requires WellFormed(cs) && |cs| > ErrorId && e.cls < |cs|
    requires i < |allowed| && IsA(cs, e.cls, allowed[i])
    ensures Guard(cs, allowed, Raised(e), message) == Raised(e)
  {
  }

  /** An `Exception` that is an instance of no allowed class is replaced by
      the `AssertionError`; with no allowed classes at all, every one is. */
  lemma DisallowedReplaced(cs: seq<ClassInfo>, allowed: seq<ClassId>, e: Instance, message: string)
    requires WellFormed(cs) && |cs| > ErrorId && e.cls < |cs|
    requires IsA(cs, e.cls, ExceptionId)
    requires allowed == [] || forall i :: 0 <= i < |allowed| ==> !IsA(cs, e.cls, allowed[i])
    ensures Guard(cs, allowed, Raised(e), message) == Raised(Violation(message))
  {
  }

  /** What the decorator promises its caller: whatever the wrapped call
      raises is an instance of an allowed class, something other than an
      `Exception` raised by the callable itself, or the `AssertionError`. */
  lemma GuardPromise(cs: seq<ClassInfo>, allowed: seq<ClassId>, o: Outcome, message: string)
    requires WellFormed(cs) && |cs| > ErrorId && InRegistry(cs, o)
    ensures var r := Guard(cs, allowed, o, message);
      r.Raised? ==>
        (r == o && !IsA(cs, r.error.cls, ExceptionId)) ||
        (r == o && exists i :: 0 <= i < |allowed| && IsA(cs, r.error.cls, allowed[i])) ||
        r.error == Violation(message)
  {
  }

  /** Something raised that is not an `Exception` is not caught by the
      `except Exception` clause and leaves the wrapper untouched. */
  lemma NonExceptionPassed(cs: seq<ClassInfo>, allowed: seq<ClassId>, e: Instance, message: string)
    requires WellFormed(cs) && |cs| > ErrorId && e.cls < |cs|
    requires !IsA(cs, e.cls, ExceptionId)
    ensures Guard(cs, allowed, Raised(e), message) == Raised(e)
  {
  }

  /** Two nested wrappers with the same allowed classes, the inner one
      reporting with `inner` and the outer one with `outer`: what the inner
      one lets through passes the outer one too; its `AssertionError` passes
      only if `AssertionError` is allowed, and is otherwise replaced by the
      outer one's. */
  lemma GuardTwice(cs: seq<ClassInfo>, allowed: seq<ClassId>, o: Outcome, inner: string, outer: string)
    requires WellFormed(cs) && |cs| > ErrorId && cs[AssertionErrorId].bases == [ExceptionId]
    requires InRegistry(cs, o)
    ensures var once := Guard(cs, allowed, o, inner);
      Guard(cs, allowed, once, outer) ==
        if !Disallowed(cs, allowed, o) || IsInstance(cs, AssertionErrorId, allowed) then once
        else Raised(Violation(outer))
  {
    if Disallowed(cs, allowed, o) {
      assert IsA(cs, cs[AssertionErrorId].bases[0], ExceptionId);
    }
  }

  /** Allowing more never replaces more: an outcome the narrower allow-list
      lets through, a list whose classes are superclasses of the narrower
      list's classes lets through too. */
  lemma WiderAllowList(cs: seq<ClassInfo>, allowed: seq<ClassId>, wider: seq<ClassId>, o: Outcome, message: string)
    requires WellFormed(cs) && |cs| > ErrorId && InRegistry(cs, o)
    requires forall i :: 0 <= i < |allowed| && allowed[i] < |cs| ==>
      exists i' :: 0 <= i' < |wider| && IsA(cs, allowed[i], wider[i'])
    requires Guard(cs, allowed, o, message) == o
    ensures Guard(cs, wider, o, message) == o
  {
    if o.Raised? && IsA(cs, o.error.cls, ExceptionId) && IsInstance(cs, o.error.cls, allowed) {
      var c := o.error.cls;
      var i :| 0 <= i < |allowed| && IsA(cs, c, allowed[i]);
      IsABelow(cs, c, allowed[i]);
      var i' :| 0 <= i' < |wider| && IsA(cs, allowed[i], wider[i']);
      IsATransitive(cs, c, allowed[i], wider[i']);
    }
  }

  /** Listing `Exception` lets every outcome through unchanged. */
  lemma ExceptionAllowsAll(cs: seq<ClassInfo>, allowed: seq<ClassId>, o: Outcome, message: string, i: nat)
    requires WellFormed(cs) && |cs| > ErrorId && InRegistry(cs, o)
    requires i < |allowed| && allowed[i] == ExceptionId
    ensures Guard(cs, allowed, o, message) == o
  {
  }
}
