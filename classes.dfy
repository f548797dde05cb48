/** The class objects the error builder creates and reads, as an explicit
    registry: a class is an index into a sequence of class records, and every
    class's direct bases were created before it. Python's `issubclass`/
    `isinstance` become `IsA`, the reflexive-transitive closure of the direct
    bases, and attribute lookup on a class becomes `Owner`: the class itself,
    else the first base (left to right, depth first) that has the attribute. */
module Classes {
  import opened Dict

  type ClassId = nat

  /** The Python objects the builder stores or inspects. Only class objects
      matter to it; every other object (a function, a descriptor, ...) is opaque. */
  datatype Obj = Str(s: string) | Cls(id: ClassId) | Other(tag: nat)

  /** One entry of `__errors__`: the assigned value and the annotated sub types. */
  datatype KindMeta = KindMeta(value: Obj, subTypes: seq<Obj>)

  /** A class object: `__name__`, `__module__`, `__bases__`, its own
      `__errors__` (if it has one of its own), its other own attributes, and
      its own `__value__` (kind classes only). */
  datatype ClassInfo = ClassInfo(
    name: string,
    moduleName: string,
    bases: seq<ClassId>,
    errors: Option<Dict<KindMeta>>,
    attrs: map<string, Obj>,
    value: Option<Obj>)

  const BaseExceptionId: ClassId := 0
  const ExceptionId: ClassId := 1
  const AssertionErrorId: ClassId := 2
  /** `gaffe.error.Error`, the root of every taxonomy. */
  const ErrorId: ClassId := 3
  const ErrorModule := "gaffe.error"

  /** The attributes every exception class inherits from `BaseException`
      whose names do not start with `__`: the `args` descriptor and the
      `with_traceback` method. Neither is a class. */
  function BaseExceptionAttrs(): (m: map<string, Obj>)
    ensures forall k :: k in m ==> !m[k].Cls?
  {
    map["args" := Other(0), "with_traceback" := Other(1)]
  }

  /** The classes that exist before any taxonomy is declared. `Error` is created
      by `ErrorMeta` through its early return, so it has no `__errors__` and no
      kinds; its own attributes are all dunder methods, which are left out. */
  function Bootstrap(): (cs: seq<ClassInfo>)
    ensures |cs| == ErrorId + 1
  {
    [ ClassInfo("BaseException", "builtins", [], None, BaseExceptionAttrs(), None),
      ClassInfo("Exception", "builtins", [BaseExceptionId], None, map[], None),
      ClassInfo("AssertionError", "builtins", [ExceptionId], None, map[], None),
      ClassInfo("Error", ErrorModule, [ExceptionId], None, map[], None) ]
  }

  /** Every direct base was created before the class that lists it. */
  predicate WellFormed(cs: seq<ClassInfo>)
  {
    forall i, j :: 0 <= i < |cs| && 0 <= j < |cs[i].bases| ==> cs[i].bases[j] < i
  }

  /** `isclass(o)`: the object is a class of the registry. */
  predicate IsClass(cs: seq<ClassInfo>, o: Obj)
  {
    o.Cls? && o.id < |cs|
  }

  /** `issubclass(c, d)`: `d` is `c` or an ancestor of one of `c`'s direct bases. */
  predicate IsA(cs: seq<ClassInfo>, c: ClassId, d: ClassId)
    requires WellFormed(cs) && c < |cs|
    decreases c
  {
    c == d || exists j :: 0 <= j < |cs[c].bases| && IsA(cs, cs[c].bases[j], d)
  }

  /** A class is only ever a subclass of itself and of older classes. */
  lemma {:induction false} IsABelow(cs: seq<ClassInfo>, c: ClassId, d: ClassId)
    requires WellFormed(cs) && c < |cs|
    requires IsA(cs, c, d)
    ensures d <= c
    decreases c
  {
    if c != d {
      var j :| 0 <= j < |cs[c].bases| && IsA(cs, cs[c].bases[j], d);
      IsABelow(cs, cs[c].bases[j], d);
    }
  }

  lemma {:induction false} IsATransitive(cs: seq<ClassInfo>, a: ClassId, b: ClassId, c: ClassId)
    requires WellFormed(cs) && a < |cs| && b < |cs|
    requires IsA(cs, a, b) && IsA(cs, b, c)
    ensures IsA(cs, a, c)
    decreases a
  {
    if a != b {
      var j :| 0 <= j < |cs[a].bases| && IsA(cs, cs[a].bases[j], b);
      IsATransitive(cs, cs[a].bases[j], b, c);
    }
  }

  /** Ancestry of a class is fixed once it exists: it does not change when
      classes are appended or when attributes other than the bases change. */
  lemma {:induction false} IsAFrame(cs: seq<ClassInfo>, cs': seq<ClassInfo>, c: ClassId, d: ClassId)
    requires WellFormed(cs) && WellFormed(cs') && c < |cs| <= |cs'|
    requires forall i :: 0 <= i < |cs| ==> cs[i].bases == cs'[i].bases
    ensures IsA(cs, c, d) == IsA(cs', c, d)
    decreases c
  {
    forall j | 0 <= j < |cs[c].bases|
      ensures IsA(cs, cs[c].bases[j], d) == IsA(cs', cs'[c].bases[j], d)
    {
      IsAFrame(cs, cs', cs[c].bases[j], d);
    }
  }

  /** In particular, appending classes leaves the ancestry of the older ones as it was. */
  lemma IsAExtend(cs: seq<ClassInfo>, cs': seq<ClassInfo>, c: ClassId, d: ClassId)
    requires WellFormed(cs) && WellFormed(cs') && c < |cs| <= |cs'| && cs'[..|cs|] == cs
    ensures IsA(cs, c, d) == IsA(cs', c, d)
  {
    assert forall i :: 0 <= i < |cs| ==> cs[i].bases == cs'[i].bases;
    IsAFrame(cs, cs', c, d);
  }

  /** What is looked up on a class: an ordinary attribute, or `__errors__`. */
  datatype Slot = Attr(name: string) | ErrorsTable

  predicate Has(info: ClassInfo, s: Slot)
  {
    match s
    case Attr(k) => k in info.attrs
    case ErrorsTable => info.errors.Some?
  }

  /** The class whose own namespace answers a lookup of `s` on `c`: `c` itself
      if it has `s`, else the first base, left to right, whose lookup succeeds. */
  function Owner(cs: seq<ClassInfo>, c: ClassId, s: Slot): (r: Option<ClassId>)
    requires WellFormed(cs) && c < |cs|
    ensures r.Some? ==> r.value < |cs| && Has(cs[r.value], s) && IsA(cs, c, r.value)
    ensures Has(cs[c], s) ==> r == Some(c)
    decreases c, 1, 0
  {
    if Has(cs[c], s) then Some(c) else OwnerIn(cs, cs[c].bases, c, s)
  }

  function OwnerIn(cs: seq<ClassInfo>, bs: seq<ClassId>, bound: ClassId, s: Slot): (r: Option<ClassId>)
    requires WellFormed(cs) && bound < |cs|
    requires forall j :: 0 <= j < |bs| ==> bs[j] < bound
    ensures r.Some? ==> r.value < |cs| && Has(cs[r.value], s)
    ensures r.Some? ==> exists j :: 0 <= j < |bs| && IsA(cs, bs[j], r.value)
    decreases bound, 0, |bs|
  {
    if bs == [] then None
    else
      match Owner(cs, bs[0], s)
      case Some(o) => Some(o)
      case None =>
        var r := OwnerIn(cs, bs[1..], bound, s);
        assert r.Some? ==> exists j :: 0 <= j < |bs[1..]| && IsA(cs, bs[1..][j], r.value);
        r
  }

  /** A lookup through a base list fails exactly when it fails on every base. */
  lemma {:induction false} OwnerInNone(cs: seq<ClassInfo>, bs: seq<ClassId>, bound: ClassId, s: Slot)
    requires WellFormed(cs) && bound < |cs|
    requires forall j :: 0 <= j < |bs| ==> bs[j] < bound
    ensures OwnerIn(cs, bs, bound, s).None? <==> forall j :: 0 <= j < |bs| ==> Owner(cs, bs[j], s).None?
    decreases |bs|
  {
    if bs != [] {
      var tail := bs[1..];
      OwnerInNone(cs, tail, bound, s);
      assert forall j :: 1 <= j < |bs| ==> bs[j] == tail[j - 1];
    }
  }

  /** A lookup through a base list that succeeds answers as the first base on
      which it succeeds: the bases before that one are not consulted further. */
  lemma {:induction false} OwnerInFirst(cs: seq<ClassInfo>, bs: seq<ClassId>, bound: ClassId, s: Slot)
    requires WellFormed(cs) && bound < |cs|
    requires forall j :: 0 <= j < |bs| ==> bs[j] < bound
    ensures OwnerIn(cs, bs, bound, s).Some? ==>
      exists j :: 0 <= j < |bs| && Owner(cs, bs[j], s) == OwnerIn(cs, bs, bound, s) &&
        forall i :: 0 <= i < j ==> Owner(cs, bs[i], s).None?
    decreases |bs|
  {
    if bs == [] {
    } else if Owner(cs, bs[0], s).Some? {
      assert Owner(cs, bs[0], s) == OwnerIn(cs, bs, bound, s);
    } else {
      var tail := bs[1..];
      OwnerInFirst(cs, tail, bound, s);
      if OwnerIn(cs, tail, bound, s).Some? {
        var j :| 0 <= j < |tail| && Owner(cs, tail[j], s) == OwnerIn(cs, tail, bound, s) &&
          forall i :: 0 <= i < j ==> Owner(cs, tail[i], s).None?;
        assert forall i :: 1 <= i < j + 1 ==> bs[i] == tail[i - 1];
        assert Owner(cs, bs[j + 1], s) == OwnerIn(cs, bs, bound, s);
      }
    }
  }

  /** A failed lookup (`hasattr` is false) means that neither the class nor
      any of its ancestors has the attribute. */
  lemma {:induction false} OwnerNoneAbsent(cs: seq<ClassInfo>, c: ClassId, s: Slot, d: ClassId)
    requires WellFormed(cs) && c < |cs| && d < |cs|
    requires Owner(cs, c, s).None? && IsA(cs, c, d)
    ensures !Has(cs[d], s)
    decreases c
  {
    if c != d {
      var j :| 0 <= j < |cs[c].bases| && IsA(cs, cs[c].bases[j], d);
      OwnerInNone(cs, cs[c].bases, c, s);
      OwnerNoneAbsent(cs, cs[c].bases[j], s, d);
    }
  }

  /** `getattr(c, k)` where `hasattr(c, k)`. */
  function FindAttr(cs: seq<ClassInfo>, c: ClassId, k: string): Option<Obj>
    requires WellFormed(cs) && c < |cs|
  {
    match Owner(cs, c, Attr(k))
    case Some(o) => Some(cs[o].attrs[k])
    case None => None
  }

  /** `c.__errors__` where `hasattr(c, "__errors__")`. */
  function TableOf(cs: seq<ClassInfo>, c: ClassId): Option<Dict<KindMeta>>
    requires WellFormed(cs) && c < |cs|
  {
    match Owner(cs, c, ErrorsTable)
    case Some(o) => cs[o].errors
    case None => None
  }

  /** Lookups on a class read only that class and older ones. */
  lemma {:induction false} OwnerFrame(cs: seq<ClassInfo>, cs': seq<ClassInfo>, c: ClassId, s: Slot)
    requires WellFormed(cs) && WellFormed(cs') && c < |cs| <= |cs'|
    requires cs == cs'[..|cs|]
    ensures Owner(cs, c, s) == Owner(cs', c, s)
    decreases c, 1
  {
    assert cs[c] == cs'[c];
    if !Has(cs[c], s) {
      OwnerInFrame(cs, cs', cs[c].bases, c, s);
    }
  }

  lemma {:induction false} OwnerInFrame(cs: seq<ClassInfo>, cs': seq<ClassInfo>, bs: seq<ClassId>, bound: ClassId, s: Slot)
    requires WellFormed(cs) && WellFormed(cs') && bound < |cs| <= |cs'|
    requires cs == cs'[..|cs|]
    requires forall j :: 0 <= j < |bs| ==> bs[j] < bound
    ensures OwnerIn(cs, bs, bound, s) == OwnerIn(cs', bs, bound, s)
    decreases bound, 0, |bs|
  {
    if bs != [] {
      OwnerFrame(cs, cs', bs[0], s);
      OwnerInFrame(cs, cs', bs[1..], bound, s);
    }
  }
}
