/** What `ErrorMeta` does when a class is declared, as functions of the
    registry as it stands before the declaration:
    - `CollectKinds`: every non-dunder body attribute becomes a kind;
    - `ApplyAnnotations`: annotations give kinds their sub types, or fail;
    - `MergeBases`: the kind tables of the `Error` bases are merged under the
      node's own, the first base winning;
    - `KindClasses`: one child class `"<Node>@k"` per kind, with bases
      `[Node] + sub_types + [Base.k for every base that has k]`;
    - `Build`: the whole declaration, as the classes it appends or the error
      it raises. */
module ErrorMeta {
  import opened Dict
  import opened Classes

  /** Where Python's `type.__new__` rejects a base list: for the node itself or
      for the child class of one kind. */
  datatype Site = NodeSite | KindSite(kind: string)

  datatype DeclError =
    | InvalidSubtype(kind: string)  // the ValueError of an unsupported annotation
    | MissingKind(kind: string)     // the KeyError of an annotation without an assignment
    | NotAClassBase(site: Site)     // TypeError: a base that is not a class
    | InconsistentMro(site: Site)   // TypeError: no consistent method resolution order

  datatype Result<T> = Ok(value: T) | Err(error: DeclError)

  /** A class-body annotation: `Union[...]` with its arguments, or any other object. */
  datatype Annotation = UnionOf(args: seq<Obj>) | Plain(o: Obj)

  /** `name.startswith("__")` */
  predicate Dunder(k: string)
  {
    |k| >= 2 && k[..2] == "__"
  }

  // ---------------------------------------------------------------- kinds

  /** The body attributes from `body` on entered into the table `t`, in
      order: every non-dunder one becomes a kind with no sub types yet. */
  function CollectKinds(t: Dict<KindMeta>, body: Dict<Obj>): (r: Dict<KindMeta>)
    ensures forall k :: Get(r, k) ==
                        (if Dunder(k) || Get(body, k).None? then Get(t, k)
                         else Some(KindMeta(Get(body, k).value, [])))
    decreases |body|
  {
    if body == [] then t
    else
      var tail: Dict<Obj> := body[1..];
      var (k, v) := body[0];
      assert Get(tail, k).None?;
      CollectKinds(if Dunder(k) then t else Put(t, k, KindMeta(v, [])), tail)
  }

  /** The sub types an annotation gives its kind, or None when the annotation
      is neither a `Union` nor a subclass of `Exception`. */
  function Accepted(cs: seq<ClassInfo>, ann: Annotation): Option<seq<Obj>>
    requires WellFormed(cs)
  {
    match ann
    case UnionOf(args) => Some(args)
    case Plain(o) => if IsClass(cs, o) && IsA(cs, o.id, ExceptionId) then Some([o]) else None
  }

  /** One annotation applied to the table. */
  function Annotate(cs: seq<ClassInfo>, t: Dict<KindMeta>, k: string, ann: Annotation): Result<Dict<KindMeta>>
    requires WellFormed(cs)
  {
    match Accepted(cs, ann)
    case None => Err(InvalidSubtype(k))
    case Some(sub) =>
      match Get(t, k)
      case None => Err(MissingKind(k))
      case Some(meta) => Ok(Put(t, k, meta.(subTypes := sub)))
  }

  /** The annotations applied in order; the first failure ends the declaration. */
  function ApplyAnnotations(cs: seq<ClassInfo>, t: Dict<KindMeta>, anns: Dict<Annotation>): Result<Dict<KindMeta>>
    requires WellFormed(cs)
    decreases |anns|
  {
    if anns == [] then Ok(t)
    else
      match Annotate(cs, t, anns[0].0, anns[0].1)
      case Err(e) => Err(e)
      case Ok(t') => ApplyAnnotations(cs, t', anns[1..])
  }

  /** The error an annotation raises on its own, if any. */
  function Fault(cs: seq<ClassInfo>, t: Dict<KindMeta>, k: string, ann: Annotation): Option<DeclError>
    requires WellFormed(cs)
  {
    if Accepted(cs, ann).None? then Some(InvalidSubtype(k))
    else if Get(t, k).None? then Some(MissingKind(k))
    else None
  }

  /** Reference definition of a kind's entry after the annotations: its own
      entry, with the sub types of its annotation if it has one. */
  function Annotated(cs: seq<ClassInfo>, t: Dict<KindMeta>, anns: Dict<Annotation>, k: string): Option<KindMeta>
    requires WellFormed(cs)
  {
    match Get(anns, k)
    case None => Get(t, k)
    case Some(ann) =>
      if Accepted(cs, ann).Some? && Get(t, k).Some?
      then Some(Get(t, k).value.(subTypes := Accepted(cs, ann).value))
      else None
  }

  /** One accepted annotation replaces the sub types of its kind and nothing else. */
  lemma AnnotateOk(cs: seq<ClassInfo>, t: Dict<KindMeta>, k: string, ann: Annotation)
    requires WellFormed(cs)
    requires Annotate(cs, t, k, ann).Ok?
    ensures Accepted(cs, ann).Some? && Get(t, k).Some?
    ensures forall j :: Get(Annotate(cs, t, k, ann).value, j) ==
                        if j == k then Some(Get(t, k).value.(subTypes := Accepted(cs, ann).value))
                        else Get(t, j)
  {
  }

  /** An accepted annotation keeps the kinds in their order. */
  lemma AnnotateKeys(cs: seq<ClassInfo>, t: Dict<KindMeta>, k: string, ann: Annotation)
    requires WellFormed(cs)
    requires Annotate(cs, t, k, ann).Ok?
    ensures Keys(Annotate(cs, t, k, ann).value) == Keys(t)
  {
    PutKeys(t, k, Get(t, k).value.(subTypes := Accepted(cs, ann).value));
  }

  /** An accepted annotation changes no other annotation's fault: it neither
      adds nor removes a kind. */
  lemma AnnotateKeepsFaults(cs: seq<ClassInfo>, t: Dict<KindMeta>, k: string, ann: Annotation,
                            k': string, ann': Annotation)
    requires WellFormed(cs)
    requires Annotate(cs, t, k, ann).Ok?
    ensures Fault(cs, Annotate(cs, t, k, ann).value, k', ann') == Fault(cs, t, k', ann')
  {
    AnnotateOk(cs, t, k, ann);
  }

  /** Annotations succeed exactly when each one does on its own (whether a
      kind is present does not depend on earlier annotations). */
  lemma {:induction false} AnnotationsSucceed(cs: seq<ClassInfo>, t: Dict<KindMeta>, anns: Dict<Annotation>)
    requires WellFormed(cs)
    ensures ApplyAnnotations(cs, t, anns).Ok? <==>
      forall j :: 0 <= j < |anns| ==> Fault(cs, t, anns[j].0, anns[j].1).None?
    decreases |anns|
  {
    if anns != [] {
      var rest: Dict<Annotation> := anns[1..];
      match Annotate(cs, t, anns[0].0, anns[0].1)
      case Err(e) =>
      case Ok(t') =>
        AnnotationsSucceed(cs, t', rest);
        forall j | 0 <= j < |rest| ensures Fault(cs, t', rest[j].0, rest[j].1) == Fault(cs, t, rest[j].0, rest[j].1) {
          AnnotateKeepsFaults(cs, t, anns[0].0, anns[0].1, rest[j].0, rest[j].1);
        }
    }
  }

  /** Annotations keep the kinds, in order, and their values, and set the sub
      types of each kind they name to the annotation's. */
  lemma AnnotationsKeepKinds(cs: seq<ClassInfo>, t: Dict<KindMeta>, anns: Dict<Annotation>)
    requires WellFormed(cs)
    requires ApplyAnnotations(cs, t, anns).Ok?
    ensures Keys(ApplyAnnotations(cs, t, anns).value) == Keys(t)
    ensures forall k :: Get(ApplyAnnotations(cs, t, anns).value, k) == Annotated(cs, t, anns, k)
  {
    AnnotationsKeepKeys(cs, t, anns);
    forall k ensures Get(ApplyAnnotations(cs, t, anns).value, k) == Annotated(cs, t, anns, k) {
      AnnotatedEntry(cs, t, anns, k);
    }
  }

  lemma {:induction false} AnnotationsKeepKeys(cs: seq<ClassInfo>, t: Dict<KindMeta>, anns: Dict<Annotation>)
    requires WellFormed(cs)
    requires ApplyAnnotations(cs, t, anns).Ok?
    ensures Keys(ApplyAnnotations(cs, t, anns).value) == Keys(t)
    decreases |anns|
  {
    if anns != [] {
      var rest: Dict<Annotation> := anns[1..];
      var t' := Annotate(cs, t, anns[0].0, anns[0].1).value;
      assert ApplyAnnotations(cs, t, anns) == ApplyAnnotations(cs, t', rest);
      AnnotateKeys(cs, t, anns[0].0, anns[0].1);
      AnnotationsKeepKeys(cs, t', rest);
    }
  }

  lemma {:induction false} AnnotatedEntry(cs: seq<ClassInfo>, t: Dict<KindMeta>, anns: Dict<Annotation>, j: string)
    requires WellFormed(cs)
    requires ApplyAnnotations(cs, t, anns).Ok?
    ensures Get(ApplyAnnotations(cs, t, anns).value, j) == Annotated(cs, t, anns, j)
    decreases |anns|
  {
    if anns != [] {
      var rest: Dict<Annotation> := anns[1..];
      var t' := Annotate(cs, t, anns[0].0, anns[0].1).value;
      assert ApplyAnnotations(cs, t, anns) == ApplyAnnotations(cs, t', rest);
      AnnotatedEntry(cs, t', rest, j);
      AnnotatedStep(cs, t, anns, j);
    }
  }

  /** What the first annotation leaves for the others to do. */
  lemma AnnotatedStep(cs: seq<ClassInfo>, t: Dict<KindMeta>, anns: Dict<Annotation>, j: string)
    requires WellFormed(cs) && anns != []
    requires Annotate(cs, t, anns[0].0, anns[0].1).Ok?
    ensures Annotated(cs, Annotate(cs, t, anns[0].0, anns[0].1).value, anns[1..], j) == Annotated(cs, t, anns, j)
  {
    var k, ann := anns[0].0, anns[0].1;
    var t' := Annotate(cs, t, k, ann).value;
    assert Get(t', j) == if j == k then Some(Get(t, k).value.(subTypes := Accepted(cs, ann).value)) else Get(t, j) by {
      AnnotateOk(cs, t, k, ann);
    }
    if j == k {
      AnnotatedFirst(cs, t, t', anns);
    } else {
      AnnotatedOther(cs, t, t', anns, j);
    }
  }

  lemma AnnotatedFirst(cs: seq<ClassInfo>, t: Dict<KindMeta>, t': Dict<KindMeta>, anns: Dict<Annotation>)
    requires WellFormed(cs) && anns != []
    requires Accepted(cs, anns[0].1).Some? && Get(t, anns[0].0).Some?
    requires Get(t', anns[0].0) == Some(Get(t, anns[0].0).value.(subTypes := Accepted(cs, anns[0].1).value))
    ensures Annotated(cs, t', anns[1..], anns[0].0) == Annotated(cs, t, anns, anns[0].0)
  {
    var rest: Dict<Annotation> := anns[1..];
    assert Get(rest, anns[0].0).None?;
  }

  lemma AnnotatedOther(cs: seq<ClassInfo>, t: Dict<KindMeta>, t': Dict<KindMeta>, anns: Dict<Annotation>, j: string)
    requires WellFormed(cs) && anns != [] && j != anns[0].0
    requires Get(t', j) == Get(t, j)
    ensures Annotated(cs, t', anns[1..], j) == Annotated(cs, t, anns, j)
  {
    assert Get(anns, j) == Get(anns[1..], j);
  }

  /** A failed declaration reports the fault of the first faulty annotation. */
  lemma {:induction false} AnnotationsFirstFault(cs: seq<ClassInfo>, t: Dict<KindMeta>, anns: Dict<Annotation>)
    requires WellFormed(cs)
    requires ApplyAnnotations(cs, t, anns).Err?
    ensures exists j :: 0 <= j < |anns| &&
                        Fault(cs, t, anns[j].0, anns[j].1) == Some(ApplyAnnotations(cs, t, anns).error) &&
                        forall i :: 0 <= i < j ==> Fault(cs, t, anns[i].0, anns[i].1).None?
    decreases |anns|
  {
    var rest: Dict<Annotation> := anns[1..];
    match Annotate(cs, t, anns[0].0, anns[0].1)
    case Err(e) =>
      assert Fault(cs, t, anns[0].0, anns[0].1) == Some(e);
    case Ok(t') =>
      assert Fault(cs, t, anns[0].0, anns[0].1).None?;
      AnnotationsFirstFault(cs, t', rest);
      var j :| 0 <= j < |rest| && Fault(cs, t', rest[j].0, rest[j].1) == Some(ApplyAnnotations(cs, t', rest).error) &&
        forall i :: 0 <= i < j ==> Fault(cs, t', rest[i].0, rest[i].1).None?;
      forall i | 0 <= i < |rest| ensures Fault(cs, t', rest[i].0, rest[i].1) == Fault(cs, t, rest[i].0, rest[i].1) {
        AnnotateKeepsFaults(cs, t, anns[0].0, anns[0].1, rest[i].0, rest[i].1);
      }
      assert anns[j + 1] == rest[j];
  }

  // ---------------------------------------------------------------- merge

  /** `issubclass(base, Error) and hasattr(base, "__errors__")` */
  predicate Contributes(cs: seq<ClassInfo>, b: ClassId)
    requires WellFormed(cs) && b < |cs|
  {
    IsA(cs, b, ErrorId) && TableOf(cs, b).Some?
  }

  /** One turn of the loop over the bases: `errors = {**base.__errors__, **errors}`. */
  function MergeStep(cs: seq<ClassInfo>, errors: Dict<KindMeta>, b: ClassId): Dict<KindMeta>
    requires WellFormed(cs) && b < |cs|
  {
    if Contributes(cs, b) then Merge(TableOf(cs, b).value, errors) else errors
  }

  function MergeBases(cs: seq<ClassInfo>, errors: Dict<KindMeta>, bases: seq<ClassId>): Dict<KindMeta>
    requires WellFormed(cs) && forall j :: 0 <= j < |bases| ==> bases[j] < |cs|
    decreases |bases|
  {
    if bases == [] then errors else MergeBases(cs, MergeStep(cs, errors, bases[0]), bases[1..])
  }

  /** Reference definition of what a node inherits for `k`: the entry of the
      first contributing base whose table has `k`. */
  function FirstBaseEntry(cs: seq<ClassInfo>, bases: seq<ClassId>, k: string): Option<KindMeta>
    requires WellFormed(cs) && forall j :: 0 <= j < |bases| ==> bases[j] < |cs|
    decreases |bases|
  {
    if bases == [] then None
    else if Contributes(cs, bases[0]) && Get(TableOf(cs, bases[0]).value, k).Some? then
      Get(TableOf(cs, bases[0]).value, k)
    else FirstBaseEntry(cs, bases[1..], k)
  }

  /** The merged table: the node's own entry if it declares `k`, else the first
      contributing base's. Later bases never override earlier ones. */
  lemma {:induction false} MergeBasesSpec(cs: seq<ClassInfo>, own: Dict<KindMeta>, bases: seq<ClassId>, k: string)
    requires WellFormed(cs) && forall j :: 0 <= j < |bases| ==> bases[j] < |cs|
    ensures Get(MergeBases(cs, own, bases), k) ==
      if Get(own, k).Some? then Get(own, k) else FirstBaseEntry(cs, bases, k)
    decreases |bases|
  {
    if bases != [] {
      MergeBasesSpec(cs, MergeStep(cs, own, bases[0]), bases[1..], k);
    }
  }

  // ---------------------------------------------------------------- kind classes

  /** `[getattr(base, k) for base in bases if hasattr(base, k)]` */
  function Extra(cs: seq<ClassInfo>, bases: seq<ClassId>, k: string): seq<Obj>
    requires WellFormed(cs) && forall j :: 0 <= j < |bases| ==> bases[j] < |cs|
    decreases |bases|
  {
    if bases == [] then []
    else
      var head := match FindAttr(cs, bases[0], k) case Some(o) => [o] case None => [];
      head + Extra(cs, bases[1..], k)
  }

  /** Where the class a base gives for `k` sits among the extra bases. */
  lemma {:induction false} ExtraIndexOf(cs: seq<ClassInfo>, bases: seq<ClassId>, k: string, m: nat) returns (p: nat)
    requires WellFormed(cs) && forall j :: 0 <= j < |bases| ==> bases[j] < |cs|
    requires m < |bases| && FindAttr(cs, bases[m], k).Some?
    ensures p < |Extra(cs, bases, k)| && Extra(cs, bases, k)[p] == FindAttr(cs, bases[m], k).value
    decreases m
  {
    if m == 0 {
      p := 0;
    } else {
      var q := ExtraIndexOf(cs, bases[1..], k, m - 1);
      var head := match FindAttr(cs, bases[0], k) case Some(o) => [o] case None => [];
      assert Extra(cs, bases, k) == head + Extra(cs, bases[1..], k);
      p := |head| + q;
    }
  }

  /** Which base an extra base comes from. */
  lemma {:induction false} ExtraSource(cs: seq<ClassInfo>, bases: seq<ClassId>, k: string, p: nat) returns (m: nat)
    requires WellFormed(cs) && forall j :: 0 <= j < |bases| ==> bases[j] < |cs|
    requires p < |Extra(cs, bases, k)|
    ensures m < |bases| && FindAttr(cs, bases[m], k) == Some(Extra(cs, bases, k)[p])
    decreases |bases|
  {
    var head := match FindAttr(cs, bases[0], k) case Some(o) => [o] case None => [];
    assert Extra(cs, bases, k) == head + Extra(cs, bases[1..], k);
    if p < |head| {
      m := 0;
    } else {
      var m' := ExtraSource(cs, bases[1..], k, p - |head|);
      m := m' + 1;
    }
  }

  /** The extra bases are exactly what the bases that have `k` give for it. */
  lemma ExtraMembers(cs: seq<ClassInfo>, bases: seq<ClassId>, k: string)
    requires WellFormed(cs) && forall j :: 0 <= j < |bases| ==> bases[j] < |cs|
    ensures forall j :: 0 <= j < |bases| && FindAttr(cs, bases[j], k).Some? ==>
      FindAttr(cs, bases[j], k).value in Extra(cs, bases, k)
    ensures forall o :: o in Extra(cs, bases, k) ==> exists j :: 0 <= j < |bases| && FindAttr(cs, bases[j], k) == Some(o)
  {
    var extra := Extra(cs, bases, k);
    forall j | 0 <= j < |bases| && FindAttr(cs, bases[j], k).Some?
      ensures FindAttr(cs, bases[j], k).value in extra
    {
      var p := ExtraIndexOf(cs, bases, k, j);
    }
    forall o | o in extra
      ensures exists j :: 0 <= j < |bases| && FindAttr(cs, bases[j], k) == Some(o)
    {
      var p :| 0 <= p < |extra| && extra[p] == o;
      var m := ExtraSource(cs, bases, k, p);
    }
  }

  /** Every object of a base list is a class. */
  predicate AllClasses(cs: seq<ClassInfo>, objs: seq<Obj>)
  {
    forall i :: 0 <= i < |objs| ==> IsClass(cs, objs[i])
  }

  function ClassIds(objs: seq<Obj>): (ids: seq<ClassId>)
    requires forall i :: 0 <= i < |objs| ==> objs[i].Cls?
    ensures |ids| == |objs| && forall i :: 0 <= i < |objs| ==> ids[i] == objs[i].id
  {
    if objs == [] then [] else [objs[0].id] + ClassIds(objs[1..])
  }

  /** The check of Python's method resolution order modelled here: no base is
      listed after one of its own ancestors (nor twice). */
  predicate Consistent(cs: seq<ClassInfo>, ids: seq<ClassId>)
    requires WellFormed(cs) && forall i :: 0 <= i < |ids| ==> ids[i] < |cs|
  {
    forall i, j :: 0 <= i < j < |ids| ==> !IsA(cs, ids[j], ids[i])
  }

  /** The direct bases of the child class for kind `k` of node `n`. */
  function KindBaseObjs(cs: seq<ClassInfo>, n: ClassId, k: string, meta: KindMeta): seq<Obj>
    requires WellFormed(cs) && n < |cs|
  {
    [Cls(n)] + meta.subTypes + Extra(cs, cs[n].bases, k)
  }

  /** The child class for kind `k` of node `n`, or the TypeError creating it raises. */
  function KindClass(cs: seq<ClassInfo>, n: ClassId, k: string, meta: KindMeta): Result<ClassInfo>
    requires WellFormed(cs) && n < |cs|
  {
    var all := KindBaseObjs(cs, n, k, meta);
    if !AllClasses(cs, all) then Err(NotAClassBase(KindSite(k)))
    else
      var ids := ClassIds(all);
      if !Consistent(cs, ids) then Err(InconsistentMro(KindSite(k)))
      else Ok(ClassInfo(cs[n].name + "@" + k, cs[n].moduleName, ids, None, map[], Some(meta.value)))
  }

  /** The child classes of the first entries of the table, in table order. */
  function KindClasses(cs: seq<ClassInfo>, n: ClassId, t: seq<(string, KindMeta)>): Result<seq<ClassInfo>>
    requires WellFormed(cs) && n < |cs|
    decreases |t|
  {
    if t == [] then Ok([])
    else
      match KindClasses(cs, n, t[..|t| - 1])
      case Err(e) => Err(e)
      case Ok(prev) =>
        match KindClass(cs, n, t[|t| - 1].0, t[|t| - 1].1)
        case Err(e) => Err(e)
        case Ok(c) => Ok(prev + [c])
  }

  /** `setattr(cls, k, child)` for every kind in table order, the children
      numbered from `first`. */
  function AttachKinds(attrs: map<string, Obj>, t: seq<(string, KindMeta)>, first: ClassId): map<string, Obj>
    decreases |t|
  {
    if t == [] then attrs
    else AttachKinds(attrs[t[0].0 := Cls(first)], t[1..], first + 1)
  }

  /** The kind classes come out in table order, each as `KindClass` makes it. */
  lemma {:induction false} KindClassesAt(cs: seq<ClassInfo>, n: ClassId, t: seq<(string, KindMeta)>)
    requires WellFormed(cs) && n < |cs|
    requires KindClasses(cs, n, t).Ok?
    ensures |KindClasses(cs, n, t).value| == |t|
    ensures forall j :: 0 <= j < |t| ==> KindClass(cs, n, t[j].0, t[j].1) == Ok(KindClasses(cs, n, t).value[j])
    decreases |t|
  {
    if t != [] {
      var init := t[..|t| - 1];
      KindClassesAt(cs, n, init);
      assert forall j :: 0 <= j < |init| ==> t[j] == init[j];
    }
  }

  /** A created kind class, field by field: its bases are the node, the sub
      types and the bases' classes of the same kind, in that order, all of
      them classes that already exist. */
  lemma KindClassShape(cs: seq<ClassInfo>, n: ClassId, k: string, meta: KindMeta, c: ClassInfo)
    requires WellFormed(cs) && n < |cs|
    requires KindClass(cs, n, k, meta) == Ok(c)
    ensures var extra := Extra(cs, cs[n].bases, k);
      c.name == cs[n].name + "@" + k && c.moduleName == cs[n].moduleName && c.errors.None? &&
      c.attrs == map[] && c.value == Some(meta.value) &&
      |c.bases| == 1 + |meta.subTypes| + |extra| && c.bases[0] == n &&
      (forall i :: 0 <= i < |c.bases| ==> c.bases[i] < |cs|) &&
      (forall i :: 0 <= i < |meta.subTypes| ==> meta.subTypes[i] == Cls(c.bases[1 + i])) &&
      (forall i :: 0 <= i < |extra| ==> extra[i] == Cls(c.bases[1 + |meta.subTypes| + i]))
  {
    var objs := KindBaseObjs(cs, n, k, meta);
    var extra := Extra(cs, cs[n].bases, k);
    assert AllClasses(cs, objs) && c == ClassInfo(cs[n].name + "@" + k, cs[n].moduleName, ClassIds(objs), None, map[], Some(meta.value)) by {
      assert KindClass(cs, n, k, meta) == Ok(c);
    }
    KindBaseObjsAt(cs, n, k, meta, 0);
    ClassIdAt(cs, objs, c.bases, 0);
    forall i | 0 <= i < |c.bases| ensures c.bases[i] < |cs| {
      ClassIdAt(cs, objs, c.bases, i);
    }
    forall i | 0 <= i < |meta.subTypes| ensures meta.subTypes[i] == Cls(c.bases[1 + i]) {
      KindBaseObjsAt(cs, n, k, meta, i);
      ClassIdAt(cs, objs, c.bases, 1 + i);
    }
    forall i | 0 <= i < |extra| ensures extra[i] == Cls(c.bases[1 + |meta.subTypes| + i]) {
      KindBaseObjsAt(cs, n, k, meta, i);
      ClassIdAt(cs, objs, c.bases, 1 + |meta.subTypes| + i);
    }
  }

  /** Where a sub type and a base's class of the same kind sit among the
      base objects of a kind class. */
  lemma KindBaseObjsAt(cs: seq<ClassInfo>, n: ClassId, k: string, meta: KindMeta, i: nat)
    requires WellFormed(cs) && n < |cs|
    ensures var objs := KindBaseObjs(cs, n, k, meta); var extra := Extra(cs, cs[n].bases, k);
      |objs| == 1 + |meta.subTypes| + |extra| && objs[0] == Cls(n) &&
      (i < |meta.subTypes| ==> objs[1 + i] == meta.subTypes[i]) &&
      (i < |extra| ==> objs[1 + |meta.subTypes| + i] == extra[i])
  {
  }

  lemma ClassIdAt(cs: seq<ClassInfo>, objs: seq<Obj>, ids: seq<ClassId>, p: nat)
    requires AllClasses(cs, objs) && ids == ClassIds(objs) && p < |objs|
    ensures objs[p] == Cls(ids[p]) && ids[p] < |cs|
  {
    assert IsClass(cs, objs[p]);
  }

  /** If creating one kind class fails, the declaration fails, and with the
      error of the first kind that fails. */
  lemma {:induction false} KindClassesFail(cs: seq<ClassInfo>, n: ClassId, t: seq<(string, KindMeta)>, i: nat)
    requires WellFormed(cs) && n < |cs| && i <= |t|
    requires KindClasses(cs, n, t[..i]).Err?
    ensures KindClasses(cs, n, t) == KindClasses(cs, n, t[..i])
    decreases |t| - i
  {
    if i < |t| {
      assert t[..i + 1][..i] == t[..i];
      KindClassesFail(cs, n, t, i + 1);
    } else {
      assert t[..i] == t;
    }
  }

  /** Attaching the kinds leaves every other attribute as it was. */
  lemma {:induction false} AttachKindsOthers(attrs: map<string, Obj>, t: seq<(string, KindMeta)>, first: ClassId, k: string)
    requires Get(t, k).None?
    ensures k in AttachKinds(attrs, t, first) <==> k in attrs
    ensures k in attrs ==> AttachKinds(attrs, t, first)[k] == attrs[k]
    decreases |t|
  {
    if t != [] {
      AttachKindsOthers(attrs[t[0].0 := Cls(first)], t[1..], first + 1, k);
    }
  }

  /** Each kind's attribute on the node is its own child class. */
  lemma {:induction false} AttachKindsSpec(attrs: map<string, Obj>, t: Dict<KindMeta>, first: ClassId, j: nat)
    requires j < |t|
    ensures t[j].0 in AttachKinds(attrs, t, first) && AttachKinds(attrs, t, first)[t[j].0] == Cls(first + j)
    decreases |t|
  {
    var tail: Dict<KindMeta> := t[1..];
    if j == 0 {
      assert Get(tail, t[0].0).None?;
      AttachKindsOthers(attrs[t[0].0 := Cls(first)], tail, first + 1, t[0].0);
    } else {
      assert tail[j - 1] == t[j];
      AttachKindsSpec(attrs[t[0].0 := Cls(first)], tail, first + 1, j - 1);
    }
  }

  /** `Extra` reads only the bases and older classes. */
  lemma {:induction false} ExtraFrame(cs: seq<ClassInfo>, cs': seq<ClassInfo>, bases: seq<ClassId>, k: string)
    requires WellFormed(cs) && WellFormed(cs') && |cs| <= |cs'| && cs == cs'[..|cs|]
    requires forall j :: 0 <= j < |bases| ==> bases[j] < |cs|
    ensures Extra(cs, bases, k) == Extra(cs', bases, k)
    decreases |bases|
  {
    if bases != [] {
      OwnerFrame(cs, cs', bases[0], Attr(k));
      assert cs[bases[0]] == cs'[bases[0]];
      ExtraFrame(cs, cs', bases[1..], k);
    }
  }

  // ---------------------------------------------------------------- declaration

  /** Python picks `ErrorMeta` as the metaclass when a base is an `Error` class. */
  predicate UsesErrorMeta(cs: seq<ClassInfo>, bases: seq<ClassId>)
    requires WellFormed(cs) && forall j :: 0 <= j < |bases| ==> bases[j] < |cs|
  {
    exists j :: 0 <= j < |bases| && IsA(cs, bases[j], ErrorId)
  }

  /** The early return of `ErrorMeta` for `gaffe.error.Error` itself. */
  predicate IsRootDecl(name: string, moduleName: string)
  {
    moduleName == ErrorModule && name == "Error"
  }

  /** `ErrorMeta.__new__` for a class other than the root: the node, carrying
      its own kinds merged over those of its `Error` bases, or the error. */
  function NewNode(cs: seq<ClassInfo>, name: string, moduleName: string, bases: seq<ClassId>,
                   body: Dict<Obj>, anns: Dict<Annotation>): (r: Result<ClassInfo>)
    requires WellFormed(cs) && forall j :: 0 <= j < |bases| ==> bases[j] < |cs|
    ensures r.Ok? ==> r.value.bases == bases && r.value.errors.Some? && WellFormed(cs + [r.value])
  {
    match ApplyAnnotations(cs, CollectKinds([], body), anns)
    case Err(e) => Err(e)
    case Ok(own) =>
      if !Consistent(cs, bases) then Err(InconsistentMro(NodeSite))
      else Ok(ClassInfo(name, moduleName, bases, Some(MergeBases(cs, own, bases)), AsMap(body), None))
  }

  /** `ErrorMeta.__init__`: the node with one child class attached per kind,
      followed by those children, or the error creating a child raises. */
  function InitNode(cs: seq<ClassInfo>, node: ClassInfo): (r: Result<seq<ClassInfo>>)
    requires WellFormed(cs + [node]) && node.errors.Some?
    ensures r.Ok? ==> |r.value| == |node.errors.value| + 1 && r.value[0] == node.(attrs := r.value[0].attrs)
    ensures r.Ok? ==> WellFormed(cs + r.value)
  {
    match KindClasses(cs + [node], |cs|, node.errors.value)
    case Err(e) => Err(e)
    case Ok(kinds) =>
      KindClassesAt(cs + [node], |cs|, node.errors.value);
      var added := [node.(attrs := AttachKinds(node.attrs, node.errors.value, |cs| + 1))] + kinds;
      KindClassesWellFormed(cs + [node], |cs|, node.errors.value, added);
      assert (cs + [node])[..|cs|] == cs;
      Ok(added)
  }

  /** The declaration goes through `ErrorMeta`'s kind builder: a base is an
      `Error` class and the class is not the root itself. */
  predicate ByErrorMeta(cs: seq<ClassInfo>, name: string, moduleName: string, bases: seq<ClassId>)
    requires WellFormed(cs) && forall j :: 0 <= j < |bases| ==> bases[j] < |cs|
  {
    UsesErrorMeta(cs, bases) && !IsRootDecl(name, moduleName)
  }

  /** `class name(*bases): body` declared in `moduleName`: the classes appended
      to the registry (the node first, then its kind classes in table order), or
      the error the declaration raises. */
  function Build(cs: seq<ClassInfo>, name: string, moduleName: string, bases: seq<ClassId>,
                 body: Dict<Obj>, anns: Dict<Annotation>): (r: Result<seq<ClassInfo>>)
    requires WellFormed(cs) && forall j :: 0 <= j < |bases| ==> bases[j] < |cs|
    ensures r.Ok? ==> |r.value| >= 1 && r.value[0].name == name && r.value[0].moduleName == moduleName &&
                      r.value[0].bases == bases
    ensures r.Ok? && ByErrorMeta(cs, name, moduleName, bases) ==>
      r.value[0].errors.Some? && |r.value| == |r.value[0].errors.value| + 1
    ensures r.Ok? && !ByErrorMeta(cs, name, moduleName, bases) ==> |r.value| == 1 && r.value[0].errors.None?
    ensures r.Ok? ==> WellFormed(cs + r.value)
  {
    if !ByErrorMeta(cs, name, moduleName, bases) then
      if !Consistent(cs, bases) then Err(InconsistentMro(NodeSite))
      else Ok([ClassInfo(name, moduleName, bases, None, AsMap(body), None)])
    else
      match NewNode(cs, name, moduleName, bases, body, anns)
      case Err(e) => Err(e)
      case Ok(node) => InitNode(cs, node)
  }

  /** Every base of a kind class is an existing class. */
  lemma KindBasesExist(cs: seq<ClassInfo>, n: ClassId, t: seq<(string, KindMeta)>, m: nat)
    requires WellFormed(cs) && n < |cs|
    requires KindClasses(cs, n, t).Ok? && m < |KindClasses(cs, n, t).value|
    ensures forall j :: 0 <= j < |KindClasses(cs, n, t).value[m].bases| ==> KindClasses(cs, n, t).value[m].bases[j] < |cs|
  {
    KindClassesAt(cs, n, t);
    var objs := KindBaseObjs(cs, n, t[m].0, t[m].1);
    assert AllClasses(cs, objs);
  }

  /** The kind classes only list bases that already exist: the older classes
      and the node `n`, the newest class of `cs`, whatever its attributes by then. */
  lemma KindClassesWellFormed(cs: seq<ClassInfo>, n: ClassId, t: seq<(string, KindMeta)>, added: seq<ClassInfo>)
    requires WellFormed(cs) && n + 1 == |cs|
    requires KindClasses(cs, n, t).Ok?
    requires |added| >= 1 && added[0].bases == cs[n].bases && added[1..] == KindClasses(cs, n, t).value
    ensures WellFormed(cs[..n] + added)
  {
    var kinds := KindClasses(cs, n, t).value;
    var all := cs[..n] + added;
    forall i, j | 0 <= i < |all| && 0 <= j < |all[i].bases|
      ensures all[i].bases[j] < i
    {
      if i > n {
        KindBasesExist(cs, n, t, i - n - 1);
        assert all[i] == kinds[i - n - 1];
      } else {
        assert all[i].bases == cs[i].bases;
      }
    }
  }
}
