/** The running interpreter's classes as one mutable registry, and a class
    statement executed against it: `ErrorMeta.__new__` followed by
    `ErrorMeta.__init__`, step by step, with the classes it creates appended
    only when the whole statement succeeds (a class statement that raises
    binds no name, so what it created is unreachable). */
module Taxonomy {
  import opened Dict
  import opened Classes
  import opened ErrorMeta

  class Registry {
    var classes: seq<ClassInfo>

    /** Bases come before the classes that list them, and the builtin
        exceptions and `Error` sit at their fixed ids. */
    ghost predicate Valid()
      reads this
    {
      WellFormed(classes) && |classes| > ErrorId && classes[..ErrorId + 1] == Bootstrap()
    }

    /** The interpreter right after `gaffe.error` is imported. */
    constructor ()
      ensures Valid() && classes == Bootstrap()
    {
      classes := Bootstrap();
    }

    /** `class name(*bases): body` in module `moduleName`, the body's
        annotations being `anns`. On success the node's id is returned and
        the node and its kind classes are appended; on failure the registry
        is unchanged and the error is the one `Build` predicts. */
    method Declare(name: string, moduleName: string, bases: seq<ClassId>, body: Dict<Obj>, anns: Dict<Annotation>)
      returns (r: Result<ClassId>)
      requires Valid() && forall j :: 0 <= j < |bases| ==> bases[j] < |classes|
      modifies this
      ensures Valid()
      ensures Build(old(classes), name, moduleName, bases, body, anns).Ok? ==>
        r == Ok(|old(classes)|) && classes == old(classes) + Build(old(classes), name, moduleName, bases, body, anns).value
      ensures Build(old(classes), name, moduleName, bases, body, anns).Err? ==>
        r == Err(Build(old(classes), name, moduleName, bases, body, anns).error) && classes == old(classes)
    {
      var n := |classes|;
      var added: seq<ClassInfo>;
      if !UsesErrorMeta(classes, bases) || IsRootDecl(name, moduleName) {
        // a plain class, or `Error` itself: `type.__new__` alone
        if !Consistent(classes, bases) {
          return Err(InconsistentMro(NodeSite));
        }
        added := [ClassInfo(name, moduleName, bases, None, AsMap(body), None)];
      } else {
        var node := MakeNode(classes, name, moduleName, bases, body, anns);
        if node.Err? {
          return Err(node.error);
        }
        var init := InitKinds(classes, node.value);
        if init.Err? {
          return Err(init.error);
        }
        added := init.value;
      }
      assert Build(classes, name, moduleName, bases, body, anns) == Ok(added);
      classes := classes + added;
      assert classes[..ErrorId + 1] == old(classes)[..ErrorId + 1];
      return Ok(n);
    }
  }

  /** Lines 13-42: `ErrorMeta.__new__` for a class other than the root, loop by loop. */
  method MakeNode(cs: seq<ClassInfo>, name: string, moduleName: string, bases: seq<ClassId>,
                  body: Dict<Obj>, anns: Dict<Annotation>) returns (r: Result<ClassInfo>)
    requires WellFormed(cs) && forall j :: 0 <= j < |bases| ==> bases[j] < |cs|
    ensures r == NewNode(cs, name, moduleName, bases, body, anns)
  {
    var errors := CollectBody(body);
    var annotated := ReadAnnotations(cs, errors, anns);
    if annotated.Err? {
      return Err(annotated.error);
    }
    errors := InheritKinds(cs, annotated.value, bases);
    if !Consistent(cs, bases) {
      return Err(InconsistentMro(NodeSite));
    }
    return Ok(ClassInfo(name, moduleName, bases, Some(errors), AsMap(body), None));
  }

  /** Lines 44-60: `ErrorMeta.__init__` on the new node: its kind classes,
      and the node with each of them attached. */
  method InitKinds(cs: seq<ClassInfo>, node: ClassInfo) returns (r: Result<seq<ClassInfo>>)
    requires WellFormed(cs + [node]) && node.errors.Some?
    ensures r == InitNode(cs, node)
  {
    var created := CreateKinds(cs + [node], |cs|, node.errors.value);
    if created.Err? {
      return Err(created.error);
    }
    var (attrs, kinds) := created.value;
    assert (cs + [node])[|cs|] == node;
    return Ok([node.(attrs := attrs)] + kinds);
  }

  /** Lines 19-22: every non-dunder body attribute becomes a kind. */
  method CollectBody(body: Dict<Obj>) returns (errors: Dict<KindMeta>)
    ensures errors == CollectKinds([], body)
  {
    errors := [];
    for i := 0 to |body|
      invariant CollectKinds(errors, body[i..]) == CollectKinds([], body)
    {
      var (k, v) := body[i];
      assert body[i..][0] == body[i] && body[i..][1..] == body[i + 1..];
      if !Dunder(k) {
        errors := Put(errors, k, KindMeta(v, []));
      }
    }
    assert body[|body|..] == [];
  }

  /** Lines 24-31: each annotation sets the sub types of its kind, or raises. */
  method ReadAnnotations(cs: seq<ClassInfo>, own: Dict<KindMeta>, anns: Dict<Annotation>)
    returns (r: Result<Dict<KindMeta>>)
    requires WellFormed(cs)
    ensures r == ApplyAnnotations(cs, own, anns)
  {
    var errors := own;
    for i := 0 to |anns|
      invariant ApplyAnnotations(cs, errors, anns[i..]) == ApplyAnnotations(cs, own, anns)
    {
      var (k, ann) := anns[i];
      assert anns[i..][0] == anns[i] && anns[i..][1..] == anns[i + 1..];
      var sub: seq<Obj>;
      match ann {
        case UnionOf(args) =>
          sub := args;
        case Plain(o) =>
          if IsClass(cs, o) && IsA(cs, o.id, ExceptionId) {
            sub := [o];
          } else {
            return Err(InvalidSubtype(k));
          }
      }
      match Get(errors, k) {
        case None =>
          return Err(MissingKind(k));
        case Some(meta) =>
          errors := Put(errors, k, meta.(subTypes := sub));
      }
    }
    assert anns[|anns|..] == [];
    return Ok(errors);
  }

  /** Lines 33-40: the tables of the `Error` bases, merged under the node's own. */
  method InheritKinds(cs: seq<ClassInfo>, own: Dict<KindMeta>, bases: seq<ClassId>) returns (errors: Dict<KindMeta>)
    requires WellFormed(cs) && forall j :: 0 <= j < |bases| ==> bases[j] < |cs|
    ensures errors == MergeBases(cs, own, bases)
  {
    errors := own;
    for i := 0 to |bases|
      invariant MergeBases(cs, errors, bases[i..]) == MergeBases(cs, own, bases)
    {
      var base := bases[i];
      assert bases[i..][0] == base && bases[i..][1..] == bases[i + 1..];
      if IsA(cs, base, ErrorId) {
        match TableOf(cs, base) {
          case None =>
          case Some(inherited) =>
            errors := Merge(inherited, errors);
        }
      }
    }
    assert bases[|bases|..] == [];
  }

  /** Lines 50-60: one child class per kind, each set as an attribute of the
      node `n` (the newest class of `cs`); the result is the node's final
      attributes and the children, or the error creating a child raises. */
  method CreateKinds(cs: seq<ClassInfo>, n: ClassId, table: Dict<KindMeta>)
    returns (r: Result<(map<string, Obj>, seq<ClassInfo>)>)
    requires WellFormed(cs) && n + 1 == |cs|
    ensures KindClasses(cs, n, table).Err? ==> r == Err(KindClasses(cs, n, table).error)
    ensures KindClasses(cs, n, table).Ok? ==>
      r == Ok((AttachKinds(cs[n].attrs, table, n + 1), KindClasses(cs, n, table).value))
  {
    var kinds: seq<ClassInfo> := [];
    var attrs := cs[n].attrs;
    for j := 0 to |table|
      invariant KindClasses(cs, n, table[..j]) == Ok(kinds)
      invariant AttachKinds(attrs, table[j..], n + 1 + j) == AttachKinds(cs[n].attrs, table, n + 1)
    {
      var (k, meta) := table[j];
      assert table[..j + 1][..j] == table[..j];
      assert table[j..][0] == table[j] && table[j..][1..] == table[j + 1..];
      match KindClass(cs, n, k, meta) {
        case Err(e) =>
          KindClassesFail(cs, n, table, j + 1);
          return Err(e);
        case Ok(child) =>
          kinds := kinds + [child];
          attrs := attrs[k := Cls(n + 1 + j)];
      }
    }
    assert table[..|table|] == table && table[|table|..] == [];
    return Ok((attrs, kinds));
  }
}
