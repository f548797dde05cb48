/** What `except` clauses catch once a taxonomy is declared: a node is caught
    by its bases, a kind by its node, its sub types and the same kind of the
    node's bases; classes declared separately do not catch each other's kinds.
    Also the declarations the builder rejects: because of where line 58 puts
    the sub types, and because line 57 takes whatever a base has under a
    kind's name, a class or not. */
module Catching {
  import opened Dict
  import opened Classes
  import opened ErrorMeta
  import opened Declaration

  /** The registry starts with the builtin exceptions and `Error`. */
  predicate Bootstrapped(cs: seq<ClassInfo>)
  {
    |cs| > ErrorId && cs[..ErrorId + 1] == Bootstrap()
  }

  /** `Error` is an `Exception`, and the only attributes a kind could be
      named after that it has are those it inherits from `BaseException`. */
  lemma RootFacts(cs: seq<ClassInfo>, k: string)
    requires WellFormed(cs) && Bootstrapped(cs)
    ensures IsA(cs, ErrorId, ExceptionId)
    ensures FindAttr(cs, ErrorId, k) == if k in BaseExceptionAttrs() then Some(BaseExceptionAttrs()[k]) else None
  {
    assert cs[0] == Bootstrap()[0] && cs[1] == Bootstrap()[1] && cs[ErrorId] == Bootstrap()[ErrorId];
    assert IsA(cs, cs[ErrorId].bases[0], ExceptionId);
    assert Owner(cs, BaseExceptionId, Attr(k)) == if k in BaseExceptionAttrs() then Some(BaseExceptionId) else None;
    assert Owner(cs, ExceptionId, Attr(k)) == Owner(cs, BaseExceptionId, Attr(k));
  }

  /** Tests lines 6-28 and 41-57: a declared class is caught by each of its
      bases, by `Error` and by `Exception`. */
  lemma NodeCaught(cs: seq<ClassInfo>, name: string, moduleName: string, bases: seq<ClassId>,
                   body: Dict<Obj>, anns: Dict<Annotation>, added: seq<ClassInfo>)
    requires Declared(cs, name, moduleName, bases, body, anns, added) && Bootstrapped(cs)
    ensures forall i :: 0 <= i < |bases| ==> IsA(cs + added, |cs|, bases[i])
    ensures IsA(cs + added, |cs|, ErrorId) && IsA(cs + added, |cs|, ExceptionId)
  {
    var cs' := cs + added;
    forall i | 0 <= i < |bases| ensures IsA(cs', |cs|, bases[i]) {
      NodeAncestry(cs, name, moduleName, bases, body, anns, added, bases[i]);
    }
    var i :| 0 <= i < |bases| && IsA(cs, bases[i], ErrorId);
    RootFacts(cs, name);
    IsATransitive(cs, bases[i], ErrorId, ExceptionId);
    NodeAncestry(cs, name, moduleName, bases, body, anns, added, ErrorId);
    NodeAncestry(cs, name, moduleName, bases, body, anns, added, ExceptionId);
  }

  /** Tests lines 31-38 and 41-60: the class of a kind is caught by its
      node and by everything that catches the node. */
  lemma KindCaughtByNode(cs: seq<ClassInfo>, name: string, moduleName: string, bases: seq<ClassId>,
                         body: Dict<Obj>, anns: Dict<Annotation>, added: seq<ClassInfo>, j: nat, x: ClassId)
    requires Declared(cs, name, moduleName, bases, body, anns, added)
    requires j < |added| - 1 && IsA(cs + added, |cs|, x)
    ensures IsA(cs + added, |cs| + 1 + j, |cs|) && IsA(cs + added, |cs| + 1 + j, x)
  {
    KindAncestry(cs, name, moduleName, bases, body, anns, added, j, |cs|);
    KindAncestry(cs, name, moduleName, bases, body, anns, added, j, x);
  }

  /** Tests lines 63-86: the class of an annotated kind is caught by each of
      its sub types. */
  lemma KindCaughtBySubType(cs: seq<ClassInfo>, name: string, moduleName: string, bases: seq<ClassId>,
                            body: Dict<Obj>, anns: Dict<Annotation>, added: seq<ClassInfo>, j: nat, i: nat)
    requires Declared(cs, name, moduleName, bases, body, anns, added)
    requires j < |added| - 1
    requires var meta := added[0].errors.value[j].1; i < |meta.subTypes| && IsClass(cs, meta.subTypes[i])
    ensures IsA(cs + added, |cs| + 1 + j, added[0].errors.value[j].1.subTypes[i].id)
  {
    KindAncestry(cs, name, moduleName, bases, body, anns, added, j, added[0].errors.value[j].1.subTypes[i].id);
  }

  /** Line 57: the class of a kind is caught by the class of the same kind on
      each base that has one. */
  lemma KindCaughtByBaseKind(cs: seq<ClassInfo>, name: string, moduleName: string, bases: seq<ClassId>,
                             body: Dict<Obj>, anns: Dict<Annotation>, added: seq<ClassInfo>, j: nat, m: nat, e: ClassId)
    requires Declared(cs, name, moduleName, bases, body, anns, added)
    requires j < |added| - 1 && m < |bases| && e < |cs|
    requires FindAttr(cs, bases[m], added[0].errors.value[j].0) == Some(Cls(e))
    ensures IsA(cs + added, |cs| + 1 + j, e)
  {
    var k := added[0].errors.value[j].0;
    var p := ExtraIndexOf(cs, bases, k, m);
    assert IsClass(cs, Extra(cs, bases, k)[p]) && IsA(cs, Extra(cs, bases, k)[p].id, e);
    KindAncestry(cs, name, moduleName, bases, body, anns, added, j, e);
  }

  /** Tests lines 63-93: a kind of a class declared directly on `Error` is not
      caught by an older user class that none of its sub types is a subclass
      of, even when another taxonomy has a kind with the same name and sub types. */
  lemma SeparateTaxonomies(cs: seq<ClassInfo>, name: string, moduleName: string,
                           body: Dict<Obj>, anns: Dict<Annotation>, added: seq<ClassInfo>, j: nat, x: ClassId)
    requires Declared(cs, name, moduleName, [ErrorId], body, anns, added) && Bootstrapped(cs)
    requires j < |added| - 1 && ErrorId < x < |cs|
    requires var meta := added[0].errors.value[j].1;
      forall i :: 0 <= i < |meta.subTypes| && IsClass(cs, meta.subTypes[i]) ==> !IsA(cs, meta.subTypes[i].id, x)
    ensures !IsA(cs + added, |cs| + 1 + j, x)
  {
    var k := added[0].errors.value[j].0;
    RootFacts(cs, k);
    var extra := Extra(cs, [ErrorId], k);
    var bs := [ErrorId];
    assert bs[0] == ErrorId && bs[1..] == [];
    assert Extra(cs, bs[1..], k) == [];
    assert extra == (match FindAttr(cs, ErrorId, k) case Some(o) => [o] case None => []);
    assert forall i :: 0 <= i < |extra| ==> !IsClass(cs, extra[i]);
    KindAncestry(cs, name, moduleName, [ErrorId], body, anns, added, j, x);
    NodeAncestry(cs, name, moduleName, [ErrorId], body, anns, added, x);
    if IsA(cs, ErrorId, x) {
      IsABelow(cs, ErrorId, x);
    }
  }

  /** In a declaration that succeeds, a kind's sub type never has the class
      the same kind has on a base as a subclass: line 58 lists the sub type
      first, and a base may not precede its own subclass. */
  lemma SubTypeNotAboveBaseKind(cs: seq<ClassInfo>, name: string, moduleName: string, bases: seq<ClassId>,
                                body: Dict<Obj>, anns: Dict<Annotation>, added: seq<ClassInfo>,
                                j: nat, i: nat, m: nat, e: ClassId)
    requires Declared(cs, name, moduleName, bases, body, anns, added)
    requires j < |added| - 1
    requires var meta := added[0].errors.value[j].1; i < |meta.subTypes| && IsClass(cs, meta.subTypes[i])
    requires m < |bases| && FindAttr(cs, bases[m], added[0].errors.value[j].0) == Some(Cls(e)) && e < |cs|
    ensures !IsA(cs, e, added[0].errors.value[j].1.subTypes[i].id)
  {
    var (k, meta) := added[0].errors.value[j];
    var s := meta.subTypes[i].id;
    var c := added[1 + j];
    var p := ExtraIndexOf(cs, bases, k, m);
    assert c.bases[1 + i] == s && c.bases[1 + |meta.subTypes| + p] == e by {
      DeclaredKinds(cs, name, moduleName, bases, body, anns, added, j);
    }
    DeclaredKindsConsistent(cs, name, moduleName, bases, body, anns, added, j, 1 + i, 1 + |meta.subTypes| + p);
    assert forall d :: 0 <= d < |cs| ==> (cs + added)[d] == cs[d];
    IsAFrame(cs, cs + added, e, s);
  }

  /** Line 57 takes `getattr(base, k)` whatever it is, and line 59 then fails
      when it is not a class: a kind named after an attribute that a base has
      and that is not a class cannot be declared. */
  lemma NonClassAttrKindRejected(cs: seq<ClassInfo>, name: string, moduleName: string, bases: seq<ClassId>,
                                 body: Dict<Obj>, anns: Dict<Annotation>, k: string, m: nat)
    requires WellFormed(cs) && forall b :: 0 <= b < |bases| ==> bases[b] < |cs|
    requires ByErrorMeta(cs, name, moduleName, bases)
    requires !Dunder(k) && Get(body, k).Some?
    requires m < |bases| && FindAttr(cs, bases[m], k).Some? && !FindAttr(cs, bases[m], k).value.Cls?
    ensures Build(cs, name, moduleName, bases, body, anns).Err?
  {
    if Build(cs, name, moduleName, bases, body, anns).Ok? {
      var added := Build(cs, name, moduleName, bases, body, anns).value;
      var table := added[0].errors.value;
      assert Get(table, k).Some? by {
        DeclaredTable(cs, name, moduleName, bases, body, anns, added, k);
      }
      var j :| 0 <= j < |table| && table[j] == (k, Get(table, k).value);
      var p := ExtraIndexOf(cs, bases, k, m);
      DeclaredKinds(cs, name, moduleName, bases, body, anns, added, j);
      assert false;
    }
  }

  /** So `class MyError(Error): args = ...` (or `with_traceback = ...`) fails:
      `Error` inherits a descriptor, not a class, under that name. */
  lemma BuiltinAttrKindRejected(cs: seq<ClassInfo>, name: string, moduleName: string,
                                body: Dict<Obj>, anns: Dict<Annotation>, k: string)
    requires WellFormed(cs) && Bootstrapped(cs) && !IsRootDecl(name, moduleName)
    requires k in BaseExceptionAttrs() && Get(body, k).Some?
    ensures Build(cs, name, moduleName, [ErrorId], body, anns).Err?
  {
    RootFacts(cs, k);
    assert k == "args" || k == "with_traceback";
    assert k[0] != '_' && !Dunder(k) by {
      if k == "args" {
        assert k[0] == 'a';
      } else {
        assert k[0] == 'w';
      }
    }
    var bs := [ErrorId];
    assert bs[0] == ErrorId && IsA(cs, bs[0], ErrorId);
    assert FindAttr(cs, bs[0], k).Some? && !FindAttr(cs, bs[0], k).value.Cls?;
    NonClassAttrKindRejected(cs, name, moduleName, bs, body, anns, k, 0);
  }

  /** Line 58 puts the sub types before the bases' classes of the same kind.
      A class that inherits an annotated kind from a base therefore cannot be
      declared: the base's class for that kind is a subclass of the sub type,
      yet it is listed after it, so no consistent method resolution order exists. */
  lemma InheritedAnnotatedKindRejected(cs: seq<ClassInfo>, name: string, moduleName: string, bases: seq<ClassId>,
                                       body: Dict<Obj>, anns: Dict<Annotation>, k: string, meta: KindMeta,
                                       i: nat, m: nat, e: ClassId)
    requires WellFormed(cs) && forall b :: 0 <= b < |bases| ==> bases[b] < |cs|
    requires ByErrorMeta(cs, name, moduleName, bases)
    requires Dunder(k) || Get(body, k).None?
    requires FirstBaseEntry(cs, bases, k) == Some(meta)
    requires i < |meta.subTypes| && IsClass(cs, meta.subTypes[i])
    requires m < |bases| && FindAttr(cs, bases[m], k) == Some(Cls(e)) && e < |cs|
    requires IsA(cs, e, meta.subTypes[i].id)
    ensures Build(cs, name, moduleName, bases, body, anns).Err?
  {
    if Build(cs, name, moduleName, bases, body, anns).Ok? {
      var added := Build(cs, name, moduleName, bases, body, anns).value;
      var table := added[0].errors.value;
      assert Get(table, k) == Some(meta) by {
        DeclaredTable(cs, name, moduleName, bases, body, anns, added, k);
      }
      var j :| 0 <= j < |table| && table[j] == (k, meta);
      SubTypeNotAboveBaseKind(cs, name, moduleName, bases, body, anns, added, j, i, m, e);
    }
  }
}
