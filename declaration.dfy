/** What a successful (or failed) class statement under `ErrorMeta` means for
    the taxonomy: the node's kind table, the child class made for each kind,
    and where the new classes sit in the subclass relation that `except`
    clauses test. `added` is always what `Build` appends to `cs`. */
module Declaration {
  import opened Dict
  import opened Classes
  import opened ErrorMeta

  /** `added` is what declaring `class name(*bases)` through the kind builder appends to `cs`. */
  predicate Declared(cs: seq<ClassInfo>, name: string, moduleName: string, bases: seq<ClassId>,
                     body: Dict<Obj>, anns: Dict<Annotation>, added: seq<ClassInfo>)
  {
    WellFormed(cs) && (forall j :: 0 <= j < |bases| ==> bases[j] < |cs|) &&
    ByErrorMeta(cs, name, moduleName, bases) && Build(cs, name, moduleName, bases, body, anns) == Ok(added)
  }

  /** The sub types an accepted annotation gives its kind. */
  function SubTypesOf(cs: seq<ClassInfo>, anns: Dict<Annotation>, k: string): seq<Obj>
    requires WellFormed(cs)
  {
    match Get(anns, k)
    case None => []
    case Some(ann) => if Accepted(cs, ann).Some? then Accepted(cs, ann).value else []
  }

  /** Reference definition of the node's table entry for `k`: the body's own
      assignment, with the sub types of its annotation, else the entry of the
      first `Error` base whose table has `k`. */
  function DeclaredEntry(cs: seq<ClassInfo>, bases: seq<ClassId>, body: Dict<Obj>, anns: Dict<Annotation>,
                         k: string): Option<KindMeta>
    requires WellFormed(cs) && forall j :: 0 <= j < |bases| ==> bases[j] < |cs|
  {
    if !Dunder(k) && Get(body, k).Some? then Some(KindMeta(Get(body, k).value, SubTypesOf(cs, anns, k)))
    else FirstBaseEntry(cs, bases, k)
  }

  /** The pieces `Build` is made of, for a declaration that succeeded. */
  lemma BuildParts(cs: seq<ClassInfo>, name: string, moduleName: string, bases: seq<ClassId>,
                   body: Dict<Obj>, anns: Dict<Annotation>, added: seq<ClassInfo>)
    requires Declared(cs, name, moduleName, bases, body, anns, added)
    ensures ApplyAnnotations(cs, CollectKinds([], body), anns).Ok?
    ensures Consistent(cs, bases)
    ensures added[0].errors ==
      Some(MergeBases(cs, ApplyAnnotations(cs, CollectKinds([], body), anns).value, bases))
    ensures var node := added[0].(attrs := AsMap(body));
      WellFormed(cs + [node]) && NewNode(cs, name, moduleName, bases, body, anns) == Ok(node) &&
      KindClasses(cs + [node], |cs|, node.errors.value).Ok? &&
      added == [node.(attrs := AttachKinds(AsMap(body), node.errors.value, |cs| + 1))] +
               KindClasses(cs + [node], |cs|, node.errors.value).value
  {
  }

  // ---------------------------------------------------------------- the kind table

  /** Lines 17-40: after a successful declaration the node's `__errors__` holds,
      for every name, exactly the reference entry: its own non-dunder body
      attributes (with annotated sub types) override what the bases give. */
  lemma DeclaredTable(cs: seq<ClassInfo>, name: string, moduleName: string, bases: seq<ClassId>,
                      body: Dict<Obj>, anns: Dict<Annotation>, added: seq<ClassInfo>, k: string)
    requires Declared(cs, name, moduleName, bases, body, anns, added)
    ensures Get(added[0].errors.value, k) == DeclaredEntry(cs, bases, body, anns, k)
  {
    BuildParts(cs, name, moduleName, bases, body, anns, added);
    var t0 := CollectKinds([], body);
    var own := ApplyAnnotations(cs, t0, anns).value;
    MergeBasesSpec(cs, own, bases, k);
    AnnotationsKeepKinds(cs, t0, anns);
    AnnotationsSucceed(cs, t0, anns);
    if Get(anns, k).Some? {
      var i :| 0 <= i < |anns| && anns[i] == (k, Get(anns, k).value);
      assert Fault(cs, t0, anns[i].0, anns[i].1).None?;
    }
  }

  /** Lines 24-31: a declaration succeeds only if every annotation names a
      kind the body itself assigns and is a `Union` or an `Exception` class. */
  lemma AnnotationsValid(cs: seq<ClassInfo>, name: string, moduleName: string, bases: seq<ClassId>,
                         body: Dict<Obj>, anns: Dict<Annotation>, added: seq<ClassInfo>, j: nat)
    requires Declared(cs, name, moduleName, bases, body, anns, added)
    requires j < |anns|
    ensures !Dunder(anns[j].0) && Get(body, anns[j].0).Some? && Accepted(cs, anns[j].1).Some?
  {
    BuildParts(cs, name, moduleName, bases, body, anns, added);
    AnnotationsSucceed(cs, CollectKinds([], body), anns);
    assert Fault(cs, CollectKinds([], body), anns[j].0, anns[j].1).None?;
  }

  /** Lines 24-31, the failing side: the first annotation that is not a
      `Union` or `Exception` class (ValueError) or names no assigned kind
      (KeyError) aborts the declaration with its own error. */
  lemma AnnotationRejected(cs: seq<ClassInfo>, name: string, moduleName: string, bases: seq<ClassId>,
                           body: Dict<Obj>, anns: Dict<Annotation>, j: nat)
    requires WellFormed(cs) && forall i :: 0 <= i < |bases| ==> bases[i] < |cs|
    requires ByErrorMeta(cs, name, moduleName, bases)
    requires j < |anns| && Fault(cs, CollectKinds([], body), anns[j].0, anns[j].1).Some?
    requires forall i :: 0 <= i < j ==> Fault(cs, CollectKinds([], body), anns[i].0, anns[i].1).None?
    ensures Build(cs, name, moduleName, bases, body, anns) ==
      Err(Fault(cs, CollectKinds([], body), anns[j].0, anns[j].1).value)
  {
    var t0 := CollectKinds([], body);
    AnnotationsSucceed(cs, t0, anns);
    AnnotationsFirstFault(cs, t0, anns);
    var j' :| 0 <= j' < |anns| && Fault(cs, t0, anns[j'].0, anns[j'].1) == Some(ApplyAnnotations(cs, t0, anns).error) &&
      forall i :: 0 <= i < j' ==> Fault(cs, t0, anns[i].0, anns[i].1).None?;
    assert j' == j;
  }

  /** A base listed before one of its own subclasses (or twice) makes
      `type.__new__` fail for the node itself. */
  lemma NodeMroRejected(cs: seq<ClassInfo>, name: string, moduleName: string, bases: seq<ClassId>,
                        body: Dict<Obj>, anns: Dict<Annotation>, i: nat, j: nat)
    requires WellFormed(cs) && forall m :: 0 <= m < |bases| ==> bases[m] < |cs|
    requires i < j < |bases| && IsA(cs, bases[j], bases[i])
    ensures Build(cs, name, moduleName, bases, body, anns).Err?
  {
    assert !Consistent(cs, bases) by {
      assert 0 <= i < j < |bases| && IsA(cs, bases[j], bases[i]);
    }
    InconsistentRejected(cs, name, moduleName, bases, body, anns);
  }

  /** Bases whose order no method resolution order can honour make the
      declaration fail, under `ErrorMeta` or not. */
  lemma InconsistentRejected(cs: seq<ClassInfo>, name: string, moduleName: string, bases: seq<ClassId>,
                             body: Dict<Obj>, anns: Dict<Annotation>)
    requires WellFormed(cs) && forall m :: 0 <= m < |bases| ==> bases[m] < |cs|
    requires !Consistent(cs, bases)
    ensures Build(cs, name, moduleName, bases, body, anns).Err?
  {
    if ByErrorMeta(cs, name, moduleName, bases) {
      assert NewNode(cs, name, moduleName, bases, body, anns).Err?;
    }
  }

  // ---------------------------------------------------------------- kind classes

  /** `c` is the child class lines 51-59 make for kind `k` (entry `meta`) of the
      node `n`, declared as `name` in `moduleName` with `bases`: named
      `"<name>@<k>"`, with `__value__` the assigned value and with bases the
      node, then the sub types, then `getattr(base, k)` of every base that has `k`. */
  predicate IsKindClass(cs: seq<ClassInfo>, n: ClassId, name: string, moduleName: string, bases: seq<ClassId>,
                        k: string, meta: KindMeta, c: ClassInfo)
    requires WellFormed(cs) && forall j :: 0 <= j < |bases| ==> bases[j] < |cs|
  {
    var extra := Extra(cs, bases, k);
    c.name == name + "@" + k && c.moduleName == moduleName && c.errors.None? && c.attrs == map[] &&
    c.value == Some(meta.value) &&
    |c.bases| == 1 + |meta.subTypes| + |extra| && c.bases[0] == n &&
    (forall i :: 0 <= i < |c.bases| ==> c.bases[i] <= n) &&
    (forall i :: 0 <= i < |meta.subTypes| ==> meta.subTypes[i] == Cls(c.bases[1 + i])) &&
    (forall i :: 0 <= i < |extra| ==> extra[i] == Cls(c.bases[1 + |meta.subTypes| + i]))
  }

  /** A kind class made for node `n`, the newest class of `cs`, is what
      `IsKindClass` describes. */
  lemma KindClassIs(cs: seq<ClassInfo>, n: ClassId, k: string, meta: KindMeta, c: ClassInfo)
    requires WellFormed(cs) && n + 1 == |cs| && WellFormed(cs[..n])
    requires forall j :: 0 <= j < |cs[n].bases| ==> cs[n].bases[j] < n
    requires KindClass(cs, n, k, meta) == Ok(c)
    ensures IsKindClass(cs[..n], n, cs[n].name, cs[n].moduleName, cs[n].bases, k, meta, c)
  {
    KindClassShape(cs, n, k, meta, c);
    ExtraFrame(cs[..n], cs, cs[n].bases, k);
  }

  /** Lines 50-60: the j-th entry of the node's table gets the j-th new class
      after the node, built as `IsKindClass` says. */
  lemma DeclaredKinds(cs: seq<ClassInfo>, name: string, moduleName: string, bases: seq<ClassId>,
                      body: Dict<Obj>, anns: Dict<Annotation>, added: seq<ClassInfo>, j: nat)
    requires Declared(cs, name, moduleName, bases, body, anns, added)
    requires j < |added| - 1
    ensures IsKindClass(cs, |cs|, name, moduleName, bases, added[0].errors.value[j].0, added[0].errors.value[j].1,
                        added[1 + j])
  {
    var node := added[0].(attrs := AsMap(body));
    var table := node.errors.value;
    var snap := cs + [node];
    BuildParts(cs, name, moduleName, bases, body, anns, added);
    KindClassesAt(snap, |cs|, table);
    assert snap[..|cs|] == cs && snap[|cs|] == node;
    KindClassIs(snap, |cs|, table[j].0, table[j].1, added[1 + j]);
  }

  /** Line 59: no base of a kind class is listed after one of its own
      subclasses, and none twice (else `type.__new__` would have raised). */
  lemma DeclaredKindsConsistent(cs: seq<ClassInfo>, name: string, moduleName: string, bases: seq<ClassId>,
                                body: Dict<Obj>, anns: Dict<Annotation>, added: seq<ClassInfo>, j: nat, a: nat, b: nat)
    requires Declared(cs, name, moduleName, bases, body, anns, added)
    requires j < |added| - 1 && a < b < |added[1 + j].bases|
    requires added[1 + j].bases[b] < |cs + added|
    ensures !IsA(cs + added, added[1 + j].bases[b], added[1 + j].bases[a])
  {
    var node := added[0].(attrs := AsMap(body));
    var table := node.errors.value;
    var snap := cs + [node];
    var c := added[1 + j];
    assert WellFormed(snap) && KindClass(snap, |cs|, table[j].0, table[j].1) == Ok(c) by {
      BuildParts(cs, name, moduleName, bases, body, anns, added);
      KindClassesAt(snap, |cs|, table);
    }
    assert c.bases[b] < |snap| && !IsA(snap, c.bases[b], c.bases[a]) by {
      KindClassShape(snap, |cs|, table[j].0, table[j].1, c);
      assert Consistent(snap, c.bases);
    }
    var cs' := cs + added;
    assert forall d :: 0 <= d < |snap| ==> snap[d].bases == cs'[d].bases;
    IsAFrame(snap, cs', c.bases[b], c.bases[a]);
  }

  /** Line 60: the node's attribute named after its j-th kind is the j-th new
      class after it. */
  lemma DeclaredKindAttr(cs: seq<ClassInfo>, name: string, moduleName: string, bases: seq<ClassId>,
                         body: Dict<Obj>, anns: Dict<Annotation>, added: seq<ClassInfo>, j: nat)
    requires Declared(cs, name, moduleName, bases, body, anns, added)
    requires j < |added| - 1
    ensures added[0].errors.value[j].0 in added[0].attrs
    ensures added[0].attrs[added[0].errors.value[j].0] == Cls(|cs| + 1 + j)
  {
    BuildParts(cs, name, moduleName, bases, body, anns, added);
    AttachKindsSpec(AsMap(body), added[0].errors.value, |cs| + 1, j);
  }

  /** Line 37 looks `__errors__` up on each base: on a kind class it finds the
      node's table, since the node is its first base and the kind class has no
      table of its own. So subclassing `Node.k` inherits all of `Node`'s kinds. */
  lemma KindClassTable(cs: seq<ClassInfo>, name: string, moduleName: string, bases: seq<ClassId>,
                       body: Dict<Obj>, anns: Dict<Annotation>, added: seq<ClassInfo>, j: nat)
    requires Declared(cs, name, moduleName, bases, body, anns, added)
    requires j < |added| - 1
    ensures TableOf(cs + added, |cs| + 1 + j) == added[0].errors
    ensures added[0].errors.Some?
  {
    var e := added[0].errors.value[j];
    assert IsKindClass(cs, |cs|, name, moduleName, bases, e.0, e.1, (cs + added)[|cs| + 1 + j]) by {
      DeclaredKinds(cs, name, moduleName, bases, body, anns, added, j);
      assert (cs + added)[|cs| + 1 + j] == added[1 + j];
    }
    KindClassTableOf(cs, added, name, moduleName, bases, e.0, e.1, |cs| + 1 + j);
  }

  /** The `__errors__` a kind class shows is its node's: it has none of its
      own and the node is its first base. */
  lemma KindClassTableOf(cs: seq<ClassInfo>, added: seq<ClassInfo>, name: string, moduleName: string,
                         bases: seq<ClassId>, k: string, meta: KindMeta, c: ClassId)
    requires WellFormed(cs) && (forall j :: 0 <= j < |bases| ==> bases[j] < |cs|)
    requires WellFormed(cs + added) && |cs| < c < |cs + added|
    requires IsKindClass(cs, |cs|, name, moduleName, bases, k, meta, (cs + added)[c])
    requires added[0].errors.Some?
    ensures TableOf(cs + added, c) == added[0].errors
  {
    var cs' := cs + added;
    assert cs'[|cs|] == added[0];
    assert cs'[c].bases[0] == |cs| && Owner(cs', |cs|, ErrorsTable) == Some(|cs|);
    assert Owner(cs', c, ErrorsTable) == Some(|cs|);
  }

  /** Lines 42 and 60: the node keeps the body's attributes, except that each
      kind name now holds its child class. */
  lemma DeclaredNodeAttrs(cs: seq<ClassInfo>, name: string, moduleName: string, bases: seq<ClassId>,
                          body: Dict<Obj>, anns: Dict<Annotation>, added: seq<ClassInfo>, k: string)
    requires Declared(cs, name, moduleName, bases, body, anns, added)
    requires Get(added[0].errors.value, k).None?
    ensures k in added[0].attrs <==> Get(body, k).Some?
    ensures k in added[0].attrs ==> added[0].attrs[k] == Get(body, k).value
  {
    BuildParts(cs, name, moduleName, bases, body, anns, added);
    AttachKindsOthers(AsMap(body), added[0].errors.value, |cs| + 1, k);
  }

  lemma DeclaredKindName(cs: seq<ClassInfo>, name: string, moduleName: string, bases: seq<ClassId>,
                         body: Dict<Obj>, anns: Dict<Annotation>, added: seq<ClassInfo>, j: nat)
    requires Declared(cs, name, moduleName, bases, body, anns, added)
    requires j < |added| - 1
    ensures added[1 + j].name == name + "@" + added[0].errors.value[j].0
  {
    DeclaredKinds(cs, name, moduleName, bases, body, anns, added, j);
  }

  /** Exactly one class is created per kind: the new classes' names are distinct. */
  lemma KindNamesDistinct(cs: seq<ClassInfo>, name: string, moduleName: string, bases: seq<ClassId>,
                          body: Dict<Obj>, anns: Dict<Annotation>, added: seq<ClassInfo>, i: nat, i': nat)
    requires Declared(cs, name, moduleName, bases, body, anns, added)
    requires i < i' < |added|
    ensures added[i].name != added[i'].name
  {
    var table := added[0].errors.value;
    var k' := table[i' - 1].0;
    DeclaredKindName(cs, name, moduleName, bases, body, anns, added, i' - 1);
    assert |added[i'].name| > |name|;
    if i > 0 {
      var k := table[i - 1].0;
      DeclaredKindName(cs, name, moduleName, bases, body, anns, added, i - 1);
      assert k != k';
      var p := |name + "@"|;
      assert added[i].name[p..] == k && added[i'].name[p..] == k';
    }
  }

  // ---------------------------------------------------------------- ancestry

  /** The node is a subclass of exactly itself and what its bases are
      subclasses of (what `except` clauses catch a raised node by). */
  lemma NodeAncestry(cs: seq<ClassInfo>, name: string, moduleName: string, bases: seq<ClassId>,
                     body: Dict<Obj>, anns: Dict<Annotation>, added: seq<ClassInfo>, x: ClassId)
    requires Declared(cs, name, moduleName, bases, body, anns, added)
    ensures IsA(cs + added, |cs|, x) <==> x == |cs| || exists i :: 0 <= i < |bases| && IsA(cs, bases[i], x)
  {
    var cs' := cs + added;
    assert cs'[|cs|] == added[0];
    assert forall c :: 0 <= c < |cs| ==> cs'[c] == cs[c];
    forall i | 0 <= i < |bases| ensures IsA(cs, bases[i], x) == IsA(cs', bases[i], x) {
      IsAFrame(cs, cs', bases[i], x);
    }
  }

  /** Ancestry of a kind class `c` of node `n`, both appended after `cs`. */
  lemma KindClassAncestry(cs: seq<ClassInfo>, cs': seq<ClassInfo>, n: ClassId, name: string, moduleName: string,
                          bases: seq<ClassId>, k: string, meta: KindMeta, c: ClassId, x: ClassId)
    requires WellFormed(cs) && (forall j :: 0 <= j < |bases| ==> bases[j] < |cs|)
    requires WellFormed(cs') && |cs| == n < c < |cs'| && cs'[..n] == cs
    requires IsKindClass(cs, n, name, moduleName, bases, k, meta, cs'[c])
    ensures var extra := Extra(cs, bases, k);
      IsA(cs', c, x) <==>
        x == c || IsA(cs', n, x) ||
        (exists i :: 0 <= i < |meta.subTypes| && IsClass(cs, meta.subTypes[i]) && IsA(cs, meta.subTypes[i].id, x)) ||
        (exists i :: 0 <= i < |extra| && IsClass(cs, extra[i]) && IsA(cs, extra[i].id, x))
  {
    if IsA(cs', c, x) && x != c {
      KindClassAncestryUp(cs, cs', n, name, moduleName, bases, k, meta, c, x);
    }
    KindClassAncestryDown(cs, cs', n, name, moduleName, bases, k, meta, c, x);
  }

  /** A proper ancestor of a kind class is reached through one of its bases. */
  lemma KindClassAncestryUp(cs: seq<ClassInfo>, cs': seq<ClassInfo>, n: ClassId, name: string, moduleName: string,
                            bases: seq<ClassId>, k: string, meta: KindMeta, c: ClassId, x: ClassId)
    requires WellFormed(cs) && (forall j :: 0 <= j < |bases| ==> bases[j] < |cs|)
    requires WellFormed(cs') && |cs| == n < c < |cs'| && cs'[..n] == cs
    requires IsKindClass(cs, n, name, moduleName, bases, k, meta, cs'[c])
    requires IsA(cs', c, x) && x != c
    ensures IsA(cs', n, x) ||
      (exists i :: 0 <= i < |meta.subTypes| && IsClass(cs, meta.subTypes[i]) && IsA(cs, meta.subTypes[i].id, x)) ||
      (exists i :: 0 <= i < |Extra(cs, bases, k)| && IsClass(cs, Extra(cs, bases, k)[i]) &&
                   IsA(cs, Extra(cs, bases, k)[i].id, x))
  {
    var b :| 0 <= b < |cs'[c].bases| && IsA(cs', cs'[c].bases[b], x);
    KindClassBaseAncestor(cs, cs', n, name, moduleName, bases, k, meta, c, x, b);
  }

  /** What the base at position `b` of a kind class is a subclass of, the node,
      a sub type or a base's class of the same kind is a subclass of. */
  lemma KindClassBaseAncestor(cs: seq<ClassInfo>, cs': seq<ClassInfo>, n: ClassId, name: string, moduleName: string,
                              bases: seq<ClassId>, k: string, meta: KindMeta, c: ClassId, x: ClassId, b: nat)
    requires WellFormed(cs) && (forall j :: 0 <= j < |bases| ==> bases[j] < |cs|)
    requires WellFormed(cs') && |cs| == n < c < |cs'| && cs'[..n] == cs
    requires IsKindClass(cs, n, name, moduleName, bases, k, meta, cs'[c])
    requires b < |cs'[c].bases| && IsA(cs', cs'[c].bases[b], x)
    ensures IsA(cs', n, x) ||
      (exists i :: 0 <= i < |meta.subTypes| && IsClass(cs, meta.subTypes[i]) && IsA(cs, meta.subTypes[i].id, x)) ||
      (exists i :: 0 <= i < |Extra(cs, bases, k)| && IsClass(cs, Extra(cs, bases, k)[i]) &&
                   IsA(cs, Extra(cs, bases, k)[i].id, x))
  {
    var sub, extra := meta.subTypes, Extra(cs, bases, k);
    var id := cs'[c].bases[b];
    if id == n {
      assert IsA(cs', n, x);
    } else {
      assert b > 0 && id < n;
      IsAExtend(cs, cs', id, x);
      if b - 1 < |sub| {
        assert sub[b - 1] == Cls(id);
        assert IsClass(cs, sub[b - 1]) && IsA(cs, sub[b - 1].id, x);
      } else {
        var p := b - 1 - |sub|;
        assert p < |extra| && extra[p] == Cls(id);
        assert IsClass(cs, Extra(cs, bases, k)[p]) && IsA(cs, Extra(cs, bases, k)[p].id, x);
      }
    }
  }

  /** A kind class is a subclass of whatever its bases are subclasses of. */
  lemma KindClassAncestryDown(cs: seq<ClassInfo>, cs': seq<ClassInfo>, n: ClassId, name: string, moduleName: string,
                              bases: seq<ClassId>, k: string, meta: KindMeta, c: ClassId, x: ClassId)
    requires WellFormed(cs) && (forall j :: 0 <= j < |bases| ==> bases[j] < |cs|)
    requires WellFormed(cs') && |cs| == n < c < |cs'| && cs'[..n] == cs
    requires IsKindClass(cs, n, name, moduleName, bases, k, meta, cs'[c])
    ensures IsA(cs', n, x) ==> IsA(cs', c, x)
    ensures (exists i :: 0 <= i < |meta.subTypes| && IsClass(cs, meta.subTypes[i]) && IsA(cs, meta.subTypes[i].id, x)) ==>
      IsA(cs', c, x)
    ensures var extra := Extra(cs, bases, k);
      (exists i :: 0 <= i < |extra| && IsClass(cs, extra[i]) && IsA(cs, extra[i].id, x)) ==> IsA(cs', c, x)
  {
    var sub, extra := meta.subTypes, Extra(cs, bases, k);
    if exists i :: 0 <= i < |sub| && IsClass(cs, sub[i]) && IsA(cs, sub[i].id, x) {
      var i :| 0 <= i < |sub| && IsClass(cs, sub[i]) && IsA(cs, sub[i].id, x);
      KindClassViaSubType(cs, cs', n, name, moduleName, bases, k, meta, c, x, i);
    }
    if exists i :: 0 <= i < |extra| && IsClass(cs, extra[i]) && IsA(cs, extra[i].id, x) {
      var i :| 0 <= i < |extra| && IsClass(cs, extra[i]) && IsA(cs, extra[i].id, x);
      KindClassViaExtra(cs, cs', n, name, moduleName, bases, k, meta, c, x, i);
    }
    if IsA(cs', n, x) {
      assert IsA(cs', cs'[c].bases[0], x);
    }
  }

  /** A kind class is a subclass of whatever its `i`-th sub type is a subclass of. */
  lemma KindClassViaSubType(cs: seq<ClassInfo>, cs': seq<ClassInfo>, n: ClassId, name: string, moduleName: string,
                            bases: seq<ClassId>, k: string, meta: KindMeta, c: ClassId, x: ClassId, i: nat)
    requires WellFormed(cs) && (forall j :: 0 <= j < |bases| ==> bases[j] < |cs|)
    requires WellFormed(cs') && |cs| == n < c < |cs'| && cs'[..n] == cs
    requires IsKindClass(cs, n, name, moduleName, bases, k, meta, cs'[c])
    requires i < |meta.subTypes| && IsClass(cs, meta.subTypes[i]) && IsA(cs, meta.subTypes[i].id, x)
    ensures IsA(cs', c, x)
  {
    var b := cs'[c].bases[1 + i];
    assert meta.subTypes[i] == Cls(b);
    assert IsA(cs', b, x) by {
      IsAExtend(cs, cs', b, x);
    }
  }

  /** A kind class is a subclass of whatever the `i`-th base's class of the
      same kind is a subclass of. */
  lemma KindClassViaExtra(cs: seq<ClassInfo>, cs': seq<ClassInfo>, n: ClassId, name: string, moduleName: string,
                          bases: seq<ClassId>, k: string, meta: KindMeta, c: ClassId, x: ClassId, i: nat)
    requires WellFormed(cs) && (forall j :: 0 <= j < |bases| ==> bases[j] < |cs|)
    requires WellFormed(cs') && |cs| == n < c < |cs'| && cs'[..n] == cs
    requires IsKindClass(cs, n, name, moduleName, bases, k, meta, cs'[c])
    requires var extra := Extra(cs, bases, k);
      i < |extra| && IsClass(cs, extra[i]) && IsA(cs, extra[i].id, x)
    ensures IsA(cs', c, x)
  {
    var b := cs'[c].bases[1 + |meta.subTypes| + i];
    assert Extra(cs, bases, k)[i] == Cls(b);
    assert IsA(cs', b, x) by {
      IsAExtend(cs, cs', b, x);
    }
  }

  /** A kind class is a subclass of exactly itself, its node and whatever its
      sub types and the bases' classes of the same kind are subclasses of. */
  lemma KindAncestry(cs: seq<ClassInfo>, name: string, moduleName: string, bases: seq<ClassId>,
                     body: Dict<Obj>, anns: Dict<Annotation>, added: seq<ClassInfo>, j: nat, x: ClassId)
    requires Declared(cs, name, moduleName, bases, body, anns, added)
    requires j < |added| - 1
    ensures var (k, meta) := added[0].errors.value[j];
      var extra := Extra(cs, bases, k);
      IsA(cs + added, |cs| + 1 + j, x) <==>
        x == |cs| + 1 + j || IsA(cs + added, |cs|, x) ||
        (exists i :: 0 <= i < |meta.subTypes| && IsClass(cs, meta.subTypes[i]) && IsA(cs, meta.subTypes[i].id, x)) ||
        (exists i :: 0 <= i < |extra| && IsClass(cs, extra[i]) && IsA(cs, extra[i].id, x))
  {
    var e := added[0].errors.value[j];
    var cs' := cs + added;
    DeclaredKinds(cs, name, moduleName, bases, body, anns, added, j);
    assert cs'[|cs| + 1 + j] == added[1 + j] && cs'[..|cs|] == cs;
    KindClassAncestry(cs, cs', |cs|, name, moduleName, bases, e.0, e.1, |cs| + 1 + j, x);
  }
}
