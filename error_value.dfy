/** Error objects: what constructing one keeps, and `Error.__eq__`, which
    compares only the `__name__` and `__module__` of the classes involved and
    never the subclass relation. Also `error()`, the identity that lets a
    kind be written where a type checker expects an exception class. */
module ErrorValue {
  import opened Dict
  import opened Classes
  import opened ErrorMeta
  import opened Declaration

  /** An exception object: its class and the arguments it was constructed
      with (builtin exceptions have no keyword arguments). */
  datatype Instance = Instance(cls: ClassId, args: seq<Obj>, kwargs: map<string, Obj>)

  /** The right-hand side of `==`: a class of the registry, an exception
      object, or any other object, given by its class's name and module. */
  datatype Operand =
    | ClassOperand(c: ClassId)
    | InstanceOperand(e: Instance)
    | ForeignOperand(typeName: string, typeModule: string)

  /** Every class the operand names is in the registry. */
  predicate Within(cs: seq<ClassInfo>, o: Operand)
  {
    match o
    case ClassOperand(c) => c < |cs|
    case InstanceOperand(e) => e.cls < |cs|
    case ForeignOperand(_, _) => true
  }

  /** `self == other` for an `Error` instance `self`: a class operand is
      compared by its own name and module, any other object by its class's. */
  predicate Eq(cs: seq<ClassInfo>, self: Instance, other: Operand)
    requires WellFormed(cs) && self.cls < |cs| && IsA(cs, self.cls, ErrorId) && Within(cs, other)
  {
    var mine := cs[self.cls];
    match other
    case ClassOperand(c) => cs[c].name == mine.name && cs[c].moduleName == mine.moduleName
    case InstanceOperand(e) => cs[e.cls].name == mine.name && cs[e.cls].moduleName == mine.moduleName
    case ForeignOperand(n, m) => n == mine.name && m == mine.moduleName
  }

  /** `c(*args, **kwargs)` for a subclass `c` of `Error`: the object keeps
      both argument lists exactly as passed, and compares equal to its class. */
  function Construct(cs: seq<ClassInfo>, c: ClassId, args: seq<Obj>, kwargs: map<string, Obj>): (e: Instance)
    requires WellFormed(cs) && c < |cs| && IsA(cs, c, ErrorId)
    ensures e.cls == c && e.args == args && e.kwargs == kwargs
    ensures Eq(cs, e, ClassOperand(c)) && Eq(cs, e, InstanceOperand(e))
  {
    Instance(c, args, kwargs)
  }

  /** Comparing with a class or with any instance of it gives the same answer,
      and the arguments either side was constructed with play no part. */
  lemma EqShallow(cs: seq<ClassInfo>, self: Instance, self': Instance, other: Instance)
    requires WellFormed(cs) && self.cls < |cs| && IsA(cs, self.cls, ErrorId)
    requires self'.cls == self.cls && other.cls < |cs|
    ensures Eq(cs, self, ClassOperand(other.cls)) == Eq(cs, self, InstanceOperand(other))
    ensures Eq(cs, self, InstanceOperand(other)) == Eq(cs, self', InstanceOperand(other))
  {
  }

  /** Between error objects, `==` is an equivalence relation. */
  lemma EqEquivalence(cs: seq<ClassInfo>, a: Instance, b: Instance, c: Instance)
    requires WellFormed(cs) && a.cls < |cs| && b.cls < |cs| && c.cls < |cs|
    requires IsA(cs, a.cls, ErrorId) && IsA(cs, b.cls, ErrorId) && IsA(cs, c.cls, ErrorId)
    ensures Eq(cs, a, InstanceOperand(a))
    ensures Eq(cs, a, InstanceOperand(b)) == Eq(cs, b, InstanceOperand(a))
    ensures Eq(cs, a, InstanceOperand(b)) && Eq(cs, b, InstanceOperand(c)) ==> Eq(cs, a, InstanceOperand(c))
  {
  }

  /** An object of a kind class is not equal to the node, although the kind
      class is a subclass of the node: their names differ by `@k`. */
  lemma KindNotEqualNode(cs: seq<ClassInfo>, name: string, moduleName: string, bases: seq<ClassId>,
                         body: Dict<Obj>, anns: Dict<Annotation>, added: seq<ClassInfo>, j: nat,
                         args: seq<Obj>, kwargs: map<string, Obj>)
    requires Declared(cs, name, moduleName, bases, body, anns, added)
    requires j < |added| - 1
    ensures IsA(cs + added, |cs| + 1 + j, |cs|) && IsA(cs + added, |cs| + 1 + j, ErrorId)
    ensures !Eq(cs + added, Instance(|cs| + 1 + j, args, kwargs), ClassOperand(|cs|))
  {
    var cs', kid := cs + added, |cs| + 1 + j;
    ErrorOfKind(cs, name, moduleName, bases, body, anns, added, j);
    assert cs'[kid] == added[1 + j] && cs'[|cs|] == added[0];
    assert IsA(cs', kid, |cs|) by {
      DeclaredKinds(cs, name, moduleName, bases, body, anns, added, j);
      assert IsA(cs', cs'[kid].bases[0], |cs|);
    }
    assert |cs'[kid].name| > |cs'[|cs|].name| by {
      DeclaredKindName(cs, name, moduleName, bases, body, anns, added, j);
    }
  }

  /** A declared class equals any older class with the same name in the same
      module, such as an earlier class statement of that name, even when it is
      not a subclass of it. */
  lemma SameNameEqualUnrelated(cs: seq<ClassInfo>, name: string, moduleName: string, bases: seq<ClassId>,
                               body: Dict<Obj>, anns: Dict<Annotation>, added: seq<ClassInfo>, x: ClassId,
                               args: seq<Obj>, kwargs: map<string, Obj>)
    requires Declared(cs, name, moduleName, bases, body, anns, added)
    requires x < |cs| && cs[x].name == name && cs[x].moduleName == moduleName
    requires forall i :: 0 <= i < |bases| ==> !IsA(cs, bases[i], x)
    ensures IsA(cs + added, |cs|, ErrorId)
    ensures Eq(cs + added, Instance(|cs|, args, kwargs), ClassOperand(x))
    ensures !IsA(cs + added, |cs|, x)
  {
    var cs' := cs + added;
    var i :| 0 <= i < |bases| && IsA(cs, bases[i], ErrorId);
    NodeAncestry(cs, name, moduleName, bases, body, anns, added, ErrorId);
    NodeAncestry(cs, name, moduleName, bases, body, anns, added, x);
    assert cs'[x] == cs[x] && cs'[|cs|] == added[0];
  }

  /** `error(value)`: the value itself. */
  function ErrorOf(value: Obj): (r: Obj)
    ensures r == value
  {
    value
  }

  /** `error(Node.k)` is the class made for kind `k`: a subclass of `Error`,
      so it can be raised and caught as one. */
  lemma ErrorOfKind(cs: seq<ClassInfo>, name: string, moduleName: string, bases: seq<ClassId>,
                    body: Dict<Obj>, anns: Dict<Annotation>, added: seq<ClassInfo>, j: nat)
    requires Declared(cs, name, moduleName, bases, body, anns, added)
    requires j < |added| - 1
    ensures var cs' := cs + added; var k := added[0].errors.value[j].0;
      FindAttr(cs', |cs|, k).Some? && ErrorOf(FindAttr(cs', |cs|, k).value) == Cls(|cs| + 1 + j) &&
      IsA(cs', |cs| + 1 + j, ErrorId)
  {
    var cs' := cs + added;
    var k := added[0].errors.value[j].0;
    DeclaredKindAttr(cs, name, moduleName, bases, body, anns, added, j);
    assert cs'[|cs|] == added[0];
    assert Owner(cs', |cs|, Attr(k)) == Some(|cs|);
    var i :| 0 <= i < |bases| && IsA(cs, bases[i], ErrorId);
    NodeAncestry(cs, name, moduleName, bases, body, anns, added, ErrorId);
    KindAncestry(cs, name, moduleName, bases, body, anns, added, j, ErrorId);
  }
}
