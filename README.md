# gaffe error taxonomies in Dafny

gaffe declares error taxonomies as Python classes. A subclass of `Error`
lists its *kinds* as plain class attributes (`not_found = "Not found"`),
optionally annotated with the exception types a kind should also count as
(`bad_input: ValueError = "..."`). The metaclass `ErrorMeta` then turns
every kind `k` of a class `Node` into a child class `Node@k`, reachable
as `Node.k`, that is a subclass of `Node`, of the annotated sub types and
of the same kind on each base. An `except Node.k` or `except Node` clause
then catches it. A second component, the decorator `raises(*allowed)`,
lets a call raise only exceptions of allowed classes.

The model replaces Python's class machinery with an explicit registry: a
class is an index into a sequence of class records (name, module, direct
bases, own `__errors__` table, own attributes, `__value__`). Every class's
bases were created before it. `issubclass` is `IsA`, the
reflexive-transitive closure of the direct bases. Attribute lookup is the
class's own namespace, then the bases, left to right and depth first.
Python dictionaries are insertion-ordered lists of distinct keys, so kind
classes are created in the order Python would create them.

- `dict.dfy`: the dictionaries (`d[k] = v`, `{**a, **b}`).
- `classes.dfy`: the registry, `IsA` and attribute lookup.
- `error_meta.dfy`: `ErrorMeta.__new__` and `ErrorMeta.__init__` as
  functions of the registry before the declaration. `Build` is the whole
  class statement: the classes it appends, or the error it raises.
- `registry.dfy`: the same class statement run step by step. A `Registry`
  object holds the classes, and `Declare` runs the loops of
  `ErrorMeta.__new__` and `__init__` and appends the new classes. Each loop
  is proved equal to its function in `error_meta.dfy`.
- `declaration.dfy`: what a successful declaration produces: the merged
  kind table, one child class per kind, its bases, its name and the
  ancestry of every new class.
- `catching.dfy`: which `except` clauses catch which new classes.
- `error_value.dfy`: error objects, `Error.__eq__` and `error()`.
- `raises.py` is modelled in `raises.dfy` as a function on the call's
  outcome.

A consequence of `gaffe/error.py:58` is proved as
`Catching.InheritedAnnotatedKindRejected`. The child class of an
inherited kind lists the kind's annotated sub types before the bases'
classes of the same kind. Those classes are themselves subclasses of the
sub types. Python's method resolution order forbids a base listed before
one of its own subclasses, so a class that inherits an annotated kind
from an `Error` base cannot be declared. The model checks exactly this
condition: no listed base is a subclass of an earlier one, and no base is
listed twice.

Line 57 likewise takes `getattr(base, k)` whatever it is. Every exception
class inherits the `args` descriptor and the `with_traceback` method from
`BaseException`, so a kind with one of those names gets a base that is not a
class, and the declaration fails (`Catching.BuiltinAttrKindRejected`).

## Model

| member | source | states |
|---|---|---|
| Dict.Get | gaffe/error.py:27 | a value `d.get(k)` finds is the value of an entry with key `k` |
| Dict.GetPresent | gaffe/error.py:27 | `d.get(k)` finds a value whenever some entry has key `k` |
| Dict.Put | gaffe/error.py:22 | after `d[k] = v`, `k` maps to `v` and every other key to what it mapped to before |
| Dict.PutKeys | gaffe/error.py:22 | `d[k] = v` keeps the key order when `k` is present and appends `k` when it is new |
| Dict.Merge | gaffe/error.py:40 | in `{**a, **b}` every key maps to its value in `b` if `b` has it, else to its value in `a` |
| Dict.AsMap | gaffe/error.py:42 | the class namespace holds exactly the body's keys, each with its body value |
| Classes.IsA | gaffe/error.py:34 | `issubclass(c, d)`, and the test an `except d` clause makes: `d` is `c` or an ancestor of one of its direct bases |
| Classes.BaseExceptionAttrs | gaffe/error.py:63 | the non-dunder attributes every exception class inherits from `BaseException` (`args`, `with_traceback`); none of them is a class |
| Classes.IsABelow | gaffe/error.py:34 | a class is a subclass only of itself and of classes created before it |
| Classes.IsATransitive | gaffe/error.py:34 | `issubclass` is transitive |
| Classes.Owner | gaffe/error.py:37 | attribute lookup answers from the class's own namespace when it has the name, and otherwise from a class it is a subclass of |
| Classes.OwnerInNone | gaffe/error.py:37 | a lookup through the bases fails exactly when it fails on every base |
| Classes.OwnerInFirst | gaffe/error.py:37 | a lookup through the bases that succeeds answers as the first base, left to right, on which it succeeds; every base before it fails |
| Classes.OwnerNoneAbsent | gaffe/error.py:37 | when `hasattr` is false, neither the class nor any ancestor has the attribute |
| Classes.FindAttr | gaffe/error.py:57 | `getattr(c, k)` when `hasattr(c, k)`: the attribute in the namespace that answers the lookup |
| Classes.TableOf | gaffe/error.py:37-40 | `c.__errors__` when `hasattr(c, "__errors__")`: the table of the class that answers the lookup |
| ErrorMeta.CollectKinds | gaffe/error.py:19-22 | every non-dunder body attribute becomes a kind whose value is the assigned object and whose sub types are empty; dunder names are skipped |
| ErrorMeta.Accepted | gaffe/error.py:26-31 | the sub types an annotation gives: a `Union`'s arguments, or the class itself when it is an `Exception` subclass; nothing for anything else |
| ErrorMeta.Annotate | gaffe/error.py:26-31 | one annotation: ValueError for an unsupported type, KeyError for a name with no kind, otherwise the kind's sub types replaced |
| ErrorMeta.ApplyAnnotations | gaffe/error.py:24-31 | the annotations applied in order, the first error ending the declaration |
| ErrorMeta.AnnotateOk | gaffe/error.py:26-29 | an accepted annotation replaces the sub types of its kind (the `Union` arguments, or the one `Exception` class) and changes no other entry |
| ErrorMeta.AnnotateKeys | gaffe/error.py:26-29 | an accepted annotation keeps the kinds in their order |
| ErrorMeta.AnnotationsSucceed | gaffe/error.py:24-31 | the annotations go through if and only if each one is a `Union` or an `Exception` subclass and names an assigned kind |
| ErrorMeta.AnnotationsKeepKinds | gaffe/error.py:24-29 | after the annotations, every kind keeps its value and place, and an annotated kind carries its annotation's sub types |
| ErrorMeta.AnnotationsFirstFault | gaffe/error.py:24-31 | a failing declaration raises the error of the first faulty annotation: ValueError for an unsupported type, KeyError for a name with no assignment |
| ErrorMeta.Contributes | gaffe/error.py:34-38 | a base takes part in the merge when it is an `Error` subclass with an `__errors__` attribute |
| ErrorMeta.MergeStep | gaffe/error.py:40 | one turn of the loop: the table so far merged over the base's table |
| ErrorMeta.MergeBases | gaffe/error.py:33-40 | the loop over the bases, in order |
| ErrorMeta.MergeBasesSpec | gaffe/error.py:33-40 | the merged table gives each name the node's own entry, else the entry of the first `Error` base with a table that has it; later bases never override earlier ones |
| ErrorMeta.Extra | gaffe/error.py:57 | `getattr(base, k)` for every base that has `k`, in base order |
| ErrorMeta.ExtraMembers | gaffe/error.py:57 | the extra bases of a kind class are exactly what `getattr(base, k)` gives on the bases that have `k` |
| ErrorMeta.ExtraIndexOf | gaffe/error.py:57 | what each base that has `k` gives for it appears among the extra bases |
| ErrorMeta.ExtraSource | gaffe/error.py:57 | each extra base is what some base gives for `k` |
| ErrorMeta.Consistent | gaffe/error.py:42 | the base-order condition `type.__new__` checks: no base is a subclass of a base listed before it (which rules out a base listed twice) |
| ErrorMeta.KindClass | gaffe/error.py:51-59 | the child class for one kind, or the TypeError `type.__new__` raises for a non-class base or an inconsistent base order |
| ErrorMeta.KindClasses | gaffe/error.py:50-59 | the child classes of the table's kinds, in table order, the first error ending the loop |
| ErrorMeta.AttachKinds | gaffe/error.py:60 | `setattr(cls, k, child)` for every kind, in table order |
| ErrorMeta.KindClassesAt | gaffe/error.py:50-59 | one child class per table entry, in table order |
| ErrorMeta.KindClassShape | gaffe/error.py:51-59 | a child class is named `Node@k`, has the node's module and `__value__` the kind's value, and its bases are the node, then the sub types, then the bases' classes for `k`, all of them existing classes |
| ErrorMeta.KindClassesFail | gaffe/error.py:50-59 | when creating one child class raises, the declaration raises the error of the first failing kind |
| ErrorMeta.AttachKindsOthers | gaffe/error.py:60 | attaching the kinds leaves every attribute that is not a kind name as it was |
| ErrorMeta.AttachKindsSpec | gaffe/error.py:60 | the node's attribute named after its j-th kind is the j-th new child class |
| ErrorMeta.NewNode | gaffe/error.py:13-42 | a created node has the declared bases and a kind table, and its bases existed before it |
| ErrorMeta.InitNode | gaffe/error.py:44-60 | the node, unchanged except for its attributes, is followed by one class per kind, and every new class's bases already exist |
| ErrorMeta.Build | gaffe/error.py:13-60 | a declaration appends the node with its name, module and bases; through the kind builder it appends one more class per kind, otherwise just the node with no table; all bases precede their classes |
| ErrorMeta.KindBasesExist | gaffe/error.py:57-58 | every base of a child class is an existing class |
| ErrorMeta.KindClassesWellFormed | gaffe/error.py:57-59 | the child classes list only bases created before them |
| Taxonomy.Registry.constructor | gaffe/error.py:12-15 | right after `gaffe.error` is imported the registry holds the builtin exceptions, with the `args` and `with_traceback` attributes of `BaseException`, and `Error`, which has no kind table |
| Taxonomy.Registry.Declare | gaffe/error.py:13-60 | a class statement appends exactly the classes `Build` predicts and returns the node's id, or changes nothing and returns `Build`'s error; the registry stays valid |
| Taxonomy.MakeNode | gaffe/error.py:13-42 | the steps of `ErrorMeta.__new__` give the node or the error `NewNode` describes |
| Taxonomy.InitKinds | gaffe/error.py:44-60 | the steps of `ErrorMeta.__init__` give the classes or the error `InitNode` describes |
| Taxonomy.CollectBody | gaffe/error.py:17-22 | the loop over the body builds the table `CollectKinds` describes |
| Taxonomy.ReadAnnotations | gaffe/error.py:24-31 | the loop over the annotations gives the table or the error `ApplyAnnotations` describes |
| Taxonomy.InheritKinds | gaffe/error.py:33-40 | the loop over the bases builds the merged table `MergeBases` describes |
| Taxonomy.CreateKinds | gaffe/error.py:48-60 | the loop over the table creates the child classes `KindClasses` describes and the node attributes `AttachKinds` describes, or stops with the same error |
| Declaration.BuildParts | gaffe/error.py:13-60 | a successful declaration is the collected, annotated and merged table on the node, followed by the kind classes made against that node |
| Declaration.DeclaredTable | gaffe/error.py:17-40 | the node's `__errors__` entry for every name is its own non-dunder assignment with the annotated sub types, else the first `Error` base's entry |
| Declaration.AnnotationsValid | gaffe/error.py:24-31 | in a successful declaration every annotation names a non-dunder kind the body assigns, and is a `Union` or an `Exception` class |
| Declaration.AnnotationRejected | gaffe/error.py:24-31 | the first faulty annotation makes the whole declaration fail with its own error |
| Declaration.NodeMroRejected | gaffe/error.py:42 | a base listed before one of its own subclasses, or listed twice, makes the declaration fail |
| Declaration.InconsistentRejected | gaffe/error.py:42 | bases in an order no method resolution order can honour make the declaration fail, through the metaclass or not |
| Declaration.KindClassIs | gaffe/error.py:51-59 | a kind class made for the newest node has the name, module, value and base layout lines 51-59 give it |
| Declaration.DeclaredKinds | gaffe/error.py:50-59 | the j-th kind of the table gets the j-th class after the node, named `Node@k`, with the node's module, the kind's value, and bases node, sub types, bases' classes for `k` |
| Declaration.DeclaredKindsConsistent | gaffe/error.py:58-59 | no base of a created kind class is a subclass of a base listed before it |
| Declaration.DeclaredKindAttr | gaffe/error.py:60 | `Node.k` is the class created for `k` |
| Declaration.KindClassTable | gaffe/error.py:37-40 | `__errors__` looked up on `Node.k` is the node's table, so a class declared on `Node.k` inherits all of `Node`'s kinds |
| Declaration.DeclaredNodeAttrs | gaffe/error.py:42 | every name that is not a kind keeps its body value on the node, and no other name appears |
| Declaration.DeclaredKindName | gaffe/error.py:51 | the class for kind `k` is named `Node@k` |
| Declaration.KindNamesDistinct | gaffe/error.py:50-51 | the node and its kind classes all have different names: exactly one class per kind |
| Declaration.NodeAncestry | gaffe/error.py:42 | a new node is a subclass of exactly itself and whatever its bases are subclasses of |
| Declaration.KindClassAncestry | gaffe/error.py:58-59 | a kind class is a subclass of exactly itself, its node, and whatever its sub types and bases' classes for `k` are subclasses of |
| Declaration.KindAncestry | gaffe/error.py:57-59 | the same, for the kind classes of a declaration |
| Catching.RootFacts | gaffe/error.py:63 | `Error` is an `Exception`, and its only non-dunder attributes are the two it inherits from `BaseException` |
| Catching.NodeCaught | tests/test_error.py:6-28 | a declared class is caught by each of its bases, by `Error` and by `Exception` |
| Catching.KindCaughtByNode | tests/test_error.py:31-60 | `Node.k` is caught by `Node` and by everything that catches `Node` |
| Catching.KindCaughtBySubType | gaffe/error.py:58 | an annotated kind's class is caught by each annotated sub type |
| Catching.KindCaughtByBaseKind | gaffe/error.py:57-58 | `Node.k` is caught by `Base.k` for every base that has `k` |
| Catching.SeparateTaxonomies | tests/test_error.py:63-93 | a kind of a class declared on `Error` is not caught by an unrelated older class, even one with a kind of the same name and sub types |
| Catching.SubTypeNotAboveBaseKind | gaffe/error.py:57-59 | in a successful declaration a kind's sub type never has a bases' class for the same kind as a subclass |
| Catching.NonClassAttrKindRejected | gaffe/error.py:57-59 | a kind named after an attribute a base has that is not a class cannot be declared: that attribute becomes a base of the kind class |
| Catching.BuiltinAttrKindRejected | gaffe/error.py:57-59 | so a class declared on `Error` cannot have a kind named `args` or `with_traceback` |
| Catching.InheritedAnnotatedKindRejected | gaffe/error.py:57-59 | a class that inherits an annotated kind, whose base class for that kind is a subclass of the sub type, cannot be declared |
| ErrorValue.Eq | gaffe/error.py:76-83 | `Error.__eq__`: a class is compared by its own name and module, any other object by its class's |
| ErrorValue.Construct | gaffe/error.py:64-66 | an error object keeps its positional and keyword arguments as passed and equals its own class |
| ErrorValue.EqShallow | gaffe/error.py:76-83 | comparing with a class or with an instance of it gives the same answer, whatever either object was constructed with |
| ErrorValue.EqEquivalence | gaffe/error.py:76-83 | between error objects `==` is reflexive, symmetric and transitive |
| ErrorValue.KindNotEqualNode | gaffe/error.py:76-83 | an object of `Node.k` is a subclass instance of `Node` yet does not equal `Node` |
| ErrorValue.SameNameEqualUnrelated | gaffe/error.py:76-83 | a declared class's object equals an older class of the same name and module even though it is not a subclass of it |
| ErrorValue.ErrorOf | gaffe/error.py:86-87 | `error(v)` is `v` |
| ErrorValue.ErrorOfKind | gaffe/error.py:86-87 | `error(Node.k)` is the class created for `k`, a subclass of `Error` |
| Raises.IsInstance | gaffe/raises.py:14 | `isinstance` against a tuple holds exactly when the object's class is a subclass of some entry |
| Raises.Violation | gaffe/raises.py:15-18 | the replacement is an `AssertionError` carrying the message |
| Raises.Disallowed | gaffe/raises.py:13-14 | the outcome is a raised `Exception` that is an instance of no allowed class |
| Raises.Guard | gaffe/raises.py:11-19 | the guarded outcome is the call's own outcome or the `AssertionError`, and differs from the call's own only for a disallowed `Exception` |
| Raises.Call | gaffe/raises.py:10-12 | a call that returns passes its result through unchanged |
| Raises.AllowedReraised | gaffe/raises.py:13-19 | an exception that is an instance of some allowed class is raised again, the same object |
| Raises.DisallowedReplaced | gaffe/raises.py:14-18 | an `Exception` that is an instance of no allowed class, or any `Exception` when none are allowed, becomes the `AssertionError` |
| Raises.GuardPromise | gaffe/raises.py:11-19 | whatever the wrapper raises is the callable's own non-`Exception`, the callable's own instance of an allowed class, or the `AssertionError` |
| Raises.NonExceptionPassed | gaffe/raises.py:13 | something raised that is not an `Exception` leaves the wrapper untouched |
| Raises.GuardTwice | gaffe/raises.py:13-19 | of two nested wrappers with the same allowed classes, the outer one passes what the inner one let through, and replaces the inner one's `AssertionError` with its own unless `AssertionError` is allowed |
| Raises.WiderAllowList | gaffe/raises.py:14 | an outcome let through by an allow-list is let through by any list that contains a superclass of each of its classes |
| Raises.ExceptionAllowsAll | gaffe/raises.py:13-14 | allowing `Exception` lets every outcome through unchanged |

## Left out

- Python's full C3 method resolution order: only its "no base before its own subclass, no base twice" condition is checked. Layout conflicts are not modelled either.
- Attribute lookup follows the bases depth first, left to right, not along the C3 order. Attributes found through the metaclass are not modelled.
- The root test at `gaffe/error.py:14` and `:45` compares `__module__` and `__qualname__`. The model compares the module and the class name, which agree for a class declared at module level.
- Bases of a class statement are always classes of the registry. A non-class base of the node itself is not modelled; non-class sub types and extra bases of a kind class are (`NotAClassBase`).
- Postponed (string) annotations are not modelled: an annotation is a `Union` with its arguments or an object.
- `Taxonomy.Registry.Declare`: a failed class statement leaves the registry unchanged. In Python the node created before the failure is left unreachable, and the model does not keep it.
- The text of the `ValueError`, `TypeError` and `AssertionError` messages: the errors are tagged values, and the `AssertionError` message is a parameter.
- `functools.wraps` metadata on the wrapper, and the `TypeError` Python raises when an entry of `allowed_errors` is not a class: the allow-list is a list of classes.
- Running the wrapped callable: it is a parameter, a function from its arguments to its outcome (a return value or a raised object).
- The `add_note` method, which `BaseException` has from Python 3.11 on, is not among `Classes.BaseExceptionAttrs`; the dunder attributes of the builtin classes and of `Error` are left out, as no kind can be named after them.
- `Error` defines `__eq__` without `__hash__`, so its objects are unhashable. This is not modelled.
- `gaffe/mypy.py`, the type-checker plugin, is not part of this model.
