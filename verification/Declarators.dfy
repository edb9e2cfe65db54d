/**
  Declarators: the operations that a declarator pushes on its list (pointer, array, function), and
  the type that is built from the list.  Adjacent array dimensions are merged into one operation.
*/
module Declarators {
  import opened Utils

  /** The bounds of one array dimension; None is an open bound. */
  datatype Index = Index(lower: int, upper: int, openUpper: bool)

  datatype OpKind = PointerOp(count: nat) | ArrayOp(indices: seq<Index>) | FunctionOp(params: nat)

  datatype Type =
    | Named(id: nat)
    | Pointer(to: Type)
    | Array(dims: seq<Index>, element: Type)
    | Function(params: nat, result: Type)

  // ----- what a declarator means -----

  function Pointers(count: nat, t: Type): Type {
    if count == 0 then t else Pointers(count - 1, Pointer(t))
  }

  function Apply(k: OpKind, t: Type): Type {
    match k
    case PointerOp(n) => Pointers(n, t)
    case ArrayOp(dims) => Array(dims, t)
    case FunctionOp(p) => Function(p, t)
  }

  /** The type that a sequence of pushes denotes: the first push is the outermost constructor. */
  function Denote(pushes: seq<OpKind>, base: Type): Type {
    if pushes == [] then base else Apply(pushes[0], Denote(pushes[1..], base))
  }

  /** One array type for each dimension, the first dimension outermost (row-major order). */
  function Nested(dims: seq<Index>, t: Type): Type {
    if dims == [] then t else Array([dims[0]], Nested(dims[1..], t))
  }

  function Unmerge(t: Type): Type {
    match t
    case Named(_) => t
    case Pointer(u) => Pointer(Unmerge(u))
    case Array(dims, u) => Nested(dims, Unmerge(u))
    case Function(p, u) => Function(p, Unmerge(u))
  }

  // ----- the list of operations -----

  /** The list after a push: at the head, or merged into the array operation that is there. */
  function Pushed(ops: seq<OpKind>, k: OpKind): seq<OpKind> {
    if k.ArrayOp? && ops != [] && ops[0].ArrayOp? then [ArrayOp(ops[0].indices + k.indices)] + ops[1..]
    else [k] + ops
  }

  function PushAll(ops: seq<OpKind>, pushes: seq<OpKind>): seq<OpKind>
    decreases |pushes|
  {
    if pushes == [] then ops else PushAll(Pushed(ops, pushes[0]), pushes[1..])
  }

  /** AST_propagate_type: the operations are applied to the base type from the head of the list. */
  function Built(ops: seq<OpKind>, base: Type): Type {
    if ops == [] then base else Built(ops[1..], Apply(ops[0], base))
  }

  lemma {:induction false} NestedAppend(a: seq<Index>, b: seq<Index>, t: Type)
    ensures Nested(a + b, t) == Nested(a, Nested(b, t))
  {
    if a == [] {
      assert a + b == b;
    } else {
      assert (a + b)[1..] == a[1..] + b;
      NestedAppend(a[1..], b, t);
    }
  }

  lemma {:induction false} PointersUnmerge(n: nat, t: Type)
    ensures Unmerge(Pointers(n, t)) == Pointers(n, Unmerge(t))
    decreases n
  {
    if n > 0 {
      PointersUnmerge(n - 1, Pointer(t));
    }
  }

  lemma ApplyUnmerge(k: OpKind, t: Type, u: Type)
    requires Unmerge(t) == Unmerge(u)
    ensures Unmerge(Apply(k, t)) == Unmerge(Apply(k, u))
  {
    if k.PointerOp? {
      PointersUnmerge(k.count, t);
      PointersUnmerge(k.count, u);
    }
  }

  /** Types that are alike once unmerged stay so under the same operations. */
  lemma {:induction false} BuiltUnmerge(ops: seq<OpKind>, t: Type, u: Type)
    requires Unmerge(t) == Unmerge(u)
    ensures Unmerge(Built(ops, t)) == Unmerge(Built(ops, u))
    decreases |ops|
  {
    if ops != [] {
      ApplyUnmerge(ops[0], t, u);
      BuiltUnmerge(ops[1..], Apply(ops[0], t), Apply(ops[0], u));
    }
  }

  /** A push puts its constructor next to the base type, whether or not it is merged. */
  lemma PushedBuilds(ops: seq<OpKind>, k: OpKind, base: Type)
    ensures Unmerge(Built(Pushed(ops, k), base)) == Unmerge(Built(ops, Apply(k, base)))
  {
    if k.ArrayOp? && ops != [] && ops[0].ArrayOp? {
      var merged := Array(ops[0].indices + k.indices, base);
      var apart := Array(ops[0].indices, Array(k.indices, base));
      NestedAppend(ops[0].indices, k.indices, Unmerge(base));
      assert Pushed(ops, k)[1..] == ops[1..];
      BuiltUnmerge(ops[1..], merged, apart);
    } else {
      assert ([k] + ops)[1..] == ops;
    }
  }

  /** The type built from the merged list is the type that the pushes denote. */
  lemma {:induction false} BuiltIsDenoted(ops: seq<OpKind>, pushes: seq<OpKind>, base: Type)
    ensures Unmerge(Built(PushAll(ops, pushes), base)) == Unmerge(Built(ops, Denote(pushes, base)))
    decreases |pushes|
  {
    if pushes != [] {
      BuiltIsDenoted(Pushed(ops, pushes[0]), pushes[1..], base);
      PushedBuilds(ops, pushes[0], Denote(pushes[1..], base));
    }
  }

  // ----- what operations build, level by level -----

  /** What is found behind so many pointers, if there are so many. */
  function Behind(t: Type, n: nat): Option<Type>
    decreases n
  {
    if n == 0 then Some(t)
    else match t
      case Pointer(u) => Behind(u, n - 1)
      case _ => None
  }

  /** `t` is one operation around `inner`: just so many pointers, or an array with just these dimensions, or
      a function with these parameters. */
  predicate IsMade(t: Type, k: OpKind, inner: Type) {
    match k
    case PointerOp(n) => Behind(t, n) == Some(inner)
    case ArrayOp(dims) => t.Array? && t.dims == dims && t.element == inner
    case FunctionOp(p) => t.Function? && t.params == p && t.result == inner
  }

  lemma {:induction false} BehindPointers(n: nat, t: Type, k: nat)
    ensures Behind(Pointers(n, t), n + k) == Behind(t, k)
    decreases n
  {
    if n > 0 {
      BehindPointers(n - 1, Pointer(t), k + 1);
    }
  }

  /** Every list of pushes: the first one is around what the later ones denote. */
  lemma DenotedLevels(pushes: seq<OpKind>, base: Type)
    ensures pushes == [] ==> Denote(pushes, base) == base
    ensures pushes != [] ==> IsMade(Denote(pushes, base), pushes[0], Denote(pushes[1..], base))
  {
    if pushes != [] && pushes[0].PointerOp? {
      BehindPointers(pushes[0].count, Denote(pushes[1..], base), 0);
    }
  }

  /** The list as it stands: its head is next to the base type, and its last operation is outermost. */
  lemma {:induction false} BuiltLevels(ops: seq<OpKind>, base: Type)
    requires ops != []
    ensures IsMade(Built(ops, base), ops[|ops| - 1], Built(ops[..|ops| - 1], base))
    decreases |ops|
  {
    var last := |ops| - 1;
    if last == 0 {
      assert ops[..0] == [] && ops[1..] == [];
      if ops[0].PointerOp? {
        BehindPointers(ops[0].count, base, 0);
      }
    } else {
      BuiltLevels(ops[1..], Apply(ops[0], base));
      assert ops[1..][..last - 1] == ops[..last][1..];
    }
  }

  /** Unmerging takes arrays apart and touches nothing else: one array for each dimension, the first one
      outermost, and the element type under the last. */
  lemma {:induction false} UnmergedLevels(t: Type)
    ensures t.Named? ==> Unmerge(t) == t
    ensures t.Pointer? ==> Unmerge(t).Pointer? && Unmerge(t).to == Unmerge(t.to)
    ensures t.Function? ==> Unmerge(t).Function? && Unmerge(t).params == t.params && Unmerge(t).result == Unmerge(t.result)
    ensures t.Array? ==> Inside(Unmerge(t), t.dims) == Some(Unmerge(t.element))
  {
    if t.Array? {
      InsideNested(t.dims, Unmerge(t.element));
    }
  }

  /** What is found inside arrays of one dimension each, if there are just these. */
  function Inside(t: Type, dims: seq<Index>): Option<Type> {
    if dims == [] then Some(t)
    else if t.Array? && t.dims == [dims[0]] then Inside(t.element, dims[1..])
    else None
  }

  lemma {:induction false} InsideNested(dims: seq<Index>, t: Type)
    ensures Inside(Nested(dims, t), dims) == Some(t)
    decreases |dims|
  {
    if dims != [] {
      InsideNested(dims[1..], t);
    }
  }

  /** Adjacent dimensions are merged in the order in which they are pushed. */
  lemma MergedInOrder(a: seq<Index>, b: seq<Index>, base: Type)
    ensures Built(PushAll([], [ArrayOp(a), ArrayOp(b)]), base) == Array(a + b, base)
  {
    var x, y := ArrayOp(a), ArrayOp(b);
    assert [x, y][1..] == [y] && [y][1..] == [];
    assert Pushed([], x) == [x] && [x][1..] == [] && Pushed([x], y) == [ArrayOp(a + b)];
    assert PushAll([], [x, y]) == PushAll([x], [y]) == [ArrayOp(a + b)];
    assert [ArrayOp(a + b)][1..] == [];
  }

  /** A function declarator's own operation stays at the end of the list, and the rest of the list
      builds what the other pushes denote: the type of the function's result. */
  lemma {:induction false} ResultType(f: OpKind, pushes: seq<OpKind>, base: Type)
    requires f.FunctionOp?
    ensures var ops := PushAll([], [f] + pushes);
            && ops != [] && ops[|ops| - 1] == f
            && Unmerge(Built(ops[..|ops| - 1], base)) == Unmerge(Denote(pushes, base))
            && Denote([f] + pushes, base) == Function(f.params, Denote(pushes, base))
  {
    assert ([f] + pushes)[1..] == pushes;
    assert Pushed([], f) == [f] && [] + [f] == [f];
    OutermostStays([], f, pushes);
    var ops := PushAll([], [f] + pushes);
    assert ops == PushAll([f], pushes) == PushAll([], pushes) + [f];
    assert ops[..|ops| - 1] == PushAll([], pushes);
    BuiltIsDenoted([], pushes, base);
  }

  lemma {:induction false} OutermostStays(ops: seq<OpKind>, f: OpKind, pushes: seq<OpKind>)
    requires f.FunctionOp?
    ensures PushAll(ops + [f], pushes) == PushAll(ops, pushes) + [f]
    decreases |pushes|
  {
    if pushes != [] {
      assert Pushed(ops + [f], pushes[0]) == Pushed(ops, pushes[0]) + [f] by {
        if ops == [] {
          assert Pushed([f], pushes[0]) == [pushes[0], f];
          assert [] + [f] == [f];
        } else {
          assert (ops + [f])[1..] == ops[1..] + [f];
        }
      }
      OutermostStays(Pushed(ops, pushes[0]), f, pushes[1..]);
    }
  }

  // ----- the nodes -----

  class Op {
    var kind: OpKind
    var next: Op?

    constructor (kind: OpKind, next: Op?)
      ensures this.kind == kind && this.next == next
    {
      this.kind, this.next := kind, next;
    }
  }

  class Declarator {
    const name: nat
    var nextOp: Op?
    var lastOp: Op?
    ghost var ops: seq<Op>

    constructor (name: nat)
      ensures this.name == name && Valid() && ops == []
    {
      this.name, nextOp, lastOp, ops := name, null, null, [];
    }

    /** `nextOp` starts the chain of `ops`, and `lastOp` is its tail. */
    ghost predicate Valid()
      reads this, ops
    {
      && (forall i, j :: 0 <= i < j < |ops| ==> ops[i] != ops[j])
      && (ops == [] ==> nextOp == null && lastOp == null)
      && (ops != [] ==>
            && nextOp == ops[0] && lastOp == ops[|ops| - 1] && ops[|ops| - 1].next == null
            && forall i :: 0 <= i < |ops| - 1 ==> ops[i].next == ops[i + 1])
    }

    ghost function Kinds(): (ks: seq<OpKind>)
      reads this, ops
      ensures |ks| == |ops| && forall i :: 0 <= i < |ops| ==> ks[i] == ops[i].kind
    {
      seq(|ops|, i requires 0 <= i < |ops| reads this, ops => ops[i].kind)
    }

    /** AST_declarator_operation */
    method Operation(k: OpKind)
      requires Valid()
      modifies this, ops
      ensures Valid() && Kinds() == Pushed(old(Kinds()), k)
      ensures |ops| >= |old(ops)| && ops[|ops| - |old(ops)|..] == old(ops) && fresh(ops[..|ops| - |old(ops)|])
    {
      if k.ArrayOp? && nextOp != null && nextOp.kind.ArrayOp? {
        assert nextOp == ops[0];
        hide Kinds, Valid;
        MergeIndices(k.indices);
      } else {
        assert nextOp == if ops == [] then null else ops[0];
        hide Kinds, Valid;
        PushOp(k);
      }
    }

    method MergeIndices(indices: seq<Index>)
      requires Valid() && nextOp != null && nextOp.kind.ArrayOp?
      modifies ops`kind
      ensures Valid() && ops == old(ops)
      ensures Kinds() == [ArrayOp(old(Kinds()[0].indices) + indices)] + old(Kinds())[1..]
    {
      hide Kinds;
      ghost var ks := Kinds();
      nextOp.kind := ArrayOp(nextOp.kind.indices + indices);
      assert forall i :: 1 <= i < |ops| ==> ops[i].kind == ks[i];
    }

    method PushOp(k: OpKind)
      requires Valid()
      modifies this
      ensures Valid() && Kinds() == [k] + old(Kinds())
      ensures |ops| == |old(ops)| + 1 && ops[1..] == old(ops) && fresh(ops[0])
    {
      hide Kinds;
      ghost var ks := Kinds();
      var op := new Op(k, nextOp);
      nextOp := op;
      ops := [op] + ops;
      if lastOp == null {
        lastOp := nextOp;
      }
      assert ops[1..] == old(ops);
    }

    /** Take the last operation off the list: its predecessor is found from the head. */
    method Unlink() returns (op: Op)
      requires Valid() && ops != []
      modifies this, ops
      ensures Valid() && op == old(ops[|ops| - 1]) && op.kind == old(Kinds())[|old(ops)| - 1]
      ensures op !in ops && ops + [op] == old(ops)
      ensures ops == old(ops)[..|old(ops)| - 1] && Kinds() == old(Kinds())[..|old(ops)| - 1]
    {
      hide Kinds;
      op := lastOp;
      ghost var all, n, ks := ops, |ops|, Kinds();
      var newLast := nextOp;
      ghost var i := 0;
      while newLast != null && newLast.next != op
        invariant 0 <= i <= n && newLast == (if i == n then null else all[i])
        invariant forall j :: 0 <= j < i ==> all[j].next != op
        decreases n - i
      {
        newLast := newLast.next;
        i := i + 1;
      }
      if n > 1 {
        assert all[n - 2].next == op;
        assert i <= n - 2 && all[i].next == all[i + 1] && all[i + 1] == all[n - 1];
        assert i == n - 2;
      }
      lastOp := newLast;
      if newLast == null {
        nextOp := null;
      } else {
        newLast.next := null;
      }
      ops := all[..n - 1];
      assert forall j :: 0 <= j < n - 2 ==> all[j].next == old(all[j].next) == all[j + 1];
      assert Valid() && Kinds() == ks[..n - 1];
    }

    /** AST_propagate_type, as far as the shape of the type goes */
    method PropagateType(base: Type) returns (t: Type)
      requires Valid()
      ensures t == Built(Kinds(), base)
    {
      t := base;
      var dop := nextOp;
      ghost var i := 0;
      while dop != null
        invariant 0 <= i <= |ops| && dop == if i == |ops| then null else ops[i]
        invariant Built(Kinds()[i..], t) == Built(Kinds(), base)
        decreases |ops| - i
      {
        assert Kinds()[i..][1..] == Kinds()[i + 1..];
        match dop.kind {
          case ArrayOp(dims) => t := Array(dims, t);
          case FunctionOp(p) => t := Function(p, t);
          case PointerOp(n) =>
            ghost var t0 := t;
            var k := n;
            while k > 0
              invariant Pointers(k, t) == Pointers(n, t0)
            {
              t := Pointer(t);
              k := k - 1;
            }
        }
        dop := dop.next;
        i := i + 1;
      }
    }
  }

  /** The outcome of a declaration at the outermost level of an interface. */
  datatype Declared = NotAnOperation | OperationNode(name: nat, params: nat, result: Type)

  /** Storage that has been given back, with every node as often as it was passed to FREE. */
  class Heap {
    ghost var freedOps: multiset<Op>
    ghost var freedDeclarators: multiset<Declarator>

    constructor ()
      ensures freedOps == multiset{} && freedDeclarators == multiset{}
    {
      freedOps, freedDeclarators := multiset{}, multiset{};
    }

    method FreeOp(op: Op)
      modifies this`freedOps
      ensures freedOps == old(freedOps) + multiset{op}
    {
      freedOps := freedOps + multiset{op};
    }

    /** ASTP_free_declarators for one declarator: the next link is read before its node is freed. */
    method FreeDeclarator(d: Declarator)
      requires d.Valid()
      requires forall op :: op in d.ops ==> op !in freedOps
      modifies this
      ensures freedOps == old(freedOps) + multiset(d.ops)
      ensures freedDeclarators == old(freedDeclarators) + multiset{d}
    {
      hide Declarator.Kinds;
      var dop, nextDop := d.nextOp, d.nextOp;
      ghost var i := 0;
      assert d.ops[..0] == [];
      while nextDop != null
        invariant 0 <= i <= |d.ops| && nextDop == (if i == |d.ops| then null else d.ops[i])
        invariant nextDop != null ==> dop == nextDop
        invariant freedOps == old(freedOps) + multiset(d.ops[..i])
        invariant freedDeclarators == old(freedDeclarators)
        decreases |d.ops| - i
      {
        assert dop !in freedOps by {
          NotYetFreed(d.ops, i, old(freedOps));
        }
        nextDop := dop.next;
        FreeOp(dop);
        assert d.ops[..i + 1] == d.ops[..i] + [dop];
        dop := nextDop;
        i := i + 1;
      }
      assert d.ops[..|d.ops|] == d.ops;
      freedDeclarators := freedDeclarators + multiset{d};
    }

    lemma NotYetFreed(ops: seq<Op>, i: nat, before: multiset<Op>)
      requires i < |ops| && ops[i] !in before
      requires forall j, k :: 0 <= j < k < |ops| ==> ops[j] != ops[k]
      ensures ops[i] !in before + multiset(ops[..i])
    {
      assert ops[i] !in ops[..i];
    }

    /** AST_operation_node: the outermost operation must be a function; it is unlinked, the rest builds
        the type of the result, and then every operation is freed. */
    method MakeOperation(d: Declarator, base: Type) returns (r: Declared)
      requires d.Valid() && forall op :: op in d.ops ==> op !in freedOps
      modifies this, d, d.ops
      ensures var ks, n := old(d.Kinds()), |old(d.ops)|;
              if n > 0 && ks[n - 1].FunctionOp?
              then
                && r == OperationNode(d.name, ks[n - 1].params, Built(ks[..n - 1], base))
                && d.ops == old(d.ops)[..n - 1] && d.Valid() && d.Kinds() == ks[..n - 1]
                && freedOps == old(freedOps) + multiset(old(d.ops))
                && freedDeclarators == old(freedDeclarators) + multiset{d}
              else
                && r == NotAnOperation && d.Kinds() == ks && d.ops == old(d.ops)
                && freedOps == old(freedOps) && freedDeclarators == old(freedDeclarators)
    {
      hide Declarator.Kinds;
      ghost var n := |d.ops|;
      assert n > 0 ==> d.lastOp == d.ops[n - 1] && d.lastOp.kind == d.Kinds()[n - 1];
      if d.lastOp == null || !d.lastOp.kind.FunctionOp? {
        return NotAnOperation;
      }
      hide Declarator.Valid;
      r := MakeFunction(d, base);
    }

    method MakeFunction(d: Declarator, base: Type) returns (r: Declared)
      requires d.Valid() && forall op :: op in d.ops ==> op !in freedOps
      requires d.ops != [] && d.Kinds()[|d.ops| - 1].FunctionOp?
      modifies this, d, d.ops
      ensures var ks, n := old(d.Kinds()), |old(d.ops)|;
              && r == OperationNode(d.name, ks[n - 1].params, Built(ks[..n - 1], base))
              && d.ops == old(d.ops)[..n - 1] && d.Valid() && d.Kinds() == ks[..n - 1]
      ensures freedOps == old(freedOps) + multiset(old(d.ops))
      ensures freedDeclarators == old(freedDeclarators) + multiset{d}
    {
      hide Declarator.Kinds, Declarator.Valid, Built;
      ghost var ops := d.ops;
      var functionOp := d.Unlink();
      var result := d.PropagateType(base);
      r := OperationNode(d.name, functionOp.kind.params, result);
      FreeBoth(functionOp, d, ops);
    }

    /** The function operation, and then the declarator with the operations it has left. */
    method FreeBoth(op: Op, d: Declarator, ghost ops: seq<Op>)
      requires d.Valid() && ops == d.ops + [op] && op !in d.ops
      requires forall o :: o in ops ==> o !in freedOps
      modifies this
      ensures freedOps == old(freedOps) + multiset(ops)
      ensures freedDeclarators == old(freedDeclarators) + multiset{d}
    {
      hide Declarator.Kinds, Declarator.Valid;
      FreeOp(op);
      FreeDeclarator(d);
    }
  }
}
