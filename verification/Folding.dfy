/**
  Folding in place: ASTP_evaluate_expr overwrites the nodes of an expression and frees the
  operands it no longer needs.
*/
module Folding {
  import opened Expressions
  import opened Utils

  datatype NodeKind = ConstantNode | UnaryNode(op: Unary) | StarNode | BinaryNode(bop: Binary)

  class Exp {
    var kind: NodeKind
    // of a constant: an integer, or a constant that is given or still has to be looked up by name
    var isInt: bool
    var integer: int
    var other: Option<Constant>
    var name: nat
    // of an operation
    var oper1: Exp?
    var oper2: Exp?
    ghost var repr: set<Exp>

    /** The nodes below this one form a tree. */
    ghost predicate Valid()
      reads this, repr
      decreases repr
    {
      && this in repr
      && match kind
         case ConstantNode => repr == {this} && oper1 == null && oper2 == null
         case BinaryNode(_) =>
           && oper1 != null && oper2 != null && oper1 in repr && oper2 in repr
           && this !in oper1.repr && this !in oper2.repr && oper1.repr !! oper2.repr
           && repr == {this} + oper1.repr + oper2.repr
           && oper1.Valid() && oper2.Valid()
         case _ =>
           && oper1 != null && oper2 == null && oper1 in repr
           && this !in oper1.repr && repr == {this} + oper1.repr
           && oper1.Valid()
    }

    ghost function Abs(): Tree
      requires Valid()
      reads this, repr
      decreases repr
    {
      match kind
      case ConstantNode => if isInt then Lit(integer) else Leaf(name, other)
      case UnaryNode(op) => Un(op, oper1.Abs())
      case StarNode => Deref(oper1.Abs())
      case BinaryNode(op) => Bin(op, oper1.Abs(), oper2.Abs())
    }
  }

  /** After an operand has shrunk, the tree of an operation is put together again. */
  ghost method Rejoin(e: Exp)
    requires e.kind.BinaryNode? && e.oper1 != null && e.oper2 != null && e.oper1.Valid() && e.oper2.Valid()
    requires e !in e.oper1.repr && e !in e.oper2.repr && e.oper1.repr !! e.oper2.repr
    modifies e`repr
    ensures e.Valid() && e.repr == {e} + e.oper1.repr + e.oper2.repr
    ensures e.oper1.Abs() == old(e.oper1.Abs()) && e.oper2.Abs() == old(e.oper2.Abs())
  {
    e.repr := {e} + e.oper1.repr + e.oper2.repr;
  }

  lemma Dropped(e: Exp, a: set<Exp>, a': set<Exp>, b: set<Exp>)
    requires a' <= a && a !! b && e !in a && e !in b
    ensures ({e} + a + b) - ({e} + a' + b) == a - a'
    ensures ({e} + b + a) - ({e} + b + a') == a - a'
  {
  }

  lemma FreedInTwoSteps(a: set<Exp>, b: set<Exp>, c: set<Exp>)
    requires c <= b <= a
    ensures multiset(a - b) + multiset(b - c) == multiset(a - c)
  {
  }

  class Evaluator {
    const constants: map<nat, Constant>
    const machine: Machine
    var errors: nat
    ghost var freed: multiset<Exp>   // every node passed to FREE, as often as it was

    constructor (constants: map<nat, Constant>, machine: Machine)
      ensures this.constants == constants && this.machine == machine && errors == 0 && freed == multiset{}
    {
      this.constants, this.machine, errors, freed := constants, machine, 0, multiset{};
    }

    /** The nodes of a tree: those of its operands, and its root. */
    static lemma NodesOf(e: Exp)
      requires e.Valid()
      ensures multiset(e.repr) ==
        multiset{e}
        + (if e.oper1 == null then multiset{} else multiset(e.oper1.repr))
        + (if e.oper2 == null then multiset{} else multiset(e.oper2.repr))
    {
    }

    /** ASTP_free_exp */
    method FreeExp(e: Exp?)
      requires e != null ==> e.Valid()
      modifies this`freed
      ensures freed == old(freed) + if e == null then multiset{} else multiset(e.repr)
      decreases if e == null then {} else e.repr, e != null
    {
      if e != null {
        NodesOf(e);
        if e.kind != ConstantNode {
          FreeExp(e.oper1);
          FreeExp(e.oper2);
        }
        freed := freed + multiset{e};
      }
    }

    /** ASTP_evaluate_expr */
    method Evaluate(e: Exp) returns (ok: bool)
      requires e.Valid()
      modifies this, e.repr
      ensures e.Valid() && e.repr <= old(e.repr)
      ensures var f := Fold(old(e.Abs()), constants, machine);
              e.Abs() == f.tree && ok == f.ok && errors == old(errors) + f.errors
      ensures freed == old(freed) + multiset(old(e.repr) - e.repr)
      ensures ok ==> e.kind == ConstantNode && e.repr == {e}
      decreases e.repr, 3
    {
      hide Wrap32, UnaryResult, BinaryResult, ConstantValue, DivErrors;
      match e.kind {
        case ConstantNode =>
          if !e.isInt && e.other == None {
            if e.name !in constants {
              return false;
            }
            e.other := Some(constants[e.name]);
          }
          return true;
        case BinaryNode(op) =>
          ok := EvaluateBinary(e, op);
        case UnaryNode(op) =>
          ok := EvaluateUnary(e, op);
        case StarNode =>
          ok := EvaluateOnly(e);
          ok := false;
      }
    }

    /** The value of an operand that has been reduced to a constant. */
    function LeafInt(e: Exp): (v: int)
      requires e.Valid() && Resolved(e.Abs())
      reads e, e.repr
      ensures v == LeafValue(e.Abs())
    {
      if e.isInt then e.integer else ConstantValue(e.other.value)
    }

    /** The node takes its value and stops being an operation. */
    method Become(e: Exp, v: int)
      modifies e
      ensures e.Valid() && e.Abs() == Lit(v) && e.repr == {e}
    {
      e.kind, e.isInt, e.integer, e.oper1, e.oper2, e.repr := ConstantNode, true, v, null, null, {e};
    }

    method EvaluateUnary(e: Exp, op: Unary) returns (ok: bool)
      requires e.Valid() && e.kind == UnaryNode(op)
      modifies this, e.repr
      ensures e.Valid() && e.repr <= old(e.repr)
      ensures var f := Fold(old(e.Abs()), constants, machine);
              e.Abs() == f.tree && ok == f.ok && errors == old(errors) + f.errors
      ensures freed == old(freed) + multiset(old(e.repr) - e.repr)
      decreases e.repr, 1
    {
      hide Wrap32, UnaryResult, Fold, Resolved;
      ghost var before := e.repr;
      FoldUnary(op, e.oper1.Abs());
      ok := EvaluateOnly(e);
      if ok {
        ghost var middle := e.repr;
        FinishUnary(e, op);
        FreedInTwoSteps(before, middle, e.repr);
      }
    }

    /** The operand of a unary operator or a dereference. */
    method EvaluateOnly(e: Exp) returns (ok: bool)
      requires e.Valid() && (e.kind.UnaryNode? || e.kind.StarNode?)
      modifies this, e.repr
      ensures e.Valid() && e.kind == old(e.kind) && e.oper1 == old(e.oper1)
      ensures e.repr <= old(e.repr)
      ensures var f := Fold(old(e.oper1.Abs()), constants, machine);
              e.oper1.Abs() == f.tree && ok == f.ok && errors == old(errors) + f.errors
      ensures freed == old(freed) + multiset(old(e.repr) - e.repr)
      decreases e.repr, 0
    {
      hide Fold, Resolved;
      ghost var before := e.oper1.repr;
      ok := Evaluate(e.oper1);
      e.repr := {e} + e.oper1.repr;
      assert before - e.oper1.repr == old(e.repr) - e.repr;
    }

    method EvaluateBinary(e: Exp, op: Binary) returns (ok: bool)
      requires e.Valid() && e.kind == BinaryNode(op)
      modifies this, e.repr
      ensures e.Valid() && e.repr <= old(e.repr)
      ensures var f := Fold(old(e.Abs()), constants, machine);
              e.Abs() == f.tree && ok == f.ok && errors == old(errors) + f.errors
      ensures freed == old(freed) + multiset(old(e.repr) - e.repr)
      decreases e.repr, 2
    {
      hide Wrap32, BinaryResult, DivErrors, Fold, Resolved;
      ghost var before := e.repr;
      FoldBinary(op, e.oper1.Abs(), e.oper2.Abs());
      ok := EvaluateLeft(e);
      if ok {
        ghost var left := e.repr;
        ok := EvaluateRest(e, op);
        FreedInTwoSteps(before, left, e.repr);
      }
    }

    /** The first operand. */
    method EvaluateLeft(e: Exp) returns (ok: bool)
      requires e.Valid() && e.kind.BinaryNode?
      modifies this, e.repr
      ensures e.Valid() && e.kind == old(e.kind) && e.oper1 == old(e.oper1) && e.oper2 == old(e.oper2)
      ensures e.repr <= old(e.repr) && e.oper2.Abs() == old(e.oper2.Abs())
      ensures var f := Fold(old(e.oper1.Abs()), constants, machine);
              e.oper1.Abs() == f.tree && ok == f.ok && errors == old(errors) + f.errors
      ensures freed == old(freed) + multiset(old(e.repr) - e.repr)
      decreases e.repr, 0
    {
      hide Fold, Resolved;
      ghost var a, b, u := e.oper1.repr, e.oper2.repr, e.oper2.Abs();
      ok := Evaluate(e.oper1);
      assert e.oper2.Valid() && e.oper2.Abs() == u;
      Dropped(e, a, e.oper1.repr, b);
      Rejoin(e);
    }

    /** What remains to be done once the first operand is a constant. */
    method EvaluateRest(e: Exp, op: Binary) returns (ok: bool)
      requires e.Valid() && e.kind == BinaryNode(op) && Resolved(e.oper1.Abs())
      modifies this, e.repr
      ensures e.Valid() && e.repr <= old(e.repr)
      ensures var a, f := old(e.oper1.Abs()), Fold(old(e.oper2.Abs()), constants, machine);
              && ok == f.ok
              && e.Abs() == (if f.ok then Lit(Wrap32(BinaryResult(op, LeafValue(a), LeafValue(f.tree), machine)))
                             else Bin(op, a, f.tree))
              && errors == old(errors) + f.errors + if f.ok then DivErrors(op, LeafValue(f.tree)) else 0
      ensures freed == old(freed) + multiset(old(e.repr) - e.repr)
      decreases e.repr, 1
    {
      hide Wrap32, BinaryResult, DivErrors, Fold;
      ghost var before := e.repr;
      ok := EvaluateRight(e);
      if ok {
        ghost var right := e.repr;
        FinishBinary(e, op);
        FreedInTwoSteps(before, right, e.repr);
      }
    }

    /** The second operand, once the first has been reduced. */
    method EvaluateRight(e: Exp) returns (ok: bool)
      requires e.Valid() && e.kind.BinaryNode?
      modifies this, e.repr
      ensures e.Valid() && e.kind == old(e.kind) && e.oper1 == old(e.oper1) && e.oper2 == old(e.oper2)
      ensures e.repr <= old(e.repr) && e.oper1.Abs() == old(e.oper1.Abs())
      ensures var f := Fold(old(e.oper2.Abs()), constants, machine);
              e.oper2.Abs() == f.tree && ok == f.ok && errors == old(errors) + f.errors
      ensures freed == old(freed) + multiset(old(e.repr) - e.repr)
      decreases e.repr, 0
    {
      hide Fold, Resolved;
      ghost var a, b, u := e.oper1.repr, e.oper2.repr, e.oper1.Abs();
      ok := Evaluate(e.oper2);
      assert e.oper1.Valid() && e.oper1.Abs() == u;
      Dropped(e, b, e.oper2.repr, a);
      Rejoin(e);
    }

    /** The operation itself: compute, free the operands, and store. */
    method FinishUnary(e: Exp, op: Unary)
      requires e.Valid() && e.kind == UnaryNode(op) && Resolved(e.oper1.Abs())
      modifies this, e
      ensures e.Valid() && e.repr == {e} && errors == old(errors)
      ensures e.Abs() == Lit(Wrap32(UnaryResult(op, LeafValue(old(e.oper1.Abs())))))
      ensures freed == old(freed) + multiset(old(e.repr) - e.repr)
    {
      hide Wrap32, UnaryResult;
      var op1 := e.oper1;
      var v := Wrap32(UnaryResult(op, LeafInt(op1)));
      FreeExp(op1);
      assert e.repr - {e} == op1.repr;
      Become(e, v);
    }

    method FinishBinary(e: Exp, op: Binary)
      requires e.Valid() && e.kind == BinaryNode(op) && Resolved(e.oper1.Abs()) && Resolved(e.oper2.Abs())
      modifies this, e
      ensures e.Valid() && e.repr == {e}
      ensures errors == old(errors) + DivErrors(op, LeafValue(old(e.oper2.Abs())))
      ensures e.Abs() == Lit(Wrap32(BinaryResult(op, LeafValue(old(e.oper1.Abs())), LeafValue(old(e.oper2.Abs())), machine)))
      ensures freed == old(freed) + multiset(old(e.repr) - e.repr)
    {
      hide Wrap32, BinaryResult, DivErrors;
      var op1, op2 := e.oper1, e.oper2;
      errors := errors + DivErrors(op, LeafInt(op2));
      var v := Wrap32(BinaryResult(op, LeafInt(op1), LeafInt(op2), machine));
      FreeExp(op1);
      FreeExp(op2);
      assert e.repr - {e} == op1.repr + op2.repr;
      Become(e, v);
    }

    lemma FoldUnary(op: Unary, t: Tree)
      ensures var f := Fold(t, constants, machine);
              && (f.ok ==> Resolved(f.tree))
              && Fold(Un(op, t), constants, machine) ==
                 if f.ok then Folded(Lit(Wrap32(UnaryResult(op, LeafValue(f.tree)))), true, f.errors)
                 else Folded(Un(op, f.tree), false, f.errors)
    {
    }

    lemma FoldBinary(op: Binary, t1: Tree, t2: Tree)
      ensures var f1, f2 := Fold(t1, constants, machine), Fold(t2, constants, machine);
              && (f1.ok ==> Resolved(f1.tree)) && (f2.ok ==> Resolved(f2.tree))
              && Fold(Bin(op, t1, t2), constants, machine) ==
                 if !f1.ok then Folded(Bin(op, f1.tree, t2), false, f1.errors)
                 else if !f2.ok then Folded(Bin(op, f1.tree, f2.tree), false, f1.errors + f2.errors)
                 else Folded(Lit(Wrap32(BinaryResult(op, LeafValue(f1.tree), LeafValue(f2.tree), machine))), true,
                             f1.errors + f2.errors + DivErrors(op, LeafValue(f2.tree)))
    {
    }
  }
}
