/**
  What the operators of constant expressions compute, said without the evaluator's own definitions:
  laws of the number that folding an operation on literals leaves.
*/
module Operators {
  import opened Expressions
  import opened Utils

  /** What folding leaves of an operation on literals. */
  function Unary1(op: Unary, a: int, cs: map<nat, Constant>, machine: Machine): Folded {
    Fold(Un(op, Lit(a)), cs, machine)
  }

  function Binary2(op: Binary, a: int, b: int, cs: map<nat, Constant>, machine: Machine): Folded {
    Fold(Bin(op, Lit(a), Lit(b)), cs, machine)
  }

  /** A literal, with so many errors reported. */
  predicate Leaves(f: Folded, v: int, errors: nat) {
    f == Folded(Lit(v), true, errors) && Int32(v)
  }

  /** `v` is what an `int` keeps of `exact`. */
  predicate Wraps(v: int, exact: int) {
    Int32(v) && (v - exact) % TWO_32 == 0
  }

  /** Every operation on literals becomes a literal; only a zero divisor is reported. */
  lemma AlwaysLiteral(op: Binary, a: int, b: int, cs: map<nat, Constant>, machine: Machine) returns (v: int)
    ensures Leaves(Binary2(op, a, b, cs, machine), v, if b == 0 && (op == Slash || op == Percent) then 1 else 0)
    ensures v == Wrap32(BinaryResult(op, a, b, machine))
  {
    LiteralsFold(a, cs, machine);
    LiteralsFold(b, cs, machine);
    v := Wrap32(BinaryResult(op, a, b, machine));
  }

  lemma LiteralsFold(a: int, cs: map<nat, Constant>, machine: Machine)
    ensures Fold(Lit(a), cs, machine) == Folded(Lit(a), true, 0)
  {
  }

  /** Only the values of operands matter. */
  lemma OperandsLaw(op: Binary, l: Tree, r: Tree, cs: map<nat, Constant>, machine: Machine)
    requires Fold(l, cs, machine).ok && Fold(r, cs, machine).ok
    ensures var fl, fr := Fold(l, cs, machine), Fold(r, cs, machine);
            var f, f' := Fold(Bin(op, l, r), cs, machine), Binary2(op, LeafValue(fl.tree), LeafValue(fr.tree), cs, machine);
            f.ok && f.tree == f'.tree && f.errors == fl.errors + fr.errors + f'.errors
  {
    var fl, fr := Fold(l, cs, machine), Fold(r, cs, machine);
    LiteralsFold(LeafValue(fl.tree), cs, machine);
    LiteralsFold(LeafValue(fr.tree), cs, machine);
  }

  lemma OperandLaw(op: Unary, a: Tree, cs: map<nat, Constant>, machine: Machine)
    requires Fold(a, cs, machine).ok
    ensures var fa := Fold(a, cs, machine);
            var f, f' := Fold(Un(op, a), cs, machine), Unary1(op, LeafValue(fa.tree), cs, machine);
            f.ok && f.tree == f'.tree && f.errors == fa.errors + f'.errors
  {
    LiteralsFold(LeafValue(Fold(a, cs, machine).tree), cs, machine);
  }

  // ----- arithmetic -----

  lemma ArithmeticLaw(a: int, b: int, cs: map<nat, Constant>, machine: Machine) returns (sum: int, difference: int, product: int)
    ensures Leaves(Binary2(Add, a, b, cs, machine), sum, 0) && Wraps(sum, a + b)
    ensures Leaves(Binary2(Sub, a, b, cs, machine), difference, 0) && Wraps(difference, a - b)
    ensures Leaves(Binary2(Times, a, b, cs, machine), product, 0) && Wraps(product, a * b)
  {
    sum := AlwaysLiteral(Add, a, b, cs, machine);
    difference := AlwaysLiteral(Sub, a, b, cs, machine);
    product := AlwaysLiteral(Times, a, b, cs, machine);
  }

  lemma SignLaw(a: int, cs: map<nat, Constant>, machine: Machine) returns (same: int, negated: int)
    ensures Leaves(Unary1(Plus, a, cs, machine), same, 0) && Wraps(same, a)
    ensures Leaves(Unary1(Minus, a, cs, machine), negated, 0) && Wraps(negated, -a)
  {
    LiteralsFold(a, cs, machine);
    same, negated := Wrap32(a), Wrap32(-a);
  }

  /** Division truncates toward zero.  The one quotient that is no `int` wraps. */
  lemma DivisionLaw(a: int, b: int, cs: map<nat, Constant>, machine: Machine) returns (q: int, r: int)
    requires Int32(a) && Int32(b) && b != 0
    ensures Leaves(Binary2(Slash, a, b, cs, machine), q, 0) && Leaves(Binary2(Percent, a, b, cs, machine), r, 0)
    ensures if a == -TWO_31 && b == -1 then q == a && r == 0 else q * b + r == a
    ensures Magnitude(r) < Magnitude(b) && (r != 0 ==> (r < 0 <==> a < 0))
  {
    q := AlwaysLiteral(Slash, a, b, cs, machine);
    r := AlwaysLiteral(Percent, a, b, cs, machine);
    Truncated(a, b);
    QuotientFits(a, b);
  }

  lemma Truncated(a: int, b: int)
    requires b != 0
    ensures TruncDiv(a, b) * b + TruncMod(a, b) == a
    ensures Magnitude(TruncMod(a, b)) < Magnitude(b)
    ensures TruncMod(a, b) != 0 ==> (TruncMod(a, b) < 0 <==> a < 0)
  {
    if a >= 0 {
      assert a == (a / b) * b + a % b;
    } else {
      assert -a == ((-a) / b) * b + (-a) % b;
      assert TruncDiv(a, b) * b == -(((-a) / b) * b);
    }
  }

  lemma QuotientFits(a: int, b: int)
    requires Int32(a) && Int32(b) && b != 0
    ensures if a == -TWO_31 && b == -1 then TruncDiv(a, b) == TWO_31 && TruncMod(a, b) == 0
            else Int32(TruncDiv(a, b)) && Int32(TruncMod(a, b))
  {
    Truncated(a, b);
    var q, r := TruncDiv(a, b), TruncMod(a, b);
    if b == 1 || b == -1 {
      assert r == 0;
    } else {
      Halved(a, b, q, r);
    }
  }

  lemma Halved(a: int, b: int, q: int, r: int)
    requires Int32(a) && (b >= 2 || b <= -2) && q * b + r == a
    requires Magnitude(r) < Magnitude(b) && (r != 0 ==> (r < 0 <==> a < 0))
    ensures -TWO_31 < q < TWO_31
  {
    var m := Magnitude(b);
    assert q * b == (if b > 0 then q * m else -(q * m));
    assert q >= TWO_31 ==> q * m >= TWO_31 * m;
    assert q <= -TWO_31 ==> q * m <= -TWO_31 * m;
  }

  /** A zero divisor is reported, and the result is 0. */
  lemma ZeroDivisorLaw(a: int, cs: map<nat, Constant>, machine: Machine)
    ensures Leaves(Binary2(Slash, a, 0, cs, machine), 0, 1) && Leaves(Binary2(Percent, a, 0, cs, machine), 0, 1)
  {
    var q := AlwaysLiteral(Slash, a, 0, cs, machine);
    var r := AlwaysLiteral(Percent, a, 0, cs, machine);
  }

  // ----- shifts -----

  function TwoTo(n: nat): (p: int)
    ensures p > 0
  {
    if n == 0 then 1 else TwoTo(n - 1) + TwoTo(n - 1)
  }

  lemma {:induction false} TwoToIsPow2(n: nat)
    ensures TwoTo(n) == Pow2(n)
  {
    if n > 0 {
      TwoToIsPow2(n - 1);
    }
  }

  /** A shift to the left multiplies by a power of two and wraps; one to the right divides and rounds down. */
  lemma ShiftLaw(a: int, b: int, cs: map<nat, Constant>, machine: Machine) returns (l: int, r: int)
    requires Int32(a) && 0 <= b < 64
    ensures Leaves(Binary2(LShift, a, b, cs, machine), l, 0) && Wraps(l, a * TwoTo(b))
    ensures Leaves(Binary2(RShift, a, b, cs, machine), r, 0) && r * TwoTo(b) <= a < (r + 1) * TwoTo(b)
  {
    l := AlwaysLiteral(LShift, a, b, cs, machine);
    r := AlwaysLiteral(RShift, a, b, cs, machine);
    TwoToIsPow2(b);
    RoundedDown(a, Pow2(b));
  }

  lemma RoundedDown(a: int, p: int)
    requires Int32(a) && p > 0
    ensures (a / p) * p <= a < (a / p + 1) * p && Int32(a / p)
  {
    var q := a / p;
    assert a == q * p + a % p;
    assert (q + 1) * p == q * p + p;
    NoLarger(a, p, q);
  }

  lemma NoLarger(a: int, p: int, q: int)
    requires Int32(a) && p > 0 && q * p <= a < (q + 1) * p
    ensures Int32(q)
  {
    if q >= 0 {
      NoSmaller(q, p);
    } else {
      NoSmaller(-(q + 1), p);
      assert -(q + 1) * p == -((q + 1) * p);
    }
  }

  lemma NoSmaller(x: int, p: int)
    requires x >= 0 && p > 0
    ensures x * p >= x
  {
    assert x * p == x * (p - 1) + x && x * (p - 1) >= 0;
  }

  // ----- comparisons and truth -----

  /** Each comparison is 1 if its relation holds, and 0 if not. */
  lemma ComparisonLaw(a: int, b: int, cs: map<nat, Constant>, machine: Machine)
    ensures Leaves(Binary2(Lt, a, b, cs, machine), if a < b then 1 else 0, 0)
    ensures Leaves(Binary2(Le, a, b, cs, machine), if a <= b then 1 else 0, 0)
    ensures Leaves(Binary2(Gt, a, b, cs, machine), if a > b then 1 else 0, 0)
    ensures Leaves(Binary2(Ge, a, b, cs, machine), if a >= b then 1 else 0, 0)
    ensures Leaves(Binary2(Equal, a, b, cs, machine), if a == b then 1 else 0, 0)
    ensures Leaves(Binary2(Ne, a, b, cs, machine), if a == b then 0 else 1, 0)
  {
    hide Fold, BinaryResult;
    Compared(Lt, a, b, cs, machine);
    Compared(Le, a, b, cs, machine);
    Compared(Gt, a, b, cs, machine);
    Compared(Ge, a, b, cs, machine);
    Compared(Equal, a, b, cs, machine);
    Compared(Ne, a, b, cs, machine);
  }

  predicate Relation(op: Binary, a: int, b: int) {
    match op
    case Lt => a < b
    case Le => a <= b
    case Gt => a > b
    case Ge => a >= b
    case Equal => a == b
    case Ne => a != b
    case LogAnd => a != 0 && b != 0
    case _ => a != 0 || b != 0
  }

  lemma Compared(op: Binary, a: int, b: int, cs: map<nat, Constant>, machine: Machine)
    requires op in {Lt, Le, Gt, Ge, Equal, Ne, LogAnd, LogOr}
    ensures Leaves(Binary2(op, a, b, cs, machine), if Relation(op, a, b) then 1 else 0, 0)
  {
    var v := AlwaysLiteral(op, a, b, cs, machine);
  }

  /** Truth: what is not 0 is true. */
  lemma TruthLaw(a: int, b: int, cs: map<nat, Constant>, machine: Machine)
    ensures Leaves(Binary2(LogAnd, a, b, cs, machine), if a == 0 || b == 0 then 0 else 1, 0)
    ensures Leaves(Binary2(LogOr, a, b, cs, machine), if a == 0 && b == 0 then 0 else 1, 0)
    ensures Leaves(Unary1(Not, a, cs, machine), if a == 0 then 1 else 0, 0)
  {
    Compared(LogAnd, a, b, cs, machine);
    Compared(LogOr, a, b, cs, machine);
    LiteralsFold(a, cs, machine);
  }

  // ----- bits -----

  /** The `k`th bit in two's complement. */
  predicate BitOf(x: int, k: nat)
    decreases k
  {
    if k == 0 then x % 2 == 1 else BitOf(x / 2, k - 1)
  }

  lemma {:induction false} AllAlike(k: nat)
    ensures BitOf(-1, k) && !BitOf(0, k)
  {
    if k > 0 {
      AllAlike(k - 1);
    }
  }

  lemma {:induction false} BitOfBitwise(op: Binary, a: int, b: int, k: nat)
    ensures BitOf(Bitwise(op, a, b), k) == Bit(op, BitOf(a, k), BitOf(b, k))
    decreases k
  {
    if -1 <= a <= 0 && -1 <= b <= 0 {
      AllAlike(k);
    } else {
      BitwiseParts(op, a, b);
      if k > 0 {
        BitOfBitwise(op, a / 2, b / 2, k - 1);
        hide Bitwise, Bit;
        assert BitOf(Bitwise(op, a, b), k) == BitOf(Bitwise(op, a / 2, b / 2), k - 1);
      }
    }
  }

  lemma BitwiseParts(op: Binary, a: int, b: int)
    requires !(-1 <= a <= 0 && -1 <= b <= 0)
    ensures var v := Bitwise(op, a, b);
            v / 2 == Bitwise(op, a / 2, b / 2) && (v % 2 == 1 <==> Bit(op, a % 2 == 1, b % 2 == 1))
  {
    HeadAndTail(Bitwise(op, a / 2, b / 2), Bit(op, a % 2 == 1, b % 2 == 1));
  }

  lemma HeadAndTail(rest: int, bit: bool)
    ensures var v := 2 * rest + Flag(bit);
            v / 2 == rest && (v % 2 == 1 <==> bit)
  {
  }

  lemma {:induction false} BitwiseStays(op: Binary, a: int, b: int, n: nat)
    requires -TwoTo(n) <= a < TwoTo(n) && -TwoTo(n) <= b < TwoTo(n)
    ensures -TwoTo(n) <= Bitwise(op, a, b) < TwoTo(n)
    decreases n
  {
    if n > 0 && !(-1 <= a <= 0 && -1 <= b <= 0) {
      BitwiseStays(op, a / 2, b / 2, n - 1);
    }
  }

  lemma TwoTo31()
    ensures TwoTo(31) == TWO_31
  {
    assert TwoTo(8) == 0x100;
    assert TwoTo(16) == 0x1_0000;
    assert TwoTo(24) == 0x100_0000;
  }

  /** The bitwise operators are right at every bit. */
  lemma BitLaw(a: int, b: int, cs: map<nat, Constant>, machine: Machine) returns (conj: int, disj: int, diff: int)
    requires Int32(a) && Int32(b)
    ensures Leaves(Binary2(And, a, b, cs, machine), conj, 0)
    ensures Leaves(Binary2(Or, a, b, cs, machine), disj, 0)
    ensures Leaves(Binary2(Xor, a, b, cs, machine), diff, 0)
    ensures forall k: nat :: BitOf(conj, k) == (BitOf(a, k) && BitOf(b, k))
    ensures forall k: nat :: BitOf(disj, k) == (BitOf(a, k) || BitOf(b, k))
    ensures forall k: nat :: BitOf(diff, k) == (BitOf(a, k) != BitOf(b, k))
  {
    conj := BitsOfResult(And, a, b, cs, machine);
    disj := BitsOfResult(Or, a, b, cs, machine);
    diff := BitsOfResult(Xor, a, b, cs, machine);
  }

  lemma BitsOfResult(op: Binary, a: int, b: int, cs: map<nat, Constant>, machine: Machine) returns (v: int)
    requires Int32(a) && Int32(b) && op in {And, Or, Xor}
    ensures Leaves(Binary2(op, a, b, cs, machine), v, 0)
    ensures forall k: nat :: BitOf(v, k) == Bit(op, BitOf(a, k), BitOf(b, k))
  {
    v := AlwaysLiteral(op, a, b, cs, machine);
    TwoTo31();
    BitwiseStays(op, a, b, 31);
    forall k: nat
      ensures BitOf(v, k) == Bit(op, BitOf(a, k), BitOf(b, k))
    {
      BitOfBitwise(op, a, b, k);
    }
  }

  lemma ComplementLaw(a: int, cs: map<nat, Constant>, machine: Machine) returns (v: int)
    requires Int32(a)
    ensures Leaves(Unary1(Tilde, a, cs, machine), v, 0)
    ensures forall k: nat :: BitOf(v, k) == !BitOf(a, k)
  {
    LiteralsFold(a, cs, machine);
    v := -a - 1;
    forall k: nat
      ensures BitOf(v, k) == !BitOf(a, k)
    {
      BitOfComplement(a, k);
    }
  }

  lemma {:induction false} BitOfComplement(a: int, k: nat)
    ensures BitOf(-a - 1, k) == !BitOf(a, k)
    decreases k
  {
    if k > 0 {
      assert (-a - 1) / 2 == -(a / 2) - 1;
      BitOfComplement(a / 2, k - 1);
    }
  }

  // ----- names -----

  /** A name stands for its constant: an integer, the code of a character, 1 or 0 for a truth value, and 0 for
      anything else; a name that is not bound stays. */
  lemma NameLaw(n: nat, cs: map<nat, Constant>, machine: Machine)
    ensures var f := Fold(Leaf(n, None), cs, machine);
            && f.errors == 0 && (f.ok <==> n in cs)
            && (n !in cs ==> f.tree == Leaf(n, None))
            && (n in cs ==> Resolved(f.tree) && f.tree == Leaf(n, Some(cs[n])))
            && (n in cs && cs[n].IntConst? ==> LeafValue(f.tree) == cs[n].i)
            && (n in cs && cs[n].CharConst? ==> LeafValue(f.tree) == cs[n].c)
            && (n in cs && cs[n] == BoolConst(true) ==> LeafValue(f.tree) == 1)
            && (n in cs && cs[n] == BoolConst(false) ==> LeafValue(f.tree) == 0)
            && (n in cs && (cs[n].HyperConst? || cs[n].StringConst? || cs[n].NilConst?) ==> LeafValue(f.tree) == 0)
  {
  }
}
