/**
  Constant expressions: their trees, their meaning, and the folding of trees as a function.

  Every node of a folded tree holds an `int`.  The operators compute in `long`, which is wide
  enough for the exact result on the 32-bit operands, and storing it wraps it to 32 bits.
*/
module Expressions {
  import opened Utils

  const TWO_32: int := 0x1_0000_0000
  const TWO_31: int := 0x8000_0000

  predicate Int32(v: int) {
    -TWO_31 <= v < TWO_31
  }

  /** What is left of a number when it is stored in an `int`. */
  function Wrap32(v: int): (w: int)
    ensures Int32(w) && (Int32(v) ==> w == v) && (w - v) % TWO_32 == 0
  {
    (v + TWO_31) % TWO_32 - TWO_31
  }

  /** A constant of the interface, as an identifier or a literal in an expression denotes it. */
  datatype Constant = IntConst(i: int) | CharConst(c: int) | BoolConst(b: bool) | HyperConst | StringConst | NilConst

  predicate GoodConstant(c: Constant) {
    match c
    case IntConst(i) => Int32(i)
    case CharConst(ch) => -128 <= ch < 128
    case _ => true
  }

  /** The integer that a constant stands for; those of other kinds stand for 0. */
  function ConstantValue(c: Constant): (v: int)
    ensures GoodConstant(c) ==> Int32(v)
  {
    match c
    case IntConst(i) => i
    case CharConst(ch) => ch
    case BoolConst(b) => if b then 1 else 0
    case _ => 0
  }

  datatype Unary = Not | Tilde | Plus | Minus

  datatype Binary =
    | Percent | Slash | Times | Sub | Add | RShift | LShift
    | Ge | Le | Gt | Lt | Ne | Equal | And | Or | Xor | LogOr | LogAnd

  /** A literal integer; a leaf that names, or already points to, a constant; an operation. */
  datatype Tree =
    | Lit(v: int)
    | Leaf(name: nat, constant: Option<Constant>)
    | Un(op: Unary, operand: Tree)
    | Deref(pointer: Tree)
    | Bin(bop: Binary, left: Tree, right: Tree)

  predicate GoodTree(t: Tree) {
    match t
    case Lit(v) => Int32(v)
    case Leaf(_, c) => c.Some? ==> GoodConstant(c.value)
    case Un(_, a) => GoodTree(a)
    case Deref(a) => GoodTree(a)
    case Bin(_, l, r) => GoodTree(l) && GoodTree(r)
  }

  // ----- operators -----

  function Flag(b: bool): int {
    if b then 1 else 0
  }

  /** Division and remainder as in C: the quotient is truncated toward zero. */
  function TruncDiv(a: int, b: int): int
    requires b != 0
  {
    if a >= 0 then a / b else -((-a) / b)
  }

  function TruncMod(a: int, b: int): int
    requires b != 0
  {
    a - TruncDiv(a, b) * b
  }

  function Pow2(n: nat): (p: int)
    ensures p > 0
  {
    if n == 0 then 1 else 2 * Pow2(n - 1)
  }

  function Bit(op: Binary, x: bool, y: bool): bool {
    match op
    case And => x && y
    case Or => x || y
    case _ => x != y
  }

  function Magnitude(a: int): nat {
    if a < 0 then -a else a
  }

  /** A bitwise operator on two's complement numbers: 0 and -1 are the numbers whose bits are all alike. */
  function Bitwise(op: Binary, a: int, b: int): int
    decreases Magnitude(a) + Magnitude(b)
  {
    if -1 <= a <= 0 && -1 <= b <= 0 then (if Bit(op, a < 0, b < 0) then -1 else 0)
    else 2 * Bitwise(op, a / 2, b / 2) + Flag(Bit(op, a % 2 == 1, b % 2 == 1))
  }

  /** What the machine does for a shift amount that C leaves undefined. */
  type Machine = (Binary, int, int) -> int

  /** The exact result of an operator, before it is stored. */
  function UnaryResult(op: Unary, a: int): int {
    match op
    case Not => Flag(a == 0)
    case Tilde => -a - 1
    case Plus => a
    case Minus => -a
  }

  function BinaryResult(op: Binary, a: int, b: int, machine: Machine): int {
    match op
    case Percent => if b == 0 then 0 else TruncMod(a, b)
    case Slash => if b == 0 then 0 else TruncDiv(a, b)
    case Times => a * b
    case Sub => a - b
    case Add => a + b
    case RShift => if 0 <= b < 64 then a / Pow2(b) else machine(op, a, b)
    case LShift => if 0 <= b < 64 then a * Pow2(b) else machine(op, a, b)
    case Ge => Flag(a >= b)
    case Le => Flag(a <= b)
    case Gt => Flag(a > b)
    case Lt => Flag(a < b)
    case Ne => Flag(a != b)
    case Equal => Flag(a == b)
    case LogOr => Flag(a != 0 || b != 0)
    case LogAnd => Flag(a != 0 && b != 0)
    case _ => Bitwise(op, a, b)
  }

  // ----- meaning -----

  /** The constants bound to names, and what a run supplies for everything else. */
  datatype Env = Env(constants: map<nat, Constant>, variables: nat -> int, memory: int -> int, machine: Machine)

  function NameValue(n: nat, env: Env): int {
    if n in env.constants then ConstantValue(env.constants[n]) else Wrap32(env.variables(n))
  }

  function Meaning(t: Tree, env: Env): int {
    match t
    case Lit(v) => v
    case Leaf(n, c) => if c.Some? then ConstantValue(c.value) else NameValue(n, env)
    case Un(op, a) => Wrap32(UnaryResult(op, Meaning(a, env)))
    case Deref(a) => Wrap32(env.memory(Meaning(a, env)))
    case Bin(op, l, r) => Wrap32(BinaryResult(op, Meaning(l, env), Meaning(r, env), env.machine))
  }

  // ----- folding -----

  /** What evaluating a tree leaves: the rewritten tree, whether it became a constant, and how many
      divisions by zero were reported on the way. */
  datatype Folded = Folded(tree: Tree, ok: bool, errors: nat)

  predicate Resolved(t: Tree) {
    t.Lit? || (t.Leaf? && t.constant.Some?)
  }

  function LeafValue(t: Tree): int
    requires Resolved(t)
  {
    if t.Lit? then t.v else ConstantValue(t.constant.value)
  }

  function DivErrors(op: Binary, b: int): nat {
    if (op == Percent || op == Slash) && b == 0 then 1 else 0
  }

  /** The order of work of ASTP_evaluate_expr: operands from the left, stopping at the first that is
      not constant; a dereference is never constant, but its operand is rewritten. */
  function Fold(t: Tree, constants: map<nat, Constant>, machine: Machine): (f: Folded)
    ensures f.ok <==> Resolved(f.tree)
  {
    match t
    case Lit(_) => Folded(t, true, 0)
    case Leaf(n, c) =>
      if c.Some? then Folded(t, true, 0)
      else if n in constants then Folded(Leaf(n, Some(constants[n])), true, 0)
      else Folded(t, false, 0)
    case Un(op, a) =>
      var fa := Fold(a, constants, machine);
      if !fa.ok then Folded(Un(op, fa.tree), false, fa.errors)
      else Folded(Lit(Wrap32(UnaryResult(op, LeafValue(fa.tree)))), true, fa.errors)
    case Deref(a) =>
      var fa := Fold(a, constants, machine);
      Folded(Deref(fa.tree), false, fa.errors)
    case Bin(op, l, r) =>
      var fl := Fold(l, constants, machine);
      if !fl.ok then Folded(Bin(op, fl.tree, r), false, fl.errors)
      else
        var fr := Fold(r, constants, machine);
        if !fr.ok then Folded(Bin(op, fl.tree, fr.tree), false, fl.errors + fr.errors)
        else
          var a, b := LeafValue(fl.tree), LeafValue(fr.tree);
          Folded(Lit(Wrap32(BinaryResult(op, a, b, machine))), true, fl.errors + fr.errors + DivErrors(op, b))
  }

  /** Whether folding succeeds or stops half way, the tree it leaves means what the tree meant. */
  lemma {:induction false} FoldPreservesMeaning(t: Tree, env: Env)
    ensures Meaning(Fold(t, env.constants, env.machine).tree, env) == Meaning(t, env)
  {
    match t
    case Lit(_) =>
    case Leaf(_, _) =>
    case Un(_, a) => FoldPreservesMeaning(a, env);
    case Deref(a) => FoldPreservesMeaning(a, env);
    case Bin(_, l, r) =>
      FoldPreservesMeaning(l, env);
      FoldPreservesMeaning(r, env);
  }

  /** No unary star, and no name without a constant. */
  predicate Foldable(t: Tree, constants: map<nat, Constant>) {
    match t
    case Lit(_) => true
    case Leaf(n, c) => c.Some? || n in constants
    case Un(_, a) => Foldable(a, constants)
    case Deref(_) => false
    case Bin(_, l, r) => Foldable(l, constants) && Foldable(r, constants)
  }

  /** The divisions and remainders in a foldable tree whose divisor is worth zero. */
  function ZeroDivisions(t: Tree, env: Env): nat {
    match t
    case Lit(_) => 0
    case Leaf(_, _) => 0
    case Un(_, a) => ZeroDivisions(a, env)
    case Deref(a) => ZeroDivisions(a, env)
    case Bin(op, l, r) => ZeroDivisions(l, env) + ZeroDivisions(r, env) + DivErrors(op, Meaning(r, env))
  }

  /** Folding succeeds exactly on the trees that denote one number in every run, and then leaves it. */
  lemma {:induction false} FoldSucceeds(t: Tree, env: Env)
    ensures var f := Fold(t, env.constants, env.machine);
            && (f.ok <==> Foldable(t, env.constants))
            && (f.ok ==> LeafValue(f.tree) == Meaning(t, env) && f.errors == ZeroDivisions(t, env))
  {
    match t
    case Lit(_) =>
    case Leaf(_, _) =>
    case Un(_, a) => FoldSucceeds(a, env);
    case Deref(a) => FoldSucceeds(a, env);
    case Bin(_, l, r) =>
      FoldSucceeds(l, env);
      FoldSucceeds(r, env);
      FoldPreservesMeaning(r, env);
  }

  /** Folding again changes nothing and reports nothing more. */
  lemma {:induction false} FoldTwice(t: Tree, constants: map<nat, Constant>, machine: Machine)
    ensures var f := Fold(t, constants, machine);
            Fold(f.tree, constants, machine) == Folded(f.tree, f.ok, 0)
  {
    match t
    case Lit(_) =>
    case Leaf(_, _) =>
    case Un(_, a) => FoldTwice(a, constants, machine);
    case Deref(a) => FoldTwice(a, constants, machine);
    case Bin(_, l, r) =>
      FoldTwice(l, constants, machine);
      FoldTwice(r, constants, machine);
  }

  /** No division by zero is lost or reported twice: what has been reported and what is still in the tree that is
      left are all there were. */
  lemma {:induction false} ErrorsConserved(t: Tree, env: Env)
    ensures var f := Fold(t, env.constants, env.machine);
            f.errors + ZeroDivisions(f.tree, env) == ZeroDivisions(t, env)
  {
    match t
    case Lit(_) =>
    case Leaf(_, _) =>
    case Un(_, a) => ErrorsConserved(a, env);
    case Deref(a) => ErrorsConserved(a, env);
    case Bin(_, l, r) =>
      ErrorsConserved(l, env);
      ErrorsConserved(r, env);
      FoldPreservesMeaning(r, env);
      FoldSucceeds(r, env);
  }

  lemma MulBound(x: int, y: int, n: int)
    requires 0 <= x <= n && 0 <= y <= n
    ensures 0 <= x * y <= n * n
  {
    assert (n - x) * y >= 0 && n * (n - y) >= 0;
  }

  lemma MulSigns(a: int, b: int)
    ensures (-a) * b == -(a * b) && a * (-b) == -(a * b) && (-a) * (-b) == a * b
  {
  }

  lemma SquareOf31()
    ensures TWO_31 * TWO_31 < TWO_31 * TWO_32
  {
  }

  /** The test that `*` makes for overflow.  The product of two `int`s is exact in a 64-bit `long`,
      and there the test never fires, although storing the product can lose it. */
  lemma OverflowNeverReported(a: int, b: int)
    requires Int32(a) && Int32(b)
    ensures -TWO_31 * TWO_32 <= a * b < TWO_31 * TWO_32
    ensures !(a * b < a && a * b > b)
  {
    SquareOf31();
    MulSigns(a, b);
    MulBound(if a < 0 then -a else a, if b < 0 then -b else b, TWO_31);
    NoStrictlyBetween(a, b);
  }

  lemma NoStrictlyBetween(a: int, b: int)
    ensures !(a * b < a && a * b > b)
  {
    if b > 0 && a > 0 {
      assert a * b >= a;
    } else if b > 0 && a <= 0 {
      assert a * b <= b;
    } else if a > 0 {
      assert a * b <= b;
    } else {
      assert a * b >= a;
    }
  }

  /** 65536 * 65536 becomes 0, and nothing is reported. */
  lemma OverflowUnreported(env: Env)
    ensures var t := Bin(Times, Lit(65536), Lit(65536));
            && Meaning(t, env) == 0
            && Fold(t, env.constants, env.machine) == Folded(Lit(0), true, 0)
  {
    assert Fold(Lit(65536), env.constants, env.machine) == Folded(Lit(65536), true, 0);
  }
}
