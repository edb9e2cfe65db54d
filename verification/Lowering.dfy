/**
  Lowering of size expressions: the front end accepts a few shapes of expression, and turns each
  into a number of dereferences, an opcode and a name, which the stubs evaluate at run time.
*/
module Lowering {
  import opened Expressions
  import opened Utils
  import opened Folding

  datatype Opcode = NoCode | Div2 | Mul2 | Add1 | Sub1 | Align2 | Align4 | Align8

  /** interpsh_apply_func_code, in the run-time library */
  function Apply(op: Opcode, size: int): int {
    match op
    case NoCode => size
    case Div2 => TruncDiv(size, 2)
    case Mul2 => Wrap32(size * 2)
    case Sub1 => Wrap32(size - 1)
    case Add1 => Wrap32(size + 1)
    case Align2 => AlignTo(1, size)
    case Align4 => AlignTo(3, size)
    case Align8 => AlignTo(7, size)
  }

  /** `(size + mask) & ~mask` */
  function AlignTo(mask: int, size: int): int {
    Wrap32(Bitwise(And, Wrap32(size + mask), Wrap32(-mask - 1)))
  }

  // ----- which expressions are simple -----

  datatype Verdict =
    | Simple
    | Complex
    | Undefined   // an integer value is taken of something that did not fold

  /** The verdict, and the tree as the folding on the way has left it. */
  datatype Judged = Judged(verdict: Verdict, tree: Tree)

  predicate IsLeaf(t: Tree) {
    t.Lit? || t.Leaf?
  }

  function Pointee(t: Tree): Tree {
    match t
    case Deref(a) => Pointee(a)
    case _ => t
  }

  /** One level of indirection is allowed for the name that is aligned. */
  predicate IsIdent(t: Tree) {
    IsLeaf(t) || (t.Deref? && IsLeaf(t.pointer))
  }

  predicate HasAlignShape(t: Tree) {
    t.Bin? && t.bop == And && t.left.Bin? && t.left.bop == Add && t.right.Un? && t.right.op == Tilde
  }

  /** The operand that each arithmetic operator may have. */
  function Operand(op: Binary): Option<int> {
    match op
    case Slash => Some(2)
    case Times => Some(2)
    case Add => Some(1)
    case Sub => Some(1)
    case _ => None
  }

  /** ASTP_expr_is_simple */
  function Judge(t: Tree, constants: map<nat, Constant>, machine: Machine): Judged {
    var f := Fold(t, constants, machine);
    if f.ok then Judged(Simple, f.tree) else JudgeFolded(f.tree, constants, machine)
  }

  function JudgeFolded(t: Tree, constants: map<nat, Constant>, machine: Machine): Judged {
    match t
    case Lit(_) => Judged(Simple, t)
    case Leaf(_, _) => Judged(Simple, t)
    case Deref(_) => Judged(if IsLeaf(Pointee(t)) then Simple else Complex, t)
    case Un(_, _) => Judged(Complex, t)
    case Bin(op, l, r) =>
      if Operand(op).Some? then
        if !IsLeaf(l) then Judged(Complex, t)
        else
          var fr := Fold(r, constants, machine);
          var t' := Bin(op, l, fr.tree);
          if !fr.ok then Judged(Undefined, t')
          else Judged(if LeafValue(fr.tree) == Operand(op).value then Simple else Complex, t')
      else if HasAlignShape(t) then JudgeAlign(t, constants, machine)
      else Judged(Complex, t)
  }

  function JudgeAlign(t: Tree, constants: map<nat, Constant>, machine: Machine): Judged
    requires HasAlignShape(t)
  {
    var x, n, m := t.left.left, t.left.right, t.right.operand;
    var fn := Fold(n, constants, machine);
    var t' := Bin(And, Bin(Add, x, fn.tree), Un(Tilde, m));
    if !fn.ok then Judged(Undefined, t')
    else
      var mask := LeafValue(fn.tree);
      if IsIdent(x) && mask in {1, 3, 7} then
        var fm := Fold(m, constants, machine);
        var t'' := Bin(And, Bin(Add, x, fn.tree), Un(Tilde, fm.tree));
        if !fm.ok then Judged(Undefined, t'')
        else Judged(if LeafValue(fm.tree) == mask then Simple else Complex, t'')
      else Judged(Complex, t')
  }

  // ----- lowering -----

  datatype Lowered =
    | Lowered(pointers: nat, opcode: Opcode, name: nat)
    | Rejected   // "only simple expressions"
    | Nameless   // a literal that is no integer is left, and it has no name to look up
    | Crash

  function Stars(t: Tree): nat {
    match t
    case Deref(a) => 1 + Stars(a)
    case _ => 0
  }

  function ArithmeticCode(op: Binary): Opcode
    requires Operand(op).Some?
  {
    match op
    case Slash => Div2
    case Times => Mul2
    case Add => Add1
    case Sub => Sub1
  }

  /** The opcode for an alignment mask.  There is an opcode for 8, but mask 7 gets the one for 4. */
  function AlignCode(mask: int): Opcode {
    if mask == 1 then Align2 else if mask == 3 then Align4 else if mask == 7 then Align4 else NoCode
  }

  const NO_NAME := 0

  function Named(k: nat, op: Opcode, t: Tree): Lowered {
    if !t.Leaf? then Rejected else if t.name == NO_NAME then Nameless else Lowered(k, op, t.name)
  }

  /** The expression part of AST_set_field_attrs, for a tree that was judged simple. */
  function LowerSimple(t: Tree): Lowered {
    LowerPointee(Stars(t), Pointee(t))
  }

  /** `e` is what is left behind `k` stars. */
  function LowerPointee(k: nat, e: Tree): Lowered {
    if e.Bin? && Operand(e.bop).Some? then Named(k, ArithmeticCode(e.bop), e.left)
    else if HasAlignShape(e) then LowerAligned(k, e.left.left, e.left.right)
    else Named(k, NoCode, e)
  }

  function LowerAligned(k: nat, x: Tree, n: Tree): Lowered {
    if Resolved(n) then Named(k + Stars(x), AlignCode(LeafValue(n)), Pointee(x)) else Rejected
  }

  function Lower(t: Tree, constants: map<nat, Constant>, machine: Machine): Lowered {
    var j := Judge(t, constants, machine);
    match j.verdict
    case Simple => LowerSimple(j.tree)
    case Complex => Rejected
    case Undefined => Crash
  }

  // ----- which expressions are lowered, and to what -----

  /** `k` stars before a tree. */
  function Starred(k: nat, t: Tree): Tree {
    if k == 0 then t else Deref(Starred(k - 1, t))
  }

  /** A name whose value is only known at run time, with any number of stars. */
  lemma {:induction false} StarredName(k: nat, n: nat, cs: map<nat, Constant>, machine: Machine)
    requires n !in cs && n != NO_NAME
    ensures Lower(Starred(k, Leaf(n, None)), cs, machine) == Lowered(k, NoCode, n)
    decreases k
  {
    StarsOf(k, n, cs, machine);
  }

  lemma {:induction false} StarsOf(k: nat, n: nat, cs: map<nat, Constant>, machine: Machine)
    requires n !in cs
    ensures var t := Starred(k, Leaf(n, None));
            && Fold(t, cs, machine) == Folded(t, false, 0)
            && Stars(t) == k && Pointee(t) == Leaf(n, None) && (k > 0 ==> t.Deref?)
    decreases k
  {
    if k > 0 {
      StarsOf(k - 1, n, cs, machine);
    }
  }

  /** Of arithmetic on a name just `n * 2`, `n / 2`, `n + 1` and `n - 1` are lowered, and all else is rejected. */
  lemma ArithmeticForms(op: Binary, n: nat, v: int, cs: map<nat, Constant>, machine: Machine)
    requires n !in cs && n != NO_NAME
    ensures Lower(Bin(op, Leaf(n, None), Lit(v)), cs, machine) ==
      if op == Times && v == 2 then Lowered(0, Mul2, n)
      else if op == Slash && v == 2 then Lowered(0, Div2, n)
      else if op == Add && v == 1 then Lowered(0, Add1, n)
      else if op == Sub && v == 1 then Lowered(0, Sub1, n)
      else Rejected
  {
    var t := Bin(op, Leaf(n, None), Lit(v));
    assert Fold(t, cs, machine) == Folded(t, false, 0);
    assert Fold(Lit(v), cs, machine) == Folded(Lit(v), true, 0);
  }

  /** Of alignments just those by 2, 4 and 8 are lowered, of a name or of what it points to. */
  lemma AlignForms(k: nat, n: nat, m: int, w: int, cs: map<nat, Constant>, machine: Machine)
    requires n !in cs && n != NO_NAME && k <= 1
    ensures Lower(Bin(And, Bin(Add, Starred(k, Leaf(n, None)), Lit(m)), Un(Tilde, Lit(w))), cs, machine) ==
      if m != w then Rejected
      else if m == 1 then Lowered(k, Align2, n)
      else if m == 3 || m == 7 then Lowered(k, Align4, n)
      else Rejected
  {
    StarsOf(k, n, cs, machine);
    var x := Starred(k, Leaf(n, None));
    var t := Bin(And, Bin(Add, x, Lit(m)), Un(Tilde, Lit(w)));
    assert IsIdent(x) by {
      assert k == 1 ==> Starred(0, Leaf(n, None)) == Leaf(n, None);
    }
    hide Starred;
    assert Fold(Bin(Add, x, Lit(m)), cs, machine) == Folded(Bin(Add, x, Lit(m)), false, 0);
    assert Fold(t, cs, machine) == Folded(t, false, 0);
    assert Fold(Lit(m), cs, machine) == Folded(Lit(m), true, 0) && Fold(Lit(w), cs, machine) == Folded(Lit(w), true, 0);
  }

  /** Constants and other operators have no lowered form. */
  lemma OtherForms(op: Unary, n: nat, v: int, cs: map<nat, Constant>, machine: Machine)
    requires n !in cs
    ensures Lower(Lit(v), cs, machine) == Rejected && Lower(Un(op, Leaf(n, None)), cs, machine) == Rejected
  {
    var t := Un(op, Leaf(n, None));
    assert Fold(t, cs, machine) == Folded(t, false, 0);
  }

  // ----- what the lowered form is worth -----

  function Load(k: nat, v: int, env: Env): int {
    if k == 0 then v else Wrap32(env.memory(Load(k - 1, v, env)))
  }

  function LoweredValue(l: Lowered, env: Env): int
    requires l.Lowered?
  {
    Apply(l.opcode, Load(l.pointers, NameValue(l.name, env), env))
  }

  /** What the parser makes: an identifier has a name, and what a constant under a name is, its binding says;
      a character, string, boolean or null literal is a constant without a name. */
  predicate FromParser(t: Tree, constants: map<nat, Constant>) {
    match t
    case Lit(_) => true
    case Leaf(n, c) => if n == NO_NAME then c.Some? else c.Some? ==> n in constants && constants[n] == c.value
    case Un(_, a) => FromParser(a, constants)
    case Deref(a) => FromParser(a, constants)
    case Bin(_, l, r) => FromParser(l, constants) && FromParser(r, constants)
  }

  lemma {:induction false} FoldKeepsNames(t: Tree, constants: map<nat, Constant>, machine: Machine)
    requires FromParser(t, constants)
    ensures FromParser(Fold(t, constants, machine).tree, constants)
  {
    match t
    case Lit(_) =>
    case Leaf(_, _) =>
    case Un(_, a) => FoldKeepsNames(a, constants, machine);
    case Deref(a) => FoldKeepsNames(a, constants, machine);
    case Bin(_, l, r) =>
      FoldKeepsNames(l, constants, machine);
      FoldKeepsNames(r, constants, machine);
  }

  lemma {:induction false} StarsLoad(t: Tree, env: Env)
    ensures Meaning(t, env) == Load(Stars(t), Meaning(Pointee(t), env), env)
  {
    if t.Deref? {
      StarsLoad(t.pointer, env);
    }
  }

  /** What judging has found of a tree before it is lowered: one of the accepted shapes. */
  predicate Accepted(t: Tree) {
    || (t.Bin? && Operand(t.bop).Some? && IsLeaf(t.left)
        && Resolved(t.right) && LeafValue(t.right) == Operand(t.bop).value)
    || (HasAlignShape(t) && IsIdent(t.left.left) && Resolved(t.left.right) && Resolved(t.right.operand)
        && LeafValue(t.left.right) in {1, 3, 7} && LeafValue(t.right.operand) == LeafValue(t.left.right))
    || IsLeaf(Pointee(t))
  }

  predicate AlignsTo8(t: Tree) {
    HasAlignShape(t) && Resolved(t.left.right) && LeafValue(t.left.right) == 7
  }

  lemma SimpleIsAccepted(t: Tree, cs: map<nat, Constant>, machine: Machine)
    ensures var j := Judge(t, cs, machine);
            j.verdict == Simple <==> Accepted(j.tree)
  {
    hide Fold, Wrap32, UnaryResult, BinaryResult;
  }

  /** A tree is judged simple exactly if an accepted shape is left of it, and what is left is worth the same. */
  lemma JudgeAccepts(t: Tree, env: Env)
    requires FromParser(t, env.constants)
    ensures var j := Judge(t, env.constants, env.machine);
            && (j.verdict == Simple <==> Accepted(j.tree))
            && Meaning(j.tree, env) == Meaning(t, env)
            && FromParser(j.tree, env.constants)
  {
    hide Fold, Wrap32, UnaryResult, BinaryResult, Accepted;
    SimpleIsAccepted(t, env.constants, env.machine);
    var f := Fold(t, env.constants, env.machine);
    FoldPreservesMeaning(t, env);
    FoldKeepsNames(t, env.constants, env.machine);
    if !f.ok && f.tree.Bin? {
      var u := f.tree;
      FoldPreservesMeaning(u.right, env);
      FoldKeepsNames(u.right, env.constants, env.machine);
      if HasAlignShape(u) {
        FoldPreservesMeaning(u.left.right, env);
        FoldKeepsNames(u.left.right, env.constants, env.machine);
        FoldPreservesMeaning(u.right.operand, env);
        FoldKeepsNames(u.right.operand, env.constants, env.machine);
      }
    }
  }

  // ----- alignment -----

  lemma {:induction false} AndWithOnes(y: int)
    ensures Bitwise(And, y, -1) == y
    decreases Magnitude(y)
  {
    if y < -1 || y > 0 {
      AndWithOnes(y / 2);
    }
  }

  /** One bit of a mask whose lowest bit is clear. */
  lemma ClearOne(y: int, m: int)
    requires m < -1 && m % 2 == 0
    ensures Bitwise(And, y, m) == 2 * Bitwise(And, y / 2, m / 2)
  {
  }

  /** Clearing low bits rounds down to a multiple of a power of two. */
  lemma ClearLowBits(y: int)
    ensures Bitwise(And, y, -2) == 2 * (y / 2)
    ensures Bitwise(And, y, -4) == 4 * (y / 4)
    ensures Bitwise(And, y, -8) == 8 * (y / 8)
  {
    hide Bitwise;
    AndWithOnes(y / 2);
    AndWithOnes(y / 4);
    AndWithOnes(y / 8);
    ClearOne(y, -2);
    ClearOne(y, -4);
    ClearOne(y / 2, -2);
    ClearOne(y, -8);
    ClearOne(y / 2, -4);
    ClearOne(y / 4, -2);
  }

  lemma AlignIs(mask: int, x: int)
    requires mask in {1, 3, 7}
    ensures AlignTo(mask, x) == (mask + 1) * (Wrap32(x + mask) / (mask + 1))
  {
    hide Bitwise, Wrap32;
    ClearLowBits(Wrap32(x + mask));
  }

  lemma WrapOver(v: int)
    requires TWO_31 <= v < TWO_31 + TWO_32
    ensures Wrap32(v) == v - TWO_32
  {
  }

  /** Rounding up as the operators define it is rounding up as arithmetic has it. */
  lemma AlignRoundsUp(mask: int, x: int)
    requires mask in {1, 3, 7} && Int32(x) && Int32(x + mask)
    ensures AlignTo(mask, x) % (mask + 1) == 0 && x <= AlignTo(mask, x) <= x + mask
  {
    hide AlignTo, Wrap32;
    AlignIs(mask, x);
    if mask == 1 {
      RoundsUp(x + 1, 2);
    } else if mask == 3 {
      RoundsUp(x + 3, 4);
    } else {
      RoundsUp(x + 7, 8);
    }
  }

  lemma RoundsUp(y: int, m: int)
    requires m in {2, 4, 8}
    ensures (m * (y / m)) % m == 0 && y - m < m * (y / m) <= y
  {
    assert m * (y / m) == y - y % m;
  }

  /** Exactly when rounding up to 4 gives what rounding up to 8 would, wrapped sums included. */
  lemma Align4For8(x: int)
    requires Int32(x)
    ensures AlignTo(3, x) == AlignTo(7, x) <==> x % 8 == 0 || x % 8 >= 5
  {
    hide AlignTo, Wrap32;
    AlignIs(3, x);
    AlignIs(7, x);
    if x + 7 < TWO_31 {
      Round4And8(x / 8, x % 8);
    } else {
      WrapOver(x + 7);
      if x + 3 >= TWO_31 {
        WrapOver(x + 3);
      }
    }
  }

  lemma Round4And8(q: int, r: int)
    requires 0 <= r < 8
    ensures 4 * ((8 * q + r + 3) / 4) == 8 * ((8 * q + r + 7) / 8) <==> r == 0 || r >= 5
  {
    assert (8 * q + r + 3) / 4 == 2 * q + (r + 3) / 4;
    assert (8 * q + r + 7) / 8 == q + (r + 7) / 8;
  }

  // ----- the lowering keeps the value, but for one mask -----

  /** The size expression asks for a multiple of 8. */
  predicate AsksFor8(t: Tree, env: Env) {
    && !Foldable(t, env.constants)
    && HasAlignShape(t) && Meaning(t.left.right, env) == 7
  }

  predicate GoodEnv(env: Env) {
    forall n :: n in env.constants ==> GoodConstant(env.constants[n])
  }

  lemma LoadInt32(k: nat, v: int, env: Env)
    requires Int32(v)
    ensures Int32(Load(k, v, env))
  {
  }

  lemma AcceptedLeaf(t: Tree, env: Env)
    requires t.Leaf? && t.name != NO_NAME && FromParser(t, env.constants)
    ensures Meaning(t, env) == NameValue(t.name, env)
  {
  }

  lemma {:induction false} PointeeNames(t: Tree, constants: map<nat, Constant>)
    requires FromParser(t, constants)
    ensures FromParser(Pointee(t), constants)
  {
    if t.Deref? {
      PointeeNames(t.pointer, constants);
    }
  }

  lemma AlignMeaning(t: Tree, env: Env)
    requires HasAlignShape(t) && Resolved(t.left.right) && Resolved(t.right.operand)
    requires LeafValue(t.left.right) == LeafValue(t.right.operand)
    ensures Meaning(t, env) == AlignTo(LeafValue(t.left.right), Meaning(t.left.left, env))
  {
    hide Wrap32, Bitwise;
    var mask := LeafValue(t.left.right);
    assert Meaning(t.left.right, env) == mask && Meaning(t.right.operand, env) == mask;
    assert Meaning(t.right, env) == Wrap32(-mask - 1);
  }

  lemma NameInt32(n: nat, env: Env)
    requires GoodEnv(env)
    ensures Int32(NameValue(n, env))
  {
  }

  lemma ApplyArithmetic(op: Binary, x: int, env: Env)
    requires Operand(op).Some? && Int32(x)
    ensures Wrap32(BinaryResult(op, x, Operand(op).value, env.machine)) == Apply(ArithmeticCode(op), x)
  {
  }

  /** An accepted shape is worth what its lowered form is, but for the mask 7. */
  lemma AcceptedValue(t: Tree, env: Env)
    requires Accepted(t) && FromParser(t, env.constants) && GoodEnv(env) && LowerSimple(t).Lowered?
    ensures var l := LowerSimple(t);
            var x := Load(l.pointers, NameValue(l.name, env), env);
            && Int32(x)
            && (if HasAlignShape(t) && LeafValue(t.left.right) == 7
                then Meaning(t, env) == AlignTo(7, x) && l.opcode == Align4
                else Meaning(t, env) == LoweredValue(l, env))
  {
    hide Wrap32, TruncDiv, Bitwise;
    var l := LowerSimple(t);
    NameInt32(l.name, env);
    LoadInt32(l.pointers, NameValue(l.name, env), env);
    if t.Bin? && t.bop != And {
      AcceptedLeaf(t.left, env);
      ApplyArithmetic(t.bop, NameValue(l.name, env), env);
    } else if t.Bin? {
      AlignMeaning(t, env);
      StarsLoad(t.left.left, env);
      PointeeNames(t.left.left, env.constants);
      AcceptedLeaf(Pointee(t.left.left), env);
    } else {
      StarsLoad(t, env);
      PointeeNames(t, env.constants);
      AcceptedLeaf(Pointee(t), env);
    }
  }

  /** Which lowered size expressions are worth what was written: all of them, in every run, except
      that a request for a multiple of 8 is answered with a multiple of 4. */
  lemma LoweringKeepsValue(t: Tree, env: Env)
    requires FromParser(t, env.constants) && GoodEnv(env)
    requires Lower(t, env.constants, env.machine).Lowered?
    ensures var l := Lower(t, env.constants, env.machine);
            var x := Load(l.pointers, NameValue(l.name, env), env);
            Meaning(t, env) == LoweredValue(l, env) <==> (AsksFor8(t, env) ==> x % 8 == 0 || x % 8 >= 5)
  {
    hide Wrap32, AlignTo, Bitwise, TruncDiv, Meaning, Judge, NameValue, FromParser, GoodEnv, LowerSimple, AsksFor8, Fold, Load;
    JudgeAccepts(t, env);
    var j := Judge(t, env.constants, env.machine);
    AcceptedValue(j.tree, env);
    JudgedMask(t, env);
    var l := LowerSimple(j.tree);
    Align4For8(Load(l.pointers, NameValue(l.name, env), env));
  }

  /** A tree that does not fold keeps its shape. */
  lemma FoldKeepsShape(t: Tree, constants: map<nat, Constant>, machine: Machine)
    ensures var f := Fold(t, constants, machine);
            !f.ok ==>
              && f.tree.Bin? == t.Bin? && f.tree.Un? == t.Un?
              && (t.Bin? ==> f.tree.bop == t.bop) && (t.Un? ==> f.tree.op == t.op)
  {
  }

  /** The judged tree shows the alignment that the original asked for. */
  lemma JudgedMask(t: Tree, env: Env)
    requires Judge(t, env.constants, env.machine).verdict == Simple
    ensures var u := Judge(t, env.constants, env.machine).tree;
            AlignsTo8(u) <==> AsksFor8(t, env)
  {
    hide Wrap32, UnaryResult, BinaryResult;
    var f := Fold(t, env.constants, env.machine);
    FoldSucceeds(t, env);
    if t.Bin? && t.left.Bin? {
      FoldKeepsShape(t.left, env.constants, env.machine);
      FoldSucceeds(t.left, env);
      FoldSucceeds(t.left.right, env);
      FoldTwice(t.left.right, env.constants, env.machine);
      if !f.ok {
        assert f.tree.left == Fold(t.left, env.constants, env.machine).tree;
      }
    }
  }

  // ----- when the test for simplicity is not defined -----

  /** What the alignment test takes for a name, seen before folding. */
  predicate FoldsToIdent(x: Tree, constants: map<nat, Constant>) {
    || IsLeaf(x) || Foldable(x, constants)
    || (x.Deref? && (IsLeaf(x.pointer) || Foldable(x.pointer, constants)))
  }

  /** The expressions for which ASTP_expr_is_simple takes the integer value of a tree that has none:
      an operand that is not constant, beside one that is a constant or a name. */
  predicate TakesNoValue(t: Tree, env: Env) {
    var cs := env.constants;
    t.Bin? &&
    if Operand(t.bop).Some? then !Foldable(t.right, cs) && (IsLeaf(t.left) || Foldable(t.left, cs))
    else
      && HasAlignShape(t) && !Foldable(t.left, cs)
      && var x, n, m := t.left.left, t.left.right, t.right.operand;
         || !Foldable(n, cs)
         || (FoldsToIdent(x, cs) && Meaning(n, env) in {1, 3, 7} && !Foldable(m, cs))
  }

  lemma FoldLeaf(t: Tree, env: Env)
    ensures var f := Fold(t, env.constants, env.machine);
            IsLeaf(f.tree) <==> IsLeaf(t) || Foldable(t, env.constants)
  {
    FoldSucceeds(t, env);
  }

  lemma FoldIdent(x: Tree, env: Env)
    ensures IsIdent(Fold(x, env.constants, env.machine).tree) <==> FoldsToIdent(x, env.constants)
  {
    FoldLeaf(x, env);
    if x.Deref? {
      FoldLeaf(x.pointer, env);
    }
  }

  lemma UndefinedWhen(t: Tree, env: Env)
    ensures Judge(t, env.constants, env.machine).verdict == Undefined <==> TakesNoValue(t, env)
  {
    hide Wrap32, UnaryResult, BinaryResult;
    FoldSucceeds(t, env);
    FoldKeepsShape(t, env.constants, env.machine);
    if t.Bin? {
      FoldSucceeds(t.left, env);
      FoldSucceeds(t.right, env);
      FoldLeaf(t.left, env);
      FoldTwice(t.right, env.constants, env.machine);
      FoldKeepsShape(t.left, env.constants, env.machine);
      if HasAlignShape(t) {
        FoldSucceeds(t.left.left, env);
        FoldSucceeds(t.left.right, env);
        FoldSucceeds(t.right.operand, env);
        FoldTwice(t.left.right, env.constants, env.machine);
        FoldIdent(t.left.left, env);
      }
    }
  }

  /** Two names are enough: `a / b`, with neither a constant, has no verdict. */
  lemma QuotientOfNames(env: Env, a: nat, b: nat)
    requires a !in env.constants && b !in env.constants
    ensures Lower(Bin(Slash, Leaf(a, None), Leaf(b, None)), env.constants, env.machine) == Crash
  {
    var cs, machine := env.constants, env.machine;
    assert Fold(Leaf(a, None), cs, machine) == Folded(Leaf(a, None), false, 0);
    assert Fold(Leaf(b, None), cs, machine) == Folded(Leaf(b, None), false, 0);
    var t := Bin(Slash, Leaf(a, None), Leaf(b, None));
    assert Fold(t, cs, machine) == Folded(t, false, 0);
  }

  /** `(n + 7) & ~7` with n = 1: 8 is asked for, 4 is what the stub computes. */
  lemma EightBecomesFour(env: Env, n: nat)
    requires n != NO_NAME && n !in env.constants && env.variables(n) == 1
    ensures var t := Bin(And, Bin(Add, Leaf(n, None), Lit(7)), Un(Tilde, Lit(7)));
            && Lower(t, env.constants, env.machine) == Lowered(0, Align4, n)
            && Meaning(t, env) == 8 && LoweredValue(Lowered(0, Align4, n), env) == 4
  {
    hide Bitwise;
    var cs, machine, x := env.constants, env.machine, Leaf(n, None);
    var t := Bin(And, Bin(Add, x, Lit(7)), Un(Tilde, Lit(7)));
    assert Fold(x, cs, machine) == Folded(x, false, 0);
    assert Fold(Bin(Add, x, Lit(7)), cs, machine) == Folded(Bin(Add, x, Lit(7)), false, 0);
    assert Fold(t, cs, machine) == Folded(t, false, 0);
    assert Fold(Lit(7), cs, machine) == Folded(Lit(7), true, 0);
    assert Judge(t, cs, machine) == Judged(Simple, t);
    AlignMeaning(t, env);
    AlignIs(7, 1);
    AlignIs(3, 1);
  }

  // ----- on the nodes -----

  /** ASTP_expr_is_simple, with the foldings that it leaves behind */
  method IsSimple(ev: Evaluator, e: Exp) returns (v: Verdict)
    requires e.Valid()
    modifies ev, e.repr
    ensures e.Valid() && e.repr <= old(e.repr)
    ensures Judged(v, e.Abs()) == Judge(old(e.Abs()), ev.constants, ev.machine)
    ensures ev.freed == old(ev.freed) + multiset(old(e.repr) - e.repr)
  {
    hide Fold, JudgeFolded;
    var ok := ev.Evaluate(e);
    if ok {
      return Simple;
    }
    ghost var before := e.repr;
    v := IsSimpleFolded(ev, e);
    FreedInTwoSteps(old(e.repr), before, e.repr);
  }

  /** The cases of an expression that did not fold. */
  method IsSimpleFolded(ev: Evaluator, e: Exp) returns (v: Verdict)
    requires e.Valid()
    modifies ev, e.repr
    ensures e.Valid() && e.repr <= old(e.repr)
    ensures Judged(v, e.Abs()) == JudgeFolded(old(e.Abs()), ev.constants, ev.machine)
    ensures ev.freed == old(ev.freed) + multiset(old(e.repr) - e.repr)
  {
    hide Fold, JudgeAlign, HasAlignShape;
    match e.kind {
      case ConstantNode =>
        v := Simple;
      case StarNode =>
        var p, _ := Chase(e, 0);
        v := if p.kind == ConstantNode then Simple else Complex;
      case UnaryNode(_) =>
        v := Complex;
      case BinaryNode(op) =>
        v := IsSimpleBinary(ev, e, op);
    }
  }

  method IsSimpleBinary(ev: Evaluator, e: Exp, op: Binary) returns (v: Verdict)
    requires e.Valid() && e.kind == BinaryNode(op)
    modifies ev, e.repr
    ensures e.Valid() && e.repr <= old(e.repr)
    ensures Judged(v, e.Abs()) == JudgeFolded(old(e.Abs()), ev.constants, ev.machine)
    ensures ev.freed == old(ev.freed) + multiset(old(e.repr) - e.repr)
  {
    hide Fold;
    if Operand(op).Some? {
      if e.oper1.kind != ConstantNode {
        return Complex;
      }
      var ok := ev.EvaluateRight(e);
      v := if !ok then Undefined
           else if ev.LeafInt(e.oper2) == Operand(op).value then Simple else Complex;
    } else if op == And && e.oper1.kind == BinaryNode(Add) && e.oper2.kind == UnaryNode(Tilde) {
      v := IsSimpleAlign(ev, e, e.oper1.oper1.Abs(), e.oper1.oper2.Abs(), e.oper2.oper1.Abs());
    } else {
      v := Complex;
    }
  }

  method IsSimpleAlign(ev: Evaluator, e: Exp, ghost x: Tree, ghost n: Tree, ghost m: Tree) returns (v: Verdict)
    requires e.Valid() && e.kind == BinaryNode(And)
    requires e.oper1.Valid() && e.oper1.Abs() == Bin(Add, x, n) && e.oper2.Valid() && e.oper2.Abs() == Un(Tilde, m)
    modifies ev, e.repr
    ensures e.Valid() && e.repr <= old(e.repr)
    ensures Judged(v, e.Abs()) == JudgeAlign(Bin(And, Bin(Add, x, n), Un(Tilde, m)), ev.constants, ev.machine)
    ensures ev.freed == old(ev.freed) + multiset(old(e.repr) - e.repr)
  {
    hide Fold, Resolved, IsIdent, JudgeAlign, JudgeMasked, LeafValue, Exp.Valid, Exp.Abs;
    JudgeAlignIs(x, n, m, ev.constants, ev.machine);
    var ok := EvaluateMask(ev, e, x, n, Un(Tilde, m));
    if !ok {
      return Undefined;
    }
    ghost var middle := e.repr;
    v := IsSimpleMasked(ev, e, x, Fold(n, ev.constants, ev.machine).tree, m);
    FreedInTwoSteps(old(e.repr), middle, e.repr);
  }

  /** What remains to be judged once the mask is known. */
  ghost function JudgeMasked(x: Tree, n: Tree, m: Tree, constants: map<nat, Constant>, machine: Machine): Judged
    requires Resolved(n)
  {
    if IsIdent(x) && LeafValue(n) in {1, 3, 7} then
      var fm := Fold(m, constants, machine);
      Judged(if !fm.ok then Undefined else if LeafValue(fm.tree) == LeafValue(n) then Simple else Complex,
             Bin(And, Bin(Add, x, n), Un(Tilde, fm.tree)))
    else Judged(Complex, Bin(And, Bin(Add, x, n), Un(Tilde, m)))
  }

  lemma JudgeAlignIs(x: Tree, n: Tree, m: Tree, constants: map<nat, Constant>, machine: Machine)
    ensures var fn := Fold(n, constants, machine);
            && (fn.ok ==> Resolved(fn.tree))
            && JudgeAlign(Bin(And, Bin(Add, x, n), Un(Tilde, m)), constants, machine) ==
               if !fn.ok then Judged(Undefined, Bin(And, Bin(Add, x, fn.tree), Un(Tilde, m)))
               else JudgeMasked(x, fn.tree, m, constants, machine)
  {
  }

  method IsSimpleMasked(ev: Evaluator, e: Exp, ghost x: Tree, ghost n: Tree, ghost m: Tree) returns (v: Verdict)
    requires e.Valid() && e.kind == BinaryNode(And)
    requires e.oper1.Valid() && e.oper1.Abs() == Bin(Add, x, n) && e.oper2.Valid() && e.oper2.Abs() == Un(Tilde, m)
    requires Resolved(n)
    modifies ev, e.repr
    ensures e.Valid() && e.repr <= old(e.repr)
    ensures Judged(v, e.Abs()) == JudgeMasked(x, n, m, ev.constants, ev.machine)
    ensures ev.freed == old(ev.freed) + multiset(old(e.repr) - e.repr)
  {
    hide Fold, IsIdent, LeafValue, Resolved;
    var l: Exp := e.oper1;
    assert l.oper1.Abs() == x && l.oper2.Abs() == n;
    assert e.Abs() == Bin(And, Bin(Add, x, n), Un(Tilde, m));
    var mask := ev.LeafInt(l.oper2);
    var ident := IsIdentNode(l.oper1);
    hide Exp.Abs, Exp.Valid;
    if !ident || mask !in {1, 3, 7} {
      v := Complex;
    } else {
      v := IsSimpleComplement(ev, e, mask, Bin(Add, x, n), m);
    }
  }

  method IsSimpleComplement(ev: Evaluator, e: Exp, mask: int, ghost l: Tree, ghost m: Tree) returns (v: Verdict)
    requires e.Valid() && e.kind == BinaryNode(And)
    requires e.oper1.Valid() && e.oper1.Abs() == l && e.oper2.Valid() && e.oper2.Abs() == Un(Tilde, m)
    modifies ev, e.repr
    ensures e.Valid() && e.repr <= old(e.repr)
    ensures var f := Fold(m, ev.constants, ev.machine);
            && e.Abs() == Bin(And, l, Un(Tilde, f.tree))
            && v == if !f.ok then Undefined else if LeafValue(f.tree) == mask then Simple else Complex
    ensures ev.freed == old(ev.freed) + multiset(old(e.repr) - e.repr)
  {
    hide Fold, Resolved;
    assert e.oper2.oper1.Abs() == m;
    var ok := EvaluateComplement(ev, e);
    assert e.oper2.Abs() == Un(Tilde, e.oper2.oper1.Abs());
    v := if !ok then Undefined
         else if ev.LeafInt(e.oper2.oper1) == mask then Simple else Complex;
  }

  method IsIdentNode(x: Exp) returns (b: bool)
    requires x.Valid()
    ensures b <==> IsIdent(x.Abs())
  {
    b := x.kind == ConstantNode || (x.kind == StarNode && x.oper1.kind == ConstantNode);
  }

  /** The integer value of `n` in `(x + n) & ~m` */
  method EvaluateMask(ev: Evaluator, e: Exp, ghost x: Tree, ghost n: Tree, ghost r: Tree) returns (ok: bool)
    requires e.Valid() && e.kind == BinaryNode(And)
    requires e.oper1.Valid() && e.oper1.Abs() == Bin(Add, x, n) && e.oper2.Valid() && e.oper2.Abs() == r
    modifies ev, e.repr
    ensures e.Valid() && e.repr <= old(e.repr) && e.kind == BinaryNode(And)
    ensures e.oper1.Valid() && e.oper2.Valid() && e.oper2.Abs() == r
    ensures var f := Fold(n, ev.constants, ev.machine);
            ok == f.ok && e.oper1.Abs() == Bin(Add, x, f.tree) && e.Abs() == Bin(And, Bin(Add, x, f.tree), r)
    ensures ev.freed == old(ev.freed) + multiset(old(e.repr) - e.repr)
  {
    hide Fold, Resolved;
    var left: Exp, right: Exp := e.oper1, e.oper2;
    assert left.oper1.Abs() == x && left.oper2.Abs() == n;
    ghost var a, b := left.repr, right.repr;
    ok := ev.EvaluateRight(left);
    assert right.Valid() && right.Abs() == r;
    assert left.Abs() == Bin(Add, x, Fold(n, ev.constants, ev.machine).tree);
    Dropped(e, a, left.repr, b);
    Rejoin(e);
  }

  /** The integer value of `m` in `(x + n) & ~m` */
  method EvaluateComplement(ev: Evaluator, e: Exp) returns (ok: bool)
    requires e.Valid() && e.kind.BinaryNode? && e.oper1.Valid() && e.oper2.Valid() && e.oper2.kind.UnaryNode?
    modifies ev, e.repr
    ensures e.Valid() && e.repr <= old(e.repr)
    ensures e.kind == old(e.kind) && e.oper1 == old(e.oper1) && e.oper2 == old(e.oper2)
    ensures e.oper1.Valid() && e.oper2.Valid()
    ensures e.oper2.kind == old(e.oper2.kind) && e.oper1.Abs() == old(e.oper1.Abs())
    ensures var f := Fold(old(e.oper2.oper1.Abs()), ev.constants, ev.machine);
            ok == f.ok && e.oper2.oper1.Abs() == f.tree
    ensures ev.freed == old(ev.freed) + multiset(old(e.repr) - e.repr)
  {
    hide Fold, Resolved;
    var l: Exp, r: Exp := e.oper1, e.oper2;
    ghost var a, b, u := l.repr, r.repr, l.Abs();
    ok := ev.EvaluateOnly(r);
    assert l.Valid() && l.Abs() == u;
    Dropped(e, b, r.repr, a);
    label L:
    Rejoin(e);
    assert r.oper1.Abs() == old@L(r.oper1.Abs());
  }

  /** Follow a chain of stars. */
  method Chase(e: Exp, count: nat) returns (p: Exp, k: nat)
    requires e.Valid()
    ensures p.Valid() && p.kind != StarNode && p.repr <= e.repr
    ensures p.Abs() == Pointee(e.Abs()) && k == count + Stars(e.Abs())
  {
    p, k := e, count;
    while p.kind == StarNode
      invariant p.Valid() && p.repr <= e.repr
      invariant Pointee(p.Abs()) == Pointee(e.Abs()) && k + Stars(p.Abs()) == count + Stars(e.Abs())
      decreases p.repr
    {
      p, k := p.oper1, k + 1;
    }
  }

  /** The expression part of AST_set_field_attrs */
  method LowerExpression(ev: Evaluator, e: Exp) returns (l: Lowered)
    requires e.Valid()
    modifies ev, e.repr
    ensures e.Valid() && l == Lower(old(e.Abs()), ev.constants, ev.machine)
    ensures ev.freed == old(ev.freed) + multiset(old(e.repr) - e.repr)
  {
    hide Fold, Judge, LowerSimple;
    var v := IsSimple(ev, e);
    match v {
      case Simple => l := LowerNode(ev, e);
      case Complex => l := Rejected;
      case Undefined => l := Crash;
    }
  }

  lemma NodeShape(p: Exp)
    requires p.Valid()
    ensures p.Abs().Bin? <==> p.kind.BinaryNode?
    ensures p.kind.BinaryNode? ==>
              && p.oper1.Valid() && p.oper2.Valid()
              && p.Abs() == Bin(p.kind.bop, p.oper1.Abs(), p.oper2.Abs())
              && (HasAlignShape(p.Abs()) <==>
                    p.kind.bop == And && p.oper1.kind == BinaryNode(Add) && p.oper2.kind == UnaryNode(Tilde))
    ensures HasAlignShape(p.Abs()) ==>
              p.Abs().left.left == p.oper1.oper1.Abs() && p.Abs().left.right == p.oper1.oper2.Abs()
  {
  }

  lemma NoNameFor(k: nat, code: Opcode, t: Tree)
    requires t.Bin?
    ensures Named(k, code, t) == Rejected
  {
  }

  method LowerNode(ev: Evaluator, e: Exp) returns (l: Lowered)
    requires e.Valid()
    ensures l == LowerSimple(e.Abs())
  {
    var p, k := Chase(e, 0);
    hide Stars, Pointee, LowerPointee;
    l := LowerChased(ev, p, k);
  }

  method LowerChased(ev: Evaluator, p: Exp, k: nat) returns (l: Lowered)
    requires p.Valid() && p.kind != StarNode
    ensures l == LowerPointee(k, p.Abs())
  {
    NodeShape(p);
    hide Exp.Abs, HasAlignShape, LowerAligned, ArithmeticCode, Named;
    match p.kind {
      case BinaryNode(op) =>
        if Operand(op).Some? {
          l := LeafNode(k, ArithmeticCode(op), p.oper1);
        } else if op == And && p.oper1.kind == BinaryNode(Add) && p.oper2.kind == UnaryNode(Tilde) {
          l := LowerAlign(ev, p, k);
        } else {
          l := Rejected;
          NoNameFor(k, NoCode, p.Abs());
        }
      case _ =>
        l := LeafNode(k, NoCode, p);
    }
  }

  method LeafNode(k: nat, op: Opcode, p: Exp) returns (l: Lowered)
    requires p.Valid()
    ensures l == Named(k, op, p.Abs())
  {
    l := if p.kind != ConstantNode || p.isInt then Rejected
         else if p.name == NO_NAME then Nameless else Lowered(k, op, p.name);
  }

  method LowerAlign(ev: Evaluator, p: Exp, k: nat) returns (l: Lowered)
    requires p.Valid() && p.kind == BinaryNode(And)
    requires p.oper1.Valid() && p.oper1.kind == BinaryNode(Add) && p.oper2.Valid() && p.oper2.kind == UnaryNode(Tilde)
    ensures l == LowerAligned(k, p.oper1.oper1.Abs(), p.oper1.oper2.Abs())
  {
    var n: Exp := p.oper1.oper2;
    if n.kind == ConstantNode && (n.isInt || n.other.Some?) {
      var q, stars := Chase(p.oper1.oper1, k);
      l := LeafNode(stars, AlignCode(ev.LeafInt(n)), q);
    } else {
      l := Rejected;
    }
  }
}
