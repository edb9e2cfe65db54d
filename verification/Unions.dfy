/**
  Case labels of discriminated unions: the check that no label is repeated in another arm, and
  the check that labels are of the discriminator's type.
*/
module Unions {
  import opened Expressions
  import opened Utils

  /** An `int` and a `char` of the compiler; characters are signed. */
  type CInt = i: int | Int32(i) witness 0
  type CChar = c: int | -0x80 <= c < 0x80

  datatype Value =
    | IntValue(i: CInt, enumerator: bool, name: nat)   // `name` is that of the constant
    | HyperValue(high: int, low: int)
    | CharValue(c: CChar)
    | StringValue(s: nat)
    | BoolValue(b: bool)
    | NilValue

  /** A label has a value, unless it is `default`. */
  datatype Label = Default | Case(value: Value)

  type Arms = seq<seq<Label>>

  /** What the check takes for a repetition.  Nil and string values are never compared. */
  predicate Collide(a: Label, b: Label) {
    match (a, b)
    case (Default, Default) => true
    case (Case(IntValue(i, _, _)), Case(IntValue(j, _, _))) => i == j
    case (Case(HyperValue(h, l)), Case(HyperValue(h', l'))) => h == h' && l == l'
    case (Case(CharValue(c)), Case(CharValue(d))) => c == d
    case (Case(BoolValue(p)), Case(BoolValue(q))) => p == q
    case _ => false
  }

  /** Two values collide exactly if they are of one kind and equal; TRUE and FALSE do not, and neither do strings
      or nulls.  Of integers the number alone counts. */
  lemma CollideRules(v: Value, w: Value)
    ensures Collide(Default, Default) && !Collide(Default, Case(v)) && !Collide(Case(v), Default)
    ensures v.IntValue? && w.IntValue? ==> (Collide(Case(v), Case(w)) <==> v.i == w.i)
    ensures v.BoolValue? || v.CharValue? || v.HyperValue? ==> (Collide(Case(v), Case(w)) <==> v == w)
    ensures v.StringValue? || v.NilValue? || (v.IntValue? && !w.IntValue?) ==> !Collide(Case(v), Case(w))
  {
  }

  /** The place of a label. */
  datatype Place = Place(arm: nat, index: nat)

  predicate Valid(arms: Arms, p: Place) {
    p.arm < |arms| && p.index < |arms[p.arm]|
  }

  function At(arms: Arms, p: Place): Label
    requires Valid(arms, p)
  {
    arms[p.arm][p.index]
  }

  predicate Before(p: Place, q: Place) {
    p.arm < q.arm || (p.arm == q.arm && p.index < q.index)
  }

  /** `q` repeats `p` in a later arm, and nothing between the arms' starts and `q` does. */
  ghost predicate FirstRepetition(arms: Arms, p: Place, q: Place) {
    && Valid(arms, p) && Valid(arms, q) && p.arm < q.arm && Collide(At(arms, p), At(arms, q))
    && forall r: Place :: Valid(arms, r) && p.arm < r.arm && Before(r, q) ==> !Collide(At(arms, p), At(arms, r))
  }

  ghost predicate Unrepeated(arms: Arms, p: Place) {
    Valid(arms, p) && forall r: Place :: Valid(arms, r) && p.arm < r.arm ==> !Collide(At(arms, p), At(arms, r))
  }

  /** The search for one label's first repetition. */
  method Search(arms: Arms, p: Place) returns (dup: bool, q: Place)
    requires Valid(arms, p)
    ensures if dup then FirstRepetition(arms, p, q) else Unrepeated(arms, p)
  {
    var clabel := At(arms, p);
    dup, q := false, p;
    var sArm := p.arm + 1;
    while sArm < |arms|
      invariant p.arm < sArm <= |arms|
      invariant forall r: Place :: Valid(arms, r) && p.arm < r.arm < sArm ==> !Collide(clabel, At(arms, r))
    {
      dup := false;
      var k := 0;
      while k < |arms[sArm]|
        invariant 0 <= k <= |arms[sArm]| && !dup
        invariant forall r: Place :: Valid(arms, r) && r.arm == sArm && r.index < k ==> !Collide(clabel, At(arms, r))
      {
        var sClabel := arms[sArm][k];
        if clabel.Default? && sClabel.Default? {
          dup := true;
        } else if clabel.Case? && sClabel.Case? {
          match (clabel.value, sClabel.value) {
            case (IntValue(i, _, _), IntValue(j, _, _)) => dup := i == j;
            case (HyperValue(h, l), HyperValue(h', l')) => dup := h == h' && l == l';
            case (CharValue(c), CharValue(d)) => dup := c == d;
            case (BoolValue(b), BoolValue(b')) => dup := b == b';
            case _ =>
          }
        }
        if dup {
          q := Place(sArm, k);
          return;
        }
        k := k + 1;
      }
      sArm := sArm + 1;
    }
  }

  /** union_case_labels: the labels reported, in order; each label of an earlier arm reports at most one. */
  method UnionCaseLabels(arms: Arms) returns (errors: seq<Place>, ghost causes: seq<Place>)
    ensures |errors| == |causes|
    // every report is the first repetition of a label, and no label reports twice
    ensures forall e :: 0 <= e < |errors| ==> FirstRepetition(arms, causes[e], errors[e])
    ensures forall e, f :: 0 <= e < f < |causes| ==> Before(causes[e], causes[f])
    // every label that reports nothing is repeated nowhere
    ensures forall p: Place :: Valid(arms, p) && p !in causes ==> Unrepeated(arms, p)
    ensures errors != [] <==> SomeCollision(arms)
  {
    hide FirstRepetition, Unrepeated, SomeCollision;
    errors, causes := [], [];
    for i := 0 to |arms|
      invariant |errors| == |causes|
      invariant forall e :: 0 <= e < |errors| ==> FirstRepetition(arms, causes[e], errors[e]) && causes[e].arm < i
      invariant forall e, f :: 0 <= e < f < |causes| ==> Before(causes[e], causes[f])
      invariant forall p: Place :: Valid(arms, p) && p.arm < i && p !in causes ==> Unrepeated(arms, p)
    {
      for m := 0 to |arms[i]|
        invariant |errors| == |causes|
        invariant forall e :: 0 <= e < |errors| ==>
                    FirstRepetition(arms, causes[e], errors[e]) && Before(causes[e], Place(i, m))
        invariant forall e, f :: 0 <= e < f < |causes| ==> Before(causes[e], causes[f])
        invariant forall p: Place :: Valid(arms, p) && Before(p, Place(i, m)) && p !in causes ==> Unrepeated(arms, p)
      {
        var p := Place(i, m);
        var dup, q := Search(arms, p);
        if dup {
          errors, causes := errors + [q], causes + [p];
        }
      }
    }
    ReportsIffCollision(arms, errors, causes);
  }

  /** Two labels in different arms that the check takes for repetitions. */
  ghost predicate SomeCollision(arms: Arms) {
    exists p: Place, q: Place :: Valid(arms, p) && Valid(arms, q) && p.arm < q.arm && Collide(At(arms, p), At(arms, q))
  }

  /** An error is reported exactly if two labels of different arms collide. */
  lemma ReportsIffCollision(arms: Arms, errors: seq<Place>, causes: seq<Place>)
    requires |errors| == |causes|
    requires forall e :: 0 <= e < |errors| ==> FirstRepetition(arms, causes[e], errors[e])
    requires forall p: Place :: Valid(arms, p) && p !in causes ==> Unrepeated(arms, p)
    ensures errors != [] <==> SomeCollision(arms)
  {
    if errors != [] {
      assert FirstRepetition(arms, causes[0], errors[0]);
    }
    if SomeCollision(arms) {
      var p: Place, q: Place :| Valid(arms, p) && Valid(arms, q) && p.arm < q.arm && Collide(At(arms, p), At(arms, q));
      assert !Unrepeated(arms, p);
    }
  }

  // ----- labels and the discriminator -----

  datatype Width = Small | Short | Long | Hyper

  /** `enumerators` gives the values of an enumeration's constants by name. */
  datatype Discriminator =
    | IntegerType(width: Width, signed: bool)
    | EnumType(enumerators: map<nat, CInt>)
    | BooleanType | CharacterType | OtherType

  datatype LabelError = NoError | InvalidCaseType | CaseDiscriminatorType | CaseConstantEnum

  predicate IsInteger(v: Value) {
    v.IntValue? && !v.enumerator
  }

  predicate IsEnum(v: Value) {
    v.IntValue? && v.enumerator
  }

  /** clabel_value */
  function CheckLabel(l: Label, d: Discriminator): LabelError {
    if l.Default? then NoError
    else
      var v := l.value;
      if !IsInteger(v) && !IsEnum(v) && !v.BoolValue? && !v.CharValue? then InvalidCaseType
      else if (d.IntegerType? && !IsInteger(v)) || (d.EnumType? && !IsEnum(v))
              || (d.BooleanType? && !v.BoolValue?) || (d.CharacterType? && !v.CharValue?) then CaseDiscriminatorType
      else if d.EnumType? && v.name !in d.enumerators then CaseConstantEnum
      else NoError
  }

  /** A label passes exactly if it is `default` or of the discriminator's kind and, for an enumeration, one of
      its constants by name. */
  lemma LabelRules(v: Value, d: Discriminator)
    requires !d.OtherType?
    ensures CheckLabel(Default, d) == NoError
    ensures CheckLabel(Case(v), d) == NoError <==>
      || (d.IntegerType? && v.IntValue? && !v.enumerator)
      || (d.EnumType? && v.IntValue? && v.enumerator && v.name in d.enumerators)
      || (d.BooleanType? && v.BoolValue?)
      || (d.CharacterType? && v.CharValue?)
    ensures CheckLabel(Case(v), d) == InvalidCaseType <==> v.HyperValue? || v.StringValue? || v.NilValue?
    ensures CheckLabel(Case(v), d) == CaseConstantEnum <==>
      d.EnumType? && v.IntValue? && v.enumerator && v.name !in d.enumerators
  {
  }

  /** union_discrim_type: an integer type, but no hyper, an enumeration, boolean or char. */
  predicate DiscriminatorError(d: Discriminator) {
    d.OtherType? || (d.IntegerType? && d.width.Hyper?)
  }

  /** A union that the compiler reports nothing about. */
  ghost predicate Accepted(arms: Arms, d: Discriminator) {
    && !DiscriminatorError(d) && !SomeCollision(arms)
    && forall p: Place :: Valid(arms, p) ==> CheckLabel(At(arms, p), d) == NoError
  }

  /** The number that a label is kept as. */
  function Number(v: Value): Option<int> {
    match v
    case IntValue(i, _, _) => Some(i)
    case BoolValue(b) => Some(if b then 1 else 0)
    case CharValue(c) => Some(c)
    case _ => None
  }

  /** TRUE is 1 and FALSE is 0, a character is its code, with its sign, and hypers, strings and nulls are no numbers. */
  lemma NumberRules(v: Value)
    ensures v.IntValue? ==> Number(v) == Some(v.i)
    ensures v.CharValue? ==> Number(v) == Some(v.c)
    ensures v.BoolValue? ==> Number(v) == if v.b then Some(1) else Some(0)
    ensures v.HyperValue? || v.StringValue? || v.NilValue? ==> Number(v) == None
  {
  }

  predicate Labels(l: Label, x: int) {
    l.Case? && Number(l.value) == Some(x)
  }

  ghost predicate ArmLabelled(arms: Arms, i: nat, x: int) {
    i < |arms| && exists k :: 0 <= k < |arms[i]| && Labels(arms[i][k], x)
  }

  ghost predicate ArmDefault(arms: Arms, i: nat) {
    i < |arms| && exists k :: 0 <= k < |arms[i]| && arms[i][k].Default?
  }

  /** In a union that is accepted every number labels at most one arm, and at most one arm is the default. */
  lemma CleanUnionIsDeterministic(arms: Arms, d: Discriminator)
    requires Accepted(arms, d)
    ensures forall x, i: nat, j: nat :: ArmLabelled(arms, i, x) && ArmLabelled(arms, j, x) ==> i == j
    ensures forall i: nat, j: nat :: ArmDefault(arms, i) && ArmDefault(arms, j) ==> i == j
  {
    forall x, i: nat, j: nat | ArmLabelled(arms, i, x) && ArmLabelled(arms, j, x)
      ensures i == j
    {
      var k :| 0 <= k < |arms[i]| && Labels(arms[i][k], x);
      var m :| 0 <= m < |arms[j]| && Labels(arms[j][m], x);
      var p, q := Place(i, k), Place(j, m);
      assert CheckLabel(At(arms, p), d) == NoError && CheckLabel(At(arms, q), d) == NoError;
      assert Valid(arms, p) && Valid(arms, q) && Collide(At(arms, p), At(arms, q)) && Collide(At(arms, q), At(arms, p));
    }
    forall i: nat, j: nat | ArmDefault(arms, i) && ArmDefault(arms, j)
      ensures i == j
    {
      var k :| 0 <= k < |arms[i]| && arms[i][k].Default?;
      var m :| 0 <= m < |arms[j]| && arms[j][m].Default?;
      var p, q := Place(i, k), Place(j, m);
      assert Valid(arms, p) && Valid(arms, q) && Collide(At(arms, p), At(arms, q)) && Collide(At(arms, q), At(arms, p));
    }
  }

  /** The label check is needed: `case 1` and `case '\001'` do not collide, and 1 labels both. */
  lemma KindsMatter(arms: Arms)
    requires arms == [[Case(IntValue(1, false, 0))], [Case(CharValue(1))]]
    ensures !SomeCollision(arms) && ArmLabelled(arms, 0, 1) && ArmLabelled(arms, 1, 1)
  {
    assert Labels(arms[0][0], 1) && Labels(arms[1][0], 1);
  }
}
