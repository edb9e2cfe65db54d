/**
  International characters: the checks that tie an operation's [cs_char] data to its codeset tag
  parameters, and what an operation that passes them is known to have.
*/
module Codesets {
  import opened Utils

  /** `Composite` stands for structures, unions, arrays and pipes: the types of their parts. */
  datatype Kind =
    | PointerKind(pointee: Type)
    | Composite(parts: seq<Type>)
    | LongUnsignedKind | VoidKind | FunctionKind | OtherKind

  /**
    `csChar`: the type is itself [cs_char]; `definedAs`: the named type that a typedef made it from;
    `str`: it carries [string]; `text`: it is a string type by its shape.
  */
  datatype Type = Type(kind: Kind, csChar: bool, definedAs: Option<Type>, str: bool, text: bool)

  datatype Tag = Stag | Drtag | Rtag

  datatype Parameter = Parameter(
    ty: Type, isIn: bool, isOut: bool, tags: set<Tag>, isRef: bool, sized: bool, str: bool)

  /** The result is a parameter that follows the others; it has no tags. */
  datatype Operation = Operation(parameters: seq<Parameter>, result: Type)

  // ----- containment, as the propagation computes it before anything is checked -----

  /** What a type passes up to the types that contain it. */
  predicate Holds(t: Type)
    decreases t, 1
  {
    t.csChar || Contains(t)
  }

  predicate Contains(t: Type)
    decreases t, 0
  {
    match t.kind
    case PointerKind(u) => Holds(u)
    case Composite(parts) => exists i :: 0 <= i < |parts| && Holds(parts[i])
    case _ => false
  }

  /** A typedef of a [cs_char] type.  It is flagged, but passes nothing up. */
  predicate Synonym(t: Type) {
    t.definedAs.Some? && t.definedAs.value.csChar
  }

  /** What the checks go by: the type is [cs_char], or has the containment flag. */
  predicate Carries(t: Type) {
    t.csChar || Contains(t) || Synonym(t)
  }

  /** `k` steps into a type, through pointers and parts, lead to one that is itself [cs_char]. */
  ghost predicate DataAt(t: Type, k: nat)
    decreases k
  {
    if k == 0 then t.csChar
    else match t.kind
      case PointerKind(u) => DataAt(u, k - 1)
      case Composite(parts) => exists i :: 0 <= i < |parts| && DataAt(parts[i], k - 1)
      case _ => false
  }

  lemma {:induction false} HeldSomewhere(t: Type)
    ensures Holds(t) <==> exists k: nat :: DataAt(t, k)
    decreases t
  {
    if t.csChar {
      assert DataAt(t, 0);
    }
    match t.kind {
      case PointerKind(u) =>
        HeldSomewhere(u);
        if k: nat :| DataAt(u, k) {
          assert DataAt(t, k + 1);
        }
        if k: nat :| DataAt(t, k) && k > 0 {
          assert DataAt(u, k - 1);
        }
      case Composite(parts) =>
        forall i | 0 <= i < |parts|
          ensures Holds(parts[i]) <==> exists k: nat :: DataAt(parts[i], k)
        {
          HeldSomewhere(parts[i]);
        }
        if i, k: nat :| 0 <= i < |parts| && DataAt(parts[i], k) {
          assert DataAt(t, k + 1);
        }
        if k: nat :| DataAt(t, k) && k > 0 {
          var i :| 0 <= i < |parts| && DataAt(parts[i], k - 1);
          assert Holds(parts[i]);
        }
      case _ =>
    }
  }

  /** A type counts as data exactly if it is [cs_char], has such a type at any depth behind pointers or among
      parts, or is a typedef of one. */
  lemma CarriesIff(t: Type)
    ensures Carries(t) <==> (exists k: nat :: DataAt(t, k)) || (t.definedAs.Some? && t.definedAs.value.csChar)
  {
    HeldSomewhere(t);
  }

  /** PROP_type_info, as far as [cs_char] goes: `up` is the flag in its context, passed on through the type. */
  method Propagate(t: Type, up: bool) returns (up': bool, flagged: bool)
    ensures up' <==> up || Holds(t)
    ensures flagged <==> up || Contains(t) || Synonym(t)
    decreases t
  {
    up' := up;
    match t.kind {
      case PointerKind(u) =>
        var pointee, _ := Propagate(u, up);
        up' := pointee;
      case Composite(parts) =>
        for i := 0 to |parts|
          invariant up' <==> up || exists j :: 0 <= j < i && Holds(parts[j])
        {
          // every part starts from the context of the whole
          var part, _ := Propagate(parts[i], up);
          up' := up' || part;
        }
      case _ =>
    }
    flagged := up' || (t.definedAs.Some? && t.definedAs.value.csChar);
    if t.csChar {
      up' := true;
    }
  }

  function At(op: Operation, k: nat): Parameter
    requires k <= |op.parameters|
  {
    if k < |op.parameters| then op.parameters[k]
    else Parameter(op.result, false, !op.result.kind.VoidKind?, {}, false, false, false)
  }

  /** The type behind a pointer that only says the parameter is passed by reference. */
  function Followed(op: Operation, k: nat): Type
    requires k <= |op.parameters|
  {
    var p := At(op, k);
    if || !p.ty.kind.PointerKind?
       || k == |op.parameters|
       || p.ty.kind.pointee.kind.VoidKind?
       || p.ty.kind.pointee.kind.FunctionKind?
       || !p.isRef
       || p.sized
       || ((p.ty.str || p.str) && p.ty.text)
    then p.ty
    else p.ty.kind.pointee
  }

  /** The pointer of a [ref] parameter is looked through, unless it is an array, a string, or leads to void or to
      a function; any other parameter, and the result, is taken as it is. */
  lemma FollowedRules(op: Operation, k: nat)
    requires k <= |op.parameters|
    ensures k == |op.parameters| ==> Followed(op, k) == op.result
    ensures k < |op.parameters| && !op.parameters[k].ty.kind.PointerKind? ==> Followed(op, k) == op.parameters[k].ty
    ensures k < |op.parameters| && op.parameters[k].ty.kind.PointerKind? ==>
      var p := op.parameters[k];
      var u := p.ty.kind.pointee;
      Followed(op, k) ==
        if p.isRef && !p.sized && !u.kind.VoidKind? && !u.kind.FunctionKind? && !(p.ty.text && (p.ty.str || p.str)) then u
        else p.ty
  {
  }

  predicate InData(op: Operation, k: nat)
    requires k <= |op.parameters|
  {
    At(op, k).isIn && Carries(Followed(op, k))
  }

  predicate OutData(op: Operation, k: nat)
    requires k <= |op.parameters|
  {
    At(op, k).isOut && Carries(Followed(op, k))
  }

  predicate Tagged(op: Operation, k: nat, tag: Tag) {
    k < |op.parameters| && tag in op.parameters[k].tags
  }

  datatype Error =
    | NoTag(tag: Tag)          // data that needs a tag parameter, and there is none
    | Direction(tag: Tag)      // a tag parameter without the direction it needs
    | Late(tag: Tag)           // a tag parameter after data it describes
    | TagType                  // a tag parameter that is no unsigned long
    | Duplicate(tag: Tag)

  /** The direction a tag parameter must have. */
  predicate Directed(p: Parameter, tag: Tag) {
    if tag == Rtag then p.isOut else p.isIn
  }

  /** Declared data of the direction a tag describes; the receiving tag describes none. */
  predicate Describes(tag: Tag, p: Parameter) {
    Carries(p.ty) && ((tag == Stag && p.isIn) || (tag == Rtag && p.isOut))
  }

  // What an operation without errors satisfies.

  ghost predicate AtMostOne(op: Operation, tag: Tag) {
    forall i, j :: Tagged(op, i, tag) && Tagged(op, j, tag) ==> i == j
  }

  ghost predicate GoodTag(op: Operation, k: nat, tag: Tag)
    requires k < |op.parameters|
  {
    && Directed(op.parameters[k], tag)
    && Followed(op, k).kind.LongUnsignedKind?
    && forall j :: 0 <= j < k ==> !Describes(tag, op.parameters[j])
  }

  ghost predicate HasTag(op: Operation, tag: Tag) {
    exists s :: Tagged(op, s, tag)
  }

  ghost predicate GoodParameter(op: Operation, k: nat)
    requires k <= |op.parameters|
  {
    && (InData(op, k) ==> HasTag(op, Stag))
    && (OutData(op, k) ==> HasTag(op, Rtag))
    && forall tag :: Tagged(op, k, tag) ==> GoodTag(op, k, tag)
  }

  ghost predicate Clean(op: Operation) {
    && (forall tag :: AtMostOne(op, tag))
    && forall k :: 0 <= k <= |op.parameters| ==> GoodParameter(op, k)
  }

  /** Every tag parameter is an unsigned long, [out] if it is cs_rtag and [in] if not, and there is one of a kind. */
  ghost predicate TagsAlone(op: Operation) {
    && (forall i: nat, j: nat, tag :: Tagged(op, i, tag) && Tagged(op, j, tag) ==> i == j)
    && (forall i: nat, tag :: Tagged(op, i, tag) ==>
          && Followed(op, i).kind.LongUnsignedKind?
          && if tag == Rtag then op.parameters[i].isOut else op.parameters[i].isIn)
  }

  /** No data is declared before its tag. */
  ghost predicate TagsFirst(op: Operation) {
    && (forall i: nat, j: nat :: Tagged(op, i, Stag) && j < i && op.parameters[j].isIn ==> !Carries(op.parameters[j].ty))
    && (forall i: nat, j: nat :: Tagged(op, i, Rtag) && j < i && op.parameters[j].isOut ==> !Carries(op.parameters[j].ty))
  }

  /** All data has a tag, the result included. */
  ghost predicate TagsForData(op: Operation) {
    && (forall k: nat :: k < |op.parameters| && op.parameters[k].isIn && Carries(Followed(op, k)) ==>
          exists s: nat :: Tagged(op, s, Stag))
    && (forall k: nat :: k < |op.parameters| && op.parameters[k].isOut && Carries(Followed(op, k)) ==>
          exists s: nat :: Tagged(op, s, Rtag))
    && (!op.result.kind.VoidKind? && Carries(op.result) ==> exists s: nat :: Tagged(op, s, Rtag))
  }

  /** What a clean operation is, in so many words. */
  lemma CleanMeans(op: Operation)
    ensures Clean(op) <==> TagsAlone(op) && TagsFirst(op) && TagsForData(op)
  {
    if Clean(op) {
      CleanGives(op);
    }
    if TagsAlone(op) && TagsFirst(op) && TagsForData(op) {
      WordsGiveClean(op);
    }
  }

  lemma CleanGives(op: Operation)
    requires Clean(op)
    ensures TagsAlone(op) && TagsFirst(op) && TagsForData(op)
  {
    hide Carries, Followed;
    FollowedRules(op, |op.parameters|);
    forall i: nat, tag | Tagged(op, i, tag)
      ensures GoodTag(op, i, tag)
    {
      assert GoodParameter(op, i);
    }
    forall i: nat, j: nat, tag | Tagged(op, i, tag) && j < i
      ensures !Describes(tag, op.parameters[j])
    {
      assert GoodTag(op, i, tag);
    }
    forall k: nat | k <= |op.parameters|
      ensures InData(op, k) ==> exists s: nat :: Tagged(op, s, Stag)
      ensures OutData(op, k) ==> exists s: nat :: Tagged(op, s, Rtag)
    {
      assert GoodParameter(op, k);
    }
    assert OutData(op, |op.parameters|) <==> !op.result.kind.VoidKind? && Carries(op.result);
    forall k: nat | k < |op.parameters|
      ensures op.parameters[k].isIn && Carries(Followed(op, k)) <==> InData(op, k)
      ensures op.parameters[k].isOut && Carries(Followed(op, k)) <==> OutData(op, k)
    {
    }
    forall i: nat, j: nat, tag | Tagged(op, i, tag) && Tagged(op, j, tag)
      ensures i == j
    {
      assert AtMostOne(op, tag);
    }
  }

  lemma WordsGiveClean(op: Operation)
    requires TagsAlone(op) && TagsFirst(op) && TagsForData(op)
    ensures Clean(op)
  {
    hide Carries, Followed;
    FollowedRules(op, |op.parameters|);
    forall k | 0 <= k <= |op.parameters|
      ensures GoodParameter(op, k)
    {
      forall tag | Tagged(op, k, tag)
        ensures GoodTag(op, k, tag)
      {
        forall j | 0 <= j < k
          ensures !Describes(tag, op.parameters[j])
        {
        }
      }
    }
  }

  // The checks

  method FindTag(op: Operation, tag: Tag) returns (found: bool)
    ensures found <==> HasTag(op, tag)
  {
    var i := 0;
    while i < |op.parameters| && tag !in op.parameters[i].tags
      invariant 0 <= i <= |op.parameters|
      invariant forall j :: 0 <= j < i ==> !Tagged(op, j, tag)
    {
      i := i + 1;
    }
    found := i < |op.parameters|;
    assert found ==> Tagged(op, i, tag);
  }

  method FindEarlierData(op: Operation, k: nat, tag: Tag) returns (found: bool)
    requires k < |op.parameters|
    ensures found <==> Preceded(op, k, tag)
  {
    var i := 0;
    while i != k && !Describes(tag, op.parameters[i])
      invariant 0 <= i <= k
      invariant forall j :: 0 <= j < i ==> !Describes(tag, op.parameters[j])
    {
      i := i + 1;
    }
    found := i != k;
  }

  function If(b: bool, e: Error): seq<Error> {
    if b then [e] else []
  }

  ghost predicate Preceded(op: Operation, k: nat, tag: Tag) {
    k < |op.parameters| && exists j :: 0 <= j < k && Describes(tag, op.parameters[j])
  }

  // The errors due to one parameter, in the order in which they are reported.

  ghost function Absences(op: Operation, k: nat): seq<Error>
    requires k <= |op.parameters|
  {
    If(InData(op, k) && !HasTag(op, Stag), NoTag(Stag)) + If(OutData(op, k) && !HasTag(op, Rtag), NoTag(Rtag))
  }

  function Misdirections(op: Operation, k: nat): seq<Error>
    requires k <= |op.parameters|
  {
    If(Tagged(op, k, Stag) && !At(op, k).isIn, Direction(Stag))
    + If(Tagged(op, k, Drtag) && !At(op, k).isIn, Direction(Drtag))
    + If(Tagged(op, k, Rtag) && !At(op, k).isOut, Direction(Rtag))
  }

  ghost function Misplacements(op: Operation, k: nat): seq<Error> {
    If(Tagged(op, k, Stag) && Preceded(op, k, Stag), Late(Stag))
    + If(Tagged(op, k, Rtag) && Preceded(op, k, Rtag), Late(Rtag))
  }

  function Mistypings(op: Operation, k: nat): seq<Error>
    requires k <= |op.parameters|
  {
    If(At(op, k).tags != {} && !Followed(op, k).kind.LongUnsignedKind?, TagType)
  }

  ghost function Faults(op: Operation, k: nat): seq<Error>
    requires k <= |op.parameters|
  {
    Absences(op, k) + Misdirections(op, k) + Misplacements(op, k) + Mistypings(op, k)
  }

  lemma Absent(op: Operation, k: nat, x: Error)
    requires k <= |op.parameters|
    ensures x in Absences(op, k) <==>
      || (x == NoTag(Stag) && InData(op, k) && !HasTag(op, Stag))
      || (x == NoTag(Rtag) && OutData(op, k) && !HasTag(op, Rtag))
  {
    hide InData, OutData, HasTag;
  }

  lemma Misdirected(op: Operation, k: nat, x: Error)
    requires k <= |op.parameters|
    ensures x in Misdirections(op, k) <==>
      || (x == Direction(Stag) && Tagged(op, k, Stag) && !At(op, k).isIn)
      || (x == Direction(Drtag) && Tagged(op, k, Drtag) && !At(op, k).isIn)
      || (x == Direction(Rtag) && Tagged(op, k, Rtag) && !At(op, k).isOut)
  {
    hide Tagged, At;
  }

  lemma Misplaced(op: Operation, k: nat, x: Error)
    ensures x in Misplacements(op, k) <==>
      || (x == Late(Stag) && Tagged(op, k, Stag) && Preceded(op, k, Stag))
      || (x == Late(Rtag) && Tagged(op, k, Rtag) && Preceded(op, k, Rtag))
  {
    hide Tagged, Preceded;
  }

  lemma Found(op: Operation, k: nat, x: Error)
    requires k <= |op.parameters|
    ensures x in Faults(op, k) <==>
      x in Absences(op, k) || x in Misdirections(op, k) || x in Misplacements(op, k) || x in Mistypings(op, k)
  {
    hide Absences, Misdirections, Misplacements, Mistypings;
  }

  /** An error due to a parameter, or to the result. */
  ghost predicate Faulty(op: Operation, k: nat, x: Error)
    requires k <= |op.parameters|
  {
    match x
    case NoTag(tag) =>
      && Carries(Followed(op, k))
      && (if k == |op.parameters| then tag == Rtag && !op.result.kind.VoidKind?
          else (tag == Stag && op.parameters[k].isIn) || (tag == Rtag && op.parameters[k].isOut))
      && forall s: nat :: !Tagged(op, s, tag)
    case Direction(tag) =>
      Tagged(op, k, tag) && !if tag == Rtag then op.parameters[k].isOut else op.parameters[k].isIn
    case Late(tag) =>
      && Tagged(op, k, tag)
      && exists j ::
        && 0 <= j < k
        && Carries(op.parameters[j].ty)
        && ((tag == Stag && op.parameters[j].isIn) || (tag == Rtag && op.parameters[j].isOut))
    case TagType =>
      k < |op.parameters| && op.parameters[k].tags != {} && !Followed(op, k).kind.LongUnsignedKind?
    case Duplicate(_) => false
  }

  /** Which errors a parameter, or the result, gives. */
  lemma FaultRules(op: Operation, k: nat, x: Error)
    requires k <= |op.parameters|
    ensures x in Faults(op, k) <==> Faulty(op, k, x)
  {
    hide Absences, Misdirections, Misplacements, Faults, Carries, Followed;
    Found(op, k, x);
    Absent(op, k, x);
    Misdirected(op, k, x);
    Misplaced(op, k, x);
  }

  lemma FaultlessIsGood(op: Operation, k: nat)
    requires k <= |op.parameters|
    ensures Faults(op, k) == [] <==> GoodParameter(op, k)
  {
    hide Followed, Carries, Describes, HasTag;
    if k < |op.parameters| {
      GoodTagIsFaultless(op, k, Stag);
      GoodTagIsFaultless(op, k, Drtag);
      GoodTagIsFaultless(op, k, Rtag);
      TagCases(op.parameters[k].tags);
      assert (forall tag :: Tagged(op, k, tag) ==> GoodTag(op, k, tag)) <==>
        && (Tagged(op, k, Stag) ==> GoodTag(op, k, Stag))
        && (Tagged(op, k, Drtag) ==> GoodTag(op, k, Drtag))
        && (Tagged(op, k, Rtag) ==> GoodTag(op, k, Rtag)) by {
        if tag :| Tagged(op, k, tag) && !GoodTag(op, k, tag) {
          assert tag.Stag? || tag.Drtag? || tag.Rtag?;
        }
      }
    }
  }

  lemma GoodTagIsFaultless(op: Operation, k: nat, tag: Tag)
    requires k < |op.parameters|
    ensures GoodTag(op, k, tag) <==>
      && Directed(op.parameters[k], tag) && (tag == Drtag || !Preceded(op, k, tag))
      && Followed(op, k).kind.LongUnsignedKind?
  {
  }

  lemma TagCases(tags: set<Tag>)
    ensures tags != {} <==> Stag in tags || Drtag in tags || Rtag in tags
  {
    if tag :| tag in tags {
      assert tag.Stag? || tag.Drtag? || tag.Rtag?;
    }
  }

  method CheckPresence(op: Operation, k: nat) returns (errors: seq<Error>)
    requires k <= |op.parameters|
    ensures errors == Absences(op, k)
  {
    var p, t := At(op, k), Followed(op, k);
    errors := [];
    if p.isIn && Carries(t) {
      var found := FindTag(op, Stag);
      if !found {
        errors := errors + [NoTag(Stag)];
      }
    }
    if p.isOut && Carries(t) {
      var found := FindTag(op, Rtag);
      if !found {
        errors := errors + [NoTag(Rtag)];
      }
    }
  }

  method CheckDirections(op: Operation, k: nat) returns (errors: seq<Error>)
    requires k <= |op.parameters|
    ensures errors == Misdirections(op, k)
  {
    var p := At(op, k);
    errors := [];
    if Stag in p.tags && !p.isIn {
      errors := errors + [Direction(Stag)];
    }
    if Drtag in p.tags && !p.isIn {
      errors := errors + [Direction(Drtag)];
    }
    if Rtag in p.tags && !p.isOut {
      errors := errors + [Direction(Rtag)];
    }
  }

  method CheckOrder(op: Operation, k: nat) returns (errors: seq<Error>)
    requires k <= |op.parameters|
    ensures errors == Misplacements(op, k)
  {
    var p := At(op, k);
    errors := [];
    if Stag in p.tags {
      var found := FindEarlierData(op, k, Stag);
      if found {
        errors := errors + [Late(Stag)];
      }
    }
    if Rtag in p.tags {
      var found := FindEarlierData(op, k, Rtag);
      if found {
        errors := errors + [Late(Rtag)];
      }
    }
  }

  /** The tag checks on one parameter, or on the result. */
  method CheckParameter(op: Operation, k: nat) returns (errors: seq<Error>)
    requires k <= |op.parameters|
    ensures errors == Faults(op, k)
  {
    var presence := CheckPresence(op, k);
    var directions := CheckDirections(op, k);
    var order := CheckOrder(op, k);
    errors := presence + directions + order;
    var p, t := At(op, k), Followed(op, k);
    TagCases(p.tags);
    if (Stag in p.tags || Drtag in p.tags || Rtag in p.tags) && !t.kind.LongUnsignedKind? {
      errors := errors + [TagType];
    }
  }

  function Count(ps: seq<Parameter>, tag: Tag): nat {
    if ps == [] then 0 else Count(ps[..|ps| - 1], tag) + (if tag in ps[|ps| - 1].tags then 1 else 0)
  }

  lemma {:induction false} CountIsAtMostOne(op: Operation, tag: Tag)
    ensures Count(op.parameters, tag) == 0 <==> !HasTag(op, tag)
    ensures Count(op.parameters, tag) <= 1 <==> AtMostOne(op, tag)
    decreases |op.parameters|
  {
    var ps := op.parameters;
    if ps == [] {
      assert !HasTag(op, tag);
    } else {
      var n := |ps| - 1;
      var init := Operation(ps[..n], op.result);
      CountIsAtMostOne(init, tag);
      assert forall i :: Tagged(op, i, tag) <==> Tagged(init, i, tag) || (i == n && tag in ps[n].tags);
      if tag in ps[n].tags {
        assert Tagged(op, n, tag);
      }
    }
  }

  /** The checks on the operation: no tag is given twice. */
  method CheckTags(op: Operation) returns (errors: seq<Error>)
    ensures forall tag :: AtMostOne(op, tag) <==> Duplicate(tag) !in errors
    ensures forall e :: e in errors ==> e.Duplicate?
  {
    var s, d, r := 0, 0, 0;
    for i := 0 to |op.parameters|
      invariant s == Count(op.parameters[..i], Stag)
      invariant d == Count(op.parameters[..i], Drtag)
      invariant r == Count(op.parameters[..i], Rtag)
    {
      assert op.parameters[..i + 1][..i] == op.parameters[..i];
      if Stag in op.parameters[i].tags {
        s := s + 1;
      }
      if Drtag in op.parameters[i].tags {
        d := d + 1;
      }
      if Rtag in op.parameters[i].tags {
        r := r + 1;
      }
    }
    assert op.parameters[..|op.parameters|] == op.parameters;
    errors := if s > 1 then [Duplicate(Stag)] else [];
    if d > 1 {
      errors := errors + [Duplicate(Drtag)];
    }
    if r > 1 {
      errors := errors + [Duplicate(Rtag)];
    }
    forall tag: Tag
      ensures AtMostOne(op, tag) <==> Duplicate(tag) !in errors
    {
      CountIsAtMostOne(op, tag);
      assert tag.Stag? || tag.Drtag? || tag.Rtag?;
    }
  }

  /** The whole check: the operation first, then each parameter, then the result. */
  method CheckOperation(op: Operation) returns (errors: seq<Error>)
    ensures errors == [] <==> Clean(op)
  {
    hide GoodParameter, AtMostOne, Faults;
    errors := CheckTags(op);
    assert errors == [] <==> forall tag :: AtMostOne(op, tag) by {
      assert errors != [] ==> errors[0] in errors && errors[0] == Duplicate(errors[0].tag);
    }
    for k := 0 to |op.parameters| + 1
      invariant errors == [] <==>
        (forall tag :: AtMostOne(op, tag)) && forall j :: 0 <= j < k ==> GoodParameter(op, j)
    {
      var more := CheckParameter(op, k);
      FaultlessIsGood(op, k);
      errors := errors + more;
    }
  }

  // What the absence of errors means

  /**
    With [in] data there is exactly one sending tag.  It is an [in] unsigned long, and no earlier
    [in] parameter is declared with a type that carries such data.
  */
  lemma InDataIsTagged(op: Operation, k: nat) returns (s: nat)
    requires Clean(op) && k <= |op.parameters| && InData(op, k)
    ensures forall i :: Tagged(op, i, Stag) <==> i == s
    ensures s < |op.parameters| && op.parameters[s].isIn && Followed(op, s).kind.LongUnsignedKind?
    ensures forall j :: 0 <= j < s && op.parameters[j].isIn ==> !Carries(op.parameters[j].ty)
  {
    assert GoodParameter(op, k) && AtMostOne(op, Stag);
    s :| Tagged(op, s, Stag);
    assert GoodParameter(op, s) && GoodTag(op, s, Stag);
    forall j | 0 <= j < s && op.parameters[j].isIn
      ensures !Carries(op.parameters[j].ty)
    {
      assert !Describes(Stag, op.parameters[j]);
    }
  }

  /** The same for [out] data, the result included, and the returned tag. */
  lemma OutDataIsTagged(op: Operation, k: nat) returns (s: nat)
    requires Clean(op) && k <= |op.parameters| && OutData(op, k)
    ensures forall i :: Tagged(op, i, Rtag) <==> i == s
    ensures s < |op.parameters| && op.parameters[s].isOut && Followed(op, s).kind.LongUnsignedKind?
    ensures forall j :: 0 <= j < s && op.parameters[j].isOut ==> !Carries(op.parameters[j].ty)
  {
    assert GoodParameter(op, k) && AtMostOne(op, Rtag);
    s :| Tagged(op, s, Rtag);
    assert GoodParameter(op, s) && GoodTag(op, s, Rtag);
    forall j | 0 <= j < s && op.parameters[j].isOut
      ensures !Carries(op.parameters[j].ty)
    {
      assert !Describes(Rtag, op.parameters[j]);
    }
  }

  /** A parameter that points to a type which is data only by being a typedef of a [cs_char] type. */
  predicate BareSynonym(op: Operation, k: nat)
    requires k < |op.parameters|
  {
    Followed(op, k) != op.parameters[k].ty && Synonym(Followed(op, k)) && !Holds(Followed(op, k))
  }

  /** Data behind a parameter's pointer is data of the pointer, but for bare synonyms. */
  lemma DeclaredIsFollowed(op: Operation, k: nat)
    requires k < |op.parameters|
    ensures Carries(Followed(op, k)) && !Carries(op.parameters[k].ty) ==> BareSynonym(op, k)
    ensures BareSynonym(op, k) ==> Carries(Followed(op, k))
  {
    var t, f := op.parameters[k].ty, Followed(op, k);
    if t != f {
      assert t.kind == PointerKind(f) && (Holds(f) ==> Contains(t));
    }
  }

  /**
    The order check looks at declared types and the presence check at followed ones.  So the tag of
    an operation that passes precedes all data it describes, exactly unless an earlier [in]
    parameter is a pointer to a bare synonym.
  */
  lemma TagBeforeData(op: Operation, s: nat)
    requires Clean(op) && Tagged(op, s, Stag)
    ensures (forall k :: 0 <= k < s ==> !InData(op, k)) <==>
      (forall k :: 0 <= k < s && op.parameters[k].isIn ==> !BareSynonym(op, k))
  {
    assert GoodParameter(op, s) && GoodTag(op, s, Stag);
    forall k | 0 <= k < s && op.parameters[k].isIn
      ensures InData(op, k) <==> BareSynonym(op, k)
    {
      assert !Describes(Stag, op.parameters[k]);
      DeclaredIsFollowed(op, k);
    }
  }

  /** The same for [out] data and its tag; a result comes after every tag. */
  lemma ReturnedTagBeforeData(op: Operation, s: nat)
    requires Clean(op) && Tagged(op, s, Rtag)
    ensures (forall k :: 0 <= k < s ==> !OutData(op, k)) <==>
      (forall k :: 0 <= k < s && op.parameters[k].isOut ==> !BareSynonym(op, k))
  {
    assert GoodParameter(op, s) && GoodTag(op, s, Rtag);
    forall k | 0 <= k < s && op.parameters[k].isOut
      ensures OutData(op, k) <==> BareSynonym(op, k)
    {
      assert !Describes(Rtag, op.parameters[k]);
      DeclaredIsFollowed(op, k);
    }
  }

  /** No typedef of a [cs_char] type: then nothing can come before its tag. */
  lemma TagFirstWithoutSynonyms(op: Operation, s: nat, k: nat)
    requires Clean(op) && k < |op.parameters| && !Synonym(Followed(op, k))
    ensures Tagged(op, s, Stag) && InData(op, k) ==> s <= k
    ensures Tagged(op, s, Rtag) && OutData(op, k) ==> s <= k
  {
    DeclaredIsFollowed(op, k);
    if Tagged(op, s, Stag) || Tagged(op, s, Rtag) {
      assert GoodParameter(op, s);
      assert Tagged(op, s, Stag) ==> GoodTag(op, s, Stag);
      assert Tagged(op, s, Rtag) ==> GoodTag(op, s, Rtag);
      assert k < s && op.parameters[k].isIn && Tagged(op, s, Stag) ==> !Describes(Stag, op.parameters[k]);
      assert k < s && op.parameters[k].isOut && Tagged(op, s, Rtag) ==> !Describes(Rtag, op.parameters[k]);
    }
  }

  /**
    With `typedef byte b; typedef b c;` and b made [cs_char], the operation
    `f([in] c *data, [in, cs_stag] unsigned long tag)` passes, although its tag is after its data.
  */
  lemma TagAfterSynonym(op: Operation, b: Type, c: Type)
    requires b == Type(OtherKind, true, None, false, false)
    requires c == Type(OtherKind, false, Some(b), false, false)
    requires op.result == Type(VoidKind, false, None, false, false)
    requires op.parameters == [
      Parameter(Type(PointerKind(c), false, None, false, false), true, false, {}, true, false, false),
      Parameter(Type(LongUnsignedKind, false, None, false, false), true, false, {Stag}, false, false, false)]
    ensures Clean(op) && InData(op, 0) && Tagged(op, 1, Stag)
  {
    assert Tagged(op, 1, Stag);
    assert !Carries(op.parameters[0].ty) && Followed(op, 0) == c;
    forall tag
      ensures AtMostOne(op, tag)
    {
    }
    forall k | 0 <= k <= |op.parameters|
      ensures GoodParameter(op, k)
    {
      if k == 2 {
        assert !OutData(op, 2);
      }
    }
  }
}
