/**
  The text of an interface, read without a heap: any sequence of the actions by which the parser makes
  types; when it is acceptable, and the graph of types that it describes.
*/
module Texts {
  import opened TypeGraph
  import opened TypeNodes
  import opened Tags

  /** An action of the parser.  Types are referred to by the order in which they were made. */
  datatype Action =
    | UseTag(kind: Kind, id: nat)
    | DefineType(kind: Kind, id: nat, members: seq<int>)   // -1 for an empty arm
    | MakeTypedef(base: nat)                       // with a simple declarator
    | MakeTypedefWith(base: nat, ops: seq<Operator>)   // with pointers and arrays
    | DeriveFrom(kind: Kind, target: nat)
    | GiveArrayForm(pointer: nat)
    | MarkContextHandle(handle: nat)
    | MakeLeaf(kind: Kind)

  // ----- interfaces without a heap -----

  /** A type that was made: its kind, and the tag it stands for, if any. */
  datatype Made = Made(kind: Kind, tag: nat)

  datatype Summary = Summary(clash: bool, tags: map<nat, Tag>, made: seq<Made>)

  /** What the grammar allows after so many types. */
  predicate Grammatical(a: Action, made: seq<Made>) {
    match a
    case UseTag(kind, id) => Tagged(kind) && id != NIL_ID
    case DefineType(kind, _, members) =>
      && Tagged(kind)
      && (forall i :: 0 <= i < |members| ==> -1 <= members[i] < |made|)
      && (kind == Structure ==> -1 !in members)
    case MakeTypedef(base) => base < |made|
    case MakeTypedefWith(base, ops) =>
      base < |made| && ops != [] && forall op :: op in ops && op.PointerTo? ==> op.stars > 0
    case DeriveFrom(kind, target) => (kind == Pointer || kind == Array) && target < |made|
    case GiveArrayForm(pointer) => pointer < |made| && made[pointer].kind == Pointer
    case MarkContextHandle(handle) => handle < |made|
    case MakeLeaf(kind) => kind == Base || kind == Other
  }

  function Use(s: Summary, kind: Kind, id: nat): Summary {
    if id !in s.tags then s.(tags := s.tags[id := Tag(kind, false, false)])
    else s.(clash := s.clash || s.tags[id].kind != kind)
  }

  function Definition(s: Summary, kind: Kind, id: nat): Summary {
    if id == NIL_ID then s
    else if id !in s.tags then s.(tags := s.tags[id := Tag(kind, true, false)])
    else if s.tags[id].kind != kind || s.tags[id].defined then s.(clash := true)
    else s.(tags := s.tags[id := s.tags[id].(defined := true)])
  }

  function WithHandle(s: Summary, id: nat): Summary {
    if id in s.tags then s.(tags := s.tags[id := s.tags[id].(isHandle := true)]) else s
  }

  function Making(s: Summary, m: Made): Summary {
    s.(made := s.made + [m])
  }

  function Outermost(ops: seq<Operator>): Kind
    requires ops != []
  {
    if ops[|ops| - 1].ArrayOf? then Array else Pointer
  }

  function Effect(a: Action, s: Summary): Summary
    requires Grammatical(a, s.made)
  {
    match a
    case UseTag(kind, id) => Making(Use(s, kind, id), Made(kind, id))
    case DefineType(kind, id, _) => Making(Definition(s, kind, id), Made(kind, id))
    case MakeTypedef(base) => Making(s, s.made[base])
    case MakeTypedefWith(base, ops) => Making(s, Made(Outermost(ops), s.made[base].tag))   // it takes the tag along
    case DeriveFrom(kind, _) => Making(s, Made(kind, NIL_ID))
    case GiveArrayForm(_) => s
    case MarkContextHandle(handle) => WithHandle(s, s.made[handle].tag)
    case MakeLeaf(kind) => Making(s, Made(kind, NIL_ID))
  }

  /** The whole text. */
  function Summarise(actions: seq<Action>): Summary {
    if actions == [] then Summary(false, map[], [])
    else
      var s := Summarise(actions[..|actions| - 1]);
      var a := actions[|actions| - 1];
      if Grammatical(a, s.made) then Effect(a, s) else s
  }

  /** A text that follows the grammar. */
  predicate WellFormed(actions: seq<Action>) {
    actions == [] ||
    var init := actions[..|actions| - 1];
    WellFormed(init) && Grammatical(actions[|actions| - 1], Summarise(init).made)
  }

  lemma {:induction false} WellFormedPrefix(actions: seq<Action>, i: nat)
    requires WellFormed(actions) && i <= |actions|
    ensures WellFormed(actions[..i])
  {
    if i == |actions| {
      assert actions[..i] == actions;
    } else {
      WellFormedPrefix(actions[..|actions| - 1], i);
      assert actions[..|actions| - 1][..i] == actions[..i];
    }
  }

  /** No tag is of two kinds or defined twice, and each is defined or a struct that is a context handle. */
  predicate Acceptable(s: Summary) {
    !s.clash && forall id :: id in s.tags ==> s.tags[id].defined || (s.tags[id].kind == Structure && s.tags[id].isHandle)
  }

  // ----- what makes a text acceptable, said of the text itself -----

  /** The tag that an action mentions by name, and the one it marks as a context handle. */
  function Mentioned(a: Action): nat {
    match a
    case UseTag(_, id) => id
    case DefineType(_, id, _) => id
    case _ => NIL_ID
  }

  function Marked(a: Action, made: seq<Made>): nat {
    if a.MarkContextHandle? && a.handle < |made| then made[a.handle].tag else NIL_ID
  }

  ghost predicate MentionedIn(actions: seq<Action>, id: nat) {
    exists i :: 0 <= i < |actions| && Mentioned(actions[i]) == id
  }

  ghost predicate DefinedIn(actions: seq<Action>, id: nat) {
    exists i :: 0 <= i < |actions| && Mentioned(actions[i]) == id && actions[i].DefineType?
  }

  ghost predicate MarkedIn(actions: seq<Action>, id: nat) {
    exists i :: 0 <= i < |actions| && Marked(actions[i], Summarise(actions[..i]).made) == id
  }

  /** Two mentions of one tag name go together. */
  predicate Agree(a: Action, b: Action) {
    Mentioned(a) == Mentioned(b) != NIL_ID ==> a.kind == b.kind && !(a.DefineType? && b.DefineType?)
  }

  ghost predicate Consistent(actions: seq<Action>) {
    forall i, j :: 0 <= i < j < |actions| ==> Agree(actions[i], actions[j])
  }

  /** The summary of a consistent text tells what is in it. */
  ghost predicate Told(actions: seq<Action>, s: Summary) {
    && NIL_ID !in s.tags
    && (forall id :: id != NIL_ID ==>
          && (MentionedIn(actions, id) <==> id in s.tags)
          && (DefinedIn(actions, id) <==> id in s.tags && s.tags[id].defined)
          && (MarkedIn(actions, id) <==> id in s.tags && s.tags[id].isHandle))
    && (forall i :: 0 <= i < |actions| && Mentioned(actions[i]) in s.tags ==>
          actions[i].kind == s.tags[Mentioned(actions[i])].kind)
    && (forall m :: m in s.made ==> m.tag == NIL_ID || m.tag in s.tags)
  }

  lemma Append(actions: seq<Action>, a: Action, id: nat)
    ensures MentionedIn(actions + [a], id) <==> MentionedIn(actions, id) || Mentioned(a) == id
    ensures DefinedIn(actions + [a], id) <==> DefinedIn(actions, id) || (Mentioned(a) == id && a.DefineType?)
    ensures MarkedIn(actions + [a], id) <==> MarkedIn(actions, id) || Marked(a, Summarise(actions).made) == id
  {
    hide Summarise, Marked;
    var more := actions + [a];
    assert more[..|actions|] == actions;
    assert forall i :: 0 <= i < |actions| ==> more[i] == actions[i] && more[..i] == actions[..i];
    assert more[|actions|] == a;
    forall i | 0 <= i < |actions|
      ensures Mentioned(actions[i]) == id ==> MentionedIn(more, id)
      ensures Mentioned(actions[i]) == id && actions[i].DefineType? ==> DefinedIn(more, id)
      ensures Marked(actions[i], Summarise(actions[..i]).made) == id ==> MarkedIn(more, id)
    {
      assert more[i] == actions[i];
    }
  }

  lemma AppendConsistent(actions: seq<Action>, a: Action)
    ensures Consistent(actions + [a]) <==>
              Consistent(actions) && forall i :: 0 <= i < |actions| ==> Agree(actions[i], a)
  {
    var more := actions + [a];
    assert forall i :: 0 <= i < |actions| ==> more[i] == actions[i];
    assert more[|actions|] == a;
  }

  lemma StepClash(actions: seq<Action>, s: Summary, a: Action)
    requires Told(actions, s) && !s.clash && Grammatical(a, s.made)
    ensures Effect(a, s).clash <==> exists i :: 0 <= i < |actions| && !Agree(actions[i], a)
  {
    var id := Mentioned(a);
    if id in s.tags {
      var i :| 0 <= i < |actions| && Mentioned(actions[i]) == id;
      assert a.kind != s.tags[id].kind ==> !Agree(actions[i], a);
      if a.DefineType? && s.tags[id].defined {
        var j :| 0 <= j < |actions| && Mentioned(actions[j]) == id && actions[j].DefineType?;
        assert !Agree(actions[j], a);
      }
    }
    forall i | 0 <= i < |actions| && !Agree(actions[i], a)
      ensures Effect(a, s).clash
    {
      assert MentionedIn(actions, id);
      assert actions[i].DefineType? ==> DefinedIn(actions, id);
    }
  }

  /** What an action without a clash does to what is known of the tags. */
  lemma StepTags(s: Summary, a: Action, id: nat)
    requires Grammatical(a, s.made) && !Effect(a, s).clash && id != NIL_ID
    requires forall m :: m in s.made ==> m.tag == NIL_ID || m.tag in s.tags
    ensures var tags := Effect(a, s).tags;
            && (id in tags <==> id in s.tags || Mentioned(a) == id)
            && (id in tags && tags[id].defined <==>
                  (id in s.tags && s.tags[id].defined) || (Mentioned(a) == id && a.DefineType?))
            && (id in tags && tags[id].isHandle <==>
                  (id in s.tags && s.tags[id].isHandle) || Marked(a, s.made) == id)
            && (id in s.tags ==> tags[id].kind == s.tags[id].kind)
            && (Mentioned(a) == id ==> tags[id].kind == a.kind)
  {
  }

  /** The types made stand for tags that are known. */
  lemma StepMade(s: Summary, a: Action)
    requires Grammatical(a, s.made) && !Effect(a, s).clash && NIL_ID !in s.tags
    requires forall m :: m in s.made ==> m.tag == NIL_ID || m.tag in s.tags
    ensures NIL_ID !in Effect(a, s).tags
    ensures forall m :: m in Effect(a, s).made ==> m.tag == NIL_ID || m.tag in Effect(a, s).tags
  {
  }

  lemma StepTold(actions: seq<Action>, s: Summary, a: Action)
    requires Told(actions, s) && s == Summarise(actions) && Grammatical(a, s.made) && !Effect(a, s).clash
    ensures Told(actions + [a], Effect(a, s))
  {
    hide MentionedIn, DefinedIn, MarkedIn, Summarise, Effect, Marked, Grammatical;
    var more, s' := actions + [a], Effect(a, s);
    StepMade(s, a);
    forall id | id != NIL_ID
      ensures MentionedIn(more, id) <==> id in s'.tags
      ensures DefinedIn(more, id) <==> id in s'.tags && s'.tags[id].defined
      ensures MarkedIn(more, id) <==> id in s'.tags && s'.tags[id].isHandle
    {
      Append(actions, a, id);
      StepTags(s, a, id);
    }
    forall i | 0 <= i < |more| && Mentioned(more[i]) in s'.tags
      ensures more[i].kind == s'.tags[Mentioned(more[i])].kind
    {
      StepTags(s, a, Mentioned(more[i]));
      if i < |actions| {
        Mention(actions, i);
      }
    }
  }

  lemma Mention(actions: seq<Action>, i: nat)
    requires i < |actions|
    ensures MentionedIn(actions, Mentioned(actions[i]))
  {
  }

  /** A text has no clash exactly if its mentions of tags agree, and then its summary tells what is in it. */
  lemma {:induction false} TextRules(actions: seq<Action>)
    requires WellFormed(actions)
    ensures !Summarise(actions).clash <==> Consistent(actions)
    ensures !Summarise(actions).clash ==> Told(actions, Summarise(actions))
  {
    if actions == [] {
    } else {
      hide Told, Consistent, Effect, Agree;
      var n := |actions| - 1;
      var init, a := actions[..n], actions[n];
      TextRules(init);
      assert init + [a] == actions;
      AppendConsistent(init, a);
      var s := Summarise(init);
      if s.clash {
        ClashStays(a, s);
      } else {
        StepClash(init, s, a);
        if !Effect(a, s).clash {
          StepTold(init, s, a);
        }
      }
    }
  }

  lemma ClashStays(a: Action, s: Summary)
    requires s.clash && Grammatical(a, s.made)
    ensures Effect(a, s).clash
  {
  }

  /**
    What makes a text acceptable: no tag is mentioned with two kinds or defined twice, and every tag
    mentioned is defined somewhere, or is a struct and marked as a context handle somewhere.
  */
  lemma AcceptableText(actions: seq<Action>)
    requires WellFormed(actions)
    ensures Acceptable(Summarise(actions)) <==>
      && Consistent(actions)
      && forall i :: 0 <= i < |actions| && Mentioned(actions[i]) != NIL_ID ==>
           || DefinedIn(actions, Mentioned(actions[i]))
           || (actions[i].kind == Structure && MarkedIn(actions, Mentioned(actions[i])))
  {
    hide Summarise, Consistent, MentionedIn, DefinedIn, MarkedIn;
    TextRules(actions);
    var s := Summarise(actions);
    if !s.clash {
      forall i | 0 <= i < |actions|
        ensures MentionedIn(actions, Mentioned(actions[i]))
      {
        Mention(actions, i);
      }
      forall id | id in s.tags
        ensures exists i :: 0 <= i < |actions| && Mentioned(actions[i]) == id
      {
        Mentioner(actions, id);
      }
    }
  }

  lemma Mentioner(actions: seq<Action>, id: nat)
    requires MentionedIn(actions, id)
    ensures exists i :: 0 <= i < |actions| && Mentioned(actions[i]) == id
  {
  }

  /**
    `typedef [context_handle] struct foo *foo_h;` with foo never defined is accepted: the attribute
    reaches the tag through the pointer.  Without the attribute it is not.
  */
  lemma OpaqueHandleAccepted(text: seq<Action>)
    requires text == [UseTag(Structure, 1), MakeTypedefWith(0, [PointerTo(1)]), MarkContextHandle(1)]
    ensures WellFormed(text) && Acceptable(Summarise(text))
    ensures WellFormed(text[..2]) && !Acceptable(Summarise(text[..2]))
  {
    var a, b, c := UseTag(Structure, 1), MakeTypedefWith(0, [PointerTo(1)]), MarkContextHandle(1);
    var s1 := Summary(false, map[1 := Tag(Structure, false, false)], [Made(Structure, 1)]);
    var s2 := Making(s1, Made(Pointer, 1));
    HandleSteps(a, b, c, s1, s2);
    hide Summarise, WellFormed, Effect, Grammatical;
    assert [] + [a] == [a] && [a] + [b] == [a, b] == text[..2] && [a, b] + [c] == text;
    EmptyText();
    MoreText([], a);
    MoreText([a], b);
    MoreText([a, b], c);
  }

  lemma HandleSteps(a: Action, b: Action, c: Action, s1: Summary, s2: Summary)
    requires a == UseTag(Structure, 1) && b == MakeTypedefWith(0, [PointerTo(1)]) && c == MarkContextHandle(1)
    requires s1 == Summary(false, map[1 := Tag(Structure, false, false)], [Made(Structure, 1)])
    requires s2 == Making(s1, Made(Pointer, 1))
    ensures Grammatical(a, []) && Effect(a, Summary(false, map[], [])) == s1
    ensures Grammatical(b, s1.made) && Effect(b, s1) == s2
    ensures Grammatical(c, s2.made) && Effect(c, s2) == WithHandle(s2, 1)
  {
  }

  lemma EmptyText()
    ensures WellFormed([]) && Summarise([]) == Summary(false, map[], [])
  {
  }

  lemma MoreText(text: seq<Action>, a: Action)
    requires WellFormed(text) && Grammatical(a, Summarise(text).made)
    ensures WellFormed(text + [a]) && Summarise(text + [a]) == Effect(a, Summarise(text))
  {
    assert (text + [a])[..|text|] == text;
  }

  // ----- the graph that a text describes -----

  /** What a type that was made leads to, by the order in which types were made: nothing, one type, the types
      of fields or arms, or whatever a tag is defined to lead to. */
  datatype Shape = Ends | OneType(inner: nat) | Fields(members: seq<int>) | OfTag(id: nat)

  /** `names`: the types that a typedef made; `forms`: the pointers whose pointee was given an array form. */
  datatype Outline = Outline(shapes: seq<Shape>, definitions: map<nat, seq<int>>, names: set<nat>, forms: set<nat>)

  const NO_OUTLINE := Outline([], map[], {}, {})

  function Shapes(o: Outline, shape: Shape): Outline {
    o.(shapes := o.shapes + [shape])
  }

  function Naming(o: Outline, shape: Shape): Outline {
    o.(shapes := o.shapes + [shape], names := o.names + {|o.shapes|})
  }

  function Draw(o: Outline, a: Action): Outline {
    match a
    case UseTag(_, id) => Shapes(o, OfTag(id))
    case DefineType(_, id, members) =>
      if id == NIL_ID then Shapes(o, Fields(members))
      else Shapes(o.(definitions := o.definitions[id := members]), OfTag(id))
    case MakeTypedef(base) => if base < |o.shapes| then Naming(o, o.shapes[base]) else o
    case MakeTypedefWith(base, _) => Naming(o, OneType(base))
    case DeriveFrom(_, target) => Shapes(o, OneType(target))
    case GiveArrayForm(pointer) => o.(forms := o.forms + {pointer})
    case MarkContextHandle(_) => o
    case MakeLeaf(_) => Shapes(o, Ends)
  }

  function OutlineOf(actions: seq<Action>): Outline {
    if actions == [] then NO_OUTLINE
    else Draw(OutlineOf(actions[..|actions| - 1]), actions[|actions| - 1])
  }

  /** The types among members; an empty arm has none. */
  function Types(members: seq<int>): seq<nat> {
    if members == [] then []
    else (if members[0] >= 0 then [members[0]] else []) + Types(members[1..])
  }

  function NextTypes(o: Outline, i: nat): seq<nat>
    requires i < |o.shapes|
  {
    match o.shapes[i]
    case Ends => []
    case OneType(inner) => [inner]
    case Fields(members) => Types(members)
    case OfTag(id) => if id in o.definitions then Types(o.definitions[id]) else []
  }

  ghost function TextGraph(o: Outline): Graph<nat> {
    map i: nat | i < |o.shapes| :: NextTypes(o, i)
  }

  lemma MoreOutline(text: seq<Action>, a: Action)
    ensures OutlineOf([]) == NO_OUTLINE && OutlineOf(text + [a]) == Draw(OutlineOf(text), a)
  {
    assert (text + [a])[..|text|] == text;
  }

  /** The types of the members, in order, empty arms left out. */
  lemma {:induction false} TypesLaw(members: seq<int>, more: seq<int>, t: nat)
    ensures Types([]) == [] && Types([-1]) == [] && Types([t]) == [t]
    ensures Types(members + more) == Types(members) + Types(more)
  {
    assert [-1][1..] == [] && [t as int][1..] == [];
    if members == [] {
      assert members + more == more;
    } else {
      TypesLaw(members[1..], more, t);
      assert (members + more)[1..] == members[1..] + more;
    }
  }

  /** The place of the type that the `j`th action makes. */
  function PlaceOf(actions: seq<Action>, j: nat): nat
    requires j <= |actions|
  {
    |Summarise(actions[..j]).made|
  }

  lemma LastAction(actions: seq<Action>)
    requires WellFormed(actions) && actions != []
    ensures var n := |actions| - 1;
            && WellFormed(actions[..n]) && Grammatical(actions[n], Summarise(actions[..n]).made)
            && Summarise(actions) == Effect(actions[n], Summarise(actions[..n]))
            && OutlineOf(actions) == Draw(OutlineOf(actions[..n]), actions[n])
  {
  }

  lemma {:induction false} AsManyShapes(actions: seq<Action>)
    requires WellFormed(actions)
    ensures |OutlineOf(actions).shapes| == |Summarise(actions).made|
  {
    if actions != [] {
      LastAction(actions);
      AsManyShapes(actions[..|actions| - 1]);
    }
  }

  /** The `i`th type is drawn as the action that made it says. */
  predicate Shows(o: Outline, a: Action, i: nat) {
    match a
    case UseTag(_, id) => i < |o.shapes| && o.shapes[i] == OfTag(id)
    case DefineType(_, id, members) =>
      i < |o.shapes| && o.shapes[i] == if id == NIL_ID then Fields(members) else OfTag(id)
    case MakeTypedef(base) => base < i < |o.shapes| && o.shapes[i] == o.shapes[base] && i in o.names
    case MakeTypedefWith(base, _) => i < |o.shapes| && o.shapes[i] == OneType(base) && i in o.names
    case DeriveFrom(_, target) => i < |o.shapes| && o.shapes[i] == OneType(target)
    case GiveArrayForm(pointer) => pointer in o.forms
    case MarkContextHandle(_) => true
    case MakeLeaf(_) => i < |o.shapes| && o.shapes[i] == Ends
  }

  /** What an action draws stays in the outline of the text, however the text goes on. */
  lemma {:induction false} Outlined(actions: seq<Action>, j: nat)
    requires WellFormed(actions) && j < |actions|
    ensures Shows(OutlineOf(actions), actions[j], PlaceOf(actions, j))
  {
    hide WellFormed, Summarise, OutlineOf, Effect;
    var n := |actions| - 1;
    var init := actions[..n];
    LastAction(actions);
    AsManyShapes(init);
    if j < n {
      assert actions[..j] == init[..j];
      Outlined(init, j);
    }
  }

  /** What is given an array form is a pointer. */
  lemma {:induction false} PointersStay(actions: seq<Action>, j: nat)
    requires WellFormed(actions) && j < |actions| && actions[j].GiveArrayForm?
    ensures var made := Summarise(actions).made;
            actions[j].pointer < |made| && made[actions[j].pointer].kind == Pointer
  {
    hide WellFormed, Summarise;
    var n := |actions| - 1;
    LastAction(actions);
    if j < n {
      PointersStay(actions[..n], j);
    }
  }

  /** A tag has the members of its definition. */
  lemma {:induction false} DefinitionsOf(actions: seq<Action>, id: nat)
    requires Consistent(actions) && id != NIL_ID
    ensures id in OutlineOf(actions).definitions <==> DefinedIn(actions, id)
    ensures forall d :: d in actions && d.DefineType? && d.id == id ==>
              id in OutlineOf(actions).definitions && OutlineOf(actions).definitions[id] == d.members
  {
    if actions != [] {
      hide OutlineOf, Draw, DefinedIn, Consistent, Agree;
      var n := |actions| - 1;
      var init, a := actions[..n], actions[n];
      assert init + [a] == actions;
      AppendConsistent(init, a);
      Append(init, a, id);
      MoreOutline(init, a);
      NextDefinition(OutlineOf(init), a, id);
      DefinitionsOf(init, id);
      if a.DefineType? && a.id == id {
        OnlyOne(init, a);
      }
    } else {
      MoreOutline([], MakeLeaf(Base));
    }
  }

  lemma NextDefinition(o: Outline, a: Action, id: nat)
    requires id != NIL_ID
    ensures var next := Draw(o, a).definitions;
            if a.DefineType? && a.id == id then id in next && next[id] == a.members
            else (id in next <==> id in o.definitions) && (id in next ==> next[id] == o.definitions[id])
  {
  }

  lemma OnlyOne(init: seq<Action>, a: Action)
    requires a.DefineType? && a.id != NIL_ID && forall i :: 0 <= i < |init| ==> Agree(init[i], a)
    ensures forall d :: d in init && d.DefineType? ==> d.id != a.id
  {
    forall d | d in init && d.DefineType?
      ensures d.id != a.id
    {
      assert Agree(d, a);
    }
  }

  /** The `i`th type leads where the action that made it says. */
  ghost predicate LeadsAsSaid(actions: seq<Action>, g: Graph<nat>, a: Action, i: nat) {
    match a
    case UseTag(_, id) =>
      && (!DefinedIn(actions, id) ==> Succ(g, i) == [])
      && forall d :: d in actions && d.DefineType? && d.id == id ==> Succ(g, i) == Types(d.members)
    case DefineType(_, _, members) => Succ(g, i) == Types(members)
    case MakeTypedef(base) => Succ(g, i) == Succ(g, base)
    case MakeTypedefWith(base, _) => Succ(g, i) == [base]
    case DeriveFrom(_, target) => Succ(g, i) == [target]
    case MakeLeaf(_) => Succ(g, i) == []
    case _ => true
  }

  /** What the type made by each action leads to. */
  lemma TextEdges(actions: seq<Action>, j: nat)
    requires WellFormed(actions) && Consistent(actions) && j < |actions|
    ensures LeadsAsSaid(actions, TextGraph(OutlineOf(actions)), actions[j], PlaceOf(actions, j))
  {
    hide WellFormed, Summarise, OutlineOf, Consistent, DefinedIn, Types;
    Outlined(actions, j);
    WellFormedPrefix(actions, j + 1);
    assert actions[..j + 1][..j] == actions[..j];
    LastAction(actions[..j + 1]);
    if Mentioned(actions[j]) != NIL_ID {
      DefinitionsOf(actions, Mentioned(actions[j]));
    }
  }

  /** `struct s { struct s *next; }`: the struct, where it is used and where it is defined, and the pointer to it
      can all reach a cycle. */
  lemma ListNode(text: seq<Action>)
    requires text == [UseTag(Structure, 1), DeriveFrom(Pointer, 0), DefineType(Structure, 1, [1])]
    ensures WellFormed(text) && Acceptable(Summarise(text))
    ensures forall i: nat :: i < 3 ==> CanCycle(TextGraph(OutlineOf(text)), i)
  {
    var a, b, c := UseTag(Structure, 1), DeriveFrom(Pointer, 0), DefineType(Structure, 1, [1]);
    assert [] + [a] == [a] && [a] + [b] == [a, b] && [a, b] + [c] == text;
    ListNodeText(a, b, c);
    hide WellFormed, Summarise, Acceptable, CanCycle, TextGraph, Draw;
    MoreOutline([], a);
    MoreOutline([a], b);
    MoreOutline([a, b], c);
    ListNodeOutline(a, b, c);
    ListNodeCycles(OutlineOf(text));
  }

  lemma ListNodeOutline(a: Action, b: Action, c: Action)
    requires a == UseTag(Structure, 1) && b == DeriveFrom(Pointer, 0) && c == DefineType(Structure, 1, [1])
    ensures Draw(Draw(Draw(NO_OUTLINE, a), b), c) == Outline([OfTag(1), OneType(0), OfTag(1)], map[1 := [1]], {}, {})
  {
  }

  lemma ListNodeCycles(o: Outline)
    requires o == Outline([OfTag(1), OneType(0), OfTag(1)], map[1 := [1]], {}, {})
    ensures forall i: nat :: i < 3 ==> CanCycle(TextGraph(o), i)
  {
    hide CanCycle;
    var g := TextGraph(o);
    assert Types([1]) == [1] by {
      assert [1][1..] == [];
    }
    assert Succ(g, 0) == [1] && Succ(g, 1) == [0] && Succ(g, 2) == [1];
    hide TextGraph;
    ReachesEdge(g, 0, 1);
    ReachesEdge(g, 1, 0);
    ReachesTrans(g, 0, 1, 0);
    OnCycleCanCycle(g, 0);
    CycleBySuccessors(g, 1);
    CycleBySuccessors(g, 2);
    assert 0 in Succ(g, 1) && 1 in Succ(g, 2);
  }

  lemma ListNodeText(a: Action, b: Action, c: Action)
    requires a == UseTag(Structure, 1) && b == DeriveFrom(Pointer, 0) && c == DefineType(Structure, 1, [1])
    ensures WellFormed([a, b, c]) && Acceptable(Summarise([a, b, c]))
  {
    var s1 := Summary(false, map[1 := Tag(Structure, false, false)], [Made(Structure, 1)]);
    var s2 := Making(s1, Made(Pointer, NIL_ID));
    assert [] + [a] == [a] && [a] + [b] == [a, b] && [a, b] + [c] == [a, b, c];
    assert Grammatical(a, []) && Effect(a, Summary(false, map[], [])) == s1;
    assert Grammatical(b, s1.made) && Effect(b, s1) == s2 && Grammatical(c, s2.made);
    EmptyText();
    hide WellFormed, Summarise;
    MoreText([], a);
    MoreText([a], b);
    MoreText([a, b], c);
  }
}
