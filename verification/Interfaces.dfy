/**
  Whole interfaces: any sequence of the actions by which the parser makes types, followed by the
  patching of tags and the self-pointing analysis, against what the text says.
*/
module Interfaces {
  import opened TypeGraph
  import opened TypeNodes
  import opened SelfPointing
  import opened Tags
  import opened HeaderNotion
  import opened Texts

  lemma OutermostKind(ops: seq<Operator>, path: seq<TypeNode>)
    requires ops != [] && path != [] && HaveKinds(path, KindsOf(ops))
    requires forall op :: op in ops && op.PointerTo? ==> op.stars > 0
    ensures path[|path| - 1].kind == Outermost(ops)
  {
    var op := ops[|ops| - 1];
    assert op in ops;
  }

  function Members(members: seq<int>, made: seq<TypeNode>): (ms: seq<TypeNode?>)
    requires forall i :: 0 <= i < |members| ==> -1 <= members[i] < |made|
    ensures |ms| == |members|
    ensures forall i :: 0 <= i < |ms| ==> ms[i] == if members[i] == -1 then null else made[members[i]]
  {
    seq(|members|, i requires 0 <= i < |members| => if members[i] == -1 then null else made[members[i]])
  }

  ghost predicate TagsMatch(p: Parser, s: Summary)
    reads p`bindings, p.bindings.Values`body, p.bindings.Values`contextRd
  {
    p.BoundTags() == s.tags
  }

  ghost function TagsOf(made: seq<TypeNode>): (ts: seq<TypeNode?>)
    reads made
    ensures |ts| == |made| && forall i :: 0 <= i < |made| ==> ts[i] == made[i].tagPtr
  {
    seq(|made|, i requires 0 <= i < |made| reads made => made[i].tagPtr)
  }

  /** The types made stand for the tags that the text says. */
  ghost predicate StandFor(tagsOf: seq<TypeNode?>, bindings: map<nat, TypeNode>, ms: seq<Made>) {
    && |tagsOf| == |ms|
    && forall i :: 0 <= i < |ms| ==> Stands(tagsOf[i], bindings, ms[i].tag)
  }

  predicate Stands(t: TypeNode?, bindings: map<nat, TypeNode>, id: nat) {
    if id == NIL_ID then t == null else id in bindings && t == bindings[id]
  }

  /** One more type, and perhaps one more tag. */
  lemma StandMore(tagsOf: seq<TypeNode?>, before: map<nat, TypeNode>, after: map<nat, TypeNode>, ms: seq<Made>,
                  t: TypeNode?, m: Made)
    requires StandFor(tagsOf, before, ms) && Stands(t, after, m.tag)
    requires forall id :: id in before ==> id in after && after[id] == before[id]
    ensures StandFor(tagsOf + [t], after, ms + [m])
  {
  }

  /** The parser's state is what the text so far says. */
  ghost predicate Matches(p: Parser, made: seq<TypeNode>, s: Summary)
    reads p, p.nodes, p.bindings.Values, made
  {
    && |made| == |s.made| && (forall i :: 0 <= i < |made| ==> made[i] in p.nodes && made[i].kind == s.made[i].kind)
    && (p.errorCount == 0 <==> !s.clash)
    && (p.errorCount == 0 ==> TagsMatch(p, s) && StandFor(TagsOf(made), p.bindings, s.made))
  }

  // ----- the nodes made form the graph of the text -----

  /** From `x` one pointer or array after another leads to `y`; none of them is an array form. */
  ghost predicate LeadsOver(p: Parser, x: TypeNode, y: TypeNode, k: nat)
    reads p, p.nodes
    decreases k
  {
    && p.Plain(x) && (x.kind == Pointer || x.kind == Array) && x.target != null
    && if k == 0 then x.target == y else LeadsOver(p, x.target, y, k - 1)
  }

  ghost predicate MembersAre(body: Body, members: seq<int>, made: seq<TypeNode>) {
    && |body.members| == |members|
    && forall j :: 0 <= j < |members| ==>
         && -1 <= members[j] < |made|
         && body.members[j] == if members[j] == -1 then null else made[members[j]]
  }

  /** A node leads where its shape says. */
  ghost predicate ShapeOk(p: Parser, made: seq<TypeNode>, shape: Shape, n: TypeNode)
    reads p, p.nodes, n
  {
    match shape
    case Ends => n.kind == Base || n.kind == Other
    case OneType(inner) => inner < |made| && exists k: nat :: LeadsOver(p, n, made[inner], k)
    case Fields(members) => Tagged(n.kind) && n.tagPtr == null && n.body != null && MembersAre(n.body, members, made)
    case OfTag(id) => Tagged(n.kind) && id in p.bindings && n.tagPtr == p.bindings[id]
  }

  /** Every type made has its shape. */
  ghost predicate Shaped(p: Parser, made: seq<TypeNode>, shapes: seq<Shape>)
    reads p, p.nodes, made
  {
    && |made| == |shapes|
    && forall i :: 0 <= i < |made| ==> p.Plain(made[i]) && ShapeOk(p, made, shapes[i], made[i])
  }

  /** The tags with a structure are those defined, and it has the members of the definition. */
  ghost predicate DefinedSo(p: Parser, made: seq<TypeNode>, definitions: map<nat, seq<int>>)
    reads p, p.bindings.Values
  {
    && (forall id :: id in definitions ==> id in p.bindings)
    && (forall id :: id in p.bindings ==>
          && (p.bindings[id].body != null <==> id in definitions)
          && (id in definitions ==> MembersAre(p.bindings[id].body, definitions[id], made)))
  }

  ghost predicate HasForm(p: Parser, n: TypeNode)
    reads p`nodes, n`target, p.nodes`arrayRep
  {
    n.target != null && n.target in p.nodes && n.target.arrayRep != null
  }

  /** What typedefs made has a name, and array forms are there for the pointers that were given one. */
  ghost predicate Equipped(p: Parser, made: seq<TypeNode>, o: Outline)
    reads p`nodes, made`named, made`target, p.nodes`arrayRep
  {
    && (forall i :: i in o.names ==> i < |made| && made[i].named)
    && (forall i :: i in o.forms ==> i < |made| && HasForm(p, made[i]))
  }

  ghost predicate Formed(p: Parser, made: seq<TypeNode>, o: Outline)
    reads p, p.nodes, p.bindings.Values, made
  {
    Shaped(p, made, o.shapes) && DefinedSo(p, made, o.definitions) && Equipped(p, made, o)
  }

  lemma MoreMembers(body: Body, members: seq<int>, made: seq<TypeNode>, more: seq<TypeNode>)
    requires MembersAre(body, members, made)
    ensures MembersAre(body, members, made + more)
  {
  }

  lemma MoreShape(p: Parser, made: seq<TypeNode>, more: seq<TypeNode>, shape: Shape, n: TypeNode)
    requires ShapeOk(p, made, shape, n)
    ensures ShapeOk(p, made + more, shape, n)
  {
    hide LeadsOver;
    match shape {
      case OneType(inner) => assert (made + more)[inner] == made[inner];
      case Fields(members) => MoreMembers(n.body, members, made, more);
      case _ =>
    }
  }

  /** One more type. */
  lemma FormedMore(p: Parser, made: seq<TypeNode>, o: Outline, n: TypeNode, shape: Shape)
    requires Formed(p, made, o) && p.Plain(n) && ShapeOk(p, made, shape, n)
    ensures Formed(p, made + [n], Shapes(o, shape))
    ensures n.named ==> Formed(p, made + [n], Naming(o, shape))
  {
    hide ShapeOk, MembersAre, HasForm;
    var more := made + [n];
    forall i | 0 <= i < |more|
      ensures ShapeOk(p, more, (o.shapes + [shape])[i], more[i])
    {
      MoreShape(p, made, [n], (o.shapes + [shape])[i], more[i]);
    }
    forall id | id in p.bindings && id in o.definitions
      ensures MembersAre(p.bindings[id].body, o.definitions[id], more)
    {
      MoreMembers(p.bindings[id].body, o.definitions[id], made, [n]);
    }
  }

  /** Nothing that the parser goes on to do changes where a type made earlier leads. */
  twostate lemma {:induction false} StillLeads(new p: Parser, new x: TypeNode, new y: TypeNode, k: nat)
    requires old(allocated(p)) && old(allocated(x)) && old(allocated(y)) && old(p.nodes) <= p.nodes
    requires old(LeadsOver(p, x, y, k)) && p.PlainStays()
    ensures LeadsOver(p, x, y, k)
    decreases k
  {
    if k > 0 {
      StillLeads(p, old(x.target), y, k - 1);
    }
  }

  twostate lemma ShapedStays(new p: Parser, new made: seq<TypeNode>, new shapes: seq<Shape>)
    requires old(allocated(p)) && old(allocated(made)) && old(p.nodes) <= p.nodes
    requires old(Shaped(p, made, shapes)) && p.PlainStays()
    requires forall id :: id in old(p.bindings) ==> id in p.bindings && p.bindings[id] == old(p.bindings[id])
    requires forall m :: m in old(p.nodes) && old(m.body) != null ==> m.body == old(m.body)
    requires forall m :: m in old(p.nodes) && Tagged(m.kind) ==> m.tagPtr == old(m.tagPtr)
    ensures Shaped(p, made, shapes)
  {
    hide LeadsOver, MembersAre;
    forall i | 0 <= i < |made|
      ensures p.Plain(made[i]) && ShapeOk(p, made, shapes[i], made[i])
    {
      assert old(p.Plain(made[i])) && old(ShapeOk(p, made, shapes[i], made[i]));
      if shapes[i].OneType? {
        var y := made[shapes[i].inner];
        var k: nat :| old(LeadsOver(p, made[i], y, k));
        assert old(p.Plain(y));
        StillLeads(p, made[i], y, k);
      }
    }
  }

  twostate lemma EquippedStays(new p: Parser, new made: seq<TypeNode>, new o: Outline)
    requires old(allocated(p)) && old(allocated(made)) && old(p.nodes) <= p.nodes
    requires old(Equipped(p, made, o)) && p.PlainStays() && forall m :: m in made ==> m in old(p.nodes) && old(p.Plain(m))
    ensures Equipped(p, made, o)
  {
    forall i | i in o.names || i in o.forms
      ensures i < |made| && made[i] in p.nodes && made[i].target == old(made[i].target)
    {
      assert old(p.Plain(made[i]));
    }
  }

  /** The same for tags, if no tag has been defined since. */
  twostate lemma DefinedStays(new p: Parser, new made: seq<TypeNode>, new definitions: map<nat, seq<int>>)
    requires old(allocated(p)) && old(allocated(made)) && old(DefinedSo(p, made, definitions))
    requires forall id :: id in old(p.bindings) ==>
               id in p.bindings && p.bindings[id] == old(p.bindings[id]) && p.bindings[id].body == old(p.bindings[id].body)
    requires forall id :: id in p.bindings && id !in old(p.bindings) ==> p.bindings[id].body == null
    ensures DefinedSo(p, made, definitions)
  {
    hide MembersAre;
  }

  /** What `Act` needs and gives. */
  ghost predicate Follows(p: Parser, made: seq<TypeNode>, s: Summary, o: Outline)
    reads p, p.nodes, p.bindings.Values, made
  {
    Matches(p, made, s) && (p.errorCount == 0 ==> Formed(p, made, o))
  }

  method ActUse(p: Parser, kind: Kind, id: nat, made: seq<TypeNode>, ghost s: Summary, ghost o: Outline)
    returns (made': seq<TypeNode>)
    requires p.Parsing() && Follows(p, made, s, o) && Tagged(kind) && id != NIL_ID
    modifies p
    ensures p.Parsing() && p.Continues()
    ensures Follows(p, made', Making(Use(s, kind, id), Made(kind, id)), Draw(o, UseTag(kind, id)))
  {
    hide Parser.Parsing, StandFor, TagsOf, Formed;
    ghost var before, tagsOf := p.bindings, TagsOf(made);
    var t := p.TypeFromTag(kind, id);
    made' := made + [t];
    if p.errorCount == 0 {
      p.TagsDistinct();
      assert TagsMatch(p, Use(s, kind, id));
      hide TagsMatch;
      MadeTagged(p, made, before, s, Use(s, kind, id), t, Made(kind, id));
      FormUse(p, made, o);
      p.OnlyArraysAreForms(t);
      assert ShapeOk(p, made, OfTag(id), t);
      FormedMore(p, made, o, t, OfTag(id));
    }
  }

  /** One more type, of a tag that may be new. */
  lemma MadeTagged(p: Parser, made: seq<TypeNode>, before: map<nat, TypeNode>, s: Summary, s': Summary, n: TypeNode, m: Made)
    requires p.errorCount == 0 && !s'.clash && |made| == |s.made| && s'.made == s.made
    requires forall i :: 0 <= i < |made| ==> made[i] in p.nodes && made[i].kind == s.made[i].kind
    requires n in p.nodes && n.kind == m.kind && TagsMatch(p, s')
    requires StandFor(TagsOf(made), before, s.made) && Stands(n.tagPtr, p.bindings, m.tag)
    requires forall id :: id in before ==> id in p.bindings && p.bindings[id] == before[id]
    ensures Matches(p, made + [n], Making(s', m))
  {
    assert TagsMatch(p, Making(s', m));
    hide TagsMatch, StandFor, TagsOf;
    StandMore(TagsOf(made), before, p.bindings, s.made, n.tagPtr, m);
    assert TagsOf(made + [n]) == TagsOf(made) + [n.tagPtr];
  }

  twostate lemma FormUse(new p: Parser, new made: seq<TypeNode>, new o: Outline)
    requires old(allocated(p)) && old(allocated(made)) && old(p.nodes) <= p.nodes
    requires old(Formed(p, made, o)) && p.PlainStays()
    requires forall m :: m in old(p.nodes) ==> m.body == old(m.body) && m.tagPtr == old(m.tagPtr)
    requires forall id :: id in old(p.bindings) ==> id in p.bindings && p.bindings[id] == old(p.bindings[id])
    requires forall id :: id in old(p.bindings) ==> old(p.bindings[id]) in old(p.nodes)
    requires forall id :: id in p.bindings && id !in old(p.bindings) ==> p.bindings[id].body == null
    ensures Formed(p, made, o)
  {
    assert forall i :: 0 <= i < |made| ==> old(p.Plain(made[i]));
    hide Shaped, DefinedSo, Equipped;
    ShapedStays(p, made, o.shapes);
    EquippedStays(p, made, o);
    DefinedStays(p, made, o.definitions);
  }

  method ActDefine(p: Parser, kind: Kind, id: nat, members: seq<int>, made: seq<TypeNode>, ghost s: Summary, ghost o: Outline)
    returns (made': seq<TypeNode>)
    requires p.Parsing() && Follows(p, made, s, o) && Grammatical(DefineType(kind, id, members), s.made)
    modifies p, p.nodes
    ensures p.Parsing() && p.Continues()
    ensures Follows(p, made', Making(Definition(s, kind, id), Made(kind, id)), Draw(o, DefineType(kind, id, members)))
  {
    hide Parser.Parsing, StandFor, TagsOf, Formed;
    ghost var before, tagsOf := p.bindings, TagsOf(made);
    if p.errorCount == 0 {
      p.TagsDistinct();
    }
    var n := p.Define(kind, id, Members(members, made));
    made' := made + [n];
    if p.errorCount == 0 {
      assert TagsMatch(p, Definition(s, kind, id));
      hide TagsMatch;
      p.TagsDistinct();
      assert TagsOf(made) == tagsOf;
      MadeTagged(p, made, before, s, Definition(s, kind, id), n, Made(kind, id));
      p.OnlyArraysAreForms(n);
      FormDefine(p, made, o, n, id, members);
    }
  }

  /** A definition gives its members, and nothing else, to its tag, or to the new type if it has no tag. */
  twostate lemma FormDefine(new p: Parser, new made: seq<TypeNode>, new o: Outline, new n: TypeNode, id: nat, new members: seq<int>)
    requires old(allocated(p)) && old(allocated(made)) && old(p.nodes) <= p.nodes
    requires old(Formed(p, made, o)) && p.PlainStays() && p.Plain(n)
    requires forall m :: m in old(p.nodes) && (id in p.bindings ==> m != p.bindings[id]) ==>
               m.body == old(m.body) && m.tagPtr == old(m.tagPtr)
    requires forall i :: i in old(p.bindings) ==> old(p.bindings[i]) in old(p.nodes) && old(p.bindings[i].tagPtr) == old(p.bindings[i])
    requires forall i, j :: i in p.bindings && j in p.bindings && p.bindings[i] == p.bindings[j] ==> i == j
    requires Tagged(n.kind) && n.body != null && MembersAre(n.body, members, made)
    requires if id == NIL_ID then n.tagPtr == null && p.bindings == old(p.bindings) && id !in p.bindings
             else
               && id in p.bindings && n.tagPtr == p.bindings[id] && p.bindings[id].tagPtr == p.bindings[id]
               && p.bindings[id].body == n.body
               && (if id in old(p.bindings) then old(p.bindings[id].body) == null else p.bindings[id] !in old(p.nodes))
               && p.bindings == (if id in old(p.bindings) then old(p.bindings) else old(p.bindings)[id := p.bindings[id]])
    ensures Formed(p, made + [n],
              if id == NIL_ID then Shapes(o, Fields(members))
              else Shapes(o.(definitions := o.definitions[id := members]), OfTag(id)))
  {
    var o' := if id == NIL_ID then o else o.(definitions := o.definitions[id := members]);
    assert forall i :: 0 <= i < |made| ==> old(p.Plain(made[i]));
    hide LeadsOver, MembersAre, ShapeOk;
    ShapedStays(p, made, o.shapes);
    assert Equipped(p, made, o') by {
      EquippedStays(p, made, o);
    }
    assert DefinedSo(p, made, o'.definitions) by {
      DefinedNow(p, made, o.definitions, id, members);
    }
    FormedMore(p, made, o', n, if id == NIL_ID then Fields(members) else OfTag(id));
  }

  twostate lemma DefinedNow(new p: Parser, new made: seq<TypeNode>, new definitions: map<nat, seq<int>>, id: nat, new members: seq<int>)
    requires old(allocated(p)) && old(allocated(made)) && old(DefinedSo(p, made, definitions))
    requires forall m :: m in old(p.nodes) && (id in p.bindings ==> m != p.bindings[id]) ==> m.body == old(m.body)
    requires forall i :: i in old(p.bindings) ==> old(p.bindings[i]) in old(p.nodes)
    requires forall i, j :: i in p.bindings && j in p.bindings && p.bindings[i] == p.bindings[j] ==> i == j
    requires if id == NIL_ID then p.bindings == old(p.bindings) && id !in p.bindings
             else
               && id in p.bindings && p.bindings[id].body != null && MembersAre(p.bindings[id].body, members, made)
               && p.bindings == (if id in old(p.bindings) then old(p.bindings) else old(p.bindings)[id := p.bindings[id]])
    ensures DefinedSo(p, made, if id == NIL_ID then definitions else definitions[id := members])
  {
    hide MembersAre;
  }

  /** A type without a tag of its own: it is derived, or a copy, or a leaf. */
  lemma MadePlain(p: Parser, made: seq<TypeNode>, s: Summary, n: TypeNode, m: Made)
    requires Matches(p, made, s) && n in p.nodes && n.kind == m.kind
    requires p.errorCount == 0 ==> Stands(n.tagPtr, p.bindings, m.tag)
    ensures Matches(p, made + [n], Making(s, m))
  {
    hide StandFor, TagsOf;
    if p.errorCount == 0 {
      StandMore(TagsOf(made), p.bindings, p.bindings, s.made, n.tagPtr, m);
      assert TagsOf(made + [n]) == TagsOf(made) + [n.tagPtr];
    }
  }

  method ActContext(p: Parser, handle: nat, made: seq<TypeNode>, ghost s: Summary, ghost o: Outline)
    requires p.Parsing() && Follows(p, made, s, o) && handle < |made|
    modifies p.nodes
    ensures p.Parsing() && Follows(p, made, WithHandle(s, s.made[handle].tag), o)
  {
    hide Parser.Parsing, Formed, TagsMatch, StandFor, TagsOf;
    if p.errorCount == 0 {
      p.TagsDistinct();
      MadeStands(p, made, s, handle);
    }
    p.SetContextHandle(made[handle]);
    if p.errorCount == 0 {
      HandleGiven(p, made, s, handle);
      FormUse(p, made, o);
    }
  }

  /** The attribute reaches the tag of the type it is given to. */
  twostate lemma HandleGiven(new p: Parser, new made: seq<TypeNode>, new s: Summary, handle: nat)
    requires old(allocated(p)) && old(allocated(made)) && unchanged(p) && handle < |made|
    requires old(Matches(p, made, s)) && p.errorCount == 0 && Stands(old(TagsOf(made)[handle]), p.bindings, s.made[handle].tag)
    requires forall id :: id in p.bindings ==> id != NIL_ID && p.bindings[id] in p.nodes && p.bindings[id].tagPtr == p.bindings[id]
    requires forall id, id' :: id in p.bindings && id' in p.bindings && p.bindings[id] == p.bindings[id'] ==> id == id'
    requires forall m :: m in p.nodes ==>
               && m.tagPtr == old(m.tagPtr) && m.body == old(m.body)
               && (m.contextRd <==> old(m.contextRd) || m == made[handle] || m == made[handle].tagPtr)
    ensures Matches(p, made, WithHandle(s, s.made[handle].tag))
  {
    var n, id := made[handle], s.made[handle].tag;
    assert n.tagPtr == old(TagsOf(made)[handle]);
    assert TagsOf(made) == old(TagsOf(made));
    assert TagsMatch(p, WithHandle(s, id)) by {
      HandleTags(p, n, s, id);
    }
  }

  twostate lemma HandleTags(new p: Parser, new n: TypeNode, new s: Summary, id: nat)
    requires old(allocated(p)) && old(allocated(n)) && unchanged(p) && n in p.nodes && old(TagsMatch(p, s))
    requires Stands(n.tagPtr, p.bindings, id)
    requires forall i :: i in p.bindings ==> i != NIL_ID && p.bindings[i] in p.nodes && p.bindings[i].tagPtr == p.bindings[i]
    requires forall i, j :: i in p.bindings && j in p.bindings && p.bindings[i] == p.bindings[j] ==> i == j
    requires forall m :: m in p.nodes ==>
               m.body == old(m.body) && (m.contextRd <==> old(m.contextRd) || m == n || m == n.tagPtr)
    ensures TagsMatch(p, WithHandle(s, id))
  {
    forall i | i in p.bindings
      ensures p.bindings[i].contextRd <==> old(p.bindings[i].contextRd) || i == id
    {
      assert p.bindings[i] == n ==> n.tagPtr == n;
    }
  }

  lemma MadeStands(p: Parser, made: seq<TypeNode>, s: Summary, i: nat)
    requires Matches(p, made, s) && i < |made|
    ensures p.errorCount == 0 ==> Stands(TagsOf(made)[i], p.bindings, s.made[i].tag)
  {
  }

  method ActTypedef(p: Parser, base: nat, made: seq<TypeNode>, ghost s: Summary, ghost o: Outline) returns (made': seq<TypeNode>)
    requires p.Parsing() && Follows(p, made, s, o) && base < |made|
    modifies p, p.nodes
    ensures p.Parsing() && p.Continues() && Follows(p, made', Making(s, s.made[base]), Draw(o, MakeTypedef(base)))
  {
    hide Parser.Parsing, TagsMatch, StandFor, TagsOf, Formed;
    ghost var tagsOf := TagsOf(made);
    assert p.errorCount == 0 ==> Stands(tagsOf[base], p.bindings, s.made[base].tag) by {
      MadeStands(p, made, s, base);
    }
    p.TagInside(made[base]);
    InNodes(p);
    var n := p.Typedef(made[base]);
    assert TagsOf(made) == tagsOf;
    MadePlain(p, made, s, n, s.made[base]);
    made' := made + [n];
    if p.errorCount == 0 {
      FormUse(p, made, o);
      FormCopy(p, made, o, base, n);
    }
  }

  lemma InNodes(p: Parser)
    requires p.Parsing()
    ensures forall id :: id in p.bindings ==> p.bindings[id] in p.nodes
  {
  }

  /** A copy leads where the type copied does. */
  lemma FormCopy(p: Parser, made: seq<TypeNode>, o: Outline, base: nat, n: TypeNode)
    requires Formed(p, made, o) && base < |made| && p.Plain(made[base]) ==> p.Plain(n)
    requires Formed(p, made, o) && base < |made|
    requires n.kind == made[base].kind && n.target == made[base].target && n.body == made[base].body
    requires n.tagPtr == made[base].tagPtr && n.named
    ensures base < |o.shapes| && Formed(p, made + [n], Naming(o, o.shapes[base]))
  {
    var shape := o.shapes[base];
    assert ShapeOk(p, made, shape, made[base]);
    if shape.OneType? {
      var k: nat :| LeadsOver(p, made[base], made[shape.inner], k);
      assert LeadsOver(p, n, made[shape.inner], k);
    }
    FormedMore(p, made, o, n, shape);
  }

  method ActTypedefWith(p: Parser, base: nat, ops: seq<Operator>, made: seq<TypeNode>, ghost s: Summary, ghost o: Outline)
    returns (made': seq<TypeNode>)
    requires p.Parsing() && Follows(p, made, s, o) && Grammatical(MakeTypedefWith(base, ops), s.made)
    modifies p
    ensures p.Parsing() && p.Continues()
    ensures Follows(p, made', Making(s, Made(Outermost(ops), s.made[base].tag)), Draw(o, MakeTypedefWith(base, ops)))
  {
    hide Parser.Parsing, TagsMatch, StandFor, TagsOf, Formed, KindsOf;
    ghost var tagsOf := TagsOf(made);
    assert p.errorCount == 0 ==> Stands(tagsOf[base], p.bindings, s.made[base].tag) by {
      MadeStands(p, made, s, base);
    }
    InNodes(p);
    ghost var path;
    var n;
    n, path := p.TypedefWith(made[base], ops);
    OutermostKind(ops, path);
    assert TagsOf(made) == tagsOf;
    MadePlain(p, made, s, n, Made(Outermost(ops), s.made[base].tag));
    made' := made + [n];
    if p.errorCount == 0 {
      FormUse(p, made, o);
      PathLeads(p, made[base], ops, path);
      FormedMore(p, made, o, n, OneType(base));
    }
  }

  /** The nodes of a declarator lead to the base type, outermost first. */
  lemma PathLeads(p: Parser, base: TypeNode, ops: seq<Operator>, path: seq<TypeNode>)
    requires path != [] && Over(path, base) && HaveKinds(path, KindsOf(ops)) && forall m :: m in path ==> p.Plain(m)
    ensures LeadsOver(p, path[|path| - 1], base, |path| - 1)
  {
    OnlyPointersAndArrays(ops);
    LeadsDown(p, base, path, |path| - 1);
  }

  lemma {:induction false} OnlyPointersAndArrays(ops: seq<Operator>)
    ensures forall i :: 0 <= i < |KindsOf(ops)| ==> KindsOf(ops)[i] == Pointer || KindsOf(ops)[i] == Array
  {
    if ops != [] {
      OnlyPointersAndArrays(ops[..|ops| - 1]);
    }
  }

  lemma {:induction false} LeadsDown(p: Parser, base: TypeNode, path: seq<TypeNode>, i: nat)
    requires i < |path| && Over(path, base)
    requires forall m :: m in path ==> p.Plain(m) && (m.kind == Pointer || m.kind == Array)
    ensures LeadsOver(p, path[i], base, i)
    decreases i
  {
    assert path[i] in path && path[i].target == ([base] + path)[i];
    if i > 0 {
      LeadsDown(p, base, path, i - 1);
    }
  }

  method ActDerive(p: Parser, kind: Kind, target: nat, made: seq<TypeNode>, ghost s: Summary, ghost o: Outline)
    returns (made': seq<TypeNode>)
    requires p.Parsing() && Follows(p, made, s, o) && Grammatical(DeriveFrom(kind, target), s.made)
    modifies p
    ensures p.Parsing() && p.Continues()
    ensures Follows(p, made', Making(s, Made(kind, NIL_ID)), Draw(o, DeriveFrom(kind, target)))
  {
    hide Parser.Parsing, TagsMatch, StandFor, TagsOf, Formed;
    ghost var tagsOf := TagsOf(made);
    InNodes(p);
    var n := p.Derived(kind, made[target]);
    assert TagsOf(made) == tagsOf;
    MadePlain(p, made, s, n, Made(kind, NIL_ID));
    made' := made + [n];
    if p.errorCount == 0 {
      FormUse(p, made, o);
      assert LeadsOver(p, n, made[target], 0);
      FormedMore(p, made, o, n, OneType(target));
    }
  }

  lemma InsideNodes(p: Parser, n: TypeNode)
    requires p.Parsing() && n in p.nodes && n.target != null
    ensures n.target in p.nodes
  {
    assert Linked(n, p.nodes);
  }

  lemma FormGiven(p: Parser, made: seq<TypeNode>, o: Outline, pointer: nat)
    requires Formed(p, made, o) && pointer < |made| && HasForm(p, made[pointer])
    ensures Formed(p, made, o.(forms := o.forms + {pointer}))
  {
    hide Shaped, DefinedSo, HasForm;
  }

  method ActForm(p: Parser, pointer: nat, made: seq<TypeNode>, ghost s: Summary, ghost o: Outline)
    requires p.Parsing() && Follows(p, made, s, o) && Grammatical(GiveArrayForm(pointer), s.made)
    modifies p, p.nodes
    ensures p.Parsing() && p.Continues() && Follows(p, made, s, Draw(o, GiveArrayForm(pointer)))
  {
    hide Parser.Parsing, TagsMatch, StandFor, TagsOf, Formed;
    ghost var tagsOf := TagsOf(made);
    InNodes(p);
    p.SetArrayRep(made[pointer]);
    assert TagsOf(made) == tagsOf;
    if p.errorCount == 0 {
      FormUse(p, made, o);
      InsideNodes(p, made[pointer]);
      FormGiven(p, made, o, pointer);
    }
  }

  method ActLeaf(p: Parser, kind: Kind, made: seq<TypeNode>, ghost s: Summary, ghost o: Outline) returns (made': seq<TypeNode>)
    requires p.Parsing() && Follows(p, made, s, o) && Grammatical(MakeLeaf(kind), s.made)
    modifies p
    ensures p.Parsing() && p.Continues() && Follows(p, made', Making(s, Made(kind, NIL_ID)), Draw(o, MakeLeaf(kind)))
  {
    hide Parser.Parsing, TagsMatch, StandFor, TagsOf, Formed;
    ghost var tagsOf := TagsOf(made);
    InNodes(p);
    var n := p.LeafType(kind);
    assert TagsOf(made) == tagsOf;
    MadePlain(p, made, s, n, Made(kind, NIL_ID));
    made' := made + [n];
    if p.errorCount == 0 {
      FormUse(p, made, o);
      FormedMore(p, made, o, n, Ends);
    }
  }

  /** One action of the parser does to the heap what its text says. */
  method Act(p: Parser, a: Action, made: seq<TypeNode>, ghost s: Summary, ghost o: Outline) returns (made': seq<TypeNode>)
    requires p.Parsing() && Follows(p, made, s, o) && Grammatical(a, s.made)
    modifies p, p.nodes
    ensures p.Parsing() && p.Continues() && Follows(p, made', Effect(a, s), Draw(o, a))
  {
    hide Parser.Parsing, Formed;
    made' := made;
    assert |made| == |s.made|;
    hide Matches;
    match a {
      case UseTag(kind, id) =>
        made' := ActUse(p, kind, id, made, s, o);
      case DefineType(kind, id, members) =>
        made' := ActDefine(p, kind, id, members, made, s, o);
      case MakeTypedef(base) =>
        made' := ActTypedef(p, base, made, s, o);
      case MakeTypedefWith(base, ops) =>
        made' := ActTypedefWith(p, base, ops, made, s, o);
      case DeriveFrom(kind, target) =>
        made' := ActDerive(p, kind, target, made, s, o);
      case GiveArrayForm(pointer) =>
        ActForm(p, pointer, made, s, o);
      case MarkContextHandle(handle) =>
        ActContext(p, handle, made, s, o);
      case MakeLeaf(kind) =>
        made' := ActLeaf(p, kind, made, s, o);
    }
  }

  /** The tags bound are resolvable exactly if the text is acceptable. */
  lemma ResolvableIffAcceptable(p: Parser, made: seq<TypeNode>, s: Summary)
    requires Matches(p, made, s)
    ensures Acceptable(s) <==> p.errorCount == 0 && forall id :: id in p.bindings ==> p.Resolvable(p.bindings[id])
  {
    if p.errorCount == 0 {
      assert forall id :: id in p.bindings ==> p.BoundTags()[id] == s.tags[id];
    }
  }

  // ----- after patching -----

  /** What patching leaves of the shapes: every tag has its definition's members, or none if it is opaque. */
  ghost predicate Complete(p: Parser, made: seq<TypeNode>, o: Outline)
    reads p, p.nodes, p.bindings.Values, made
  {
    && Shaped(p, made, o.shapes) && Equipped(p, made, o)
    && forall id :: id in p.bindings ==>
         && p.bindings[id].body != null
         && MembersAre(p.bindings[id].body, if id in o.definitions then o.definitions[id] else [], made)
  }

  twostate lemma FormPatched(new p: Parser, new made: seq<TypeNode>, new o: Outline)
    requires old(allocated(p)) && old(allocated(made)) && p.nodes == old(p.nodes) && p.bindings == old(p.bindings)
    requires old(Formed(p, made, o)) && p.Bodies()
    requires forall m :: m in p.nodes ==>
               && m.target == old(m.target) && m.arrayRep == old(m.arrayRep)
               && m.tagPtr == old(m.tagPtr) && m.named == old(m.named)
    requires forall id :: id in p.bindings ==>
               p.bindings[id] in p.nodes && p.bindings[id].tagPtr == p.bindings[id] && p.bindings[id].body != null
    ensures Complete(p, made, o)
  {
    hide LeadsOver, MembersAre, ShapeOk, HasForm;
    assert p.PlainStays();
    assert forall i :: 0 <= i < |made| ==> old(p.Plain(made[i]));
    ShapedStays(p, made, o.shapes);
    EquippedStays(p, made, o);
    forall id | id in p.bindings
      ensures MembersAre(p.bindings[id].body, if id in o.definitions then o.definitions[id] else [], made)
    {
      if id !in o.definitions {
        NoMembers(p.bindings[id].body, made);
      }
    }
  }

  lemma NoMembers(body: Body, made: seq<TypeNode>)
    requires body.members == []
    ensures MembersAre(body, [], made)
  {
  }

  /** The types of members, on both sides. */
  lemma {:induction false} TypesDrawn(members: seq<int>, nodes: seq<TypeNode?>, made: seq<TypeNode>)
    requires |nodes| == |members|
    requires forall j :: 0 <= j < |members| ==>
               -1 <= members[j] < |made| && nodes[j] == if members[j] == -1 then null else made[members[j]]
    ensures |NonNull(nodes)| == |Types(members)|
    ensures forall j :: 0 <= j < |Types(members)| ==> Types(members)[j] < |made| && NonNull(nodes)[j] == made[Types(members)[j]]
    decreases |members|
  {
    if members != [] {
      TypesDrawn(members[1..], nodes[1..], made);
    }
  }

  lemma {:induction false} LeadsThrough(p: Parser, x: TypeNode, y: TypeNode, k: nat)
    requires LeadsOver(p, x, y, k)
    ensures Through(GraphOf(p.nodes), x, y, k)
    decreases k
  {
    assert Succ(GraphOf(p.nodes), x) == [x.target];
    if k > 0 {
      LeadsThrough(p, x.target, y, k - 1);
    }
  }

  /** The nodes made form the graph that the text describes. */
  lemma TextDrawn(p: Parser, made: seq<TypeNode>, o: Outline, i: nat)
    requires Complete(p, made, o) && i < |made|
    requires forall n :: n in p.nodes && Tagged(n.kind) && n.tagPtr != null ==> n.body == n.tagPtr.body
    ensures made[i] in p.nodes && Drawn(GraphOf(p.nodes), TextGraph(o), made, i)
  {
    var g, h, n, shape := GraphOf(p.nodes), TextGraph(o), made[i], o.shapes[i];
    assert p.Plain(n) && ShapeOk(p, made, shape, n);
    assert Succ(g, n) == Children(n) && Succ(h, i) == NextTypes(o, i);
    match shape {
      case Ends =>
      case OneType(inner) =>
        var k: nat :| LeadsOver(p, n, made[inner], k);
        LeadsThrough(p, n, made[inner], k);
      case Fields(members) =>
        TypesDrawn(members, n.body.members, made);
      case OfTag(id) =>
        TypesDrawn(if id in o.definitions then o.definitions[id] else [], n.body.members, made);
    }
  }

  /** So what is marked can be told from the text. */
  lemma MarksOfText(p: Parser, iface: Interface, made: seq<TypeNode>, o: Outline)
    requires Complete(p, made, o) && p.Analysed(iface)
    requires forall n :: n in p.nodes && Tagged(n.kind) && n.tagPtr != null ==> n.body == n.tagPtr.body
    ensures forall i: nat :: i < |made| && Tagged(made[i].kind) && made[i].tagPtr != null ==>
              (made[i].selfPointer <==> CanCycle(TextGraph(o), i))
    ensures forall i: nat, j: nat {:trigger Reaches(TextGraph(o), i, j)} ::
              i < |made| && Tagged(made[i].kind) && made[i].tagPtr != null && Reaches(TextGraph(o), i, j) ==>
                j < |made| && (made[j].selfPointer <==> CanCycle(TextGraph(o), j))
    ensures forall i: nat :: i < |made| && made[i].selfPointer ==> CanCycle(TextGraph(o), i)
  {
    hide CanCycle, Drawn, Complete, ShapeOk;
    var g, h := GraphOf(p.nodes), TextGraph(o);
    assert |made| == |o.shapes| by { CompleteLength(p, made, o); }
    forall i: nat | i < |made|
      ensures made[i] in g && Drawn(g, h, made, i)
    {
      TextDrawn(p, made, o, i);
    }
    TextClosed(g, h, made);
    NodesClosed(p, iface);
    forall i: nat | i < |made|
      ensures CanCycle(g, made[i]) <==> CanCycle(h, i)
    {
      DrawnCycles(g, h, made, i);
    }
    forall i: nat, j: nat | i < |made| && Tagged(made[i].kind) && made[i].tagPtr != null && Reaches(h, i, j)
      ensures j < |made| && (made[j].selfPointer <==> CanCycle(h, j))
    {
      var k: nat :| Walk(h, i, j, k);
      DrawnReaches(g, h, made, i, j, k);
    }
  }

  /** A type that a typedef made is named and, if it is marked, on the list, or its tag's original is. */
  ghost predicate NamedAndListed(n: TypeNode, iface: Interface)
    reads n, iface
  {
    n.named && (n.selfPointer ==> (if HasOriginal(n) then n.original else n) in iface.spTypes)
  }

  /** The pointee has an array form and, if the pointer is marked, that is marked and on the list too. */
  ghost predicate FormedAndListed(n: TypeNode, iface: Interface)
    reads n, n.target, (if n.target == null then {} else {n.target.arrayRep}), iface
  {
    && n.target != null && n.target.arrayRep != null
    && (n.selfPointer ==> n.target.arrayRep.selfPointer && n.target.arrayRep in iface.spTypes)
  }

  lemma AnalysedOne(p: Parser, iface: Interface, n: TypeNode)
    requires p.Analysed(iface) && n in p.nodes && n.selfPointer
    ensures (n.kind == Pointer ==> n.named) ==> (if HasOriginal(n) then n.original else n) in iface.spTypes
    ensures n.kind == Pointer && n.target != null && n.target.arrayRep != null ==>
              n.target.arrayRep.selfPointer && n.target.arrayRep in iface.spTypes
  {
    hide CanCycle, Reaches, Resolved;
  }

  /** What the outline says of typedefs and array forms is so, and shows on the list. */
  lemma ListOfOutline(p: Parser, iface: Interface, made: seq<TypeNode>, o: Outline, i: nat)
    requires Complete(p, made, o) && p.Analysed(iface)
    ensures i in o.names ==> i < |made| && NamedAndListed(made[i], iface)
    ensures i in o.forms && (i < |made| ==> made[i].kind == Pointer) ==> i < |made| && FormedAndListed(made[i], iface)
  {
    hide Parser.Analysed, ShapeOk, MembersAre;
    if i in o.names || i in o.forms {
      assert i < |made| && p.Plain(made[i]);
      if made[i].selfPointer {
        AnalysedOne(p, iface, made[i]);
      }
    }
  }

  /** The same, said of the text. */
  lemma ListOfText(p: Parser, iface: Interface, made: seq<TypeNode>, actions: seq<Action>, j: nat)
    requires WellFormed(actions) && Complete(p, made, OutlineOf(actions)) && p.Analysed(iface) && j < |actions|
    requires MadeSo(made, Summarise(actions).made)
    ensures actions[j].MakeTypedef? || actions[j].MakeTypedefWith? ==>
              PlaceOf(actions, j) < |made| && NamedAndListed(made[PlaceOf(actions, j)], iface)
    ensures actions[j].GiveArrayForm? ==>
              actions[j].pointer < |made| && FormedAndListed(made[actions[j].pointer], iface)
  {
    hide Parser.Analysed, Complete, WellFormed, OutlineOf, Summarise, NamedAndListed, FormedAndListed;
    Outlined(actions, j);
    var i := if actions[j].GiveArrayForm? then actions[j].pointer else PlaceOf(actions, j);
    ListOfOutline(p, iface, made, OutlineOf(actions), i);
    if actions[j].GiveArrayForm? {
      PointersStay(actions, j);
    }
  }

  lemma CompleteLength(p: Parser, made: seq<TypeNode>, o: Outline)
    requires Complete(p, made, o)
    ensures |made| == |o.shapes|
  {
  }

  lemma TextClosed(g: Graph<TypeNode>, h: Graph<nat>, made: seq<TypeNode>)
    requires (forall i: nat :: i in h <==> i < |made|) && forall i: nat :: i < |made| ==> Drawn(g, h, made, i)
    ensures Closed(h)
  {
    forall x, y | x in h && y in Succ(h, x)
      ensures y in h
    {
      assert Drawn(g, h, made, x);
      var m :| 0 <= m < |Succ(h, x)| && Succ(h, x)[m] == y;
    }
  }

  lemma NodesClosed(p: Parser, iface: Interface)
    requires p.Analysed(iface)
    ensures Closed(GraphOf(p.nodes))
  {
    forall n | n in p.nodes
      ensures Linked(n, p.nodes)
    {
      assert AliasesAgree(n, p.nodes);
    }
    GraphClosed(p.nodes);
  }

  /** The nodes made are of the kinds and stand for the tags that the text says. */
  ghost predicate MadeSo(made: seq<TypeNode>, ms: seq<Made>)
    reads made
  {
    && |made| == |ms|
    && forall i :: 0 <= i < |made| ==> made[i].kind == ms[i].kind && (made[i].tagPtr == null <==> ms[i].tag == NIL_ID)
  }

  lemma MadeAsSaid(p: Parser, made: seq<TypeNode>, s: Summary)
    requires Matches(p, made, s) && p.errorCount == 0
    ensures MadeSo(made, s.made)
  {
    forall i | 0 <= i < |made|
      ensures made[i].tagPtr == null <==> s.made[i].tag == NIL_ID
    {
      assert Stands(TagsOf(made)[i], p.bindings, s.made[i].tag);
    }
  }

  /**
    Every interface: it is accepted exactly if its text is acceptable; and if it is, then exactly the
    right types are marked and listed, the references to each tag share its structure, and every type
    that is self-pointing in the header's sense is among the marked ones.  Which types are marked can be told
    from the text: the structs and unions with tags that can reach a cycle in the graph that the text
    describes, and, of whatever they lead to, again what can reach a cycle.
  */
  method Compile(actions: seq<Action>) returns (p: Parser, iface: Interface, made: seq<TypeNode>)
    requires WellFormed(actions)
    ensures p.errorCount == 0 <==> Acceptable(Summarise(actions))
    ensures p.errorCount == 0 ==> p.Analysed(iface)
    ensures p.errorCount == 0 ==> forall n :: n in p.nodes && Tagged(n.kind) && n.tagPtr != null ==>
              && n.body == n.tagPtr.body
              && (n.selfPointer <==> CanCycle(GraphOf(p.nodes), n))
              && (HeaderSelfPointing(GraphOf(p.nodes), n) ==> n.selfPointer)
    ensures p.errorCount == 0 ==> MadeSo(made, Summarise(actions).made)
    ensures p.errorCount == 0 ==> forall i: nat :: i < |made| && Tagged(made[i].kind) && made[i].tagPtr != null ==>
              (made[i].selfPointer <==> CanCycle(TextGraph(OutlineOf(actions)), i))
    ensures p.errorCount == 0 ==> forall i: nat, j: nat {:trigger Reaches(TextGraph(OutlineOf(actions)), i, j)} ::
              i < |made| && Tagged(made[i].kind) && made[i].tagPtr != null && Reaches(TextGraph(OutlineOf(actions)), i, j) ==>
                j < |made| && (made[j].selfPointer <==> CanCycle(TextGraph(OutlineOf(actions)), j))
    ensures p.errorCount == 0 ==> forall i: nat :: i < |made| && made[i].selfPointer ==> CanCycle(TextGraph(OutlineOf(actions)), i)
    ensures p.errorCount == 0 ==> forall j: nat :: j < |actions| && (actions[j].MakeTypedef? || actions[j].MakeTypedefWith?) ==>
              PlaceOf(actions, j) < |made| && NamedAndListed(made[PlaceOf(actions, j)], iface)
    ensures p.errorCount == 0 ==> forall j: nat :: j < |actions| && actions[j].GiveArrayForm? ==>
              actions[j].pointer < |made| && FormedAndListed(made[actions[j].pointer], iface)
  {
    hide PlaceOf, NamedAndListed, FormedAndListed;
    hide Parser.Parsing, Parser.Analysed, CanCycle, Reaches, HeaderSelfPointing, Parser.Resolvable, Matches, Formed;
    hide OutlineOf, Summarise, Acceptable, Complete, MadeSo;
    ghost var s;
    p, made, s := ParseAll(actions);
    iface := new Interface();
    Analyse(p, iface, made, s, OutlineOf(actions));
    if p.errorCount == 0 {
      HeaderMarks(p, iface);
      MarksOfText(p, iface, made, OutlineOf(actions));
      forall j: nat | j < |actions|
        ensures actions[j].MakeTypedef? || actions[j].MakeTypedefWith? ==>
                  PlaceOf(actions, j) < |made| && NamedAndListed(made[PlaceOf(actions, j)], iface)
        ensures actions[j].GiveArrayForm? ==>
                  actions[j].pointer < |made| && FormedAndListed(made[actions[j].pointer], iface)
      {
        ListOfText(p, iface, made, actions, j);
      }
    }
  }

  /** Patching and analysing what has been parsed. */
  method Analyse(p: Parser, iface: Interface, made: seq<TypeNode>, ghost s: Summary, ghost o: Outline)
    requires p.Parsing() && iface.spTypes == [] && Follows(p, made, s, o)
    requires Acceptable(s) <==> p.errorCount == 0 && forall id :: id in p.bindings ==> p.Resolvable(p.bindings[id])
    modifies p, p.nodes, iface
    ensures p.errorCount == 0 <==> Acceptable(s)
    ensures p.errorCount == 0 ==> p.Analysed(iface) && Complete(p, made, o) && MadeSo(made, s.made)
    ensures p.errorCount == 0 ==>
              forall n :: n in p.nodes && Tagged(n.kind) && n.tagPtr != null ==> n.body == n.tagPtr.body
  {
    hide Parser.Parsing, Parser.Analysed, Parser.Resolvable, Parser.Bodies, Matches, Formed, Acceptable, RefNodes, Resolved;
    ghost var clean := p.errorCount == 0;
    if clean {
      p.RefsAreTags();
      p.TagsDistinct();
      TagsListed(p);
      MadeAsSaid(p, made, s);
    }
    p.PatchTagReferences(iface);
    if p.errorCount == 0 {
      SharedBodies(p, iface);
      FormPatched(p, made, o);
    }
  }

  lemma SharedBodies(p: Parser, iface: Interface)
    requires p.Analysed(iface)
    ensures forall n :: n in p.nodes && Tagged(n.kind) && n.tagPtr != null ==> n.body != null && n.body == n.tagPtr.body
  {
    forall n | n in p.nodes && Tagged(n.kind) && n.tagPtr != null
      ensures n.body != null && n.body == n.tagPtr.body
    {
      assert AliasesAgree(n, p.nodes);
    }
  }

  lemma HeaderMarks(p: Parser, iface: Interface)
    requires p.Analysed(iface)
    ensures forall n :: n in p.nodes && Tagged(n.kind) && n.tagPtr != null ==>
              && (n.selfPointer <==> CanCycle(GraphOf(p.nodes), n))
              && (HeaderSelfPointing(GraphOf(p.nodes), n) ==> n.selfPointer)
  {
    hide CanCycle, Reaches, HeaderSelfPointing;
    forall n | n in p.nodes && Tagged(n.kind) && n.tagPtr != null
      ensures HeaderSelfPointing(GraphOf(p.nodes), n) ==> n.selfPointer
    {
      MarksAgainstHeader(p, iface, n);
    }
  }

  /** Every tag is bound to a struct or union. */
  lemma TagsListed(p: Parser)
    requires p.Parsing() && p.errorCount == 0
    ensures forall id :: id in p.bindings ==> p.bindings[id] in p.nodes && Tagged(p.bindings[id].kind)
  {
    assert forall id :: id in p.bindings ==> p.TagOk(p.bindings[id]);
  }

  /** Parsing: after all actions the heap is what the text says. */
  method ParseAll(actions: seq<Action>) returns (p: Parser, made: seq<TypeNode>, ghost s: Summary)
    requires WellFormed(actions)
    ensures s == Summarise(actions) && fresh(p) && fresh(p.nodes) && p.Parsing()
    ensures Follows(p, made, s, OutlineOf(actions))
    ensures Acceptable(s) <==> p.errorCount == 0 && forall id :: id in p.bindings ==> p.Resolvable(p.bindings[id])
  {
    hide Parser.Parsing, Parser.Resolvable, Effect, Grammatical, Acceptable, Follows, Draw;
    p := new Parser();
    s := Summary(false, map[], []);
    made := [];
    assert Follows(p, made, s, OutlineOf([])) by {
      Nothing(p);
    }
    assert actions[..0] == [];
    for i := 0 to |actions|
      invariant p.Parsing() && fresh(p) && fresh(p.nodes)
      invariant s == Summarise(actions[..i]) && Follows(p, made, s, OutlineOf(actions[..i]))
    {
      assert actions[..i + 1][..i] == actions[..i];
      WellFormedPrefix(actions, i + 1);
      made := Act(p, actions[i], made, s, OutlineOf(actions[..i]));
      s := Effect(actions[i], s);
    }
    assert actions[..|actions|] == actions;
    assert Matches(p, made, s) by {
      FollowsMatches(p, made, s, OutlineOf(actions));
    }
    ResolvableIffAcceptable(p, made, s);
  }

  lemma Nothing(p: Parser)
    requires p.bindings == map[] && p.errorCount == 0
    ensures Follows(p, [], Summary(false, map[], []), OutlineOf([]))
  {
  }

  lemma FollowsMatches(p: Parser, made: seq<TypeNode>, s: Summary, o: Outline)
    requires Follows(p, made, s, o)
    ensures Matches(p, made, s)
  {
  }
}
