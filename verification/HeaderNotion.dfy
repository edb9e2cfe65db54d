/**
  The definition of "self-pointing" that the syntax tree's header gives in words, a type T being
  self-pointing iff (T,T) is in the transitive closure of "contains a pointer to", and how the
  notion that the analysis computes (a cycle can be reached) compares with it.
*/
module HeaderNotion {
  import opened TypeGraph
  import opened TypeNodes
  import opened SelfPointing
  import opened Tags

  /** The edges that stay inside a value: fields, arms and elements, but not pointees. */
  ghost function ValueGraph(g: Graph<TypeNode>): Graph<TypeNode> {
    map n | n in g :: if n.kind == Pointer then [] else g[n]
  }

  ghost predicate Holds(g: Graph<TypeNode>, a: TypeNode, p: TypeNode) {
    a == p || Reaches(ValueGraph(g), a, p)
  }

  /** Two nodes for one type: a tag, its original and typedef copies share a structure. */
  ghost predicate SameType(a: TypeNode, b: TypeNode)
    reads a`body, b`body
  {
    a == b || (Tagged(a.kind) && Tagged(b.kind) && a.body != null && a.body == b.body)
  }

  /** `a` contains a pointer to `b`. */
  ghost predicate ContainsPointerTo(g: Graph<TypeNode>, a: TypeNode, b: TypeNode)
    reads b`body, g.Keys`body
  {
    exists p, t :: p in g && t in g && Holds(g, a, p) && p.kind == Pointer && t in Succ(g, p) && SameType(t, b)
  }

  ghost predicate Closure(g: Graph<TypeNode>, a: TypeNode, b: TypeNode, k: nat)
    reads b`body, g.Keys`body
  {
    if k == 0 then ContainsPointerTo(g, a, b)
    else exists m :: m in g && ContainsPointerTo(g, a, m) && Closure(g, m, b, k - 1)
  }

  /** The header's definition. */
  ghost predicate HeaderSelfPointing(g: Graph<TypeNode>, a: TypeNode)
    reads a`body, g.Keys`body
  {
    exists k: nat :: Closure(g, a, a, k)
  }

  lemma {:induction false} ValueWalk(g: Graph<TypeNode>, a: TypeNode, b: TypeNode, k: nat)
    requires Walk(ValueGraph(g), a, b, k)
    ensures Walk(g, a, b, k)
  {
    if k > 0 {
      var z :| z in Succ(ValueGraph(g), a) && Walk(ValueGraph(g), z, b, k - 1);
      ValueWalk(g, z, b, k - 1);
      assert z in Succ(g, a);
    }
  }

  lemma SameTypeSuccessors(nodes: set<TypeNode>, g: Graph<TypeNode>, a: TypeNode, b: TypeNode)
    requires g == GraphOf(nodes) && a in nodes && b in nodes && SameType(a, b)
    ensures Succ(g, a) == Succ(g, b)
  {
    if a != b {
      SharedBodyCycles(a, b, nodes, g);
    }
  }

  lemma StepReaches(nodes: set<TypeNode>, g: Graph<TypeNode>, a: TypeNode, b: TypeNode) returns (b': TypeNode)
    requires g == GraphOf(nodes) && ContainsPointerTo(g, a, b)
    ensures b' in nodes && SameType(b', b) && Reaches(g, a, b')
  {
    var p, t :| p in g && t in g && Holds(g, a, p) && p.kind == Pointer && t in Succ(g, p) && SameType(t, b);
    b' := t;
    ReachesEdge(g, p, t);
    if a != p {
      var k: nat :| Walk(ValueGraph(g), a, p, k);
      ValueWalk(g, a, p, k);
      ReachesTrans(g, a, p, t);
    }
  }

  /** Nodes with the same successors reach the same nodes. */
  lemma ReachesFromTwin(g: Graph<TypeNode>, a: TypeNode, a': TypeNode, b: TypeNode)
    requires Succ(g, a) == Succ(g, a') && Reaches(g, a, b)
    ensures Reaches(g, a', b)
  {
    var c := FirstEdge(g, a, b);
    ReachesEdge(g, a', c);
    if c != b {
      ReachesTrans(g, a', c, b);
    }
  }

  lemma {:induction false} ClosureReaches(nodes: set<TypeNode>, g: Graph<TypeNode>, a: TypeNode, b: TypeNode, k: nat)
    returns (b': TypeNode)
    requires g == GraphOf(nodes) && Closure(g, a, b, k)
    ensures b' in nodes && SameType(b', b) && Reaches(g, a, b')
    decreases k
  {
    hide Reaches, ContainsPointerTo;
    if k == 0 {
      b' := StepReaches(nodes, g, a, b);
    } else {
      var m :| m in g && ContainsPointerTo(g, a, m) && Closure(g, m, b, k - 1);
      var m' := StepReaches(nodes, g, a, m);
      b' := ClosureReaches(nodes, g, m, b, k - 1);
      SameTypeSuccessors(nodes, g, m', m);
      ReachesFromTwin(g, m, m', b');
      ReachesTrans(g, a, m', b');
    }
  }

  /** A type that the header calls self-pointing reaches a node for itself. */
  lemma HeaderReaches(nodes: set<TypeNode>, g: Graph<TypeNode>, a: TypeNode) returns (a': TypeNode)
    requires g == GraphOf(nodes) && HeaderSelfPointing(g, a)
    ensures a' in nodes && SameType(a', a) && Reaches(g, a, a')
  {
    var k: nat :| Closure(g, a, a, k);
    a' := ClosureReaches(nodes, g, a, a, k);
  }

  /** Every type that the header calls self-pointing can reach a cycle. */
  lemma HeaderImpliesCycle(nodes: set<TypeNode>, g: Graph<TypeNode>, a: TypeNode)
    requires g == GraphOf(nodes) && a in nodes && HeaderSelfPointing(g, a)
    ensures CanCycle(g, a)
  {
    var a' := HeaderReaches(nodes, g, a);
    SameTypeSuccessors(nodes, g, a, a');
    ReachesFromTwin(g, a, a', a');
    OnCycleCanCycle(g, a');
    CycleBehind(g, a, a');
  }

  lemma ValueEdge(g: Graph<TypeNode>, a: TypeNode, c: TypeNode, p: TypeNode)
    requires a in g && a.kind != Pointer && c in Succ(g, a) && Holds(g, c, p)
    ensures Holds(g, a, p)
  {
    assert c in Succ(ValueGraph(g), a);
    ReachesEdge(ValueGraph(g), a, c);
    if c != p {
      ReachesTrans(ValueGraph(g), a, c, p);
    }
  }

  /** A walk to a pointer is a chain of pointers contained in one another. */
  lemma {:induction false} WalkIsClosure(g: Graph<TypeNode>, a: TypeNode, p: TypeNode, t: TypeNode, k: nat)
    returns (j: nat)
    requires Closed(g) && a in g && p in g && p.kind == Pointer && t in Succ(g, p)
    requires Walk(g, a, p, k)
    ensures Closure(g, a, t, j)
    decreases k
  {
    hide ContainsPointerTo, Closure;
    var c :| c in Succ(g, a) && if k == 0 then c == p else Walk(g, c, p, k - 1);
    if c == p {
      PointerPointsTo(g, p, t);
      j := 0;
    } else {
      j := WalkIsClosure(g, c, p, t, k - 1);
    }
    if a.kind == Pointer {
      PointerPointsTo(g, a, c);
      PrependPointer(g, a, c, t, j);
      j := j + 1;
    } else {
      PrependValue(g, a, c, t, j);
    }
  }

  lemma PointerPointsTo(g: Graph<TypeNode>, p: TypeNode, t: TypeNode)
    requires Closed(g) && p in g && p.kind == Pointer && t in Succ(g, p)
    ensures ContainsPointerTo(g, p, t) && Closure(g, p, t, 0)
  {
    assert t in g && Holds(g, p, p) && SameType(t, t);
  }

  lemma PrependPointer(g: Graph<TypeNode>, a: TypeNode, c: TypeNode, t: TypeNode, j: nat)
    requires c in g && ContainsPointerTo(g, a, c) && Closure(g, c, t, j)
    ensures Closure(g, a, t, j + 1)
  {
  }

  /** What a field, arm or element contains pointers to, the whole does too. */
  lemma PrependValue(g: Graph<TypeNode>, a: TypeNode, c: TypeNode, t: TypeNode, j: nat)
    requires a in g && a.kind != Pointer && c in Succ(g, a) && Closure(g, c, t, j)
    ensures Closure(g, a, t, j)
  {
    if j == 0 {
      PrependStep(g, a, c, t);
    } else {
      var m :| m in g && ContainsPointerTo(g, c, m) && Closure(g, m, t, j - 1);
      PrependStep(g, a, c, m);
    }
  }

  lemma PrependStep(g: Graph<TypeNode>, a: TypeNode, c: TypeNode, b: TypeNode)
    requires a in g && a.kind != Pointer && c in Succ(g, a) && ContainsPointerTo(g, c, b)
    ensures ContainsPointerTo(g, a, b)
  {
    var p, t :| p in g && t in g && Holds(g, c, p) && p.kind == Pointer && t in Succ(g, p) && SameType(t, b);
    ValueEdge(g, a, c, p);
  }

  /** A walk either stays inside values or goes through a pointer. */
  lemma {:induction false} WalkMeetsPointer(g: Graph<TypeNode>, a: TypeNode, b: TypeNode, k: nat)
    returns (p: TypeNode, t: TypeNode)
    requires Closed(g) && a in g && Walk(g, a, b, k)
    ensures Reaches(ValueGraph(g), a, b) ||
            (p in g && p.kind == Pointer && (p == a || Reaches(g, a, p))
             && t in Succ(g, p) && (t == b || Reaches(g, t, b)))
  {
    p, t := a, b;
    var c :| c in Succ(g, a) && if k == 0 then c == b else Walk(g, c, b, k - 1);
    if a.kind == Pointer {
      t := c;
    } else {
      ReachesEdge(ValueGraph(g), a, c);
      ReachesEdge(g, a, c);
      if c != b {
        p, t := WalkMeetsPointer(g, c, b, k - 1);
        if Reaches(ValueGraph(g), c, b) {
          ReachesTrans(ValueGraph(g), a, c, b);
        } else if p != c {
          ReachesTrans(g, a, c, p);
        }
      }
    }
  }

  ghost predicate From(g: Graph<TypeNode>, a: TypeNode, u: TypeNode) {
    u in g && (u == a || Reaches(g, a, u))
  }

  /** Exactly what the analysis adds to the header's notion: a type is marked iff it reaches one that
      the header calls self-pointing, or one that contains itself by value. */
  lemma CycleIffHeader(nodes: set<TypeNode>, g: Graph<TypeNode>, a: TypeNode)
    requires g == GraphOf(nodes) && Closed(g) && a in g
    ensures CanCycle(g, a) <==>
              exists u :: From(g, a, u) && (HeaderSelfPointing(g, u) || Reaches(ValueGraph(g), u, u))
  {
    if CanCycle(g, a) {
      var m :| m in g && OnCycle(g, m) && (m == a || Reaches(g, a, m));
      assert From(g, a, m);
      var k: nat :| Walk(g, m, m, k);
      var p, t := WalkMeetsPointer(g, m, m, k);
      if !Reaches(ValueGraph(g), m, m) {
        PointerCycle(g, a, m, p, t);
      }
    }
    forall u | From(g, a, u) && (HeaderSelfPointing(g, u) || Reaches(ValueGraph(g), u, u))
      ensures CanCycle(g, a)
    {
      if HeaderSelfPointing(g, u) {
        HeaderImpliesCycle(nodes, g, u);
      } else {
        var k: nat :| Walk(ValueGraph(g), u, u, k);
        ValueWalk(g, u, u, k);
        OnCycleCanCycle(g, u);
      }
      if u != a {
        CycleBehind(g, a, u);
      }
    }
  }

  /** The pointee of a pointer on a cycle is self-pointing in the header's sense. */
  lemma PointerCycle(g: Graph<TypeNode>, a: TypeNode, m: TypeNode, p: TypeNode, t: TypeNode)
    requires Closed(g) && From(g, a, m) && p in g && p.kind == Pointer && (p == m || Reaches(g, m, p))
    requires t in Succ(g, p) && (t == m || Reaches(g, t, m))
    ensures From(g, a, t) && HeaderSelfPointing(g, t)
  {
    ReachesEdge(g, p, t);
    if p != m {
      ReachesTrans(g, m, p, t);
    }
    if m != a {
      ReachesTrans(g, a, m, t);
    }
    if t == p {
      PointerPointsTo(g, t, t);
    } else {
      if t != m && p != m {
        ReachesTrans(g, t, m, p);
      }
      var k: nat :| Walk(g, t, p, k);
      var j := WalkIsClosure(g, t, p, t, k);
    }
  }

  /** After a run of the analysis without errors, the marks compare with the header's definition thus. */
  lemma MarksAgainstHeader(p: Parser, iface: Interface, n: TypeNode)
    requires p.Analysed(iface) && n in p.nodes && Tagged(n.kind) && n.tagPtr != null
    ensures var g := GraphOf(p.nodes);
            && (HeaderSelfPointing(g, n) ==> n.selfPointer)
            && (n.selfPointer <==>
                  exists u :: From(g, n, u) && (HeaderSelfPointing(g, u) || Reaches(ValueGraph(g), u, u)))
  {
    hide CanCycle, Reaches, HeaderSelfPointing;
    var g := GraphOf(p.nodes);
    forall m | m in p.nodes
      ensures Linked(m, p.nodes)
    {
      assert AliasesAgree(m, p.nodes);
    }
    GraphClosed(p.nodes);
    CycleIffHeader(p.nodes, g, n);
    if HeaderSelfPointing(g, n) {
      HeaderImpliesCycle(p.nodes, g, n);
    }
  }

  lemma {:induction false} NoWalk(g: Graph<TypeNode>, x: TypeNode, a: TypeNode, k: nat)
    requires forall y :: y in g ==> a !in g[y]
    ensures !Walk(g, x, a, k)
  {
    if k > 0 {
      forall z | z in Succ(g, x)
        ensures !Walk(g, z, a, k - 1)
      {
        NoWalk(g, z, a, k - 1);
      }
    }
  }

  lemma NoWalkInto(g: Graph<TypeNode>, x: TypeNode, a: TypeNode)
    requires forall y :: y in g ==> a !in g[y]
    ensures !Reaches(g, x, a)
  {
    if Reaches(g, x, a) {
      var k: nat :| Walk(g, x, a, k);
      NoWalk(g, x, a, k);
    }
  }

  /** The marks say more than the definition: a struct that holds a self-pointing one by value is
      marked, although nothing in it can point back to it. */
  lemma ContainerMarked(nodes: set<TypeNode>, a: TypeNode, b: TypeNode, p: TypeNode)
    requires nodes == {a, b, p} && a.kind == b.kind == Structure && p.kind == Pointer
    requires a.body != null && b.body != null && a.body != b.body
    requires a.body.members == [b] && b.body.members == [p] && p.target == b
    ensures CanCycle(GraphOf(nodes), a) && !HeaderSelfPointing(GraphOf(nodes), a)
  {
    hide CanCycle, Walk, Reaches, HeaderSelfPointing;
    var g := GraphOf(nodes);
    assert b in Succ(g, a) && p in Succ(g, b) && b in Succ(g, p);
    ReachesEdge(g, b, p);
    ReachesEdge(g, p, b);
    ReachesTrans(g, b, p, b);
    OnCycleCanCycle(g, b);
    CycleBySuccessors(g, a);
    if HeaderSelfPointing(g, a) {
      var a' := HeaderReaches(nodes, g, a);
      assert a' == a;
      NoWalkInto(g, a, a);
    }
  }
}
