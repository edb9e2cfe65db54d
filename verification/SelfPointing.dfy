/**
  The self-pointing analysis: a depth-first walk over the type graph that carries the chain
  of types it is currently inside, marks every type on the chain when it meets a type that is
  on the chain or already marked, and collects the marked types in the interface's sp_types
  list.
*/
module SelfPointing {
  import opened TypeGraph
  import opened TypeNodes
  import opened Utils

  /** The marks of a set of nodes: who is self-pointing, who is flagged as listed, and the list. */
  datatype Marks = Marks(marked: set<TypeNode>, flagged: set<TypeNode>, list: seq<TypeNode>)

  /** What holds of the marks at every moment of the analysis. */
  ghost predicate Good(m: Marks, g: Graph<TypeNode>, originals: map<TypeNode, TypeNode>) {
    // marks are sound
    && m.marked <= Cyclers(g)
    && m.flagged <= m.marked
    // a tag is flagged as soon as it is marked, and no later than its original
    && m.marked * originals.Keys <= m.flagged
    && (forall t :: t in originals && originals[t] in m.flagged ==> t in m.flagged)
    // the list holds flagged types, none twice, and no tag beside its original
    && Distinct(m.list)
    && (forall n :: n in m.list ==> n in m.flagged && n !in originals)
  }

  /** Marks only grow; what is newly marked is flagged, but for pointers; and what is newly flagged
      is on the list, a tag through its original. */
  ghost predicate Adds(m: Marks, m': Marks, originals: map<TypeNode, TypeNode>) {
    && m.marked <= m'.marked
    && m.flagged <= m'.flagged
    && m.list <= m'.list
    && (forall n :: n in m'.marked && n !in m.marked && n.kind != Pointer ==> n in m'.flagged)
    && (forall n :: n in m'.flagged && n !in m.flagged ==>
          (if n in originals then originals[n] else n) in m'.list)
  }

  /** A marked pointer is flagged if it has a name, and so is the array form of its pointee if there is one. */
  ghost predicate Completed(m: Marks, p: TypeNode, nodes: set<TypeNode>)
    reads p`named, p`target, nodes`arrayRep
  {
    && (p.named ==> p in m.flagged)
    && (p.target != null && p.target in nodes && p.target.arrayRep != null ==> p.target.arrayRep in m.flagged)
  }

  /** Pointers that are newly marked are completed. */
  ghost predicate Completes(m: Marks, m': Marks, nodes: set<TypeNode>)
    reads nodes`named, nodes`target, nodes`arrayRep
  {
    forall p {:trigger Completed(m', p, nodes)} ::
      p in nodes && p in m'.marked && p !in m.marked && p.kind == Pointer ==> Completed(m', p, nodes)
  }

  ghost predicate Grows(m: Marks, m': Marks, nodes: set<TypeNode>, originals: map<TypeNode, TypeNode>)
    reads nodes`named, nodes`target, nodes`arrayRep
  {
    Adds(m, m', originals) && Completes(m, m', nodes)
  }

  lemma GrowsRefl(m: Marks, nodes: set<TypeNode>, originals: map<TypeNode, TypeNode>)
    ensures Grows(m, m, nodes, originals)
  {
  }

  lemma MarksStay(m: Marks, m': Marks, nodes: set<TypeNode>, originals: map<TypeNode, TypeNode>)
    requires Grows(m, m', nodes, originals)
    ensures m.marked <= m'.marked
  {
  }

  lemma AddsTrans(m0: Marks, m1: Marks, m2: Marks, originals: map<TypeNode, TypeNode>)
    requires Adds(m0, m1, originals) && Adds(m1, m2, originals)
    ensures Adds(m0, m2, originals)
  {
  }

  lemma GrowsTrans(m0: Marks, m1: Marks, m2: Marks, nodes: set<TypeNode>, originals: map<TypeNode, TypeNode>)
    requires Grows(m0, m1, nodes, originals) && Grows(m1, m2, nodes, originals)
    ensures Grows(m0, m2, nodes, originals)
  {
    AddsTrans(m0, m1, m2, originals);
    forall p | p in nodes && p in m2.marked && p !in m0.marked && p.kind == Pointer
      ensures Completed(m2, p, nodes)
    {
      if p in m1.marked {
        assert Completed(m1, p, nodes);
      }
    }
  }

  ghost function Mark(m: Marks, n: TypeNode): Marks {
    m.(marked := m.marked + {n})
  }

  ghost function Flag(m: Marks, n: TypeNode): Marks {
    m.(flagged := m.flagged + {n})
  }

  /** Entering a marked type in the list: as itself, or, for a defined tag, through its original. */
  ghost function Enter(m: Marks, n: TypeNode, originals: map<TypeNode, TypeNode>): Marks {
    var e := if n in originals then originals[n] else n;
    var m' := if n in originals then Flag(Mark(Flag(m, n), e), e) else m;
    Flag(m', e).(list := m.list + [e])
  }

  lemma EnterKeeps(m: Marks, n: TypeNode, g: Graph<TypeNode>, originals: map<TypeNode, TypeNode>)
    requires Good(m, g, originals) && n in Cyclers(g) && n !in m.flagged
    requires forall t :: t in originals ==> originals[t] !in originals
    requires forall t, u :: t in originals && u in originals && originals[t] == originals[u] ==> t == u
    requires forall t :: t in originals && originals[t] == n ==> t in m.flagged
    requires n in originals ==> originals[n] in Cyclers(g)
    ensures var m' := Enter(Mark(m, n), n, originals);
            Good(m', g, originals) && Adds(m, m', originals)
  {
  }

  lemma SharedBodyCycles(a: TypeNode, b: TypeNode, nodes: set<TypeNode>, g: Graph<TypeNode>)
    requires g == GraphOf(nodes) && a in nodes && b in nodes
    requires Tagged(a.kind) && Tagged(b.kind) && a.body == b.body
    ensures Succ(g, a) == Succ(g, b)
    ensures CanCycle(g, a) <==> CanCycle(g, b)
  {
    assert Children(a) == Children(b);
    SharedSuccessors(g, a, b);
  }

  /** If following a pointer reaches a cycle, so does following the array form of its pointee. */
  lemma ArrayRepCycles(n: TypeNode, rep: TypeNode, nodes: set<TypeNode>, g: Graph<TypeNode>)
    requires g == GraphOf(nodes) && Resolved(nodes) && n in nodes
    requires n.kind == Pointer && n.target != null && n.target.arrayRep == rep && CanCycle(g, n)
    ensures rep in nodes && rep.kind == Array && CanCycle(g, rep)
  {
    hide CanCycle, Walk, Reaches;
    assert AliasesAgree(n, nodes);
    var c := CycleAhead(g, n);
    assert c in Children(n);
    var pointee: TypeNode := n.target;
    assert AliasesAgree(pointee, nodes) && AliasesAgree(rep, nodes);
    if rep.target != pointee {
      SharedBodyCycles(pointee, rep.target, nodes, g);
    }
    var element: TypeNode := rep.target;
    assert element in Succ(g, rep);
    CycleBySuccessors(g, rep);
  }

  /** The chain below `cur`: `cur` itself and, for a struct or union with a tag, the tag above it. */
  function Link(chain: seq<TypeNode>, cur: TypeNode): seq<TypeNode>
    reads cur`tagPtr
  {
    if Tagged(cur.kind) && cur.tagPtr != null then [cur.tagPtr, cur] + chain else [cur] + chain
  }

  /** The types not on the chain: what bounds the walk, although a tag can be on the chain twice. */
  ghost function OffChain(nodes: set<TypeNode>, chain: seq<TypeNode>): set<TypeNode> {
    set n | n in nodes && n !in chain
  }

  lemma LinkShrinks(chain: seq<TypeNode>, cur: TypeNode, nodes: set<TypeNode>)
    requires cur in nodes && cur !in chain
    ensures OffChain(nodes, Link(chain, cur)) < OffChain(nodes, chain)
  {
    var link := Link(chain, cur);
    assert cur in link && cur in OffChain(nodes, chain);
    assert forall n :: n in chain ==> n in link;
  }

  /** Every chain entry that is a tag's original has that tag above it, nearer the head. */
  ghost predicate TagsAbove(chain: seq<TypeNode>, originals: map<TypeNode, TypeNode>) {
    forall i, t :: 0 <= i < |chain| && t in originals && originals[t] == chain[i] ==> t in chain[..i]
  }

  /** A chain that led to `cur`. */
  ghost predicate LeadsTo(chain: seq<TypeNode>, cur: TypeNode, g: Graph<TypeNode>, originals: map<TypeNode, TypeNode>) {
    && cur in g
    && (forall i :: 0 <= i < |chain| ==> chain[i] in g && Reaches(g, chain[i], cur))
    && TagsAbove(chain, originals)
    && (forall i :: 0 <= i < |chain| ==> Followed(chain, i, cur, g))
  }

  /** What a pointer on the chain points to is the next type of the walk. */
  ghost predicate Followed(chain: seq<TypeNode>, i: nat, cur: TypeNode, g: Graph<TypeNode>)
    requires i < |chain|
  {
    chain[i].kind == Pointer ==> forall c :: c in Succ(g, chain[i]) ==> c == cur || c in chain[..i]
  }

  ghost predicate AllIn<T>(s: seq<T>, where: set<T>) {
    forall i :: 0 <= i < |s| ==> s[i] in where
  }

  lemma TagsStayAbove(chain: seq<TypeNode>, cur: TypeNode, nodes: set<TypeNode>, originals: map<TypeNode, TypeNode>)
    requires originals == Originals(nodes) && Resolved(nodes) && cur in nodes && TagsAbove(chain, originals)
    ensures TagsAbove(Link(chain, cur), originals)
  {
    var link := Link(chain, cur);
    var shift := |link| - |chain|;
    assert forall i :: shift <= i < |link| ==> link[i] == chain[i - shift];
    assert AliasesAgree(cur, nodes);
    forall i, t | 0 <= i < |link| && t in originals && originals[t] == link[i]
      ensures t in link[..i]
    {
      assert AliasesAgree(t, nodes);
      if i >= shift {
        assert t in chain[..i - shift];
        var j :| 0 <= j < i - shift && chain[j] == t;
        assert link[..i][j + shift] == t;
      } else if i == 1 {
        assert link[..i][0] == t;
      }
    }
  }

  lemma LinkCovers(chain: seq<TypeNode>, cur: TypeNode, where: set<TypeNode>)
    requires AllIn(Link(chain, cur), where)
    ensures cur in where && AllIn(chain, where)
  {
    var link := Link(chain, cur);
    var shift := |link| - |chain|;
    assert link[shift - 1] == cur && forall i :: 0 <= i < |chain| ==> link[i + shift] == chain[i];
  }

  /** Stepping from `cur` to one of its children keeps what the walk needs of its chain. */
  lemma Descend(chain: seq<TypeNode>, cur: TypeNode, child: TypeNode,
                nodes: set<TypeNode>, g: Graph<TypeNode>, originals: map<TypeNode, TypeNode>)
    requires g == GraphOf(nodes) && originals == Originals(nodes) && Resolved(nodes)
    requires LeadsTo(chain, cur, g, originals) && child in Children(cur)
    ensures LeadsTo(Link(chain, cur), child, g, originals)
  {
    hide CanCycle, Walk, Reaches;
    var link := Link(chain, cur);
    assert AliasesAgree(cur, nodes);
    assert child in Succ(g, cur);
    ReachesEdge(g, cur, child);
    var shift := |link| - |chain|;
    assert forall i :: shift <= i < |link| ==> link[i] == chain[i - shift];
    forall i | 0 <= i < |link|
      ensures link[i] in g && Reaches(g, link[i], child)
    {
      if i >= shift {
        ReachesTrans(g, link[i], cur, child);
      } else if link[i] != cur {
        SharedBodyCycles(link[i], cur, nodes, g);
        ReachesEdge(g, link[i], child);
      }
    }
    TagsStayAbove(chain, cur, nodes, originals);
    forall i | 0 <= i < |link|
      ensures Followed(link, i, child, g)
    {
      StillFollowed(chain, cur, child, i, nodes, g);
    }
  }

  lemma StillFollowed(chain: seq<TypeNode>, cur: TypeNode, child: TypeNode, i: nat, nodes: set<TypeNode>, g: Graph<TypeNode>)
    requires g == GraphOf(nodes) && cur in nodes && child in Children(cur) && i < |Link(chain, cur)|
    requires AliasesAgree(cur, nodes) && forall j :: 0 <= j < |chain| ==> Followed(chain, j, cur, g)
    ensures Followed(Link(chain, cur), i, child, g)
  {
    var link := Link(chain, cur);
    var shift := |link| - |chain|;
    assert link[shift - 1] == cur && forall j :: shift <= j < |link| ==> link[j] == chain[j - shift];
    if i >= shift && link[i].kind == Pointer {
      forall c | c in Succ(g, link[i])
        ensures c in link[..i]
      {
        assert Followed(chain, i - shift, cur, g);
        if c == cur {
          assert link[..i][shift - 1] == cur;
        } else {
          var j :| 0 <= j < i - shift && chain[j] == c;
          assert link[..i][j + shift] == c;
        }
      }
    }
  }

  // ----- nothing that can be reached from a marked type is missed -----

  /** Whatever a type leads to next is marked if it can reach a cycle. */
  ghost predicate Settled(m: Marks, n: TypeNode, g: Graph<TypeNode>) {
    forall c :: c in Succ(g, n) && c in Cyclers(g) ==> c in m.marked
  }

  /** The structure of `n` is being walked. */
  ghost predicate Underway(chain: seq<TypeNode>, n: TypeNode, g: Graph<TypeNode>) {
    exists i :: 0 <= i < |chain| && Succ(g, chain[i]) == Succ(g, n)
  }

  /** Marked types are settled or being walked, and a flagged tag has its original marked. */
  ghost predicate Whole(m: Marks, chain: seq<TypeNode>, g: Graph<TypeNode>, originals: map<TypeNode, TypeNode>) {
    && (forall n {:trigger Settled(m, n, g)} {:trigger Underway(chain, n, g)} ::
          n in m.marked ==> Settled(m, n, g) || Underway(chain, n, g))
    && (forall t :: t in originals && t in m.flagged ==> originals[t] in m.marked)
  }

  /** What processing `n` may mark besides: its original, or the array form of its pointee. */
  ghost predicate MarkedWith(n: TypeNode, x: TypeNode, nodes: set<TypeNode>, originals: map<TypeNode, TypeNode>)
    reads n`target, nodes`arrayRep
  {
    || x == n
    || (n in originals && x == originals[n])
    || (n.kind == Pointer && n.target != null && n.target in nodes && n.target.arrayRep == x)
  }

  lemma NewlyMarked(m: Marks, n: TypeNode, nodes: set<TypeNode>, originals: map<TypeNode, TypeNode>)
    requires originals == Originals(nodes) && Resolved(nodes) && n in nodes
    ensures forall x :: x in Processed(m, n, nodes, originals).marked && x !in m.marked ==> MarkedWith(n, x, nodes, originals)
    ensures forall t :: t in originals && t in Processed(m, n, nodes, originals).flagged && t !in m.flagged ==>
              originals[t] in Processed(m, n, nodes, originals).marked
    ensures m.marked <= Processed(m, n, nodes, originals).marked
    decreases n.kind == Pointer
  {
    Pairing(nodes);
    assert AliasesAgree(n, nodes);
    if n !in m.flagged && n.kind == Pointer && n.target.arrayRep != null {
      var rep: TypeNode := n.target.arrayRep;
      assert AliasesAgree(n.target, nodes) && AliasesAgree(rep, nodes);
      NewlyMarked(Mark(m, n), rep, nodes, originals);
    }
  }

  lemma {:induction false} NewlyMarkedAll(m: Marks, chain: seq<TypeNode>, k: nat, nodes: set<TypeNode>,
                                          originals: map<TypeNode, TypeNode>)
    requires originals == Originals(nodes) && Resolved(nodes) && k <= |chain| && AllIn(chain, nodes)
    ensures var m' := ProcessedAll(m, chain, k, nodes, originals);
            && (forall x :: x in m'.marked && x !in m.marked ==>
                  exists i :: 0 <= i < k && MarkedWith(chain[i], x, nodes, originals))
            && (forall t :: t in originals && t in m'.flagged && t !in m.flagged ==> originals[t] in m'.marked)
            && m.marked <= m'.marked
    decreases k
  {
    if k > 0 {
      NewlyMarkedAll(m, chain, k - 1, nodes, originals);
      NewlyMarked(ProcessedAll(m, chain, k - 1, nodes, originals), chain[k - 1], nodes, originals);
    }
  }

  lemma SettledStays(m: Marks, m': Marks, n: TypeNode, g: Graph<TypeNode>)
    requires Settled(m, n, g) && m.marked <= m'.marked
    ensures Settled(m', n, g)
  {
  }

  /** The array form of what a marked pointer points to is settled once the pointee is marked. */
  lemma FormSettled(m: Marks, p: TypeNode, rep: TypeNode, nodes: set<TypeNode>, g: Graph<TypeNode>,
                    originals: map<TypeNode, TypeNode>)
    requires g == GraphOf(nodes) && originals == Originals(nodes) && Resolved(nodes) && Good(m, g, originals)
    requires p in nodes && p.kind == Pointer && p.target != null && p.target.arrayRep == rep && p.target in m.marked
    requires forall t :: t in originals && t in m.flagged ==> originals[t] in m.marked
    ensures Settled(m, rep, g)
  {
    assert AliasesAgree(p, nodes);
    assert AliasesAgree(p.target, nodes);
    assert AliasesAgree(rep, nodes);
    assert Succ(g, rep) == [rep.target];
    if rep.target != p.target {
      assert p.target in originals && rep.target == originals[p.target];
      assert p.target in m.marked * originals.Keys;
    }
  }

  /** Processing the whole chain when a cycle is found misses nothing. */
  lemma WholeAfterChain(m: Marks, chain: seq<TypeNode>, cur: TypeNode, nodes: set<TypeNode>,
                        g: Graph<TypeNode>, originals: map<TypeNode, TypeNode>)
    requires g == GraphOf(nodes) && originals == Originals(nodes) && Resolved(nodes)
    requires LeadsTo(chain, cur, g, originals) && AllIn(chain, nodes) && Whole(m, chain, g, originals)
    requires Good(ProcessedAll(m, chain, |chain|, nodes, originals), g, originals)
    requires cur in ProcessedAll(m, chain, |chain|, nodes, originals).marked
    requires AllIn(chain, ProcessedAll(m, chain, |chain|, nodes, originals).marked)
    ensures Whole(ProcessedAll(m, chain, |chain|, nodes, originals), chain, g, originals)
  {
    hide CanCycle, Good, Processed, ProcessedAll;
    var m' := ProcessedAll(m, chain, |chain|, nodes, originals);
    NewlyMarkedAll(m, chain, |chain|, nodes, originals);
    forall n | n in m'.marked
      ensures Settled(m', n, g) || Underway(chain, n, g)
    {
      if n in m.marked {
        if Settled(m, n, g) {
          SettledStays(m, m', n, g);
        }
      } else {
        var i :| 0 <= i < |chain| && MarkedWith(chain[i], n, nodes, originals);
        var p := chain[i];
        if n == p {
        } else if p in originals && n == originals[p] {
          assert AliasesAgree(p, nodes);
          SharedBodyCycles(p, n, nodes, g);
        } else {
          assert Followed(chain, i, cur, g) && p.target in Children(p);
          assert p.target in Succ(g, p);
          assert p.target in m'.marked by {
            if p.target != cur {
              var j :| 0 <= j < i && chain[j] == p.target;
            }
          }
          FormSettled(m', p, n, nodes, g, originals);
        }
      }
    }
  }

  /** Once everything that `cur` leads to has been walked, it is settled. */
  lemma WholeAfterLink(m: Marks, chain: seq<TypeNode>, cur: TypeNode, nodes: set<TypeNode>,
                       g: Graph<TypeNode>, originals: map<TypeNode, TypeNode>)
    requires g == GraphOf(nodes) && Resolved(nodes) && cur in nodes
    requires Whole(m, Link(chain, cur), g, originals) && Settled(m, cur, g)
    ensures Whole(m, chain, g, originals)
  {
    hide CanCycle;
    var link := Link(chain, cur);
    var shift := |link| - |chain|;
    assert forall i :: shift <= i < |link| ==> link[i] == chain[i - shift];
    forall i | 0 <= i < shift
      ensures Succ(g, link[i]) == Succ(g, cur)
    {
      assert AliasesAgree(cur, nodes);
      if link[i] != cur {
        SharedBodyCycles(link[i], cur, nodes, g);
      }
    }
    forall n | n in m.marked
      ensures Settled(m, n, g) || Underway(chain, n, g)
    {
      if Underway(link, n, g) {
        var i :| 0 <= i < |link| && Succ(g, link[i]) == Succ(g, n);
        if i >= shift {
          assert Succ(g, chain[i - shift]) == Succ(g, n);
        }
      }
    }
  }

  lemma WholeMoreChain(m: Marks, chain: seq<TypeNode>, cur: TypeNode, g: Graph<TypeNode>, originals: map<TypeNode, TypeNode>)
    requires Whole(m, chain, g, originals)
    ensures Whole(m, Link(chain, cur), g, originals)
  {
    var link := Link(chain, cur);
    var shift := |link| - |chain|;
    forall n | n in m.marked
      ensures Settled(m, n, g) || Underway(link, n, g)
    {
      if Underway(chain, n, g) {
        var i :| 0 <= i < |chain| && Succ(g, chain[i]) == Succ(g, n);
        assert link[i + shift] == chain[i];
      }
    }
  }

  /** What processing a self-pointing type does: it is marked, the array form of a pointer's
      pointee is processed, and it is entered in the list unless it is an anonymous pointer. */
  ghost function Processed(m: Marks, n: TypeNode, nodes: set<TypeNode>, originals: map<TypeNode, TypeNode>): Marks
    requires n in nodes
    reads nodes`target, nodes`named, nodes`arrayRep
    decreases n.kind == Pointer
  {
    if n in m.flagged then m
    else
      var rep := if n.kind == Pointer && n.target != null && n.target in nodes then n.target.arrayRep else null;
      var m' := if rep != null && rep in nodes && rep.kind == Array
                then Processed(Mark(m, n), rep, nodes, originals) else Mark(m, n);
      if n.kind == Pointer && !n.named then m' else Enter(m', n, originals)
  }

  lemma ProcessedKeeps(m: Marks, n: TypeNode, nodes: set<TypeNode>,
                       g: Graph<TypeNode>, originals: map<TypeNode, TypeNode>)
    requires g == GraphOf(nodes) && originals == Originals(nodes) && Resolved(nodes)
    requires Good(m, g, originals) && n in nodes && n in Cyclers(g)
    requires forall t :: t in originals && originals[t] == n ==> t in m.flagged
    ensures Good(Processed(m, n, nodes, originals), g, originals)
    ensures Grows(m, Processed(m, n, nodes, originals), nodes, originals)
    ensures n in Processed(m, n, nodes, originals).marked
    ensures n.kind != Pointer ==> n in Processed(m, n, nodes, originals).flagged
    ensures n.kind == Array ==> Processed(m, n, nodes, originals).flagged == m.flagged + {n}
    decreases n.kind == Pointer, 2
  {
    hide CanCycle, Walk, Reaches;
    Pairing(nodes);
    assert AliasesAgree(n, nodes);
    if n !in m.flagged {
      if n in originals {
        SharedBodyCycles(n, originals[n], nodes, g);
      }
      if n.kind == Pointer {
        ProcessedPointerKeeps(m, n, nodes, g, originals);
      } else {
        EnterKeeps(m, n, g, originals);
      }
    }
  }

  lemma MarkPointerKeeps(m: Marks, n: TypeNode, g: Graph<TypeNode>, originals: map<TypeNode, TypeNode>)
    requires Good(m, g, originals) && n in Cyclers(g) && n.kind == Pointer && n !in originals
    ensures Good(Mark(m, n), g, originals) && Adds(m, Mark(m, n), originals)
  {
  }

  /** The array form of the pointee of a pointer is processed right after the pointer is marked. */
  lemma ProcessedForm(m: Marks, n: TypeNode, nodes: set<TypeNode>, g: Graph<TypeNode>, originals: map<TypeNode, TypeNode>)
    returns (m': Marks)
    requires g == GraphOf(nodes) && originals == Originals(nodes) && Resolved(nodes)
    requires Good(m, g, originals) && n in nodes && n in Cyclers(g) && n.kind == Pointer && n !in m.flagged
    ensures Good(m', g, originals) && Adds(m, m', originals) && n in m'.marked && n !in m'.flagged
    ensures n.target != null && n.target in nodes && (n.target.arrayRep != null ==> n.target.arrayRep in m'.flagged)
    ensures forall p :: p in m'.marked && p !in m.marked ==> p == n || p.kind != Pointer
    ensures Processed(m, n, nodes, originals) == if n.named then Enter(m', n, originals) else m'
    decreases true, 0
  {
    hide CanCycle, Walk, Reaches, Good;
    Pairing(nodes);
    assert AliasesAgree(n, nodes);
    MarkPointerKeeps(m, n, g, originals);
    var m1 := Mark(m, n);
    m' := m1;
    if n.target.arrayRep != null {
      var rep: TypeNode := n.target.arrayRep;
      ArrayRepCycles(n, rep, nodes, g);
      assert AliasesAgree(n.target, nodes) && AliasesAgree(rep, nodes);
      ProcessedKeeps(m1, rep, nodes, g, originals);
      m' := Processed(m1, rep, nodes, originals);
      AddsTrans(m, m1, m', originals);
      assert m' == m1 || m' == Enter(Mark(m1, rep), rep, originals);
    }
  }

  lemma ProcessedPointerKeeps(m: Marks, n: TypeNode, nodes: set<TypeNode>,
                              g: Graph<TypeNode>, originals: map<TypeNode, TypeNode>)
    requires g == GraphOf(nodes) && originals == Originals(nodes) && Resolved(nodes)
    requires Good(m, g, originals) && n in nodes && n in Cyclers(g) && n.kind == Pointer && n !in m.flagged
    ensures Good(Processed(m, n, nodes, originals), g, originals)
    ensures Grows(m, Processed(m, n, nodes, originals), nodes, originals)
    ensures n in Processed(m, n, nodes, originals).marked
    decreases true, 1
  {
    hide CanCycle, Walk, Reaches, Good, Processed;
    Pairing(nodes);
    assert AliasesAgree(n, nodes);
    var m' := ProcessedForm(m, n, nodes, g, originals);
    if n.named {
      assert Mark(m', n) == m';
      EnterKeeps(m', n, g, originals);
      AddsTrans(m, m', Enter(m', n, originals), originals);
    }
  }

  /** Processing a chain from its head down. */
  ghost function ProcessedAll(m: Marks, chain: seq<TypeNode>, k: nat, nodes: set<TypeNode>,
                              originals: map<TypeNode, TypeNode>): Marks
    requires k <= |chain| && forall i :: 0 <= i < |chain| ==> chain[i] in nodes
    reads nodes`target, nodes`named, nodes`arrayRep
  {
    if k == 0 then m
    else Processed(ProcessedAll(m, chain, k - 1, nodes, originals), chain[k - 1], nodes, originals)
  }

  lemma {:induction false} ProcessedAllKeeps(m: Marks, chain: seq<TypeNode>, k: nat, nodes: set<TypeNode>,
                                             g: Graph<TypeNode>, originals: map<TypeNode, TypeNode>)
    requires g == GraphOf(nodes) && originals == Originals(nodes) && Resolved(nodes)
    requires k <= |chain| && AllIn(chain, Cyclers(g)) && AllIn(chain, nodes)
    requires Good(m, g, originals) && TagsAbove(chain, originals)
    ensures var m' := ProcessedAll(m, chain, k, nodes, originals);
            && Good(m', g, originals) && Grows(m, m', nodes, originals)
            && (forall i :: 0 <= i < k ==> chain[i] in m'.marked)
            && (forall i :: 0 <= i < k && chain[i].kind != Pointer ==> chain[i] in m'.flagged)
    decreases k
  {
    hide CanCycle, Walk, Reaches;
    if k > 0 {
      ProcessedAllKeeps(m, chain, k - 1, nodes, g, originals);
      var m1 := ProcessedAll(m, chain, k - 1, nodes, originals);
      var n := chain[k - 1];
      Pairing(nodes);
      forall t | t in originals && originals[t] == n
        ensures t in m1.flagged
      {
        assert AliasesAgree(t, nodes) && t in chain[..k - 1];
      }
      ProcessedKeeps(m1, n, nodes, g, originals);
      GrowsTrans(m, m1, Processed(m1, n, nodes, originals), nodes, originals);
    }
  }

  /** When the walk meets a type on its chain, or a marked one, the whole chain is marked rightly. */
  lemma MarkedChain(m: Marks, chain: seq<TypeNode>, cur: TypeNode, nodes: set<TypeNode>,
                    g: Graph<TypeNode>, originals: map<TypeNode, TypeNode>)
    requires g == GraphOf(nodes) && originals == Originals(nodes) && Resolved(nodes)
    requires Good(m, g, originals) && LeadsTo(chain, cur, g, originals)
    requires cur in m.marked || cur in chain
    ensures var m' := ProcessedAll(m, chain, |chain|, nodes, originals);
            && Good(m', g, originals) && Grows(m, m', nodes, originals)
            && cur in m'.marked && AllIn(chain, m'.marked)
  {
    hide Walk, Reaches;
    if cur in chain {
      OnCycleCanCycle(g, cur);
    }
    assert cur in Cyclers(g);
    forall i | 0 <= i < |chain|
      ensures chain[i] in Cyclers(g) && chain[i] in nodes
    {
      CycleBehind(g, chain[i], cur);
    }
    ProcessedAllKeeps(m, chain, |chain|, nodes, g, originals);
  }

  class Interface {
    var spTypes: seq<TypeNode>

    constructor ()
      ensures spTypes == []
    {
      spTypes := [];
    }

    ghost function MarksOf(nodes: set<TypeNode>): Marks
      reads this, nodes`selfPointer, nodes`onSpList
    {
      Marks((set n | n in nodes && n.selfPointer), (set n | n in nodes && n.onSpList), spTypes)
    }

    /** AST_SET_SELF_POINTER */
    method SetSelfPointer(n: TypeNode, ghost nodes: set<TypeNode>)
      requires n in nodes
      modifies nodes`selfPointer
      ensures n.selfPointer
      ensures MarksOf(nodes) == Mark(old(MarksOf(nodes)), n)
    {
      n.selfPointer := true;
      assert MarksOf(nodes).marked == old(MarksOf(nodes)).marked + {n};
    }

    /** FE_SET of FE_SELF_POINTING */
    method SetOnSpList(n: TypeNode, ghost nodes: set<TypeNode>)
      requires n in nodes
      modifies nodes`onSpList
      ensures n.onSpList
      ensures MarksOf(nodes) == Flag(old(MarksOf(nodes)), n)
    {
      n.onSpList := true;
      assert MarksOf(nodes).flagged == old(MarksOf(nodes)).flagged + {n};
    }

    /** ASTP_process_sp_type */
    method ProcessSpType(n: TypeNode, ghost nodes: set<TypeNode>, ghost originals: map<TypeNode, TypeNode>)
      requires originals == Originals(nodes) && Resolved(nodes) && n in nodes
      modifies this, nodes`selfPointer, nodes`onSpList
      ensures MarksOf(nodes) == Processed(old(MarksOf(nodes)), n, nodes, originals)
      decreases n.kind == Pointer
    {
      assert n in MarksOf(nodes).flagged <==> n.onSpList;
      if n.onSpList {
        return;
      }
      assert AliasesAgree(n, nodes);
      SetSelfPointer(n, nodes);
      if n.kind == Pointer && n.target.arrayRep != null {
        assert AliasesAgree(n.target, nodes);
        assert AliasesAgree(n.target.arrayRep, nodes);
        ProcessSpType(n.target.arrayRep, nodes, originals);
      }
      EnterInList(n, nodes, originals);
    }

    /** The end of ASTP_process_sp_type: which node goes on the list, and its place there. */
    method EnterInList(n: TypeNode, ghost nodes: set<TypeNode>, ghost originals: map<TypeNode, TypeNode>)
      requires originals == Originals(nodes) && Resolved(nodes) && n in nodes
      modifies this, nodes`selfPointer, nodes`onSpList
      ensures MarksOf(nodes) == if n.kind == Pointer && !n.named then old(MarksOf(nodes))
                                else Enter(old(MarksOf(nodes)), n, originals)
    {
      assert AliasesAgree(n, nodes);
      var entry: TypeNode := n;
      if n.defAsTag && n.original != null {
        SetOnSpList(n, nodes);
        entry := n.original;
        assert originals[n] == entry && Tagged(entry.kind);
        SetSelfPointer(entry, nodes);
        SetOnSpList(entry, nodes);
      }
      if entry.kind == Pointer && !entry.named {
        return;
      }
      SetOnSpList(entry, nodes);
      spTypes := spTypes + [entry];
    }

    /** The loop of ASTP_check_chain that processes the whole chain. */
    method ProcessChain(chain: seq<TypeNode>, ghost nodes: set<TypeNode>, ghost originals: map<TypeNode, TypeNode>)
      requires originals == Originals(nodes) && Resolved(nodes)
      requires forall i :: 0 <= i < |chain| ==> chain[i] in nodes
      modifies this, nodes`selfPointer, nodes`onSpList
      ensures MarksOf(nodes) == ProcessedAll(old(MarksOf(nodes)), chain, |chain|, nodes, originals)
    {
      hide Processed, Resolved, MarksOf;
      for i := 0 to |chain|
        invariant MarksOf(nodes) == ProcessedAll(old(MarksOf(nodes)), chain, i, nodes, originals)
      {
        ProcessSpType(chain[i], nodes, originals);
      }
    }

    /** ASTP_check_chain */
    method CheckChain(chain: seq<TypeNode>, cur: TypeNode, ghost nodes: set<TypeNode>,
                      ghost g: Graph<TypeNode>, ghost originals: map<TypeNode, TypeNode>)
      returns (found: bool)
      requires g == GraphOf(nodes) && originals == Originals(nodes) && Resolved(nodes)
      requires Good(MarksOf(nodes), g, originals) && LeadsTo(chain, cur, g, originals)
      modifies this, nodes`selfPointer, nodes`onSpList
      ensures Good(MarksOf(nodes), g, originals) && Grows(old(MarksOf(nodes)), MarksOf(nodes), nodes, originals)
      ensures found <==> old(cur.selfPointer) || cur in chain
      ensures found ==> cur in MarksOf(nodes).marked && AllIn(chain, MarksOf(nodes).marked)
      ensures !found ==> MarksOf(nodes) == old(MarksOf(nodes))
      ensures old(Whole(MarksOf(nodes), chain, g, originals)) ==> Whole(MarksOf(nodes), chain, g, originals)
    {
      hide CanCycle, Walk, Reaches, Good, Grows, Whole;
      GrowsRefl(MarksOf(nodes), nodes, originals);
      found := cur.selfPointer;
      for i := 0 to |chain|
        invariant found <==> cur.selfPointer || cur in chain[..i]
      {
        if chain[i] == cur {
          found := true;
        }
      }
      assert chain[..|chain|] == chain;
      if found {
        MarkedChain(MarksOf(nodes), chain, cur, nodes, g, originals);
        if Whole(MarksOf(nodes), chain, g, originals) {
          WholeAfterChain(MarksOf(nodes), chain, cur, nodes, g, originals);
        }
        ProcessChain(chain, nodes, originals);
      }
    }

    /** AST_find_self_reference.  `chain` holds the types being walked through, innermost first. */
    method FindSelfReference(chain: seq<TypeNode>, cur: TypeNode, ghost nodes: set<TypeNode>,
                             ghost g: Graph<TypeNode>, ghost originals: map<TypeNode, TypeNode>)
      requires g == GraphOf(nodes) && originals == Originals(nodes) && Resolved(nodes)
      requires Good(MarksOf(nodes), g, originals) && LeadsTo(chain, cur, g, originals)
      modifies this, nodes`selfPointer, nodes`onSpList
      ensures Good(MarksOf(nodes), g, originals) && Grows(old(MarksOf(nodes)), MarksOf(nodes), nodes, originals)
      ensures cur in Cyclers(g) ==> cur in MarksOf(nodes).marked && AllIn(chain, MarksOf(nodes).marked)
      ensures old(Whole(MarksOf(nodes), chain, g, originals)) ==> Whole(MarksOf(nodes), chain, g, originals)
      decreases OffChain(nodes, chain), 1
    {
      hide CanCycle, Walk, Reaches, Whole;
      var found := CheckChain(chain, cur, nodes, g, originals);
      if found {
        return;
      }
      assert AliasesAgree(cur, nodes);
      CycleBySuccessors(g, cur);
      match cur.kind {
        case Pointer =>
          CheckTarget(chain, cur, nodes, g, originals);
        case Array =>
          CheckTarget(chain, cur, nodes, g, originals);
        case Structure =>
          CheckMembers(chain, cur, nodes, g, originals);
        case DiscUnion =>
          CheckMembers(chain, cur, nodes, g, originals);
        case Base =>
        case Other =>
      }
    }

    /** The step from a pointer to its pointee, or from an array to its element. */
    method CheckTarget(chain: seq<TypeNode>, cur: TypeNode, ghost nodes: set<TypeNode>,
                       ghost g: Graph<TypeNode>, ghost originals: map<TypeNode, TypeNode>)
      requires g == GraphOf(nodes) && originals == Originals(nodes) && Resolved(nodes)
      requires Good(MarksOf(nodes), g, originals) && LeadsTo(chain, cur, g, originals)
      requires cur in nodes && (cur.kind == Pointer || cur.kind == Array) && cur !in chain
      modifies this, nodes`selfPointer, nodes`onSpList
      ensures Good(MarksOf(nodes), g, originals) && Grows(old(MarksOf(nodes)), MarksOf(nodes), nodes, originals)
      ensures cur in Cyclers(g) ==> cur in MarksOf(nodes).marked && AllIn(chain, MarksOf(nodes).marked)
      ensures old(Whole(MarksOf(nodes), chain, g, originals)) ==> Whole(MarksOf(nodes), chain, g, originals)
      decreases OffChain(nodes, chain), 0
    {
      hide CanCycle, Walk, Reaches, Good, Grows, LeadsTo, Whole;
      assert AliasesAgree(cur, nodes);
      var child: TypeNode := cur.target;
      assert Succ(g, cur) == [child];
      CycleBySuccessors(g, cur);
      Descend(chain, cur, child, nodes, g, originals);
      LinkShrinks(chain, cur, nodes);
      ghost var whole := Whole(MarksOf(nodes), chain, g, originals);
      if whole {
        WholeMoreChain(MarksOf(nodes), chain, cur, g, originals);
      }
      FindSelfReference(Link(chain, cur), child, nodes, g, originals);
      if cur in Cyclers(g) {
        LinkCovers(chain, cur, MarksOf(nodes).marked);
      }
      if whole {
        WholeAfterLink(MarksOf(nodes), chain, cur, nodes, g, originals);
      }
    }

    /** The loop over fields or arms; an empty arm is passed over. */
    method CheckMembers(chain: seq<TypeNode>, cur: TypeNode, ghost nodes: set<TypeNode>,
                        ghost g: Graph<TypeNode>, ghost originals: map<TypeNode, TypeNode>)
      requires g == GraphOf(nodes) && originals == Originals(nodes) && Resolved(nodes)
      requires Good(MarksOf(nodes), g, originals) && LeadsTo(chain, cur, g, originals)
      requires cur in nodes && Tagged(cur.kind) && cur !in chain
      modifies this, nodes`selfPointer, nodes`onSpList
      ensures Good(MarksOf(nodes), g, originals) && Grows(old(MarksOf(nodes)), MarksOf(nodes), nodes, originals)
      ensures cur in Cyclers(g) ==> cur in MarksOf(nodes).marked && AllIn(chain, MarksOf(nodes).marked)
      ensures old(Whole(MarksOf(nodes), chain, g, originals)) ==> Whole(MarksOf(nodes), chain, g, originals)
      decreases OffChain(nodes, chain), 0
    {
      hide CanCycle, Walk, Reaches, Good, Grows, LeadsTo, Whole;
      var link := Link(chain, cur);
      GrowsRefl(MarksOf(nodes), nodes, originals);
      ghost var whole := Whole(MarksOf(nodes), chain, g, originals);
      if whole {
        WholeMoreChain(MarksOf(nodes), chain, cur, g, originals);
      }
      assert AliasesAgree(cur, nodes);
      var members := cur.body.members;
      for i := 0 to |members|
        invariant Good(MarksOf(nodes), g, originals)
        invariant Grows(old(MarksOf(nodes)), MarksOf(nodes), nodes, originals)
        invariant forall j :: 0 <= j < i && members[j] != null && members[j] in Cyclers(g)
                    ==> members[j] in MarksOf(nodes).marked && AllIn(link, MarksOf(nodes).marked)
        invariant whole ==> Whole(MarksOf(nodes), link, g, originals)
      {
        if members[i] != null {
          ghost var m := MarksOf(nodes);
          CheckMember(chain, cur, members[i], link, nodes, g, originals);
          GrowsTrans(old(MarksOf(nodes)), m, MarksOf(nodes), nodes, originals);
        }
      }
      assert Succ(g, cur) == NonNull(members);
      if cur in Cyclers(g) {
        ghost var c := CycleAhead(g, cur);
        assert c in members;
        LinkCovers(chain, cur, MarksOf(nodes).marked);
      }
      if whole {
        WholeAfterLink(MarksOf(nodes), chain, cur, nodes, g, originals);
      }
    }

    /** One field or arm. */
    method CheckMember(chain: seq<TypeNode>, cur: TypeNode, child: TypeNode, link: seq<TypeNode>, ghost nodes: set<TypeNode>,
                       ghost g: Graph<TypeNode>, ghost originals: map<TypeNode, TypeNode>)
      requires g == GraphOf(nodes) && originals == Originals(nodes) && Resolved(nodes)
      requires Good(MarksOf(nodes), g, originals) && LeadsTo(chain, cur, g, originals)
      requires cur in nodes && cur !in chain && child in Children(cur) && link == Link(chain, cur)
      modifies this, nodes`selfPointer, nodes`onSpList
      ensures Good(MarksOf(nodes), g, originals) && Grows(old(MarksOf(nodes)), MarksOf(nodes), nodes, originals)
      ensures old(MarksOf(nodes)).marked <= MarksOf(nodes).marked
      ensures child in Cyclers(g) ==> child in MarksOf(nodes).marked && AllIn(link, MarksOf(nodes).marked)
      ensures old(Whole(MarksOf(nodes), link, g, originals)) ==> Whole(MarksOf(nodes), link, g, originals)
      decreases OffChain(nodes, chain), 0, 0
    {
      hide CanCycle, Walk, Reaches, Good, Grows, LeadsTo, Whole;
      Descend(chain, cur, child, nodes, g, originals);
      LinkShrinks(chain, cur, nodes);
      FindSelfReference(link, child, nodes, g, originals);
      MarksStay(old(MarksOf(nodes)), MarksOf(nodes), nodes, originals);
    }
  }
}
