/**
  Struct and union tags: how the parser binds them, records every type node that refers to
  one, and, at the end of the interface, patches those references and starts the
  self-pointing analysis on them.
*/
module Tags {
  import opened TypeGraph
  import opened TypeNodes
  import opened SelfPointing
  import opened Utils

  /** An entry of the tag reference list. */
  datatype TagRef = TagRef(kind: Kind, name: nat, node: TypeNode)

  /** What is known of a tag so far. */
  datatype Tag = Tag(kind: Kind, defined: bool, isHandle: bool)

  function Defining(tags: map<nat, Tag>, kind: Kind, id: nat): map<nat, Tag> {
    if id == NIL_ID then tags else tags[id := Tag(kind, true, id in tags && tags[id].isHandle)]
  }

  /** An operation of a declarator that makes a type: so many stars, or one array. */
  datatype Operator = PointerTo(stars: nat) | ArrayOf

  /** The kinds of the nodes that operations make, from the base type outwards. */
  function KindsOf(ops: seq<Operator>): seq<Kind> {
    if ops == [] then []
    else
      var op := ops[|ops| - 1];
      KindsOf(ops[..|ops| - 1]) + if op.ArrayOf? then [Array] else seq(op.stars, _ => Pointer)
  }

  /** As many pointers as stars, one array for an array, and what comes later is further out. */
  lemma KindsLaw(ops: seq<Operator>, more: seq<Operator>, stars: nat)
    ensures KindsOf([]) == [] && KindsOf([ArrayOf]) == [Array]
    ensures |KindsOf([PointerTo(stars)])| == stars && forall k :: k in KindsOf([PointerTo(stars)]) ==> k == Pointer
    ensures KindsOf(ops + more) == KindsOf(ops) + KindsOf(more)
  {
    assert [ArrayOf][..0] == [] && [PointerTo(stars)][..0] == [];
    KindsOfBoth(ops, more);
  }

  lemma {:induction false} KindsOfBoth(ops: seq<Operator>, more: seq<Operator>)
    ensures KindsOf(ops + more) == KindsOf(ops) + KindsOf(more)
    decreases |more|
  {
    if more == [] {
      assert ops + more == ops;
    } else {
      var n := |more| - 1;
      KindsOfBoth(ops, more[..n]);
      LastKinds(ops + more);
      LastKinds(more);
      assert (ops + more)[..|ops| + n] == ops + more[..n];
    }
  }

  lemma LastKinds(ops: seq<Operator>)
    requires ops != []
    ensures var op := ops[|ops| - 1];
            KindsOf(ops) == KindsOf(ops[..|ops| - 1]) + if op.ArrayOf? then [Array] else seq(op.stars, _ => Pointer)
  {
  }

  ghost predicate HaveKinds(path: seq<TypeNode>, kinds: seq<Kind>) {
    |path| == |kinds| && forall i :: 0 <= i < |path| ==> path[i].kind == kinds[i]
  }

  lemma MoreKinds(path: seq<TypeNode>, more: seq<TypeNode>, ops: seq<Operator>, i: nat)
    requires i < |ops| && HaveKinds(path, KindsOf(ops[..i])) && HaveKinds(more, KindsOf([ops[i]]))
    ensures HaveKinds(path + more, KindsOf(ops[..i + 1]))
  {
    assert ops[..i + 1][..i] == ops[..i];
    assert [ops[i]][..0] == [] && KindsOf([]) == [];
    assert KindsOf(ops[..i + 1]) == KindsOf(ops[..i]) + KindsOf([ops[i]]);
  }

  lemma NothingOver(base: TypeNode)
    ensures Over([], base) && HaveKinds([], KindsOf([]))
  {
  }

  /** Each node is a type over the one before it, and the first over `base`. */
  ghost predicate Over(path: seq<TypeNode>, base: TypeNode)
    reads path`target
  {
    forall i :: 0 <= i < |path| ==> path[i].target == ([base] + path)[i]
  }

  lemma MoreOver(path: seq<TypeNode>, more: seq<TypeNode>, base: TypeNode)
    requires Over(path, base) && Over(more, if path == [] then base else path[|path| - 1])
    ensures Over(path + more, base)
  {
    var all := path + more;
    forall i | 0 <= i < |all|
      ensures all[i].target == ([base] + all)[i]
    {
      if i < |path| {
        assert path[i].target == ([base] + path)[i];
      } else {
        assert more[i - |path|].target == ([if path == [] then base else path[|path| - 1]] + more)[i - |path|];
      }
    }
  }

  ghost function RefNodes(refs: seq<TagRef>): set<TypeNode> {
    set r | r in refs :: r.node
  }

  lemma Listed(refs: seq<TagRef>, r: TagRef)
    ensures RefNodes(refs + [r]) == RefNodes(refs) + {r.node} && RefNodes(refs + []) == RefNodes(refs)
  {
    assert (refs + [r])[|refs|] == r;
    assert forall q :: q in refs ==> q in refs + [r];
    assert refs + [] == refs;
  }

  lemma StartsEmpty(n: TypeNode, g: Graph<TypeNode>, originals: map<TypeNode, TypeNode>)
    requires n in g
    ensures LeadsTo([], n, g, originals)
  {
  }

  /** A type whose tag is marked can be marked: the tag is flagged, so it is entered only once. */
  lemma TagMarked(m: Marks, n: TypeNode, nodes: set<TypeNode>, g: Graph<TypeNode>, originals: map<TypeNode, TypeNode>)
    requires g == GraphOf(nodes) && originals == Originals(nodes) && Resolved(nodes) && Good(m, g, originals)
    requires n in nodes && Tagged(n.kind) && n.tagPtr != null && n.tagPtr in m.marked
    ensures Good(Processed(m, n, nodes, originals), g, originals)
    ensures Grows(m, Processed(m, n, nodes, originals), nodes, originals)
  {
    hide CanCycle, Walk, Reaches;
    var tag: TypeNode := n.tagPtr;
    assert AliasesAgree(n, nodes);
    SharedBodyCycles(n, tag, nodes, g);
    assert forall t :: t in originals && originals[t] == n ==> AliasesAgree(t, nodes);
    ProcessedKeeps(m, n, nodes, g, originals);
  }

  /** Marking a type because its tag is marked misses nothing either. */
  lemma WholeAfterTag(m: Marks, n: TypeNode, nodes: set<TypeNode>, g: Graph<TypeNode>, originals: map<TypeNode, TypeNode>)
    requires g == GraphOf(nodes) && originals == Originals(nodes) && Resolved(nodes) && Whole(m, [], g, originals)
    requires n in nodes && Tagged(n.kind) && n.tagPtr != null && n.tagPtr in m.marked
    ensures Whole(Processed(m, n, nodes, originals), [], g, originals)
  {
    hide CanCycle, Processed;
    var tag: TypeNode, m' := n.tagPtr, Processed(m, n, nodes, originals);
    assert AliasesAgree(n, nodes);
    SharedBodyCycles(n, tag, nodes, g);
    NewlyMarked(m, n, nodes, originals);
    assert Settled(m, tag, g);
    forall x | x in m'.marked
      ensures Settled(m', x, g)
    {
      if x in m.marked {
        SettledStays(m, m', x, g);
      } else {
        SettledStays(m, m', tag, g);
        assert x == n || (n in originals && x == originals[n]);
        if x != n {
          SharedBodyCycles(x, n, nodes, g);
        }
      }
    }
  }

  lemma NothingIsGood(g: Graph<TypeNode>, originals: map<TypeNode, TypeNode>)
    ensures Good(Marks({}, {}, []), g, originals)
  {
  }

  lemma NothingIsWhole(g: Graph<TypeNode>, originals: map<TypeNode, TypeNode>)
    ensures Whole(Marks({}, {}, []), [], g, originals)
  {
  }

  /** Nothing that a marked type reaches and that can itself reach a cycle has been missed. */
  lemma {:induction false} ReachedIsMarked(m: Marks, n: TypeNode, x: TypeNode, k: nat, g: Graph<TypeNode>,
                                           originals: map<TypeNode, TypeNode>)
    requires Whole(m, [], g, originals) && n in m.marked && Walk(g, n, x, k) && CanCycle(g, x) && Closed(g) && n in g
    ensures x in m.marked
    decreases k
  {
    hide CanCycle;
    assert Settled(m, n, g);
    if k > 0 {
      var z :| z in Succ(g, n) && Walk(g, z, x, k - 1);
      assert Reaches(g, z, x);
      CycleBehind(g, z, x);
      assert z in Cyclers(g);
      ReachedIsMarked(m, z, x, k - 1, g, originals);
    } else {
      assert x in Cyclers(g);
    }
  }

  lemma MarkedCycles(m: Marks, g: Graph<TypeNode>, originals: map<TypeNode, TypeNode>)
    requires Good(m, g, originals)
    ensures forall n :: n in m.marked ==> CanCycle(g, n)
  {
  }

  class Parser {
    var tagRefs: seq<TagRef>
    var bindings: map<nat, TypeNode>
    var errorCount: nat
    ghost var nodes: set<TypeNode>

    ghost function BoundTags(): (tags: map<nat, Tag>)
      reads this`bindings, bindings.Values`body, bindings.Values`contextRd
    {
      map id | id in bindings :: Tag(bindings[id].kind, bindings[id].body != null, bindings[id].contextRd)
    }

    /** `t` is the node that its tag name is bound to. */
    ghost predicate IsTag(t: TypeNode)
      reads this`bindings, t`tagName
    {
      t.tagName in bindings && bindings[t.tagName] == t
    }

    /** How a node hangs together with the tag it belongs to. */
    ghost predicate TagOk(n: TypeNode)
      requires n in nodes
      reads this`bindings, this`tagRefs, this`nodes
      reads nodes`tagPtr, nodes`tagName, nodes`defAsTag, nodes`original
    {
      && (IsTag(n) ==> Tagged(n.kind) && n.tagPtr == n && n.defAsTag && n.tagName != NIL_ID)
      && (Tagged(n.kind) && n.tagPtr != null ==>
            && n.tagPtr in nodes && IsTag(n.tagPtr) && n.tagPtr.kind == n.kind
            && n.tagName == n.tagPtr.tagName && n in RefNodes(tagRefs))
      && (n.original != null ==>
            && n.original in nodes && IsTag(n)
            && n.original.tagPtr == n && n.original.kind == n.kind && !n.original.defAsTag)
    }

    /** A structure is reached through its tag, and a tag shares it with its original. */
    ghost predicate BodyOk(n: TypeNode)
      reads this, n, nodes
    {
      && (Tagged(n.kind) && n.tagPtr == null ==> n.body != null)
      && (Tagged(n.kind) && n.tagPtr != null && n.tagPtr in nodes ==> n.body == null || n.body == n.tagPtr.body)
      && (n.original != null && n.original in nodes ==> n.body != null && n.original.body == n.body)
      && (n.arrayRep != null && n.arrayRep in nodes ==>
            n.arrayRep.target == n || (n.original != null && n.arrayRep.target == n.original))
    }

    /** Until the end of the interface every tag user waits in the list. */
    ghost predicate Pending(n: TypeNode)
      reads this, n
    {
      && (Tagged(n.kind) ==> (n.incomplete <==> n.tagPtr != null))
      && (IsTag(n) && n.body != null ==> n.original != null)
      && !n.selfPointer && !n.onSpList
    }

    ghost predicate RefOk(i: nat)
      requires i < |tagRefs|
      reads this`tagRefs, this`nodes, nodes`tagPtr, nodes`tagName
    {
      var n := tagRefs[i].node;
      && n in nodes && Tagged(n.kind) && n.tagPtr != null
      && tagRefs[i].name == n.tagName && tagRefs[i].kind == n.kind
      && n.tagPtr in RefNodes(tagRefs[..i + 1])
    }

    ghost predicate Bindings()
      reads this`bindings, this`nodes, nodes`tagName
    {
      forall id :: id in bindings ==> bindings[id] in nodes && bindings[id].tagName == id
    }

    /** The state of an interface that is being parsed.  Once an error has been logged, recovery
        may leave tags inconsistent, and the analysis will not be run. */
    ghost predicate Parsing()
      reads this, nodes
    {
      && (forall n {:trigger Linked(n, nodes)} :: n in nodes ==> Linked(n, nodes))
      && (forall id :: id in bindings ==> bindings[id] in nodes)
      && RefNodes(tagRefs) <= nodes
      && (errorCount == 0 ==>
            && (forall n {:trigger TagOk(n)} :: n in nodes ==> TagOk(n))
            && (forall n {:trigger BodyOk(n)} :: n in nodes ==> BodyOk(n))
            && (forall n {:trigger Pending(n)} :: n in nodes ==> Pending(n))
            && (forall i: nat {:trigger RefOk(i)} :: i < |tagRefs| ==> RefOk(i))
            && Bindings())
    }

    constructor ()
      ensures Parsing() && errorCount == 0 && nodes == {} && tagRefs == [] && bindings == map[]
    {
      tagRefs, bindings, errorCount, nodes := [], map[], 0, {};
    }

    /** What every parser action does to what was parsed before it. */
    twostate predicate Continues()
      reads this
    {
      old(nodes) <= nodes && fresh(nodes - old(nodes)) && old(errorCount) <= errorCount
    }

    /** A node that is not the array form of pointers to another. */
    ghost predicate Plain(n: TypeNode)
      reads this`nodes, nodes`arrayRep
    {
      n in nodes && forall m :: m in nodes ==> m.arrayRep != n
    }

    /** Only array forms may be made to lead elsewhere, no node becomes one that was not made as one, and no name
        or array form is taken back. */
    twostate predicate PlainStays()
      reads this`nodes, nodes`arrayRep, nodes`target, nodes`named
    {
      && (forall n {:trigger Plain(n)} {:trigger old(Plain(n))} :: n in old(nodes) && n in nodes && old(Plain(n)) ==>
            Plain(n) && n.target == old(n.target))
      && (forall n :: n in old(nodes) && n in nodes && old(n.named) ==> n.named)
      && (forall n :: n in old(nodes) && n in nodes && old(n.arrayRep) != null ==> n.arrayRep == old(n.arrayRep))
    }

    lemma OnlyArraysAreForms(n: TypeNode)
      requires Parsing() && n in nodes && n.kind != Array
      ensures Plain(n)
    {
      forall m | m in nodes
        ensures m.arrayRep != n
      {
        assert Linked(m, nodes);
      }
    }

    /** New nodes are nobody's array form. */
    twostate lemma PlainGrows(new n: TypeNode)
      requires old(Parsing()) && nodes == old(nodes) + {n} && (n !in old(nodes) ==> n.arrayRep == null)
      requires forall m :: m in old(nodes) ==> m.arrayRep == old(m.arrayRep) && m.target == old(m.target)
      requires forall m :: m in old(nodes) && old(m.named) ==> m.named
      ensures PlainStays() && (n !in old(nodes) || old(Plain(n)) ==> Plain(n))
    {
      assert forall m :: m in old(nodes) ==> old(Linked(m, nodes));
    }

    /** All of a node but what it points to is as it was. */
    twostate predicate SameButTarget(m: TypeNode)
      reads m
    {
      && m.body == old(m.body) && m.arrayRep == old(m.arrayRep) && m.original == old(m.original)
      && m.tagPtr == old(m.tagPtr) && m.tagName == old(m.tagName) && m.defAsTag == old(m.defAsTag)
      && m.incomplete == old(m.incomplete) && m.selfPointer == old(m.selfPointer) && m.onSpList == old(m.onSpList)
    }

    /** Nothing has happened to a node but, perhaps, a name or the [context_handle] attribute. */
    twostate predicate Same(m: TypeNode)
      reads m
    {
      SameButTarget(m) && m.target == old(m.target)
    }

    /** Allocating a node, or listing one, disturbs nothing that was there. */
    twostate lemma Allocated(new n: TypeNode)
      requires old(Parsing()) && nodes == old(nodes) + {n}
      requires forall m :: m in old(nodes) ==> Same(m)
      requires errorCount == old(errorCount)
      requires bindings == old(bindings) || (n.tagName !in old(bindings) && bindings == old(bindings)[n.tagName := n])
      requires tagRefs == old(tagRefs) || (|tagRefs| == |old(tagRefs)| + 1 && tagRefs[..|old(tagRefs)|] == old(tagRefs))
      requires Linked(n, nodes) && RefNodes(tagRefs) <= nodes
      requires errorCount == 0 ==> TagOk(n) && BodyOk(n) && Pending(n)
      requires errorCount == 0 && |tagRefs| > |old(tagRefs)| ==> RefOk(|old(tagRefs)|)
      ensures Parsing()
    {
      assert RefNodes(old(tagRefs)) <= RefNodes(tagRefs) by {
        assert forall r :: r in old(tagRefs) ==> r in tagRefs;
      }
      NodesStay(n);
      hide RefNodes, Linked, TagOk, BodyOk, Pending, RefOk, Same;
      if errorCount == 0 {
        RefsStay();
        BindingsStay(n);
      }
    }

    twostate lemma NodesStay(new n: TypeNode)
      requires old(Parsing()) && nodes == old(nodes) + {n} && forall m :: m in old(nodes) ==> Same(m)
      requires errorCount == old(errorCount) && RefNodes(old(tagRefs)) <= RefNodes(tagRefs)
      requires bindings == old(bindings) || (n.tagName !in old(bindings) && bindings == old(bindings)[n.tagName := n])
      ensures forall m {:trigger Linked(m, nodes)} :: m in nodes && m != n ==> Linked(m, nodes)
      ensures errorCount == 0 ==> forall m {:trigger TagOk(m)} :: m in nodes && m != n ==> TagOk(m)
      ensures errorCount == 0 ==> forall m {:trigger BodyOk(m)} :: m in nodes && m != n ==> BodyOk(m)
      ensures errorCount == 0 ==> forall m {:trigger Pending(m)} :: m in nodes && m != n ==> Pending(m)
    {
      hide RefNodes, Linked, TagOk, BodyOk, Pending, RefOk, Same;
      forall m | m in nodes && m != n
        ensures Linked(m, nodes)
        ensures errorCount == 0 ==> TagOk(m) && BodyOk(m) && Pending(m)
      {
        assert old(Linked(m, nodes));
        if errorCount == 0 {
          assert old(TagOk(m)) && old(BodyOk(m)) && old(Pending(m));
        }
        NodeStays(m, n);
      }
    }

    twostate lemma BindingsStay(new n: TypeNode)
      requires old(Bindings()) && n in nodes && old(nodes) <= nodes && forall m :: m in old(nodes) ==> Same(m)
      requires bindings == old(bindings) || (n.tagName !in old(bindings) && bindings == old(bindings)[n.tagName := n])
      ensures Bindings()
    {
    }

    twostate lemma NodeStays(new m: TypeNode, new n: TypeNode)
      requires m in old(nodes) && m != n && old(nodes) <= nodes && forall m :: m in old(nodes) ==> Same(m)
      requires old(Linked(m, nodes)) && RefNodes(old(tagRefs)) <= RefNodes(tagRefs)
      requires bindings == old(bindings) || (n.tagName !in old(bindings) && bindings == old(bindings)[n.tagName := n])
      ensures Linked(m, nodes)
      ensures old(TagOk(m) && BodyOk(m) && Pending(m)) ==> TagOk(m) && BodyOk(m) && Pending(m)
    {
      hide RefNodes;
    }

    twostate lemma RefsStay()
      requires forall i: nat {:trigger old(RefOk(i))} :: i < |old(tagRefs)| ==> old(RefOk(i))
      requires old(nodes) <= nodes && forall m :: m in old(nodes) ==> Same(m)
      requires |old(tagRefs)| <= |tagRefs| && tagRefs[..|old(tagRefs)|] == old(tagRefs)
      ensures forall i: nat {:trigger RefOk(i)} :: i < |old(tagRefs)| ==> RefOk(i)
    {
      hide RefNodes;
      forall i: nat | i < |old(tagRefs)|
        ensures RefOk(i)
      {
        assert old(RefOk(i));
        assert tagRefs[..i + 1] == old(tagRefs)[..i + 1];
        assert tagRefs[i] == old(tagRefs)[i];
      }
    }

    /** After an error only the links between nodes matter. */
    twostate lemma RecoveredFrom()
      requires old(Parsing()) && old(nodes) <= nodes && errorCount > 0
      requires bindings == old(bindings) && tagRefs == old(tagRefs)
      requires forall m :: m in old(nodes) ==> unchanged(m)
      requires forall m :: m in nodes && m !in old(nodes) ==> Linked(m, nodes)
      ensures Parsing()
    {
      forall m | m in nodes
        ensures Linked(m, nodes)
      {
        if m in old(nodes) {
          assert old(Linked(m, nodes));
        }
      }
    }

    /** A new type node of a kind that the analysis does not look into. */
    method LeafType(kind: Kind) returns (n: TypeNode)
      requires Parsing() && (kind == Base || kind == Other)
      modifies this
      ensures Parsing() && Continues() && errorCount == old(errorCount)
      ensures n in nodes && n !in old(nodes) && n.kind == kind && n.tagPtr == null && bindings == old(bindings)
      ensures PlainStays() && Plain(n)
    {
      n := new TypeNode(kind);
      nodes := nodes + {n};
      Allocated(n);
      hide Parsing;
      PlainGrows(n);
    }

    /** A new pointer or array type over `target` (AST_pointer_node, AST_array_node) */
    method Derived(kind: Kind, target: TypeNode) returns (n: TypeNode)
      requires Parsing() && target in nodes && (kind == Pointer || kind == Array)
      modifies this
      ensures Parsing() && Continues() && errorCount == old(errorCount)
      ensures n in nodes && n !in old(nodes) && n.kind == kind && n.target == target
      ensures n.tagPtr == null && !n.incomplete && bindings == old(bindings) && tagRefs == old(tagRefs)
      ensures PlainStays() && Plain(n)
    {
      n := new TypeNode(kind);
      n.target := target;
      nodes := nodes + {n};
      Allocated(n);
      hide Parsing;
      PlainGrows(n);
    }

    /** ASTP_save_tag_ref */
    method SaveTagRef(name: nat, kind: Kind, n: TypeNode)
      modifies this`tagRefs, n`incomplete
      ensures if Tagged(n.kind) then tagRefs == old(tagRefs) + [TagRef(kind, name, n)] && n.incomplete
              else tagRefs == old(tagRefs) && n.incomplete == old(n.incomplete)
      ensures RefNodes(tagRefs) == RefNodes(old(tagRefs)) + if Tagged(n.kind) then {n} else {}
    {
      if !Tagged(n.kind) {
        return;
      }
      tagRefs := tagRefs + [TagRef(kind, name, n)];
      assert tagRefs[|old(tagRefs)|] in tagRefs;
      assert forall r :: r in old(tagRefs) ==> r in tagRefs;
      n.incomplete := true;
    }

    /** A tag that is bound and listed when it is made fits in. */
    twostate lemma TagMade(new t: TypeNode)
      requires old(Parsing()) && t !in old(nodes) && nodes == old(nodes) + {t} && errorCount == old(errorCount)
      requires forall m :: m in old(nodes) ==> unchanged(m)
      requires Tagged(t.kind) && t.tagName != NIL_ID && t.tagName !in old(bindings)
      requires bindings == old(bindings)[t.tagName := t] && tagRefs == old(tagRefs) + [TagRef(t.kind, t.tagName, t)]
      requires t.tagPtr == t && t.defAsTag && t.incomplete && t.target == null && t.body == null
      requires t.original == null && t.arrayRep == null && !t.selfPointer && !t.onSpList
      ensures Parsing()
    {
      hide RefNodes;
      Listed(old(tagRefs), TagRef(t.kind, t.tagName, t));
      assert tagRefs[..|old(tagRefs)| + 1] == tagRefs;
      assert old(RefNodes(tagRefs)) == RefNodes(old(tagRefs));
      assert Linked(t, nodes) && (errorCount == 0 ==> TagOk(t) && BodyOk(t) && Pending(t));
      hide Linked, TagOk, BodyOk, Pending;
      Allocated(t);
    }

    /** The first use of a tag: a [def_as_tag] node is made, listed and bound to the name. */
    method NewTag(kind: Kind, id: nat) returns (t: TypeNode)
      requires Parsing() && Tagged(kind) && id != NIL_ID && id !in bindings
      modifies this
      ensures Parsing() && Continues() && errorCount == old(errorCount)
      ensures nodes == old(nodes) + {t} && t !in old(nodes) && bindings == old(bindings)[id := t]
      ensures t.kind == kind && t.tagName == id && t.body == null && t.original == null && t.arrayRep == null
      ensures t.tagPtr == t && !t.contextRd && t.defAsTag && t.incomplete
      ensures tagRefs == old(tagRefs) + [TagRef(kind, id, t)]
      ensures forall m :: m in old(nodes) ==> unchanged(m)
      ensures PlainStays()
    {
      hide Parsing, RefNodes;
      t := new TypeNode(kind);
      t.defAsTag := true;
      t.tagPtr := t;
      t.tagName := id;
      SaveTagRef(id, kind, t);
      bindings := bindings[id := t];
      nodes := nodes + {t};
      TagMade(t);
      PlainGrows(t);
    }

    /** AST_type_from_tag */
    method TypeFromTag(kind: Kind, id: nat) returns (t: TypeNode)
      requires Parsing() && Tagged(kind) && id != NIL_ID
      modifies this
      ensures Parsing() && Continues() && t in nodes
      ensures errorCount == old(errorCount) <==> (id in old(bindings) ==> old(bindings[id].kind) == kind)
      ensures errorCount == old(errorCount) ==> id in bindings && bindings[id] == t
      ensures t.kind == kind
      ensures bindings == if id in old(bindings) then old(bindings) else old(bindings)[id := t]
      ensures id !in old(bindings) ==>
                t.tagPtr == t && t.tagName == id && t.body == null && !t.contextRd && t.defAsTag && t.incomplete
      ensures tagRefs == old(tagRefs) + if id in old(bindings) then [] else [TagRef(kind, id, t)]
      ensures PlainStays()
    {
      if id in bindings {
        t := bindings[id];
        if t.kind != kind {
          errorCount := errorCount + 1;
          t := new TypeNode(kind);
          t.defAsTag := true;
          nodes := nodes + {t};
          RecoveredFrom();
          PlainGrows(t);
        }
      } else {
        t := NewTag(kind, id);
      }
    }

    /** A definition completes its tag: the tag takes the structure and points to its original, and
        the array form of pointers to the tag becomes an array of the original. */
    method CompleteTag(tag: TypeNode, n: TypeNode, id: nat)
      requires tag != n && n !in nodes
      modifies tag`original, tag`tagPtr, tag`tagName, tag`body
      modifies (if tag.arrayRep == null then {} else {tag.arrayRep})`target
      ensures tag.original == n && tag.tagPtr == tag && tag.tagName == id && tag.body == n.body
      ensures tag.arrayRep != null ==> tag.arrayRep.target == n
    {
      tag.original := n;
      tag.tagPtr := tag;
      tag.tagName := id;
      tag.body := n.body;
      if tag.arrayRep != null {
        tag.arrayRep.target := n;
      }
    }

    method Attach(tag: TypeNode, id: nat, body: Body) returns (n: TypeNode)
      requires Parsing() && tag in nodes && Tagged(tag.kind) && MembersIn(body, nodes)
      requires tag.kind == Structure ==> null !in body.members
      requires errorCount == 0 ==> IsTag(tag) && tag.tagName == id && tag.body == null
      modifies this`tagRefs, this`nodes, nodes
      ensures Parsing() && nodes == old(nodes) + {n} && fresh(n)
      ensures n.kind == tag.kind && n.body == body && tag.original == n && tag.body == body && n.tagPtr == tag
      ensures forall m :: m in old(nodes) ==> m.contextRd == old(m.contextRd)
      ensures forall m :: m in old(nodes) && m != tag ==> m.body == old(m.body) && m.tagPtr == old(m.tagPtr)
      ensures tag.tagPtr == tag
      ensures PlainStays()
    {
      assert Linked(tag, nodes);
      hide Parsing, Linked, RefNodes, MembersIn;
      n := MakeDefinition(tag, id, body);
      Attached(tag, n, id);
      PlainAttached(tag, n, id);
    }

    method MakeDefinition(tag: TypeNode, id: nat, body: Body) returns (n: TypeNode)
      requires tag in nodes && Tagged(tag.kind) && (tag.arrayRep != null ==> tag.arrayRep in nodes)
      modifies this`tagRefs, this`nodes, nodes
      ensures AttachStep(tag, n, id) && fresh(n) && n.body == body
      ensures forall m :: m in old(nodes) ==> m.contextRd == old(m.contextRd)
    {
      n := Definition(tag, id, body);
      SaveTagRef(id, tag.kind, n);
      CompleteTag(tag, n, id);
      nodes := nodes + {n};
    }

    /** The node made where a tag is defined. */
    method Definition(tag: TypeNode, id: nat, body: Body) returns (n: TypeNode)
      ensures fresh(n) && n.kind == tag.kind && n.body == body && n.tagPtr == tag && n.tagName == id
      ensures n.target == null && n.original == null && n.arrayRep == null
      ensures !n.defAsTag && !n.selfPointer && !n.onSpList
    {
      n := new TypeNode(tag.kind);
      n.body := body;
      n.tagPtr := tag;
      n.tagName := id;
    }

    /** What `Attach` changes. */
    twostate predicate AttachStep(tag: TypeNode, new n: TypeNode, id: nat)
      reads this, nodes, tag, n
    {
      && n !in old(nodes) && nodes == old(nodes) + {n}
      && tagRefs == old(tagRefs) + [TagRef(tag.kind, id, n)]
      // the new node
      && n.kind == tag.kind && n.body != null && n.tagPtr == tag && n.tagName == id && n.incomplete
      && n.target == null && n.original == null && n.arrayRep == null
      && !n.defAsTag && !n.selfPointer && !n.onSpList
      // its tag
      && tag.original == n && tag.tagPtr == tag && tag.tagName == id && tag.body == n.body
      && tag.arrayRep == old(tag.arrayRep) && tag.defAsTag == old(tag.defAsTag) && tag.incomplete == old(tag.incomplete)
      && tag.selfPointer == old(tag.selfPointer) && tag.onSpList == old(tag.onSpList)
      // every other node
      && (forall m :: m in old(nodes) && m in nodes && m != tag ==> SameButTarget(m))
      && (forall m :: m in old(nodes) && m in nodes ==> m.named == old(m.named))
      && (forall m :: m in old(nodes) && m in nodes && m != tag.arrayRep ==> m.target == old(m.target))
      && (tag.arrayRep != null && tag.arrayRep in nodes ==> tag.arrayRep.target == n)
    }

    twostate lemma Attached(new tag: TypeNode, new n: TypeNode, id: nat)
      requires old(Parsing()) && tag in old(nodes) && errorCount == old(errorCount) && bindings == old(bindings)
      requires Tagged(tag.kind) && n.body != null && MembersIn(n.body, old(nodes))
      requires tag.kind == Structure ==> null !in n.body.members
      requires errorCount == 0 ==> old(IsTag(tag)) && old(tag.tagName) == id && old(tag.body) == null
      requires AttachStep(tag, n, id)
      ensures Parsing()
    {
      assert old(Linked(tag, nodes));
      if errorCount == 0 {
        assert old(TagOk(tag)) && old(BodyOk(tag)) && old(Pending(tag));
      }
      assert RefNodes(tagRefs) == RefNodes(old(tagRefs)) + {n} by {
        assert tagRefs[|old(tagRefs)|] in tagRefs;
        assert forall r :: r in old(tagRefs) ==> r in tagRefs;
      }
      forall m | m in nodes
        ensures Linked(m, nodes)
      {
        if m in old(nodes) {
          assert old(Linked(m, nodes));
        }
      }
      forall m | m in nodes && errorCount == 0
        ensures TagOk(m) && Pending(m) && BodyOk(m)
      {
        if m in old(nodes) {
          assert old(TagOk(m)) && old(BodyOk(m)) && old(Pending(m)) && old(Linked(m, nodes));
        }
      }
      forall i: nat | i < |tagRefs| && errorCount == 0
        ensures RefOk(i)
      {
        if i < |old(tagRefs)| {
          assert old(RefOk(i));
          assert tagRefs[..i + 1] == old(tagRefs)[..i + 1];
        } else {
          assert tagRefs[..i + 1] == tagRefs;
        }
      }
    }

    /** A definition moves no target but that of an array form. */
    twostate lemma PlainAttached(new tag: TypeNode, new n: TypeNode, id: nat)
      requires old(Parsing()) && tag in old(nodes) && AttachStep(tag, n, id)
      ensures PlainStays()
    {
      assert forall m :: m in old(nodes) ==> m.arrayRep == old(m.arrayRep);
    }

    /** The tag that a definition completes; one that is made up if the name is another kind's or already defined. */
    method TagToDefine(kind: Kind, id: nat) returns (tag: TypeNode)
      requires Parsing() && Tagged(kind) && id != NIL_ID
      modifies this
      ensures Parsing() && Continues() && tag in nodes && tag.kind == kind
      ensures errorCount == old(errorCount) <==>
                (id in old(bindings) ==> old(bindings[id].kind == kind && bindings[id].body == null))
      ensures errorCount == old(errorCount) ==>
                && id in bindings && bindings[id] == tag && tag.body == null
                && (errorCount == 0 ==> IsTag(tag) && tag.tagName == id)
                && bindings == (if id in old(bindings) then old(bindings) else old(bindings)[id := tag])
                && (id !in old(bindings) ==> tag !in old(nodes) && !tag.contextRd)
      ensures errorCount != old(errorCount) ==> bindings == old(bindings) && tag !in old(nodes)
      ensures PlainStays()
    {
      if id !in bindings {
        tag := NewTag(kind, id);
      } else {
        tag := bindings[id];
        if tag.kind != kind || tag.body != null {
          errorCount := errorCount + 1;
          tag := new TypeNode(kind);
          tag.defAsTag := true;
          nodes := nodes + {tag};
          RecoveredFrom();
          PlainGrows(tag);
        }
      }
    }

    /** A definition changes nothing about tags but that its own is defined. */
    twostate lemma TagsAfter(new kind: Kind, id: nat)
      requires old(Parsing()) && old(errorCount) == 0
      requires forall m :: m in old(nodes) ==> m.contextRd == old(m.contextRd)
      requires forall m :: m in old(nodes) && (id in bindings ==> m != bindings[id]) ==> m.body == old(m.body)
      requires if id == NIL_ID then bindings == old(bindings)
               else
                 && id in bindings && bindings[id].kind == kind && bindings[id].body != null
                 && bindings == (if id in old(bindings) then old(bindings) else old(bindings)[id := bindings[id]])
                 && (id !in old(bindings) ==> bindings[id] !in old(nodes) && !bindings[id].contextRd)
      ensures BoundTags() == Defining(old(BoundTags()), kind, id)
    {
      ghost var tags := Defining(old(BoundTags()), kind, id);
      forall i | i in old(bindings)
        ensures i != NIL_ID && old(bindings[i]) in old(nodes) && old(bindings[i].tagName) == i
      {
        assert old(TagOk(bindings[i]));
      }
      hide Parsing;
      forall i | i in bindings
        ensures i in tags && BoundTags()[i] == tags[i]
      {
        if i != id {
          assert id in old(bindings) ==> old(bindings[id].tagName) == id != old(bindings[i].tagName);
          assert old(BoundTags())[i] == tags[i];
        }
      }
      assert BoundTags().Keys == tags.Keys;
    }

    /** A structure or union without a tag. */
    method DefineAnonymous(kind: Kind, members: seq<TypeNode?>) returns (n: TypeNode)
      requires Parsing() && Tagged(kind) && (kind == Structure ==> null !in members)
      requires forall m :: m in members && m != null ==> m in nodes
      modifies this
      ensures Parsing() && Continues() && PlainStays() && errorCount == old(errorCount)
      ensures n in nodes && n !in old(nodes) && n.kind == kind && n.body != null && n.body.members == members && n.tagPtr == null
      ensures bindings == old(bindings)
    {
      n := new TypeNode(kind);
      n.body := new Body(members);
      nodes := nodes + {n};
      Allocated(n);
      hide Parsing;
      PlainGrows(n);
    }

    /** One that completes a tag. */
    method DefineTagged(kind: Kind, id: nat, members: seq<TypeNode?>) returns (n: TypeNode)
      requires Parsing() && Tagged(kind) && (kind == Structure ==> null !in members)
      requires forall m :: m in members && m != null ==> m in nodes
      requires id != NIL_ID
      modifies this, nodes
      ensures Parsing() && Continues() && PlainStays()
      ensures n in nodes && n !in old(nodes) && n.kind == kind && n.body != null && n.body.members == members
      ensures errorCount == old(errorCount) <==>
                (id in old(bindings) ==> old(bindings[id].kind == kind && bindings[id].body == null))
      ensures forall m :: m in old(nodes) ==> m.contextRd == old(m.contextRd)
      ensures forall m :: m in old(nodes) && (id in bindings ==> m != bindings[id]) ==>
                m.body == old(m.body) && m.tagPtr == old(m.tagPtr)
      ensures errorCount == old(errorCount) ==>
                && id in bindings && n.tagPtr == bindings[id] && bindings[id].tagPtr == bindings[id]
                && bindings[id].original == n && bindings[id].body == n.body && bindings[id].kind == kind
                && bindings == (if id in old(bindings) then old(bindings) else old(bindings)[id := bindings[id]])
                && (id !in old(bindings) ==> bindings[id] !in old(nodes) && !bindings[id].contextRd)
    {
      var tag := TagToDefine(kind, id);
      var body := new Body(members);
      label found:
      hide Parsing, IsTag;
      n := Attach(tag, id, body);
      forall m | m in old(nodes) && old(Plain(m))
        ensures Plain(m) && m.target == old(m.target)
      {
        assert old@found(Plain(m));
      }
    }

    /** AST_structure_node and AST_disc_union_node, which treat tags alike */
    method Define(kind: Kind, id: nat, members: seq<TypeNode?>) returns (n: TypeNode)
      requires Parsing() && Tagged(kind)
      requires forall m :: m in members && m != null ==> m in nodes
      requires kind == Structure ==> null !in members
      modifies this, nodes
      ensures Parsing() && Continues() && n in nodes && n !in old(nodes)
      ensures n.kind == kind && n.body != null && n.body.members == members
      ensures errorCount == old(errorCount) <==>
                (id != NIL_ID && id in old(bindings) ==> old(bindings[id].kind == kind && bindings[id].body == null))
      ensures errorCount == old(errorCount) == 0 && id != NIL_ID ==>
                id in bindings && bindings[id].original == n && bindings[id].body == n.body
      // what becomes of the tags
      ensures errorCount == old(errorCount) == 0 ==> BoundTags() == Defining(old(BoundTags()), kind, id)
      ensures forall m :: m in old(nodes) ==> m.contextRd == old(m.contextRd)
      ensures forall m :: m in old(nodes) && (id in bindings ==> m != bindings[id]) ==>
                m.body == old(m.body) && m.tagPtr == old(m.tagPtr)
      ensures id == NIL_ID ==> n.tagPtr == null && bindings == old(bindings)
      ensures errorCount == old(errorCount) && id != NIL_ID ==>
                && id in bindings && n.tagPtr == bindings[id] && bindings[id].tagPtr == bindings[id]
                && bindings[id].kind == kind
                && bindings == (if id in old(bindings) then old(bindings) else old(bindings)[id := bindings[id]])
                && (id !in old(bindings) ==> bindings[id] !in old(nodes) && !bindings[id].contextRd)
      ensures PlainStays()
    {
      if id == NIL_ID {
        n := DefineAnonymous(kind, members);
      } else {
        n := DefineTagged(kind, id, members);
      }
      hide Parsing, PlainStays;
      if errorCount == old(errorCount) == 0 {
        TagsAfter(kind, id);
      }
    }

    /** A copy of a node: structure, attribute flags and tag are shared. */
    method Copy(base: TypeNode) returns (n: TypeNode)
      ensures fresh(n) && n.kind == base.kind && n.target == base.target && n.body == base.body
      ensures n.selfPointer == base.selfPointer && n.defAsTag == base.defAsTag && n.contextRd == base.contextRd
      ensures n.tagPtr == base.tagPtr && n.tagName == base.tagName
      ensures n.arrayRep == null && n.original == null && !n.onSpList && !n.incomplete && n.named
    {
      n := new TypeNode(base.kind);
      n.target, n.body := base.target, base.body;
      n.selfPointer, n.defAsTag, n.contextRd := base.selfPointer, base.defAsTag, base.contextRd;
      n.tagPtr, n.tagName := base.tagPtr, base.tagName;
      n.named := true;
    }

    /** A type made by a typedef is listed if the type it is made from still waits for its tag. */
    method Publish(n: TypeNode, base: TypeNode)
      modifies this`tagRefs, this`nodes, n`incomplete, n`named
      ensures n.named && nodes == old(nodes) + {n}
      ensures if old(base.incomplete) && Tagged(n.kind)
              then tagRefs == old(tagRefs) + [TagRef(base.kind, base.tagName, n)] && n.incomplete
              else tagRefs == old(tagRefs) && n.incomplete == (old(n.incomplete) || old(base.incomplete))
      ensures RefNodes(tagRefs) == RefNodes(old(tagRefs)) + if old(base.incomplete) && Tagged(n.kind) then {n} else {}
    {
      if base.incomplete {
        SaveTagRef(base.tagName, base.kind, n);
        n.incomplete := true;
      }
      n.named := true;
      nodes := nodes + {n};
    }

    /** A copy of a type fits in where the type does, and so does the type itself, listed once more. */
    twostate lemma Published(new n: TypeNode, new base: TypeNode)
      requires old(Parsing()) && base in old(nodes) && nodes == old(nodes) + {n}
      requires errorCount == old(errorCount) && bindings == old(bindings)
      requires forall m :: m in old(nodes) ==> Same(m)
      requires n != base ==> n !in old(nodes) && n.arrayRep == null && n.original == null && !n.onSpList
      requires n.kind == base.kind && n.target == base.target && n.body == base.body
      requires n.tagPtr == base.tagPtr && n.tagName == base.tagName
      requires n.selfPointer == base.selfPointer && n.incomplete == base.incomplete
      requires tagRefs == old(tagRefs) +
                 if base.incomplete && Tagged(n.kind) then [TagRef(base.kind, base.tagName, n)] else []
      ensures Parsing()
    {
      assert old(Linked(base, nodes));
      hide RefNodes;
      Listed(old(tagRefs), TagRef(base.kind, base.tagName, n));
      if errorCount == 0 {
        assert old(TagOk(base)) && old(BodyOk(base)) && old(Pending(base));
        if Tagged(base.kind) && base.tagPtr != null {
          assert old(TagOk(base.tagPtr));
        }
      }
      assert |tagRefs| > |old(tagRefs)| ==> tagRefs[..|old(tagRefs)| + 1] == tagRefs;
      assert old(RefNodes(tagRefs)) == RefNodes(old(tagRefs));
      Allocated(n);
    }

    lemma TagInside(n: TypeNode)
      requires Parsing() && n in nodes
      ensures n.tagPtr != null ==> n.tagPtr in nodes
    {
      assert Linked(n, nodes);
    }

    /** AST_propagate_typedef with a simple declarator.  An anonymous type is named in place; any
        other is copied, attribute flags included, and a copy of a tag user is itself listed.  Before
        that AST_declarators_to_types has named the tag, if it had no name yet. */
    method Typedef(base: TypeNode) returns (n: TypeNode)
      requires Parsing() && base in nodes
      modifies this, base`named, base`incomplete, (if base.tagPtr == null then {} else {base.tagPtr})`named
      ensures Parsing() && Continues() && errorCount == old(errorCount)
      ensures n in nodes && n.named && n.kind == base.kind && n.target == base.target && n.body == base.body
      ensures if old(!base.named && base.kind != Base && !base.defAsTag) && base.tagPtr != base then n == base
              else n !in old(nodes)
      ensures n.defAsTag == base.defAsTag && n.contextRd == base.contextRd
      ensures n.tagPtr == base.tagPtr && bindings == old(bindings)
      ensures base.tagPtr != null ==> base.tagPtr.named
      ensures PlainStays() && (old(Plain(base)) ==> Plain(n))
      ensures tagRefs == old(tagRefs) +
                if old(base.incomplete) && Tagged(base.kind) then [TagRef(base.kind, base.tagName, n)] else []
    {
      hide Parsing, RefNodes, Plain, PlainStays;
      if base.tagPtr != null {
        base.tagPtr.named := true;
      }
      if !base.named && base.kind != Base && !base.defAsTag {
        n := base;
      } else {
        n := Copy(base);
      }
      Publish(n, base);
      Published(n, base);
      PlainGrows(n);
    }

    /** What a typedef's declarator operation leaves on the node it makes: the tag of the base type. */
    method TakeTag(n: TypeNode, base: TypeNode)
      requires Parsing() && n in nodes && base in nodes && n != base && !Tagged(n.kind)
      modifies this`tagRefs, n`tagPtr, n`tagName, n`incomplete
      ensures Parsing() && tagRefs == old(tagRefs)
      ensures n.tagPtr == base.tagPtr && n.tagName == base.tagName
      ensures n.incomplete == (old(n.incomplete) || base.incomplete)
    {
      assert Linked(n, nodes) && Linked(base, nodes);
      n.tagPtr := base.tagPtr;
      n.tagName := base.tagName;
      if base.incomplete {
        n.incomplete := true;
        SaveTagRef(base.tagName, base.kind, n);
      }
      TagTaken(n);
    }

    /** Giving a pointer or array the tag of another node upsets nothing: tags are structs and unions. */
    twostate lemma TagTaken(new n: TypeNode)
      requires old(Parsing()) && n in old(nodes) && nodes == old(nodes) && !Tagged(n.kind)
      requires errorCount == old(errorCount) && bindings == old(bindings) && tagRefs == old(tagRefs)
      requires n.tagPtr != null ==> n.tagPtr in nodes
      requires n.body == old(n.body) && n.target == old(n.target) && n.arrayRep == old(n.arrayRep)
      requires n.original == old(n.original) && n.defAsTag == old(n.defAsTag)
      requires n.selfPointer == old(n.selfPointer) && n.onSpList == old(n.onSpList)
      requires forall m :: m in old(nodes) && m != n ==> unchanged(m)
      ensures Parsing()
    {
      forall m | m in nodes
        ensures Linked(m, nodes)
      {
        assert old(Linked(m, nodes));
      }
      if errorCount == 0 {
        assert old(TagOk(n));
        forall id | id in bindings
          ensures bindings[id] != n && bindings[id] in nodes && bindings[id].tagName == id
        {
          assert old(TagOk(bindings[id]));
        }
        forall m | m in nodes
          ensures TagOk(m) && BodyOk(m) && Pending(m)
        {
          assert old(TagOk(m)) && old(BodyOk(m)) && old(Pending(m));
        }
        forall i: nat | i < |tagRefs|
          ensures RefOk(i)
        {
          assert old(RefOk(i));
        }
      }
    }

    /** So many stars. */
    method Stars(base: TypeNode, stars: nat) returns (n: TypeNode, ghost path: seq<TypeNode>)
      requires Parsing() && base in nodes
      modifies this
      ensures Parsing() && Continues() && errorCount == old(errorCount) && bindings == old(bindings)
      ensures |path| == stars && n == (if stars == 0 then base else path[stars - 1]) && n in nodes
      ensures forall m :: m in path ==> m in nodes && m !in old(nodes) && m.kind == Pointer && !m.incomplete
      ensures Over(path, base) && tagRefs == old(tagRefs)
      ensures PlainStays() && forall m :: m in path ==> Plain(m)
    {
      n, path := base, [];
      for i := 0 to stars
        invariant Parsing() && Continues() && errorCount == old(errorCount) && bindings == old(bindings)
        invariant |path| == i && n == (if i == 0 then base else path[i - 1]) && n in nodes && tagRefs == old(tagRefs)
        invariant forall m :: m in path ==> m in nodes && m !in old(nodes) && m.kind == Pointer && !m.incomplete
        invariant Over(path, base) && PlainStays() && forall m :: m in path ==> Plain(m)
      {
        n := Derived(Pointer, n);
        MoreOver(path, [n], base);
        path := path + [n];
      }
    }

    /** One operation of a typedef's declarator, over `inner`; `base` is the type the typedef starts from. */
    method Operate(op: Operator, inner: TypeNode, base: TypeNode) returns (n: TypeNode, ghost more: seq<TypeNode>)
      requires Parsing() && inner in nodes && base in nodes && (op.PointerTo? ==> op.stars > 0)
      modifies this
      ensures Parsing() && Continues() && errorCount == old(errorCount)
      ensures bindings == old(bindings) && tagRefs == old(tagRefs)
      ensures more != [] && n == more[|more| - 1] && Over(more, inner) && HaveKinds(more, KindsOf([op]))
      ensures forall m :: m in more ==> m in nodes && m !in old(nodes)
      ensures n.tagPtr == base.tagPtr && n.tagName == base.tagName && n.incomplete == base.incomplete
      ensures PlainStays() && forall m :: m in more ==> Plain(m)
    {
      hide Parsing;
      assert KindsOf([op][..0]) == [];
      match op {
        case ArrayOf =>
          n := Derived(Array, inner);
          more := [n];
        case PointerTo(stars) =>
          n, more := Stars(inner, stars);
      }
      TakeTag(n, base);
    }

    /** AST_propagate_typedef with declarator operations.  `path` shows the nodes made, from the base outwards. */
    method TypedefWith(base: TypeNode, ops: seq<Operator>) returns (n: TypeNode, ghost path: seq<TypeNode>)
      requires Parsing() && base in nodes && ops != []
      requires forall op :: op in ops && op.PointerTo? ==> op.stars > 0
      modifies this
      ensures Parsing() && Continues() && errorCount == old(errorCount)
      ensures bindings == old(bindings) && tagRefs == old(tagRefs)
      ensures path != [] && n == path[|path| - 1] && n in nodes && n !in old(nodes) && n.named
      ensures Over(path, base) && HaveKinds(path, KindsOf(ops))
      ensures n.tagPtr == base.tagPtr && n.tagName == base.tagName && n.incomplete == base.incomplete
      ensures PlainStays() && forall m :: m in path ==> Plain(m)
    {
      hide Parsing, KindsOf, Over, HaveKinds;
      n, path := base, [];
      assert ops[..0] == [];
      NothingOver(base);
      for i := 0 to |ops|
        invariant Parsing() && Continues() && errorCount == old(errorCount)
        invariant bindings == old(bindings) && tagRefs == old(tagRefs)
        invariant n == (if path == [] then base else path[|path| - 1]) && n in nodes
        invariant i > 0 ==> path != [] && n !in old(nodes)
        invariant forall m :: m in path ==> m in nodes && m !in old(nodes)
        invariant Over(path, base) && HaveKinds(path, KindsOf(ops[..i]))
        invariant PlainStays() && forall m :: m in path ==> Plain(m)
        invariant i > 0 ==> n.tagPtr == base.tagPtr && n.tagName == base.tagName && n.incomplete == base.incomplete
      {
        ghost var more;
        n, more := Operate(ops[i], n, base);
        MoreOver(path, more, base);
        MoreKinds(path, more, ops, i);
        path := path + more;
      }
      assert ops[..|ops|] == ops;
      Name(n);
    }

    method Name(n: TypeNode)
      requires Parsing()
      modifies n`named
      ensures Parsing() && n.named
    {
      n.named := true;
      NameOnly(n);
    }

    /** No part of what holds while parsing is about names of types. */
    twostate lemma NameOnly(new n: TypeNode)
      requires old(Parsing()) && unchanged(this) && forall m :: m in nodes ==> Same(m)
      ensures Parsing()
    {
      forall m | m in nodes
        ensures Linked(m, nodes) && (errorCount == 0 ==> TagOk(m) && BodyOk(m) && Pending(m))
      {
        assert old(Linked(m, nodes)) && old(errorCount == 0 ==> TagOk(m) && BodyOk(m) && Pending(m));
      }
      forall i: nat | i < |tagRefs| && errorCount == 0
        ensures RefOk(i)
      {
        assert old(RefOk(i));
      }
    }

    /** ASTP_set_array_rep_type.  Its recursive call, for the original of a tag, passes the same
        pointer again and so finds the array form already there. */
    method SetArrayRep(p: TypeNode)
      requires Parsing() && p in nodes && p.kind == Pointer
      modifies this, nodes`arrayRep
      ensures Parsing() && Continues() && errorCount == old(errorCount)
      ensures p.target != null && p.target.arrayRep != null && bindings == old(bindings)
      ensures p.target == old(p.target) &&
                if old(p.target.arrayRep) != null then p.target.arrayRep == old(p.target.arrayRep)
                else p.target.arrayRep !in old(nodes) && p.target.arrayRep.kind == Array && p.target.arrayRep.target == p.target
      ensures PlainStays()
    {
      assert Linked(p, nodes);
      var pointee := p.target;
      if pointee.arrayRep == null {
        var rep := Derived(Array, pointee);
        SetRep(pointee, rep);
      }
    }

    method SetRep(pointee: TypeNode, rep: TypeNode)
      requires Parsing() && pointee in nodes && rep in nodes && rep.kind == Array && rep.target == pointee
      modifies pointee`arrayRep
      ensures Parsing() && pointee.arrayRep == rep
    {
      pointee.arrayRep := rep;
      forall m | m in nodes
        ensures Linked(m, nodes) && (errorCount == 0 ==> TagOk(m) && BodyOk(m) && Pending(m))
      {
        assert old(Linked(m, nodes)) && old(errorCount == 0 ==> TagOk(m) && BodyOk(m) && Pending(m));
      }
      forall i: nat | i < |tagRefs| && errorCount == 0
        ensures RefOk(i)
      {
        assert old(RefOk(i));
      }
    }

    /** The [context_handle] attribute of a type definition, set on the type and on its tag. */
    method SetContextHandle(n: TypeNode)
      requires Parsing() && n in nodes
      modifies nodes`contextRd
      ensures Parsing()
      ensures forall m :: m in nodes ==> (m.contextRd <==> old(m.contextRd) || m == n || m == n.tagPtr)
    {
      assert Linked(n, nodes);
      n.contextRd := true;
      if n.tagPtr != null {
        n.tagPtr.contextRd := true;
      }
      assert nodes == old(nodes) + {n};
      if errorCount == 0 {
        assert old(TagOk(n)) && old(BodyOk(n)) && old(Pending(n));
      }
      Allocated(n);
    }

    /** Tags are their own tags, and different names are bound to different tags. */
    lemma TagsDistinct()
      requires Parsing() && errorCount == 0
      ensures forall id :: id in bindings ==> id != NIL_ID && bindings[id] in nodes && bindings[id].tagPtr == bindings[id]
      ensures forall id, id' :: id in bindings && id' in bindings && bindings[id] == bindings[id'] ==> id == id'
    {
      assert forall id :: id in bindings ==> TagOk(bindings[id]);
    }

    /** The tags referred to are the tags bound. */
    lemma RefsAreTags()
      requires Parsing() && errorCount == 0
      ensures (forall i: nat :: i < |tagRefs| ==> tagRefs[i].node.tagPtr != null && Resolvable(tagRefs[i].node.tagPtr))
        <==> (forall id :: id in bindings ==> Resolvable(bindings[id]))
    {
      forall i: nat | i < |tagRefs|
        ensures tagRefs[i].node.tagPtr != null && tagRefs[i].node.tagPtr.tagName in bindings
        ensures bindings[tagRefs[i].node.tagPtr.tagName] == tagRefs[i].node.tagPtr
      {
        assert RefOk(i) && TagOk(tagRefs[i].node);
      }
      forall id | id in bindings
        ensures exists i: nat :: i < |tagRefs| && tagRefs[i].node.tagPtr == bindings[id]
      {
        assert TagOk(bindings[id]);
        var i: nat :| i < |tagRefs| && tagRefs[i].node == bindings[id];
      }
    }

    /** A tag that patching can complete: it was defined, or it names an opaque context handle. */
    ghost predicate Resolvable(t: TypeNode)
      reads t
    {
      t.body != null || (t.kind == Structure && t.contextRd)
    }

    /** The `i`th reference has been patched.  Only an opaque tag itself stays incomplete. */
    ghost predicate Patched(i: nat)
      requires i < |tagRefs|
      reads this, nodes
    {
      var n := tagRefs[i].node;
      n in nodes && n.tagPtr != null && n.tagPtr in nodes ==>
        && n.body != null && n.body == n.tagPtr.body
        && (n.incomplete ==> n == n.tagPtr && n.original == null && n.body.members == [])
    }

    /** Giving a tag user its tag's structure, or an undefined tag an empty one, upsets no other node. */
    twostate lemma BodySet(n: TypeNode)
      requires nodes == old(nodes) && n in nodes && n.body != null && MembersIn(n.body, nodes)
      requires forall m :: m in nodes ==> TagOk(m)
      requires forall m :: m in nodes ==> old(BodyOk(m))
      requires forall m :: m in nodes && m != n ==> m.body == old(m.body)
      requires Tagged(n.kind) && n.tagPtr != null
      requires old(n.tagPtr) == n.tagPtr
      requires n.body == old(n.tagPtr.body) || (n == n.tagPtr && old(n.body) == null)
      requires forall m :: m in nodes ==>
                 && m.tagPtr == old(m.tagPtr) && m.original == old(m.original)
                 && m.target == old(m.target) && m.arrayRep == old(m.arrayRep)
      ensures forall m :: m in nodes ==> BodyOk(m)
    {
      forall m | m in nodes
        ensures BodyOk(m)
      {
        assert old(BodyOk(m)) && TagOk(m) && TagOk(n);
      }
    }

    /** One step of the first loop of ASTP_patch_tag_references. */
    method PatchReference(ref: TagRef)
      requires ref.node in nodes && forall id :: id in bindings ==> bindings[id] in nodes
      modifies this`errorCount, nodes`body, nodes`incomplete
      ensures forall m :: m in nodes && m != ref.node && (ref.name in bindings ==> m != bindings[ref.name])
                ==> m.body == old(m.body) && m.incomplete == old(m.incomplete)
      ensures ref.name in bindings && old(bindings[ref.name].body) != null ==>
                && ref.node.body == old(bindings[ref.name].body) && !ref.node.incomplete
                && bindings[ref.name].body == old(bindings[ref.name].body)
                && (bindings[ref.name] != ref.node ==> bindings[ref.name].incomplete == old(bindings[ref.name].incomplete))
                && errorCount == old(errorCount) + if bindings[ref.name].kind != ref.kind then 1 else 0
      ensures ref.name in bindings && old(bindings[ref.name].body) == null
              && ref.kind == Structure && bindings[ref.name].contextRd ==>
                && fresh(bindings[ref.name].body) && bindings[ref.name].body.members == []
                && (ref.node != bindings[ref.name] ==> ref.node.body == old(ref.node.body))
                && ref.node.incomplete == old(ref.node.incomplete)
                && bindings[ref.name].incomplete == old(bindings[ref.name].incomplete)
                && errorCount == old(errorCount)
      ensures ref.name !in bindings || (old(bindings[ref.name].body) == null
              && !(ref.kind == Structure && bindings[ref.name].contextRd)) ==>
                errorCount == old(errorCount) + 1 && forall m :: m in nodes ==> m.body == old(m.body)
    {
      var tag: TypeNode? := if ref.name in bindings then bindings[ref.name] else null;
      if tag != null && tag.body != null {
        if ref.kind != tag.kind {
          errorCount := errorCount + 1;
        }
        ref.node.body := tag.body;
        ref.node.incomplete := false;
      } else {
        if tag != null && ref.kind == Structure && tag.contextRd {
          tag.body := new Body([]);
          return;
        }
        errorCount := errorCount + 1;
      }
    }

    /** The state of the patching loop, as long as no error has been found: `i` references are done. */
    ghost predicate Patching(i: nat)
      requires i <= |tagRefs|
      reads this, nodes
    {
      && RefNodes(tagRefs) <= nodes && Bindings()
      && (forall n {:trigger Linked(n, nodes)} :: n in nodes ==> Linked(n, nodes))
      && (forall n {:trigger TagOk(n)} :: n in nodes ==> TagOk(n))
      && (forall n {:trigger BodyOk(n)} :: n in nodes ==> BodyOk(n))
      && (forall j: nat {:trigger RefOk(j)} :: j < |tagRefs| ==> RefOk(j))
      && (forall j: nat {:trigger Patched(j)} :: j < i ==> Patched(j))
    }

    /** A tag comes before everything else that refers to it, so whoever else comes finds it complete. */
    lemma TagFirst(i: nat)
      requires i < |tagRefs| && Patching(i)
      ensures var n := tagRefs[i].node; n.tagPtr != null && (n == n.tagPtr || n.tagPtr.body != null)
    {
      var n := tagRefs[i].node;
      assert RefOk(i) && TagOk(n);
      if n != n.tagPtr {
        var j: nat :| j <= i && tagRefs[j].node == n.tagPtr;
        assert Patched(j) && TagOk(n.tagPtr);
      }
    }

    /** What patching one tag user without an error changes. */
    twostate predicate PatchStep(new n: TypeNode)
      reads this, nodes, n
    {
      && nodes == old(nodes) && tagRefs == old(tagRefs) && bindings == old(bindings)
      && (forall m :: m in nodes && m != n ==> m.body == old(m.body) && m.incomplete == old(m.incomplete))
      && (forall m :: m in nodes ==>
            && m.tagPtr == old(m.tagPtr) && m.tagName == old(m.tagName) && m.original == old(m.original)
            && m.target == old(m.target) && m.arrayRep == old(m.arrayRep) && m.defAsTag == old(m.defAsTag))
      && n in old(nodes) && old(n.tagPtr) != null && n.body != null
      && if old(n.tagPtr.body) != null
         then n.body == old(n.tagPtr.body) && !n.incomplete
         else n == old(n.tagPtr) && n.body.members == []
    }

    twostate lemma PatchedStays(new n: TypeNode, j: nat)
      requires j < |tagRefs| && n in nodes && n in old(nodes) && PatchStep(n)
      requires var m := tagRefs[j].node; m.tagPtr in nodes ==> m.tagPtr.tagPtr == m.tagPtr
      requires tagRefs[j].node == n || old(Patched(j))
      requires n.tagPtr in nodes && n.tagPtr.tagPtr == n.tagPtr && old(n.original != null ==> n.body != null)
      ensures Patched(j)
    {
    }

    twostate lemma PatchedOne(i: nat)
      requires i < |tagRefs| == |old(tagRefs)| && old(Patching(i)) && PatchStep(tagRefs[i].node)
      ensures Patching(i + 1)
    {
      var n := tagRefs[i].node;
      assert old(RefOk(i));
      var t: TypeNode := n.tagPtr;
      assert old(TagOk(n) && TagOk(t) && BodyOk(n) && Linked(n, nodes) && Linked(t, nodes));
      forall m | m in nodes
        ensures Linked(m, nodes) && TagOk(m)
      {
        assert old(Linked(m, nodes)) && old(TagOk(m));
      }
      assert forall m :: m in nodes ==> old(BodyOk(m));
      BodySet(n);
      forall j: nat | j < |tagRefs|
        ensures RefOk(j) && (j <= i ==> Patched(j))
      {
        assert old(RefOk(j)) && TagOk(tagRefs[j].node);
        if j <= i {
          assert j < i ==> old(Patched(j));
          PatchedStays(n, j);
        }
      }
    }

    method PatchNext(i: nat)
      requires i < |tagRefs| && Patching(i) && errorCount == 0
      modifies this`errorCount, nodes`body, nodes`incomplete
      ensures tagRefs[i].node.tagPtr != null
      ensures errorCount == 0 <==> old(Resolvable(tagRefs[i].node.tagPtr))
      ensures errorCount == 0 ==> Patching(i + 1)
      ensures errorCount == 0 ==> forall m :: m in nodes && old(m.body) != null ==> m.body == old(m.body)
      ensures forall m :: m in nodes && m.body != null && old(m.body) == null ==>
                && m.tagPtr in nodes && m.tagPtr.tagPtr == m.tagPtr && old(Resolvable(m.tagPtr))
                && (m.tagPtr == m ==> m.body.members == [])
    {
      ghost var n, t := tagRefs[i].node, tagRefs[i].node.tagPtr;
      assert RefOk(i) && TagOk(n) && TagOk(t) && BodyOk(n);
      TagFirst(i);
      hide Patching, Patched;
      PatchReference(tagRefs[i]);
      if errorCount == 0 {
        PatchedOne(i);
      }
    }

    lemma TagOfRef(i: nat)
      requires i < |tagRefs| && Patching(i) && errorCount == 0
      ensures var n := tagRefs[i].node;
              n.tagPtr != null && n.tagPtr in nodes && n.tagPtr.tagPtr == n.tagPtr
    {
      assert RefOk(i) && TagOk(tagRefs[i].node) && TagOk(tagRefs[i].node.tagPtr);
    }

    /** A structure that was there stays, and a tag that had none has an empty one, if any. */
    twostate predicate Bodies()
      reads nodes
      reads this`nodes
    {
      && (forall m :: m in old(nodes) && m in nodes && old(m.body) != null ==> m.body == old(m.body))
      && (forall m :: m in old(nodes) && m in nodes && m.tagPtr == m && old(m.body) == null && m.body != null ==> m.body.members == [])
    }

    /** The first loop of ASTP_patch_tag_references. */
    method PatchReferences()
      requires Parsing()
      modifies this`errorCount, nodes`body, nodes`incomplete
      ensures old(errorCount) <= errorCount
      ensures errorCount == 0 <==>
                && old(errorCount) == 0
                && forall i: nat :: i < |tagRefs| ==>
                     tagRefs[i].node.tagPtr != null && old(Resolvable(tagRefs[i].node.tagPtr))
      ensures errorCount == 0 ==> Patching(|tagRefs|)
      ensures errorCount == 0 ==> Bodies()
    {
      ghost var clean := errorCount == 0;
      assert clean ==> Patching(0);
      assert forall i :: 0 <= i < |tagRefs| ==> tagRefs[i].node in RefNodes(tagRefs) && tagRefs[i].node in nodes;
      hide Parsing, Patching, RefNodes;
      for i := 0 to |tagRefs|
        invariant old(errorCount) <= errorCount
        invariant clean && errorCount == 0 ==> Patching(i)
        invariant clean && errorCount == 0 ==>
                    forall m :: m in nodes && old(m.body) != null ==> m.body == old(m.body)
        invariant clean && errorCount == 0 ==>
                    forall m :: m in nodes && m.body != null && old(m.body) == null ==>
                      && m.tagPtr in nodes && m.tagPtr.tagPtr == m.tagPtr && old(Resolvable(m.tagPtr))
                      && (m.tagPtr == m ==> m.body.members == [])
        invariant errorCount == 0 <==>
                    && clean
                    && forall j: nat :: j < i ==>
                         tagRefs[j].node.tagPtr != null && old(Resolvable(tagRefs[j].node.tagPtr))
      {
        if errorCount == 0 {
          TagOfRef(i);
          PatchNext(i);
        } else {
          PatchReference(tagRefs[i]);
        }
      }
    }

    /** What parsing and patching have made of the type nodes is what the analysis assumes. */
    lemma PatchedIsResolved()
      requires Patching(|tagRefs|)
      ensures Resolved(nodes)
    {
      forall n | n in nodes
        ensures AliasesAgree(n, nodes)
      {
        assert Linked(n, nodes) && TagOk(n) && BodyOk(n);
        if Tagged(n.kind) && n.tagPtr != null {
          var i: nat :| i < |tagRefs| && tagRefs[i].node == n;
          assert Patched(i) && TagOk(n.tagPtr);
        }
      }
    }

    /** First pass, for one type: walk from it if it is a tag. */
    method WalkFromTag(n: TypeNode, iface: Interface, ghost g: Graph<TypeNode>, ghost originals: map<TypeNode, TypeNode>)
      requires g == GraphOf(nodes) && originals == Originals(nodes) && Resolved(nodes)
      requires n in nodes && Tagged(n.kind)
      requires Good(iface.MarksOf(nodes), g, originals)
      modifies iface, nodes`selfPointer, nodes`onSpList
      ensures Good(iface.MarksOf(nodes), g, originals)
      ensures Grows(old(iface.MarksOf(nodes)), iface.MarksOf(nodes), nodes, originals)
      ensures n.defAsTag && n in Cyclers(g) ==> n in iface.MarksOf(nodes).marked
      ensures old(Whole(iface.MarksOf(nodes), [], g, originals)) ==> Whole(iface.MarksOf(nodes), [], g, originals)
    {
      hide CanCycle, Walk, Reaches, Good, Grows, Whole;
      GrowsRefl(iface.MarksOf(nodes), nodes, originals);
      assert AliasesAgree(n, nodes);
      if n.defAsTag && n.body != null {
        StartsEmpty(n, g, originals);
        iface.FindSelfReference([], n, nodes, g, originals);
      }
    }

    /** First pass: walk from the tag nodes. */
    method WalkFromTags(iface: Interface, ghost g: Graph<TypeNode>, ghost originals: map<TypeNode, TypeNode>)
      requires g == GraphOf(nodes) && originals == Originals(nodes) && Resolved(nodes)
      requires RefNodes(tagRefs) <= nodes && forall n :: n in RefNodes(tagRefs) ==> Tagged(n.kind)
      requires Good(iface.MarksOf(nodes), g, originals)
      modifies iface, nodes`selfPointer, nodes`onSpList
      ensures Good(iface.MarksOf(nodes), g, originals)
      ensures Grows(old(iface.MarksOf(nodes)), iface.MarksOf(nodes), nodes, originals)
      ensures forall j :: 0 <= j < |tagRefs| && tagRefs[j].node.defAsTag && tagRefs[j].node in Cyclers(g)
                ==> tagRefs[j].node in iface.MarksOf(nodes).marked
      ensures old(Whole(iface.MarksOf(nodes), [], g, originals)) ==> Whole(iface.MarksOf(nodes), [], g, originals)
    {
      hide CanCycle, Walk, Reaches, Good, Grows, Whole;
      GrowsRefl(iface.MarksOf(nodes), nodes, originals);
      for i := 0 to |tagRefs|
        invariant Good(iface.MarksOf(nodes), g, originals)
        invariant Grows(old(iface.MarksOf(nodes)), iface.MarksOf(nodes), nodes, originals)
        invariant forall j :: 0 <= j < i && tagRefs[j].node.defAsTag && tagRefs[j].node in Cyclers(g)
                    ==> tagRefs[j].node in iface.MarksOf(nodes).marked
        invariant old(Whole(iface.MarksOf(nodes), [], g, originals)) ==> Whole(iface.MarksOf(nodes), [], g, originals)
      {
        var n := tagRefs[i].node;
        assert tagRefs[i] in tagRefs;
        assert n in RefNodes(tagRefs);
        ghost var m := iface.MarksOf(nodes);
        WalkFromTag(n, iface, g, originals);
        GrowsTrans(old(iface.MarksOf(nodes)), m, iface.MarksOf(nodes), nodes, originals);
        MarksStay(m, iface.MarksOf(nodes), nodes, originals);
      }
    }

    /** Second pass, for one type: walk from it, and mark it if its tag was marked. */
    method WalkFromUser(n: TypeNode, iface: Interface, ghost g: Graph<TypeNode>, ghost originals: map<TypeNode, TypeNode>)
      requires g == GraphOf(nodes) && originals == Originals(nodes) && Resolved(nodes)
      requires n in nodes && Tagged(n.kind)
      requires Good(iface.MarksOf(nodes), g, originals)
      modifies iface, nodes`selfPointer, nodes`onSpList
      ensures Good(iface.MarksOf(nodes), g, originals)
      ensures Grows(old(iface.MarksOf(nodes)), iface.MarksOf(nodes), nodes, originals)
      ensures !n.defAsTag && n in Cyclers(g) ==> n in iface.MarksOf(nodes).marked
      ensures old(Whole(iface.MarksOf(nodes), [], g, originals)) ==> Whole(iface.MarksOf(nodes), [], g, originals)
    {
      hide CanCycle, Walk, Reaches, Good, Grows, Whole;
      GrowsRefl(iface.MarksOf(nodes), nodes, originals);
      if !n.defAsTag && !n.selfPointer {
        StartsEmpty(n, g, originals);
        iface.FindSelfReference([], n, nodes, g, originals);
        assert AliasesAgree(n, nodes);
        var tag := n.tagPtr;
        if tag != null && tag.selfPointer {
          ghost var m := iface.MarksOf(nodes);
          TagMarked(m, n, nodes, g, originals);
          if Whole(m, [], g, originals) {
            WholeAfterTag(m, n, nodes, g, originals);
          }
          iface.ProcessSpType(n, nodes, originals);
          GrowsTrans(old(iface.MarksOf(nodes)), m, iface.MarksOf(nodes), nodes, originals);
          MarksStay(m, iface.MarksOf(nodes), nodes, originals);
        }
      }
    }

    /** Second pass: the list is consumed from its head. */
    method WalkFromUsers(iface: Interface, ghost g: Graph<TypeNode>, ghost originals: map<TypeNode, TypeNode>)
      requires g == GraphOf(nodes) && originals == Originals(nodes) && Resolved(nodes)
      requires RefNodes(tagRefs) <= nodes && forall n :: n in RefNodes(tagRefs) ==> Tagged(n.kind)
      requires Good(iface.MarksOf(nodes), g, originals)
      modifies this`tagRefs, iface, nodes`selfPointer, nodes`onSpList
      ensures tagRefs == []
      ensures Good(iface.MarksOf(nodes), g, originals)
      ensures Grows(old(iface.MarksOf(nodes)), iface.MarksOf(nodes), nodes, originals)
      ensures forall j :: 0 <= j < |old(tagRefs)| && !old(tagRefs)[j].node.defAsTag && old(tagRefs)[j].node in Cyclers(g)
                ==> old(tagRefs)[j].node in iface.MarksOf(nodes).marked
      ensures old(Whole(iface.MarksOf(nodes), [], g, originals)) ==> Whole(iface.MarksOf(nodes), [], g, originals)
    {
      hide CanCycle, Walk, Reaches, Good, Grows, Whole;
      GrowsRefl(iface.MarksOf(nodes), nodes, originals);
      ghost var all, k := tagRefs, 0;
      while tagRefs != []
        invariant 0 <= k <= |all| && tagRefs == all[k..]
        invariant Good(iface.MarksOf(nodes), g, originals)
        invariant Grows(old(iface.MarksOf(nodes)), iface.MarksOf(nodes), nodes, originals)
        invariant forall j :: 0 <= j < k && !all[j].node.defAsTag && all[j].node in Cyclers(g)
                    ==> all[j].node in iface.MarksOf(nodes).marked
        invariant old(Whole(iface.MarksOf(nodes), [], g, originals)) ==> Whole(iface.MarksOf(nodes), [], g, originals)
        decreases |all| - k
      {
        var n := tagRefs[0].node;
        assert all[k] in all && n in RefNodes(all);
        ghost var m := iface.MarksOf(nodes);
        WalkFromUser(n, iface, g, originals);
        GrowsTrans(old(iface.MarksOf(nodes)), m, iface.MarksOf(nodes), nodes, originals);
        MarksStay(m, iface.MarksOf(nodes), nodes, originals);
        tagRefs := tagRefs[1..];
        k := k + 1;
      }
    }

    /** The two passes of ASTP_patch_tag_references over the tag users, the tags first. */
    method FindSelfPointers(iface: Interface)
      requires Resolved(nodes)
      requires RefNodes(tagRefs) <= nodes && forall n :: n in RefNodes(tagRefs) ==> Tagged(n.kind)
      requires Good(iface.MarksOf(nodes), GraphOf(nodes), Originals(nodes))
      modifies this`tagRefs, iface, nodes`selfPointer, nodes`onSpList
      ensures tagRefs == []
      ensures Good(iface.MarksOf(nodes), GraphOf(nodes), Originals(nodes))
      ensures Grows(old(iface.MarksOf(nodes)), iface.MarksOf(nodes), nodes, Originals(nodes))
      ensures forall n :: n in RefNodes(old(tagRefs)) ==> (n.selfPointer <==> CanCycle(GraphOf(nodes), n))
      ensures old(Whole(iface.MarksOf(nodes), [], GraphOf(nodes), Originals(nodes))) ==>
                Whole(iface.MarksOf(nodes), [], GraphOf(nodes), Originals(nodes))
    {
      hide CanCycle, Walk, Reaches, Good, Grows, Whole;
      ghost var g, originals, all := GraphOf(nodes), Originals(nodes), tagRefs;
      WalkFromTags(iface, g, originals);
      ghost var m := iface.MarksOf(nodes);
      WalkFromUsers(iface, g, originals);
      GrowsTrans(old(iface.MarksOf(nodes)), m, iface.MarksOf(nodes), nodes, originals);
      MarksStay(m, iface.MarksOf(nodes), nodes, originals);
      MarkedCycles(iface.MarksOf(nodes), g, originals);
      forall n | n in RefNodes(all)
        ensures n.selfPointer <==> CanCycle(g, n)
      {
        var j :| 0 <= j < |all| && all[j].node == n;
        assert n in iface.MarksOf(nodes).marked <==> n.selfPointer;
      }
    }

    /** A fresh interface has marked nothing yet. */
    lemma NothingMarked(iface: Interface)
      requires Parsing() && errorCount == 0 && iface.spTypes == []
      ensures iface.MarksOf(nodes) == Marks({}, {}, [])
    {
      assert forall n :: n in nodes ==> Pending(n);
    }

    /** What the analysis has found, told of the tag users and of the list. */
    ghost predicate Analysed(iface: Interface)
      reads this, iface, nodes
    {
      && Resolved(nodes) && (forall n :: n in nodes && n.kind == Pointer ==> n.target != null && n.target in nodes)
      && Distinct(iface.spTypes)
      && (forall n :: n in iface.spTypes ==> n in nodes && CanCycle(GraphOf(nodes), n))
      && (forall n :: n in nodes && n.selfPointer ==> CanCycle(GraphOf(nodes), n))
      && (forall n :: n in nodes && Tagged(n.kind) && n.tagPtr != null ==>
            && (n.selfPointer <==> CanCycle(GraphOf(nodes), n))
            && (n.selfPointer <==> (if HasOriginal(n) then n.original else n) in iface.spTypes))
      && (forall n :: n in nodes && HasOriginal(n) ==> n !in iface.spTypes)
      // and so for whatever can be reached from them
      && (forall n, x {:trigger Reaches(GraphOf(nodes), n, x)} ::
            n in nodes && Tagged(n.kind) && n.tagPtr != null && x in nodes && Reaches(GraphOf(nodes), n, x) ==>
              (x.selfPointer <==> CanCycle(GraphOf(nodes), x)))
      // everything marked but anonymous pointers is on the list, and with a pointer its pointee's array form
      && (forall n :: n in nodes && n.selfPointer && (n.kind == Pointer ==> n.named) ==>
            (if HasOriginal(n) then n.original else n) in iface.spTypes)
      && (forall n :: n in nodes && n.selfPointer && n.kind == Pointer && n.target.arrayRep != null ==>
            n.target.arrayRep in nodes && n.target.arrayRep.selfPointer && n.target.arrayRep in iface.spTypes)
    }

    /** Once every reference is patched, every tag user shares the structure of its tag. */
    lemma AllPatched()
      requires Patching(|tagRefs|)
      ensures forall n :: n in RefNodes(tagRefs) ==> n in nodes && Tagged(n.kind) && n.tagPtr in nodes
      ensures forall n :: n in RefNodes(tagRefs) ==>
                && n.body != null && n.body == n.tagPtr.body
                && (n.incomplete ==> n == n.tagPtr && n.original == null && n.body.members == [])
      ensures forall n :: n in nodes && Tagged(n.kind) && n.tagPtr != null ==> n in RefNodes(tagRefs)
    {
      forall n | n in RefNodes(tagRefs)
        ensures n in nodes && Tagged(n.kind) && n.tagPtr in nodes
        ensures n.body != null && n.body == n.tagPtr.body
        ensures n.incomplete ==> n == n.tagPtr && n.original == null && n.body.members == []
      {
        var i: nat :| i < |tagRefs| && tagRefs[i].node == n;
        assert RefOk(i) && Patched(i) && TagOk(n);
      }
      forall n | n in nodes && Tagged(n.kind) && n.tagPtr != null
        ensures n in RefNodes(tagRefs)
      {
        assert TagOk(n);
      }
    }

    /** ASTP_patch_tag_references: for every interface that parsed without an error, and for every order
        in which its tags were used, defined and copied. */
    method PatchTagReferences(iface: Interface)
      requires Parsing() && iface.spTypes == []
      modifies this`tagRefs, this`errorCount, iface
      modifies nodes`body, nodes`incomplete, nodes`selfPointer, nodes`onSpList
      ensures errorCount == 0 <==>
                && old(errorCount) == 0
                && forall i: nat :: i < |old(tagRefs)| ==>
                     old(tagRefs[i].node.tagPtr) != null && old(Resolvable(tagRefs[i].node.tagPtr))
      ensures errorCount == 0 ==>
                && tagRefs == [] && Analysed(iface)
                && forall n :: n in RefNodes(old(tagRefs)) ==>
                     && n.tagPtr != null && n.body != null && n.body == n.tagPtr.body
                     && (n.incomplete ==> n == n.tagPtr && n.original == null && n.body.members == [])
      ensures errorCount == 0 ==> Bodies()
    {
      hide Analysed;
      if errorCount == 0 {
        NothingMarked(iface);
      }
      hide Parsing, Resolvable;
      PatchReferences();
      if errorCount == 0 {
        PatchedIsResolved();
        AllPatched();
        hide Patching, RefNodes;
        ghost var users := RefNodes(tagRefs);
        NothingIsGood(GraphOf(nodes), Originals(nodes));
        NothingIsWhole(GraphOf(nodes), Originals(nodes));
        FindSelfPointers(iface);
        Conclude(iface, users);
      }
    }

    lemma Conclude(iface: Interface, users: set<TypeNode>)
      requires Resolved(nodes)
      requires Good(iface.MarksOf(nodes), GraphOf(nodes), Originals(nodes))
      requires Grows(Marks({}, {}, []), iface.MarksOf(nodes), nodes, Originals(nodes))
      requires forall n :: n in users ==> (n.selfPointer <==> CanCycle(GraphOf(nodes), n))
      requires forall n :: n in nodes && Tagged(n.kind) && n.tagPtr != null ==> n in users
      requires Whole(iface.MarksOf(nodes), [], GraphOf(nodes), Originals(nodes))
      ensures Analysed(iface)
    {
      hide CanCycle, Reaches, Whole;
      var m, originals := iface.MarksOf(nodes), Originals(nodes);
      ReachedExactly(iface, users);
      MarkedCycles(m, GraphOf(nodes), originals);
      Pairing(nodes);
      forall n | n in nodes && Tagged(n.kind) && n.tagPtr != null
        ensures n.selfPointer <==> (if HasOriginal(n) then n.original else n) in iface.spTypes
      {
        assert AliasesAgree(n, nodes);
        assert n.selfPointer <==> n in m.marked;
        assert HasOriginal(n) <==> n in originals;
      }
      AllListed(iface);
    }

    /** Whatever a tag user reaches is marked if and only if it can reach a cycle. */
    lemma ReachedExactly(iface: Interface, users: set<TypeNode>)
      requires Resolved(nodes) && Good(iface.MarksOf(nodes), GraphOf(nodes), Originals(nodes))
      requires forall n :: n in users ==> (n.selfPointer <==> CanCycle(GraphOf(nodes), n))
      requires forall n :: n in nodes && Tagged(n.kind) && n.tagPtr != null ==> n in users
      requires Whole(iface.MarksOf(nodes), [], GraphOf(nodes), Originals(nodes))
      ensures forall n, x {:trigger Reaches(GraphOf(nodes), n, x)} ::
                n in nodes && Tagged(n.kind) && n.tagPtr != null && x in nodes && Reaches(GraphOf(nodes), n, x) ==>
                  (x.selfPointer <==> CanCycle(GraphOf(nodes), x))
    {
      var m, g := iface.MarksOf(nodes), GraphOf(nodes);
      MarkedCycles(m, g, Originals(nodes));
      forall n | n in nodes
        ensures Linked(n, nodes)
      {
        assert AliasesAgree(n, nodes);
      }
      GraphClosed(nodes);
      hide CanCycle, Whole, Good;
      forall n, x | n in nodes && Tagged(n.kind) && n.tagPtr != null && x in nodes && Reaches(g, n, x) && CanCycle(g, x)
        ensures x.selfPointer
      {
        var k: nat :| Walk(g, n, x, k);
        CycleBehind(g, n, x);
        assert n in m.marked;
        ReachedIsMarked(m, n, x, k, g, Originals(nodes));
      }
      assert forall x :: x in nodes ==> (x.selfPointer <==> x in m.marked);
    }

    /** From nothing marked, what is flagged is on the list, and marked pointers are completed. */
    lemma AllListed(iface: Interface)
      requires Resolved(nodes) && iface.MarksOf(nodes).flagged <= iface.MarksOf(nodes).marked
      requires Grows(Marks({}, {}, []), iface.MarksOf(nodes), nodes, Originals(nodes))
      ensures forall n :: n in nodes && n.kind == Pointer ==> n.target != null && n.target in nodes
      ensures forall n :: n in nodes && n.selfPointer && (n.kind == Pointer ==> n.named) ==>
                (if HasOriginal(n) then n.original else n) in iface.spTypes
      ensures forall n :: n in nodes && n.selfPointer && n.kind == Pointer && n.target.arrayRep != null ==>
                n.target.arrayRep in nodes && n.target.arrayRep.selfPointer && n.target.arrayRep in iface.spTypes
    {
      var m, originals := iface.MarksOf(nodes), Originals(nodes);
      forall n | n in nodes && n.kind == Pointer
        ensures n.target != null && n.target in nodes
      {
        assert AliasesAgree(n, nodes);
      }
      forall n | n in nodes && n.selfPointer && (n.kind == Pointer ==> n.named)
        ensures (if HasOriginal(n) then n.original else n) in iface.spTypes
      {
        assert n.kind == Pointer ==> Completed(m, n, nodes);
        assert n in m.marked && n in m.flagged && (HasOriginal(n) <==> n in originals);
      }
      forall n | n in nodes && n.selfPointer && n.kind == Pointer && n.target.arrayRep != null
        ensures n.target.arrayRep in nodes && n.target.arrayRep.selfPointer && n.target.arrayRep in iface.spTypes
      {
        var rep: TypeNode := n.target.arrayRep;
        assert AliasesAgree(n.target, nodes) && AliasesAgree(rep, nodes);
        assert Completed(m, n, nodes) && rep in m.flagged && rep !in originals;
      }
    }
  }
}
