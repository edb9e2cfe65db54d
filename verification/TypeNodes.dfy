/**
  Type nodes of the abstract syntax tree, as the front end allocates and patches them, and
  the graph that they form.
*/
module TypeNodes {
  import opened TypeGraph

  /** The kinds that the self-pointing analysis follows; base types and every other kind are leaves to it. */
  datatype Kind = Pointer | Array | Structure | DiscUnion | Base | Other

  predicate Tagged(k: Kind) {
    k.Structure? || k.DiscUnion?
  }

  /** A structure or discriminated-union node: the types of its fields or arms, in order.
      An empty arm has no type. */
  class Body {
    const members: seq<TypeNode?>

    constructor (members: seq<TypeNode?>)
      ensures this.members == members
    {
      this.members := members;
    }
  }

  class TypeNode {
    const kind: Kind
    var named: bool
    var target: TypeNode?      // pointee of a pointer, element of an array
    var body: Body?            // shared by every node that stands for the same struct or union
    var arrayRep: TypeNode?    // array form of pointers to this type

    // attribute flags
    var selfPointer: bool
    var defAsTag: bool
    var contextRd: bool

    // front-end information
    var onSpList: bool         // FE_SELF_POINTING
    var incomplete: bool       // FE_INCOMPLETE
    var tagPtr: TypeNode?      // the node bound to this type's tag
    var tagName: nat
    var original: TypeNode?    // of a tag node: the node made where the tag was defined

    constructor (kind: Kind)
      ensures this.kind == kind && !named && target == null && body == null && arrayRep == null
      ensures !selfPointer && !defAsTag && !contextRd && !onSpList && !incomplete
      ensures tagPtr == null && tagName == NIL_ID && original == null
    {
      this.kind := kind;
      named, target, body, arrayRep := false, null, null, null;
      selfPointer, defAsTag, contextRd, onSpList, incomplete := false, false, false, false, false;
      tagPtr, tagName, original := null, NIL_ID, null;
    }
  }

  const NIL_ID: nat := 0

  ghost function NonNull(s: seq<TypeNode?>): (r: seq<TypeNode>)
    ensures forall m :: m in r ==> m in s
    ensures forall m: TypeNode? :: m in s && m != null ==> m in r
  {
    if s == [] then []
    else (if s[0] == null then [] else [s[0]]) + NonNull(s[1..])
  }

  /** What the analysis follows from a node: pointee, element, fields or arms. */
  ghost function Children(n: TypeNode): seq<TypeNode>
    reads n`target, n`body
  {
    match n.kind
    case Pointer => if n.target == null then [] else [n.target]
    case Array => if n.target == null then [] else [n.target]
    case Structure => if n.body == null then [] else NonNull(n.body.members)
    case DiscUnion => if n.body == null then [] else NonNull(n.body.members)
    case Base => []
    case Other => []
  }

  ghost function GraphOf(nodes: set<TypeNode>): Graph<TypeNode>
    reads nodes`target, nodes`body
  {
    map n | n in nodes :: Children(n)
  }

  ghost predicate MembersIn(b: Body, nodes: set<TypeNode>) {
    forall m :: m in b.members && m != null ==> m in nodes
  }

  /** A tag node that has been defined; its original stands for it on the sp_types list. */
  ghost predicate HasOriginal(n: TypeNode)
    reads n`defAsTag, n`original
  {
    n.defAsTag && n.original != null
  }

  /** References from `n` stay inside `nodes`, and the ones its kind needs are present. */
  ghost predicate Linked(n: TypeNode, nodes: set<TypeNode>)
    reads n`target, n`body, n`tagPtr, n`original, n`arrayRep
  {
    && (n.target != null ==> n.target in nodes)
    && (n.tagPtr != null ==> n.tagPtr in nodes)
    && (n.original != null ==> n.original in nodes)
    && (n.arrayRep != null ==> n.arrayRep in nodes && n.arrayRep.kind == Array)
    && (n.body != null ==> MembersIn(n.body, nodes))
    && (n.kind == Structure && n.body != null ==> null !in n.body.members)
    && (n.kind == Pointer || n.kind == Array ==> n.target != null)
  }

  /** A tag, its original and the typedef copies of either are names of one struct or union. */
  ghost predicate AliasesAgree(n: TypeNode, nodes: set<TypeNode>)
    requires n in nodes
    reads nodes`target, nodes`body, nodes`tagPtr, nodes`original, nodes`arrayRep, nodes`defAsTag
  {
    && Linked(n, nodes)
    && (Tagged(n.kind) ==> n.body != null)
    && (Tagged(n.kind) && n.tagPtr != null ==>
          Tagged(n.tagPtr.kind) && n.tagPtr.body == n.body && n.tagPtr.defAsTag)
    && (HasOriginal(n) ==>
          && Tagged(n.kind) && Tagged(n.original.kind)
          && n.original.body == n.body && n.original.tagPtr == n && !n.original.defAsTag)
    && (n.arrayRep != null ==>
          n.arrayRep.target == n || (HasOriginal(n) && n.arrayRep.target == n.original))
  }

  /** A completely resolved set of type nodes, as it is once every tag has been patched. */
  ghost predicate Resolved(nodes: set<TypeNode>)
    reads nodes`target, nodes`body, nodes`tagPtr, nodes`original, nodes`arrayRep, nodes`defAsTag
  {
    forall n {:trigger AliasesAgree(n, nodes)} :: n in nodes ==> AliasesAgree(n, nodes)
  }

  /** The defined tags, each with its original. */
  ghost function Originals(nodes: set<TypeNode>): map<TypeNode, TypeNode>
    reads nodes`defAsTag, nodes`original
  {
    map n | n in nodes && HasOriginal(n) :: n.original
  }

  /** Tags and originals pair up one to one, and no type is both. */
  lemma Pairing(nodes: set<TypeNode>)
    requires Resolved(nodes)
    ensures var originals := Originals(nodes);
            && (forall t :: t in originals ==>
                  originals[t] !in originals && originals[t] in nodes && Tagged(originals[t].kind))
            && (forall t, u :: t in originals && u in originals && originals[t] == originals[u] ==> t == u)
  {
    assert forall n :: n in Originals(nodes) ==> AliasesAgree(n, nodes);
  }

  lemma GraphClosed(nodes: set<TypeNode>)
    requires forall n {:trigger Linked(n, nodes)} :: n in nodes ==> Linked(n, nodes)
    ensures Closed(GraphOf(nodes))
  {
    var g := GraphOf(nodes);
    forall x, y | x in g && y in Succ(g, x)
      ensures y in g
    {
      assert Linked(x, nodes);
      assert y in Children(x);
    }
  }
}
