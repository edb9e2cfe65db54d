/**
  The singly linked lists of the syntax tree.  The head caches the tail, so that appending takes
  one step; nobody keeps the `last` fields of the other nodes up to date.
*/
module Lists {
  import opened Utils

  class Node<T> {
    const value: T
    var next: Node?<T>
    var last: Node?<T>

    constructor (value: T)
      ensures this.value == value && next == null && last == null
    {
      this.value, next, last := value, null, null;
    }
  }

  /** `head` is the list of the nodes `s`. */
  ghost predicate IsList<T>(head: Node?<T>, s: seq<Node<T>>)
    reads s
  {
    && Distinct(s)
    && (s == [] <==> head == null)
    && (s != [] ==>
          && head == s[0] && s[|s| - 1].next == null
          && (forall i :: 0 <= i < |s| - 1 ==> s[i].next == s[i + 1])
          && s[0].last == if |s| == 1 then null else s[|s| - 1])
  }

  ghost predicate Disjoint<T>(s: seq<T>, t: seq<T>) {
    forall i, j :: 0 <= i < |s| && 0 <= j < |t| ==> s[i] != t[j]
  }

  /** AST_concat_element: `element` may itself be a list, or null. */
  method ConcatElement<T>(head: Node?<T>, element: Node?<T>, ghost s: seq<Node<T>>, ghost t: seq<Node<T>>)
    returns (r: Node?<T>)
    requires IsList(head, s) && IsList(element, t) && Disjoint(s, t)
    modifies s
    ensures IsList(r, s + t)
    // only two links are written
    ensures forall i :: 0 < i < |s| ==> s[i].last == old(s[i].last)
    ensures forall i :: 0 <= i < |s| - 1 ==> s[i].next == old(s[i].next)
  {
    if element == null {
      assert s + t == s;
      return head;
    }
    if head == null {
      assert s + t == t;
      return element;
    }
    if head.last == null {
      head.last := if element.last == null then element else element.last;
      head.next := element;
      return head;
    }
    head.last.next := element;
    head.last := if element.last != null then element.last else element;
    return head;
  }

  /** struct_last_field: the last field of a structure, found from the first alone. */
  method LastField<T>(head: Node<T>, ghost s: seq<Node<T>>) returns (r: Node<T>)
    requires IsList(head, s)
    ensures r == s[|s| - 1]
  {
    r := if head.last == null then head else head.last;
  }

  /** The list that a grammar rule builds, one element at a time. */
  method Build<T>(values: seq<T>) returns (head: Node?<T>, ghost s: seq<Node<T>>)
    ensures IsList(head, s) && fresh(s)
    ensures |s| == |values| && forall i :: 0 <= i < |s| ==> s[i].value == values[i]
  {
    head, s := null, [];
    for k := 0 to |values|
      invariant IsList(head, s) && fresh(s)
      invariant |s| == k && forall i :: 0 <= i < k ==> s[i].value == values[i]
    {
      var element := new Node(values[k]);
      head := ConcatElement(head, element, s, [element]);
      s := s + [element];
    }
  }
}
