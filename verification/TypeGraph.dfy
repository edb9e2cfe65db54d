/**
  Walks and cycles in a finite directed graph.

  The interface compiler asks of every struct and union whether following its pointers,
  fields, arms and array elements can go on for ever.  This module defines that question
  (`CanCycle`), independently of any algorithm, and proves the facts that the analysis needs.
  Vertices may be heap objects, so walks are counted rather than written out as sequences.
*/
module TypeGraph {

  /** A graph maps each vertex to the list of its successors. */
  type Graph<V> = map<V, seq<V>>

  ghost function Succ<V>(g: Graph<V>, x: V): seq<V> {
    if x in g then g[x] else []
  }

  ghost predicate Closed<V>(g: Graph<V>) {
    forall x, y :: x in g && y in Succ(g, x) ==> y in g
  }

  /** There is a walk of exactly `k + 1` edges from `x` to `y`. */
  ghost predicate Walk<V>(g: Graph<V>, x: V, y: V, k: nat) {
    if k == 0 then y in Succ(g, x)
    else exists z :: z in Succ(g, x) && Walk(g, z, y, k - 1)
  }

  /** The transitive closure of the successor relation. */
  ghost predicate Reaches<V>(g: Graph<V>, x: V, y: V) {
    exists k: nat :: Walk(g, x, y, k)
  }

  ghost predicate OnCycle<V>(g: Graph<V>, x: V) {
    Reaches(g, x, x)
  }

  /** Some cycle can be reached from `x` (possibly one through `x` itself). */
  ghost predicate CanCycle<V>(g: Graph<V>, x: V) {
    exists m :: m in g && OnCycle(g, m) && (m == x || Reaches(g, x, m))
  }

  /** No member of `s` is a dead end: each has a successor that is again in `s`. */
  ghost predicate Trap<V>(g: Graph<V>, s: set<V>) {
    s <= g.Keys && forall x {:trigger StaysIn(g, s, x)} :: x in s ==> StaysIn(g, s, x)
  }

  ghost predicate StaysIn<V>(g: Graph<V>, s: set<V>, x: V) {
    exists y :: y in Succ(g, x) && y in s
  }

  lemma {:induction false} WalkConcat<V>(g: Graph<V>, x: V, y: V, z: V, j: nat, k: nat)
    requires Walk(g, x, y, j) && Walk(g, y, z, k)
    ensures Walk(g, x, z, j + k + 1)
    decreases j
  {
    if j > 0 {
      var w :| w in Succ(g, x) && Walk(g, w, y, j - 1);
      WalkConcat(g, w, y, z, j - 1, k);
    }
  }

  lemma ReachesEdge<V>(g: Graph<V>, x: V, y: V)
    requires y in Succ(g, x)
    ensures Reaches(g, x, y)
  {
    assert Walk(g, x, y, 0);
  }

  lemma ReachesTrans<V>(g: Graph<V>, x: V, y: V, z: V)
    requires Reaches(g, x, y) && Reaches(g, y, z)
    ensures Reaches(g, x, z)
  {
    var j: nat :| Walk(g, x, y, j);
    var k: nat :| Walk(g, y, z, k);
    WalkConcat(g, x, y, z, j, k);
  }

  /** The first edge of a walk, and what it leads to. */
  lemma FirstEdge<V>(g: Graph<V>, x: V, y: V) returns (c: V)
    requires Reaches(g, x, y)
    ensures c in Succ(g, x) && (c == y || Reaches(g, c, y))
  {
    var k: nat :| Walk(g, x, y, k);
    if k == 0 {
      c := y;
    } else {
      c :| c in Succ(g, x) && Walk(g, c, y, k - 1);
    }
  }

  lemma OnCycleCanCycle<V>(g: Graph<V>, x: V)
    requires Reaches(g, x, x)
    ensures CanCycle(g, x)
  {
    var c := FirstEdge(g, x, x);
    assert x in g && OnCycle(g, x);
  }

  lemma CycleBehind<V>(g: Graph<V>, x: V, y: V)
    requires Reaches(g, x, y) && CanCycle(g, y)
    ensures CanCycle(g, x)
  {
    var m :| m in g && OnCycle(g, m) && (m == y || Reaches(g, y, m));
    if m != y {
      ReachesTrans(g, x, y, m);
    }
  }

  lemma CycleAhead<V>(g: Graph<V>, x: V) returns (c: V)
    requires CanCycle(g, x)
    ensures c in Succ(g, x) && CanCycle(g, c)
  {
    var m :| m in g && OnCycle(g, m) && (m == x || Reaches(g, x, m));
    c := FirstEdge(g, x, m);
  }

  /** `CanCycle` is decided by the successors alone, so vertices that share them agree on it. */
  lemma CycleBySuccessors<V>(g: Graph<V>, x: V)
    ensures CanCycle(g, x) <==> exists c :: c in Succ(g, x) && CanCycle(g, c)
  {
    if CanCycle(g, x) {
      var c := CycleAhead(g, x);
    }
    forall c | c in Succ(g, x) && CanCycle(g, c)
      ensures CanCycle(g, x)
    {
      ReachesEdge(g, x, c);
      CycleBehind(g, x, c);
    }
  }

  lemma SharedSuccessors<V>(g: Graph<V>, x: V, y: V)
    requires Succ(g, x) == Succ(g, y)
    ensures CanCycle(g, x) <==> CanCycle(g, y)
  {
    CycleBySuccessors(g, x);
    CycleBySuccessors(g, y);
  }

  /** Pigeonhole: a walk that never has to leave a finite trap comes back to where it was. */
  lemma {:induction false} TrapCycles<V>(g: Graph<V>, s: set<V>, x: V, visited: set<V>)
    requires Trap(g, s) && x in s && visited <= s
    requires forall v :: v in visited ==> Reaches(g, v, x)
    ensures CanCycle(g, x)
    decreases s - visited
  {
    if x in visited {
      assert OnCycle(g, x);
    } else {
      assert StaysIn(g, s, x);
      var y :| y in Succ(g, x) && y in s;
      ReachesEdge(g, x, y);
      forall v | v in visited + {x}
        ensures Reaches(g, v, y)
      {
        if v != x {
          ReachesTrans(g, v, x, y);
        }
      }
      TrapCycles(g, s, y, visited + {x});
      CycleBehind(g, x, y);
    }
  }

  ghost function Cyclers<V>(g: Graph<V>): set<V> {
    set x | x in g && CanCycle(g, x)
  }

  /** A vertex can reach a cycle exactly when it can be followed for ever. */
  lemma CanCycleIffTrapped<V>(g: Graph<V>, x: V)
    requires Closed(g) && x in g
    ensures CanCycle(g, x) <==> exists s: set<V> :: s <= g.Keys && Trap(g, s) && x in s
  {
    if CanCycle(g, x) {
      var s := Cyclers(g);
      forall v | v in s
        ensures StaysIn(g, s, v)
      {
        var c := CycleAhead(g, v);
        assert c in s;
      }
      assert s <= g.Keys && Trap(g, s) && x in s;
    }
    forall s: set<V> | s <= g.Keys && Trap(g, s) && x in s
      ensures CanCycle(g, x)
    {
      TrapCycles(g, s, x, {});
    }
  }

  // ----- one graph drawn inside another -----

  /** From `x`, with no other way to go, `k + 1` edges lead to `y`. */
  ghost predicate Through<V>(g: Graph<V>, x: V, y: V, k: nat) {
    |Succ(g, x)| == 1 && if k == 0 then Succ(g, x)[0] == y else Through(g, Succ(g, x)[0], y, k - 1)
  }

  /** The `i`th vertex drawn leads where `h` says, perhaps through vertices that are not drawn. */
  ghost predicate Drawn<V>(g: Graph<V>, h: Graph<nat>, made: seq<V>, i: nat)
    requires i < |made|
  {
    || (&& |Succ(g, made[i])| == |Succ(h, i)|
        && forall j :: 0 <= j < |Succ(h, i)| ==> Succ(h, i)[j] < |made| && Succ(g, made[i])[j] == made[Succ(h, i)[j]])
    || (exists b: nat, k: nat :: b < |made| && Succ(h, i) == [b] && Through(g, made[i], made[b], k))
  }

  lemma {:induction false} ThroughCycles<V>(g: Graph<V>, x: V, y: V, k: nat)
    requires Through(g, x, y, k)
    ensures CanCycle(g, x) <==> CanCycle(g, y)
    decreases k
  {
    hide CanCycle;
    CycleBySuccessors(g, x);
    if k == 0 {
      assert y in Succ(g, x);
    } else {
      ThroughCycles(g, Succ(g, x)[0], y, k - 1);
    }
  }

  /** One step of what is drawn is some steps of the graph. */
  lemma StepDrawn<V>(g: Graph<V>, h: Graph<nat>, made: seq<V>, i: nat)
    requires i < |made| && Drawn(g, h, made, i)
    ensures CanCycle(g, made[i]) <==> exists j :: j in Succ(h, i) && j < |made| && CanCycle(g, made[j])
  {
    hide CanCycle;
    if b: nat, k: nat :| b < |made| && Succ(h, i) == [b] && Through(g, made[i], made[b], k) {
      ThroughCycles(g, made[i], made[b], k);
      assert b in Succ(h, i);
    } else {
      CycleBySuccessors(g, made[i]);
      if c :| c in Succ(g, made[i]) && CanCycle(g, c) {
        var n :| 0 <= n < |Succ(g, made[i])| && Succ(g, made[i])[n] == c;
        assert Succ(h, i)[n] in Succ(h, i);
      }
      if j :| j in Succ(h, i) && j < |made| && CanCycle(g, made[j]) {
        var n :| 0 <= n < |Succ(h, i)| && Succ(h, i)[n] == j;
        assert Succ(g, made[i])[n] in Succ(g, made[i]);
      }
    }
  }

  /** The vertices of `g` that lie on the way between drawn ones of `s`. */
  ghost predicate OnTheWay<V>(g: Graph<V>, made: seq<V>, s: set<nat>, x: V) {
    exists i: nat :: i in s && i < |made| && (x == made[i] || exists k: nat :: Through(g, x, made[i], k))
  }

  /** What is drawn can cycle exactly where its drawing can. */
  lemma DrawnCycles<V>(g: Graph<V>, h: Graph<nat>, made: seq<V>, i: nat)
    requires Closed(g) && Closed(h) && i < |made| && forall j: nat :: j in h <==> j < |made|
    requires forall j: nat :: j < |made| ==> made[j] in g && Drawn(g, h, made, j)
    ensures CanCycle(g, made[i]) <==> CanCycle(h, i)
  {
    hide CanCycle, Drawn;
    if CanCycle(g, made[i]) {
      var s := set j: nat | j < |made| && CanCycle(g, made[j]);
      forall j | j in s
        ensures StaysIn(h, s, j)
      {
        StepDrawn(g, h, made, j);
        var n :| n in Succ(h, j) && n < |made| && CanCycle(g, made[n]);
        assert n in s;
      }
      assert Trap(h, s);
      TrapCycles(h, s, i, {});
    }
    if CanCycle(h, i) {
      DrawnTrap(g, h, made, i);
    }
  }

  lemma DrawnTrap<V>(g: Graph<V>, h: Graph<nat>, made: seq<V>, i: nat)
    requires Closed(g) && Closed(h) && i < |made| && forall j: nat :: j in h <==> j < |made|
    requires forall j: nat :: j < |made| ==> made[j] in g && Drawn(g, h, made, j)
    requires CanCycle(h, i)
    ensures CanCycle(g, made[i])
  {
    hide CanCycle, Drawn;
    var s := Cyclers(h);
    var t := set x | x in g && OnTheWay(g, made, s, x);
    forall x | x in t
      ensures StaysIn(g, t, x)
    {
      var j: nat :| j in s && j < |made| && (x == made[j] || exists k: nat :: Through(g, x, made[j], k));
      if k: nat :| Through(g, x, made[j], k) {
        OneStepThrough(g, made, s, x, j, k);
      } else {
        OneStepDrawn(g, h, made, s, j);
      }
      var y :| y in Succ(g, x) && OnTheWay(g, made, s, y);
      assert y in t;
    }
    assert OnTheWay(g, made, s, made[i]);
    TrapCycles(g, t, made[i], {});
  }

  lemma OneStepThrough<V>(g: Graph<V>, made: seq<V>, s: set<nat>, x: V, j: nat, k: nat)
    requires j in s && j < |made| && Through(g, x, made[j], k)
    ensures exists y :: y in Succ(g, x) && OnTheWay(g, made, s, y)
  {
    if k == 0 {
      assert made[j] in Succ(g, x) && OnTheWay(g, made, s, made[j]);
    } else {
      var z := Succ(g, x)[0];
      assert Through(g, z, made[j], k - 1);
      assert z in Succ(g, x) && OnTheWay(g, made, s, z);
    }
  }

  lemma OneStepDrawn<V>(g: Graph<V>, h: Graph<nat>, made: seq<V>, s: set<nat>, j: nat)
    requires s == Cyclers(h) && j in s && j < |made| && Drawn(g, h, made, j)
    requires Closed(h) && forall n: nat :: n in h <==> n < |made|
    ensures exists y :: y in Succ(g, made[j]) && OnTheWay(g, made, s, y)
  {
    hide CanCycle;
    var n := CycleAhead(h, j);
    assert n in s;
    if b: nat, k: nat :| b < |made| && Succ(h, j) == [b] && Through(g, made[j], made[b], k) {
      assert n == b;
      OneStepThrough(g, made, s, made[j], b, k);
    } else {
      var m :| 0 <= m < |Succ(h, j)| && Succ(h, j)[m] == n;
      assert made[n] in Succ(g, made[j]) && OnTheWay(g, made, s, made[n]);
    }
  }

  lemma {:induction false} ThroughReaches<V>(g: Graph<V>, x: V, y: V, k: nat)
    requires Through(g, x, y, k)
    ensures Reaches(g, x, y)
    decreases k
  {
    ReachesEdge(g, x, Succ(g, x)[0]);
    if k > 0 {
      ThroughReaches(g, Succ(g, x)[0], y, k - 1);
      ReachesTrans(g, x, Succ(g, x)[0], y);
    }
  }

  /** A walk in the drawing is one in the graph. */
  lemma {:induction false} DrawnReaches<V>(g: Graph<V>, h: Graph<nat>, made: seq<V>, i: nat, j: nat, k: nat)
    requires Closed(h) && i < |made| && forall n: nat :: n in h <==> n < |made|
    requires forall n: nat :: n < |made| ==> Drawn(g, h, made, n)
    requires Walk(h, i, j, k)
    ensures j < |made| && Reaches(g, made[i], made[j])
    decreases k
  {
    hide Drawn, Reaches;
    var n :| n in Succ(h, i) && if k == 0 then n == j else Walk(h, n, j, k - 1);
    EdgeDrawn(g, h, made, i, n);
    if k > 0 {
      DrawnReaches(g, h, made, n, j, k - 1);
      ReachesTrans(g, made[i], made[n], made[j]);
    }
  }

  lemma EdgeDrawn<V>(g: Graph<V>, h: Graph<nat>, made: seq<V>, i: nat, n: nat)
    requires i < |made| && Drawn(g, h, made, i) && n in Succ(h, i) && n < |made|
    ensures Reaches(g, made[i], made[n])
  {
    if b: nat, k: nat :| b < |made| && Succ(h, i) == [b] && Through(g, made[i], made[b], k) {
      ThroughReaches(g, made[i], made[b], k);
    } else {
      var m :| 0 <= m < |Succ(h, i)| && Succ(h, i)[m] == n;
      ReachesEdge(g, made[i], Succ(g, made[i])[m]);
    }
  }
}
