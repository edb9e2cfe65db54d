/**
  The numbering of enumeration constants.  An enumerator written without a value arrives with
  the value 0, so an explicit 0 cannot be told from it.
*/
module Enumerations {
  import opened Arrays
  import opened Expressions
  import opened Utils

  const SHORT_MAX := 32767

  /** An enumerator as it is written, with or without a value. */
  type Written = Option<int>

  /** The value that its constant node is made with. */
  function Stored(ws: seq<Written>): (vs: seq<int>)
    ensures |vs| == |ws|
    ensures forall i :: 0 <= i < |ws| ==> vs[i] == if ws[i].Some? then ws[i].value else 0
  {
    seq(|ws|, i requires 0 <= i < |ws| => if ws[i].Some? then ws[i].value else 0)
  }

  /** The counter is the successor of the last value given. */
  function Counter(us: seq<int>): int {
    if us == [] then 0 else Wrap32(us[|us| - 1] + 1)
  }

  /** What C gives an enumerator: the value written, or one more than the one before. */
  function Intended(ws: seq<Written>): (vs: seq<int>)
    ensures |vs| == |ws|
  {
    if ws == [] then []
    else
      var n := |ws| - 1;
      var vs := Intended(ws[..n]);
      vs + [if ws[n].Some? then ws[n].value else Counter(vs)]
  }

  /** What the numbering gives: a counter stands in for every 0. */
  function Numbered(vs: seq<int>): (us: seq<int>)
    ensures |us| == |vs|
  {
    if vs == [] then []
    else
      var n := |vs| - 1;
      var us := Numbered(vs[..n]);
      us + [if vs[n] != 0 then vs[n] else Counter(us)]
  }

  /** Every explicit 0 comes where the next value would have been 0 anyway. */
  predicate ZerosHarmless(ws: seq<Written>) {
    forall i :: 0 < i < |ws| && ws[i] == Some(0) ==> Intended(ws)[i - 1] == -1
  }

  predicate Fits(ws: seq<Written>) {
    forall i :: 0 <= i < |ws| && ws[i].Some? ==> Int32(ws[i].value)
  }

  /** One more enumerator, in both readings. */
  lemma Extend(ws: seq<Written>)
    requires ws != []
    ensures
      var n := |ws| - 1;
      var vs, us := Intended(ws[..n]), Numbered(Stored(ws[..n]));
      && Intended(ws) == vs + [if ws[n].Some? then ws[n].value else Counter(vs)]
      && Numbered(Stored(ws)) == us + [if ws[n].Some? && ws[n].value != 0 then ws[n].value else Counter(us)]
  {
    assert Stored(ws)[..|ws| - 1] == Stored(ws[..|ws| - 1]);
  }

  /** The numbering is C's exactly when every explicit 0 is harmless. */
  lemma {:induction false} NumberingExact(ws: seq<Written>)
    requires Fits(ws)
    ensures forall i :: 0 <= i < |ws| ==> Int32(Intended(ws)[i])
    ensures Numbered(Stored(ws)) == Intended(ws) <==> ZerosHarmless(ws)
  {
    if ws == [] {
    } else {
      hide Intended, Numbered, Counter, ZerosHarmless;
      var n := |ws| - 1;
      var init := ws[..n];
      NumberingExact(init);
      Extend(ws);
      HarmlessLast(ws);
      CounterAtZero(Intended(init));
      assert Intended(ws)[..n] == Intended(init);
      assert Numbered(Stored(ws))[..n] == Numbered(Stored(init));
    }
  }

  lemma HarmlessLast(ws: seq<Written>)
    requires ws != []
    ensures
      var n := |ws| - 1;
      ZerosHarmless(ws) <==> ZerosHarmless(ws[..n]) && (n > 0 && ws[n] == Some(0) ==> Intended(ws[..n])[n - 1] == -1)
  {
    hide Intended, Wrap32;
    var n := |ws| - 1;
    var init := ws[..n];
    Extend(ws);
    assert forall i :: 0 <= i < n ==> Intended(init)[i] == Intended(ws)[i];
    assert forall i :: 0 < i < n ==> init[i] == ws[i];
  }

  lemma CounterAtZero(vs: seq<int>)
    requires forall i :: 0 <= i < |vs| ==> Int32(vs[i])
    ensures Int32(Counter(vs))
    ensures Counter(vs) == 0 <==> vs == [] || vs[|vs| - 1] == -1
  {
  }

  /** `enum { a = 5, b = 0 }` makes b 6. */
  lemma ZeroLost(ws: seq<Written>)
    requires ws == [Some(5), Some(0)]
    ensures Intended(ws) == [5, 0] && Numbered(Stored(ws)) == [5, 6]
  {
    assert ws[..1] == [Some(5)] && ws[..1][..0] == [];
    assert Intended(ws[..1]) == [5];
    assert Stored(ws) == [5, 0];
    assert [5, 0][..1] == [5] && [5][..0] == [];
    assert Numbered([5]) == [5];
  }

  /** Without any value written the constants are numbered from 0. */
  lemma {:induction false} NumberedFromZero(ws: seq<Written>)
    requires |ws| < TWO_31 && forall i :: 0 <= i < |ws| ==> ws[i] == None
    ensures Numbered(Stored(ws)) == seq(|ws|, i requires 0 <= i < |ws| => i)
  {
    if ws != [] {
      var n := |ws| - 1;
      NumberedFromZero(ws[..n]);
      assert Stored(ws)[..n] == Stored(ws[..n]);
    }
  }

  function Values(cs: seq<ConstantNode>): (vs: seq<int>)
    reads cs
    ensures |vs| == |cs|
    ensures forall i :: 0 <= i < |cs| ==> vs[i] == cs[i].value
  {
    seq(|cs|, i requires 0 <= i < |cs| reads cs => cs[i].value)
  }

  /**
    AST_enumerator_node's loop.  The counter is unsigned, so the error for values beyond a short
    is reported exactly when some value lies outside -1 to 32765.
  */
  method Number(cs: seq<ConstantNode>) returns (overflow: bool)
    requires forall i, j :: 0 <= i < j < |cs| ==> cs[i] != cs[j]
    requires forall c :: c in cs ==> Int32(c.value)
    modifies cs`value
    ensures Values(cs) == Numbered(old(Values(cs)))
    ensures overflow <==> exists i :: 0 <= i < |cs| && !(-1 <= Values(cs)[i] <= SHORT_MAX - 2)
  {
    hide Numbered, Counter, Wrap32;
    ghost var vs, us := Values(cs), [];
    var n := 0;   // unsigned
    overflow := false;
    assert vs[..0] == [];
    StepNumbered(vs, 0);
    for i := 0 to |cs|
      invariant us == Numbered(vs[..i]) && n == Counter(us) % TWO_32
      invariant forall j :: 0 <= j < i ==> cs[j].value == us[j]
      invariant forall j :: i <= j < |cs| ==> cs[j].value == vs[j]
      invariant overflow <==> exists j :: 0 <= j < i && !(-1 <= us[j] <= SHORT_MAX - 2)
    {
      StepNumbered(vs, i);
      UnsignedCounter(Counter(us));
      if cs[i].value != 0 {
        n := (cs[i].value + 1) % TWO_32;
      } else {
        cs[i].value := Wrap32(n);
        n := (n + 1) % TWO_32;
      }
      ghost var more := Numbered(vs[..i + 1]);
      ThresholdOfCounter(more[i]);
      if n >= SHORT_MAX {
        overflow := true;
      }
      assert forall j :: 0 <= j < i ==> more[j] == us[j];
      us := more;
    }
    assert vs[..|cs|] == vs;
    assert Values(cs) == us;
  }

  /** An `int` counter kept in an unsigned variable. */
  lemma UnsignedCounter(c: int)
    requires Int32(c)
    ensures Wrap32(c % TWO_32) == c
    ensures (c % TWO_32 + 1) % TWO_32 == (c + 1) % TWO_32
  {
  }

  lemma ThresholdOfCounter(v: int)
    requires Int32(v)
    ensures (v + 1) % TWO_32 >= SHORT_MAX <==> !(-1 <= v <= SHORT_MAX - 2)
  {
  }

  /** One step of the numbering. */
  lemma StepNumbered(vs: seq<int>, i: nat)
    requires i <= |vs| && forall j :: 0 <= j < |vs| ==> Int32(vs[j])
    ensures Numbered([]) == [] && Counter([]) == 0
    ensures i < |vs| ==>
      var us, more := Numbered(vs[..i]), Numbered(vs[..i + 1]);
      && more == us + [if vs[i] != 0 then vs[i] else Counter(us)]
      && Int32(Counter(us)) && Counter(more) % TWO_32 == (more[i] + 1) % TWO_32
  {
    if i < |vs| {
      assert vs[..i + 1][..i] == vs[..i];
    }
  }
}
