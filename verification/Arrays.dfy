/**
  Array bounds: how a dimension's bounds are stored, the check that they are in order, and the
  test for arrays of more than 65535 elements.
*/
module Arrays {
  import opened Expressions
  import opened Utils

  /** A constant node; named constants are shared by everything that mentions them. */
  class ConstantNode {
    var value: int

    constructor (value: int)
      ensures this.value == value
    {
      this.value := value;
    }
  }

  datatype Bound = ConstantBound | DefaultBound | OpenBound

  /** One dimension; a null bound is not fixed. */
  datatype IndexNode = IndexNode(lower: ConstantNode?, upper: ConstantNode?)

  function BoundValue(c: ConstantNode?): Option<int>
    reads c
  {
    if c == null then None else Some(c.value)
  }

  function DimOf(r: IndexNode): Dim
    reads r.lower, r.upper
  {
    Dim(BoundValue(r.lower), BoundValue(r.upper))
  }

  /** ASTP_array_index_node.  A dimension written [n] runs from 0 to n - 1, and takes a copy of n. */
  method ArrayIndexNode(lower: ConstantNode, lowerBound: Bound, upper: ConstantNode, upperBound: Bound,
                        zero: ConstantNode)
    returns (r: IndexNode)
    ensures r.lower == (match lowerBound case ConstantBound => lower case DefaultBound => zero case OpenBound => null)
    ensures upperBound != ConstantBound ==> r.upper == null
    ensures upperBound == ConstantBound && lowerBound != DefaultBound ==> r.upper == upper
    ensures upperBound == ConstantBound && lowerBound == DefaultBound ==>
              r.upper != null && fresh(r.upper) && r.upper.value == Wrap32(upper.value - 1)
    ensures upperBound == ConstantBound && lowerBound == DefaultBound && zero.value == 0 && Int32(upper.value - 1) ==>
              Fixed(DimOf(r)) && Size(DimOf(r)) == upper.value
    ensures upper.value == old(upper.value) && lower.value == old(lower.value) && zero.value == old(zero.value)
  {
    var lo: ConstantNode?, up: ConstantNode? := null, null;
    if lowerBound == ConstantBound {
      lo := lower;
    }
    if lowerBound == DefaultBound {
      lo := zero;
    }
    if upperBound == ConstantBound {
      if lowerBound == DefaultBound {
        up := new ConstantNode(upper.value);
        up.value := Wrap32(up.value - 1);
      } else {
        up := upper;
      }
    }
    r := IndexNode(lo, up);
  }

  /** The values of a dimension's bounds. */
  datatype Dim = Dim(lower: Option<int>, upper: Option<int>)

  predicate Fixed(d: Dim) {
    d.lower.Some? && d.upper.Some?
  }

  /** The number of elements along a dimension; a dimension that is not fixed counts as one. */
  function Size(d: Dim): int {
    if Fixed(d) then d.upper.value - d.lower.value + 1 else 1
  }

  function Product(dims: seq<Dim>): int {
    if dims == [] then 1 else Product(dims[..|dims| - 1]) * Size(dims[|dims| - 1])
  }

  /** index_bounds: an error unless the bounds are in order. */
  predicate BoundsError(d: Dim) {
    Fixed(d) && d.lower.value > d.upper.value
  }

  /** The bounds are in order exactly if the dimension holds an element. */
  lemma BoundsRules(d: Dim)
    requires Fixed(d)
    ensures BoundsError(d) <==> Size(d) <= 0
  {
  }

  /** The bounds are stored as `int`s. */
  predicate Stored(d: Dim) {
    Fixed(d) ==> Int32(d.lower.value) && Int32(d.upper.value)
  }

  /** The size, computed as an `int`, does not overflow. */
  predicate SizeFits(d: Dim) {
    Fixed(d) ==> Int32(Size(d))
  }

  /** What the size of a dimension becomes when it is computed as an `int`. */
  function StoredSize(d: Dim): int {
    if Fixed(d) then Wrap32(d.upper.value - d.lower.value + 1) else 1
  }

  lemma ProductGrows(dims: seq<Dim>, k: nat)
    requires k <= |dims| && forall i :: 0 <= i < |dims| ==> !BoundsError(dims[i])
    ensures 1 <= Product(dims[..k]) <= Product(dims)
    decreases |dims| - k
  {
    if k == |dims| {
      assert dims[..k] == dims;
      ProductPositive(dims);
    } else {
      ProductGrows(dims, k + 1);
      assert dims[..k + 1][..k] == dims[..k];
      ProductPositive(dims[..k]);
      assert Product(dims[..k + 1]) == Product(dims[..k]) * Size(dims[k]);
      assert Size(dims[k]) >= 1;
      Widen(Product(dims[..k]), Size(dims[k]));
    }
  }

  lemma {:induction false} ProductPositive(dims: seq<Dim>)
    requires forall i :: 0 <= i < |dims| ==> !BoundsError(dims[i])
    ensures Product(dims) >= 1
  {
    if dims != [] {
      ProductPositive(dims[..|dims| - 1]);
      Widen(Product(dims[..|dims| - 1]), Size(dims[|dims| - 1]));
    }
  }

  lemma Widen(p: int, s: int)
    requires p >= 1 && s >= 1
    ensures p * s >= p && p * s >= s
  {
  }

  const TWO_63: int := 0x8000_0000_0000_0000

  /** Arithmetic of a `long` of 64 bits. */
  function Wrap64(v: int): (w: int)
    ensures -TWO_63 <= w < TWO_63
    ensures -TWO_63 <= v < TWO_63 ==> w == v
  {
    (v + TWO_63) % (2 * TWO_63) - TWO_63
  }

  /** The product of the stored sizes, kept in a `long`. */
  function Running(dims: seq<Dim>): (r: int)
    ensures -TWO_63 <= r < TWO_63
  {
    if dims == [] then 1 else Wrap64(Running(dims[..|dims| - 1]) * StoredSize(dims[|dims| - 1]))
  }

  /** The dimension, or the product up to it, is seen to be above 65535. */
  predicate Exceeds(dims: seq<Dim>, k: nat)
    requires k < |dims|
  {
    Fixed(dims[k]) && (StoredSize(dims[k]) > 65535 || Running(dims[..k + 1]) > 65535)
  }

  /** array_is_large.  `peak` is the greatest product formed on the way. */
  method ArrayIsLarge(dims: seq<Dim>) returns (large: bool, ghost peak: int)
    requires forall i :: 0 <= i < |dims| ==> !BoundsError(dims[i]) && Stored(dims[i])
    ensures large <==> exists k :: 0 <= k < |dims| && Exceeds(dims, k)
    ensures (forall i :: 0 <= i < |dims| ==> SizeFits(dims[i])) ==>
              (large <==> Product(dims) > 65535) && peak <= 65535 * 65535
  {
    hide Exceeds, Running, Wrap64, Wrap32, StoredSize, Size, SizeFits, Product;
    var elemCount := 1;
    large, peak := false, 1;
    assert Running(dims[..0]) == 1 by { NoDimension(); }
    for i := 0 to |dims|
      invariant elemCount == Running(dims[..i])
      invariant forall k :: 0 <= k < i ==> !Exceeds(dims, k)
      invariant elemCount <= 65535
      invariant (forall k :: 0 <= k < i ==> SizeFits(dims[k])) ==> elemCount >= 1 && peak <= 65535 * 65535
    {
      NextDimension(dims, i);
      SizeOf(dims[i]);
      if dims[i].lower.Some? && dims[i].upper.Some? {
        var dimSize := Wrap32(dims[i].upper.value - dims[i].lower.value + 1);
        if dimSize > 65535 {
          large := true;
          break;
        }
        Products(elemCount, dimSize);
        var product := elemCount * dimSize;
        peak := if product > peak then product else peak;
        elemCount := Wrap64(product);
        if elemCount > 65535 {
          large := true;
          break;
        }
      }
    }
    if forall i :: 0 <= i < |dims| ==> SizeFits(dims[i]) {
      JudgedRightly(dims, |dims|);
      assert dims[..|dims|] == dims;
    }
  }

  lemma NoDimension()
    ensures Running([]) == 1
  {
  }

  lemma SizeOf(d: Dim)
    requires !BoundsError(d) && Stored(d)
    ensures Fixed(d) ==> StoredSize(d) == Wrap32(d.upper.value - d.lower.value + 1)
    ensures Fixed(d) && SizeFits(d) ==> StoredSize(d) >= 1
  {
  }

  lemma NextDimension(dims: seq<Dim>, i: nat)
    requires i < |dims|
    ensures Running(dims[..i + 1]) == Wrap64(Running(dims[..i]) * StoredSize(dims[i]))
    ensures Product(dims[..i + 1]) == Product(dims[..i]) * Size(dims[i])
    ensures !Fixed(dims[i]) ==> Running(dims[..i + 1]) == Running(dims[..i]) && !Exceeds(dims, i)
    ensures Exceeds(dims, i) <==> Fixed(dims[i]) && (StoredSize(dims[i]) > 65535 || Running(dims[..i + 1]) > 65535)
  {
    assert dims[..i + 1][..i] == dims[..i];
  }

  /** Products of what has not exceeded 65535. */
  lemma Products(p: int, s: int)
    requires p <= 65535 && s <= 65535
    ensures 1 <= p && 1 <= s ==> 1 <= p * s <= 65535 * 65535 && p <= p * s && Wrap64(p * s) == p * s
  {
    if 1 <= p && 1 <= s {
      assert p * s <= 65535 * s;
      Widen(p, s);
    }
  }

  /** While sizes fit and nothing exceeds, the running product is the product; and once something does, so
      does the whole product. */
  lemma {:induction false} JudgedRightly(dims: seq<Dim>, n: nat)
    requires n <= |dims|
    requires forall i :: 0 <= i < |dims| ==> !BoundsError(dims[i]) && Stored(dims[i])
    requires forall i :: 0 <= i < n ==> SizeFits(dims[i])
    ensures (exists k :: 0 <= k < n && Exceeds(dims, k)) <==> Product(dims[..n]) > 65535
    ensures Product(dims[..n]) <= 65535 ==> Running(dims[..n]) == Product(dims[..n])
  {
    if n > 0 {
      var m := n - 1;
      JudgedRightly(dims, m);
      var p, s := Product(dims[..m]), Size(dims[m]);
      ProductPositive(dims[..m]);
      Widen(p, s);
      NextDimension(dims, m);
      assert StoredSize(dims[m]) == s;
      hide Running, Product, Exceeds, Wrap64, StoredSize, Size;
      if p <= 65535 && s <= 65535 {
        Products(p, s);
      }
    }
  }

  /** If the first size that is no `int` is the `k`th, the array is large; that is seen exactly if the
      dimensions before make it large, or something exceeds later. */
  lemma OverflowMissed(dims: seq<Dim>, k: nat)
    requires forall i :: 0 <= i < |dims| ==> !BoundsError(dims[i]) && Stored(dims[i])
    requires k < |dims| && !SizeFits(dims[k]) && forall i :: 0 <= i < k ==> SizeFits(dims[i])
    ensures Product(dims) > 65535
    ensures (exists i :: 0 <= i < |dims| && Exceeds(dims, i))
      <==> Product(dims[..k]) > 65535 || exists i :: k < i < |dims| && Exceeds(dims, i)
  {
    JudgedRightly(dims, k);
    ProductPositive(dims[..k]);
    ProductGrows(dims, k + 1);
    assert dims[..k + 1][..k] == dims[..k];
    Widen(Product(dims[..k]), Size(dims[k]));
    assert StoredSize(dims[k]) == Size(dims[k]) - TWO_32 <= 0;
    if Product(dims[..k]) <= 65535 {
      NotAbove(Product(dims[..k]), StoredSize(dims[k]));
    }
  }

  lemma NotAbove(p: int, s: int)
    requires 1 <= p <= 65535 && -TWO_31 <= s <= 0
    ensures -TWO_63 <= p * s <= 0
  {
    assert p * -s <= 65535 * -s;
  }

  /** An array of one dimension is judged rightly exactly if its size fits. */
  lemma OneDimension(d: Dim)
    requires !BoundsError(d) && Stored(d)
    ensures (Exceeds([d], 0) <==> Product([d]) > 65535) <==> SizeFits(d)
  {
    var dims := [d];
    assert dims[..1] == dims && dims[..0] == [];
    if SizeFits(d) {
      JudgedRightly(dims, 1);
    } else {
      OverflowMissed(dims, 0);
    }
  }
}
