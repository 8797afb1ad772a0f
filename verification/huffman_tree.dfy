/**
 * The Huffman tree hierarchy: HuffmanTree (a weight and the `compareTo`
 * ordering), HuffmanLeaf (a symbol) and HuffmanNode (two children). All fields
 * are final in the source, so a tree is an immutable datatype here.
 */
module HuffmanTree {
  import Util

  /**
   * `Leaf(weight, symbol)` keeps the constructor's argument order (weight first);
   * `Node(weight, left, right)` is built by `MakeNode`, which fixes its weight.
   */
  datatype Tree =
    | Leaf(weight: int, symbol: int)
    | Node(weight: int, left: Tree, right: Tree)

  /** `new HuffmanNode(l, r)`: the weight is the sum of the children's weights. */
  function MakeNode(l: Tree, r: Tree): (t: Tree)
    ensures t.Node? && t.left == l && t.right == r
    ensures WellWeighted(l) && WellWeighted(r) ==> WellWeighted(t)
    ensures LeafWeights(t) == LeafWeights(l) + LeafWeights(r)
  {
    Node(l.weight + r.weight, l, r)
  }

  /** Every node weighs what its two children weigh together. */
  predicate WellWeighted(t: Tree) {
    match t
    case Leaf(_, _) => true
    case Node(w, l, r) => w == l.weight + r.weight && WellWeighted(l) && WellWeighted(r)
  }

  /** The symbols of the leaves, left to right. */
  function Symbols(t: Tree): seq<int> {
    match t
    case Leaf(_, s) => [s]
    case Node(_, l, r) => Symbols(l) + Symbols(r)
  }

  /** The weights of the leaves, left to right. */
  function LeafWeights(t: Tree): seq<int> {
    match t
    case Leaf(w, _) => [w]
    case Node(_, l, r) => LeafWeights(l) + LeafWeights(r)
  }

  function Sum(s: seq<int>): int {
    if s == [] then 0 else Sum(s[..|s| - 1]) + s[|s| - 1]
  }

  lemma {:induction false} SumAppend(a: seq<int>, b: seq<int>)
    ensures Sum(a + b) == Sum(a) + Sum(b)
    decreases |b|
  {
    if b == [] {
      assert a + b == a;
    } else {
      assert (a + b)[..|a + b| - 1] == a + b[..|b| - 1];
      SumAppend(a, b[..|b| - 1]);
    }
  }

  /** The weight of a well-weighted tree is the total weight of its leaves. */
  lemma {:induction false} WeightIsLeafTotal(t: Tree)
    requires WellWeighted(t)
    ensures t.weight == Sum(LeafWeights(t))
  {
    match t
    case Leaf(w, _) =>
      assert LeafWeights(t)[..0] == [];
    case Node(_, l, r) =>
      WeightIsLeafTotal(l);
      WeightIsLeafTotal(r);
      SumAppend(LeafWeights(l), LeafWeights(r));
  }

  /** With non-negative leaf weights, a node weighs at least as much as each child. */
  lemma {:induction false} NodeOutweighsChildren(t: Tree)
    requires WellWeighted(t) && t.Node?
    requires forall w :: w in LeafWeights(t) ==> w >= 0
    ensures t.weight >= t.left.weight && t.weight >= t.right.weight
  {
    ChildWeightsNonNegative(t);
    NonNegativeWeight(t.left);
    NonNegativeWeight(t.right);
  }

  lemma ChildWeightsNonNegative(t: Tree)
    requires t.Node?
    requires forall w :: w in LeafWeights(t) ==> w >= 0
    ensures forall w :: w in LeafWeights(t.left) ==> w >= 0
    ensures forall w :: w in LeafWeights(t.right) ==> w >= 0
  {
    var l, r := LeafWeights(t.left), LeafWeights(t.right);
    assert LeafWeights(t) == l + r;
    forall w | w in l ensures w in LeafWeights(t) {
      var i :| 0 <= i < |l| && l[i] == w;
      assert (l + r)[i] == w;
    }
    forall w | w in r ensures w in LeafWeights(t) {
      var i :| 0 <= i < |r| && r[i] == w;
      assert (l + r)[|l| + i] == w;
    }
  }

  lemma {:induction false} NonNegativeWeight(t: Tree)
    requires WellWeighted(t)
    requires forall w :: w in LeafWeights(t) ==> w >= 0
    ensures t.weight >= 0
  {
    match t
    case Leaf(_, _) =>
      assert t.weight in LeafWeights(t);
    case Node(_, l, r) =>
      ChildWeightsNonNegative(t);
      NonNegativeWeight(l);
      NonNegativeWeight(r);
  }

  // ---------------------------------------------------------------------------
  // compareTo

  /** 2^31: Java `int`s lie in [-2^31, 2^31). */
  const TwoTo31: int := 0x8000_0000

  /** A Java `int`. */
  predicate IsInt32(x: int) {
    -TwoTo31 <= x < TwoTo31
  }

  /** Java's `int` subtraction, which wraps around modulo 2^32. */
  function JavaIntSub(a: int, b: int): (d: int)
    ensures IsInt32(d)
    ensures (d - (a - b)) % Util.TwoTo32 == 0
    ensures IsInt32(a - b) ==> d == a - b
  {
    (a - b + TwoTo31) % Util.TwoTo32 - TwoTo31
  }

  /** `compareTo`: the weight difference, computed in 32-bit arithmetic. */
  function CompareTo(a: Tree, b: Tree): int {
    JavaIntSub(a.weight, b.weight)
  }

  /**
   * For non-negative 32-bit weights the comparison has the sign of the weight
   * difference, so it orders trees by weight alone, and equal weights compare
   * as 0 whatever the trees hold.
   */
  lemma CompareToIsWeightOrder(a: Tree, b: Tree)
    requires 0 <= a.weight < TwoTo31 && 0 <= b.weight < TwoTo31
    ensures CompareTo(a, b) < 0 <==> a.weight < b.weight
    ensures CompareTo(a, b) == 0 <==> a.weight == b.weight
    ensures CompareTo(a, b) > 0 <==> a.weight > b.weight
  {
  }

  /** For non-negative 32-bit weights the comparison is antisymmetric. */
  lemma CompareToAntisymmetric(a: Tree, b: Tree)
    requires 0 <= a.weight < TwoTo31 && 0 <= b.weight < TwoTo31
    ensures CompareTo(a, b) == -CompareTo(b, a)
  {
  }

  /**
   * Once the difference leaves the 32-bit range the comparison turns round: a
   * tree of weight 2^31 - 1 compares below one of weight -1.
   */
  lemma CompareToOverflows()
    ensures CompareTo(Leaf(TwoTo31 - 1, 0), Leaf(-1, 0)) < 0
  {
    assert JavaIntSub(TwoTo31 - 1, -1) == -TwoTo31;
  }

  /**
   * The wrapping order and the weight order disagree for weights more than
   * 2^31 - 1 apart: the lighter tree of weight -2^31 compares above one of weight 1.
   */
  lemma CompareToDisagreesWithWeight()
    ensures var a, b := Leaf(-TwoTo31, 0), Leaf(1, 1);
      a.weight < b.weight && CompareTo(a, b) > 0
  {
    assert JavaIntSub(-TwoTo31, 1) == TwoTo31 - 1;
  }
}
