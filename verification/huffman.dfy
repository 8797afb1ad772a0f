/**
 * The Huffman coder of Huffman.java: the constructor builds a tree from a
 * symbol -> frequency table by repeatedly merging the two lightest trees, and
 * `getSizeFor` reports the code length of a symbol, that is the depth of its
 * leaf, remembering every answer in a cache.
 */
module Huffman {
  import opened Wrappers
  import opened HuffmanTree

  /** The fields of a Huffman object: `tree` (null for an empty alphabet), `alphabet`, `sizes`. */
  datatype Coder = Coder(tree: Option<Tree>, alphabet: map<int, int>, sizes: map<int, int>)

  // ---------------------------------------------------------------------------
  // Sums over a frequency table

  /** The total of `m[k]` over the keys `ks`. */
  ghost function SumOver(m: map<int, int>, ks: set<int>): int
    requires ks <= m.Keys
    decreases ks
  {
    if ks == {} then 0
    else
      var k := Pick(ks);
      m[k] + SumOver(m, ks - {k})
  }

  /** Some element of a non-empty set. */
  ghost function Pick(ks: set<int>): (k: int)
    requires ks != {}
    ensures k in ks
  {
    NonEmptyHasElement(ks);
    var k :| k in ks; k
  }

  lemma NonEmptyHasElement(ks: set<int>)
    ensures ks != {} ==> exists k :: k in ks
  {
    if forall k :: k !in ks {
      assert ks == {};
    }
  }

  /** The total of all frequencies of a table. */
  ghost function Total(m: map<int, int>): int {
    SumOver(m, m.Keys)
  }

  /** Any key may be taken out of the sum first. */
  lemma {:induction false} SumOverRemove(m: map<int, int>, ks: set<int>, k: int)
    requires ks <= m.Keys && k in ks
    ensures SumOver(m, ks) == m[k] + SumOver(m, ks - {k})
    decreases ks
  {
    var j := Pick(ks);
    if j != k {
      SumOverRemove(m, ks - {j}, k);
      SumOverRemove(m, ks - {k}, j);
      assert ks - {j} - {k} == ks - {k} - {j};
    }
  }

  /** Only the values at the summed keys matter. */
  lemma {:induction false} SumOverAgree(m: map<int, int>, m': map<int, int>, ks: set<int>)
    requires ks <= m.Keys && ks <= m'.Keys
    requires forall k :: k in ks ==> m[k] == m'[k]
    ensures SumOver(m, ks) == SumOver(m', ks)
    decreases ks
  {
    if ks != {} {
      var k := Pick(ks);
      SumOverRemove(m, ks, k);
      SumOverRemove(m', ks, k);
      SumOverAgree(m, m', ks - {k});
    }
  }

  // ---------------------------------------------------------------------------
  // Leaf depths: the reference for code lengths

  /** The (symbol, depth) pairs of the leaves, left to right, for a tree hanging at depth `base`. */
  function Depths(t: Tree, base: nat): (ds: seq<(int, nat)>)
    ensures |ds| == |Symbols(t)|
    ensures forall i :: 0 <= i < |ds| ==> ds[i].0 == Symbols(t)[i] && ds[i].1 >= base
  {
    match t
    case Leaf(_, s) => [(s, base)]
    case Node(_, l, r) => Depths(l, base + 1) + Depths(r, base + 1)
  }

  /** 2^-d. */
  function Share(d: nat): real {
    if d == 0 then 1.0 else Share(d - 1) / 2.0
  }

  /** The Kraft sum of a list of code lengths. */
  function KraftSum(ds: seq<(int, nat)>): real {
    if ds == [] then 0.0 else KraftSum(ds[..|ds| - 1]) + Share(ds[|ds| - 1].1)
  }

  lemma {:induction false} KraftSumAppend(a: seq<(int, nat)>, b: seq<(int, nat)>)
    ensures KraftSum(a + b) == KraftSum(a) + KraftSum(b)
    decreases |b|
  {
    if b == [] {
      assert a + b == a;
    } else {
      assert (a + b)[..|a + b| - 1] == a + b[..|b| - 1];
      KraftSumAppend(a, b[..|b| - 1]);
    }
  }

  /**
   * Every node of a Huffman tree has two children, so the code lengths satisfy
   * Kraft's equality: the leaves of a tree hanging at depth `base` have a
   * Kraft sum of 2^-base, and those of a whole tree a Kraft sum of 1.
   */
  lemma {:induction false} KraftEquality(t: Tree, base: nat)
    ensures KraftSum(Depths(t, base)) == Share(base)
  {
    match t
    case Leaf(_, s) =>
      assert Depths(t, base)[..0] == [];
    case Node(_, l, r) =>
      KraftEquality(l, base + 1);
      KraftEquality(r, base + 1);
      KraftSumAppend(Depths(l, base + 1), Depths(r, base + 1));
  }

  /** A symbol that occurs once among the leaves has a single depth. */
  lemma {:induction false} UniqueDepth(t: Tree, base: nat, s: int, d: nat, e: nat)
    requires multiset(Symbols(t))[s] == 1
    requires (s, d) in Depths(t, base) && (s, e) in Depths(t, base)
    ensures d == e
  {
    match t
    case Leaf(_, _) =>
    case Node(_, l, r) =>
      var dl, dr := Depths(l, base + 1), Depths(r, base + 1);
      assert Symbols(t) == Symbols(l) + Symbols(r);
      InDepthsIsSymbol(l, base + 1, s);
      InDepthsIsSymbol(r, base + 1, s);
      if (s, d) in dl && (s, e) in dl {
        UniqueDepth(l, base + 1, s, d, e);
      } else if (s, d) in dr && (s, e) in dr {
        UniqueDepth(r, base + 1, s, d, e);
      }
  }

  /** A pair listed in `Depths(t, base)` carries one of the tree's symbols. */
  lemma InDepthsIsSymbol(t: Tree, base: nat, s: int)
    ensures (exists d :: (s, d) in Depths(t, base)) ==> s in Symbols(t)
  {
    if exists d :: (s, d) in Depths(t, base) {
      var d :| (s, d) in Depths(t, base);
      var i :| 0 <= i < |Depths(t, base)| && Depths(t, base)[i] == (s, d);
      assert Symbols(t)[i] == s;
    }
  }

  // ---------------------------------------------------------------------------
  // doGetSizeFor

  /**
   * `doGetSizeFor(symbol, next, count)`: a left-first search that returns
   * `count` plus the depth of the symbol's leaf below `next` when there is one,
   * and `count - 1` when there is none.
   */
  function DoGetSizeFor(s: int, t: Tree, count: int): (r: int)
    ensures s in Symbols(t) ==> r >= count
    ensures s in Symbols(t) && count >= 0 ==> (s, r) in Depths(t, count)
    ensures s !in Symbols(t) ==> r == count - 1
  {
    match t
    case Leaf(_, v) => if v == s then count else count - 1
    case Node(_, l, r) =>
      var inLeft := DoGetSizeFor(s, l, count + 1);
      if inLeft > count then inLeft
      else
        var inRight := DoGetSizeFor(s, r, count + 1);
        if inRight > count then inRight else count - 1
  }

  // ---------------------------------------------------------------------------
  // The coder's invariant

  /** Each leaf carries a key of the table and that key's frequency as its weight. */
  predicate LeavesAgree(t: Tree, alphabet: map<int, int>) {
    match t
    case Leaf(w, s) => s in alphabet && alphabet[s] == w
    case Node(_, l, r) => LeavesAgree(l, alphabet) && LeavesAgree(r, alphabet)
  }

  /** A tree built for `alphabet`: one leaf per key with the key's weight, node weights summed. */
  ghost predicate BuiltFor(t: Tree, alphabet: map<int, int>) {
    && multiset(Symbols(t)) == multiset(alphabet.Keys)
    && LeavesAgree(t, alphabet)
    && WellWeighted(t)
    && t.weight == Total(alphabet)
  }

  /** What holds of every Huffman object: the tree fits the table and the cache holds leaf depths. */
  ghost predicate Valid(c: Coder) {
    && (c.tree.None? <==> c.alphabet == map[])
    && (c.tree.Some? ==> BuiltFor(c.tree.value, c.alphabet))
    && (forall s :: s in c.sizes ==>
          && s in c.alphabet && c.alphabet[s] != 0
          && c.tree.Some? && (s, c.sizes[s]) in Depths(c.tree.value, 0))
  }

  // ---------------------------------------------------------------------------
  // The constructor

  /** All leaf symbols of a forest. */
  function ForestSymbols(f: seq<Tree>): multiset<int> {
    if f == [] then multiset{} else ForestSymbols(f[..|f| - 1]) + multiset(Symbols(f[|f| - 1]))
  }

  /** The total weight of a forest. */
  function ForestWeight(f: seq<Tree>): int {
    if f == [] then 0 else ForestWeight(f[..|f| - 1]) + f[|f| - 1].weight
  }

  lemma {:induction false} ForestAppend(a: seq<Tree>, b: seq<Tree>)
    ensures ForestSymbols(a + b) == ForestSymbols(a) + ForestSymbols(b)
    ensures ForestWeight(a + b) == ForestWeight(a) + ForestWeight(b)
    decreases |b|
  {
    if b == [] {
      assert a + b == a;
    } else {
      assert (a + b)[..|a + b| - 1] == a + b[..|b| - 1];
      ForestAppend(a, b[..|b| - 1]);
    }
  }

  /** Taking tree `i` out of a forest takes out its symbols and its weight. */
  lemma RemoveTree(f: seq<Tree>, i: nat)
    requires i < |f|
    ensures ForestSymbols(f) == ForestSymbols(f[..i] + f[i + 1..]) + multiset(Symbols(f[i]))
    ensures ForestWeight(f) == ForestWeight(f[..i] + f[i + 1..]) + f[i].weight
  {
    var a, x, b := f[..i], [f[i]], f[i + 1..];
    SplitAt(f, i);
    ForestAppend(a, x + b);
    ForestAppend(x, b);
    ForestAppend(a, b);
    SingleTree(f[i]);
    RegroupSymbols(ForestSymbols(a), multiset(Symbols(f[i])), ForestSymbols(b));
  }

  lemma SplitAt(f: seq<Tree>, i: nat)
    requires i < |f|
    ensures f == f[..i] + ([f[i]] + f[i + 1..])
  {
  }

  lemma RegroupSymbols(a: multiset<int>, x: multiset<int>, b: multiset<int>)
    ensures a + (x + b) == (a + b) + x
  {
  }

  lemma SingleTree(t: Tree)
    ensures ForestSymbols([t]) == multiset(Symbols(t))
    ensures ForestWeight([t]) == t.weight
  {
    assert [t][..0] == [];
  }

  /** `f` without tree `i`: the queue after one `poll()`. */
  function Without(f: seq<Tree>, i: nat): (r: seq<Tree>)
    requires i < |f|
    ensures |r| == |f| - 1
  {
    f[..i] + f[i + 1..]
  }

  /** Tree `i` weighs no more than any tree of `f`: a tree `poll()` may hand out. */
  predicate IsLightest(f: seq<Tree>, i: nat) {
    i < |f| && forall k :: 0 <= k < |f| ==> f[i].weight <= f[k].weight
  }

  /**
   * `PriorityQueue.poll()`: the position of a lightest tree (any one of them,
   * for equal weights). For non-negative 32-bit weights it is also a least
   * tree under `compareTo`, the order the queue keeps.
   */
  method LightestTree(f: seq<Tree>) returns (i: nat)
    requires |f| >= 1
    ensures IsLightest(f, i)
    ensures (forall k :: 0 <= k < |f| ==> 0 <= f[k].weight < TwoTo31) ==>
      forall k :: 0 <= k < |f| ==> CompareTo(f[i], f[k]) <= 0
  {
    i := 0;
    var k := 1;
    while k < |f|
      invariant i < k <= |f|
      invariant forall j :: 0 <= j < k ==> f[i].weight <= f[j].weight
    {
      if f[k].weight < f[i].weight {
        i := k;
      }
      k := k + 1;
    }
    if forall k :: 0 <= k < |f| ==> 0 <= f[k].weight < TwoTo31 {
      forall k | 0 <= k < |f|
        ensures CompareTo(f[i], f[k]) <= 0
      {
        CompareToIsWeightOrder(f[i], f[k]);
      }
    }
  }

  /** `g` is `f` with two lightest trees merged, the first one polled on the left. */
  ghost predicate LightestMerge(f: seq<Tree>, g: seq<Tree>) {
    exists i: nat, j: nat :: IsLightest(f, i) && IsLightest(Without(f, i), j) && g == MergeAt(f, i, j)
  }

  /** Each forest of `chain` is the one before it with two lightest trees merged. */
  ghost predicate MergeChain(chain: seq<seq<Tree>>) {
    && |chain| >= 1
    && forall k, l :: 0 <= k && l == k + 1 < |chain| ==> LightestMerge(chain[k], chain[l])
  }

  /** The forest the first loop of the constructor makes: one leaf per key, weighted by its frequency. */
  ghost predicate LeavesFor(f: seq<Tree>, alphabet: map<int, int>) {
    && ForestFor(f, alphabet)
    && (forall t :: t in f ==> t.Leaf?)
    && |f| == |alphabet|
  }

  /** `t` is a tree the constructor may build: the leaves of `alphabet`, merged two lightest at a time down to `t`. */
  ghost predicate HuffmanBuilt(t: Tree, alphabet: map<int, int>) {
    exists chain :: MergeChain(chain) && LeavesFor(chain[0], alphabet) && chain[|chain| - 1] == [t]
  }

  /** A chain grows by one more lightest merge. */
  lemma ChainExtend(chain: seq<seq<Tree>>, g: seq<Tree>)
    requires MergeChain(chain) && LightestMerge(chain[|chain| - 1], g)
    ensures MergeChain(chain + [g]) && (chain + [g])[0] == chain[0] && (chain + [g])[|chain|] == g
  {
    var c := chain + [g];
    forall k, l | 0 <= k && l == k + 1 < |c|
      ensures LightestMerge(c[k], c[l])
    {
      if l < |chain| {
        assert c[k] == chain[k] && c[l] == chain[l];
      }
    }
  }

  /** A forest of trees for `alphabet`: together they hold each key once, with its weight. */
  ghost predicate ForestFor(f: seq<Tree>, alphabet: map<int, int>) {
    && ForestSymbols(f) == multiset(alphabet.Keys)
    && ForestWeight(f) == Total(alphabet)
    && forall t :: t in f ==> WellWeighted(t) && LeavesAgree(t, alphabet)
  }

  /**
   * `new Huffman(alphabet)`: one leaf per key of the table (in any order), then
   * the two lightest trees are merged, the first one polled on the left, until
   * at most one tree is left. An empty table leaves no tree.
   */
  method NewCoder(alphabet: map<int, int>) returns (c: Coder)
    ensures c.alphabet == alphabet && c.sizes == map[]
    ensures c.tree.None? <==> alphabet == map[]
    ensures c.tree.Some? ==> BuiltFor(c.tree.value, alphabet) && HuffmanBuilt(c.tree.value, alphabet)
    ensures Valid(c)
  {
    var leaves := MakeLeaves(alphabet);
    var forest;
    ghost var chain;
    forest, chain := MergeAll(leaves, alphabet);
    if |forest| == 0 {
      assert alphabet.Keys == {};
      c := Coder(None, alphabet, map[]);
    } else {
      var t := forest[0];
      assert forest == [t];
      SingleTree(t);
      SymbolsNonEmpty(t);
      assert Symbols(t)[0] in multiset(alphabet.Keys);
      assert MergeChain(chain) && LeavesFor(chain[0], alphabet) && chain[|chain| - 1] == [t];
      c := Coder(Some(t), alphabet, map[]);
    }
  }

  /** The first loop of the constructor: a leaf for every key, weighted by its frequency. */
  method MakeLeaves(alphabet: map<int, int>) returns (forest: seq<Tree>)
    ensures ForestFor(forest, alphabet)
    ensures forall t :: t in forest ==> t.Leaf?
    ensures |forest| == |alphabet|
  {
    forest := [];
    var keys := alphabet.Keys;
    while keys != {}
      invariant keys <= alphabet.Keys
      invariant ForestSymbols(forest) + multiset(keys) == multiset(alphabet.Keys)
      invariant ForestWeight(forest) + SumOver(alphabet, keys) == Total(alphabet)
      invariant forall t :: t in forest ==> t.Leaf? && LeavesAgree(t, alphabet)
      invariant |forest| + |keys| == |alphabet|
      decreases keys
    {
      var k :| k in keys;
      SumOverRemove(alphabet, keys, k);
      var leaf := Leaf(alphabet[k], k);
      ForestAppend(forest, [leaf]);
      SingleTree(leaf);
      forest := forest + [leaf];
      keys := keys - {k};
    }
  }

  /** The second loop of the constructor: merge the two lightest trees until one is left. */
  method MergeAll(f: seq<Tree>, ghost alphabet: map<int, int>) returns (forest: seq<Tree>, ghost chain: seq<seq<Tree>>)
    requires ForestFor(f, alphabet)
    ensures ForestFor(forest, alphabet)
    ensures |forest| <= 1
    ensures |forest| == 0 <==> |f| == 0
    ensures MergeChain(chain) && chain[0] == f && chain[|chain| - 1] == forest
  {
    forest := f;
    chain := [f];
    while |forest| > 1
      invariant ForestFor(forest, alphabet)
      invariant |forest| == 0 <==> |f| == 0
      invariant MergeChain(chain) && chain[0] == f && chain[|chain| - 1] == forest
      decreases |forest|
    {
      var next := MergeLightest(forest, alphabet);
      ChainExtend(chain, next);
      chain := chain + [next];
      forest := next;
    }
  }

  /** One round of the second loop: `new HuffmanNode(trees.poll(), trees.poll())` offered back. */
  method MergeLightest(f: seq<Tree>, ghost alphabet: map<int, int>) returns (forest: seq<Tree>)
    requires ForestFor(f, alphabet) && |f| >= 2
    ensures ForestFor(forest, alphabet)
    ensures |forest| == |f| - 1
    ensures LightestMerge(f, forest)
  {
    var i := LightestTree(f);
    var j := LightestTree(Without(f, i));
    forest := MergeAt(f, i, j);
    assert IsLightest(f, i) && IsLightest(Without(f, i), j) && forest == MergeAt(f, i, j);
    MergeKeepsTotals(f, i, j);
    MergeKeepsTrees(f, i, j, alphabet);
  }

  /** Take out tree `i`, then tree `j` of what is left, and add their merge at the end. */
  function MergeAt(f: seq<Tree>, i: nat, j: nat): seq<Tree>
    requires i < |f| && j < |f| - 1
  {
    var rest := Without(f, i);
    rest[..j] + rest[j + 1..] + [MakeNode(f[i], rest[j])]
  }

  lemma MergeKeepsTotals(f: seq<Tree>, i: nat, j: nat)
    requires i < |f| && j < |f| - 1
    ensures ForestSymbols(MergeAt(f, i, j)) == ForestSymbols(f)
    ensures ForestWeight(MergeAt(f, i, j)) == ForestWeight(f)
    ensures |MergeAt(f, i, j)| == |f| - 1
  {
    var rest := f[..i] + f[i + 1..];
    var rest' := rest[..j] + rest[j + 1..];
    var merged := MakeNode(f[i], rest[j]);
    RemoveTree(f, i);
    RemoveTree(rest, j);
    ForestAppend(rest', [merged]);
    SingleTree(merged);
  }

  lemma MergeKeepsTrees(f: seq<Tree>, i: nat, j: nat, alphabet: map<int, int>)
    requires i < |f| && j < |f| - 1
    requires forall t :: t in f ==> WellWeighted(t) && LeavesAgree(t, alphabet)
    ensures forall t :: t in MergeAt(f, i, j) ==> WellWeighted(t) && LeavesAgree(t, alphabet)
  {
    var rest := f[..i] + f[i + 1..];
    var rest' := rest[..j] + rest[j + 1..];
    var merged := MakeNode(f[i], rest[j]);
    StillInForest(f, i);
    StillInForest(rest, j);
    assert MergeAt(f, i, j) == rest' + [merged];
    forall t | t in rest' + [merged]
      ensures WellWeighted(t) && LeavesAgree(t, alphabet)
    {
      if t != merged {
        assert t in rest';
      }
    }
  }

  lemma StillInForest(f: seq<Tree>, i: nat)
    requires i < |f|
    ensures forall t :: t in f[..i] + f[i + 1..] ==> t in f
  {
    forall t | t in f[..i] + f[i + 1..]
      ensures t in f
    {
      var k :| 0 <= k < |f| - 1 && (f[..i] + f[i + 1..])[k] == t;
      if k < i {
        assert f[k] == t;
      } else {
        assert f[k + 1] == t;
      }
    }
  }

  // ---------------------------------------------------------------------------
  // getSizeFor

  /**
   * `getSizeFor(symbol)`: fails for a symbol that is not in the table or has
   * frequency 0; otherwise answers the depth of the symbol's leaf, from the
   * cache when it is there and by `doGetSizeFor` (then cached) when not. The
   * tree and the table are never changed.
   */
  function GetSizeFor(c: Coder, s: int): (r: Result<(int, Coder), string>)
    requires Valid(c)
    ensures r.Success? <==> s in c.alphabet && c.alphabet[s] != 0
    ensures r.Success? ==>
      var (size, c') := r.value;
      && Valid(c') && c'.tree == c.tree && c'.alphabet == c.alphabet
      && s in c'.sizes && c'.sizes[s] == size
      && (s, size) in Depths(c.tree.value, 0)
  {
    if s !in c.alphabet || c.alphabet[s] == 0 then
      Failure("Non-existing symbol requested")
    else if s in c.sizes then
      Success((c.sizes[s], c))
    else
      assert s in multiset(c.alphabet.Keys);
      var value := DoGetSizeFor(s, c.tree.value, 0);
      Success((value, c.(sizes := c.sizes[s := value])))
  }

  /**
   * The answer for a symbol is its leaf's depth and nothing else, so it does
   * not depend on the state of the cache: asking twice, or through two coders
   * built on the same tree and table, gives the same code length.
   */
  lemma SizeIsLeafDepth(c: Coder, c': Coder, s: int)
    requires Valid(c) && Valid(c') && c.tree == c'.tree && c.alphabet == c'.alphabet
    requires s in c.alphabet && c.alphabet[s] != 0
    ensures GetSizeFor(c, s).value.0 == GetSizeFor(c', s).value.0
  {
    var t := c.tree.value;
    assert multiset(Symbols(t))[s] == 1 by {
      assert multiset(Symbols(t)) == multiset(c.alphabet.Keys);
    }
    UniqueDepth(t, 0, s, GetSizeFor(c, s).value.0, GetSizeFor(c', s).value.0);
  }

  /** A repeated query is answered from the cache with the same value. */
  lemma RepeatedQueryIsStable(c: Coder, s: int)
    requires Valid(c) && GetSizeFor(c, s).Success?
    ensures var (size, c') := GetSizeFor(c, s).value;
      GetSizeFor(c', s) == Success((size, c'))
  {
  }

  /** With two or more keys every leaf lies below the root, so every code length is at least 1. */
  lemma LengthsArePositive(c: Coder, s: int)
    requires Valid(c) && |c.alphabet| >= 2
    requires GetSizeFor(c, s).Success?
    ensures GetSizeFor(c, s).value.0 >= 1
  {
    var t := c.tree.value;
    assert |Symbols(t)| >= 2 by {
      assert |multiset(Symbols(t))| == |multiset(c.alphabet.Keys)| == |c.alphabet.Keys|;
    }
    RootIsNode(t);
    NodeDepthsPositive(t, s, GetSizeFor(c, s).value.0);
  }

  lemma RootIsNode(t: Tree)
    requires |Symbols(t)| >= 2
    ensures t.Node?
  {
  }

  lemma NodeDepthsPositive(t: Tree, s: int, d: nat)
    requires t.Node? && (s, d) in Depths(t, 0)
    ensures d >= 1
  {
    var ds, dl, dr := Depths(t, 0), Depths(t.left, 1), Depths(t.right, 1);
    assert ds == dl + dr;
    var i :| 0 <= i < |ds| && ds[i] == (s, d);
    if i < |dl| {
      assert ds[i] == dl[i];
    } else {
      assert ds[i] == dr[i - |dl|];
    }
  }

  /** A one-key table gives a single leaf as the tree, and its code length is 0. */
  lemma SingleKeyHasLengthZero(c: Coder, s: int)
    requires Valid(c) && c.alphabet.Keys == {s} && c.alphabet[s] != 0
    ensures GetSizeFor(c, s).Success? && GetSizeFor(c, s).value.0 == 0
  {
    var t := c.tree.value;
    assert |Symbols(t)| == 1 by {
      assert multiset(Symbols(t)) == multiset{s};
    }
    if t.Node? {
      SymbolsNonEmpty(t.left);
      SymbolsNonEmpty(t.right);
    }
  }

  lemma SymbolsNonEmpty(t: Tree)
    ensures |Symbols(t)| >= 1
  {
  }
}
