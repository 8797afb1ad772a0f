/**
 * Block.java: an 8x8 matrix of samples with a quality parameter `q`, and the
 * discrete steps of the toy JPEG pipeline applied to it. Samples are exact
 * reals (the source uses `float`); Java's rounding and truncating conversions
 * to `int`, including their saturation at the ends of the `int` range, are
 * written out. The source mutates the block in place and returns `this`; here
 * every operation returns the new block.
 */
module Blocks {
  import opened Wrappers
  import opened Serpent
  import opened HuffmanTree
  import opened Huffman

  /** The largest Java `int`. */
  const MaxInt: int := 0x7fff_ffff

  /** The fields of a Block: the samples and `q`; the quantization matrix is derived from `q`. */
  datatype Block = Block(core: seq<seq<real>>, q: int)

  predicate ValidBlock(b: Block) {
    IsGrid(b.core)
  }

  // ---------------------------------------------------------------------------
  // Construction

  /**
   * The constructor as it is written: it rejects an array unless it has eight
   * rows and its FIRST row has eight cells; the other rows are not looked at.
   */
  function NewBlockAsWritten(raw: seq<seq<real>>, q: int): (r: Result<Block, string>)
    ensures r.Success? <==> |raw| == 8 && |raw[0]| == 8
    ensures r.Success? ==> r.value.core == raw && r.value.q == q
  {
    if |raw| != 8 || |raw[0]| != 8 then Failure("Invalid block size!") else Success(Block(raw, q))
  }

  /** An array whose later rows are short passes the constructor's check. */
  lemma RaggedArrayAccepted()
    ensures var raw := [[0.0, 0.0, 0.0, 0.0, 0.0, 0.0, 0.0, 0.0], [], [], [], [], [], [], []];
      NewBlockAsWritten(raw, 0).Success? && !ValidBlock(NewBlockAsWritten(raw, 0).value)
  {
    var raw := [[0.0, 0.0, 0.0, 0.0, 0.0, 0.0, 0.0, 0.0], [], [], [], [], [], [], []];
    assert |raw[1]| != 8;
  }

  /** The constructor with the check it evidently means: every row has eight cells. */
  function NewBlock(raw: seq<seq<real>>, q: int): (r: Result<Block, string>)
    ensures r.Success? <==> IsGrid(raw)
    ensures r.Success? ==> ValidBlock(r.value) && r.value.core == raw && r.value.q == q
  {
    if |raw| != 8 || exists i :: 0 <= i < 8 && |raw[i]| != 8 then Failure("Invalid block size!")
    else Success(Block(raw, q))
  }

  /** `copy()`: a block with the same samples and the same `q`. */
  function Copy(b: Block): (r: Block)
    requires ValidBlock(b)
    ensures ValidBlock(r) && r == b
  {
    Block(seq(8, i requires 0 <= i < 8 => b.core[i]), b.q)
  }

  /** `setQ(q)`: the samples stay, the quantization matrix follows the new `q`. */
  function SetQ(b: Block, q: int): (r: Block)
    ensures r.core == b.core
    ensures forall i, j :: 0 <= i < 8 && 0 <= j < 8 ==> QuantizationMatrix(r)[i][j] == 1 + (i + j + 1) * q
  {
    b.(q := q)
  }

  // ---------------------------------------------------------------------------
  // Quantization matrix

  /** `computeQuantizationMatrix(q)`: cell (i, j) is 1 + (i + j + 1) q. */
  function QuantizationMatrix(b: Block): (m: seq<seq<int>>)
    ensures |m| == 8 && forall i :: 0 <= i < 8 ==> |m[i]| == 8
  {
    seq(8, i => seq(8, j => 1 + (i + j + 1) * b.q))
  }

  /** For q >= 0 every divisor is at least 1, so quantizing never divides by zero; q = 0 gives all ones. */
  lemma QuantizationMatrixPositive(b: Block, i: int, j: int)
    requires 0 <= i < 8 && 0 <= j < 8
    ensures QuantizationMatrix(b)[i][j] == 1 + (i + j + 1) * b.q
    ensures b.q >= 0 ==> QuantizationMatrix(b)[i][j] >= 1
    ensures b.q == 0 ==> QuantizationMatrix(b)[i][j] == 1
    ensures QuantizationMatrix(b)[i][j] == 0 <==> b.q == -1 && i == 0 && j == 0
  {
    var k := i + j + 1;
    if b.q >= 0 {
      assert k * b.q >= 0;
    } else if b.q < -1 {
      assert k * b.q <= -k;
    }
  }

  // ---------------------------------------------------------------------------
  // Conversions to int

  /** `Math.round(float)`: floor(x + 1/2), saturated at the ends of the `int` range. */
  function MathRound(x: real): int {
    var n := (x + 0.5).Floor;
    if n > MaxInt then MaxInt else if n < -MaxInt - 1 then -MaxInt - 1 else n
  }

  /** `round(x)` of Block: Math.round applied to |x|, with the sign put back. */
  function Round(x: real): int {
    if x < 0.0 then -MathRound(-x) else MathRound(x)
  }

  /** Rounding is odd: round(-x) = -round(x). */
  lemma RoundIsOdd(x: real)
    ensures Round(-x) == -Round(x)
  {
  }

  /** Inside the `int` range rounding moves a value by at most 1/2. */
  lemma RoundIsNearest(x: real)
    requires -(MaxInt as real) <= x <= MaxInt as real
    ensures -0.5 <= Round(x) as real - x <= 0.5
  {
    if x < 0.0 {
      MathRoundNearest(-x);
    } else {
      MathRoundNearest(x);
    }
  }

  /** Halves are rounded away from zero. */
  lemma RoundHalvesAwayFromZero(n: nat)
    requires n < MaxInt
    ensures Round(n as real + 0.5) == n + 1
    ensures Round(-(n as real + 0.5)) == -(n + 1)
  {
    assert (n as real + 0.5 + 0.5).Floor == n + 1;
  }

  lemma MathRoundNearest(y: real)
    requires 0.0 <= y <= MaxInt as real
    ensures MathRound(y) == (y + 0.5).Floor
    ensures -0.5 <= MathRound(y) as real - y <= 0.5
  {
    var n := (y + 0.5).Floor;
    FloorBounds(y + 0.5);
    assert 0 <= n <= MaxInt;
  }

  lemma FloorBounds(r: real)
    ensures r - 1.0 < r.Floor as real <= r
  {
  }

  /** Outside it rounding saturates: results stay within [-MaxInt, MaxInt]. */
  lemma RoundSaturates(x: real)
    ensures -MaxInt <= Round(x) <= MaxInt
    ensures x >= MaxInt as real ==> Round(x) == MaxInt
    ensures x <= -MaxInt as real ==> Round(x) == -MaxInt
  {
  }

  /** `Float.intValue()`: truncation toward zero, saturated at the ends of the `int` range. */
  function IntValue(x: real): (n: int)
    ensures -MaxInt - 1 <= n <= MaxInt
    ensures x >= 0.0 ==> 0.0 <= n as real <= x
    ensures x < 0.0 ==> x <= n as real <= 0.0
    ensures -(MaxInt as real) <= x <= MaxInt as real ==> -1.0 < n as real - x < 1.0
  {
    if x < 0.0 then
      var m := (-x).Floor;
      if m > MaxInt + 1 then -MaxInt - 1 else -m
    else
      var m := x.Floor;
      if m > MaxInt then MaxInt else m
  }

  // ---------------------------------------------------------------------------
  // Cell-wise arithmetic

  /** `diff(other)`: cell-wise difference, as a new block with q = 0. */
  function Diff(a: Block, b: Block): (r: Block)
    requires ValidBlock(a) && ValidBlock(b)
    ensures ValidBlock(r) && r.q == 0
    ensures forall i, j :: 0 <= i < 8 && 0 <= j < 8 ==> r.core[i][j] == a.core[i][j] - b.core[i][j]
  {
    Block(seq(8, i requires 0 <= i < 8 => seq(8, j requires 0 <= j < 8 => a.core[i][j] - b.core[i][j])), 0)
  }

  /** `sum(other)`: cell-wise sum, as a new block with q = 0. */
  function Sum(a: Block, b: Block): (r: Block)
    requires ValidBlock(a) && ValidBlock(b)
    ensures ValidBlock(r) && r.q == 0
    ensures forall i, j :: 0 <= i < 8 && 0 <= j < 8 ==> r.core[i][j] == a.core[i][j] + b.core[i][j]
  {
    Block(seq(8, i requires 0 <= i < 8 => seq(8, j requires 0 <= j < 8 => a.core[i][j] + b.core[i][j])), 0)
  }

  /** In exact arithmetic adding back what was subtracted gives the samples back. */
  lemma SumUndoesDiff(a: Block, b: Block)
    requires ValidBlock(a) && ValidBlock(b)
    ensures Sum(Diff(a, b), b).core == a.core
  {
    var s := Sum(Diff(a, b), b).core;
    forall i | 0 <= i < 8
      ensures s[i] == a.core[i]
    {
    }
  }

  /** Differences are antisymmetric and sums commute. */
  lemma DiffAntisymmetric(a: Block, b: Block, i: int, j: int)
    requires ValidBlock(a) && ValidBlock(b) && 0 <= i < 8 && 0 <= j < 8
    ensures Diff(a, b).core[i][j] == -Diff(b, a).core[i][j]
    ensures Sum(a, b) == Sum(b, a)
  {
    var s, t := Sum(a, b).core, Sum(b, a).core;
    forall k | 0 <= k < 8
      ensures s[k] == t[k]
    {
    }
  }

  /** `normalize()`: the level shift, 128 taken from every sample. */
  function Normalize(b: Block): (r: Block)
    requires ValidBlock(b)
    ensures ValidBlock(r) && r.q == b.q
    ensures forall i, j :: 0 <= i < 8 && 0 <= j < 8 ==> r.core[i][j] == b.core[i][j] - 128.0
  {
    b.(core := seq(8, i requires 0 <= i < 8 => seq(8, j requires 0 <= j < 8 => b.core[i][j] - 128.0)))
  }

  /** One cell of `restore()`: add 128, then clamp to 0 or 255 if it rounds outside [0, 255]. */
  function RestoreCell(x: real): real {
    var v := x + 128.0;
    var n := Round(v);
    if n < 0 then 0.0 else if n > 255 then 255.0 else v
  }

  /**
   * After `restore()` a sample always rounds into [0, 255]: a sample whose shifted
   * value rounds inside keeps that value unrounded, the others become exactly 0 or 255.
   */
  lemma RestoreCellRange(x: real)
    ensures 0 <= Round(RestoreCell(x)) <= 255
    ensures 0 <= Round(x + 128.0) <= 255 ==> RestoreCell(x) == x + 128.0
    ensures Round(x + 128.0) < 0 ==> RestoreCell(x) == 0.0
    ensures Round(x + 128.0) > 255 ==> RestoreCell(x) == 255.0
  {
  }

  /** `restore()`: `RestoreCell` on every sample. */
  function Restore(b: Block): (r: Block)
    requires ValidBlock(b)
    ensures ValidBlock(r) && r.q == b.q
    ensures forall i, j :: 0 <= i < 8 && 0 <= j < 8 ==> r.core[i][j] == RestoreCell(b.core[i][j])
  {
    b.(core := seq(8, i requires 0 <= i < 8 => seq(8, j requires 0 <= j < 8 => RestoreCell(b.core[i][j]))))
  }

  /** Every sample rounds into [0, 255]: what `restore()` produces. */
  predicate InPixelRange(b: Block)
    requires ValidBlock(b)
  {
    forall i, j :: 0 <= i < 8 && 0 <= j < 8 ==> 0 <= Round(b.core[i][j]) <= 255
  }

  /**
   * Restoring a normalized block gives it back exactly when all its samples round
   * into [0, 255]; and a restored block always has that property.
   */
  lemma RestoreUndoesNormalize(b: Block)
    requires ValidBlock(b)
    ensures Restore(Normalize(b)) == b <==> InPixelRange(b)
    ensures InPixelRange(Restore(b))
  {
    var r := Restore(Normalize(b));
    forall i, j | 0 <= i < 8 && 0 <= j < 8
      ensures r.core[i][j] == RestoreCell(b.core[i][j] - 128.0)
      ensures 0 <= Round(Restore(b).core[i][j]) <= 255
    {
      RestoreCellRange(b.core[i][j] - 128.0);
      RestoreCellRange(b.core[i][j]);
    }
    if InPixelRange(b) {
      forall i | 0 <= i < 8
        ensures r.core[i] == b.core[i]
      {
        forall j | 0 <= j < 8
          ensures r.core[i][j] == b.core[i][j]
        {
          RestoreCellRange(b.core[i][j] - 128.0);
          assert b.core[i][j] - 128.0 + 128.0 == b.core[i][j];
        }
      }
    }
    if r == b {
      forall i, j | 0 <= i < 8 && 0 <= j < 8
        ensures 0 <= Round(b.core[i][j]) <= 255
      {
        RestoreCellRange(b.core[i][j] - 128.0);
        assert r.core[i][j] == b.core[i][j];
      }
    }
  }

  // ---------------------------------------------------------------------------
  // Quantization

  /**
   * round(x / m) as Java computes it in `float`: dividing by zero gives an
   * infinity (or NaN for 0 / 0), which `round` turns into MaxInt, -MaxInt or 0.
   */
  function DivRound(x: real, m: int): int {
    if m == 0 then (if x > 0.0 then MaxInt else if x < 0.0 then -MaxInt else 0)
    else Round(x / m as real)
  }

  /** `quantize()`: each sample divided by its matrix cell and rounded. */
  function Quantize(b: Block): (r: Block)
    requires ValidBlock(b)
    ensures ValidBlock(r) && r.q == b.q
    ensures forall i, j :: 0 <= i < 8 && 0 <= j < 8 ==>
      r.core[i][j] == DivRound(b.core[i][j], QuantizationMatrix(b)[i][j]) as real
  {
    var m := QuantizationMatrix(b);
    b.(core := seq(8, i requires 0 <= i < 8 => seq(8, j requires 0 <= j < 8 => DivRound(b.core[i][j], m[i][j]) as real)))
  }

  /** `dequantize()`: each sample multiplied by its matrix cell. */
  function Dequantize(b: Block): (r: Block)
    requires ValidBlock(b)
    ensures ValidBlock(r) && r.q == b.q
    ensures forall i, j :: 0 <= i < 8 && 0 <= j < 8 ==>
      r.core[i][j] == b.core[i][j] * QuantizationMatrix(b)[i][j] as real
  {
    var m := QuantizationMatrix(b);
    b.(core := seq(8, i requires 0 <= i < 8 => seq(8, j requires 0 <= j < 8 => b.core[i][j] * m[i][j] as real)))
  }

  /**
   * For q >= 0, quantizing and dequantizing moves a sample by at most half of
   * its matrix cell, as long as the quotient stays inside the `int` range.
   */
  lemma QuantizationError(b: Block, i: int, j: int)
    requires ValidBlock(b) && b.q >= 0 && 0 <= i < 8 && 0 <= j < 8
    requires var m := QuantizationMatrix(b)[i][j] as real;
      -(MaxInt as real) * m <= b.core[i][j] <= MaxInt as real * m
    ensures var m := QuantizationMatrix(b)[i][j] as real;
      var e := Dequantize(Quantize(b)).core[i][j] - b.core[i][j];
      -m / 2.0 <= e <= m / 2.0
  {
    DequantizedCell(b, i, j);
    var m := QuantizationMatrix(b)[i][j] as real;
    CellError(b.core[i][j], m, Dequantize(Quantize(b)).core[i][j]);
  }

  lemma CellError(x: real, m: real, d: real)
    requires m >= 1.0 && -(MaxInt as real) * m <= x <= MaxInt as real * m
    requires d == Round(x / m) as real * m
    ensures -m / 2.0 <= d - x <= m / 2.0
  {
    QuotientInRange(x, m);
    RoundIsNearest(x / m);
    ScaledError(Round(x / m) as real, x, m);
  }

  lemma DequantizedCell(b: Block, i: int, j: int)
    requires ValidBlock(b) && b.q >= 0 && 0 <= i < 8 && 0 <= j < 8
    ensures QuantizationMatrix(b)[i][j] >= 1
    ensures Dequantize(Quantize(b)).core[i][j]
      == Round(b.core[i][j] / QuantizationMatrix(b)[i][j] as real) as real * QuantizationMatrix(b)[i][j] as real
  {
    QuantizationMatrixPositive(b, i, j);
    var qb := Quantize(b);
    assert QuantizationMatrix(qb) == QuantizationMatrix(b);
  }

  lemma QuotientInRange(x: real, m: real)
    requires m >= 1.0 && -(MaxInt as real) * m <= x <= MaxInt as real * m
    ensures -(MaxInt as real) <= x / m <= MaxInt as real
  {
  }

  lemma ScaledError(n: real, x: real, m: real)
    requires m > 0.0 && -0.5 <= n - x / m <= 0.5
    ensures -m / 2.0 <= n * m - x <= m / 2.0
  {
    var d := n - x / m;
    assert n * m - x == d * m;
    if d >= 0.0 {
      assert d * m <= 0.5 * m;
    } else {
      assert -d * m <= 0.5 * m;
    }
  }

  // ---------------------------------------------------------------------------
  // Run-length size

  /** The number of neighbouring positions of `s` that hold different values. */
  function Changes(s: seq<int>): (n: nat)
    ensures |s| >= 1 ==> n <= |s| - 1
    ensures (forall k :: 0 <= k < |s| ==> s[k] == s[0]) ==> n == 0
  {
    if |s| < 2 then 0
    else Changes(s[..|s| - 1]) + (if s[|s| - 2] != s[|s| - 1] then 1 else 0)
  }

  /** `intValue()` of every element. */
  function IntValues(s: seq<real>): (t: seq<int>)
    ensures |t| == |s| && forall k :: 0 <= k < |s| ==> t[k] == IntValue(s[k])
  {
    seq(|s|, k requires 0 <= k < |s| => IntValue(s[k]))
  }

  /**
   * `computeRLESize()`: two units for the first run and two more for every
   * change of value along the zig-zag scan, values compared after truncation
   * (`intValue`), not after rounding. Hence a size in [2, 128], and 2 for a
   * constant block.
   */
  method ComputeRleSize(b: Block) returns (total: int, ghost scan: seq<real>)
    requires ValidBlock(b)
    ensures IsZigZagScan(b.core, scan)
    ensures total == 2 + 2 * Changes(IntValues(scan))
    ensures 2 <= total <= 128
    ensures (forall i, j :: 0 <= i < 8 && 0 <= j < 8 ==> b.core[i][j] == b.core[0][0]) ==> total == 2
  {
    var values, cells, _ := Traverse(b.core);
    scan := values;
    ScanOfTraversal(b.core, values, cells);
    total := RunLengthSize(values);
    if forall i, j :: 0 <= i < 8 && 0 <= j < 8 ==> b.core[i][j] == b.core[0][0] {
      ConstantBlockScan(b.core, values, cells);
    }
  }

  lemma ScanOfTraversal(a: seq<seq<real>>, values: seq<real>, cells: seq<Cell>)
    requires IsGrid(a) && |values| == 64 && IsScanOrder(cells)
    requires forall k :: 0 <= k < 64 ==> values[k] == At(a, cells[k])
    ensures IsZigZagScan(a, values)
  {
  }

  /** A constant block reads as a constant sequence in any scan order. */
  lemma ConstantBlockScan(a: seq<seq<real>>, values: seq<real>, cells: seq<Cell>)
    requires IsGrid(a) && |values| == 64 && IsScanOrder(cells)
    requires forall k :: 0 <= k < 64 ==> values[k] == At(a, cells[k])
    requires forall i, j :: 0 <= i < 8 && 0 <= j < 8 ==> a[i][j] == a[0][0]
    ensures forall k :: 0 <= k < 64 ==> IntValues(values)[k] == IntValues(values)[0]
  {
    forall k | 0 <= k < 64
      ensures values[k] == values[0]
    {
      assert values[k] == At(a, cells[k]);
      assert values[0] == At(a, cells[0]);
    }
  }

  /** The run-length loop of `computeRLESize()` over a scan: two units, plus two at each change. */
  method RunLengthSize(values: seq<real>) returns (total: int)
    requires |values| >= 1
    ensures total == 2 + 2 * Changes(IntValues(values))
  {
    ghost var t := IntValues(values);
    var prev := IntValue(values[0]);
    total := 2;
    var k := 1;
    while k < |values|
      invariant 1 <= k <= |values|
      invariant prev == t[k - 1]
      invariant total == 2 + 2 * Changes(t[..k])
    {
      var current := IntValue(values[k]);
      assert t[..k + 1][..k] == t[..k];
      if prev != current {
        total := total + 2;
        prev := current;
      }
      k := k + 1;
    }
    assert t[..k] == t;
  }

  // ---------------------------------------------------------------------------
  // Huffman size

  /** The rounded samples, row by row. */
  function RoundedSamples(b: Block): (s: seq<int>)
    requires ValidBlock(b)
    ensures |s| == 64
    ensures forall i, j :: 0 <= i < 8 && 0 <= j < 8 ==> s[8 * i + j] == Round(b.core[i][j])
  {
    seq(64, k requires 0 <= k < 64 => Round(b.core[k / 8][k % 8]))
  }

  /** The frequency table `freq.compute` builds, one symbol at a time. */
  function Histogram(s: seq<int>): (h: map<int, int>)
    ensures h.Keys == set x | x in s
    ensures forall x :: x in h ==> h[x] == multiset(s)[x] >= 1
  {
    if s == [] then map[]
    else
      var h := Histogram(s[..|s| - 1]);
      var x := s[|s| - 1];
      assert s == s[..|s| - 1] + [x];
      h[x := if x in h then h[x] + 1 else 1]
  }

  /** The frequencies of a histogram add up to the number of symbols counted. */
  lemma {:induction false} HistogramTotal(s: seq<int>)
    ensures Total(Histogram(s)) == |s|
  {
    if s != [] {
      var s' := s[..|s| - 1];
      var x := s[|s| - 1];
      var h, h' := Histogram(s'), Histogram(s);
      HistogramTotal(s');
      SumOverRemove(h', h'.Keys, x);
      assert h'.Keys - {x} == h.Keys - {x};
      SumOverAgree(h', h, h.Keys - {x});
      if x in h {
        SumOverRemove(h, h.Keys, x);
      } else {
        assert h.Keys - {x} == h.Keys;
      }
    }
  }

  /**
   * `encodeHuffman()`: the coder for the table that maps every distinct rounded
   * sample to its number of occurrences; the counts add up to 64.
   */
  method EncodeHuffman(b: Block) returns (c: Coder)
    requires ValidBlock(b)
    ensures Huffman.Valid(c) && c.sizes == map[]
    ensures c.alphabet.Keys == set x | x in RoundedSamples(b)
    ensures forall x :: x in c.alphabet ==> c.alphabet[x] == multiset(RoundedSamples(b))[x]
    ensures Total(c.alphabet) == 64
    ensures c.tree.Some? && HuffmanBuilt(c.tree.value, c.alphabet)
  {
    var symbols := RoundedSamples(b);
    HistogramTotal(symbols);
    assert symbols[0] in Histogram(symbols);
    c := NewCoder(Histogram(symbols));
  }

  /** `if (sum % 8 != 0) sum += 8 - sum % 8; return sum / 8;`: whole bytes for `sum` bits. */
  function BytesFor(sum: int): (r: int)
    requires sum >= 0
    ensures 8 * r >= sum && 8 * r < sum + 8
  {
    var padded := if sum % 8 != 0 then sum + (8 - sum % 8) else sum;
    padded / 8
  }

  /** `computeHuffmanSize(encoder)` fails exactly when some sample's symbol is unknown to the coder. */
  predicate AllKnown(c: Coder, s: seq<int>) {
    forall k :: 0 <= k < |s| ==> s[k] in c.alphabet && c.alphabet[s[k]] != 0
  }

  /**
   * `computeHuffmanSize(encoder)`: the code lengths of the 64 rounded samples,
   * queried row by row, added up and rounded up to whole bytes. The first
   * sample the coder does not know raises, which is the failure here.
   */
  method ComputeHuffmanSize(b: Block, c: Coder) returns (r: Result<int, string>, c': Coder, ghost lengths: seq<int>)
    requires ValidBlock(b) && Huffman.Valid(c)
    ensures Huffman.Valid(c') && c'.tree == c.tree && c'.alphabet == c.alphabet
    ensures r.Success? <==> AllKnown(c, RoundedSamples(b))
    ensures r.Success? ==>
      && |lengths| == 64
      && c.tree.Some?
      && (forall k :: 0 <= k < 64 ==> (RoundedSamples(b)[k], lengths[k]) in Depths(c.tree.value, 0))
      && r.value >= 0 && 8 * r.value >= HuffmanTree.Sum(lengths) > 8 * r.value - 8
  {
    var sum;
    sum, c', lengths := SizeSum(c, RoundedSamples(b));
    if sum.Failure? {
      return Failure(sum.error), c', lengths;
    }
    r := Success(BytesFor(sum.value));
  }

  /** The code lengths of `s`, queried in order and added up; the first unknown symbol fails. */
  method SizeSum(c: Coder, s: seq<int>) returns (r: Result<int, string>, c': Coder, ghost lengths: seq<int>)
    requires Huffman.Valid(c)
    ensures Huffman.Valid(c') && c'.tree == c.tree && c'.alphabet == c.alphabet
    ensures r.Success? <==> AllKnown(c, s)
    ensures r.Success? ==>
      && |lengths| == |s|
      && (|s| > 0 ==> c.tree.Some?)
      && (forall k :: 0 <= k < |s| ==> (s[k], lengths[k]) in Depths(c.tree.value, 0))
      && r.value == HuffmanTree.Sum(lengths) && r.value >= 0
  {
    var sum := 0;
    c' := c;
    lengths := [];
    var k := 0;
    ghost var depths := if c.tree.Some? then Depths(c.tree.value, 0) else [];
    while k < |s|
      invariant 0 <= k <= |s| && |lengths| == k
      invariant SameCoder(c, c')
      invariant forall m :: 0 <= m < k ==> s[m] in c.alphabet && c.alphabet[s[m]] != 0
      invariant k > 0 ==> c.tree.Some?
      invariant forall m :: 0 <= m < k ==> (s[m], lengths[m]) in depths
      invariant sum == HuffmanTree.Sum(lengths) && sum >= 0
    {
      var answer := QueryLength(c', s[k]);
      if answer.Failure? {
        assert !AllKnown(c, s) by { assert !(s[k] in c.alphabet && c.alphabet[s[k]] != 0); }
        return Failure(answer.error), c', lengths;
      }
      var size := answer.value.0;
      c' := answer.value.1;
      SumSnoc(lengths, size);
      KnownStep(c, s, k);
      DepthsStep(s, lengths, depths, size);
      lengths := lengths + [size];
      sum := sum + size;
      k := k + 1;
    }
    r := Success(sum);
  }

  /** `c'` is `c` with a possibly larger cache of code lengths. */
  ghost predicate SameCoder(c: Coder, c': Coder) {
    Huffman.Valid(c') && c'.tree == c.tree && c'.alphabet == c.alphabet
  }

  /** One `getSizeFor` query, seen through its contract alone. */
  method QueryLength(c: Coder, x: int) returns (r: Result<(int, Coder), string>)
    requires Huffman.Valid(c)
    ensures r.Success? <==> x in c.alphabet && c.alphabet[x] != 0
    ensures r.Success? ==>
      && Huffman.Valid(r.value.1) && r.value.1.tree == c.tree && r.value.1.alphabet == c.alphabet
      && (x, r.value.0) in Depths(c.tree.value, 0) && r.value.0 >= 0
  {
    r := GetSizeFor(c, x);
    if r.Success? {
      var i :| 0 <= i < |Depths(c.tree.value, 0)| && Depths(c.tree.value, 0)[i] == (x, r.value.0);
    }
  }

  lemma KnownStep(c: Coder, s: seq<int>, k: nat)
    requires k < |s| && s[k] in c.alphabet && c.alphabet[s[k]] != 0
    requires forall m :: 0 <= m < k ==> s[m] in c.alphabet && c.alphabet[s[m]] != 0
    ensures forall m :: 0 <= m < k + 1 ==> s[m] in c.alphabet && c.alphabet[s[m]] != 0
  {
  }

  lemma DepthsStep(s: seq<int>, lengths: seq<int>, depths: seq<(int, nat)>, size: int)
    requires |lengths| < |s| && (s[|lengths|], size) in depths
    requires forall m :: 0 <= m < |lengths| ==> (s[m], lengths[m]) in depths
    ensures forall m :: 0 <= m < |lengths| + 1 ==> (s[m], (lengths + [size])[m]) in depths
  {
  }

  lemma SumSnoc(s: seq<int>, x: int)
    ensures HuffmanTree.Sum(s + [x]) == HuffmanTree.Sum(s) + x
  {
    assert (s + [x])[..|s|] == s;
  }

  /** A block's own coder knows every sample, so its Huffman size is always computed. */
  lemma OwnCoderKnowsAll(b: Block, c: Coder)
    requires ValidBlock(b)
    requires c.alphabet.Keys == set x | x in RoundedSamples(b)
    requires forall x :: x in c.alphabet ==> c.alphabet[x] == multiset(RoundedSamples(b))[x]
    ensures AllKnown(c, RoundedSamples(b))
  {
    var s := RoundedSamples(b);
    forall k | 0 <= k < 64
      ensures s[k] in c.alphabet && c.alphabet[s[k]] != 0
    {
      assert s[k] in multiset(s);
    }
  }
}
