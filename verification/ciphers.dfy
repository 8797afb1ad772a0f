/**
 * _ciphers.py: the modes of operation (ECB, CBC, PCBC, CFB) over an arbitrary
 * block function, the element-wise xor they chain blocks with, the splitting
 * of work into per-thread segments and the reassembly of the threads'
 * results, and the zero padding of `blockify`.
 *
 * A block is a list of 32-bit words. The threads of the parallel modes only
 * compute a parallel map: each routine produces the piece of the result for
 * one segment, and the pieces reach the shared list in whatever order the
 * threads finish. The model computes every piece, takes the arrival order as
 * an arbitrary permutation, and proves that reassembly yields the sequential
 * result whatever that order was.
 */
module Ciphers {
  import opened Wrappers
  import opened Util
  import Rc6

  /** A list of `np.uint32` words. */
  type Block = seq<Word>

  // ---------------------------------------------------------------------------
  // element_wise_xor

  /** `element_wise_xor(first, second)`: the assertion makes equal lengths the caller's duty. */
  function Xor(first: Block, second: Block): (r: Block)
    requires |first| == |second|
    ensures |r| == |first|
  {
    seq(|first|, i requires 0 <= i < |first| => Xor32(first[i], second[i]))
  }

  /** Xor-ing the same block in twice gives back the original. */
  lemma XorSelfInverse(a: Block, b: Block)
    requires |a| == |b|
    ensures Xor(Xor(a, b), b) == a
  {
    forall i | 0 <= i < |a|
      ensures Xor(Xor(a, b), b)[i] == a[i]
    {
      XorCancel(a[i], b[i]);
    }
  }

  /** The order of the operands does not matter. */
  lemma XorSymmetric(a: Block, b: Block)
    requires |a| == |b|
    ensures Xor(a, b) == Xor(b, a)
  {
    forall i | 0 <= i < |a|
      ensures Xor(a, b)[i] == Xor(b, a)[i]
    {
      XorCommutes(a[i], b[i]);
    }
  }

  /** Xor-ing a block out again from the left. */
  lemma XorCancelsLeft(a: Block, b: Block)
    requires |a| == |b|
    ensures Xor(a, Xor(a, b)) == b
  {
    XorSymmetric(a, b);
    XorSymmetric(a, Xor(b, a));
    XorSelfInverse(b, a);
  }

  // ---------------------------------------------------------------------------
  // segmentize

  /** `segmentize`'s arguments to one routine: the half-open range [begin, end) and the tag. */
  datatype Segment = Segment(begin: nat, end: nat, tag: nat)

  /** The segments cut [0, size) into consecutive ranges, tagged 0, 1, ... in order. */
  ghost predicate Partition(segs: seq<Segment>, size: nat) {
    && |segs| >= 1
    && segs[0].begin == 0
    && segs[|segs| - 1].end == size
    && (forall t :: 0 <= t < |segs| ==> segs[t].begin <= segs[t].end <= size && segs[t].tag == t)
    && (forall t :: 0 < t < |segs| ==> segs[t].begin == segs[t - 1].end)
  }

  /**
   * The test that keeps the work in a single segment: fewer items than the
   * square of the thread count, or (when `seg_size` is given) fewer than
   * `seg_size` per thread. A `seg_size` of 0 is Python's `None`, which is falsy.
   */
  predicate SingleSegment(size: nat, threadCount: nat, segSize: nat) {
    size < threadCount * threadCount || (segSize != 0 && size < segSize * threadCount)
  }

  /**
   * `segmentize(size, thread_count, routine, seg_size)`: the arguments of the
   * routines it starts. With a thread count of 0 Python fails dividing by it,
   * so callers must give at least one thread.
   */
  function Segmentize(size: nat, threadCount: nat, segSize: nat): (r: seq<Segment>)
    requires threadCount >= 1
    ensures Partition(r, size)
    ensures SingleSegment(size, threadCount, segSize) ==> r == [Segment(0, size, 0)]
    ensures !SingleSegment(size, threadCount, segSize) ==>
      && |r| == threadCount
      && (forall t :: 0 <= t < |r| ==> r[t].begin < r[t].end)
      && (forall t :: 0 <= t < |r| - 1 ==> r[t].end - r[t].begin == size / threadCount)
  {
    if SingleSegment(size, threadCount, segSize) then [Segment(0, size, 0)]
    else
      EvenSegmentsPartition(size, threadCount);
      EvenSegments(size, threadCount)
  }

  /** `n` ranges of `size / n` items each, the last one running on to `size`. */
  function EvenSegments(size: nat, n: nat): seq<Segment>
    requires n >= 1
  {
    var segment := size / n;
    seq(n, i requires 0 <= i < n => Segment(i * segment, if i < n - 1 then (i + 1) * segment else size, i))
  }

  /** With at least n^2 items, the even split into `n` ranges is a partition into non-empty ranges. */
  lemma EvenSegmentsPartition(size: nat, n: nat)
    requires n >= 1 && size >= n * n
    ensures var r := EvenSegments(size, n);
      && Partition(r, size) && |r| == n
      && (forall t :: 0 <= t < |r| ==> r[t].begin < r[t].end)
      && (forall t :: 0 <= t < |r| - 1 ==> r[t].end - r[t].begin == size / n)
  {
    var segment := size / n;
    var r := EvenSegments(size, n);
    QuotientAtLeast(size, n);
    forall t | 0 <= t < n
      ensures r[t].begin < r[t].end <= size
    {
      assert (t + 1) * segment == t * segment + segment;
      MulMonotone(t + 1, n, segment);
    }
    forall t | 0 < t < n
      ensures r[t].begin == r[t - 1].end
    {
      assert (t - 1) + 1 == t;
    }
    forall t | 0 <= t < n - 1
      ensures r[t].end - r[t].begin == segment
    {
      assert (t + 1) * segment == t * segment + segment;
    }
  }

  /** At least n^2 items give each of n threads at least n of them, and n such shares fit. */
  lemma QuotientAtLeast(size: nat, n: nat)
    requires n >= 1 && size >= n * n
    ensures size / n >= n && n * (size / n) <= size
  {
    var segment := size / n;
    assert size == n * segment + size % n;
    if segment < n {
      MulMonotone(segment, n - 1, n);
      assert false;
    }
  }

  // ---------------------------------------------------------------------------
  // cleanup_result

  /** What a routine appends to the shared list: its tag and its piece of the result. */
  type Piece<T> = (nat, seq<T>)

  /** The pieces in order of their tags, equal tags allowed. */
  ghost predicate Sorted<T>(ps: seq<Piece<T>>) {
    forall i, j :: 0 <= i < j < |ps| ==> ps[i].0 <= ps[j].0
  }

  /** The pieces in strictly increasing order of their tags. */
  ghost predicate StrictlySorted<T>(ps: seq<Piece<T>>) {
    forall i, j :: 0 <= i < j < |ps| ==> ps[i].0 < ps[j].0
  }

  /** `p` placed before the first piece of `ps` whose tag is not smaller. */
  function Insert<T>(p: Piece<T>, ps: seq<Piece<T>>): (r: seq<Piece<T>>)
    ensures multiset(r) == multiset(ps) + multiset{p}
    ensures |r| == |ps| + 1 && (r[0] == p || (ps != [] && r[0] == ps[0]))
  {
    if ps == [] || p.0 <= ps[0].0 then [p] + ps
    else
      assert ps == [ps[0]] + ps[1..];
      [ps[0]] + Insert(p, ps[1..])
  }

  /** Insertion keeps a sorted list sorted. */
  lemma {:induction false} InsertKeepsSorted<T>(p: Piece<T>, ps: seq<Piece<T>>)
    requires Sorted(ps)
    ensures Sorted(Insert(p, ps))
  {
    if ps != [] && p.0 > ps[0].0 {
      var rest := Insert(p, ps[1..]);
      InsertKeepsSorted(p, ps[1..]);
      assert Insert(p, ps) == [ps[0]] + rest;
      assert ps[0].0 <= rest[0].0 by {
        if rest[0] != p {
          assert rest[0] == ps[1..][0] == ps[1];
        }
      }
    }
  }

  /** `result.sort(key=lambda e: e[0])`: a stable sort of the pieces by tag. */
  function SortByTag<T>(ps: seq<Piece<T>>): (r: seq<Piece<T>>)
    ensures multiset(r) == multiset(ps) && Sorted(r)
  {
    if ps == [] then []
    else
      assert ps == [ps[0]] + ps[1..];
      InsertKeepsSorted(ps[0], SortByTag(ps[1..]));
      Insert(ps[0], SortByTag(ps[1..]))
  }

  /** The pieces' contents one after the other. */
  function Flatten<T>(pieces: seq<seq<T>>): (r: seq<T>)
  {
    if pieces == [] then [] else Flatten(pieces[..|pieces| - 1]) + pieces[|pieces| - 1]
  }

  /** The contents of each piece, without the tags. */
  function Contents<T>(ps: seq<Piece<T>>): (r: seq<seq<T>>)
    ensures |r| == |ps| && forall i :: 0 <= i < |ps| ==> r[i] == ps[i].1
  {
    seq(|ps|, i requires 0 <= i < |ps| => ps[i].1)
  }

  /** `cleanup_result(result)`: the pieces sorted by tag and then concatenated. */
  function Cleanup<T>(result: seq<Piece<T>>): seq<T> {
    Flatten(Contents(SortByTag(result)))
  }

  /**
   * With distinct tags there is only one order sorted by tag: a sorted list
   * holding the same pieces as a strictly sorted one is that list.
   */
  lemma {:induction false} SortedIsUnique<T>(a: seq<Piece<T>>, b: seq<Piece<T>>)
    requires StrictlySorted(a) && Sorted(b) && multiset(a) == multiset(b)
    ensures a == b
    decreases |a|
  {
    if a == [] {
      assert |b| == |multiset(b)|;
    } else {
      HeadsAgree(a, b);
      TailsAgree(a, b);
      SortedIsUnique(a[1..], b[1..]);
      assert a == [a[0]] + a[1..];
      assert b == [b[0]] + b[1..];
    }
  }

  /** The first piece of both lists is the one with the smallest tag. */
  lemma HeadsAgree<T>(a: seq<Piece<T>>, b: seq<Piece<T>>)
    requires StrictlySorted(a) && Sorted(b) && multiset(a) == multiset(b) && a != []
    ensures b != [] && a[0] == b[0]
  {
    assert a[0] in multiset(b);
    var j :| 0 <= j < |b| && b[j] == a[0];
    assert b[0] in multiset(a);
    var i :| 0 <= i < |a| && a[i] == b[0];
    if i != 0 {
      assert false;
    }
  }

  /** Taking the same first piece off both lists leaves the same pieces. */
  lemma TailsAgree<T>(a: seq<Piece<T>>, b: seq<Piece<T>>)
    requires a != [] && b != [] && a[0] == b[0] && multiset(a) == multiset(b)
    ensures multiset(a[1..]) == multiset(b[1..])
  {
    assert a == [a[0]] + a[1..];
    assert b == [b[0]] + b[1..];
    assert multiset(a) == multiset([a[0]]) + multiset(a[1..]);
    assert multiset(b) == multiset([b[0]]) + multiset(b[1..]);
    assert multiset(a[1..]) == multiset(a) - multiset([a[0]]);
    assert multiset(b[1..]) == multiset(b) - multiset([b[0]]);
  }

  /**
   * Whatever order the threads appended their pieces in, `cleanup_result`
   * returns the pieces' contents in tag order.
   */
  lemma CleanupAnyOrder<T>(arrival: seq<Piece<T>>, ordered: seq<Piece<T>>)
    requires StrictlySorted(ordered) && multiset(arrival) == multiset(ordered)
    ensures Cleanup(arrival) == Flatten(Contents(ordered))
  {
    SortedIsUnique(ordered, SortByTag(arrival));
  }

  // ---------------------------------------------------------------------------
  // The parallel map

  /** The piece each segment's routine contributes when the sequential result is `whole`. */
  function Pieces<T>(segs: seq<Segment>, whole: seq<T>): (r: seq<Piece<T>>)
    requires Partition(segs, |whole|)
    ensures |r| == |segs|
  {
    seq(|segs|, t requires 0 <= t < |segs| => (segs[t].tag, whole[segs[t].begin..segs[t].end]))
  }

  /** The first `k` segments' pieces, concatenated, are `whole` up to where segment `k - 1` ends. */
  lemma {:induction false} FlattenPrefix<T>(segs: seq<Segment>, whole: seq<T>, k: nat)
    requires Partition(segs, |whole|) && 1 <= k <= |segs|
    ensures Flatten(Contents(Pieces(segs, whole))[..k]) == whole[..segs[k - 1].end]
    decreases k
  {
    var cs := Contents(Pieces(segs, whole));
    assert cs[..k][..k - 1] == cs[..k - 1];
    if k == 1 {
      assert cs[..0] == [];
    } else {
      FlattenPrefix(segs, whole, k - 1);
      assert whole[..segs[k - 1].end] == whole[..segs[k - 2].end] + whole[segs[k - 1].begin..segs[k - 1].end];
    }
  }

  /**
   * The parallel map is the sequential one: the routines' pieces, appended in
   * any order and cleaned up, give back `whole`.
   */
  lemma ParallelIsSequential<T>(segs: seq<Segment>, whole: seq<T>, arrival: seq<Piece<T>>)
    requires Partition(segs, |whole|)
    requires multiset(arrival) == multiset(Pieces(segs, whole))
    ensures Cleanup(arrival) == whole
  {
    var ps := Pieces(segs, whole);
    assert StrictlySorted(ps);
    CleanupAnyOrder(arrival, ps);
    FlattenPrefix(segs, whole, |segs|);
    assert Contents(ps)[..|segs|] == Contents(ps);
  }

  /** The pieces of the routines that returned: a routine that raised appends nothing. */
  function Collected<T>(outcomes: seq<(nat, Option<seq<T>>)>): (r: seq<Piece<T>>)
    ensures |r| <= |outcomes|
    ensures (forall t :: 0 <= t < |outcomes| ==> outcomes[t].1.Some?) ==>
      |r| == |outcomes| && forall t :: 0 <= t < |r| ==> r[t] == (outcomes[t].0, outcomes[t].1.value)
    ensures (forall t :: 0 <= t < |outcomes| ==> outcomes[t].1.None?) ==> r == []
  {
    if outcomes == [] then []
    else
      var last := outcomes[|outcomes| - 1];
      var rest := Collected(outcomes[..|outcomes| - 1]);
      if last.1.Some? then rest + [(last.0, last.1.value)] else rest
  }

  /**
   * When every routine returns its piece of `whole`, the collected pieces,
   * appended in any order and cleaned up, give back `whole`.
   */
  lemma {:induction false} CollectedIsSequential<T>(segs: seq<Segment>, whole: seq<T>, outcomes: seq<(nat, Option<seq<T>>)>, arrival: seq<Piece<T>>)
    requires Partition(segs, |whole|) && |outcomes| == |segs|
    requires forall t :: 0 <= t < |segs| ==> outcomes[t] == (t, Some(whole[segs[t].begin..segs[t].end]))
    requires multiset(arrival) == multiset(Collected(outcomes))
    ensures Cleanup(arrival) == whole
  {
    assert Collected(outcomes) == Pieces(segs, whole);
    ParallelIsSequential(segs, whole, arrival);
  }

  // ---------------------------------------------------------------------------
  // Block functions

  /** Every block of `data` holds `n` words. */
  ghost predicate Shaped(data: seq<Block>, n: nat) {
    forall i :: 0 <= i < |data| ==> |data[i]| == n
  }

  /** The block function maps blocks of `n` words to blocks of `n` words. */
  ghost predicate KeepsLength<K>(f: (Block, K) -> Block, key: K, n: nat) {
    forall x: Block :: |x| == n ==> |f(x, key)| == n
  }

  /** Decryption undoes encryption on blocks of `n` words. */
  ghost predicate Inverts<K>(enc: (Block, K) -> Block, dec: (Block, K) -> Block, key: K, n: nat) {
    && KeepsLength(enc, key, n)
    && KeepsLength(dec, key, n)
    && forall x: Block :: |x| == n ==> dec(enc(x, key), key) == x
  }

  // ---------------------------------------------------------------------------
  // ECB

  /** `_ECB(block_fn, data_blocks, key)`: the block function applied to every block on its own. */
  function Ecb<K>(blockFn: (Block, K) -> Block, data: seq<Block>, key: K): (r: seq<Block>)
    ensures |r| == |data|
  {
    seq(|data|, i requires 0 <= i < |data| => blockFn(data[i], key))
  }

  /** The routine of `_ECB` for one segment. */
  function EcbRoutine<K>(blockFn: (Block, K) -> Block, data: seq<Block>, key: K, seg: Segment): (r: seq<Block>)
    requires seg.begin <= seg.end <= |data|
    ensures |r| == seg.end - seg.begin
  {
    seq(seg.end - seg.begin, k requires 0 <= k < seg.end - seg.begin => blockFn(data[seg.begin + k], key))
  }

  /** The pieces the `_ECB` threads append, in tag order. */
  function EcbPieces<K>(blockFn: (Block, K) -> Block, data: seq<Block>, key: K, threadCount: nat): (r: seq<Piece<Block>>)
    requires threadCount >= 1
  {
    var segs := Segmentize(|data|, threadCount, 0);
    seq(|segs|, t requires 0 <= t < |segs| => (segs[t].tag, EcbRoutine(blockFn, data, key, segs[t])))
  }

  /** The threads of `_ECB`, finishing in any order, compute the sequential ECB. */
  lemma EcbParallel<K>(blockFn: (Block, K) -> Block, data: seq<Block>, key: K, threadCount: nat, arrival: seq<Piece<Block>>)
    requires threadCount >= 1
    requires multiset(arrival) == multiset(EcbPieces(blockFn, data, key, threadCount))
    ensures Cleanup(arrival) == Ecb(blockFn, data, key)
  {
    var segs := Segmentize(|data|, threadCount, 0);
    var whole := Ecb(blockFn, data, key);
    forall t | 0 <= t < |segs|
      ensures EcbPieces(blockFn, data, key, threadCount)[t] == Pieces(segs, whole)[t]
    {
      assert EcbRoutine(blockFn, data, key, segs[t]) == whole[segs[t].begin..segs[t].end];
    }
    assert EcbPieces(blockFn, data, key, threadCount) == Pieces(segs, whole);
    ParallelIsSequential(segs, whole, arrival);
  }

  /** ECB decryption undoes ECB encryption. */
  lemma EcbRoundTrip<K>(enc: (Block, K) -> Block, dec: (Block, K) -> Block, data: seq<Block>, key: K, n: nat)
    requires Inverts(enc, dec, key, n) && Shaped(data, n)
    ensures Ecb(dec, Ecb(enc, data, key), key) == data
  {
  }

  // ---------------------------------------------------------------------------
  // CBC

  /** The block chained into block `i`: the IV for the first, the block before otherwise. */
  function Chained(iv: Block, blocks: seq<Block>, i: nat): Block
    requires i <= |blocks|
  {
    if i == 0 then iv else blocks[i - 1]
  }

  /** `_CBC_encrypt`: each plaintext block is xor-ed with the previous ciphertext block (the IV first), then encrypted. */
  function CbcEncrypt<K>(enc: (Block, K) -> Block, data: seq<Block>, key: K, iv: Block): (r: seq<Block>)
    requires KeepsLength(enc, key, |iv|) && Shaped(data, |iv|)
    ensures |r| == |data| && Shaped(r, |iv|)
    ensures |r| > 0 ==> r[0] == enc(Xor(iv, data[0]), key)
    ensures forall i, j :: 0 <= i && j == i + 1 < |r| ==> r[j] == enc(Xor(r[i], data[j]), key)
    decreases |data|
  {
    if data == [] then []
    else
      var first := enc(Xor(iv, data[0]), key);
      [first] + CbcEncrypt(enc, data[1..], key, first)
  }

  /** `_CBC_decrypt`: each block decrypted and xor-ed with the ciphertext block before it (the IV first). */
  function CbcDecrypt<K>(dec: (Block, K) -> Block, data: seq<Block>, key: K, iv: Block): (r: seq<Block>)
    requires KeepsLength(dec, key, |iv|) && Shaped(data, |iv|)
    ensures |r| == |data|
  {
    seq(|data|, i requires 0 <= i < |data| => Xor(dec(data[i], key), Chained(iv, data, i)))
  }

  /** The indices `lo`, ..., `hi - 1` of Python's `range(lo, hi)`, however the two compare. */
  function RangeLength(lo: int, hi: int): nat {
    if lo < hi then hi - lo else 0
  }

  /**
   * The routine of `_CBC_decrypt` for one segment. The routine tagged 0 first
   * handles block 0 against the IV; when there is no block 0 it raises, and
   * the thread ends without appending anything.
   */
  function CbcRoutine<K>(dec: (Block, K) -> Block, data: seq<Block>, key: K, iv: Block, seg: Segment): (r: Option<seq<Block>>)
    requires KeepsLength(dec, key, |iv|) && Shaped(data, |iv|)
    requires seg.begin <= seg.end <= |data| && (seg.tag == 0 <==> seg.begin == 0)
    ensures r.None? <==> seg.tag == 0 && data == []
  {
    if seg.tag == 0 then
      if data == [] then None
      else
        var first := [Xor(dec(data[0], key), iv)];
        var begin := seg.begin + 1;
        Some(first + seq(RangeLength(begin, seg.end), k requires 0 <= k < RangeLength(begin, seg.end) =>
          Xor(dec(data[begin + k], key), data[begin + k - 1])))
    else
      Some(seq(seg.end - seg.begin, k requires 0 <= k < seg.end - seg.begin =>
        Xor(dec(data[seg.begin + k], key), data[seg.begin + k - 1])))
  }

  /** Every segment `segmentize` makes has tag 0 exactly when it starts at 0. */
  lemma FirstSegmentStartsAtZero(size: nat, threadCount: nat, segSize: nat)
    requires threadCount >= 1
    ensures var segs := Segmentize(size, threadCount, segSize);
      forall t :: 0 <= t < |segs| ==> (segs[t].tag == 0 <==> segs[t].begin == 0)
    ensures var segs := Segmentize(size, threadCount, segSize);
      size > 0 ==> forall t :: 0 <= t < |segs| ==> segs[t].begin < segs[t].end
  {
    var segs := Segmentize(size, threadCount, segSize);
    if !SingleSegment(size, threadCount, segSize) {
      forall t | 0 < t < |segs|
        ensures segs[t].begin > 0
      {
        assert segs[t].begin >= segs[t - 1].end > segs[t - 1].begin;
      }
    }
  }

  /** What the `_CBC_decrypt` threads report: each segment's tag and outcome. */
  function CbcOutcomes<K>(dec: (Block, K) -> Block, data: seq<Block>, key: K, iv: Block, threadCount: nat)
    : (r: seq<(nat, Option<seq<Block>>)>)
    requires threadCount >= 1 && KeepsLength(dec, key, |iv|) && Shaped(data, |iv|)
  {
    var segs := Segmentize(|data|, threadCount, 0);
    FirstSegmentStartsAtZero(|data|, threadCount, 0);
    seq(|segs|, t requires 0 <= t < |segs| => (segs[t].tag, CbcRoutine(dec, data, key, iv, segs[t])))
  }

  /**
   * The threads of `_CBC_decrypt`, finishing in any order, compute the
   * sequential CBC decryption; with no data the one thread raises and the
   * result is empty.
   */
  lemma CbcParallel<K>(dec: (Block, K) -> Block, data: seq<Block>, key: K, iv: Block, threadCount: nat, arrival: seq<Piece<Block>>)
    requires threadCount >= 1 && KeepsLength(dec, key, |iv|) && Shaped(data, |iv|)
    requires multiset(arrival) == multiset(Collected(CbcOutcomes(dec, data, key, iv, threadCount)))
    ensures Cleanup(arrival) == CbcDecrypt(dec, data, key, iv)
  {
    var segs := Segmentize(|data|, threadCount, 0);
    var outcomes := CbcOutcomes(dec, data, key, iv, threadCount);
    var whole := CbcDecrypt(dec, data, key, iv);
    if data == [] {
      assert arrival == [] by { assert |multiset(arrival)| == 0; }
    } else {
      FirstSegmentStartsAtZero(|data|, threadCount, 0);
      forall t | 0 <= t < |segs|
        ensures outcomes[t] == (t, Some(whole[segs[t].begin..segs[t].end]))
      {
        CbcRoutinePiece(dec, data, key, iv, segs[t]);
      }
      CollectedIsSequential(segs, whole, outcomes, arrival);
    }
  }

  /** Each routine of `_CBC_decrypt` computes its stretch of the sequential decryption. */
  lemma CbcRoutinePiece<K>(dec: (Block, K) -> Block, data: seq<Block>, key: K, iv: Block, seg: Segment)
    requires KeepsLength(dec, key, |iv|) && Shaped(data, |iv|) && data != []
    requires seg.begin < seg.end <= |data| && (seg.tag == 0 <==> seg.begin == 0)
    ensures CbcRoutine(dec, data, key, iv, seg) == Some(CbcDecrypt(dec, data, key, iv)[seg.begin..seg.end])
  {
    var whole := CbcDecrypt(dec, data, key, iv);
    var piece := CbcRoutine(dec, data, key, iv, seg).value;
    assert |piece| == seg.end - seg.begin;
    forall k | 0 <= k < |piece|
      ensures piece[k] == whole[seg.begin + k]
    {
    }
    assert piece == whole[seg.begin..seg.end];
  }

  /** CBC decryption undoes CBC encryption whenever the block decryption undoes the block encryption. */
  lemma CbcRoundTrip<K>(enc: (Block, K) -> Block, dec: (Block, K) -> Block, data: seq<Block>, key: K, iv: Block)
    requires Inverts(enc, dec, key, |iv|) && Shaped(data, |iv|)
    ensures CbcDecrypt(dec, CbcEncrypt(enc, data, key, iv), key, iv) == data
  {
    var c := CbcEncrypt(enc, data, key, iv);
    forall i | 0 <= i < |data|
      ensures CbcDecrypt(dec, c, key, iv)[i] == data[i]
    {
      CbcRoundTripAt(enc, dec, data, key, iv, i);
    }
  }

  /** Block `i` of the round trip. */
  lemma CbcRoundTripAt<K>(enc: (Block, K) -> Block, dec: (Block, K) -> Block, data: seq<Block>, key: K, iv: Block, i: nat)
    requires Inverts(enc, dec, key, |iv|) && Shaped(data, |iv|) && i < |data|
    ensures CbcDecrypt(dec, CbcEncrypt(enc, data, key, iv), key, iv)[i] == data[i]
  {
    var c := CbcEncrypt(enc, data, key, iv);
    var prev := Chained(iv, c, i);
    assert c[i] == enc(Xor(prev, data[i]), key) by {
      if i > 0 {
        assert c[i] == enc(Xor(c[i - 1], data[i]), key);
      }
    }
    CbcBlockRoundTrip(enc, dec, key, prev, data[i]);
  }

  /** One block: decrypting and xor-ing the chained block back out recovers the plaintext block. */
  lemma CbcBlockRoundTrip<K>(enc: (Block, K) -> Block, dec: (Block, K) -> Block, key: K, prev: Block, p: Block)
    requires Inverts(enc, dec, key, |prev|) && |p| == |prev|
    ensures Xor(dec(enc(Xor(prev, p), key), key), prev) == p
  {
    assert dec(enc(Xor(prev, p), key), key) == Xor(prev, p);
    XorSymmetric(prev, p);
    XorSelfInverse(p, prev);
  }

  // ---------------------------------------------------------------------------
  // PCBC

  /**
   * `_PCBC_encrypt`: each plaintext block is xor-ed with `prev` and
   * encrypted; `prev` becomes the plaintext block xor the ciphertext block.
   */
  function PcbcEncrypt<K>(enc: (Block, K) -> Block, data: seq<Block>, key: K, prev: Block): (r: seq<Block>)
    requires KeepsLength(enc, key, |prev|) && Shaped(data, |prev|)
    ensures |r| == |data| && Shaped(r, |prev|)
    decreases |data|
  {
    if data == [] then []
    else
      var tr := enc(Xor(data[0], prev), key);
      [tr] + PcbcEncrypt(enc, data[1..], key, Xor(data[0], tr))
  }

  /**
   * `_PCBC_decrypt`: each ciphertext block is decrypted and xor-ed with
   * `prev`; `prev` becomes the ciphertext block xor the plaintext block.
   */
  function PcbcDecrypt<K>(dec: (Block, K) -> Block, data: seq<Block>, key: K, prev: Block): (r: seq<Block>)
    requires KeepsLength(dec, key, |prev|) && Shaped(data, |prev|)
    ensures |r| == |data| && Shaped(r, |prev|)
    decreases |data|
  {
    if data == [] then []
    else
      var tr := Xor(dec(data[0], key), prev);
      [tr] + PcbcDecrypt(dec, data[1..], key, Xor(data[0], tr))
  }

  /** PCBC decryption undoes PCBC encryption whenever the block decryption undoes the block encryption. */
  lemma {:induction false} PcbcRoundTrip<K>(enc: (Block, K) -> Block, dec: (Block, K) -> Block, data: seq<Block>, key: K, prev: Block)
    requires Inverts(enc, dec, key, |prev|) && Shaped(data, |prev|)
    ensures PcbcDecrypt(dec, PcbcEncrypt(enc, data, key, prev), key, prev) == data
    decreases |data|
  {
    if data != [] {
      var tr := enc(Xor(data[0], prev), key);
      var next := Xor(data[0], tr);
      var rest := PcbcEncrypt(enc, data[1..], key, next);
      assert PcbcEncrypt(enc, data, key, prev) == [tr] + rest;
      var plain := Xor(dec(tr, key), prev);
      assert plain == data[0] by {
        XorSelfInverse(data[0], prev);
      }
      assert Xor(tr, plain) == next by {
        XorSymmetric(data[0], tr);
      }
      PcbcDecryptStep(dec, tr, rest, key, prev);
      PcbcRoundTrip(enc, dec, data[1..], key, next);
      assert data == [data[0]] + data[1..];
    }
  }

  /** Decryption of a block followed by more blocks: the first plaintext block, then the rest under the new chaining value. */
  lemma PcbcDecryptStep<K>(dec: (Block, K) -> Block, first: Block, rest: seq<Block>, key: K, prev: Block)
    requires KeepsLength(dec, key, |prev|) && |first| == |prev| && Shaped(rest, |prev|)
    ensures Shaped([first] + rest, |prev|)
    ensures var plain := Xor(dec(first, key), prev);
      PcbcDecrypt(dec, [first] + rest, key, prev) == [plain] + PcbcDecrypt(dec, rest, key, Xor(first, plain))
  {
    var data := [first] + rest;
    assert data[0] == first && data[1..] == rest;
  }

  // ---------------------------------------------------------------------------
  // CFB

  /** `_CFB_encrypt`: the previous ciphertext block (the IV first) is encrypted and xor-ed onto the plaintext block. */
  function CfbEncrypt<K>(enc: (Block, K) -> Block, data: seq<Block>, key: K, iv: Block): (r: seq<Block>)
    requires KeepsLength(enc, key, |iv|) && Shaped(data, |iv|)
    ensures |r| == |data| && Shaped(r, |iv|)
    ensures |r| > 0 ==> r[0] == Xor(enc(iv, key), data[0])
    ensures forall i, j :: 0 <= i && j == i + 1 < |r| ==> r[j] == Xor(enc(r[i], key), data[j])
    decreases |data|
  {
    if data == [] then []
    else
      var first := Xor(enc(iv, key), data[0]);
      [first] + CfbEncrypt(enc, data[1..], key, first)
  }

  /** `_CFB_decrypt`: the previous ciphertext block (the IV first) is encrypted, never decrypted, and xor-ed onto the block. */
  function CfbDecrypt<K>(enc: (Block, K) -> Block, data: seq<Block>, key: K, iv: Block): (r: seq<Block>)
    requires KeepsLength(enc, key, |iv|) && Shaped(data, |iv|)
    ensures |r| == |data|
  {
    seq(|data|, i requires 0 <= i < |data| => Xor(enc(Chained(iv, data, i), key), data[i]))
  }

  /** The routine of `_CFB_decrypt` for one segment; as in CBC the routine tagged 0 raises on empty data. */
  function CfbRoutine<K>(enc: (Block, K) -> Block, data: seq<Block>, key: K, iv: Block, seg: Segment): (r: Option<seq<Block>>)
    requires KeepsLength(enc, key, |iv|) && Shaped(data, |iv|)
    requires seg.begin <= seg.end <= |data| && (seg.tag == 0 <==> seg.begin == 0)
    ensures r.None? <==> seg.tag == 0 && data == []
  {
    if seg.tag == 0 then
      if data == [] then None
      else
        var first := [Xor(enc(iv, key), data[0])];
        var begin := seg.begin + 1;
        Some(first + seq(RangeLength(begin, seg.end), k requires 0 <= k < RangeLength(begin, seg.end) =>
          Xor(enc(data[begin + k - 1], key), data[begin + k])))
    else
      Some(seq(seg.end - seg.begin, k requires 0 <= k < seg.end - seg.begin =>
        Xor(enc(data[seg.begin + k - 1], key), data[seg.begin + k])))
  }

  /** What the `_CFB_decrypt` threads report: each segment's tag and outcome. */
  function CfbOutcomes<K>(enc: (Block, K) -> Block, data: seq<Block>, key: K, iv: Block, threadCount: nat)
    : (r: seq<(nat, Option<seq<Block>>)>)
    requires threadCount >= 1 && KeepsLength(enc, key, |iv|) && Shaped(data, |iv|)
  {
    var segs := Segmentize(|data|, threadCount, 0);
    FirstSegmentStartsAtZero(|data|, threadCount, 0);
    seq(|segs|, t requires 0 <= t < |segs| => (segs[t].tag, CfbRoutine(enc, data, key, iv, segs[t])))
  }

  /** The threads of `_CFB_decrypt`, finishing in any order, compute the sequential CFB decryption. */
  lemma CfbParallel<K>(enc: (Block, K) -> Block, data: seq<Block>, key: K, iv: Block, threadCount: nat, arrival: seq<Piece<Block>>)
    requires threadCount >= 1 && KeepsLength(enc, key, |iv|) && Shaped(data, |iv|)
    requires multiset(arrival) == multiset(Collected(CfbOutcomes(enc, data, key, iv, threadCount)))
    ensures Cleanup(arrival) == CfbDecrypt(enc, data, key, iv)
  {
    var segs := Segmentize(|data|, threadCount, 0);
    var outcomes := CfbOutcomes(enc, data, key, iv, threadCount);
    var whole := CfbDecrypt(enc, data, key, iv);
    if data == [] {
      assert arrival == [] by { assert |multiset(arrival)| == 0; }
    } else {
      FirstSegmentStartsAtZero(|data|, threadCount, 0);
      forall t | 0 <= t < |segs|
        ensures outcomes[t] == (t, Some(whole[segs[t].begin..segs[t].end]))
      {
        CfbRoutinePiece(enc, data, key, iv, segs[t]);
      }
      CollectedIsSequential(segs, whole, outcomes, arrival);
    }
  }

  /** Each routine of `_CFB_decrypt` computes its stretch of the sequential decryption. */
  lemma CfbRoutinePiece<K>(enc: (Block, K) -> Block, data: seq<Block>, key: K, iv: Block, seg: Segment)
    requires KeepsLength(enc, key, |iv|) && Shaped(data, |iv|) && data != []
    requires seg.begin < seg.end <= |data| && (seg.tag == 0 <==> seg.begin == 0)
    ensures CfbRoutine(enc, data, key, iv, seg) == Some(CfbDecrypt(enc, data, key, iv)[seg.begin..seg.end])
  {
    var whole := CfbDecrypt(enc, data, key, iv);
    var piece := CfbRoutine(enc, data, key, iv, seg).value;
    assert |piece| == seg.end - seg.begin;
    forall k | 0 <= k < |piece|
      ensures piece[k] == whole[seg.begin + k]
    {
      var i := seg.begin + k;
      if seg.tag == 0 && k == 0 {
        assert piece[k] == Xor(enc(iv, key), data[0]);
      } else if seg.tag == 0 {
        assert piece[k] == Xor(enc(data[k - 1], key), data[k]);
      } else {
        assert piece[k] == Xor(enc(data[i - 1], key), data[i]);
      }
      assert whole[i] == Xor(enc(Chained(iv, data, i), key), data[i]);
    }
    assert piece == whole[seg.begin..seg.end];
  }

  /** CFB decryption undoes CFB encryption for any block function that keeps the block length. */
  lemma CfbRoundTrip<K>(enc: (Block, K) -> Block, data: seq<Block>, key: K, iv: Block)
    requires KeepsLength(enc, key, |iv|) && Shaped(data, |iv|)
    ensures CfbDecrypt(enc, CfbEncrypt(enc, data, key, iv), key, iv) == data
  {
    var c := CfbEncrypt(enc, data, key, iv);
    forall i | 0 <= i < |data|
      ensures CfbDecrypt(enc, c, key, iv)[i] == data[i]
    {
      CfbRoundTripAt(enc, data, key, iv, i);
    }
  }

  /** Block `i` of the round trip: the same mask is xor-ed on and off. */
  lemma CfbRoundTripAt<K>(enc: (Block, K) -> Block, data: seq<Block>, key: K, iv: Block, i: nat)
    requires KeepsLength(enc, key, |iv|) && Shaped(data, |iv|) && i < |data|
    ensures CfbDecrypt(enc, CfbEncrypt(enc, data, key, iv), key, iv)[i] == data[i]
  {
    var c := CfbEncrypt(enc, data, key, iv);
    var mask := enc(Chained(iv, c, i), key);
    assert c[i] == Xor(mask, data[i]) by {
      if i > 0 {
        assert c[i] == Xor(enc(c[i - 1], key), data[i]);
      }
    }
    XorCancelsLeft(mask, data[i]);
  }

  // ---------------------------------------------------------------------------
  // blockify

  /** `data += b"\0" * (size - len(data) % size)` when the length is not a multiple of `size`. */
  function Pad(data: seq<Byte>, size: nat): (r: seq<Byte>)
    requires size >= 1
    ensures |r| % size == 0 && |data| <= |r| < |data| + size
    ensures r[..|data|] == data && forall i :: |data| <= i < |r| ==> r[i] == 0
  {
    if |data| % size != 0 then
      PaddedLength(|data|, size);
      data + seq(size - |data| % size, _ => 0)
    else data
  }

  /** Topping a length up by `size - length % size` reaches the next multiple of `size`. */
  lemma PaddedLength(length: nat, size: nat)
    requires size >= 1 && length % size != 0
    ensures (length + (size - length % size)) % size == 0
  {
    var q := length / size;
    assert length == q * size + length % size;
    assert length + (size - length % size) == (q + 1) * size;
    MultipleMod(q + 1, size);
  }

  /** A multiple of `size` leaves no remainder. */
  lemma MultipleMod(k: nat, size: nat)
    requires size >= 1
    ensures (k * size) % size == 0
  {
    var x := k * size;
    var q := x / size;
    assert x == size * q + x % size;
    assert size * (k - q) == x % size;
    if k - q >= 1 {
      MulMonotone(1, k - q, size);
    } else if k - q < 0 {
      MulMonotone(1, q - k, size);
    }
  }

  /** The `i`-th chunk of `size` bytes. */
  function Chunk(padded: seq<Byte>, size: nat, i: nat): (r: seq<Byte>)
    requires size >= 1 && (i + 1) * size <= |padded|
    ensures |r| == size
  {
    padded[i * size..(i + 1) * size]
  }

  /**
   * `blockify(data, block_format, dtype)`: the data padded with zero bytes to
   * whole blocks of `size` bytes, each chunk unpacked into a block. `size` is
   * `struct.calcsize(block_format)`; an empty format would make Python fail on
   * `% 0`, so callers give a positive size.
   */
  function Blockify<T>(data: seq<Byte>, size: nat, unpack: seq<Byte> -> T): (r: seq<T>)
    requires size >= 1
    ensures |r| * size == |Pad(data, size)| && (|r| - 1) * size < |data| <= |r| * size
  {
    var padded := Pad(data, size);
    ChunksFit(|padded|, size);
    Unpack(padded, size, |padded| / size, unpack)
  }

  /** The `count` chunks of a buffer of `count` whole chunks, each unpacked. */
  function Unpack<T>(padded: seq<Byte>, size: nat, count: nat, unpack: seq<Byte> -> T): (r: seq<T>)
    requires size >= 1 && |padded| == count * size
    ensures |r| == count
    ensures forall i :: 0 <= i < count ==> (i + 1) * size <= |padded| && r[i] == unpack(Chunk(padded, size, i))
  {
    seq(count, i requires 0 <= i < count =>
      MulMonotone(i + 1, count, size);
      unpack(Chunk(padded, size, i)))
  }

  /** Whole chunks fit in a padded buffer. */
  lemma ChunksFit(length: nat, size: nat)
    requires size >= 1 && length % size == 0
    ensures (length / size) * size == length
  {
  }

  lemma MulMonotone(a: nat, b: nat, c: nat)
    requires a <= b
    ensures a * c <= b * c
  {
  }

  /** The routine of `blockify` for one segment: the chunks of blocks `begin` to `end`, cut out of that stretch. */
  function BlockifyRoutine<T>(padded: seq<Byte>, size: nat, unpack: seq<Byte> -> T, seg: Segment): (r: seq<T>)
    requires size >= 1 && seg.begin <= seg.end && seg.end * size <= |padded|
    ensures |r| == seg.end - seg.begin
  {
    MulMonotone(seg.begin, seg.end, size);
    var segment := padded[seg.begin * size..seg.end * size];
    seq(seg.end - seg.begin, i requires 0 <= i < seg.end - seg.begin =>
      StretchChunk(seg.begin, seg.end, size, i);
      unpack(segment[i * size..(i + 1) * size]))
  }

  /** Chunk `i` of the stretch starting at block `begin` lies inside it. */
  lemma StretchChunk(begin: nat, end: nat, size: nat, i: nat)
    requires begin + i < end
    ensures (i + 1) * size <= (end - begin) * size
    ensures begin * size + i * size == (begin + i) * size
    ensures begin * size + (i + 1) * size == (begin + i + 1) * size
  {
    MulMonotone(i + 1, end - begin, size);
  }

  /** Each routine of `blockify` unpacks its stretch of the chunks. */
  lemma BlockifyRoutinePiece<T>(padded: seq<Byte>, size: nat, count: nat, unpack: seq<Byte> -> T, seg: Segment)
    requires size >= 1 && |padded| == count * size && seg.begin <= seg.end <= count
    requires seg.end * size <= |padded|
    ensures BlockifyRoutine(padded, size, unpack, seg) == Unpack(padded, size, count, unpack)[seg.begin..seg.end]
  {
    var whole := Unpack(padded, size, count, unpack);
    var piece := BlockifyRoutine(padded, size, unpack, seg);
    forall i | 0 <= i < seg.end - seg.begin
      ensures piece[i] == whole[seg.begin + i]
    {
      RoutineElement(padded, size, unpack, seg, i);
    }
  }

  /** Block `i` of a routine is chunk `begin + i` of the buffer, unpacked. */
  lemma RoutineElement<T>(padded: seq<Byte>, size: nat, unpack: seq<Byte> -> T, seg: Segment, i: nat)
    requires size >= 1 && seg.begin + i < seg.end && seg.end * size <= |padded|
    ensures (seg.begin + i + 1) * size <= |padded|
    ensures BlockifyRoutine(padded, size, unpack, seg)[i] == unpack(Chunk(padded, size, seg.begin + i))
  {
    ChunkOfStretch(padded, size, seg.begin, seg.end, i);
  }

  /** Chunk `i` of the stretch of blocks `begin` to `end` is chunk `begin + i` of the whole buffer. */
  lemma ChunkOfStretch(padded: seq<Byte>, size: nat, begin: nat, end: nat, i: nat)
    requires size >= 1 && begin + i < end && end * size <= |padded|
    ensures begin * size <= end * size && i * size <= (i + 1) * size <= end * size - begin * size
    ensures (begin + i + 1) * size <= |padded|
    ensures padded[begin * size..end * size][i * size..(i + 1) * size] == Chunk(padded, size, begin + i)
  {
    StretchChunk(begin, end, size, i);
    MulMonotone(begin, end, size);
    MulMonotone(i, i + 1, size);
    MulMonotone(begin + i + 1, end, size);
    SliceOfSlice(padded, begin * size, end * size, i * size, (i + 1) * size);
  }

  lemma SliceOfSlice<T>(s: seq<T>, lo: nat, hi: nat, a: nat, b: nat)
    requires lo <= hi <= |s| && a <= b <= hi - lo
    ensures s[lo..hi][a..b] == s[lo + a..lo + b]
  {
    forall k | 0 <= k < b - a
      ensures s[lo..hi][a..b][k] == s[lo + a..lo + b][k]
    {
    }
  }

  /** The pieces the `blockify` threads append, in tag order. */
  function BlockifyPieces<T>(data: seq<Byte>, size: nat, unpack: seq<Byte> -> T, threadCount: nat): (r: seq<Piece<T>>)
    requires size >= 1 && threadCount >= 1
  {
    var padded := Pad(data, size);
    var segs := Segmentize(|padded| / size, threadCount, size);
    ChunksFit(|padded|, size);
    assert forall t :: 0 <= t < |segs| ==> segs[t].end * size <= |padded| by {
      forall t | 0 <= t < |segs|
        ensures segs[t].end * size <= |padded|
      {
        MulMonotone(segs[t].end, |padded| / size, size);
      }
    }
    seq(|segs|, t requires 0 <= t < |segs| => (segs[t].tag, BlockifyRoutine(padded, size, unpack, segs[t])))
  }

  /** The threads of `blockify`, finishing in any order, unpack every chunk in order. */
  lemma BlockifyParallel<T>(data: seq<Byte>, size: nat, unpack: seq<Byte> -> T, threadCount: nat, arrival: seq<Piece<T>>)
    requires size >= 1 && threadCount >= 1
    requires multiset(arrival) == multiset(BlockifyPieces(data, size, unpack, threadCount))
    ensures Cleanup(arrival) == Blockify(data, size, unpack)
  {
    var padded := Pad(data, size);
    var whole := Blockify(data, size, unpack);
    var segs := Segmentize(|padded| / size, threadCount, size);
    ChunksFit(|padded|, size);
    forall t | 0 <= t < |segs|
      ensures BlockifyPieces(data, size, unpack, threadCount)[t] == Pieces(segs, whole)[t]
    {
      MulMonotone(segs[t].end, |padded| / size, size);
      BlockifyRoutinePiece(padded, size, |padded| / size, unpack, segs[t]);
    }
    assert BlockifyPieces(data, size, unpack, threadCount) == Pieces(segs, whole);
    ParallelIsSequential(segs, whole, arrival);
  }

  // ---------------------------------------------------------------------------
  // rc6 as the block function

  /**
   * `rc6.encrypt` as the modes call it: the first two words of the block are
   * encrypted and returned as a two-word block, so the words past the second
   * are dropped. Python raises on a shorter block or a table of fewer than 40
   * words; the model hands such a block back unchanged.
   */
  function Rc6Encrypt(block: Block, s: seq<Word>): (r: Block)
    ensures |block| >= 2 && |s| >= 40 ==> |r| == 2
    ensures |block| < 2 || |s| < 40 ==> r == block
  {
    if |block| >= 2 && |s| >= 40 then ListOf(Rc6.Encrypt(PairOf(block), s)) else block
  }

  /** `rc6.decrypt` as the modes call it, on the first two words in the same way. */
  function Rc6Decrypt(block: Block, s: seq<Word>): (r: Block)
    ensures |block| >= 2 && |s| >= 40 ==> |r| == 2
    ensures |block| < 2 || |s| < 40 ==> r == block
  {
    if |block| >= 2 && |s| >= 40 then ListOf(Rc6.Decrypt(PairOf(block), s)) else block
  }

  /** The words A and B: `block[0]` and `block[1]`. */
  function PairOf(block: Block): (r: Rc6.Block)
    requires |block| >= 2
    ensures |block| == 2 ==> ListOf(r) == block
  {
    (block[0], block[1])
  }

  /** The block `[A, B]`. */
  function ListOf(p: Rc6.Block): (r: Block)
    ensures |r| == 2 && r[0] == p.0 && r[1] == p.1
  {
    [p.0, p.1]
  }

  /** With a table of at least 40 words, `rc6.decrypt` undoes `rc6.encrypt` on two-word blocks. */
  lemma Rc6Inverts(s: seq<Word>)
    requires |s| >= 40
    ensures Inverts(Rc6Encrypt, Rc6Decrypt, s, 2)
  {
    forall x: Block | |x| == 2
      ensures Rc6Decrypt(Rc6Encrypt(x, s), s) == x
    {
      Rc6BlockRoundTrip(x, s);
    }
  }

  /** `rc6.decrypt` undoes `rc6.encrypt` on one two-word block. */
  lemma Rc6BlockRoundTrip(x: Block, s: seq<Word>)
    requires |x| == 2 && |s| >= 40
    ensures Rc6Decrypt(Rc6Encrypt(x, s), s) == x
  {
    Rc6.DecryptUndoesEncrypt(PairOf(x), s);
  }

  /** Every mode round-trips with rc6 and a table from `expand_key`. */
  lemma Rc6ModesRoundTrip(key: seq<Byte>, data: seq<Block>, iv: Block)
    requires Rc6.ExpandKey(key).Success? && |iv| == 2 && Shaped(data, 2)
    ensures var s := Rc6.ExpandKey(key).value;
      && Ecb(Rc6Decrypt, Ecb(Rc6Encrypt, data, s), s) == data
      && CbcDecrypt(Rc6Decrypt, CbcEncrypt(Rc6Encrypt, data, s, iv), s, iv) == data
      && PcbcDecrypt(Rc6Decrypt, PcbcEncrypt(Rc6Encrypt, data, s, iv), s, iv) == data
      && CfbDecrypt(Rc6Encrypt, CfbEncrypt(Rc6Encrypt, data, s, iv), s, iv) == data
  {
    var s := Rc6.ExpandKey(key).value;
    Rc6EcbRoundTrip(data, s);
    Rc6CbcRoundTrip(data, s, iv);
    Rc6PcbcRoundTrip(data, s, iv);
    Rc6CfbRoundTrip(data, s, iv);
  }

  lemma Rc6EcbRoundTrip(data: seq<Block>, s: seq<Word>)
    requires |s| >= 40 && Shaped(data, 2)
    ensures Ecb(Rc6Decrypt, Ecb(Rc6Encrypt, data, s), s) == data
  {
    Rc6Inverts(s);
    EcbRoundTrip(Rc6Encrypt, Rc6Decrypt, data, s, 2);
  }

  lemma Rc6CbcRoundTrip(data: seq<Block>, s: seq<Word>, iv: Block)
    requires |s| >= 40 && |iv| == 2 && Shaped(data, 2)
    ensures CbcDecrypt(Rc6Decrypt, CbcEncrypt(Rc6Encrypt, data, s, iv), s, iv) == data
  {
    Rc6Inverts(s);
    CbcRoundTrip(Rc6Encrypt, Rc6Decrypt, data, s, iv);
  }

  lemma Rc6PcbcRoundTrip(data: seq<Block>, s: seq<Word>, iv: Block)
    requires |s| >= 40 && |iv| == 2 && Shaped(data, 2)
    ensures PcbcDecrypt(Rc6Decrypt, PcbcEncrypt(Rc6Encrypt, data, s, iv), s, iv) == data
  {
    Rc6Inverts(s);
    PcbcRoundTrip(Rc6Encrypt, Rc6Decrypt, data, s, iv);
  }

  lemma Rc6CfbRoundTrip(data: seq<Block>, s: seq<Word>, iv: Block)
    requires |s| >= 40 && |iv| == 2 && Shaped(data, 2)
    ensures CfbDecrypt(Rc6Encrypt, CfbEncrypt(Rc6Encrypt, data, s, iv), s, iv) == data
  {
    Rc6Inverts(s);
    CfbRoundTrip(Rc6Encrypt, data, s, iv);
  }
}
