/**
 * rc6.py: a two-word block cipher in the style of RC5 (RFC 2040), with 20
 * rounds and a 42-word expanded key. Every word is a `Word`, and sums and
 * differences wrap modulo 2^32 as the numpy `uint32` arithmetic does.
 */
module Rc6 {
  import opened Wrappers
  import opened Util

  /** `r`: the number of rounds. */
  const Rounds: nat := 20

  /** `t = 2 (r + 1)`: the number of words in the expanded key. */
  const TableSize: nat := 2 * (Rounds + 1)

  /** `c`: the number of key words the mixing loop cycles through. */
  const KeyWords: nat := 4

  // ---------------------------------------------------------------------------
  // Key bytes to words

  /** `struct.unpack("I", ...)` of four bytes, in little-endian order. */
  function WordOf(b: seq<Byte>): Word
    requires |b| == 4
  {
    var x: int := b[0] as int + 0x100 * (b[1] as int) + 0x1_0000 * (b[2] as int) + 0x100_0000 * (b[3] as int);
    x
  }

  /** The four bytes `struct.pack("I", w)` would write. */
  function BytesOf(w: Word): (b: seq<Byte>)
    ensures |b| == 4
  {
    [w % 0x100, (w / 0x100) % 0x100, (w / 0x1_0000) % 0x100, w / 0x100_0000]
  }

  /** Unpacking is the inverse of packing, in both directions. */
  lemma WordBytesRoundTrip(w: Word, b: seq<Byte>)
    requires |b| == 4
    ensures WordOf(BytesOf(w)) == w
    ensures BytesOf(WordOf(b)) == b
  {
    PackUnpack(w);
    UnpackPack(b[0], b[1], b[2], b[3]);
    assert b == [b[0], b[1], b[2], b[3]];
  }

  lemma PackUnpack(w: Word)
    ensures WordOf(BytesOf(w)) == w
  {
    var q1, q2, q3 := w / 0x100, w / 0x1_0000, w / 0x100_0000;
    assert q2 == q1 / 0x100 && q3 == q2 / 0x100;
  }

  lemma UnpackPack(b0: Byte, b1: Byte, b2: Byte, b3: Byte)
    ensures BytesOf(WordOf([b0, b1, b2, b3])) == [b0, b1, b2, b3]
  {
    DigitsOf(b0, b1, b2, b3);
  }

  /** The base-256 digits of b0 + 256 b1 + 256^2 b2 + 256^3 b3 are the four bytes. */
  lemma DigitsOf(b0: Byte, b1: Byte, b2: Byte, b3: Byte)
    ensures var w := b0 + 0x100 * b1 + 0x1_0000 * b2 + 0x100_0000 * b3;
      w % 0x100 == b0 && (w / 0x100) % 0x100 == b1 && (w / 0x1_0000) % 0x100 == b2 && w / 0x100_0000 == b3
  {
    var w := b0 + 0x100 * b1 + 0x1_0000 * b2 + 0x100_0000 * b3;
    assert w / 0x100 == b1 + 0x100 * b2 + 0x1_0000 * b3;
    assert w / 0x1_0000 == b2 + 0x100 * b3;
    assert w / 0x100_0000 == b3;
  }

  /** `struct.unpack(str(len(key) // 4) + "I", key)`: fails unless the length is a multiple of 4. */
  function KeyWordsOf(key: seq<Byte>): (r: Result<seq<Word>, string>)
    ensures r.Success? <==> |key| % 4 == 0
    ensures r.Success? ==> |r.value| == |key| / 4
    ensures r.Success? ==> forall w :: 0 <= w < |r.value| ==> BytesOf(r.value[w]) == key[4 * w..4 * w + 4]
  {
    if |key| % 4 != 0 then Result<seq<Word>, string>.Failure("unpack requires a buffer of a multiple of 4 bytes")
    else
      var words := seq(|key| / 4, w requires 0 <= w < |key| / 4 => WordOf(key[4 * w..4 * w + 4]));
      assert forall w :: 0 <= w < |words| ==> BytesOf(words[w]) == key[4 * w..4 * w + 4] by {
        forall w | 0 <= w < |words|
          ensures BytesOf(words[w]) == key[4 * w..4 * w + 4]
        {
          WordBytesRoundTrip(0, key[4 * w..4 * w + 4]);
        }
      }
      Success(words)
  }

  // ---------------------------------------------------------------------------
  // Key expansion

  /** The first `n` words of the table before mixing: P, then Q added each time, so word k is P + k Q modulo 2^32. */
  function InitialTable(n: nat): (s: seq<Word>)
    requires n >= 1
    ensures |s| == n && s[0] == P
    ensures forall k :: 1 <= k < n ==> s[k] == Add32(s[k - 1], Q)
  {
    var s := seq(n, k requires 0 <= k < n => (P + k * Q) % TwoTo32);
    assert forall k :: 1 <= k < n ==> s[k] == Add32(s[k - 1], Q) by {
      forall k | 1 <= k < n
        ensures s[k] == Add32(s[k - 1], Q)
      {
        AddModulo(P + (k - 1) * Q, Q);
      }
    }
    s
  }

  /** Reducing before or after adding gives the same sum modulo 2^32. */
  lemma AddModulo(x: nat, y: Word)
    ensures ((x % TwoTo32) + y) % TwoTo32 == (x + y) % TwoTo32
  {
    var q := x / TwoTo32;
    assert x == q * TwoTo32 + x % TwoTo32;
  }

  /** The state of the mixing loop: the table, the key words, A, B and the two cursors. */
  datatype Mixer = Mixer(s: seq<Word>, l: seq<Word>, a: Word, b: Word, i: nat, j: nat)

  predicate WellShaped(m: Mixer) {
    |m.s| == TableSize && |m.l| >= KeyWords && m.i < TableSize && m.j < KeyWords
  }

  /** One pass of the mixing loop: S[i] and then L[j] are stirred and both cursors move on. */
  function MixStep(m: Mixer): (r: Mixer)
    requires WellShaped(m)
    ensures WellShaped(r)
    ensures r.i == (m.i + 1) % TableSize && r.j == (m.j + 1) % KeyWords
    ensures r.s == m.s[m.i := r.a] && r.l == m.l[m.j := r.b]
  {
    var (a, b) := Stir(m.s[m.i], m.l[m.j], m.a, m.b);
    Mixer(m.s[m.i := a], m.l[m.j := b], a, b, (m.i + 1) % TableSize, (m.j + 1) % KeyWords)
  }

  /** The new A and B of one mixing pass, from S[i], L[j] and the old A and B. */
  function Stir(si: Word, lj: Word, a: Word, b: Word): (Word, Word) {
    var a' := Rotl32(Add32(si, Add32(a, b)), 3);
    (a', Rotl32(Add32(lj, Add32(a', b)), Add32(a', b)))
  }

  /** `n` passes of the mixing loop. */
  function Mix(m: Mixer, n: nat): (r: Mixer)
    requires WellShaped(m)
    ensures WellShaped(r) && |r.l| == |m.l|
    decreases n
  {
    if n == 0 then m else MixStep(Mix(m, n - 1))
  }

  /**
   * `expand_key(key)`: the key's words stirred into the initial table for 3t
   * passes. Unpacking fails unless the length is a multiple of 4, and a key of
   * fewer than four words fails when the loop first reads past its last word.
   */
  function ExpandKey(key: seq<Byte>): (r: Result<seq<Word>, string>)
    ensures r.Success? <==> |key| % 4 == 0 && |key| >= 4 * KeyWords
    ensures r.Success? ==> |r.value| == TableSize
  {
    var words :- KeyWordsOf(key);
    if |words| < KeyWords then Failure("list index out of range")
    else
      var start := Mixer(InitialTable(TableSize), words, 0, 0, 0, 0);
      Success(Mix(start, 3 * TableSize).s)
  }

  /** Two mixing states that differ at most in key words past the first `c`. */
  predicate AgreeOnFirstKeyWords(m: Mixer, m': Mixer) {
    WellShaped(m) && WellShaped(m')
    && m.s == m'.s && m.a == m'.a && m.b == m'.b && m.i == m'.i && m.j == m'.j
    && forall k :: 0 <= k < KeyWords ==> m.l[k] == m'.l[k]
  }

  /** Only the first `c` key words take part in mixing: the others are never read. */
  lemma {:induction false} MixReadsFirstKeyWords(m: Mixer, m': Mixer, n: nat)
    requires AgreeOnFirstKeyWords(m, m')
    ensures AgreeOnFirstKeyWords(Mix(m, n), Mix(m', n))
    decreases n
  {
    if n > 0 {
      MixReadsFirstKeyWords(m, m', n - 1);
      MixStepReadsFirstKeyWords(Mix(m, n - 1), Mix(m', n - 1));
    }
  }

  lemma MixStepReadsFirstKeyWords(m: Mixer, m': Mixer)
    requires AgreeOnFirstKeyWords(m, m')
    ensures AgreeOnFirstKeyWords(MixStep(m), MixStep(m'))
  {
  }

  /** The expanded key depends on the first 16 bytes of the key alone. */
  lemma ExpandKeyReadsSixteenBytes(key: seq<Byte>, key': seq<Byte>)
    requires ExpandKey(key).Success? && ExpandKey(key').Success?
    requires forall k :: 0 <= k < 4 * KeyWords ==> key[k] == key'[k]
    ensures ExpandKey(key).value == ExpandKey(key').value
  {
    var w, w' := KeyWordsOf(key).value, KeyWordsOf(key').value;
    forall k | 0 <= k < KeyWords
      ensures w[k] == w'[k]
    {
      assert key[4 * k..4 * k + 4] == key'[4 * k..4 * k + 4];
      WordBytesRoundTrip(w[k], key[4 * k..4 * k + 4]);
      WordBytesRoundTrip(w'[k], key'[4 * k..4 * k + 4]);
    }
    var t := InitialTable(TableSize);
    MixReadsFirstKeyWords(Mixer(t, w, 0, 0, 0, 0), Mixer(t, w', 0, 0, 0, 0), 3 * TableSize);
  }

  // ---------------------------------------------------------------------------
  // Encryption and decryption

  /** A block: the two 32-bit words A and B. */
  type Block = (Word, Word)

  /** Round `i` of `encrypt`, keyed by k0 = S[2i] and k1 = S[2i+1]: A is mixed with B, then B with the new A. */
  function EncryptRound(p: Block, k0: Word, k1: Word): Block {
    var a := Add32(Rotl32(Xor32(p.0, p.1), p.1), k0);
    var b := Add32(Rotl32(Xor32(p.1, a), a), k1);
    (a, b)
  }

  /** Round `i` of `decrypt`: the steps of `EncryptRound` undone in reverse order. */
  function DecryptRound(p: Block, k0: Word, k1: Word): Block {
    var b := Xor32(Rotr32(Sub32(p.1, k1), p.0), p.0);
    var a := Xor32(Rotr32(Sub32(p.0, k0), b), b);
    (a, b)
  }

  /** Rounds 0 .. n-1 of `encrypt`, in increasing order. */
  function EncryptRounds(p: Block, s: seq<Word>, n: nat): Block
    requires 2 * n <= |s|
  {
    if n == 0 then p else EncryptRound(EncryptRounds(p, s, n - 1), s[2 * n - 2], s[2 * n - 1])
  }

  /** Rounds n-1 down to 0 of `decrypt`. */
  function DecryptRounds(p: Block, s: seq<Word>, n: nat): Block
    requires 2 * n <= |s|
    decreases n
  {
    if n == 0 then p else DecryptRounds(DecryptRound(p, s[2 * n - 2], s[2 * n - 1]), s, n - 1)
  }

  /** `encrypt(block, S)`: whitening with S[0] and S[1], then 20 rounds. */
  function Encrypt(p: Block, s: seq<Word>): Block
    requires |s| >= 2 * Rounds
  {
    EncryptRounds((Add32(p.0, s[0]), Add32(p.1, s[1])), s, Rounds)
  }

  /** `decrypt(block, S)`: 20 rounds backwards, then the whitening taken off. */
  function Decrypt(p: Block, s: seq<Word>): Block
    requires |s| >= 2 * Rounds
  {
    var q := DecryptRounds(p, s, Rounds);
    (Sub32(q.0, s[0]), Sub32(q.1, s[1]))
  }

  /** Each decryption round undoes the matching encryption round, and the other way round. */
  lemma RoundsAreInverse(p: Block, k0: Word, k1: Word)
    ensures DecryptRound(EncryptRound(p, k0, k1), k0, k1) == p
    ensures EncryptRound(DecryptRound(p, k0, k1), k0, k1) == p
  {
    var e := EncryptRound(p, k0, k1);
    UnmixHalf(p.1, k1, e.0);
    UnmixHalf(p.0, k0, p.1);
    var d := DecryptRound(p, k0, k1);
    RemixHalf(p.0, k0, d.1);
    RemixHalf(p.1, k1, p.0);
  }

  /** The B half (or, with A and B exchanged, the A half) of a decryption round undoes that of an encryption round. */
  lemma UnmixHalf(v: Word, k: Word, mask: Word)
    ensures Xor32(Rotr32(Sub32(Add32(Rotl32(Xor32(v, mask), mask), k), k), mask), mask) == v
  {
    AddSubCancel(Rotl32(Xor32(v, mask), mask), k);
    RotationsAreInverse(Xor32(v, mask), mask);
    XorCancel(v, mask);
  }

  /** The same halves the other way round: encryption undoes decryption. */
  lemma RemixHalf(v: Word, k: Word, mask: Word)
    ensures Add32(Rotl32(Xor32(Xor32(Rotr32(Sub32(v, k), mask), mask), mask), mask), k) == v
  {
    XorCancel(Rotr32(Sub32(v, k), mask), mask);
    RotationsAreInverse(Sub32(v, k), mask);
    AddSubCancel(v, k);
  }

  lemma {:induction false} DecryptRoundsUndoEncryptRounds(p: Block, s: seq<Word>, n: nat)
    requires 2 * n <= |s|
    decreases n
    ensures DecryptRounds(EncryptRounds(p, s, n), s, n) == p
    ensures EncryptRounds(DecryptRounds(p, s, n), s, n) == p
  {
    if n > 0 {
      var k0, k1 := s[2 * n - 2], s[2 * n - 1];
      RoundsAreInverse(EncryptRounds(p, s, n - 1), k0, k1);
      DecryptRoundsUndoEncryptRounds(p, s, n - 1);
      RoundsAreInverse(p, k0, k1);
      DecryptRoundsUndoEncryptRounds(DecryptRound(p, k0, k1), s, n - 1);
    }
  }

  /** Decryption undoes encryption under every table of at least 40 words, and the other way round. */
  lemma DecryptUndoesEncrypt(p: Block, s: seq<Word>)
    requires |s| >= 2 * Rounds
    ensures Decrypt(Encrypt(p, s), s) == p
    ensures Encrypt(Decrypt(p, s), s) == p
  {
    DecryptRoundsUndoEncryptRounds((Add32(p.0, s[0]), Add32(p.1, s[1])), s, Rounds);
    AddSubCancel(p.0, s[0]);
    AddSubCancel(p.1, s[1]);
    var q := DecryptRounds(p, s, Rounds);
    AddSubCancel(q.0, s[0]);
    AddSubCancel(q.1, s[1]);
    DecryptRoundsUndoEncryptRounds(p, s, Rounds);
  }

  /** Encryption reads only the first 40 words of the table. */
  lemma {:induction false} EncryptReadsFortyWords(p: Block, s: seq<Word>, s': seq<Word>, n: nat)
    requires 2 * n <= |s| && 2 * n <= |s'|
    requires forall k :: 0 <= k < 2 * n ==> s[k] == s'[k]
    ensures EncryptRounds(p, s, n) == EncryptRounds(p, s', n)
  {
    if n > 0 {
      EncryptReadsFortyWords(p, s, s', n - 1);
    }
  }
}
