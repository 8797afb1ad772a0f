/**
 * util.py: the two key-schedule constants and the 32-bit rotations, with the
 * numpy `uint32` operations they rest on. A word is an integer in [0, 2^32);
 * `np.add` and `np.subtract` on words wrap modulo 2^32, and the bitwise
 * operations act on the word's 32 bits, listed from the least significant.
 */
module Util {

  /** 2^32: `uint32` arithmetic is modulo this. */
  const TwoTo32: int := 0x1_0000_0000

  /** The number of bits in a word. */
  const Width: nat := 32

  /** A numpy `uint32` value. */
  type Word = x: int | 0 <= x < 0x1_0000_0000

  /** A byte, as `bytes` holds them. */
  type Byte = x: int | 0 <= x < 256

  /** The odd constant derived from the golden ratio. */
  const Q: Word := 0x9E37_79B9

  /** The odd constant derived from e. */
  const P: Word := 0xB7E1_5163

  function Pow2(n: nat): (r: nat)
    ensures r >= 1
  {
    if n == 0 then 1 else 2 * Pow2(n - 1)
  }

  lemma {:induction false} Pow2Add(a: nat, b: nat)
    ensures Pow2(a + b) == Pow2(a) * Pow2(b)
  {
    if a > 0 {
      Pow2Add(a - 1, b);
    }
  }

  lemma Pow2Of32()
    ensures Pow2(Width) == TwoTo32
  {
    assert Pow2(8) == 256;
    assert Pow2(16) == Pow2(8) * Pow2(8) by { Pow2Add(8, 8); }
    assert Pow2(32) == Pow2(16) * Pow2(16) by { Pow2Add(16, 16); }
  }

  // ---------------------------------------------------------------------------
  // Wrapping arithmetic

  /** `np.add` on two words: the sum modulo 2^32. */
  function Add32(a: Word, b: Word): Word {
    (a + b) % TwoTo32
  }

  /** `np.subtract` on two words: the difference modulo 2^32. */
  function Sub32(a: Word, b: Word): Word {
    (a - b) % TwoTo32
  }

  /** Subtracting what was added gives the word back, and the other way round. */
  lemma AddSubCancel(x: Word, k: Word)
    ensures Sub32(Add32(x, k), k) == x
    ensures Add32(Sub32(x, k), k) == x
  {
  }

  // ---------------------------------------------------------------------------
  // Bits

  /** The low `n` bits of `x`, least significant first. */
  function ToBits(x: nat, n: nat): (b: seq<bool>)
    ensures |b| == n
  {
    if n == 0 then [] else [x % 2 == 1] + ToBits(x / 2, n - 1)
  }

  /** The number whose bits, least significant first, are `b`. */
  function FromBits(b: seq<bool>): (x: nat)
    ensures x < Pow2(|b|)
  {
    ValueFrom(b, 0)
  }

  /** The number whose bits are `b[k..]`. */
  function ValueFrom(b: seq<bool>, k: nat): (x: nat)
    requires k <= |b|
    ensures x < Pow2(|b| - k)
    decreases |b| - k
  {
    if k == |b| then 0 else (if b[k] then 1 else 0) + 2 * ValueFrom(b, k + 1)
  }

  lemma BitsRoundTrip(b: seq<bool>)
    ensures ToBits(FromBits(b), |b|) == b
  {
    BitsRoundTripFrom(b, 0);
  }

  lemma {:induction false} BitsRoundTripFrom(b: seq<bool>, k: nat)
    requires k <= |b|
    ensures ToBits(ValueFrom(b, k), |b| - k) == b[k..]
    decreases |b| - k
  {
    if k < |b| {
      var x := ValueFrom(b, k);
      assert x % 2 == 1 <==> b[k];
      assert x / 2 == ValueFrom(b, k + 1);
      BitsRoundTripFrom(b, k + 1);
      assert b[k..] == [b[k]] + b[k + 1..];
    }
  }

  lemma NumberRoundTrip(x: nat, n: nat)
    requires x < Pow2(n)
    ensures FromBits(ToBits(x, n)) == x
  {
    NumberRoundTripFrom(x, n, []);
    assert [] + ToBits(x, n) == ToBits(x, n);
  }

  /** Reading the bits of `x` placed after some prefix gives `x`. */
  lemma {:induction false} NumberRoundTripFrom(x: nat, n: nat, prefix: seq<bool>)
    requires x < Pow2(n)
    ensures ValueFrom(prefix + ToBits(x, n), |prefix|) == x
    decreases n
  {
    var b := prefix + ToBits(x, n);
    if n > 0 {
      var prefix' := prefix + [x % 2 == 1];
      assert b == prefix' + ToBits(x / 2, n - 1);
      NumberRoundTripFrom(x / 2, n - 1, prefix');
    }
  }

  /** The 32 bits of a word. */
  function WordBits(x: Word): (b: seq<bool>)
    ensures |b| == Width
  {
    ToBits(x, Width)
  }

  /** The word with the given 32 bits. */
  function BitsWord(b: seq<bool>): Word
    requires |b| == Width
  {
    Pow2Of32();
    FromBits(b)
  }

  lemma WordBitsRoundTrip(x: Word, b: seq<bool>)
    requires |b| == Width
    ensures BitsWord(WordBits(x)) == x
    ensures WordBits(BitsWord(b)) == b
  {
    Pow2Of32();
    NumberRoundTrip(x, Width);
    BitsRoundTrip(b);
  }

  /** Two words with the same 32 bits are equal. */
  lemma SameBits(x: Word, y: Word)
    requires forall i :: 0 <= i < Width ==> WordBits(x)[i] == WordBits(y)[i]
    ensures x == y
  {
    assert WordBits(x) == WordBits(y);
    WordBitsRoundTrip(x, WordBits(y));
    WordBitsRoundTrip(y, WordBits(y));
  }

  // ---------------------------------------------------------------------------
  // Bitwise operations

  /** `np.bitwise_xor` on two words. */
  function Xor32(a: Word, b: Word): Word {
    var x, y := WordBits(a), WordBits(b);
    BitsWord(seq(Width, i requires 0 <= i < Width => x[i] != y[i]))
  }

  /** Bit i of `np.left_shift(x, s)` cut back to 32 bits: bit i - s of `x`, or 0 below s. */
  predicate LeftShiftedBit(b: seq<bool>, s: nat, i: nat)
    requires |b| == Width
  {
    i >= s && i - s < Width && b[i - s]
  }

  /** Bit i of `np.right_shift(x, s)`: bit i + s of `x`, or 0 past the top; a shift by 32 leaves 0. */
  predicate RightShiftedBit(b: seq<bool>, s: nat, i: nat)
    requires |b| == Width
  {
    i + s < Width && b[i + s]
  }

  /**
   * `rotl32(x, y)`: the shifts by `y & 31` to the left and by `32 - (y & 31)`
   * to the right, or-ed together bit by bit.
   */
  function Rotl32(x: Word, y: nat): Word {
    BitsWord(RotlBits(WordBits(x), y % 32))
  }

  /** `rotr32(x, y)`: the same with the two directions exchanged. */
  function Rotr32(x: Word, y: nat): Word {
    BitsWord(RotrBits(WordBits(x), y % 32))
  }

  /** The bits of `(x << s) | (x >> (32 - s))`. */
  function RotlBits(b: seq<bool>, s: nat): (r: seq<bool>)
    requires |b| == Width && s < Width
    ensures |r| == Width
  {
    seq(Width, i requires 0 <= i < Width => LeftShiftedBit(b, s, i) || RightShiftedBit(b, Width - s, i))
  }

  /** The bits of `(x >> s) | (x << (32 - s))`. */
  function RotrBits(b: seq<bool>, s: nat): (r: seq<bool>)
    requires |b| == Width && s < Width
    ensures |r| == Width
  {
    seq(Width, i requires 0 <= i < Width => RightShiftedBit(b, s, i) || LeftShiftedBit(b, Width - s, i))
  }

  /** For s < 32 exactly one of the two shifted words has a bit at each place: bit i - s, counted round the word. */
  lemma RotlBitsAt(b: seq<bool>, s: nat, i: nat)
    requires |b| == Width && s < Width && i < Width
    ensures RotlBits(b, s)[i] == if i >= s then b[i - s] else b[i + Width - s]
  {
  }

  /** The same for a right rotation: bit i + s, counted round the word. */
  lemma RotrBitsAt(b: seq<bool>, s: nat, i: nat)
    requires |b| == Width && s < Width && i < Width
    ensures RotrBits(b, s)[i] == if i + s < Width then b[i + s] else b[i + s - Width]
  {
  }

  /** Exclusive or with the same word twice is the identity. */
  lemma XorCancel(a: Word, m: Word)
    ensures Xor32(Xor32(a, m), m) == a
  {
    var x, y := WordBits(a), WordBits(m);
    var once := seq(Width, i requires 0 <= i < Width => x[i] != y[i]);
    WordBitsRoundTrip(a, once);
    var z := WordBits(Xor32(a, m));
    assert z == once;
    assert seq(Width, i requires 0 <= i < Width => z[i] != y[i]) == x;
  }

  /** Exclusive or does not depend on the order of its operands. */
  lemma XorCommutes(a: Word, b: Word)
    ensures Xor32(a, b) == Xor32(b, a)
  {
    var x, y := WordBits(a), WordBits(b);
    assert seq(Width, i requires 0 <= i < Width => x[i] != y[i]) == seq(Width, i requires 0 <= i < Width => y[i] != x[i]);
  }

  /** Bit i of `x` rotated left by s = y mod 32 is bit i - s of `x`, counted round the word. */
  lemma RotlBit(x: Word, y: nat, i: nat)
    requires i < Width
    ensures var s := y % 32;
      WordBits(Rotl32(x, y))[i] == if i >= s then WordBits(x)[i - s] else WordBits(x)[i + Width - s]
  {
    var s, b := y % 32, WordBits(x);
    WordBitsRoundTrip(x, RotlBits(b, s));
    RotlBitsAt(b, s, i);
  }

  /** Bit i of `x` rotated right by s = y mod 32 is bit i + s of `x`, counted round the word. */
  lemma RotrBit(x: Word, y: nat, i: nat)
    requires i < Width
    ensures var s := y % 32;
      WordBits(Rotr32(x, y))[i] == if i + s < Width then WordBits(x)[i + s] else WordBits(x)[i + s - Width]
  {
    var s, b := y % 32, WordBits(x);
    WordBitsRoundTrip(x, RotrBits(b, s));
    RotrBitsAt(b, s, i);
  }

  /** Rotating right undoes rotating left by the same amount, and the other way round. */
  lemma RotationsAreInverse(x: Word, y: nat)
    ensures Rotr32(Rotl32(x, y), y) == x
    ensures Rotl32(Rotr32(x, y), y) == x
  {
    LeftThenRight(x, y);
    RightThenLeft(x, y);
  }

  lemma LeftThenRight(x: Word, y: nat)
    ensures Rotr32(Rotl32(x, y), y) == x
  {
    var b, l := WordBits(x), Rotl32(x, y);
    var r := Rotr32(l, y);
    forall i | 0 <= i < Width
      ensures WordBits(r)[i] == b[i]
    {
      RotrBit(l, y, i);
      RotlBit(x, y, if i + y % 32 < Width then i + y % 32 else i + y % 32 - Width);
    }
    SameBits(r, x);
  }

  lemma RightThenLeft(x: Word, y: nat)
    ensures Rotl32(Rotr32(x, y), y) == x
  {
    var b, l := WordBits(x), Rotr32(x, y);
    var r := Rotl32(l, y);
    forall i | 0 <= i < Width
      ensures WordBits(r)[i] == b[i]
    {
      RotlBit(l, y, i);
      RotrBit(x, y, if i >= y % 32 then i - y % 32 else i + Width - y % 32);
    }
    SameBits(r, x);
  }

  /** An amount of 0 modulo 32 leaves the word alone. */
  lemma ZeroAmount(x: Word, y: nat)
    requires y % 32 == 0
    ensures Rotl32(x, y) == x && Rotr32(x, y) == x
  {
    var b := WordBits(x);
    forall i | 0 <= i < Width
      ensures WordBits(Rotl32(x, y))[i] == b[i] && WordBits(Rotr32(x, y))[i] == b[i]
    {
      RotlBit(x, y, i);
      RotrBit(x, y, i);
    }
    SameBits(Rotl32(x, y), x);
    SameBits(Rotr32(x, y), x);
  }

  /** The bits of 2^k: only bit k is set. */
  lemma {:induction false} PowerBits(k: nat, n: nat, i: nat)
    requires i < n
    ensures ToBits(Pow2(k), n)[i] == (i == k)
  {
    if k == 0 {
      if i > 0 {
        ZeroBits(n - 1, i - 1);
      }
    } else if i > 0 {
      assert Pow2(k) / 2 == Pow2(k - 1);
      PowerBits(k - 1, n - 1, i - 1);
    }
  }

  lemma {:induction false} ZeroBits(n: nat, i: nat)
    requires i < n
    ensures !ToBits(0, n)[i]
  {
    if i > 0 {
      ZeroBits(n - 1, i - 1);
    }
  }

  lemma HighPowers()
    ensures Pow2(30) == 0x4000_0000 && Pow2(31) == 0x8000_0000
  {
    Pow2Add(15, 15);
    assert Pow2(15) == 0x8000;
  }

  lemma PowerBelow(k: nat)
    requires k < Width
    ensures Pow2(k) < TwoTo32
  {
    Pow2Increasing(k, Width);
    Pow2Of32();
  }

  lemma {:induction false} Pow2Increasing(a: nat, b: nat)
    requires a < b
    ensures Pow2(a) < Pow2(b)
  {
    if a + 1 < b {
      Pow2Increasing(a, b - 1);
    }
  }

  /** Rotating the top bit left by one brings it to the bottom. */
  lemma TopBitLeft(top: Word, one: Word)
    requires top == Pow2(Width - 1) && one == Pow2(0)
    ensures Rotl32(top, 1) == one
  {
    var l, b := Rotl32(top, 1), WordBits(one);
    forall i | 0 <= i < Width
      ensures WordBits(l)[i] == b[i]
    {
      TopBitLeftAt(top, one, i);
    }
    SameBits(l, one);
  }

  lemma TopBitLeftAt(top: Word, one: Word, i: nat)
    requires top == Pow2(Width - 1) && one == Pow2(0) && i < Width
    ensures WordBits(Rotl32(top, 1))[i] == WordBits(one)[i]
  {
    RotlBit(top, 1, i);
    PowerBits(Width - 1, Width, if i >= 1 then i - 1 else i + Width - 1);
    PowerBits(0, Width, i);
  }

  /** Rotating the top bit right by one moves it down one place. */
  lemma TopBitRight(top: Word, next: Word)
    requires top == Pow2(Width - 1) && next == Pow2(Width - 2)
    ensures Rotr32(top, 1) == next
  {
    var r, b := Rotr32(top, 1), WordBits(next);
    forall i | 0 <= i < Width
      ensures WordBits(r)[i] == b[i]
    {
      TopBitRightAt(top, next, i);
    }
    SameBits(r, next);
  }

  lemma TopBitRightAt(top: Word, next: Word, i: nat)
    requires top == Pow2(Width - 1) && next == Pow2(Width - 2) && i < Width
    ensures WordBits(Rotr32(top, 1))[i] == WordBits(next)[i]
  {
    RotrBit(top, 1, i);
    PowerBits(Width - 1, Width, if i + 1 < Width then i + 1 else i + 1 - Width);
    PowerBits(Width - 2, Width, i);
  }

  /** The two values the module's demo prints. */
  lemma DemoValues()
    ensures Rotl32(0x8000_0000, 1) == 1
    ensures Rotr32(0x8000_0000, 1) == 0x4000_0000
  {
    HighPowers();
    TopBitLeft(0x8000_0000, 1);
    TopBitRight(0x8000_0000, 0x4000_0000);
  }
}
