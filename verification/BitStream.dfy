/** Bits of numbers, numbers read most significant bit first, and the bit reversal of the inflate decoder
    (kernel/include/font/ssfn.h:476-488). */
module BitStream {

  function Pow2(n: nat): (r: nat)
    ensures r > 0
  {
    if n == 0 then 1 else 2 * Pow2(n - 1)
  }

  /** v >> n. */
  function Shr(v: nat, n: nat): nat {
    if n == 0 then v else Shr(v / 2, n - 1)
  }

  /** v << n. */
  function Shl(v: nat, n: nat): nat
    decreases n
  {
    if n == 0 then v else Shl(2 * v, n - 1)
  }

  /** v & ((1 << n) - 1). */
  function Low(v: nat, n: nat): nat {
    if n == 0 then 0 else v % 2 + 2 * Low(v / 2, n - 1)
  }

  function Bit(v: nat, i: nat): nat {
    Shr(v, i) % 2
  }

  /** The number formed by bits 0, 1, ..., n - 1 of v, the first of them the most significant. */
  function Read(v: nat, n: nat): nat {
    if n == 0 then 0 else 2 * Read(v, n - 1) + Bit(v, n - 1)
  }

  lemma Digit(d: nat, x: nat)
    requires d < 2
    ensures (d + 2 * x) / 2 == x && (d + 2 * x) % 2 == d
  {
  }

  lemma {:induction false} BitOfHalf(v: nat, i: nat)
    ensures Bit(v / 2, i) == Bit(v, i + 1) && Bit(v, 0) == v % 2
  {
  }

  lemma {:induction false} ShrOnce(v: nat, n: nat)
    ensures Shr(v, n + 1) == Shr(v, n) / 2
  {
    if n > 0 {
      ShrOnce(v / 2, n - 1);
    }
  }

  lemma {:induction false} ShlLess(k: nat, x: nat, n: nat)
    ensures k < Shl(x, n) <==> Shr(k, n) < x
    decreases n
  {
    if n > 0 {
      ShlLess(k, 2 * x, n - 1);
      ShrOnce(k, n - 1);
    }
  }

  lemma {:induction false} LowBound(v: nat, n: nat)
    ensures Low(v, n) < Pow2(n)
  {
    if n > 0 {
      LowBound(v / 2, n - 1);
    }
  }

  lemma {:induction false} LowOfSmall(v: nat, n: nat)
    requires v < Pow2(n)
    ensures Low(v, n) == v
  {
    if n > 0 {
      LowOfSmall(v / 2, n - 1);
    }
  }

  lemma {:induction false} ReadBound(v: nat, n: nat)
    ensures Read(v, n) < Pow2(n)
  {
    if n > 0 {
      ReadBound(v, n - 1);
    }
  }

  /** The first s bits of what is read from n bits. */
  lemma {:induction false} ShrOfRead(v: nat, n: nat, s: nat)
    requires s <= n
    ensures Shr(Read(v, n), n - s) == Read(v, s)
  {
    if s < n {
      ShrOfRead(v, n - 1, s);
    }
  }

  /** Reading reverses the bits. */
  lemma {:induction false} BitOfRead(v: nat, n: nat, i: nat)
    requires i < n
    ensures Bit(Read(v, n), i) == Bit(v, n - 1 - i)
  {
    if i > 0 {
      BitOfRead(v, n - 1, i - 1);
      BitOfHalf(Read(v, n), i - 1);
    }
  }

  lemma {:induction false} SameBits(x: nat, y: nat, n: nat)
    ensures Low(x, n) == Low(y, n) <==> forall i :: 0 <= i < n ==> Bit(x, i) == Bit(y, i)
  {
    if n > 0 {
      SameBits(x / 2, y / 2, n - 1);
      BitOfHalf(x, 0);
      BitOfHalf(y, 0);
      assert x % 2 == y % 2 <==> Bit(x, 0) == Bit(y, 0);
      forall i | 0 <= i < n - 1 ensures Bit(x / 2, i) == Bit(x, i + 1) && Bit(y / 2, i) == Bit(y, i + 1) {
        BitOfHalf(x, i);
        BitOfHalf(y, i);
      }
      if forall i :: 0 <= i < n ==> Bit(x, i) == Bit(y, i) {
        forall i | 0 <= i < n - 1 ensures Bit(x / 2, i) == Bit(y / 2, i) {
          assert Bit(x, i + 1) == Bit(y, i + 1);
        }
      }
      if Low(x, n) == Low(y, n) {
        forall i | 0 <= i < n ensures Bit(x, i) == Bit(y, i) {
          if i > 0 {
            assert Bit(x / 2, i - 1) == Bit(y / 2, i - 1);
          }
        }
      }
    }
  }

  lemma {:induction false} SameRead(x: nat, y: nat, n: nat)
    ensures Read(x, n) == Read(y, n) <==> forall i :: 0 <= i < n ==> Bit(x, i) == Bit(y, i)
  {
    if n > 0 {
      SameRead(x, y, n - 1);
    }
  }

  /** The low s bits of v are the reversed code c exactly when reading s bits gives c. */
  lemma LowIsReversed(v: nat, c: nat, s: nat)
    requires c < Pow2(s)
    ensures Low(v, s) == Read(c, s) <==> Read(v, s) == c
  {
    var r := Read(c, s);
    ReadBound(c, s);
    LowOfSmall(r, s);
    SameBits(v, r, s);
    ReadTwice(c, s);
    SameRead(v, r, s);
  }

  lemma ReadTwice(c: nat, s: nat)
    requires c < Pow2(s)
    ensures Read(Read(c, s), s) == c
  {
    var d := Read(Read(c, s), s);
    forall i | 0 <= i < s ensures Bit(d, i) == Bit(c, i) {
      BitOfRead(Read(c, s), s, i);
      BitOfRead(c, s, s - 1 - i);
    }
    SameBits(d, c, s);
    ReadBound(Read(c, s), s);
    LowOfSmall(d, s);
    LowOfSmall(c, s);
  }

  /** Numbers with the same low bits are at least 2^s apart, and that far apart they are the same. */
  lemma {:induction false} LowSteps(x: nat, y: nat, s: nat)
    requires Low(x, s) == Low(y, s) && x < y
    ensures x + Pow2(s) <= y
  {
    if s > 0 {
      LowSteps(x / 2, y / 2, s - 1);
    }
  }

  lemma {:induction false} LowPeriodic(x: nat, s: nat)
    ensures Low(x + Pow2(s), s) == Low(x, s)
  {
    if s > 0 {
      LowPeriodic(x / 2, s - 1);
      assert (x + Pow2(s)) / 2 == x / 2 + Pow2(s - 1);
    }
  }

  // ---- Streams ----

  /** The low n bits of v, followed by the bits of rest. */
  function Join(v: nat, n: nat, rest: nat): nat {
    if n == 0 then rest else v % 2 + 2 * Join(v / 2, n - 1, rest)
  }

  lemma {:induction false} LowOfJoin(v: nat, n: nat, rest: nat, s: nat)
    requires s <= n
    ensures Low(Join(v, n, rest), s) == Low(v, s)
  {
    if s > 0 {
      Digit(v % 2, Join(v / 2, n - 1, rest));
      LowOfJoin(v / 2, n - 1, rest, s - 1);
    }
  }

  lemma {:induction false} ShrOfJoin(v: nat, n: nat, rest: nat, s: nat)
    requires s <= n
    ensures Shr(Join(v, n, rest), s) == Join(Shr(v, s), n - s, rest)
  {
    if s > 0 {
      Digit(v % 2, Join(v / 2, n - 1, rest));
      ShrOfJoin(v / 2, n - 1, rest, s - 1);
    }
  }

  lemma {:induction false} ShlOnce(v: nat, n: nat)
    requires n > 0
    ensures Shl(v, n) == 2 * Shl(v, n - 1)
    decreases n
  {
    if n > 1 {
      ShlOnce(2 * v, n - 1);
    }
  }

  /** Putting w above the n bits of v keeps the stream. */
  lemma {:induction false} JoinJoin(v: nat, n: nat, w: nat, m: nat, rest: nat)
    requires v < Pow2(n) && w < Pow2(m)
    ensures v + Shl(w, n) < Pow2(n + m)
    ensures Join(v + Shl(w, n), n + m, rest) == Join(v, n, Join(w, m, rest))
  {
    if n > 0 {
      ShlOnce(w, n);
      JoinJoin(v / 2, n - 1, w, m, rest);
      assert (v + Shl(w, n)) / 2 == v / 2 + Shl(w, n - 1);
    }
  }

  lemma {:induction false} ShrBound(v: nat, n: nat, s: nat)
    requires v < Pow2(n) && s <= n
    ensures Shr(v, s) < Pow2(n - s)
  {
    if s > 0 {
      ShrBound(v / 2, n - 1, s - 1);
    }
  }

  // ---- Reversal by masks ----

  /** The number with the bits b, the first one the least significant. */
  function FromBits(b: seq<bool>): nat {
    if b == [] then 0 else (if b[0] then 1 else 0) + 2 * FromBits(b[1..])
  }

  lemma {:induction false} BitOfBits(b: seq<bool>, i: nat)
    requires i < |b|
    ensures Bit(FromBits(b), i) == if b[i] then 1 else 0
    decreases i
  {
    var d: nat := if b[0] then 1 else 0;
    var x := FromBits(b[1..]);
    Digit(d, x);
    assert FromBits(b) == d + 2 * x;
    if i > 0 {
      BitOfHalf(d + 2 * x, i - 1);
      BitOfBits(b[1..], i - 1);
    } else {
      BitOfHalf(d + 2 * x, 0);
    }
  }

  lemma {:induction false} FromBitsBound(b: seq<bool>)
    ensures FromBits(b) < Pow2(|b|)
  {
    if b != [] {
      FromBitsBound(b[1..]);
    }
  }

  /** Swap bits, pairs, nibbles and bytes. */
  function SwapAll(x: bv16): bv16 {
    var x1 := ((x & 0xAAAA) >> 1) | ((x & 0x5555) << 1);
    var x2 := ((x1 & 0xCCCC) >> 2) | ((x1 & 0x3333) << 2);
    var x3 := ((x2 & 0xF0F0) >> 4) | ((x2 & 0x0F0F) << 4);
    ((x3 & 0xFF00) >> 8) | ((x3 & 0x00FF) << 8)
  }

  lemma SwapAllReverses(x: bv16, k: bv16)
    requires k < 16
    ensures IsSet(SwapAll(x), k) <==> IsSet(x, 15 - k)
  {
  }

  predicate IsSet(x: bv16, k: bv16)
    requires k < 16
  {
    (x >> k) & 1 == 1
  }

  /** The word whose low n bits are those of v. */
  function ToWord(v: nat, n: nat): bv16 {
    if n == 0 then 0 else PushBit(ToWord(v / 2, n - 1), v % 2 == 1)
  }

  function PushBit(w: bv16, b: bool): bv16 {
    (w << 1) | if b then 1 else 0
  }

  lemma PushedBit(w: bv16, b: bool, k: bv16)
    requires k < 16
    ensures IsSet(PushBit(w, b), k) <==> if k == 0 then b else IsSet(w, k - 1)
  {
  }

  function Shift(i: nat): bv16 {
    if i == 0 then 0 else Shift(i - 1) + 1
  }

  lemma Shifts(i: nat)
    requires i < 16
    ensures Shift(i) ==
      if i == 0 then 0 else if i == 1 then 1 else if i == 2 then 2 else if i == 3 then 3
      else if i == 4 then 4 else if i == 5 then 5 else if i == 6 then 6 else if i == 7 then 7
      else if i == 8 then 8 else if i == 9 then 9 else if i == 10 then 10 else if i == 11 then 11
      else if i == 12 then 12 else if i == 13 then 13 else if i == 14 then 14 else 15
  {
    assert Shift(2) == 2;
    assert Shift(4) == 4;
    assert Shift(6) == 6;
    assert Shift(8) == 8;
    assert Shift(10) == 10;
    assert Shift(12) == 12;
    assert Shift(14) == 14;
  }

  lemma ShiftMirror(i: nat)
    requires i < 16
    ensures Shift(i) < 16 && Shift(15 - i) == 15 - Shift(i) && (i > 0 ==> Shift(i) != 0 && Shift(i) - 1 == Shift(i - 1))
  {
    Shifts(i);
    Shifts(15 - i);
    if i > 0 {
      Shifts(i - 1);
    }
  }

  lemma {:induction false} BitsToWord(v: nat, n: nat, i: nat)
    requires i < n <= 16
    ensures Shift(i) < 16 && (IsSet(ToWord(v, n), Shift(i)) <==> Bit(v, i) == 1)
  {
    ShiftMirror(i);
    PushedBit(ToWord(v / 2, n - 1), v % 2 == 1, Shift(i));
    if i > 0 {
      BitsToWord(v / 2, n - 1, i - 1);
      BitOfHalf(v, i - 1);
    }
  }

  function BitsOf(x: bv16): (b: seq<bool>)
    ensures |b| == 16
  {
    seq(16, i requires 0 <= i < 16 => ShiftMirror(i); IsSet(x, Shift(i)))
  }

  lemma SwappedBit(n: nat, i: nat)
    requires i < 16
    ensures BitsOf(SwapAll(ToWord(n, 16)))[i] <==> Bit(n, 15 - i) == 1
  {
    ShiftMirror(i);
    SwapAllReverses(ToWord(n, 16), Shift(i));
    BitsToWord(n, 16, 15 - i);
  }

  /** A number of n bits is known by its bits. */
  lemma EqualByBits(b: seq<bool>, x: nat)
    requires x < Pow2(|b|) && forall i :: 0 <= i < |b| ==> (b[i] <==> Bit(x, i) == 1)
    ensures FromBits(b) == x
  {
    var r := FromBits(b);
    forall i | 0 <= i < |b| ensures Bit(r, i) == Bit(x, i) {
      BitOfBits(b, i);
    }
    SameBits(r, x, |b|);
    FromBitsBound(b);
    LowOfSmall(r, |b|);
    LowOfSmall(x, |b|);
  }

  /** _ssfn__bitreverse16. */
  method BitReverse16(n: nat) returns (r: nat)
    ensures r == Read(n, 16)
  {
    var b := BitsOf(SwapAll(ToWord(n, 16)));
    r := FromBits(b);
    forall i | 0 <= i < |b| ensures b[i] <==> Bit(Read(n, 16), i) == 1 {
      SwappedBit(n, i);
      BitOfRead(n, 16, i);
    }
    ReadBound(n, 16);
    EqualByBits(b, Read(n, 16));
  }

  /** _ssfn__bit_reverse. */
  method BitReverse(v: nat, bits: nat) returns (r: nat)
    requires bits <= 16
    ensures r == Read(v, bits)
  {
    var w := BitReverse16(v);
    r := Shr(w, 16 - bits);
    ShrOfRead(v, 16, bits);
  }
}
