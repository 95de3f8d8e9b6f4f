/** Word-at-a-time scans (kernel/lib/string.c): they read whole aligned words, past the byte
    they look for, and still return what a byte-by-byte scan would return. */
module WordScan {
  import opened CMemory

  datatype Option<+T> = None | Some(value: T)

  const ONES: bv64 := 0x0101010101010101
  const HIGHS: bv64 := 0x8080808080808080

  function HasZero(x: bv64): bv64 {
    (x - 0x0101010101010101) & !x & 0x8080808080808080
  }

  /** The constants above are the ones the C macros compute. */
  lemma MacroConstants()
    ensures ONES == 0xffffffffffffffff / 0xff
    ensures HIGHS == ONES * 0x80
  {
  }

  function Pair16(lo: bv8, hi: bv8): bv16 { (lo as bv16) | (hi as bv16 << 8) }
  function Pair32(lo: bv16, hi: bv16): bv32 { (lo as bv32) | (hi as bv32 << 16) }
  function Pair64(lo: bv32, hi: bv32): bv64 { (lo as bv64) | (hi as bv64 << 32) }

  function XorByte(b: bv8, c: bv8): (x: bv8)
    ensures x == 0 <==> b == c
  {
    b ^ c
  }

  /** The eight bytes of a word, the one at the lowest address first. */
  datatype Bytes = Bytes(b0: bv8, b1: bv8, b2: bv8, b3: bv8, b4: bv8, b5: bv8, b6: bv8, b7: bv8) {
    /** The little-endian word. */
    function Word(): bv64 {
      Pair64(Pair32(Pair16(b0, b1), Pair16(b2, b3)), Pair32(Pair16(b4, b5), Pair16(b6, b7)))
    }

    predicate Lacks(c: bv8) {
      b0 != c && b1 != c && b2 != c && b3 != c && b4 != c && b5 != c && b6 != c && b7 != c
    }

    function Xor(c: bv8): Bytes {
      Bytes(XorByte(b0, c), XorByte(b1, c), XorByte(b2, c), XorByte(b3, c),
            XorByte(b4, c), XorByte(b5, c), XorByte(b6, c), XorByte(b7, c))
    }
  }

  /** The word with c in every byte. */
  function Spread(c: bv8): bv64 {
    Bytes(c, c, c, c, c, c, c, c).Word()
  }

  /** The carry trick is exact: it is zero if and only if no byte of the word is zero. */
  lemma HasZeroExact(v: Bytes)
    ensures HasZero(v.Word()) == 0 <==> v.Lacks(0)
  {
  }

  lemma XorPair16(a: bv8, b: bv8, c: bv8, d: bv8)
    ensures Pair16(a, b) ^ Pair16(c, d) == Pair16(a ^ c, b ^ d)
  {
  }

  lemma XorPair32(a: bv16, b: bv16, c: bv16, d: bv16)
    ensures Pair32(a, b) ^ Pair32(c, d) == Pair32(a ^ c, b ^ d)
  {
  }

  lemma XorPair64(a: bv32, b: bv32, c: bv32, d: bv32)
    ensures Pair64(a, b) ^ Pair64(c, d) == Pair64(a ^ c, b ^ d)
  {
  }

  lemma XorHalf(b0: bv8, b1: bv8, b2: bv8, b3: bv8, c: bv8)
    ensures Pair32(Pair16(b0, b1), Pair16(b2, b3)) ^ Pair32(Pair16(c, c), Pair16(c, c))
            == Pair32(Pair16(XorByte(b0, c), XorByte(b1, c)), Pair16(XorByte(b2, c), XorByte(b3, c)))
  {
    XorPair16(b0, b1, c, c);
    XorPair16(b2, b3, c, c);
    XorPair32(Pair16(b0, b1), Pair16(b2, b3), Pair16(c, c), Pair16(c, c));
  }

  lemma XorSpread(v: Bytes, c: bv8)
    ensures v.Word() ^ Spread(c) == v.Xor(c).Word()
  {
    XorHalf(v.b0, v.b1, v.b2, v.b3, c);
    XorHalf(v.b4, v.b5, v.b6, v.b7, c);
    var cc := Pair16(c, c);
    XorPair64(Pair32(Pair16(v.b0, v.b1), Pair16(v.b2, v.b3)), Pair32(Pair16(v.b4, v.b5), Pair16(v.b6, v.b7)),
              Pair32(cc, cc), Pair32(cc, cc));
  }

  /** Exclusive-or with c in every byte turns the bytes equal to c, and no others, into zero. */
  lemma XorLacksZero(v: Bytes, c: bv8, x: Bytes)
    requires x == v.Xor(c)
    ensures x.Lacks(0) <==> v.Lacks(c)
  {
  }

  predicate Odd(x: nat) {
    x % 2 == 1
  }

  function Bit(b: bool): bv8 {
    if b then 1 else 0
  }

  /** The low eight bits of x, as the machine holds them. */
  function ToBv(x: nat): bv8 {
    if x == 0 then 0 else (ToBv(x / 2) << 1) | Bit(Odd(x))
  }

  lemma ToBvStep(x: nat)
    ensures ToBv(x) == (ToBv(x / 2) << 1) | Bit(Odd(x))
  {
  }

  lemma ShiftKeepsBound(u: bv8, b: bool)
    ensures u < 2 ==> (u << 1) | Bit(b) < 4
    ensures u < 4 ==> (u << 1) | Bit(b) < 8
    ensures u < 8 ==> (u << 1) | Bit(b) < 16
    ensures u < 16 ==> (u << 1) | Bit(b) < 32
    ensures u < 32 ==> (u << 1) | Bit(b) < 64
    ensures u < 64 ==> (u << 1) | Bit(b) < 128
  {
  }

  lemma {:induction false} ToBvBound(x: nat)
    ensures x < 2 ==> ToBv(x) < 2
    ensures x < 4 ==> ToBv(x) < 4
    ensures x < 8 ==> ToBv(x) < 8
    ensures x < 16 ==> ToBv(x) < 16
    ensures x < 32 ==> ToBv(x) < 32
    ensures x < 64 ==> ToBv(x) < 64
    ensures x < 128 ==> ToBv(x) < 128
  {
    if x > 0 {
      ToBvBound(x / 2);
      ShiftKeepsBound(ToBv(x / 2), Odd(x));
      ToBvStep(x);
    }
  }

  lemma ShiftInjective(u: bv8, v: bv8, a: bool, b: bool)
    requires u < 128 && v < 128 && (u << 1) | Bit(a) == (v << 1) | Bit(b)
    ensures u == v && a == b
  {
  }

  /** Different bytes have different bits. */
  lemma {:induction false} ToBvInjective(x: byte, y: byte)
    requires ToBv(x) == ToBv(y)
    ensures x == y
    decreases x + y
  {
    if x + y > 0 {
      ToBvBound(x / 2);
      ToBvBound(y / 2);
      ToBvStep(x);
      ToBvStep(y);
      ShiftInjective(ToBv(x / 2), ToBv(y / 2), Odd(x), Odd(y));
      ToBvInjective(x / 2, y / 2);
    }
  }

  lemma ToBvExact(x: byte, y: byte)
    ensures ToBv(x) == ToBv(y) <==> x == y
  {
    if ToBv(x) == ToBv(y) {
      ToBvInjective(x, y);
    }
  }

  lemma ToBvZero()
    ensures ToBv(0) == 0
  {
  }

  /** Multiplication by ONES copies a byte into every byte of a word. */
  method SpreadByte(c: byte) returns (k: bv64)
    ensures k == Spread(ToBv(c))
  {
    k := SpreadBv(ToBv(c));
  }

  method SpreadBv(c: bv8) returns (k: bv64)
    ensures k == Spread(c)
  {
    k := ONES * (c as bv64);
  }

  /** Eight byte values and their bits. */
  datatype Bytes8 = Bytes8(b0: byte, b1: byte, b2: byte, b3: byte, b4: byte, b5: byte, b6: byte, b7: byte) {
    function Bv(): Bytes {
      Bytes(ToBv(b0), ToBv(b1), ToBv(b2), ToBv(b3), ToBv(b4), ToBv(b5), ToBv(b6), ToBv(b7))
    }
  }

  function LoadWord(mem: Memory, a: nat): bv64
    requires a % 8 == 0 && a < |mem|
  {
    ValuesAt(mem, a).Bv().Word()
  }

  function ValuesAt(mem: Memory, a: nat): Bytes8
    requires a % 8 == 0 && a < |mem|
  {
    Bytes8(mem[a], mem[a + 1], mem[a + 2], mem[a + 3], mem[a + 4], mem[a + 5], mem[a + 6], mem[a + 7])
  }

  /** The strlen test on one word. */
  method TestZero(x: bv64, ghost v: Bytes) returns (b: bool)
    requires x == v.Word()
    ensures b <==> v.Lacks(0)
  {
    HasZeroExact(v);
    b := HasZero(x) == 0;
  }

  /** The memchr test on one word. */
  method TestByte(x: bv64, ghost v: Bytes, ghost c: bv8, k: bv64) returns (b: bool)
    requires x == v.Word() && k == Spread(c)
    ensures b <==> v.Lacks(c)
  {
    ghost var v' := v.Xor(c);
    XorLacksZero(v, c, v');
    XorSpread(v, c);
    b := TestZero(x ^ k, v');
  }

  /** Whether byte x is c can be read off its bits. */
  lemma LacksOne(x: byte, c: byte) returns (v: bv8, d: bv8)
    ensures v == ToBv(x) && d == ToBv(c) && (v == d <==> x == c)
  {
    ToBvExact(x, c);
    v, d := ToBv(x), ToBv(c);
  }

  lemma LacksAll(v: Bytes, d: bv8, x: Bytes8, c: byte)
    requires (v.b0 == d <==> x.b0 == c) && (v.b1 == d <==> x.b1 == c)
    requires (v.b2 == d <==> x.b2 == c) && (v.b3 == d <==> x.b3 == c)
    requires (v.b4 == d <==> x.b4 == c) && (v.b5 == d <==> x.b5 == c)
    requires (v.b6 == d <==> x.b6 == c) && (v.b7 == d <==> x.b7 == c)
    ensures v.Lacks(d) <==>
            && x.b0 != c && x.b1 != c && x.b2 != c && x.b3 != c
            && x.b4 != c && x.b5 != c && x.b6 != c && x.b7 != c
  {
  }

  lemma LacksBv(x: Bytes8, c: byte)
    ensures x.Bv().Lacks(ToBv(c)) <==>
            && x.b0 != c && x.b1 != c && x.b2 != c && x.b3 != c
            && x.b4 != c && x.b5 != c && x.b6 != c && x.b7 != c
  {
    var v0, d := LacksOne(x.b0, c);
    var v1, _ := LacksOne(x.b1, c);
    var v2, _ := LacksOne(x.b2, c);
    var v3, _ := LacksOne(x.b3, c);
    var v4, _ := LacksOne(x.b4, c);
    var v5, _ := LacksOne(x.b5, c);
    var v6, _ := LacksOne(x.b6, c);
    var v7, _ := LacksOne(x.b7, c);
    var v := Bytes(v0, v1, v2, v3, v4, v5, v6, v7);
    assert v == x.Bv();
    LacksAll(v, d, x, c);
  }

  /** The word lacks c exactly when none of its bytes, looked at one by one, is c. */
  lemma LacksIsWithout(mem: Memory, a: nat, c: byte)
    requires a % 8 == 0 && a < |mem|
    ensures ValuesAt(mem, a).Bv().Lacks(ToBv(c)) <==> Without(mem, a, a + 8, c)
  {
    LacksBv(ValuesAt(mem, a), c);
  }

  method NoZero(mem: Memory, a: nat) returns (b: bool)
    requires a % 8 == 0 && a < |mem|
    ensures b <==> Without(mem, a, a + 8, 0)
  {
    ToBvZero();
    LacksIsWithout(mem, a, 0);
    b := TestZero(LoadWord(mem, a), ValuesAt(mem, a).Bv());
  }

  method NoByte(mem: Memory, a: nat, ghost c: byte, k: bv64) returns (b: bool)
    requires a % 8 == 0 && a < |mem| && k == Spread(ToBv(c))
    ensures b <==> Without(mem, a, a + 8, c)
  {
    LacksIsWithout(mem, a, c);
    b := TestByte(LoadWord(mem, a), ValuesAt(mem, a).Bv(), ToBv(c), k);
  }

  /** No byte of [a, b) is c. */
  ghost predicate Without(mem: Memory, a: nat, b: nat, c: byte) {
    b <= |mem| && forall i: nat :: a <= i < b ==> mem[i] != c
  }

  /** What memchr asks of its caller: the n bytes are readable, or c occurs among those that are. */
  ghost predicate Scannable(mem: Memory, a: nat, c: byte, n: nat) {
    a + n <= |mem| || exists i: nat :: a <= i < |mem| && mem[i] == c
  }

  method Memchr(mem: Memory, src: nat, c: byte, n0: nat) returns (r: Option<nat>)
    requires Scannable(mem, src, c, n0)
    ensures r.Some? ==>
              && src <= r.value < src + n0 && r.value < |mem|
              && mem[r.value] == c && Without(mem, src, r.value, c)
    ensures r.None? ==> n0 == 0 || Without(mem, src, src + n0, c)
  {
    var s, n := src, n0;
    while s % 8 != 0 && n > 0 && mem[s] != c
      invariant s + n == src + n0 && src <= s
      invariant s == src || Without(mem, src, s, c)
      decreases n
    {
      s, n := s + 1, n - 1;
    }
    if n > 0 && mem[s] != c {
      var k := SpreadByte(c);
      while n >= 8
        invariant s + n == src + n0 && src <= s && s % 8 == 0
        invariant s == src || Without(mem, src, s, c)
      {
        var clear := NoByte(mem, s, c, k);
        if !clear {
          break;
        }
        s, n := s + 8, n - 8;
      }
      while n > 0 && mem[s] != c
        invariant s + n == src + n0 && src <= s
        invariant s == src || Without(mem, src, s, c)
      {
        s, n := s + 1, n - 1;
      }
    }
    r := if n > 0 then Some(s) else None;
  }

  lemma NulIsTheEnd(mem: Memory, a: nat, str: seq<byte>, s: nat)
    requires CString(mem, a, str) && a <= s <= a + |str|
    ensures mem[s] == 0 <==> s == a + |str|
  {
    if s < a + |str| {
      assert str[s - a] == mem[s];
    }
  }

  method Strlen(mem: Memory, a: nat, ghost str: seq<byte>) returns (len: nat)
    requires CString(mem, a, str)
    ensures len == |str|
  {
    var s := a;
    while s % 8 != 0
      invariant a <= s <= a + |str|
      decreases a + |str| - s
    {
      NulIsTheEnd(mem, a, str, s);
      if mem[s] == 0 {
        return s - a;
      }
      s := s + 1;
    }
    var clear := NoZero(mem, s);
    while clear
      invariant a <= s <= a + |str| && s % 8 == 0 && clear == Without(mem, s, s + 8, 0)
      decreases a + |str| - s
    {
      s := s + 8;
      clear := NoZero(mem, s);
    }
    NulIsTheEnd(mem, a, str, s);
    while mem[s] != 0
      invariant a <= s <= a + |str|
      invariant mem[s] == 0 <==> s == a + |str|
      decreases a + |str| - s
    {
      s := s + 1;
      NulIsTheEnd(mem, a, str, s);
    }
    len := s - a;
  }

  /** The first address from a on that holds c, or else the terminator. */
  method Strchrnul(mem: Memory, a: nat, ghost str: seq<byte>, c: byte) returns (r: nat)
    requires CString(mem, a, str)
    ensures a <= r <= a + |str|
    ensures Without(mem, a, r, c)
    ensures r < a + |str| ==> mem[r] == c
  {
    if c == 0 {
      var len := Strlen(mem, a, str);
      forall i: nat | a <= i < a + len ensures mem[i] != 0 {
        NulIsTheEnd(mem, a, str, i);
      }
      return a + len;
    }
    var s := a;
    while s % 8 != 0
      invariant a <= s <= a + |str| && Without(mem, a, s, c)
      decreases a + |str| - s
    {
      NulIsTheEnd(mem, a, str, s);
      if mem[s] == 0 || mem[s] == c {
        return s;
      }
      s := s + 1;
    }
    var k := SpreadByte(c);
    while true
      invariant a <= s <= a + |str| && s % 8 == 0 && Without(mem, a, s, c)
      decreases a + |str| - s
    {
      var clear := NoZero(mem, s);
      if !clear {
        break;
      }
      clear := NoByte(mem, s, c, k);
      if !clear {
        break;
      }
      s := s + 8;
    }
    NulIsTheEnd(mem, a, str, s);
    while mem[s] != 0 && mem[s] != c
      invariant a <= s <= a + |str| && Without(mem, a, s, c)
      invariant mem[s] == 0 <==> s == a + |str|
      decreases a + |str| - s
    {
      s := s + 1;
      NulIsTheEnd(mem, a, str, s);
    }
    r := s;
  }

  /** The first occurrence of c, the terminator counting as part of the string; null when there is none. */
  method Strchr(mem: Memory, a: nat, ghost str: seq<byte>, c: byte) returns (r: Option<nat>)
    requires CString(mem, a, str)
    ensures r.Some? ==> a <= r.value <= a + |str| && At(str, r.value - a) == c && c !in str[..r.value - a]
    ensures r.None? ==> c != 0 && c !in str
  {
    var p := Strchrnul(mem, a, str, c);
    WithoutIsNotIn(mem, a, str, c, p - a);
    assert p == a + |str| ==> str[..p - a] == str;
    assert p < a + |str| ==> str[p - a] == mem[p];
    r := if mem[p] == c then Some(p) else None;
  }

  lemma WithoutIsNotIn(mem: Memory, a: nat, str: seq<byte>, c: byte, k: nat)
    requires CString(mem, a, str) && k <= |str| && Without(mem, a, a + k, c)
    ensures c !in str[..k]
  {
    forall i: nat | i < k ensures str[i] != c {
      assert str[i] == mem[a + i];
    }
  }
}
