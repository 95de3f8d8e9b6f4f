/** The Huffman tables and the decoder of the inflate implementation (kernel/include/font/ssfn.h:464-598). */
module Inflate {
  import opened BitStream
  import opened CanonicalCode

  const FAST_BITS: nat := 9
  const FAST_SIZE: nat := 512

  // ---- Where a symbol's value is stored ----

  function Index(lens: seq<nat>, i: nat): nat
    requires i < |lens| && lens[i] < 16
  {
    FirstSymbol(Counts(lens), lens[i]) + Count(lens, lens[i], i)
  }

  /** Different symbols are stored at different places. */
  lemma IndexInjective(lens: seq<nat>, i: nat, j: nat)
    requires Lengths(lens) && i < j < |lens| && lens[i] > 0 && lens[j] > 0
    ensures Index(lens, i) != Index(lens, j)
  {
    var cnt := Counts(lens);
    CountGrows(lens, lens[i], i, |lens|);
    CountGrows(lens, lens[j], j, |lens|);
    if lens[i] < lens[j] {
      FirstSymbolGrows(cnt, lens[i], lens[j]);
    } else if lens[j] < lens[i] {
      FirstSymbolGrows(cnt, lens[j], lens[i]);
    } else {
      CountGrows(lens, lens[i], i, j);
    }
  }

  /** How many of the first n symbols have a code of length below s. */
  function Shorter(lens: seq<nat>, s: nat, n: nat): nat
    requires n <= |lens|
  {
    if n == 0 then 0 else Shorter(lens, s, n - 1) + if 0 < lens[n - 1] < s then 1 else 0
  }

  lemma {:induction false} ShorterBound(lens: seq<nat>, s: nat, n: nat)
    requires n <= |lens|
    ensures Shorter(lens, s, n) <= n
    ensures s > 0 ==> Shorter(lens, s + 1, n) == Shorter(lens, s, n) + Count(lens, s, n)
    ensures s <= 1 ==> Shorter(lens, s, n) == 0
  {
    if n > 0 {
      ShorterBound(lens, s, n - 1);
    }
  }

  lemma {:induction false} FirstSymbolIsShorter(lens: seq<nat>, s: nat)
    requires s <= 16
    ensures FirstSymbol(Counts(lens), s) == Shorter(lens, s, |lens|)
  {
    ShorterBound(lens, s, |lens|);
    if s > 1 {
      FirstSymbolIsShorter(lens, s - 1);
      ShorterBound(lens, s - 1, |lens|);
    }
  }

  lemma IndexBound(lens: seq<nat>, i: nat)
    requires Lengths(lens) && i < |lens| && lens[i] > 0
    ensures Index(lens, i) < |lens|
  {
    var s := lens[i];
    CountGrows(lens, s, i, |lens|);
    FirstSymbolGrows(Counts(lens), s, s + 1);
    FirstSymbolIsShorter(lens, s + 1);
    ShorterBound(lens, s + 1, |lens|);
  }

  // ---- The tables ----

  class ZHuffman {
    const fast: array<nat>
    const firstcode: array<nat>
    const maxcode: array<nat>
    const firstsymbol: array<nat>
    const size: array<nat>
    const value: array<nat>

    constructor ()
      ensures Shaped() && fresh(Tables())
    {
      fast := new nat[FAST_SIZE];
      firstcode := new nat[16];
      maxcode := new nat[17];
      firstsymbol := new nat[16];
      size := new nat[288];
      value := new nat[288];
    }

    ghost function Tables(): set<object> {
      {fast, firstcode, maxcode, firstsymbol, size, value}
    }

    ghost predicate Shaped() {
      && fast.Length == FAST_SIZE && firstcode.Length == 16 && maxcode.Length == 17
      && firstsymbol.Length == 16 && size.Length == 288 && value.Length == 288
      && firstcode != firstsymbol && size != value
    }

    /** The tables that describe the codes of each length. */
    ghost predicate LengthTables(cnt: seq<nat>, n: nat)
      requires Shaped() && |cnt| == 16 && n <= 16
      reads firstcode, maxcode, firstsymbol
    {
      forall s: nat {:trigger Row(cnt, s)} :: 0 < s < n ==> Row(cnt, s)
    }

    ghost predicate Row(cnt: seq<nat>, s: nat)
      requires Shaped() && |cnt| == 16 && s < 16
      reads firstcode, maxcode, firstsymbol
    {
      && firstcode[s] == First(cnt, s)
      && maxcode[s] == Shl(Top(cnt, s), 16 - s)
      && firstsymbol[s] == FirstSymbol(cnt, s)
    }

    /** The first n symbols are stored at their places. */
    ghost predicate Values(lens: seq<nat>, n: nat)
      requires Shaped() && Lengths(lens) && n <= |lens|
      reads value, size
    {
      forall i: nat {:trigger Stored(lens, i)} :: i < n && lens[i] > 0 ==> Stored(lens, i)
    }

    ghost predicate Stored(lens: seq<nat>, i: nat)
      requires Shaped() && Lengths(lens) && i < |lens|
      reads value, size
    {
      lens[i] > 0 ==> Index(lens, i) < 288 && value[Index(lens, i)] == i && size[Index(lens, i)] == lens[i]
    }

    /** Entry j of the fast table names the one short code among the first n that is a prefix of j, if any. */
    ghost predicate FastEntry(lens: seq<nat>, n: nat, j: nat)
      requires Shaped() && Lengths(lens) && n <= |lens| && j < FAST_SIZE
      reads fast
    {
      && (forall i: nat {:trigger Prefix(lens, j, i)} ::
            i < n && lens[i] <= FAST_BITS && Prefix(lens, j, i) ==> fast[j] == lens[i] * 512 + i)
      && (fast[j] != 0 ==> exists i: nat :: i < n && lens[i] <= FAST_BITS && Prefix(lens, j, i))
    }

    ghost predicate Built(lens: seq<nat>)
      requires Shaped() && Lengths(lens)
      reads Tables()
    {
      && NotOversubscribed(Counts(lens))
      && LengthTables(Counts(lens), 16) && maxcode[16] == 0x10000
      && Values(lens, |lens|)
      && AllFast(lens, |lens|)
    }

    /** The inner loop of _ssfn__zbuild_huffman: every index whose low s bits are j0. */
    method FillFast(j0: nat, s: nat, fastv: nat)
      requires Shaped() && s <= FAST_BITS && j0 < Pow2(s)
      modifies fast
      ensures forall x: nat :: x < FAST_SIZE ==> fast[x] == if Low(x, s) == j0 then fastv else old(fast[x])
    {
      var j := j0;
      LowOfSmall(j0, s);
      forall x: nat | x < j0 ensures Low(x, s) != j0 {
        LowOfSmall(x, s);
      }
      while j < FAST_SIZE
        invariant Low(j, s) == j0
        invariant forall x: nat :: x < FAST_SIZE ==>
                    fast[x] == if Low(x, s) == j0 && x < j then fastv else old(fast[x])
        decreases FAST_SIZE - j
      {
        fast[j] := fastv;
        forall x: nat | j < x < j + Pow2(s) ensures Low(x, s) != j0 {
          if Low(x, s) == j0 {
            LowSteps(j, x, s);
          }
        }
        LowPeriodic(j, s);
        j := j + Pow2(s);
      }
    }

    /** The first two loops: how many codes there are of each length, and whether one length has too many. */
    static method CountSizes(lens: seq<nat>) returns (ok: bool, sizes: array<nat>)
      requires Lengths(lens)
      ensures fresh(sizes) && sizes.Length == 17
      ensures forall s :: 0 <= s < 16 ==> sizes[s] == Counts(lens)[s]
      ensures ok <==> forall s :: 0 < s < 16 ==> Counts(lens)[s] <= Pow2(s)
    {
      sizes := new nat[17](i => 0);
      for i := 0 to |lens|
        invariant fresh(sizes)
        invariant forall s: nat :: s < 16 ==> sizes[s] == Count(lens, s, i)
      {
        sizes[lens[i]] := sizes[lens[i]] + 1;
      }
      sizes[0] := 0;
      for i := 1 to 16
        invariant forall s :: 0 < s < i ==> Counts(lens)[s] <= Pow2(s)
      {
        if sizes[i] > Pow2(i) {
          return false, sizes;
        }
      }
      return true, sizes;
    }

    /** The third loop: first codes, first symbols and limits. */
    method AssignCodes(sizes: array<nat>, ghost cnt: seq<nat>) returns (ok: bool, next: array<nat>)
      requires Shaped() && |cnt| == 16 && sizes.Length == 17 && sizes !in Tables()
      requires forall s: nat :: s < 16 ==> sizes[s] == cnt[s]
      modifies firstcode, firstsymbol, maxcode
      ensures fresh(next) && next.Length == 16
      ensures ok <==> NotOversubscribed(cnt)
      ensures ok ==> LengthTables(cnt, 16) && maxcode[16] == 0x10000
      ensures ok ==> forall s: nat :: 0 < s < 16 ==> next[s] == First(cnt, s)
    {
      next := new nat[16];
      var code, k := 0, 0;
      for i := 1 to 16
        invariant fresh(next) && LengthTables(cnt, i)
        invariant code == (if i == 1 then 0 else 2 * Top(cnt, i - 1))
        invariant k == FirstSymbol(cnt, i)
        invariant forall s: nat :: 0 < s < i ==> next[s] == First(cnt, s)
        invariant forall s: nat :: 0 < s < i ==> Top(cnt, s) <= Pow2(s)
      {
        assert code == First(cnt, i);
        next[i] := code;
        if sizes[i] != 0 && code + sizes[i] - 1 >= Pow2(i) {
          firstcode[i] := code;
          firstsymbol[i] := k;
          assert Top(cnt, i) > Pow2(i);
          return false, next;
        }
        SetRow(i, code, k, sizes[i], cnt);
        code := 2 * (code + sizes[i]);
        k := k + sizes[i];
      }
      SetLimit(cnt);
      return true, next;
    }

    /** The tables of one length. */
    method SetRow(i: nat, code: nat, k: nat, size: nat, ghost cnt: seq<nat>)
      requires Shaped() && |cnt| == 16 && 0 < i < 16 && LengthTables(cnt, i)
      requires code == First(cnt, i) && k == FirstSymbol(cnt, i) && size == cnt[i]
      modifies firstcode, firstsymbol, maxcode
      ensures LengthTables(cnt, i + 1)
    {
      firstcode[i] := code;
      firstsymbol[i] := k;
      maxcode[i] := Shl(code + size, 16 - i);
      forall s: nat | 0 < s < i + 1 ensures Row(cnt, s) {
        assert s < i ==> old(Row(cnt, s));
      }
    }

    /** The limit that stops every search. */
    method SetLimit(ghost cnt: seq<nat>)
      requires Shaped() && |cnt| == 16 && LengthTables(cnt, 16)
      modifies maxcode
      ensures LengthTables(cnt, 16) && maxcode[16] == 0x10000
    {
      maxcode[16] := 0x10000;
      forall s: nat | 0 < s < 16 ensures Row(cnt, s) {
        assert old(Row(cnt, s));
      }
    }

    ghost predicate AllFast(lens: seq<nat>, n: nat)
      requires Shaped() && Lengths(lens) && n <= |lens|
      reads fast
    {
      forall j: nat {:trigger FastEntry(lens, n, j)} :: j < FAST_SIZE ==> FastEntry(lens, n, j)
    }

    /** Enter symbol i, whose length is not 0, in the fast table if its code is short. */
    method EnterFast(lens: seq<nat>, i: nat, code: nat)
      requires Shaped() && Lengths(lens) && NotOversubscribed(Counts(lens)) && i < |lens| && lens[i] > 0
      requires code == Code(lens, i) && AllFast(lens, i)
      modifies fast
      ensures AllFast(lens, i + 1)
    {
      var s := lens[i];
      CodeFits(lens, i);
      if s <= FAST_BITS {
        var j := BitReverse(code, s);
        ReadBound(code, s);
        FillFast(j, s, s * 512 + i);
        ghost var n := i + 1;
        forall x: nat | x < FAST_SIZE ensures FastEntry(lens, n, x) {
          assert old(FastEntry(lens, i, x));
          LowIsReversed(x, code, s);
          if Prefix(lens, x, i) {
            forall i': nat | i' < i + 1 && Prefix(lens, x, i') ensures i' == i {
              PrefixUnique(lens, x, i, i');
            }
          }
        }
      } else {
        ghost var n := i + 1;
        forall x: nat | x < FAST_SIZE ensures FastEntry(lens, n, x) {
          assert old(FastEntry(lens, i, x));
        }
      }
    }

    /** One turn of the last loop. */
    method StoreSymbol(lens: seq<nat>, i: nat, next: array<nat>)
      requires Shaped() && Lengths(lens) && NotOversubscribed(Counts(lens)) && LengthTables(Counts(lens), 16)
      requires i < |lens| && next.Length == 16 && next !in Tables()
      requires lens[i] > 0 ==> next[lens[i]] == Code(lens, i)
      requires Values(lens, i) && AllFast(lens, i)
      modifies fast, size, value, next
      ensures Values(lens, i + 1) && AllFast(lens, i + 1)
      ensures forall s: nat :: s < 16 ==> next[s] == old(next[s]) + if s == lens[i] && s > 0 then 1 else 0
    {
      var s := lens[i];
      if s != 0 {
        assert Row(Counts(lens), s);
        IndexBound(lens, i);
        var c := next[s] - firstcode[s] + firstsymbol[s];
        size[c] := s;
        value[c] := i;
        forall k: nat | k < i + 1 && lens[k] > 0 ensures Stored(lens, k) {
          if k < i {
            assert old(Stored(lens, k));
            IndexInjective(lens, k, i);
          }
        }
        EnterFast(lens, i, next[s]);
        next[s] := next[s] + 1;
      } else {
        ghost var n := i + 1;
        forall x: nat | x < FAST_SIZE ensures FastEntry(lens, n, x) {
          assert old(FastEntry(lens, i, x));
        }
      }
    }

    /** _ssfn__zbuild_huffman: a list of code lengths is accepted unless it is over-subscribed. */
    method Build(lens: seq<nat>) returns (ok: bool)
      requires Shaped() && Lengths(lens)
      modifies Tables()
      ensures ok <==> NotOversubscribed(Counts(lens))
      ensures ok ==> Built(lens)
    {
      ghost var cnt := Counts(lens);
      var sizes, next;
      for j := 0 to FAST_SIZE
        invariant forall x: nat :: x < j ==> fast[x] == 0
      {
        fast[j] := 0;
      }
      ok, sizes := CountSizes(lens);
      if !ok {
        ghost var s: nat :| 0 < s < 16 && cnt[s] > Pow2(s);
        assert Top(cnt, s) > Pow2(s);
        return;
      }
      ok, next := AssignCodes(sizes, cnt);
      if !ok {
        return;
      }
      StoreAll(lens, next);
    }

    /** The last loop. */
    method StoreAll(lens: seq<nat>, next: array<nat>)
      requires Shaped() && Lengths(lens) && NotOversubscribed(Counts(lens)) && LengthTables(Counts(lens), 16)
      requires next.Length == 16 && next !in Tables()
      requires forall s: nat :: 0 < s < 16 ==> next[s] == First(Counts(lens), s)
      requires forall x: nat :: x < FAST_SIZE ==> fast[x] == 0
      modifies fast, size, value, next
      ensures Values(lens, |lens|) && AllFast(lens, |lens|)
    {
      ghost var cnt := Counts(lens);
      for i := 0 to |lens|
        invariant forall s: nat :: 0 < s < 16 ==> next[s] == First(cnt, s) + Count(lens, s, i)
        invariant Values(lens, i) && AllFast(lens, i)
      {
        StoreSymbol(lens, i, next);
      }
    }
  }

  // ---- The bit reader ----

  /** The bytes from pos on as one number, the first byte the least significant. */
  ghost function Bytes(input: seq<nat>, pos: nat): nat
    decreases |input| - pos
  {
    if pos >= |input| then 0 else Join(input[pos], 8, Bytes(input, pos + 1))
  }

  lemma Pow2Plus8(n: nat)
    ensures Pow2(n + 8) == 256 * Pow2(n)
  {
    assert Pow2(n + 4) == 16 * Pow2(n) by {
      assert Pow2(n + 2) == 4 * Pow2(n);
    }
    assert Pow2(n + 6) == 4 * Pow2(n + 4);
  }

  lemma Powers()
    ensures Pow2(8) == 256 && Pow2(9) == 512 && Pow2(16) == 0x10000
  {
    assert Pow2(1) == 2;
    Pow2Plus8(1);
    assert Pow2(0) == 1;
    Pow2Plus8(0);
    Pow2Plus8(8);
  }

  /** The low bits of the stream are those of the code buffer. */
  lemma SameWindow(cb: nat, n: nat, rest: nat)
    requires n >= 16
    ensures Low(Join(cb, n, rest), 16) == Low(cb, 16)
    ensures Low(Low(cb, 9), 9) == Low(cb, 9) == Low(Join(cb, n, rest), 9) && Low(cb, 9) < 512
  {
    LowOfJoin(cb, n, rest, 16);
    LowOfJoin(cb, n, rest, 9);
    LowBound(cb, 9);
    Powers();
    LowOfSmall(Low(cb, 9), 9);
  }

  class Zbuf {
    const input: seq<nat>
    var pos: nat
    var numBits: nat
    var codeBuffer: nat

    constructor (input: seq<nat>)
      requires forall i :: 0 <= i < |input| ==> input[i] < 256
      ensures Valid() && Stream() == Bytes(input, 0)
    {
      this.input, pos, numBits, codeBuffer := input, 0, 0, 0;
    }

    ghost predicate Valid()
      reads this
    {
      && (forall i :: 0 <= i < |input| ==> input[i] < 256)
      && numBits <= 32 && codeBuffer < Pow2(numBits)
    }

    /** All bits that are still to come. */
    ghost function Stream(): nat
      reads this
    {
      Join(codeBuffer, numBits, Bytes(input, pos))
    }

    /** _ssfn__fill_bits. */
    method FillBits()
      requires Valid() && numBits <= 24 && pos + (32 - numBits) / 8 <= |input|
      modifies this
      ensures Valid() && numBits > 24 && Stream() == old(Stream())
    {
      numBits, codeBuffer, pos := AddByte();
      while numBits <= 24
        invariant Valid() && Stream() == old(Stream())
        invariant numBits <= 24 ==> pos + (32 - numBits) / 8 <= |input|
        decreases 32 - numBits
      {
        numBits, codeBuffer, pos := AddByte();
      }
    }

    method AddByte() returns (n: nat, code: nat, p: nat)
      requires Valid() && numBits <= 24 && pos < |input|
      ensures n == numBits + 8 && p == pos + 1 && code < Pow2(n)
      ensures Join(code, n, Bytes(input, p)) == Stream()
    {
      code := codeBuffer + Shl(input[pos], numBits);
      n, p := numBits + 8, pos + 1;
      Powers();
      JoinJoin(codeBuffer, numBits, input[pos], 8, Bytes(input, p));
    }

    /** _ssfn__zhuffman_decode: the symbol of the one code that is a prefix of the stream, or -1. */
    method Decode(z: ZHuffman, ghost lens: seq<nat>) returns (sym: int)
      requires z.Shaped() && Lengths(lens) && z.Built(lens) && Valid() && this !in z.Tables()
      requires numBits < 16 ==> pos + (32 - numBits) / 8 <= |input|
      modifies this
      ensures Valid()
      ensures sym == -1 || sym >= 0
      ensures sym >= 0 ==> Prefix(lens, old(Stream()), sym) && Stream() == Shr(old(Stream()), lens[sym])
      ensures sym == -1 ==> Stream() == old(Stream()) && forall i: nat :: !Prefix(lens, old(Stream()), i)
    {
      if numBits < 16 {
        FillBits();
      }
      sym := DecodeWindow(z, lens);
    }

    /** The same once there are 16 bits in the buffer. */
    method DecodeWindow(z: ZHuffman, ghost lens: seq<nat>) returns (sym: int)
      requires z.Shaped() && Lengths(lens) && z.Built(lens) && Valid() && numBits >= 16
      modifies this`codeBuffer, this`numBits
      ensures Valid()
      ensures sym == -1 || sym >= 0
      ensures sym >= 0 ==> Prefix(lens, old(Stream()), sym) && Stream() == Shr(old(Stream()), lens[sym])
      ensures sym == -1 ==> Stream() == old(Stream()) && forall i: nat :: !Prefix(lens, old(Stream()), i)
    {
      ghost var v, cb := Stream(), codeBuffer;
      SameWindow(cb, numBits, Bytes(input, pos));
      var j := Low(codeBuffer, FAST_BITS);
      assert z.FastEntry(lens, |lens|, j);
      var b := z.fast[j];
      if b != 0 {
        ghost var i := FastSymbol(z, lens, v, j);
        Consume(b / 512);
        sym := b % 512;
      } else {
        NoShortCode(z, lens, cb, j);
        sym := SlowPath(z, lens);
        SlowAnswer(lens, v, cb, sym);
      }
    }

    method Consume(s: nat)
      requires Valid() && s <= numBits
      modifies this`codeBuffer, this`numBits
      ensures Valid() && Stream() == Shr(old(Stream()), s)
    {
      ShrOfJoin(codeBuffer, numBits, Bytes(input, pos), s);
      ShrBound(codeBuffer, numBits, s);
      codeBuffer := Shr(codeBuffer, s);
      numBits := numBits - s;
    }

    /** _ssfn__zhuffman_decode_slowpath. */
    method SlowPath(z: ZHuffman, ghost lens: seq<nat>) returns (sym: int)
      requires z.Shaped() && Lengths(lens) && z.Built(lens) && Valid() && numBits >= 16
      requires Read(codeBuffer, FAST_BITS) >= Top(Counts(lens), FAST_BITS)
      modifies this`codeBuffer, this`numBits
      ensures Valid()
      ensures sym == -1 || sym >= 0
      ensures sym >= 0 ==> Prefix(lens, old(codeBuffer), sym) && Stream() == Shr(old(Stream()), lens[sym])
      ensures sym == -1 ==> Stream() == old(Stream()) && Read(old(codeBuffer), 15) >= Top(Counts(lens), 15)
    {
      ghost var cnt := Counts(lens);
      var k := BitReverse(codeBuffer, 16);
      var s := FindLength(z, cnt, codeBuffer, k);
      if s == 16 {
        return -1;
      }
      sym := SymbolAt(z, lens, codeBuffer, k, s);
      Consume(s);
    }

    /** The symbol of the code of length s. */
    static method SymbolAt(z: ZHuffman, ghost lens: seq<nat>, ghost cb: nat, k: nat, s: nat) returns (sym: nat)
      requires z.Shaped() && Lengths(lens) && z.Built(lens) && k == Read(cb, 16)
      requires 1 < s < 16 && Read(cb, s) < Top(Counts(lens), s) && Read(cb, s - 1) >= Top(Counts(lens), s - 1)
      ensures Prefix(lens, cb, sym) && lens[sym] == s
    {
      ghost var i := LongSymbol(z, lens, cb, s);
      var b := Shr(k, 16 - s) - z.firstcode[s] + z.firstsymbol[s];
      sym := z.value[b];
    }

    /** The search for the first length whose limit lies above k. */
    static method FindLength(z: ZHuffman, ghost cnt: seq<nat>, ghost cb: nat, k: nat) returns (s: nat)
      requires z.Shaped() && |cnt| == 16 && z.LengthTables(cnt, 16) && z.maxcode[16] == 0x10000 && k == Read(cb, 16)
      requires Read(cb, FAST_BITS) >= Top(cnt, FAST_BITS)
      ensures FAST_BITS < s <= 16 && (s < 16 ==> Read(cb, s) < Top(cnt, s))
      ensures Read(cb, s - 1) >= Top(cnt, s - 1)
    {
      s := FAST_BITS + 1;
      ReadBound(cb, 16);
      Powers();
      while k >= z.maxcode[s]
        invariant FAST_BITS < s <= 16 && Read(cb, s - 1) >= Top(cnt, s - 1)
        decreases 16 - s
      {
        Limit(z, cnt, cb, s);
        s := s + 1;
      }
      if s < 16 {
        Limit(z, cnt, cb, s);
      }
    }

    static lemma Limit(z: ZHuffman, cnt: seq<nat>, cb: nat, s: nat)
      requires z.Shaped() && |cnt| == 16 && z.LengthTables(cnt, 16) && 0 < s < 16
      ensures Read(cb, 16) < z.maxcode[s] <==> Read(cb, s) < Top(cnt, s)
    {
      assert z.Row(cnt, s);
      ShlLess(Read(cb, 16), Top(cnt, s), 16 - s);
      ShrOfRead(cb, 16, s);
    }
  }

  /** When the fast table has no entry, no code of up to nine bits is a prefix. */
  lemma NoShortCode(z: ZHuffman, lens: seq<nat>, v: nat, j: nat)
    requires z.Shaped() && Lengths(lens) && j < FAST_SIZE && Low(j, FAST_BITS) == Low(v, FAST_BITS)
    requires z.FastEntry(lens, |lens|, j) && z.fast[j] == 0
    ensures Read(v, FAST_BITS) >= Top(Counts(lens), FAST_BITS)
  {
    if Read(v, FAST_BITS) < Top(Counts(lens), FAST_BITS) {
      var t := BelowTopHasHit(Counts(lens), v, FAST_BITS);
      var i := HitIsPrefix(lens, v, t);
      PrefixLow(lens, j, v, FAST_BITS, i);
    }
  }

  /** What an entry of the fast table says. */
  lemma FastSymbol(z: ZHuffman, lens: seq<nat>, v: nat, j: nat) returns (i: nat)
    requires z.Shaped() && Lengths(lens) && j < FAST_SIZE && Low(j, FAST_BITS) == Low(v, FAST_BITS)
    requires z.FastEntry(lens, |lens|, j) && z.fast[j] != 0
    ensures Prefix(lens, v, i) && lens[i] <= FAST_BITS && z.fast[j] / 512 == lens[i] && z.fast[j] % 512 == i
  {
    i :| i < |lens| && lens[i] <= FAST_BITS && Prefix(lens, j, i);
    PrefixLow(lens, j, v, FAST_BITS, i);
  }

  /** The buffer and the stream have the same codes as prefixes. */
  lemma SlowAnswer(lens: seq<nat>, v: nat, cb: nat, sym: int)
    requires Lengths(lens) && Low(v, 16) == Low(cb, 16)
    ensures sym >= 0 && Prefix(lens, cb, sym) ==> Prefix(lens, v, sym)
    ensures Read(cb, 15) >= Top(Counts(lens), 15) ==> forall i: nat :: !Prefix(lens, v, i)
  {
    if 0 <= sym < |lens| {
      PrefixLow(lens, v, cb, 16, sym);
    }
    forall i: nat | Read(cb, 15) >= Top(Counts(lens), 15) ensures !Prefix(lens, v, i) {
      NoCode(lens, cb, i);
      if i < |lens| {
        PrefixLow(lens, v, cb, 16, i);
      }
    }
  }

  /** What the tables say of a code of length s. */
  lemma LongSymbol(z: ZHuffman, lens: seq<nat>, cb: nat, s: nat) returns (i: nat)
    requires z.Shaped() && Lengths(lens) && z.Built(lens)
    requires 1 < s < 16 && Read(cb, s) < Top(Counts(lens), s) && Read(cb, s - 1) >= Top(Counts(lens), s - 1)
    ensures Prefix(lens, cb, i) && lens[i] == s
    ensures var b := Shr(Read(cb, 16), 16 - s) - z.firstcode[s] + z.firstsymbol[s]; 0 <= b < 288 && z.value[b] == i
  {
    var cnt := Counts(lens);
    FirstBelowIsHit(cnt, cb, s);
    i := HitIsPrefix(lens, cb, s);
    ShrOfRead(cb, 16, s);
    assert z.Row(cnt, s) && z.Stored(lens, i);
  }

  /** Bits above all limits have no code as a prefix. */
  lemma NoCode(lens: seq<nat>, v: nat, i: nat)
    requires Read(v, 15) >= Top(Counts(lens), 15)
    ensures !Prefix(lens, v, i)
  {
    if Prefix(lens, v, i) {
      PrefixIsHit(lens, v, i);
      if lens[i] < 15 {
        PastTheTop(Counts(lens), v, lens[i], 15);
      }
    }
  }
}
