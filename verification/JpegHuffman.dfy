/** The Huffman tables of the JPEG decoder (usr/include/nanojpeg.c:641-692, 725-734). */
module JpegHuffman {
  import opened BitStream
  import opened CanonicalCode

  const SIZE: nat := 65536

  /** The first s bits of the 16-bit value v, most significant bit first. */
  function Head(v: nat, s: nat): nat
    requires s <= 16
  {
    Shr(v, 16 - s)
  }

  /** The code of length s that v begins with, if there is one, belongs to this symbol. */
  ghost function SymbolAt(cnt: seq<nat>, v: nat, s: nat): int
    requires |cnt| == 17 && 0 < s <= 16
  {
    FirstSymbol(cnt, s) + (Head(v, s) - First(cnt, s))
  }

  /** v begins with a code of length s. */
  ghost predicate Begins(cnt: seq<nat>, v: nat, s: nat)
    requires |cnt| == 17
  {
    0 < s <= 16 && First(cnt, s) <= Head(v, s) < Top(cnt, s)
  }

  /** A lookup entry for v: the length and the symbol of the code that v begins with. */
  ghost predicate Entry(cnt: seq<nat>, data: seq<nat>, v: nat, bits: nat, code: nat)
    requires |cnt| == 17
  {
    && Begins(cnt, v, bits)
    && 0 <= SymbolAt(cnt, v, bits) < |data| && code == data[SymbolAt(cnt, v, bits)]
  }

  /** The length of the table up to codes of length s. */
  ghost function Used(cnt: seq<nat>, s: nat): nat
    requires |cnt| == 17 && s <= 16
  {
    Weight(cnt, 16, s)
  }

  /** Seen from the other end, the 16 bits are a stream whose first s bits are the head of v. */
  lemma HeadIsRead(v: nat, s: nat)
    requires v < SIZE && s <= 16
    ensures Head(v, s) == Read(Read(v, 16), s)
  {
    Sixteen();
    ReadTwice(v, 16);
    ShrOfRead(Read(v, 16), 16, s);
  }

  lemma Sixteen()
    ensures Pow2(16) == SIZE
  {
    assert Pow2(4) == 16;
    assert Pow2(8) == 16 * Pow2(4);
    assert Pow2(12) == 16 * Pow2(8);
    assert Pow2(16) == 16 * Pow2(12);
  }

  /** At most one length fits. */
  lemma BeginsUnique(cnt: seq<nat>, v: nat, s: nat, t: nat)
    requires |cnt| == 17 && v < SIZE && Begins(cnt, v, s) && Begins(cnt, v, t)
    ensures s == t
  {
    HeadIsRead(v, s);
    HeadIsRead(v, t);
    UniqueHit(cnt, Read(v, 16), s, t);
  }

  /** No code is a beginning of a value past the used part of the table. */
  lemma PastUsed(cnt: seq<nat>, v: nat, s: nat)
    requires |cnt| == 17 && v >= Used(cnt, 16)
    ensures !Begins(cnt, v, s)
  {
    if Begins(cnt, v, s) {
      ShlLess(v, Top(cnt, s), 16 - s);
      TopIsWeight(cnt, 16, s);
      WeightGrows(cnt, 16, s, 16);
    }
  }

  // ---- Building the table ----

  class Table {
    const bits: array<nat>
    const code: array<nat>

    constructor ()
      ensures Shaped() && fresh(bits) && fresh(code)
    {
      bits := new nat[SIZE];
      code := new nat[SIZE];
    }

    ghost predicate Shaped() {
      bits.Length == SIZE && code.Length == SIZE && bits != code
    }

    /** The first n entries are written. */
    ghost predicate Written(cnt: seq<nat>, data: seq<nat>, n: nat)
      requires Shaped() && |cnt| == 17 && n <= SIZE
      reads bits, code
    {
      forall v: nat {:trigger At(cnt, data, v)} :: v < n ==> At(cnt, data, v)
    }

    ghost predicate At(cnt: seq<nat>, data: seq<nat>, v: nat)
      requires Shaped() && |cnt| == 17 && v < SIZE
      reads bits, code
    {
      Entry(cnt, data, v, bits[v], code[v])
    }

    /** The loop over spread entries: one code word of length s. */
    method WriteCode(cnt: seq<nat>, data: seq<nat>, s: nat, i: nat, from: nat, spread: nat)
      requires Shaped() && |cnt| == 17 && 0 < s <= 16 && i < cnt[s] && FirstSymbol(cnt, s) + i < |data|
      requires from == Shl(First(cnt, s) + i, 16 - s) && from + spread == Shl(First(cnt, s) + i + 1, 16 - s) <= SIZE
      requires Written(cnt, data, from)
      modifies bits, code
      ensures Written(cnt, data, from + spread)
    {
      var j := spread;
      while j != 0
        invariant 0 <= j <= spread && Written(cnt, data, from + (spread - j))
      {
        label before:
        var p := from + (spread - j);
        bits[p] := s;
        code[p] := data[FirstSymbol(cnt, s) + i];
        ShlLess(p, First(cnt, s) + i, 16 - s);
        ShlLess(p, First(cnt, s) + i + 1, 16 - s);
        forall v: nat | v < p + 1 ensures At(cnt, data, v) {
          assert v < p ==> old@before(At(cnt, data, v));
        }
        j := j - 1;
      }
    }

    /** The code word after the i-th of length s begins one spread later. */
    static lemma OneMore(cnt: seq<nat>, s: nat, i: nat)
      requires |cnt| == 17 && 0 < s <= 16 && i < cnt[s]
      ensures Shl(First(cnt, s) + (i + 1), 16 - s) == Shl(First(cnt, s) + i, 16 - s) + Pow2(16 - s)
      ensures Shl(First(cnt, s) + (i + 1), 16 - s) <= Shl(Top(cnt, s), 16 - s)
    {
      ShlAdds(First(cnt, s) + i, 1, 16 - s);
      ShlPow2(0, 16 - s);
      ShlOrder(First(cnt, s) + i + 1, Top(cnt, s), 16 - s);
    }

    /** All code words of length s. */
    method WriteLength(cnt: seq<nat>, data: seq<nat>, s: nat, from: nat, spread: nat) returns (p: nat)
      requires Shaped() && |cnt| == 17 && 0 < s <= 16 && FirstSymbol(cnt, s) + cnt[s] <= |data|
      requires from == Shl(First(cnt, s), 16 - s) <= SIZE && spread == Pow2(16 - s) && Shl(Top(cnt, s), 16 - s) <= SIZE
      requires Written(cnt, data, from)
      modifies bits, code
      ensures p == Shl(Top(cnt, s), 16 - s) && Written(cnt, data, p)
    {
      p := from;
      for i := 0 to cnt[s]
        invariant p == Shl(First(cnt, s) + i, 16 - s) <= SIZE && Written(cnt, data, p)
      {
        OneMore(cnt, s, i);
        WriteCode(cnt, data, s, i, p, spread);
        p := p + spread;
      }
    }

    /** Whether the table is complete and says of each value which code it begins with. */
    ghost predicate Built(cnt: seq<nat>, data: seq<nat>)
      requires Shaped() && |cnt| == 17
      reads bits, code
    {
      forall v: nat {:trigger Right(cnt, data, v)} :: v < SIZE ==> Right(cnt, data, v)
    }

    ghost predicate Right(cnt: seq<nat>, data: seq<nat>, v: nat)
      requires Shaped() && |cnt| == 17 && v < SIZE
      reads bits, code
    {
      if bits[v] == 0 then forall s :: !Begins(cnt, v, s) else At(cnt, data, v)
    }

    /** njDecodeDHT, for one table: counts of the code lengths 1 to 16, then the symbols. */
    method Build(counts: seq<nat>, data: seq<nat>) returns (ok: bool)
      requires Shaped() && |counts| == 16
      modifies bits, code
      ensures ok <==> var cnt := [0] + counts; NotOversubscribed(cnt) && FirstSymbol(cnt, 17) <= |data|
      ensures ok ==> Built([0] + counts, data)
    {
      var cnt := [0] + counts;
      KraftInequality(cnt);
      Sixteen();
      var remain, spread, off, p := SIZE, SIZE, 0, 0;
      for codelen := 1 to 17
        invariant spread == Pow2(17 - codelen) && remain == SIZE - Used(cnt, codelen - 1) && remain >= 0
        invariant p == Used(cnt, codelen - 1) && off == FirstSymbol(cnt, codelen) <= |data|
        invariant Written(cnt, data, p)
      {
        spread := spread / 2;
        var currcnt := counts[codelen - 1];
        assert cnt[codelen] == currcnt;
        Start(cnt, codelen);
        WeightGrows(cnt, 16, codelen, 16);
        if currcnt != 0 {
          FirstSymbolGrows(cnt, codelen, 17);
          if |data| - off < currcnt {
            return false;
          }
          remain := remain - Shl(currcnt, 16 - codelen);
          if remain < 0 {
            return false;
          }
          p := WriteLength(cnt, data, codelen, p, spread);
          off := off + currcnt;
        } else {
          ZeroShl(16 - codelen);
        }
      }
      ClearRest(cnt, data, p, remain);
      return true;
    }

    /** The loop that marks the remaining entries as unused. */
    method ClearRest(cnt: seq<nat>, data: seq<nat>, p: nat, remain: nat)
      requires Shaped() && |cnt| == 17 && p == Used(cnt, 16) && p + remain == SIZE && Written(cnt, data, p)
      modifies bits
      ensures Built(cnt, data)
    {
      for q := p to SIZE
        invariant forall v: nat :: v < p ==> bits[v] == old(bits[v])
        invariant forall v: nat :: p <= v < q ==> bits[v] == 0
      {
        bits[q] := 0;
      }
      forall v: nat | v < SIZE ensures Right(cnt, data, v) {
        if v < p {
          assert old(At(cnt, data, v));
        } else {
          forall s ensures !Begins(cnt, v, s) {
            if s >= 0 {
              PastUsed(cnt, v, s);
            }
          }
        }
      }
    }

    /** The lookup of njGetVLC. */
    method Lookup(v: nat, ghost cnt: seq<nat>, ghost data: seq<nat>) returns (found: bool, n: nat, c: nat)
      requires Shaped() && |cnt| == 17 && v < SIZE && Built(cnt, data)
      ensures found <==> Decode(cnt, v, 1) != 17
      ensures found ==> n == Decode(cnt, v, 1) && 0 < n <= 16
      ensures found ==> 0 <= SymbolAt(cnt, v, n) < |data| && c == data[SymbolAt(cnt, v, n)]
    {
      assert Right(cnt, data, v);
      DecodeIsBegins(cnt, v);
      n := bits[v];
      if n == 0 {
        return false, 0, 0;
      }
      if Decode(cnt, v, 1) != 17 {
        BeginsUnique(cnt, v, n, Decode(cnt, v, 1));
      }
      return true, n, code[v];
    }
  }

  lemma Start(cnt: seq<nat>, s: nat)
    requires |cnt| == 17 && 0 < s <= 16
    ensures Used(cnt, s - 1) == Shl(First(cnt, s), 16 - s) && Used(cnt, s) == Shl(Top(cnt, s), 16 - s)
    ensures Used(cnt, s) == Used(cnt, s - 1) + Shl(cnt[s], 16 - s)
  {
    TopIsWeight(cnt, 16, s);
    if s > 1 {
      TopIsWeight(cnt, 16, s - 1);
    } else {
      ZeroShl(16 - s);
    }
  }

  // ---- The reference procedure ----

  /** DECODE of section F.2.2.3 of ITU-T T.81: lengthen the code until it does not exceed MAXCODE, which is
      -1 for a length without codes; 17 when it never happens. */
  function Decode(cnt: seq<nat>, v: nat, i: nat): nat
    requires |cnt| == 17 && 0 < i <= 17
    decreases 17 - i
  {
    if i == 17 then 17
    else
      var maxcode := if cnt[i] == 0 then -1 else Top(cnt, i) - 1;
      if Head(v, i) <= maxcode then i else Decode(cnt, v, i + 1)
  }

  lemma {:induction false} DecodeStops(cnt: seq<nat>, v: nat, i: nat)
    requires |cnt| == 17 && 0 < i <= 17
    ensures var s := Decode(cnt, v, i); i <= s <= 17 && (s < 17 ==> cnt[s] > 0 && Head(v, s) < Top(cnt, s))
    ensures forall t {:trigger Top(cnt, t)} :: i <= t < Decode(cnt, v, i) ==> cnt[t] == 0 || Head(v, t) >= Top(cnt, t)
    decreases 17 - i
  {
    if i < 17 {
      DecodeStops(cnt, v, i + 1);
    }
  }

  /** The procedure finds the code that v begins with. */
  lemma DecodeIsBegins(cnt: seq<nat>, v: nat)
    requires |cnt| == 17 && v < SIZE
    ensures Decode(cnt, v, 1) != 17 ==> Begins(cnt, v, Decode(cnt, v, 1))
    ensures Decode(cnt, v, 1) == 17 ==> forall s :: !Begins(cnt, v, s)
  {
    var s := Decode(cnt, v, 1);
    DecodeStops(cnt, v, 1);
    forall t: nat | 0 < t < s ensures !Begins(cnt, v, t) {
      assert Top(cnt, t) == First(cnt, t) + cnt[t];
    }
    if s < 17 {
      HeadIsRead(v, s);
      var t := BelowTopHasHit(cnt, Read(v, 16), s);
      HeadIsRead(v, t);
      assert Begins(cnt, v, t);
    }
  }
}
