/** Canonical prefix codes: section 3.2.2 of RFC 1951 and section C.2 of ITU-T T.81. */
module CanonicalCode {
  import opened BitStream

  // ---- Codes given by how many there are of each length ----

  /** The first code of length s: counting goes on where the shorter codes stopped. */
  function First(cnt: seq<nat>, s: nat): nat
    requires s < |cnt|
    decreases s, 0
  {
    if s <= 1 then 0 else 2 * Top(cnt, s - 1)
  }

  /** One past the last code of length s. */
  function Top(cnt: seq<nat>, s: nat): nat
    requires s < |cnt|
    decreases s, 1
  {
    First(cnt, s) + cnt[s]
  }

  /** No length has more codes than fit. */
  ghost predicate NotOversubscribed(cnt: seq<nat>) {
    forall s {:trigger Top(cnt, s)} :: 0 < s < |cnt| ==> Top(cnt, s) <= Pow2(s)
  }

  /** Some code of length s is a prefix of the bits of v. */
  ghost predicate Hit(cnt: seq<nat>, v: nat, s: nat) {
    0 < s < |cnt| && First(cnt, s) <= Read(v, s) < Top(cnt, s)
  }

  lemma {:induction false} PastTheTop(cnt: seq<nat>, v: nat, s: nat, t: nat)
    requires 0 < s < t < |cnt| && Read(v, s) < Top(cnt, s)
    ensures Read(v, t) < First(cnt, t)
    decreases t
  {
    if s + 1 < t {
      PastTheTop(cnt, v, s, t - 1);
    }
  }

  /** Codes of two lengths are never both prefixes. */
  lemma UniqueHit(cnt: seq<nat>, v: nat, s: nat, t: nat)
    requires Hit(cnt, v, s) && Hit(cnt, v, t)
    ensures s == t
  {
    if s < t {
      PastTheTop(cnt, v, s, t);
    } else if t < s {
      PastTheTop(cnt, v, t, s);
    }
  }

  /** The least length at which the bits fall below the top has a code that is a prefix. */
  lemma FirstBelowIsHit(cnt: seq<nat>, v: nat, s: nat)
    requires 0 < s < |cnt| && Read(v, s) < Top(cnt, s)
    requires s > 1 ==> Read(v, s - 1) >= Top(cnt, s - 1)
    ensures Hit(cnt, v, s)
  {
  }

  lemma {:induction false} BelowTopHasHit(cnt: seq<nat>, v: nat, s: nat) returns (t: nat)
    requires 0 < s < |cnt| && Read(v, s) < Top(cnt, s)
    ensures t <= s && Hit(cnt, v, t)
  {
    if s > 1 && Read(v, s - 1) < Top(cnt, s - 1) {
      t := BelowTopHasHit(cnt, v, s - 1);
    } else {
      t := s;
    }
  }

  /** Only the bits that are read matter. */
  lemma HitLow(cnt: seq<nat>, v: nat, w: nat, n: nat, s: nat)
    requires Low(v, n) == Low(w, n) && s <= n
    ensures Read(v, s) == Read(w, s) && (Hit(cnt, v, s) <==> Hit(cnt, w, s))
  {
    SameBits(v, w, n);
    SameRead(v, w, s);
  }

  /** How many symbols have shorter codes. */
  function FirstSymbol(cnt: seq<nat>, s: nat): nat
    requires s <= |cnt|
  {
    if s <= 1 then 0 else FirstSymbol(cnt, s - 1) + cnt[s - 1]
  }

  lemma {:induction false} FirstSymbolGrows(cnt: seq<nat>, s: nat, t: nat)
    requires 0 < s < t <= |cnt|
    ensures FirstSymbol(cnt, s) + cnt[s] <= FirstSymbol(cnt, t)
    decreases t
  {
    if s + 1 < t {
      FirstSymbolGrows(cnt, s, t - 1);
    }
  }

  // ---- Which counts can be codes ----

  /** The sum of 2^(top - t) over all codes of length t <= s. */
  function Weight(cnt: seq<nat>, top: nat, s: nat): nat
    requires s < |cnt| && s <= top
  {
    if s == 0 then 0 else Weight(cnt, top, s - 1) + Shl(cnt[s], top - s)
  }

  lemma {:induction false} ShlAdds(x: nat, y: nat, n: nat)
    ensures Shl(x + y, n) == Shl(x, n) + Shl(y, n)
    decreases n
  {
    if n > 0 {
      ShlAdds(2 * x, 2 * y, n - 1);
    }
  }

  lemma {:induction false} TopIsWeight(cnt: seq<nat>, top: nat, s: nat)
    requires 0 < s < |cnt| && s <= top
    ensures Shl(Top(cnt, s), top - s) == Weight(cnt, top, s)
  {
    ShlAdds(First(cnt, s), cnt[s], top - s);
    if s > 1 {
      TopIsWeight(cnt, top, s - 1);
    } else {
      ZeroShl(top - s);
      assert Weight(cnt, top, 0) == 0;
    }
  }

  lemma {:induction false} ZeroShl(n: nat)
    ensures Shl(0, n) == 0
  {
    if n > 0 {
      ZeroShl(n - 1);
    }
  }

  lemma {:induction false} ShlPow2(s: nat, n: nat)
    ensures Shl(Pow2(s), n) == Pow2(s + n)
    decreases n
  {
    if n > 0 {
      ShlPow2(s + 1, n - 1);
    }
  }

  lemma {:induction false} ShlOrder(x: nat, y: nat, n: nat)
    ensures x <= y <==> Shl(x, n) <= Shl(y, n)
    decreases n
  {
    if n > 0 {
      ShlOrder(2 * x, 2 * y, n - 1);
    }
  }

  lemma {:induction false} WeightGrows(cnt: seq<nat>, top: nat, s: nat, t: nat)
    requires s <= t < |cnt| && t <= top
    ensures Weight(cnt, top, s) <= Weight(cnt, top, t)
    decreases t
  {
    if s < t {
      WeightGrows(cnt, top, s, t - 1);
    }
  }

  /** The test of each length amounts to Kraft's inequality. */
  lemma KraftInequality(cnt: seq<nat>)
    requires |cnt| > 1
    ensures NotOversubscribed(cnt) <==> Weight(cnt, |cnt| - 1, |cnt| - 1) <= Pow2(|cnt| - 1)
  {
    var top := |cnt| - 1;
    TopIsWeight(cnt, top, top);
    assert NotOversubscribed(cnt) ==> Top(cnt, top) <= Pow2(top);
    forall s: nat | 0 < s <= top && Weight(cnt, top, top) <= Pow2(top) ensures Top(cnt, s) <= Pow2(s) {
      TopIsWeight(cnt, top, s);
      WeightGrows(cnt, top, s, top);
      ShlPow2(s, top - s);
      ShlOrder(Top(cnt, s), Pow2(s), top - s);
    }
  }

  // ---- Codes given by the length of each symbol ----

  /** How many of the first n symbols have codes of length s. */
  function Count(lens: seq<nat>, s: nat, n: nat): nat
    requires n <= |lens|
  {
    if n == 0 then 0 else Count(lens, s, n - 1) + if lens[n - 1] == s then 1 else 0
  }

  function Counts(lens: seq<nat>): (cnt: seq<nat>)
    ensures |cnt| == 16
  {
    seq(16, s requires 0 <= s < 16 => if s == 0 then 0 else Count(lens, s, |lens|))
  }

  ghost predicate Lengths(lens: seq<nat>) {
    |lens| <= 288 && forall i :: 0 <= i < |lens| ==> lens[i] < 16
  }

  /** The code of symbol i: symbols of one length get consecutive codes in their own order. */
  function Code(lens: seq<nat>, i: nat): nat
    requires i < |lens| && lens[i] < 16
  {
    First(Counts(lens), lens[i]) + Count(lens, lens[i], i)
  }

  /** The code of symbol i is a prefix of the bits of v. */
  ghost predicate Prefix(lens: seq<nat>, v: nat, i: nat) {
    i < |lens| && 0 < lens[i] < 16 && Read(v, lens[i]) == Code(lens, i)
  }

  lemma {:induction false} CountGrows(lens: seq<nat>, s: nat, m: nat, n: nat)
    requires m <= n <= |lens|
    ensures Count(lens, s, m) <= Count(lens, s, n)
    ensures m < n && lens[m] == s ==> Count(lens, s, m) < Count(lens, s, n)
    decreases n
  {
    if m < n {
      CountGrows(lens, s, m, n - 1);
    }
  }

  lemma PrefixIsHit(lens: seq<nat>, v: nat, i: nat)
    requires Prefix(lens, v, i)
    ensures Hit(Counts(lens), v, lens[i])
  {
    CountGrows(lens, lens[i], i, |lens|);
  }

  /** The symbol of length s and rank r. */
  lemma {:induction false} SymbolOfRank(lens: seq<nat>, s: nat, r: nat, n: nat) returns (i: nat)
    requires n <= |lens| && r < Count(lens, s, n)
    ensures i < n && lens[i] == s && Count(lens, s, i) == r
  {
    if lens[n - 1] == s && Count(lens, s, n - 1) == r {
      i := n - 1;
    } else {
      i := SymbolOfRank(lens, s, r, n - 1);
    }
  }

  lemma HitIsPrefix(lens: seq<nat>, v: nat, s: nat) returns (i: nat)
    requires Hit(Counts(lens), v, s)
    ensures Prefix(lens, v, i) && lens[i] == s
  {
    i := SymbolOfRank(lens, s, Read(v, s) - First(Counts(lens), s), |lens|);
  }

  /** The code is prefix-free: at most one code is a prefix. */
  lemma PrefixUnique(lens: seq<nat>, v: nat, i: nat, j: nat)
    requires Prefix(lens, v, i) && Prefix(lens, v, j)
    ensures i == j
  {
    PrefixIsHit(lens, v, i);
    PrefixIsHit(lens, v, j);
    UniqueHit(Counts(lens), v, lens[i], lens[j]);
    if i < j {
      CountGrows(lens, lens[i], i, j);
    } else if j < i {
      CountGrows(lens, lens[i], j, i);
    }
  }

  lemma PrefixLow(lens: seq<nat>, v: nat, w: nat, n: nat, i: nat)
    requires Low(v, n) == Low(w, n) && i < |lens| && lens[i] <= n
    ensures Prefix(lens, v, i) <==> Prefix(lens, w, i)
  {
    HitLow(Counts(lens), v, w, n, lens[i]);
  }

  lemma CodeFits(lens: seq<nat>, i: nat)
    requires Lengths(lens) && NotOversubscribed(Counts(lens)) && i < |lens| && lens[i] > 0
    ensures Code(lens, i) < Top(Counts(lens), lens[i]) <= Pow2(lens[i])
  {
    CountGrows(lens, lens[i], i, |lens|);
  }

  /** The bits of a sequence of code words, followed by those of rest. */
  function Encode(lens: seq<nat>, syms: seq<nat>, rest: nat): nat
    requires forall k :: 0 <= k < |syms| ==> syms[k] < |lens| && 0 < lens[syms[k]] < 16
  {
    if syms == [] then rest
    else
      var s := lens[syms[0]];
      Join(Read(Code(lens, syms[0]), s), s, Encode(lens, syms[1..], rest))
  }

  /** The first code word is the only one that is a prefix, and behind it the others follow. */
  lemma EncodeHasPrefix(lens: seq<nat>, syms: seq<nat>, rest: nat)
    requires Lengths(lens) && NotOversubscribed(Counts(lens)) && syms != []
    requires forall k :: 0 <= k < |syms| ==> syms[k] < |lens| && 0 < lens[syms[k]] < 16
    ensures Prefix(lens, Encode(lens, syms, rest), syms[0])
    ensures Shr(Encode(lens, syms, rest), lens[syms[0]]) == Encode(lens, syms[1..], rest)
  {
    var i := syms[0];
    var s := lens[i];
    CodeFits(lens, i);
    var c, e := Code(lens, i), Encode(lens, syms[1..], rest);
    ReadBound(c, s);
    LowOfSmall(Read(c, s), s);
    LowOfJoin(Read(c, s), s, e, s);
    ShrOfJoin(Read(c, s), s, e, s);
    LowIsReversed(Encode(lens, syms, rest), c, s);
  }

  /** Reading symbol after symbol from the bits of v yields syms and leaves rest. */
  ghost predicate Decodes(lens: seq<nat>, v: nat, syms: seq<nat>, rest: nat)
    decreases syms
  {
    if syms == [] then v == rest
    else Prefix(lens, v, syms[0]) && Decodes(lens, Shr(v, lens[syms[0]]), syms[1..], rest)
  }

  /** Decoding undoes encoding, ... */
  lemma {:induction false} EncodeDecodes(lens: seq<nat>, syms: seq<nat>, rest: nat)
    requires Lengths(lens) && NotOversubscribed(Counts(lens))
    requires forall k :: 0 <= k < |syms| ==> syms[k] < |lens| && 0 < lens[syms[k]] < 16
    ensures Decodes(lens, Encode(lens, syms, rest), syms, rest)
  {
    if syms != [] {
      EncodeHasPrefix(lens, syms, rest);
      EncodeDecodes(lens, syms[1..], rest);
    }
  }

  /** ... and no other symbols can be read from the same bits. */
  lemma {:induction false} DecodesUnique(lens: seq<nat>, v: nat, a: seq<nat>, x: nat, b: seq<nat>, y: nat)
    requires Decodes(lens, v, a, x) && Decodes(lens, v, b, y) && |a| == |b|
    ensures a == b && x == y
    decreases a
  {
    if a != [] {
      PrefixUnique(lens, v, a[0], b[0]);
      DecodesUnique(lens, Shr(v, lens[a[0]]), a[1..], x, b[1..], y);
      assert a == [a[0]] + a[1..] && b == [b[0]] + b[1..];
    }
  }
}
