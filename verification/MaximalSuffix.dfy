/** The maximal-suffix pass of the two-way search (kernel/lib/string.c:252-303). */
module MaximalSuffix {
  import opened CMemory
  import opened CriticalFactorization

  /** w[s..s+p] is strictly greater, at a byte inside itself, than each of its proper suffixes. */
  ghost predicate Dominant(w: seq<byte>, s: nat, p: nat, rev: bool) {
    p > 0 && forall t: nat :: s < t < s + p ==> LosesInside(w, t, s, p, rev)
  }

  /** The suffix at t loses to the one at s at a byte before s + p. */
  ghost predicate LosesInside(w: seq<byte>, t: nat, s: nat, p: nat, rev: bool) {
    exists q: nat :: t + q < s + p && LosesAt(w, t, s, q, rev)
  }

  /** Every suffix that starts before s loses to the one at s. */
  ghost predicate BeatsEarlier(w: seq<byte>, s: nat, rev: bool) {
    forall t: nat :: t < s ==> Loses(w, t, s, rev)
  }

  /** a * p, as the repeated addition it stands for. */
  ghost function Times(a: nat, p: nat): nat {
    if a == 0 then 0 else Times(a - 1, p) + p
  }

  /** Going any number of periods back does not change the byte read. */
  lemma {:induction false} PeriodMultiple(w: seq<byte>, from: nat, to: nat, p: nat, i: nat, a: nat)
    requires PeriodOn(w, from, to, p) && from <= i && i + Times(a, p) < to
    ensures w[i + Times(a, p)] == w[i]
    decreases a
  {
    if a > 0 {
      var j := i + Times(a - 1, p);
      assert j + p == i + Times(a, p);
      PeriodMultiple(w, from, to, p, i, a - 1);
      assert Suf(w, j, p) == w[j];
    }
  }

  /** The suffix a periods further on agrees with the suffix at s + b while the period lasts. */
  lemma SameBlock(w: seq<byte>, s: nat, e: nat, p: nat, a: nat, b: nat, q: nat)
    requires PeriodOn(w, s, e, p) && s + Times(a, p) + b + q <= e
    ensures SamePrefix(w, s + Times(a, p) + b, s + b, q)
  {
    var t, u := s + Times(a, p) + b, s + b;
    forall i: nat | i < q ensures Suf(w, t, i) == Suf(w, u, i) {
      PeriodMultiple(w, s, e, p, u + i, a);
      assert u + i + Times(a, p) == t + i;
    }
  }

  lemma SamePrefixTransitive(w: seq<byte>, x: nat, y: nat, z: nat, q: nat)
    requires SamePrefix(w, x, y, q) && SamePrefix(w, y, z, q)
    ensures SamePrefix(w, x, z, q)
  {
    forall i: nat | i < q ensures Suf(w, x, i) == Suf(w, z, i) {
      assert Suf(w, y, i) == w[y + i];
    }
  }

  /** A suffix that starts off the block grid loses to the one at s, or runs out first. */
  lemma OffGrid(w: seq<byte>, s: nat, e: nat, p: nat, a: nat, b: nat, rev: bool) returns (q: nat)
    requires PeriodOn(w, s, e, p) && Dominant(w, s, p, rev) && 0 < b < p && s + p <= e
    requires s + Times(a, p) + b <= e
    ensures b + q < p && LosesAt(w, s + b, s, q, rev)
    ensures s + Times(a, p) + b + q < e ==> LosesAt(w, s + Times(a, p) + b, s, q, rev)
    ensures s + Times(a, p) + b + q >= e ==> SamePrefix(w, s + Times(a, p) + b, s, e - (s + Times(a, p) + b))
  {
    var u, t := s + b, s + Times(a, p) + b;
    assert LosesInside(w, u, s, p, rev);
    q :| u + q < s + p && LosesAt(w, u, s, q, rev);
    var n := if t + q < e then q else e - t;
    SameBlock(w, s, e, p, a, b, n);
    SamePrefixTransitive(w, t, s + b, s, n);
    if t + q < e {
      PeriodMultiple(w, s, e, p, s + b + q, a);
      assert s + b + q + Times(a, p) == t + q;
      assert Suf(w, t, q) == Suf(w, s + b, q);
    }
  }

  lemma {:induction false} DivMod(r: nat, p: nat) returns (a: nat, b: nat)
    requires p > 0
    ensures r == Times(a, p) + b && b < p
  {
    if r < p {
      a, b := 0, r;
    } else {
      a, b := DivMod(r - p, p);
      a := a + 1;
    }
  }

  lemma {:induction false} MultipleGrows(a: nat, m: nat, p: nat)
    requires a <= m
    ensures Times(a, p) <= Times(m, p)
    decreases m
  {
    if a < m {
      MultipleGrows(a, m - 1, p);
    }
  }

  lemma {:induction false} TimesDiff(a: nat, m: nat, p: nat) returns (d: nat)
    requires a < m
    ensures d > 0 && Times(m, p) == Times(a, p) + Times(d, p)
    decreases m
  {
    if a + 1 == m {
      d := 1;
      assert Times(1, p) == p;
    } else {
      d := TimesDiff(a, m - 1, p);
      d := d + 1;
    }
  }

  lemma BelowMultiple(a: nat, b: nat, m: nat, p: nat)
    requires Times(a, p) + b < Times(m, p)
    ensures a < m && Times(a, p) + p <= Times(m, p)
  {
    if m <= a {
      MultipleGrows(m, a, p);
    } else {
      MultipleGrows(a + 1, m, p);
      assert Times(a + 1, p) == Times(a, p) + p;
    }
  }

  /** A smaller byte breaks the period: everything read since s becomes the new dominant block. */
  lemma BlockGrows(w: seq<byte>, s: nat, e: nat, p: nat, rev: bool)
    requires PeriodOn(w, s, e, p) && Dominant(w, s, p, rev) && s + p <= e < |w|
    requires Lt(w[e], w[e - p], rev)
    ensures Dominant(w, s, e + 1 - s, rev)
  {
    var p' := e + 1 - s;
    forall t: nat | s < t < e + 1 ensures LosesInside(w, t, s, p', rev) {
      var a, b := DivMod(t - s, p);
      if b == 0 {
        OnGridShrinks(w, s, e, p, a, t, rev);
      } else {
        OffGridShrinks(w, s, e, p, a, b, t, rev);
      }
    }
  }

  lemma OnGridShrinks(w: seq<byte>, s: nat, e: nat, p: nat, a: nat, t: nat, rev: bool)
    requires PeriodOn(w, s, e, p) && s + p <= e < |w| && Lt(w[e], w[e - p], rev)
    requires a > 0 && t == s + Times(a, p) <= e
    ensures LosesAt(w, t, s, e - t, rev)
  {
    var q := e - t;
    assert s + q + Times(a - 1, p) == e - p;
    PeriodMultiple(w, s, e, p, s + q, a - 1);
    SameBlock(w, s, e, p, a, 0, q);
    assert Suf(w, t, q) == w[e] && Suf(w, s, q) == w[e - p];
  }

  lemma OffGridShrinks(w: seq<byte>, s: nat, e: nat, p: nat, a: nat, b: nat, t: nat, rev: bool)
    requires PeriodOn(w, s, e, p) && Dominant(w, s, p, rev) && s + p <= e < |w| && Lt(w[e], w[e - p], rev)
    requires 0 < b < p && t == s + Times(a, p) + b <= e
    ensures LosesInside(w, t, s, e + 1 - s, rev)
  {
    var q' := OffGrid(w, s, e, p, a, b, rev);
    if t + q' < e {
      assert LosesAt(w, t, s, q', rev);
    } else {
      var q := e - t;
      assert s + b + q + Times(a - 1, p) == e - p;
      PeriodMultiple(w, s, e, p, s + b + q, a - 1);
      assert Suf(w, t, q) == w[e] && Suf(w, s + b, q) == w[e - p];
      assert q < q' ==> Suf(w, s + b, q) == Suf(w, s, q);
      assert LosesAt(w, t, s, q, rev);
    }
  }

  /** A greater byte breaks the period: every earlier suffix loses to the one at the last block boundary s'. */
  lemma StartMoves(w: seq<byte>, s: nat, e: nat, p: nat, m: nat, s': nat, rev: bool)
    requires PeriodOn(w, s, e, p) && Dominant(w, s, p, rev) && m > 0
    requires s' == s + Times(m, p) <= e < |w|
    requires Lt(w[e - p], w[e], rev)
    requires BeatsEarlier(w, s, rev)
    ensures BeatsEarlier(w, s', rev)
  {
    forall t: nat | t < s' ensures Loses(w, t, s', rev) {
      BlocksApart(w, s, s, s', e, p, m, rev);
      if t < s {
        LosesTransitive(w, t, s, s', rev);
      } else if s < t {
        BlockLoses(w, s, e, p, m, s', t, rev);
      }
    }
  }

  lemma BlockLoses(w: seq<byte>, s: nat, e: nat, p: nat, m: nat, s': nat, t: nat, rev: bool)
    requires PeriodOn(w, s, e, p) && Dominant(w, s, p, rev) && m > 0
    requires s' == s + Times(m, p) <= e < |w| && s < t < s'
    requires Lt(w[e - p], w[e], rev) && Loses(w, s, s', rev)
    ensures Loses(w, t, s', rev)
  {
    var a, b := DivMod(t - s, p);
    BelowMultiple(a, b, m, p);
    if b == 0 {
      var d := TimesDiff(a, m, p);
      BlocksApart(w, s, t, s', e, p, d, rev);
    } else {
      var q := OffGrid(w, s, e, p, a, b, rev);
      assert LosesAt(w, t, s, q, rev);
      LosesTransitive(w, t, s, s', rev);
    }
  }

  /** The suffix d blocks further on is the greater one when the byte after the period is. */
  lemma BlocksApart(w: seq<byte>, s: nat, t: nat, s': nat, e: nat, p: nat, d: nat, rev: bool)
    requires PeriodOn(w, s, e, p) && d > 0 && 0 < p <= e && s <= t && s' == t + Times(d, p) <= e < |w|
    requires Lt(w[e - p], w[e], rev)
    ensures Loses(w, t, s', rev)
  {
    var q := e - s';
    assert PeriodOn(w, t, e, p);
    SameBlock(w, t, e, p, d, 0, q);
    assert t + q + Times(d - 1, p) == e - p;
    PeriodMultiple(w, t, e, p, t + q, d - 1);
    assert Suf(w, t, q) == w[e - p] && Suf(w, s', q) == w[e];
    assert LosesAt(w, t, s', q, rev);
  }

  /** Once the whole word has been read, the suffix at s is the greatest. */
  lemma WholeWord(w: seq<byte>, s: nat, p: nat, rev: bool)
    requires PeriodOn(w, s, |w|, p) && Dominant(w, s, p, rev) && s + p <= |w|
    requires BeatsEarlier(w, s, rev)
    ensures MaxSuffix(w, s, rev)
  {
    forall t: nat | s < t < |w| ensures Loses(w, t, s, rev) || Border(w, t, s) {
      var a, b := DivMod(t - s, p);
      if b == 0 {
        SameBlock(w, s, |w|, p, a, 0, |w| - t);
      } else {
        var q := OffGrid(w, s, |w|, p, a, b, rev);
      }
    }
  }

  /** What a pass knows after reading w[..jp+k]: m blocks of length p from ip + 1 on, then k - 1 bytes. */
  ghost predicate PassState(w: seq<byte>, ip: int, jp: int, k: nat, p: nat, m: nat, rev: bool) {
    && -1 <= ip && 0 < k <= p && 0 < m && jp == ip + Times(m, p) && ip + p <= jp && jp + k <= |w|
    && BeatsEarlier(w, ip + 1, rev)
    && Dominant(w, ip + 1, p, rev)
    && PeriodOn(w, ip + 1, jp + k, p)
  }

  lemma OnePeriodBack(w: seq<byte>, ip: int, jp: int, k: nat, p: nat, m: nat, rev: bool)
    requires PassState(w, ip, jp, k, p, m, rev)
    ensures w[ip + k] == w[jp + k - p]
  {
    assert Times(m, p) == Times(m - 1, p) + p;
    PeriodMultiple(w, ip + 1, jp + k, p, ip + k, m - 1);
    assert ip + k + Times(m - 1, p) == jp + k - p;
  }

  lemma EqualByte(w: seq<byte>, ip: int, jp: int, k: nat, p: nat, m: nat, rev: bool)
    requires PassState(w, ip, jp, k, p, m, rev) && jp + k < |w| && w[ip + k] == w[jp + k]
    ensures if k == p then PassState(w, ip, jp + p, 1, p, m + 1, rev) else PassState(w, ip, jp, k + 1, p, m, rev)
  {
    OnePeriodBack(w, ip, jp, k, p, m, rev);
    assert Times(m + 1, p) == Times(m, p) + p;
    assert PeriodOn(w, ip + 1, jp + k + 1, p);
  }

  lemma SmallerByte(w: seq<byte>, ip: int, jp: int, k: nat, p: nat, m: nat, rev: bool)
    requires PassState(w, ip, jp, k, p, m, rev) && jp + k < |w| && Lt(w[jp + k], w[ip + k], rev)
    ensures PassState(w, ip, jp + k, 1, jp + k - ip, 1, rev)
  {
    OnePeriodBack(w, ip, jp, k, p, m, rev);
    BlockGrows(w, ip + 1, jp + k, p, rev);
  }

  lemma GreaterByte(w: seq<byte>, ip: int, jp: int, k: nat, p: nat, m: nat, rev: bool)
    requires PassState(w, ip, jp, k, p, m, rev) && jp + k < |w| && Lt(w[ip + k], w[jp + k], rev)
    ensures PassState(w, jp, jp + 1, 1, 1, 1, rev)
  {
    OnePeriodBack(w, ip, jp, k, p, m, rev);
    StartMoves(w, ip + 1, jp + k, p, m, jp + 1, rev);
  }

  /** Computes the start ip + 1 of the maximal suffix of the needle and the period p of that suffix. */
  method Compute(mem: Memory, n: nat, ghost w: seq<byte>, l: nat, rev: bool) returns (ip: int, p: nat)
    requires CString(mem, n, w) && |w| == l > 0
    ensures -1 <= ip && p > 0 && ip + 1 + p <= l
    ensures MaxSuffix(w, ip + 1, rev)
    ensures PeriodOn(w, ip + 1, l, p)
    ensures Dominant(w, ip + 1, p, rev)
  {
    ip := -1;
    p := 1;
    var jp: int, k: nat := 0, 1;
    ghost var m: nat := 1;
    while jp + k < l
      invariant PassState(w, ip, jp, k, p, m, rev)
      decreases l - ip, l - jp - k
    {
      var x, y := Get(mem, n, w, ip + k), Get(mem, n, w, jp + k);
      if x == y {
        EqualByte(w, ip, jp, k, p, m, rev);
        if k == p {
          jp, k, m := jp + p, 1, m + 1;
        } else {
          k := k + 1;
        }
      } else if Lt(y, x, rev) {
        SmallerByte(w, ip, jp, k, p, m, rev);
        jp, k := jp + k, 1;
        p, m := jp - ip, 1;
      } else {
        GreaterByte(w, ip, jp, k, p, m, rev);
        ip, jp := jp, jp + 1;
        k, p, m := 1, 1, 1;
      }
    }
    WholeWord(w, ip + 1, p, rev);
  }
}
