/** Combinatorics of words behind the two-way search: suffix order, periods, and the
    critical factorization theorem for the pair of maximal suffixes that the search computes. */
module CriticalFactorization {

  import opened CMemory

  /** The byte order used by a maximal-suffix pass; the second pass uses the opposite order. */
  predicate Lt(a: byte, b: byte, rev: bool) {
    if rev then b < a else a < b
  }

  /** Byte i of the suffix that starts at t. */
  ghost function Suf(w: seq<byte>, t: nat, i: nat): byte
    requires t + i < |w|
  {
    w[t + i]
  }

  /** The suffixes at t and s agree on their first q bytes. */
  ghost predicate SamePrefix(w: seq<byte>, t: nat, s: nat, q: nat) {
    t + q <= |w| && s + q <= |w| && forall i: nat :: i < q ==> Suf(w, t, i) == Suf(w, s, i)
  }

  /** The suffixes at t and s agree on q bytes and then the suffix at t is the smaller one. */
  ghost predicate LosesAt(w: seq<byte>, t: nat, s: nat, q: nat, rev: bool) {
    && SamePrefix(w, t, s, q)
    && t + q < |w| && s + q < |w|
    && Lt(Suf(w, t, q), Suf(w, s, q), rev)
  }

  ghost predicate Loses(w: seq<byte>, t: nat, s: nat, rev: bool) {
    exists q: nat :: LosesAt(w, t, s, q, rev)
  }

  /** The suffix at t, not longer than the one at s, is a prefix of it. */
  ghost predicate Border(w: seq<byte>, t: nat, s: nat) {
    s <= t <= |w| && SamePrefix(w, t, s, |w| - t)
  }

  /** The suffix at s is the greatest suffix of w. */
  ghost predicate MaxSuffix(w: seq<byte>, s: nat, rev: bool) {
    && (forall t: nat :: t < s ==> Loses(w, t, s, rev))
    && (forall t: nat :: s < t < |w| ==> Loses(w, t, s, rev) || Border(w, t, s))
  }

  /** p is a period of w[from..to]. */
  ghost predicate PeriodOn(w: seq<byte>, from: nat, to: nat, p: nat) {
    to <= |w| && forall i: nat {:trigger Suf(w, i, p)} :: from <= i && i + p < to ==> Suf(w, i, p) == w[i]
  }

  ghost predicate Period(w: seq<byte>, p: nat) {
    PeriodOn(w, 0, |w|, p)
  }

  /** w repeats with distance r around the cut at c, as far as both sides lie inside w. */
  ghost predicate LocalRepetition(w: seq<byte>, c: nat, r: nat) {
    forall i: nat {:trigger Suf(w, i, r)} :: c <= i + r && i < c && i + r < |w| ==> Suf(w, i, r) == w[i]
  }

  lemma LosesIsStrict(w: seq<byte>, t: nat, s: nat, rev: bool)
    requires Loses(w, t, s, rev)
    ensures !Loses(w, s, t, rev) && !Border(w, t, s) && !Border(w, s, t)
  {
    var q: nat :| LosesAt(w, t, s, q, rev);
    assert Suf(w, s, q) != Suf(w, t, q);
    forall q': nat ensures !LosesAt(w, s, t, q', rev) {
      assert q' < q ==> Suf(w, t, q') == Suf(w, s, q');
    }
  }

  lemma LosesTransitive(w: seq<byte>, a: nat, b: nat, c: nat, rev: bool)
    requires Loses(w, a, b, rev) && Loses(w, b, c, rev)
    ensures Loses(w, a, c, rev)
  {
    var q: nat :| LosesAt(w, a, b, q, rev);
    var q': nat :| LosesAt(w, b, c, q', rev);
    var m := if q < q' then q else q';
    assert Suf(w, b, m) == w[b + m];
    forall i: nat | i < m ensures Suf(w, a, i) == Suf(w, c, i) {
      assert Suf(w, b, i) == w[b + i];
    }
    assert LosesAt(w, a, c, m, rev);
  }

  lemma RepeatedByte(w: seq<byte>, c: nat, r: nat, q: nat)
    requires q < r <= c && LocalRepetition(w, c, r) && c + q < |w|
    ensures Suf(w, c - r, q) == Suf(w, c, q)
  {
    assert Suf(w, c - r + q, r) == w[c - r + q];
  }

  /** The suffix at c, repeated to its left at distance r, carries a loss over to the suffix at c + r. */
  lemma RepetitionCarriesLoss(w: seq<byte>, c: nat, r: nat, q: nat, rev: bool)
    requires 0 < r <= c && LocalRepetition(w, c, r) && LosesAt(w, c - r, c, q, rev)
    ensures Loses(w, c, c + r, rev)
  {
    var t := c - r;
    if q < r {
      RepeatedByte(w, c, r, q);
      assert false;
    }
    var m := q - r;
    assert Suf(w, t, q) == Suf(w, c, m) && Suf(w, c, q) == Suf(w, c + r, m);
    forall i: nat | i < m ensures Suf(w, c, i) == Suf(w, c + r, i) {
      assert Suf(w, t, i + r) == Suf(w, c, i + r);
    }
    assert LosesAt(w, c, c + r, m, rev);
  }

  /** A repetition that fits to the left of a maximal suffix would make it smaller than another suffix. */
  lemma NoShortRepetition(w: seq<byte>, c: nat, r: nat, rev: bool)
    requires MaxSuffix(w, c, rev) && c < |w|
    requires LocalRepetition(w, c, r) && r > 0
    ensures c < r
  {
    if r <= c {
      var t := c - r;
      assert Loses(w, t, c, rev);
      var q: nat :| LosesAt(w, t, c, q, rev);
      RepetitionCarriesLoss(w, c, r, q, rev);
      LosesIsStrict(w, c, c + r, rev);
      assert false;
    }
  }

  /** What the suffix at c + r loses in one order, the suffix at c' + r gains in the other. */
  lemma OppositeOrderWins(w: seq<byte>, c: nat, c': nat, rev: bool, r: nat, q: nat)
    requires c' <= c < r && LocalRepetition(w, c, r) && LosesAt(w, c + r, c, q, rev)
    ensures Loses(w, c', c' + r, !rev)
  {
    var d := c - c';
    var m := d + q;
    forall i: nat | i < m ensures Suf(w, c', i) == Suf(w, c' + r, i) {
      if i < d {
        assert Suf(w, c' + i, r) == w[c' + i];
      } else {
        assert Suf(w, c + r, i - d) == Suf(w, c, i - d);
      }
    }
    assert Suf(w, c', m) == Suf(w, c, q) && Suf(w, c' + r, m) == Suf(w, c + r, q);
    assert LosesAt(w, c', c' + r, m, !rev);
  }

  /** Critical factorization: when c is the later of the two maximal-suffix positions,
      every repetition around the cut at c is a period of the whole word, longer than c. */
  lemma CriticalPosition(w: seq<byte>, c: nat, c': nat, rev: bool, r: nat)
    requires MaxSuffix(w, c, rev) && MaxSuffix(w, c', !rev) && c' <= c < |w|
    requires LocalRepetition(w, c, r) && r > 0
    ensures Period(w, r) && c < r
  {
    NoShortRepetition(w, c, r, rev);
    var t := c + r;
    if t < |w| {
      if Loses(w, t, c, rev) {
        var q: nat :| LosesAt(w, t, c, q, rev);
        OppositeOrderWins(w, c, c', rev, r, q);
        LosesIsStrict(w, c', c' + r, !rev);
        assert false;
      }
      assert Border(w, t, c);
      forall i: nat | i + r < |w| ensures Suf(w, i, r) == w[i] {
        if c <= i {
          assert Suf(w, t, i - c) == Suf(w, c, i - c);
        }
      }
    }
  }
}
