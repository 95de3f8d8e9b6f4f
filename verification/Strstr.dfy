/** strstr (kernel/lib/string.c:211-405): the rolling windows for needles of two to four bytes
    and the two-way search for longer ones, all proved to return the first occurrence. */
module Strstr {
  import opened CMemory
  import opened WordScan
  import opened CriticalFactorization
  import MaximalSuffix

  /** w occurs in h at offset i. */
  ghost predicate MatchAt(h: seq<byte>, i: nat, w: seq<byte>) {
    i + |w| <= |h| && forall k: nat :: k < |w| ==> Suf(h, i, k) == w[k]
  }

  ghost predicate NoMatchBefore(h: seq<byte>, o: nat, w: seq<byte>) {
    forall i: nat :: i < o ==> !MatchAt(h, i, w)
  }

  ghost predicate NoMatch(h: seq<byte>, w: seq<byte>) {
    forall i: nat :: !MatchAt(h, i, w)
  }

  /** r is the address of the first occurrence of w in the string h at address a, or null when there is none. */
  ghost predicate FirstOccurrence(a: nat, h: seq<byte>, w: seq<byte>, r: Option<nat>) {
    match r
    case Some(x) => a <= x && MatchAt(h, x - a, w) && NoMatchBefore(h, x - a, w)
    case None => NoMatch(h, w)
  }

  // ---- What the preprocessing of a needle establishes ----

  /** Every repetition around the cut at c is a period of the whole needle, longer than c. */
  ghost predicate Critical(w: seq<byte>, c: nat) {
    c < |w| && forall r: nat :: r > 0 && LocalRepetition(w, c, r) ==> Period(w, r) && c < r
  }

  /** p is the least period of the needle's right half. */
  ghost predicate LeastPeriod(w: seq<byte>, c: nat, p: nat) {
    && 0 < p && c + p <= |w|
    && PeriodOn(w, c, |w|, p)
    && forall j: nat :: 0 < j < p ==> !PeriodOn(w, c, |w|, j)
  }

  lemma CutIsCritical(w: seq<byte>, c: nat, c': nat, rev: bool)
    requires MaxSuffix(w, c, rev) && MaxSuffix(w, c', !rev) && c' <= c < |w|
    ensures Critical(w, c)
  {
    forall r: nat | r > 0 && LocalRepetition(w, c, r) ensures Period(w, r) && c < r {
      CriticalPosition(w, c, c', rev, r);
    }
  }

  lemma DominantIsLeast(w: seq<byte>, c: nat, p: nat, rev: bool)
    requires MaximalSuffix.Dominant(w, c, p, rev) && c + p <= |w| && PeriodOn(w, c, |w|, p)
    ensures LeastPeriod(w, c, p)
  {
    forall j: nat | 0 < j < p ensures !PeriodOn(w, c, |w|, j) {
      var t := c + j;
      assert MaximalSuffix.LosesInside(w, t, c, p, rev);
      var q: nat :| t + q < c + p && LosesAt(w, t, c, q, rev);
      var i := c + q;
      assert Suf(w, i, j) == Suf(w, t, q) && Suf(w, c, q) == w[i];
    }
  }

  /** The part of the needle before the cut repeats p bytes further on, so p is a period of all of it. */
  lemma PrefixRepeats(w: seq<byte>, c: nat, p: nat)
    requires LeastPeriod(w, c, p) && c + p <= |w| && w[..c] == w[p..p + c]
    ensures Period(w, p)
  {
    forall i: nat | i + p < |w| ensures Suf(w, i, p) == w[i] {
      if i < c {
        assert w[..c][i] == w[p..p + c][i];
      }
    }
  }

  /** A period j of the whole needle that fits in the right half repeats, around the cut, at distance j mod p. */
  lemma RemainderRepeats(w: seq<byte>, c: nat, p: nat, j: nat, d: nat, r: nat)
    requires PeriodOn(w, c, |w|, p) && Period(w, j) && c + j <= |w| && j == r + MaximalSuffix.Times(d, p)
    ensures LocalRepetition(w, c, r)
  {
    forall i: nat | c <= i + r && i < c && i + r < |w| ensures Suf(w, i, r) == w[i] {
      assert Suf(w, i, j) == w[i];
      assert i + r + MaximalSuffix.Times(d, p) == i + j;
      MaximalSuffix.PeriodMultiple(w, c, |w|, p, i + r, d);
    }
  }

  lemma ShortPeriodIsLeast(w: seq<byte>, c: nat, p: nat, j: nat)
    requires Critical(w, c) && LeastPeriod(w, c, p)
    requires Period(w, j) && 0 < j && c + j <= |w|
    ensures Period(w, p) && c + p <= |w| && w[..c] == w[p..p + c]
  {
    assert PeriodOn(w, c, |w|, j);
    var a, b := MaximalSuffix.DivMod(j, p);
    assert p <= j && a > 0;
    if b == 0 {
      assert j == p + MaximalSuffix.Times(a - 1, p);
      RemainderRepeats(w, c, p, j, a - 1, p);
    } else {
      RemainderRepeats(w, c, p, j, a, b);
      assert PeriodOn(w, c, |w|, b);
    }
    forall i: nat | i < c ensures w[i] == w[p + i] {
      assert Suf(w, i, p) == w[i];
    }
  }

  /** Otherwise every period of the needle is longer than its right half. */
  lemma NoPeriodFits(w: seq<byte>, c: nat, p: nat, j: nat)
    requires Critical(w, c) && LeastPeriod(w, c, p)
    requires c + p > |w| || w[..c] != w[p..p + c]
    requires Period(w, j) && 0 < j
    ensures c + j > |w|
  {
    if c + j <= |w| {
      ShortPeriodIsLeast(w, c, p, j);
      assert false;
    }
  }

  // ---- Why each shift of the search skips no occurrence ----

  /** The last byte of the window does not occur in the needle from index s on. */
  lemma BadByteShift(h: seq<byte>, o: nat, w: seq<byte>, s: nat)
    requires |w| > 0 && o + |w| <= |h| && s <= |w|
    requires forall k: nat :: s <= k < |w| ==> w[k] != h[o + |w| - 1]
    requires NoMatchBefore(h, o, w)
    ensures NoMatchBefore(h, o + (|w| - s), w)
  {
    forall i: nat | o <= i < o + (|w| - s) ensures !MatchAt(h, i, w) {
      var k := o + |w| - 1 - i;
      assert i + |w| <= |h| ==> Suf(h, i, k) == h[o + |w| - 1];
    }
  }

  /** With the first |w| - p bytes already matched, an occurrence that overlaps them fixes the last byte too. */
  lemma MemoryFixesLast(h: seq<byte>, o: nat, w: seq<byte>, p: nat, i: nat)
    requires 0 < p <= |w| && Period(w, p) && o + |w| <= |h|
    requires forall k: nat :: k < |w| - p ==> Suf(h, o, k) == w[k]
    requires o <= i < o + (|w| - p) && MatchAt(h, i, w)
    ensures h[o + |w| - 1] == w[|w| - 1]
  {
    var j, last := i - o, |w| - 1;
    var x := last - p;
    assert Suf(w, x, p) == w[x];
    assert Suf(h, o, x) == w[x] && Suf(h, i, x - j) == w[x - j];
    assert Suf(w, x - j, p) == w[x - j];
    assert Suf(h, i, last - j) == w[last - j];
  }

  /** With the first |w| - p bytes already matched, a wrong last byte rules out the next |w| - p offsets. */
  lemma MemoryShift(h: seq<byte>, o: nat, w: seq<byte>, p: nat)
    requires 0 < p <= |w| && Period(w, p) && o + |w| <= |h|
    requires forall k: nat :: k < |w| - p ==> Suf(h, o, k) == w[k]
    requires w[|w| - 1] != h[o + |w| - 1]
    requires NoMatchBefore(h, o, w)
    ensures NoMatchBefore(h, o + (|w| - p), w)
  {
    forall i: nat | o <= i < o + (|w| - p) ensures !MatchAt(h, i, w) {
      if MatchAt(h, i, w) {
        MemoryFixesLast(h, o, w, p, i);
        assert false;
      }
    }
  }

  /** The window agrees with the needle on [c, k); an occurrence j further on repeats around the cut. */
  lemma OverlapRepeats(h: seq<byte>, o: nat, w: seq<byte>, c: nat, k: nat, j: nat)
    requires c <= k <= |w| && o + |w| <= |h| && 0 < j
    requires c + j <= k || k == |w|
    requires forall x: nat :: c <= x < k ==> Suf(h, o, x) == w[x]
    requires MatchAt(h, o + j, w)
    ensures LocalRepetition(w, c, j)
  {
    var i := o + j;
    forall x: nat | c <= x + j && x < c && x + j < |w| ensures Suf(w, x, j) == w[x] {
      assert Suf(h, o, x + j) == w[x + j];
      assert Suf(h, i, x) == w[x];
    }
  }

  lemma PeriodFixesByte(h: seq<byte>, o: nat, w: seq<byte>, k: nat, j: nat)
    requires MatchAt(h, o + j, w) && Period(w, j) && j <= k < |w|
    ensures Suf(h, o, k) == w[k]
  {
    var i := o + j;
    assert Suf(w, k - j, j) == w[k - j];
    assert Suf(h, i, k - j) == w[k - j];
  }

  /** A mismatch at k in the right half: shift by k - c + 1. */
  lemma RightShift(h: seq<byte>, o: nat, w: seq<byte>, c: nat, k: nat)
    requires Critical(w, c) && c <= k < |w| && o + |w| <= |h|
    requires forall x: nat :: c <= x < k ==> Suf(h, o, x) == w[x]
    requires Suf(h, o, k) != w[k]
    requires NoMatchBefore(h, o, w)
    ensures NoMatchBefore(h, o + (k - c + 1), w)
  {
    forall i: nat | o <= i < o + (k - c + 1) ensures !MatchAt(h, i, w) {
      if i > o && MatchAt(h, i, w) {
        OverlapRepeats(h, o, w, c, k, i - o);
        PeriodFixesByte(h, o, w, k, i - o);
        assert false;
      }
    }
  }

  /** A mismatch before the cut, the right half matching: shift by any bound on the needle's periods. */
  lemma LeftShift(h: seq<byte>, o: nat, w: seq<byte>, c: nat, k: nat, s: nat)
    requires Critical(w, c) && k < c && o + |w| <= |h|
    requires forall x: nat :: c <= x < |w| ==> Suf(h, o, x) == w[x]
    requires Suf(h, o, k) != w[k]
    requires forall j: nat :: 0 < j < s ==> !(Period(w, j) && c < j)
    requires NoMatchBefore(h, o, w)
    ensures NoMatchBefore(h, o + s, w)
  {
    forall i: nat | o <= i < o + s ensures !MatchAt(h, i, w) {
      if i > o && MatchAt(h, i, w) {
        OverlapRepeats(h, o, w, c, |w|, i - o);
        assert false;
      }
    }
  }

  // ---- The search itself ----

  /** No usable period of the needle is shorter than s. */
  ghost predicate SafeShift(w: seq<byte>, c: nat, s: nat) {
    forall j: nat :: 0 < j < s ==> !(Period(w, j) && c < j)
  }

  lemma PeriodicShift(w: seq<byte>, c: nat, p: nat)
    requires Critical(w, c) && LeastPeriod(w, c, p) && w[..c] == w[p..p + c]
    ensures Period(w, p) && c < p && SafeShift(w, c, p)
  {
    PrefixRepeats(w, c, p);
    assert LocalRepetition(w, c, p);
    forall j: nat | 0 < j < p ensures !Period(w, j) {
      assert Period(w, j) ==> PeriodOn(w, c, |w|, j);
    }
  }

  lemma AperiodicShift(w: seq<byte>, c: nat, p: nat, s: nat)
    requires Critical(w, c) && LeastPeriod(w, c, p)
    requires c + p > |w| || w[..c] != w[p..p + c]
    requires s <= c || s <= |w| - c + 1
    ensures SafeShift(w, c, s)
  {
    forall j: nat | 0 < j < s && Period(w, j) && c < j ensures false {
      NoPeriodFits(w, c, p, j);
    }
  }

  /** memcmp(n, n + p, c) == 0, reading no further than the needle's terminator. */
  method PrefixEquals(mem: Memory, n: nat, ghost w: seq<byte>, p: nat, c: nat) returns (eq: bool)
    requires CString(mem, n, w) && p <= |w| && c <= |w|
    ensures eq <==> p + c <= |w| && w[..c] == w[p..p + c]
  {
    var i := 0;
    while i < c && Get(mem, n, w, i) == Get(mem, n, w, p + i)
      invariant i <= c && p + i <= |w|
      invariant forall x: nat :: x < i ==> w[x] == w[p + x]
    {
      i := i + 1;
    }
    eq := i == c;
    if !eq && p + c <= |w| {
      assert w[..c][i] != w[p..p + c][i];
    }
  }

  /** Which bytes occur in the needle, and for those one more than the index of the last occurrence. */
  ghost predicate ShiftTable(w: seq<byte>, byteset: seq<bool>, shift: seq<nat>) {
    && |byteset| == 256 && |shift| == 256
    && (forall k: nat :: k < |w| ==> byteset[w[k]] && k < shift[w[k]])
    && (forall x: nat :: x < 256 && byteset[x] ==> 0 < shift[x] <= |w| && w[shift[x] - 1] == x)
  }

  lemma TableGrows(w: seq<byte>, x: byte, byteset: seq<bool>, shift: seq<nat>)
    requires ShiftTable(w, byteset, shift)
    ensures ShiftTable(w + [x], byteset[x := true], shift[x := |w| + 1])
  {
  }

  method BuildShiftTable(mem: Memory, h: nat, ghost hs: seq<byte>, n: nat, ghost w: seq<byte>)
      returns (l: nat, byteset: array<bool>, shift: array<nat>)
    requires CString(mem, h, hs) && CString(mem, n, w)
    ensures l == (if |hs| < |w| then |hs| else |w|)
    ensures ShiftTable(w[..l], byteset[..], shift[..])
  {
    l, byteset, shift := 0, new bool[256](_ => false), new nat[256](_ => 0);
    while Get(mem, n, w, l) != 0 && Get(mem, h, hs, l) != 0
      invariant l <= |w| && l <= |hs|
      invariant ShiftTable(w[..l], byteset[..], shift[..])
      decreases |w| - l
    {
      TableGrows(w[..l], w[l], byteset[..], shift[..]);
      assert w[..l + 1] == w[..l] + [w[l]];
      byteset[Get(mem, n, w, l)] := true;
      shift[Get(mem, n, w, l)] := l + 1;
      l := l + 1;
    }
  }

  /** The cut ms + 1 that the two maximal-suffix passes settle on, and the period of the right half. */
  method Factorize(mem: Memory, n: nat, ghost w: seq<byte>, l: nat) returns (c: nat, p: nat)
    requires CString(mem, n, w) && |w| == l > 0
    ensures Critical(w, c) && LeastPeriod(w, c, p)
  {
    var ms, p0 := MaximalSuffix.Compute(mem, n, w, l, false);
    var ip: int;
    ip, p := MaximalSuffix.Compute(mem, n, w, l, true);
    if ip + 1 > ms + 1 {
      CutIsCritical(w, ip + 1, ms + 1, true);
      DominantIsLeast(w, ip + 1, p, true);
      ms := ip;
    } else {
      CutIsCritical(w, ms + 1, ip + 1, false);
      DominantIsLeast(w, ms + 1, p0, false);
      p := p0;
    }
    c := ms + 1;
  }

  /** The incremental end-of-haystack pointer: either the window fits, or it runs into the terminator. */
  method ExtendHaystack(mem: Memory, h: nat, ghost hs: seq<byte>, o: nat, z: nat, l: nat) returns (fits: bool, z': nat)
    requires CString(mem, h, hs) && o <= z <= |hs|
    ensures fits <==> o + l <= |hs|
    ensures z <= z' <= |hs| && (fits ==> o + l <= z')
  {
    z' := z;
    fits := true;
    if z - o < l {
      var grow := l - l % 64 + 63;  // l | 63
      assert mem[h + |hs|] == 0;
      var z2 := Memchr(mem, h + z, 0, grow);
      if z2.Some? {
        NulIsTheEnd(mem, h, hs, if z2.value < h + |hs| then z2.value else h + |hs|);
        z' := z2.value - h;
        fits := !(z' - o < l);
      } else {
        z' := z + grow;
      }
    }
  }

  /** What the search knows when the needle is lined up with offset o of the haystack. */
  ghost predicate SearchState(hs: seq<byte>, w: seq<byte>, o: nat, memory: nat) {
    && NoMatchBefore(hs, o, w)
    && o + memory <= |hs| && memory <= |w|
    && forall k: nat :: k < memory ==> Suf(hs, o, k) == w[k]
  }

  /** How far the last byte of the window alone allows to shift; zero when it matches. */
  method LastByteShift(mem: Memory, h: nat, ghost hs: seq<byte>, o: nat, ghost w: seq<byte>, l: nat,
                       byteset: seq<bool>, shift: seq<nat>, p: nat, mem0: nat, memory: nat) returns (k: nat)
    requires CString(mem, h, hs) && |w| == l > 0 && o + l <= |hs| && ShiftTable(w, byteset, shift)
    requires SearchState(hs, w, o, memory)
    requires memory == 0 || memory == mem0
    requires mem0 > 0 ==> 0 < p && mem0 == l - p && Period(w, p)
    ensures k <= l && NoMatchBefore(hs, o + k, w)
  {
    var last := Get(mem, h, hs, o + l - 1);
    if byteset[last] {
      k := l - shift[last];
      if k > 0 {
        BadByteShift(hs, o, w, shift[last]);
        if mem0 > 0 && memory > 0 && k < p {
          MemoryShift(hs, o, w, p);
          k := l - p;
        }
      }
    } else {
      BadByteShift(hs, o, w, 0);
      k := l;
    }
  }

  /** The first mismatch from the cut on, or the needle's end. */
  method CompareRight(mem: Memory, h: nat, ghost hs: seq<byte>, o: nat, n: nat, ghost w: seq<byte>, c: nat, memory: nat)
      returns (k: nat)
    requires CString(mem, h, hs) && CString(mem, n, w) && c <= |w| && o + |w| <= |hs|
    requires SearchState(hs, w, o, memory)
    ensures c <= k <= |w| && forall x: nat :: c <= x < k ==> Suf(hs, o, x) == w[x]
    ensures k < |w| ==> Suf(hs, o, k) != w[k]
  {
    k := if c > memory then c else memory;
    while Get(mem, n, w, k) != 0 && Get(mem, n, w, k) == Get(mem, h, hs, o + k)
      invariant c <= k <= |w|
      invariant forall x: nat :: c <= x < k ==> Suf(hs, o, x) == w[x]
      decreases |w| - k
    {
      k := k + 1;
    }
  }

  /** Backwards from the cut to the part that memory already vouches for. */
  method CompareLeft(mem: Memory, h: nat, ghost hs: seq<byte>, o: nat, n: nat, ghost w: seq<byte>, c: nat, memory: nat)
      returns (k: nat)
    requires CString(mem, h, hs) && CString(mem, n, w) && c <= |w| && o + |w| <= |hs|
    ensures k <= c && forall x: nat :: k <= x < c ==> Suf(hs, o, x) == w[x]
    ensures k > memory ==> Suf(hs, o, k - 1) != w[k - 1]
  {
    k := c;
    while k > memory && Get(mem, n, w, k - 1) == Get(mem, h, hs, o + (k - 1))
      invariant k <= c
      invariant forall x: nat :: k <= x < c ==> Suf(hs, o, x) == w[x]
    {
      k := k - 1;
    }
  }

  /** After a shift by the period the bytes that matched from the cut on are the needle's first |w| - p bytes. */
  lemma KeepPrefix(h: seq<byte>, o: nat, w: seq<byte>, c: nat, p: nat)
    requires o + |w| <= |h| && c < p <= |w| && Period(w, p)
    requires forall x: nat :: c <= x < |w| ==> Suf(h, o, x) == w[x]
    requires NoMatchBefore(h, o + p, w)
    ensures SearchState(h, w, o + p, |w| - p)
  {
    var o' := o + p;
    forall k: nat | k < |w| - p ensures Suf(h, o', k) == w[k] {
      assert Suf(w, k, p) == w[k];
      assert Suf(h, o, k + p) == w[k + p];
    }
  }

  method TwoWay(mem: Memory, h: nat, ghost hs: seq<byte>, n: nat, ghost w: seq<byte>) returns (r: Option<nat>)
    requires CString(mem, h, hs) && CString(mem, n, w) && |w| > 0
    ensures FirstOccurrence(h, hs, w, r)
  {
    var l, byteset, shift := BuildShiftTable(mem, h, hs, n, w);
    if Get(mem, n, w, l) != 0 {
      return None;
    }
    assert w[..l] == w;
    var c, p0 := Factorize(mem, n, w, l);
    var p, mem0 := ChooseShift(mem, n, w, l, c, p0);
    r := Search(mem, h, hs, n, w, l, byteset[..], shift[..], c, p, mem0);
  }

  /** Is the needle periodic? Then keep its period and remember what matched; otherwise shift past either half. */
  method ChooseShift(mem: Memory, n: nat, ghost w: seq<byte>, l: nat, c: nat, p0: nat) returns (p: nat, mem0: nat)
    requires CString(mem, n, w) && |w| == l > 0 && Critical(w, c) && LeastPeriod(w, c, p0)
    ensures 0 < p <= l && SafeShift(w, c, p)
    ensures mem0 > 0 ==> c < p && mem0 == l - p && Period(w, p)
  {
    var periodic := PrefixEquals(mem, n, w, p0, c);
    if periodic {
      PeriodicShift(w, c, p0);
      p, mem0 := p0, l - p0;
    } else {
      p, mem0 := (if c - 1 > l - c then c - 1 else l - c) + 1, 0;
      AperiodicShift(w, c, p0, p);
    }
  }

  /** The byte comparisons of one window: either the needle matches there, or it is safe to move k bytes on, remembering that
      the first `kept` bytes of the next window already match. */
  method CompareWindow(mem: Memory, h: nat, ghost hs: seq<byte>, o: nat, n: nat, ghost w: seq<byte>, ghost l: nat,
                       c: nat, p: nat, mem0: nat, memory: nat)
      returns (found: bool, k: nat, kept: nat)
    requires CString(mem, h, hs) && CString(mem, n, w) && |w| == l > 0 && o + l <= |hs|
    requires Critical(w, c) && 0 < p <= l && SafeShift(w, c, p)
    requires mem0 > 0 ==> c < p && mem0 == l - p && Period(w, p)
    requires SearchState(hs, w, o, memory) && (memory == 0 || memory == mem0)
    ensures found ==> MatchAt(hs, o, w)
    ensures !found ==> 0 < k <= l && SearchState(hs, w, o + k, kept) && (kept == 0 || kept == mem0)
  {
    found, kept := false, 0;
    var i := CompareRight(mem, h, hs, o, n, w, c, memory);
    if Get(mem, n, w, i) != 0 {
      RightShift(hs, o, w, c, i);
      k := i - c + 1;
      return;
    }
    i := CompareLeft(mem, h, hs, o, n, w, c, memory);
    if i <= memory {
      found, k := true, 0;
      return;
    }
    LeftShift(hs, o, w, c, i - 1, p);
    if mem0 > 0 {
      KeepPrefix(hs, o, w, c, p);
    }
    k, kept := p, mem0;
  }

  lemma NoRoomLeft(h: seq<byte>, o: nat, w: seq<byte>)
    requires NoMatchBefore(h, o, w) && o + |w| > |h|
    ensures NoMatch(h, w)
  {
  }

  /** The search loop: p is the shift after a left-half mismatch, mem0 what is then still known to match. */
  method Search(mem: Memory, h: nat, ghost hs: seq<byte>, n: nat, ghost w: seq<byte>, l: nat,
                byteset: seq<bool>, shift: seq<nat>, c: nat, p: nat, mem0: nat) returns (r: Option<nat>)
    requires CString(mem, h, hs) && CString(mem, n, w) && |w| == l > 0
    requires ShiftTable(w, byteset, shift) && Critical(w, c) && 0 < p <= l && SafeShift(w, c, p)
    requires mem0 > 0 ==> c < p && mem0 == l - p && Period(w, p)
    ensures FirstOccurrence(h, hs, w, r)
  {
    var memory, o, z := 0, 0, 0;
    while true
      invariant o <= z <= |hs|
      invariant memory == 0 || memory == mem0
      invariant SearchState(hs, w, o, memory)
      decreases |hs| - o
    {
      var fits;
      fits, z := ExtendHaystack(mem, h, hs, o, z, l);
      if !fits {
        NoRoomLeft(hs, o, w);
        return None;
      }
      var k := LastByteShift(mem, h, hs, o, w, l, byteset, shift, p, mem0, memory);
      if k > 0 {
        o, memory := o + k, 0;
      } else {
        var found, kept;
        found, k, kept := CompareWindow(mem, h, hs, o, n, w, l, c, p, mem0, memory);
        if found {
          return Some(h + o);
        }
        o, memory := o + k, kept;
      }
    }
  }

  // ---- Rolling windows for short needles ----

  /** Two bytes in a uint16_t. */
  function Window2(a: byte, b: byte): int {
    a * 0x100 + b
  }

  /** Three bytes in the upper part of a uint32_t. */
  function Window3(a: byte, b: byte, c: byte): int {
    a * 0x1000000 + b * 0x10000 + c * 0x100
  }

  /** Four bytes in a uint32_t. */
  function Window4(a: byte, b: byte, c: byte, d: byte): int {
    a * 0x1000000 + b * 0x10000 + c * 0x100 + d
  }

  /** hw << 8 | x, truncated to 16 bits. */
  function Roll2(hw: int, x: byte): int {
    (hw * 0x100 + x) % 0x10000
  }

  /** (hw | x) << 8, truncated to 32 bits; the low byte of hw is zero. */
  function Roll3(hw: int, x: byte): int {
    ((hw + x) * 0x100) % 0x1_0000_0000
  }

  /** hw << 8 | x, truncated to 32 bits. */
  function Roll4(hw: int, x: byte): int {
    (hw * 0x100 + x) % 0x1_0000_0000
  }

  lemma LastDigit(x: int, b: byte, x': int, b': byte)
    ensures x * 0x100 + b == x' * 0x100 + b' <==> x == x' && b == b'
  {
  }

  lemma Window3Exact(a: byte, b: byte, c: byte, a': byte, b': byte, c': byte)
    ensures Window3(a, b, c) == Window3(a', b', c') <==> a == a' && b == b' && c == c'
  {
    LastDigit(Window2(a, b), c, Window2(a', b'), c');
    LastDigit(a, b, a', b');
  }

  lemma Window4Exact(a: byte, b: byte, c: byte, d: byte, a': byte, b': byte, c': byte, d': byte)
    ensures Window4(a, b, c, d) == Window4(a', b', c', d') <==> a == a' && b == b' && c == c' && d == d'
  {
    LastDigit(Window2(a, b) * 0x100 + c, d, Window2(a', b') * 0x100 + c', d');
    LastDigit(Window2(a, b), c, Window2(a', b'), c');
    LastDigit(a, b, a', b');
  }

  method Strstr2(mem: Memory, h: nat, ghost hs: seq<byte>, n: nat, ghost w: seq<byte>) returns (r: Option<nat>)
    requires CString(mem, h, hs) && CString(mem, n, w) && |w| == 2 && |hs| >= 1
    ensures FirstOccurrence(h, hs, w, r)
  {
    var nw := Window2(Get(mem, n, w, 0), Get(mem, n, w, 1));
    var hw := Window2(Get(mem, h, hs, 0), Get(mem, h, hs, 1));
    var i := 1;
    while Get(mem, h, hs, i) != 0 && hw != nw
      invariant 1 <= i <= |hs|
      invariant hw == Window2(At(hs, i - 1), At(hs, i))
      invariant NoMatchBefore(hs, i - 1, w)
      decreases |hs| - i
    {
      MatchIsWindow2(hs, i - 1, w);
      i := i + 1;
      hw := Roll2(hw, Get(mem, h, hs, i));
    }
    if Get(mem, h, hs, i) != 0 {
      MatchIsWindow2(hs, i - 1, w);
      return Some(h + i - 1);
    } else {
      return None;
    }
  }

  lemma MatchIsWindow2(h: seq<byte>, i: nat, w: seq<byte>)
    requires |w| == 2 && i + 2 <= |h|
    ensures MatchAt(h, i, w) <==> Window2(h[i], h[i + 1]) == Window2(w[0], w[1])
  {
    assert Suf(h, i, 0) == h[i] && Suf(h, i, 1) == h[i + 1];
  }

  method Strstr3(mem: Memory, h: nat, ghost hs: seq<byte>, n: nat, ghost w: seq<byte>) returns (r: Option<nat>)
    requires CString(mem, h, hs) && CString(mem, n, w) && |w| == 3 && |hs| >= 2
    ensures FirstOccurrence(h, hs, w, r)
  {
    var nw := Window3(Get(mem, n, w, 0), Get(mem, n, w, 1), Get(mem, n, w, 2));
    var hw := Window3(Get(mem, h, hs, 0), Get(mem, h, hs, 1), Get(mem, h, hs, 2));
    var i := 2;
    while Get(mem, h, hs, i) != 0 && hw != nw
      invariant 2 <= i <= |hs|
      invariant hw == Window3(At(hs, i - 2), At(hs, i - 1), At(hs, i))
      invariant NoMatchBefore(hs, i - 2, w)
      decreases |hs| - i
    {
      MatchIsWindow3(hs, i - 2, w);
      i := i + 1;
      hw := Roll3(hw, Get(mem, h, hs, i));
    }
    if Get(mem, h, hs, i) != 0 {
      MatchIsWindow3(hs, i - 2, w);
      return Some(h + i - 2);
    } else {
      return None;
    }
  }

  lemma MatchIsWindow3(h: seq<byte>, i: nat, w: seq<byte>)
    requires |w| == 3 && i + 3 <= |h|
    ensures MatchAt(h, i, w) <==> Window3(h[i], h[i + 1], h[i + 2]) == Window3(w[0], w[1], w[2])
  {
    Window3Exact(h[i], h[i + 1], h[i + 2], w[0], w[1], w[2]);
    assert Suf(h, i, 0) == h[i] && Suf(h, i, 1) == h[i + 1] && Suf(h, i, 2) == h[i + 2];
  }

  method Strstr4(mem: Memory, h: nat, ghost hs: seq<byte>, n: nat, ghost w: seq<byte>) returns (r: Option<nat>)
    requires CString(mem, h, hs) && CString(mem, n, w) && |w| == 4 && |hs| >= 3
    ensures FirstOccurrence(h, hs, w, r)
  {
    var nw := Window4(Get(mem, n, w, 0), Get(mem, n, w, 1), Get(mem, n, w, 2), Get(mem, n, w, 3));
    var hw := Window4(Get(mem, h, hs, 0), Get(mem, h, hs, 1), Get(mem, h, hs, 2), Get(mem, h, hs, 3));
    var i := 3;
    while Get(mem, h, hs, i) != 0 && hw != nw
      invariant 3 <= i <= |hs|
      invariant hw == Window4(At(hs, i - 3), At(hs, i - 2), At(hs, i - 1), At(hs, i))
      invariant NoMatchBefore(hs, i - 3, w)
      decreases |hs| - i
    {
      MatchIsWindow4(hs, i - 3, w);
      i := i + 1;
      hw := Roll4(hw, Get(mem, h, hs, i));
    }
    if Get(mem, h, hs, i) != 0 {
      MatchIsWindow4(hs, i - 3, w);
      return Some(h + i - 3);
    } else {
      return None;
    }
  }

  lemma MatchIsWindow4(h: seq<byte>, i: nat, w: seq<byte>)
    requires |w| == 4 && i + 4 <= |h|
    ensures MatchAt(h, i, w) <==> Window4(h[i], h[i + 1], h[i + 2], h[i + 3]) == Window4(w[0], w[1], w[2], w[3])
  {
    Window4Exact(h[i], h[i + 1], h[i + 2], h[i + 3], w[0], w[1], w[2], w[3]);
    assert Suf(h, i, 0) == h[i] && Suf(h, i, 1) == h[i + 1] && Suf(h, i, 2) == h[i + 2] && Suf(h, i, 3) == h[i + 3];
  }

  // ---- strstr ----

  /** Dropping k bytes among which the needle's first byte does not occur changes nothing. */
  lemma SkipToFirstByte(a: nat, h: seq<byte>, w: seq<byte>, k: nat, r: Option<nat>)
    requires |w| > 0 && k <= |h| && w[0] !in h[..k]
    requires FirstOccurrence(a + k, h[k..], w, r)
    ensures FirstOccurrence(a, h, w, r)
  {
    forall i: nat | i < k ensures !MatchAt(h, i, w) {
      assert h[..k][i] in h[..k];
      assert i + |w| <= |h| ==> Suf(h, i, 0) == h[i];
    }
    forall i: nat | k <= i ensures MatchAt(h, i, w) <==> MatchAt(h[k..], i - k, w) {
      MatchInTail(h, w, k, i);
    }
    if r.Some? {
      forall i: nat | k <= i < r.value - a ensures !MatchAt(h, i, w) {
        assert !MatchAt(h[k..], i - k, w);
      }
    } else {
      forall i: nat | k <= i ensures !MatchAt(h, i, w) {
        assert !MatchAt(h[k..], i - k, w);
      }
    }
  }

  lemma MatchInTail(h: seq<byte>, w: seq<byte>, k: nat, i: nat)
    requires k <= i && k <= |h|
    ensures MatchAt(h, i, w) <==> MatchAt(h[k..], i - k, w)
  {
    var t, j := h[k..], i - k;
    if i + |w| <= |h| {
      forall x: nat | x < |w| ensures Suf(h, i, x) == Suf(t, j, x) {
        assert t[j + x] == h[i + x];
      }
      if MatchAt(h, i, w) {
        forall x: nat | x < |w| ensures Suf(t, j, x) == w[x] {
          assert Suf(h, i, x) == w[x];
        }
      }
      if MatchAt(t, j, w) {
        forall x: nat | x < |w| ensures Suf(h, i, x) == w[x] {
          assert Suf(t, j, x) == w[x];
        }
      }
    }
  }

  lemma SingleByte(a: nat, h: seq<byte>, w: seq<byte>, r: Option<nat>)
    requires |w| == 1 && w[0] != 0
    requires r.Some? ==> a <= r.value <= a + |h| && At(h, r.value - a) == w[0] && w[0] !in h[..r.value - a]
    requires r.None? ==> w[0] !in h
    ensures FirstOccurrence(a, h, w, r)
  {
    forall i: nat | i + 1 <= |h| ensures MatchAt(h, i, w) <==> h[i] == w[0] {
      assert Suf(h, i, 0) == h[i];
    }
    if r.Some? {
      var x := r.value - a;
      forall i: nat | i < x ensures !MatchAt(h, i, w) {
        assert h[..x][i] in h[..x];
      }
    }
  }

  /** The search proper, once the haystack starts with the needle's first byte. */
  method StrstrFrom(mem: Memory, h: nat, ghost hs: seq<byte>, n: nat, ghost w: seq<byte>) returns (r: Option<nat>)
    requires CString(mem, h, hs) && CString(mem, n, w) && |w| > 1 && |hs| > 0
    ensures FirstOccurrence(h, hs, w, r)
  {
    if Get(mem, h, hs, 1) == 0 {
      return None;
    }
    if Get(mem, n, w, 2) == 0 {
      r := Strstr2(mem, h, hs, n, w);
      return;
    }
    if Get(mem, h, hs, 2) == 0 {
      return None;
    }
    if Get(mem, n, w, 3) == 0 {
      r := Strstr3(mem, h, hs, n, w);
      return;
    }
    if Get(mem, h, hs, 3) == 0 {
      return None;
    }
    if Get(mem, n, w, 4) == 0 {
      r := Strstr4(mem, h, hs, n, w);
      return;
    }
    r := TwoWay(mem, h, hs, n, w);
  }

  /** For every haystack and needle: the first occurrence, or null when there is none. */
  method Strstr(mem: Memory, h: nat, ghost hs: seq<byte>, n: nat, ghost w: seq<byte>) returns (r: Option<nat>)
    requires CString(mem, h, hs) && CString(mem, n, w)
    ensures FirstOccurrence(h, hs, w, r)
  {
    if Get(mem, n, w, 0) == 0 {
      return Some(h);
    }
    var first := Strchr(mem, h, hs, Get(mem, n, w, 0));
    if first.None? || Get(mem, n, w, 1) == 0 {
      if Get(mem, n, w, 1) == 0 {
        SingleByte(h, hs, w, first);
      } else {
        FirstByteMissing(h, hs, w);
      }
      return first;
    }
    ghost var k := first.value - h;
    CStringTail(mem, h, hs, k);
    r := StrstrFrom(mem, first.value, hs[k..], n, w);
    SkipToFirstByte(h, hs, w, k, r);
  }

  lemma FirstByteMissing(a: nat, h: seq<byte>, w: seq<byte>)
    requires |w| > 0 && w[0] !in h
    ensures FirstOccurrence(a, h, w, None)
  {
    forall i: nat ensures !MatchAt(h, i, w) {
      assert i + |w| <= |h| ==> Suf(h, i, 0) == h[i] && h[i] in h;
    }
  }
}
