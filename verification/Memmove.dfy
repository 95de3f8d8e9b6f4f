/** memmove: whole words where both ends are aligned alike, in place (kernel/lib/string.c:54-60, 550-598). */
module Memmove {
  import opened CMemory

  const WORD: nat := 8

  /** Byte j after bytes lo..hi of the block at s have been copied to the block at d. */
  ghost function Cell(o: seq<byte>, d: nat, s: nat, lo: nat, hi: nat, j: nat): byte
    requires j < |o| && s + hi <= |o|
  {
    if d + lo <= j < d + hi then o[s + (j - d)] else o[j]
  }

  ghost predicate Copied(a: array<byte>, o: seq<byte>, d: nat, s: nat, lo: nat, hi: nat)
    reads a
  {
    && a.Length == |o| && s + hi <= |o| && d + hi <= |o| && lo <= hi
    && forall j: nat {:trigger a[j]} :: j < |o| ==> a[j] == Cell(o, d, s, lo, hi, j)
  }

  /** One load and one store of k bytes, a byte or a machine word: all are read before any is written. */
  method CopyChunk(a: array<byte>, d: nat, s: nat, k: nat)
    requires d + k <= a.Length && s + k <= a.Length
    modifies a
    ensures Copied(a, old(a[..]), d, s, 0, k)
  {
    var w := a[s..s + k];
    forall i | 0 <= i < k {
      a[d + i] := w[i];
    }
  }

  /** Bytes c..c+k move up behind those already moved; the source of later bytes is untouched. */
  lemma Forward(a: seq<byte>, b: array<byte>, o: seq<byte>, d: nat, s: nat, c: nat, k: nat)
    requires d < s && |a| == |o| && s + c + k <= |o|
    requires forall j: nat :: j < |o| ==> a[j] == Cell(o, d, s, 0, c, j)
    requires Copied(b, a, d + c, s + c, 0, k)
    ensures Copied(b, o, d, s, 0, c + k)
  {
  }

  lemma Backward(a: seq<byte>, b: array<byte>, o: seq<byte>, d: nat, s: nat, n: nat, k: nat, hi: nat)
    requires s < d && |a| == |o| && k <= n <= hi && d + hi <= |o|
    requires forall j: nat :: j < |o| ==> a[j] == Cell(o, d, s, n, hi, j)
    requires Copied(b, a, d + (n - k), s + (n - k), 0, k)
    ensures Copied(b, o, d, s, n - k, hi)
  {
  }

  method ChunkUp(a: array<byte>, ghost o: seq<byte>, d: nat, s: nat, c: nat, k: nat)
    requires d < s && Copied(a, o, d, s, 0, c) && s + c + k <= a.Length
    modifies a
    ensures Copied(a, o, d, s, 0, c + k)
  {
    ghost var b := a[..];
    CopyChunk(a, d + c, s + c, k);
    Forward(b, a, o, d, s, c, k);
  }

  method ChunkDown(a: array<byte>, ghost o: seq<byte>, d: nat, s: nat, n: nat, k: nat, ghost hi: nat)
    requires s < d && Copied(a, o, d, s, n, hi) && k <= n
    modifies a
    ensures Copied(a, o, d, s, n - k, hi)
  {
    ghost var b := a[..];
    CopyChunk(a, d + (n - k), s + (n - k), k);
    Backward(b, a, o, d, s, n, k, hi);
  }

  /** The loop of memcpy. */
  method Memcpy(a: array<byte>, d: nat, s: nat, n: nat)
    requires d + n <= a.Length && s + n <= a.Length && (s + n <= d || d + n <= s)
    modifies a
    ensures Copied(a, old(a[..]), d, s, 0, n)
  {
    for i := 0 to n
      invariant Copied(a, old(a[..]), d, s, 0, i)
    {
      a[d + i] := a[s + i];
    }
  }

  /** The destination becomes what the source was and nothing else changes, however the two overlap. */
  method Memmove(a: array<byte>, d: nat, s: nat, n: nat)
    requires d + n <= a.Length && s + n <= a.Length
    modifies a
    ensures Copied(a, old(a[..]), d, s, 0, n)
  {
    if d == s {
      return;
    }
    if s + n <= d || d + n <= s {
      Memcpy(a, d, s, n);
    } else if d < s {
      Up(a, d, s, n);
    } else {
      Down(a, d, s, n);
    }
  }

  method Up(a: array<byte>, d: nat, s: nat, n: nat)
    requires d < s && s + n <= a.Length
    modifies a
    ensures Copied(a, old(a[..]), d, s, 0, n)
  {
    ghost var o := a[..];
    var c: nat := 0;
    if s % WORD == d % WORD {
      while (d + c) % WORD != 0
        invariant c <= n && Copied(a, o, d, s, 0, c)
        decreases n - c
      {
        if c == n {
          return;
        }
        ChunkUp(a, o, d, s, c, 1);
        c := c + 1;
      }
      while n - c >= WORD
        invariant c <= n && Copied(a, o, d, s, 0, c)
      {
        ChunkUp(a, o, d, s, c, WORD);
        c := c + WORD;
      }
    }
    while c < n
      invariant c <= n && Copied(a, o, d, s, 0, c)
    {
      ChunkUp(a, o, d, s, c, 1);
      c := c + 1;
    }
  }

  method Down(a: array<byte>, d: nat, s: nat, n: nat)
    requires s < d && d + n <= a.Length
    modifies a
    ensures Copied(a, old(a[..]), d, s, 0, n)
  {
    ghost var o := a[..];
    var k: nat := n;
    if s % WORD == d % WORD {
      while (d + k) % WORD != 0
        invariant k <= n && Copied(a, o, d, s, k, n)
      {
        if k == 0 {
          return;
        }
        ChunkDown(a, o, d, s, k, 1, n);
        k := k - 1;
      }
      while k >= WORD
        invariant k <= n && Copied(a, o, d, s, k, n)
      {
        ChunkDown(a, o, d, s, k, WORD, n);
        k := k - WORD;
      }
    }
    while k > 0
      invariant k <= n && Copied(a, o, d, s, k, n)
    {
      ChunkDown(a, o, d, s, k, 1, n);
      k := k - 1;
    }
  }
}
