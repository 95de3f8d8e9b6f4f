/** Byte-addressed memory that is readable in whole aligned 64-bit words, and NUL-terminated strings in it. */
module CMemory {

  /** The value of an unsigned char. */
  type byte = x: int | 0 <= x < 256

  /** Address 0 is word aligned; an aligned word is readable as a whole or not at all. */
  type Memory = m: seq<byte> | |m| % 8 == 0

  /** s is the content, without its terminator, of the string at address a. */
  ghost predicate CString(mem: Memory, a: nat, s: seq<byte>) {
    && a + |s| < |mem|
    && (forall i: nat :: i < |s| ==> s[i] == mem[a + i] && s[i] != 0)
    && mem[a + |s|] == 0
  }

  /** The bytes a C program may read of a string: its content and the terminator. */
  ghost function At(s: seq<byte>, i: nat): byte
    requires i <= |s|
  {
    if i < |s| then s[i] else 0
  }

  /** A read of a[k] that provably stays inside the string, terminator included. */
  function Get(mem: Memory, a: nat, ghost s: seq<byte>, k: nat): (b: byte)
    requires CString(mem, a, s) && k <= |s|
    ensures b == At(s, k)
  {
    mem[a + k]
  }

  /** The string that starts k bytes into the string at a. */
  lemma CStringTail(mem: Memory, a: nat, s: seq<byte>, k: nat)
    requires CString(mem, a, s) && k <= |s|
    ensures CString(mem, a + k, s[k..])
  {
    var t := s[k..];
    forall i: nat | i < |t| ensures t[i] == mem[a + k + i] && t[i] != 0 {
      assert t[i] == s[k + i];
    }
  }
}
