/** The bounded formatter (kernel/lib/printf.c): what is written does not depend on the capacity it is cut at, and
    integers read back as the numbers they are printed from, exactly when no digit, sign or prefix is dropped. */
module Printf {
  datatype Flags = Flags(zeropad: bool, left: bool, plus: bool, space: bool, hash: bool, upper: bool, byte: bool,
                         short: bool, long: bool, precision: bool)

  const NO_FLAGS := Flags(false, false, false, false, false, false, false, false, false, false)

  /** PRINTF_NTOA_BUFFER_SIZE. */
  const NTOA: nat := 32

  const UINT: nat := 0x1_0000_0000
  const ULONG: nat := 0x1_0000_0000_0000_0000

  /** A string as C has it: the terminator comes after it and not within, and it fits in memory. */
  type CString = s: seq<char> | '\0' !in s && |s| < ULONG witness []

  // ---- Output into a buffer ----

  /** The first max characters of done have been written over was; a null buffer takes nothing. */
  ghost predicate Shows(buf: array?<char>, was: seq<char>, max: nat, done: seq<char>)
    reads buf
  {
    buf != null ==>
      && |was| == buf.Length
      && forall i :: 0 <= i < buf.Length ==> buf[i] == if i < |done| && i < max then done[i] else was[i]
  }

  /** idx characters are done, and there is room for room characters, or for as many as are written. */
  ghost predicate Ready(buf: array?<char>, was: seq<char>, max: nat, room: nat, idx: nat, done: seq<char>)
    reads buf
  {
    Shows(buf, was, max, done) && idx == |done| && (buf != null ==> max <= buf.Length || room <= buf.Length)
  }

  /** _out_buffer and _out_null. */
  method Put(c: char, buf: array?<char>, idx: nat, max: nat, ghost was: seq<char>, ghost room: nat, ghost done: seq<char>)
      returns (idx': nat)
    requires Ready(buf, was, max, room, idx, done) && |done| < room
    modifies buf
    ensures Ready(buf, was, max, room, idx', done + [c])
  {
    if buf != null && idx < max {
      buf[idx] := c;
    }
    idx' := idx + 1;
  }

  function Spaces(n: nat): seq<char> {
    seq(n, _ => ' ')
  }

  /** How many places of a field are left. */
  function Left(width: nat, len: nat): nat {
    if len < width then width - len else 0
  }

  /** The loops that pad a field with spaces. */
  method Pad(n: nat, buf: array?<char>, idx: nat, max: nat, ghost was: seq<char>, ghost room: nat, ghost done: seq<char>)
      returns (idx': nat)
    requires Ready(buf, was, max, room, idx, done) && |done| + n <= room
    modifies buf
    ensures Ready(buf, was, max, room, idx', done + Spaces(n))
  {
    idx' := idx;
    assert done + Spaces(0) == done;
    for i := 0 to n
      invariant Ready(buf, was, max, room, idx', done + Spaces(i))
    {
      idx' := Put(' ', buf, idx', max, was, room, done + Spaces(i));
      assert done + Spaces(i) + [' '] == done + Spaces(i + 1);
    }
  }

  /** Characters of s one after the other. */
  method PutAll(s: seq<char>, buf: array?<char>, idx: nat, max: nat, ghost was: seq<char>, ghost room: nat,
                ghost done: seq<char>)
      returns (idx': nat)
    requires Ready(buf, was, max, room, idx, done) && |done| + |s| <= room
    modifies buf
    ensures Ready(buf, was, max, room, idx', done + s)
  {
    idx' := idx;
    assert done + s[..0] == done;
    for i := 0 to |s|
      invariant Ready(buf, was, max, room, idx', done + s[..i])
    {
      idx' := Put(s[i], buf, idx', max, was, room, done + s[..i]);
      assert done + s[..i] + [s[i]] == done + s[..i + 1];
    }
    assert s[..|s|] == s;
  }

  // ---- A number, last digit first ----

  function Reversed(s: seq<char>): (r: seq<char>)
    ensures |r| == |s| && forall i :: 0 <= i < |s| ==> r[i] == s[|s| - 1 - i]
  {
    seq(|s|, i requires 0 <= i < |s| => s[|s| - 1 - i])
  }

  function DigitChar(d: nat, upper: bool): char
    requires d < 16
  {
    if d < 10 then '0' + d as char else (if upper then 'A' else 'a') + (d - 10) as char
  }

  ghost predicate Base(b: nat) {
    b == 2 || b == 8 || b == 10 || b == 16
  }

  /** value / base. */
  function High(v: nat, base: nat): nat {
    if base == 2 then v / 2 else if base == 8 then v / 8 else if base == 10 then v / 10 else v / 16
  }

  /** value % base. */
  function Low(v: nat, base: nat): nat {
    if base == 2 then v % 2 else if base == 8 then v % 8 else if base == 10 then v % 10 else v % 16
  }

  /** The digits of v, at most n of them, none for 0. */
  ghost function Rest(v: nat, base: nat, upper: bool, n: nat): (r: seq<char>)
    requires Base(base)
    ensures |r| <= n
    decreases n
  {
    if v == 0 || n == 0 then [] else [DigitChar(Low(v, base), upper)] + Rest(High(v, base), base, upper, n - 1)
  }

  /** The digits of v as far as the buffer reaches; 0 has one, or none if a precision is given. */
  ghost function Digits(v: nat, base: nat, flags: Flags): (r: seq<char>)
    requires Base(base)
    ensures |r| <= NTOA
  {
    if v > 0 then Rest(v, base, flags.upper, NTOA) else if flags.precision then [] else ['0']
  }

  function Least(a: nat, b: nat): nat {
    if a < b then a else b
  }

  function Zeros(n: nat): seq<char> {
    seq(n, _ => '0')
  }

  /** Zeros are put in front until there are n characters, as far as the buffer reaches. */
  ghost function Padded(rs: seq<char>, n: nat): seq<char> {
    rs + Zeros(Left(Least(n, NTOA), |rs|))
  }

  /** A sign takes one place of a field that is filled with zeros. */
  function Narrowed(width: nat, negative: bool, flags: Flags): nat {
    if !flags.left && width > 0 && flags.zeropad && (negative || flags.plus || flags.space) then width - 1 else width
  }

  ghost function Filled(rs: seq<char>, prec: nat, width: nat, flags: Flags): seq<char> {
    if flags.left then rs
    else if flags.zeropad then Padded(Padded(rs, prec), width) else Padded(rs, prec)
  }

  /** How many characters make place for the prefix. */
  function Cut(len: nat, base: nat, prec: nat, width: nat, flags: Flags): (k: nat)
    ensures k <= len
  {
    if flags.hash && !flags.precision && len > 0 && (len == prec || len == width)
    then if len > 1 && base == 16 then 2 else 1
    else 0
  }

  function Letter(base: nat, flags: Flags): seq<char> {
    if base == 16 then [if flags.upper then 'X' else 'x'] else if base == 2 then ['b'] else []
  }

  /** As much of more as the buffer has room for. */
  function Joined(rs: seq<char>, more: seq<char>): seq<char> {
    if |rs| < NTOA then rs + more else rs
  }

  function Prefixed(rs: seq<char>, base: nat, flags: Flags): seq<char> {
    if flags.hash then Joined(Joined(rs, Letter(base, flags)), ['0']) else rs
  }

  function Sign(negative: bool, flags: Flags): seq<char> {
    if negative then ['-'] else if flags.plus then ['+'] else if flags.space then [' '] else []
  }

  /** What _ntoa_format makes of the digits rs. */
  ghost function Formed(rs: seq<char>, negative: bool, base: nat, prec: nat, width: nat, flags: Flags): seq<char> {
    var filled := Filled(rs, prec, width, flags);
    var kept := filled[..|filled| - Cut(|filled|, base, prec, width, flags)];
    Joined(Prefixed(kept, base, flags), Sign(negative, flags))
  }

  /** A field: the characters of rs, last one first, in width places. */
  ghost function Field(rs: seq<char>, width: nat, flags: Flags): seq<char> {
    Spaces(if !flags.left && !flags.zeropad then Left(width, |rs|) else 0) + Reversed(rs)
    + Spaces(if flags.left then Left(width, |rs|) else 0)
  }

  /** There is no prefix for 0. */
  function NoHash(v: nat, flags: Flags): Flags {
    if v == 0 then flags.(hash := false) else flags
  }

  /** The text of an integer. */
  ghost function IntText(v: nat, negative: bool, base: nat, prec: nat, width: nat, flags: Flags): seq<char>
    requires Base(base)
  {
    var w := Narrowed(width, negative, flags);
    Field(Formed(Digits(v, base, flags), negative, base, prec, w, NoHash(v, flags)), w, flags)
  }

  // ---- Printing a number ----

  /** The loop of _out_rev: the characters, last one first. */
  method PutReversed(digits: array<char>, len: nat, buf: array?<char>, idx: nat, max: nat, ghost was: seq<char>,
                     ghost room: nat, ghost done: seq<char>)
      returns (idx': nat)
    requires len <= digits.Length && buf != digits
    requires Ready(buf, was, max, room, idx, done) && |done| + len <= room
    modifies buf
    ensures Ready(buf, was, max, room, idx', done + Reversed(digits[..len]))
  {
    idx' := idx;
    var n := len;
    ghost var rs := digits[..len];
    ghost var out := Reversed(rs);
    assert done + out[..0] == done;
    while n > 0
      invariant 0 <= n <= len == |rs| && digits[..len] == rs
      invariant Ready(buf, was, max, room, idx', done + out[..len - n])
    {
      n := n - 1;
      assert digits[n] == rs[n] == out[len - 1 - n];
      idx' := Put(digits[n], buf, idx', max, was, room, done + out[..len - 1 - n]);
      assert done + out[..len - 1 - n] + [digits[n]] == done + out[..len - n];
    }
    assert out[..len] == out;
  }

  /** _out_rev. */
  method OutRev(digits: array<char>, len: nat, width: nat, flags: Flags, buf: array?<char>, idx: nat, max: nat,
                ghost was: seq<char>, ghost room: nat, ghost done: seq<char>)
      returns (idx': nat)
    requires len <= digits.Length && buf != digits
    requires Ready(buf, was, max, room, idx, done) && |done| + |Field(digits[..len], width, flags)| <= room
    modifies buf
    ensures Ready(buf, was, max, room, idx', done + Field(digits[..len], width, flags))
  {
    ghost var rs := digits[..len];
    var before := if !flags.left && !flags.zeropad then Left(width, len) else 0;
    var after := if flags.left then Left(width, len) else 0;
    idx' := Pad(before, buf, idx, max, was, room, done);
    idx' := PutReversed(digits, len, buf, idx', max, was, room, done + Spaces(before));
    idx' := Pad(after, buf, idx', max, was, room, done + Spaces(before) + Reversed(rs));
    assert done + Spaces(before) + Reversed(rs) + Spaces(after) == done + Field(rs, width, flags);
  }

  /** The loops of _ntoa_format that pad with zeros. */
  method PadZeros(digits: array<char>, len: nat, n: nat) returns (len': nat)
    requires digits.Length == NTOA && len <= NTOA
    modifies digits
    ensures len' <= NTOA && digits[..len'] == Padded(old(digits[..len]), n)
  {
    len' := len;
    ghost var rs := digits[..len];
    assert rs + Zeros(0) == rs;
    while len' < n && len' < NTOA
      invariant len <= len' <= NTOA && (len' > len ==> len' <= n)
      invariant digits[..len'] == rs + Zeros(len' - len)
    {
      digits[len'] := '0';
      assert Zeros(len' - len) + ['0'] == Zeros(len' + 1 - len);
      assert digits[..len' + 1] == digits[..len'] + ['0'];
      len' := len' + 1;
    }
  }

  /** digits[len++] = c, where there is room. */
  method Append(digits: array<char>, len: nat, more: seq<char>) returns (len': nat)
    requires digits.Length == NTOA && len <= NTOA && |more| <= 1
    modifies digits
    ensures len' <= NTOA && digits[..len'] == Joined(old(digits[..len]), more)
  {
    len' := len;
    if len < NTOA && |more| == 1 {
      digits[len] := more[0];
      len' := len + 1;
      assert digits[..len'] == old(digits[..len]) + more;
    }
  }

  /** The padding of _ntoa_format. */
  method Fill(digits: array<char>, len: nat, prec: nat, width: nat, flags: Flags) returns (len': nat)
    requires digits.Length == NTOA && len <= NTOA
    modifies digits
    ensures len' <= NTOA && digits[..len'] == Filled(old(digits[..len]), prec, width, flags)
  {
    len' := len;
    if !flags.left {
      len' := PadZeros(digits, len', prec);
      if flags.zeropad {
        len' := PadZeros(digits, len', width);
      }
    }
  }

  /** The prefix. */
  method Mark(digits: array<char>, len: nat, base: nat, flags: Flags) returns (len': nat)
    requires digits.Length == NTOA && len <= NTOA
    modifies digits
    ensures len' <= NTOA && digits[..len'] == Prefixed(old(digits[..len]), base, flags)
  {
    len' := len;
    if flags.hash {
      len' := Append(digits, len', Letter(base, flags));
      len' := Append(digits, len', ['0']);
    }
  }

  /** The steps of _ntoa_format on its buffer. */
  method Form(digits: array<char>, len: nat, negative: bool, base: nat, prec: nat, width: nat, flags: Flags)
      returns (len': nat)
    requires digits.Length == NTOA && len <= NTOA
    modifies digits
    ensures len' <= NTOA && digits[..len'] == Formed(old(digits[..len]), negative, base, prec, width, flags)
  {
    ghost var rs := digits[..len];
    len' := Fill(digits, len, prec, width, flags);
    ghost var filled := digits[..len'];
    assert filled == Filled(rs, prec, width, flags);
    len' := len' - Cut(len', base, prec, width, flags);
    assert digits[..len'] == filled[..len'];
    len' := Mark(digits, len', base, flags);
    len' := Append(digits, len', Sign(negative, flags));
  }

  method PutOne(digits: array<char>, len: nat, c: char)
    requires len < digits.Length
    modifies digits
    ensures digits[..len + 1] == old(digits[..len]) + [c]
  {
    digits[len] := c;
  }

  lemma FirstDigit(v: nat, base: nat, flags: Flags)
    requires Base(base) && !(flags.precision && v == 0)
    ensures Digits(v, base, flags)
            == [DigitChar(Low(v, base), flags.upper)] + Rest(High(v, base), base, flags.upper, NTOA - 1)
  {
  }

  lemma RestStep(had: seq<char>, rest: nat, base: nat, upper: bool, len: nat)
    requires Base(base) && rest > 0 && len < NTOA
    ensures had + Rest(rest, base, upper, NTOA - len)
            == had + [DigitChar(Low(rest, base), upper)] + Rest(High(rest, base), base, upper, NTOA - (len + 1))
  {
  }

  /** The loop of _ntoa_long: the digits of v, last one first. */
  method PutDigits(digits: array<char>, v: nat, base: nat, flags: Flags) returns (len: nat)
    requires digits.Length == NTOA && Base(base)
    modifies digits
    ensures len <= NTOA && digits[..len] == Digits(v, base, flags)
  {
    if flags.precision && v == 0 {
      return 0;
    }
    ghost var all := Digits(v, base, flags);
    FirstDigit(v, base, flags);
    PutOne(digits, 0, DigitChar(Low(v, base), flags.upper));
    len := 1;
    var rest := High(v, base);
    while rest != 0 && len < NTOA
      invariant 0 < len <= NTOA && Whole(digits[..len], rest, base, flags.upper) == all
    {
      rest := PutNext(digits, len, rest, base, flags.upper);
      len := len + 1;
    }
  }

  /** The digits had and those of rest, as far as the buffer reaches. */
  ghost function Whole(had: seq<char>, rest: nat, base: nat, upper: bool): seq<char>
    requires Base(base) && |had| <= NTOA
  {
    had + Rest(rest, base, upper, NTOA - |had|)
  }

  method PutNext(digits: array<char>, len: nat, rest: nat, base: nat, upper: bool) returns (rest': nat)
    requires digits.Length == NTOA && Base(base) && rest > 0 && len < NTOA
    modifies digits
    ensures Whole(digits[..len + 1], rest', base, upper) == old(Whole(digits[..len], rest, base, upper))
    ensures rest' < rest
  {
    RestStep(digits[..len], rest, base, upper, len);
    PutOne(digits, len, DigitChar(Low(rest, base), upper));
    rest' := High(rest, base);
  }

  /** _ntoa_long and _ntoa_long_long with _ntoa_format. */
  method NtoaLong(v: nat, negative: bool, base: nat, prec: nat, width: nat, flags: Flags, buf: array?<char>, idx: nat,
                  max: nat, ghost was: seq<char>, ghost room: nat, ghost done: seq<char>)
      returns (idx': nat)
    requires Base(base) && Ready(buf, was, max, room, idx, done)
    requires |done| + |IntText(v, negative, base, prec, width, flags)| <= room
    modifies buf
    ensures Ready(buf, was, max, room, idx', done + IntText(v, negative, base, prec, width, flags))
  {
    var digits := new char[NTOA];
    var len := PutDigits(digits, v, base, flags);
    var w := Narrowed(width, negative, flags);
    len := Form(digits, len, negative, base, prec, w, NoHash(v, flags));
    idx' := OutRev(digits, len, w, flags, buf, idx, max, was, room, done);
  }
}
