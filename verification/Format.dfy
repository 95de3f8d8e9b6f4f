/** _vsnprintf: scanning the format and printing its conversions (kernel/lib/printf.c:176-200, 582-861). */
module Format {
  import opened Printf

  /** The arguments: va gives them as machine words, str the string that starts at an address, and float the text of a
      floating-point conversion. */
  datatype Env = Env(va: nat -> nat, str: nat -> CString, float: (char, Flags, nat, nat, nat) -> seq<char>)

  /** The character at position i; behind the last one comes the terminator. */
  function At(f: CString, i: nat): char {
    if i < |f| then f[i] else '\0'
  }

  // ---- The parts of a conversion ----

  /** What is known of a conversion: its flags and fields, where the scan stands, and how many arguments it has taken. */
  datatype Spec = Spec(flags: Flags, width: nat, prec: nat, at: nat, arg: nat) {
    /** Without a precision it is 0. */
    predicate Sound() {
      prec < UINT && (!flags.precision ==> prec == 0)
    }
  }

  predicate IsFlag(c: char) {
    c == '0' || c == '-' || c == '+' || c == ' ' || c == '#'
  }

  function SetFlag(c: char, flags: Flags): Flags {
    match c
    case '0' => flags.(zeropad := true)
    case '-' => flags.(left := true)
    case '+' => flags.(plus := true)
    case ' ' => flags.(space := true)
    case _ => flags.(hash := true)
  }

  ghost function FlagsFrom(f: CString, s: Spec): (r: Spec)
    ensures s.at <= r.at && (s.at <= |f| ==> r.at <= |f|) && r == s.(flags := r.flags, at := r.at)
    ensures r.flags.precision == s.flags.precision
    decreases |f| - s.at
  {
    if IsFlag(At(f, s.at)) then FlagsFrom(f, s.(flags := SetFlag(At(f, s.at), s.flags), at := s.at + 1)) else s
  }

  method ScanFlags(f: CString, s: Spec) returns (r: Spec)
    ensures r == FlagsFrom(f, s)
  {
    r := s;
    while IsFlag(At(f, r.at))
      invariant FlagsFrom(f, r) == FlagsFrom(f, s)
      decreases |f| - r.at
    {
      r := r.(flags := SetFlag(At(f, r.at), r.flags), at := r.at + 1);
    }
  }

  predicate IsDigit(c: char) {
    '0' <= c <= '9'
  }

  /** The number at position i and where it ends, n being what precedes it: unsigned int arithmetic. */
  ghost function NumberFrom(f: CString, i: nat, n: nat): (r: (nat, nat))
    ensures i <= r.1 && (i <= |f| ==> r.1 <= |f|) && (n < UINT ==> r.0 < UINT)
    decreases |f| - i
  {
    if IsDigit(At(f, i)) then NumberFrom(f, i + 1, (n * 10 + (f[i] - '0') as nat) % UINT) else (n, i)
  }

  /** _atoi. */
  method Atoi(f: CString, i: nat) returns (n: nat, next: nat)
    ensures (n, next) == NumberFrom(f, i, 0)
  {
    n, next := 0, i;
    while IsDigit(At(f, next))
      invariant NumberFrom(f, next, n) == NumberFrom(f, i, 0)
      decreases |f| - next
    {
      n := (n * 10 + (f[next] - '0') as nat) % UINT;
      next := next + 1;
    }
  }

  /** The value of the last bits of w as a signed number. */
  function Signed(w: nat, bits: nat): int
    requires bits > 0
  {
    if w % bits >= bits / 2 then w % bits - bits else w % bits
  }

  function Magnitude(x: int): nat {
    if x < 0 then -x else x
  }

  /** The width as an argument: a negative one pads on the other side. */
  function StarWidth(s: Spec, va: nat -> nat): Spec {
    var w := Signed(va(s.arg), UINT);
    s.(flags := if w < 0 then s.flags.(left := true) else s.flags, width := Magnitude(w), at := s.at + 1, arg := s.arg + 1)
  }

  ghost function WidthFrom(f: CString, s: Spec, va: nat -> nat): (r: Spec)
    ensures s.at <= r.at && (s.at <= |f| ==> r.at <= |f|)
    ensures s.Sound() ==> r.Sound()
  {
    if IsDigit(At(f, s.at)) then var n := NumberFrom(f, s.at, 0); s.(width := n.0, at := n.1)
    else if At(f, s.at) == '*' then StarWidth(s, va)
    else s
  }

  method ScanWidth(f: CString, s: Spec, va: nat -> nat) returns (r: Spec)
    ensures r == WidthFrom(f, s, va)
  {
    r := s;
    if IsDigit(At(f, s.at)) {
      var n, next := Atoi(f, s.at);
      r := s.(width := n, at := next);
    } else if At(f, s.at) == '*' {
      r := StarWidth(s, va);
    }
  }

  function StarPrec(s: Spec, va: nat -> nat): Spec {
    var p := Signed(va(s.arg), UINT);
    s.(prec := if p > 0 then p else 0, at := s.at + 1, arg := s.arg + 1)
  }

  ghost function PrecFrom(f: CString, s: Spec, va: nat -> nat): (r: Spec)
    ensures s.at <= r.at && (s.at <= |f| ==> r.at <= |f|)
    ensures s.Sound() ==> r.Sound()
  {
    if At(f, s.at) != '.' then s else
    var d := s.(flags := s.flags.(precision := true), at := s.at + 1);
    if IsDigit(At(f, d.at)) then var n := NumberFrom(f, d.at, 0); d.(prec := n.0, at := n.1)
    else if At(f, d.at) == '*' then StarPrec(d, va)
    else d
  }

  method ScanPrec(f: CString, s: Spec, va: nat -> nat) returns (r: Spec)
    ensures r == PrecFrom(f, s, va)
  {
    r := s;
    if At(f, s.at) == '.' {
      r := s.(flags := s.flags.(precision := true), at := s.at + 1);
      if IsDigit(At(f, r.at)) {
        var n, next := Atoi(f, r.at);
        r := r.(prec := n, at := next);
      } else if At(f, r.at) == '*' {
        r := StarPrec(r, va);
      }
    }
  }

  /** The length field: long and long long are the same. */
  function LengthFrom(f: CString, s: Spec): (r: Spec)
    ensures s.at <= r.at && (s.at <= |f| ==> r.at <= |f|)
    ensures s.Sound() ==> r.Sound()
  {
    match At(f, s.at)
    case 'l' => s.(flags := s.flags.(long := true), at := if At(f, s.at + 1) == 'l' then s.at + 2 else s.at + 1)
    case 'h' =>
      if At(f, s.at + 1) == 'h' then s.(flags := s.flags.(short := true, byte := true), at := s.at + 2)
      else s.(flags := s.flags.(short := true), at := s.at + 1)
    case 't' => s.(flags := s.flags.(long := true), at := s.at + 1)
    case 'j' => s.(flags := s.flags.(long := true), at := s.at + 1)
    case 'z' => s.(flags := s.flags.(long := true), at := s.at + 1)
    case _ => s
  }

  /** The conversion whose % stands before position i. */
  ghost function SpecAt(f: CString, i: nat, k: nat, va: nat -> nat): (r: Spec)
    ensures i <= r.at && (i <= |f| ==> r.at <= |f|) && r.Sound()
  {
    LengthFrom(f, PrecFrom(f, WidthFrom(f, FlagsFrom(f, Spec(NO_FLAGS, 0, 0, i, k)), va), va))
  }

  method ScanSpec(f: CString, i: nat, k: nat, va: nat -> nat) returns (r: Spec)
    ensures r == SpecAt(f, i, k, va)
  {
    r := ScanFlags(f, Spec(NO_FLAGS, 0, 0, i, k));
    r := ScanWidth(f, r, va);
    r := ScanPrec(f, r, va);
    r := LengthFrom(f, r);
  }

  // ---- The text of a conversion ----

  predicate IsInt(c: char) {
    c == 'd' || c == 'i' || c == 'u' || c == 'x' || c == 'X' || c == 'o' || c == 'b'
  }

  predicate IsFloat(c: char) {
    c == 'f' || c == 'F' || c == 'e' || c == 'E' || c == 'g' || c == 'G'
  }

  function BaseOf(c: char): (b: nat)
    ensures Base(b)
  {
    if c == 'x' || c == 'X' then 16 else if c == 'o' then 8 else if c == 'b' then 2 else 10
  }

  /** Which flags count for an integer. */
  function IntFlags(c: char, flags: Flags): Flags {
    var signed := c == 'i' || c == 'd';
    flags.(hash := flags.hash && BaseOf(c) != 10, upper := flags.upper || c == 'X', plus := flags.plus && signed,
           space := flags.space && signed, zeropad := flags.zeropad && !flags.precision)
  }

  /** 2 to the number of bits of an integer argument. */
  function Size(flags: Flags): (n: nat)
    ensures n > 0
  {
    if flags.long then ULONG else if flags.byte then 0x100 else if flags.short then 0x1_0000 else UINT
  }

  /** The number that an integer conversion prints. */
  function IntArg(c: char, w: nat, flags: Flags): int {
    if c == 'i' || c == 'd' then Signed(w, Size(flags)) else w % Size(flags)
  }

  /** How many characters of a string are printed. */
  function Shown(len: nat, s: Spec): nat {
    if s.flags.precision then Least(len, s.prec) else len
  }

  /** What counts as their number when the field is padded: an unsigned int. */
  function Counted(len: nat, s: Spec): nat {
    if s.flags.precision then Least(len, s.prec) else len % UINT
  }

  /** text in a field of which count places are taken. */
  ghost function InField(text: seq<char>, count: nat, s: Spec): seq<char> {
    Spaces(if s.flags.left then 0 else Left(s.width, count)) + text + Spaces(if s.flags.left then Left(s.width, count) else 0)
  }

  /** The width that %p sets. */
  const POINTER_WIDTH: nat := 16

  ghost function Text(c: char, s: Spec, env: Env): seq<char> {
    var w := env.va(s.arg);
    if IsInt(c) then
      var x := IntArg(c, w, s.flags);
      IntText(Magnitude(x), x < 0, BaseOf(c), s.prec, s.width, IntFlags(c, s.flags))
    else if IsFloat(c) then env.float(c, s.flags, s.prec, s.width, w)
    else if c == 'c' then InField([(w % 0x100) as char], 1, s)
    else if c == 's' then
      var t := env.str(w);
      InField(t[..Shown(|t|, s)], Counted(|t|, s), s)
    else if c == 'p' then
      IntText(w % ULONG, false, 16, s.prec, POINTER_WIDTH, s.flags.(zeropad := true, upper := true))
    else [c]
  }

  /** How many arguments it takes. */
  function Takes(c: char): nat {
    if IsInt(c) || IsFloat(c) || c == 'c' || c == 's' || c == 'p' then 1 else 0
  }

  /** The conversions that may start at a position, and their texts. */
  ghost function SpecOf(f: CString, va: nat -> nat): (nat, nat) -> Spec {
    (i: nat, k: nat) => SpecAt(f, i, k, va)
  }

  ghost function TextOf(env: Env): (char, Spec) -> seq<char> {
    (c, s) => Text(c, s, env)
  }

  ghost predicate Onward(spec: (nat, nat) -> Spec) {
    forall i: nat, k: nat :: spec(i, k).at >= i
  }

  /** The whole output from position i and argument k on, whatever the capacity. */
  ghost function OutputBy(f: CString, i: nat, k: nat, spec: (nat, nat) -> Spec, text: (char, Spec) -> seq<char>): seq<char>
    requires Onward(spec)
    decreases |f| - i
  {
    if i >= |f| then []
    else if f[i] != '%' then [f[i]] + OutputBy(f, i + 1, k, spec, text)
    else
      var s := spec(i + 1, k);
      text(At(f, s.at), s) + if s.at >= |f| then [] else OutputBy(f, s.at + 1, s.arg + Takes(At(f, s.at)), spec, text)
  }

  ghost function Output(f: CString, env: Env): seq<char> {
    OutputBy(f, 0, 0, SpecOf(f, env.va), TextOf(env))
  }

  /** From position i on, no conversion is cut off by the end of the format. */
  ghost predicate CompleteBy(f: CString, i: nat, k: nat, spec: (nat, nat) -> Spec)
    requires Onward(spec)
    decreases |f| - i
  {
    if i >= |f| then true
    else if f[i] != '%' then CompleteBy(f, i + 1, k, spec)
    else
      var s := spec(i + 1, k);
      s.at < |f| && CompleteBy(f, s.at + 1, s.arg + Takes(At(f, s.at)), spec)
  }

  ghost predicate Complete(f: CString, va: nat -> nat) {
    CompleteBy(f, 0, 0, SpecOf(f, va))
  }

  // ---- Printing ----

  method PutField(text: seq<char>, count: nat, s: Spec, buf: array?<char>, idx: nat, max: nat, ghost was: seq<char>,
                  ghost room: nat, ghost done: seq<char>)
      returns (idx': nat)
    requires Ready(buf, was, max, room, idx, done) && |done| + |InField(text, count, s)| <= room
    modifies buf
    ensures Ready(buf, was, max, room, idx', done + InField(text, count, s))
  {
    var fill := Left(s.width, count);
    var before := if s.flags.left then 0 else fill;
    var after := if s.flags.left then fill else 0;
    idx' := Pad(before, buf, idx, max, was, room, done);
    idx' := PutAll(text, buf, idx', max, was, room, done + Spaces(before));
    idx' := Pad(after, buf, idx', max, was, room, done + Spaces(before) + text);
    assert done + Spaces(before) + text + Spaces(after) == done + InField(text, count, s);
  }

  /** _strnlen_s: the length of the string, at most max. */
  method Strnlen(t: CString, max: nat) returns (n: nat)
    ensures n == Least(|t|, max)
  {
    n := 0;
    var left: nat := max;
    while At(t, n) != '\0' && left > 0
      invariant n <= |t| && n + left == max
      decreases left
    {
      left := left - 1;
      n := n + 1;
    }
  }

  method CountString(t: CString, s: Spec) returns (l: nat)
    requires s.Sound()
    ensures l == Counted(|t|, s)
  {
    l := Strnlen(t, if s.prec > 0 then s.prec else ULONG - 1);
    l := l % UINT;
    if s.flags.precision {
      l := if l < s.prec then l else s.prec;
    }
  }

  /** The case of %s. */
  method PutString(t: CString, s: Spec, buf: array?<char>, idx: nat, max: nat, ghost was: seq<char>, ghost room: nat,
                   ghost done: seq<char>)
      returns (idx': nat)
    requires s.Sound() && Ready(buf, was, max, room, idx, done)
    requires |done| + |InField(t[..Shown(|t|, s)], Counted(|t|, s), s)| <= room
    modifies buf
    ensures Ready(buf, was, max, room, idx', done + InField(t[..Shown(|t|, s)], Counted(|t|, s), s))
  {
    var l := CountString(t, s);
    idx' := PutField(t[..Shown(|t|, s)], l, s, buf, idx, max, was, room, done);
  }

  /** One conversion. */
  method Convert(c: char, s: Spec, env: Env, buf: array?<char>, idx: nat, max: nat, ghost was: seq<char>, ghost room: nat,
                 ghost done: seq<char>)
      returns (idx': nat)
    requires s.Sound() && Ready(buf, was, max, room, idx, done) && |done| + |Text(c, s, env)| <= room
    modifies buf
    ensures Ready(buf, was, max, room, idx', done + Text(c, s, env))
  {
    var w := env.va(s.arg);
    if IsInt(c) {
      var x := IntArg(c, w, s.flags);
      idx' := NtoaLong(Magnitude(x), x < 0, BaseOf(c), s.prec, s.width, IntFlags(c, s.flags), buf, idx, max, was, room, done);
    } else if IsFloat(c) {
      idx' := PutAll(env.float(c, s.flags, s.prec, s.width, w), buf, idx, max, was, room, done);
    } else if c == 'c' {
      idx' := PutField([(w % 0x100) as char], 1, s, buf, idx, max, was, room, done);
    } else if c == 's' {
      idx' := PutString(env.str(w), s, buf, idx, max, was, room, done);
    } else if c == 'p' {
      idx' := NtoaLong(w % ULONG, false, 16, s.prec, POINTER_WIDTH, s.flags.(zeropad := true, upper := true), buf, idx, max,
                       was, room, done);
    } else {
      idx' := Put(c, buf, idx, max, was, room, done);
    }
  }

  /** The output from i and k on is what was added to done and the output from i' and k' on; or, if the scan has run past
      the terminator, all of it was added. */
  ghost predicate Moved(f: CString, i: nat, k: nat, spec: (nat, nat) -> Spec, text: (char, Spec) -> seq<char>, i': nat,
                        k': nat, ran: bool, done: seq<char>, done': seq<char>)
    requires Onward(spec)
  {
    if ran then i' == |f| && !CompleteBy(f, i, k, spec) && done' == done + OutputBy(f, i, k, spec, text)
    else
      && (CompleteBy(f, i, k, spec) <==> CompleteBy(f, i', k', spec))
      && done' + OutputBy(f, i', k', spec, text) == done + OutputBy(f, i, k, spec, text)
  }

  lemma MovedByChar(f: CString, i: nat, k: nat, spec: (nat, nat) -> Spec, text: (char, Spec) -> seq<char>,
                    done: seq<char>)
    requires Onward(spec) && i < |f| && f[i] != '%'
    ensures Moved(f, i, k, spec, text, i + 1, k, false, done, done + [f[i]])
  {
    assert done + [f[i]] + OutputBy(f, i + 1, k, spec, text) == done + ([f[i]] + OutputBy(f, i + 1, k, spec, text));
  }

  lemma MovedByConversion(f: CString, i: nat, k: nat, spec: (nat, nat) -> Spec, text: (char, Spec) -> seq<char>,
                          s: Spec, done: seq<char>)
    requires Onward(spec) && i < |f| && f[i] == '%' && s == spec(i + 1, k)
    ensures var ran := s.at >= |f|;
            Moved(f, i, k, spec, text, if ran then |f| else s.at + 1, s.arg + Takes(At(f, s.at)), ran, done,
                  done + text(At(f, s.at), s))
    ensures |done| + |text(At(f, s.at), s)| <= |done + OutputBy(f, i, k, spec, text)|
  {
    var t := text(At(f, s.at), s);
    if s.at >= |f| {
      assert OutputBy(f, i, k, spec, text) == t;
    } else {
      var rest := OutputBy(f, s.at + 1, s.arg + Takes(At(f, s.at)), spec, text);
      assert OutputBy(f, i, k, spec, text) == t + rest;
      assert done + t + rest == done + (t + rest);
    }
  }

  /** spec and text are those of the format and the arguments. */
  ghost predicate Models(f: CString, env: Env, spec: (nat, nat) -> Spec, text: (char, Spec) -> seq<char>) {
    && (forall i: nat, k: nat {:trigger SpecIs(f, env, spec, i, k)} :: SpecIs(f, env, spec, i, k))
    && (forall c: char, s: Spec {:trigger TextIs(env, text, c, s)} :: TextIs(env, text, c, s))
  }

  ghost predicate SpecIs(f: CString, env: Env, spec: (nat, nat) -> Spec, i: nat, k: nat) {
    spec(i, k) == SpecAt(f, i, k, env.va)
  }

  ghost predicate TextIs(env: Env, text: (char, Spec) -> seq<char>, c: char, s: Spec) {
    text(c, s) == Text(c, s, env)
  }

  /** A conversion is scanned and printed. */
  method PutConversion(f: CString, i: nat, k: nat, env: Env, buf: array?<char>, idx: nat, max: nat, ghost was: seq<char>,
                       ghost room: nat, ghost done: seq<char>, ghost spec: (nat, nat) -> Spec,
                       ghost text: (char, Spec) -> seq<char>)
      returns (s: Spec, idx': nat)
    requires Models(f, env, spec, text)
    requires Ready(buf, was, max, room, idx, done) && |done| + |text(At(f, spec(i, k).at), spec(i, k))| <= room
    modifies buf
    ensures s == spec(i, k) && (i <= |f| ==> s.at <= |f|)
    ensures Ready(buf, was, max, room, idx', done + text(At(f, s.at), s))
  {
    s := ScanSpec(f, i, k, env.va);
    assert SpecIs(f, env, spec, i, k) && TextIs(env, text, At(f, s.at), s);
    idx' := Convert(At(f, s.at), s, env, buf, idx, max, was, room, done);
  }

  /** One turn of the loop of _vsnprintf: a character or a conversion.  ran: the format ended within the conversion, and
      the scan has run past its terminator. */
  method Item(f: CString, i: nat, k: nat, env: Env, buf: array?<char>, idx: nat, max: nat, ghost was: seq<char>,
              ghost room: nat, ghost done: seq<char>, ghost spec: (nat, nat) -> Spec, ghost text: (char, Spec) -> seq<char>)
      returns (i': nat, k': nat, idx': nat, ran: bool, ghost done': seq<char>)
    requires Models(f, env, spec, text) && Onward(spec)
    requires i < |f| && Ready(buf, was, max, room, idx, done) && |done + OutputBy(f, i, k, spec, text)| <= room
    modifies buf
    ensures i < i' <= |f| && Ready(buf, was, max, room, idx', done')
    ensures Moved(f, i, k, spec, text, i', k', ran, done, done')
  {
    if f[i] != '%' {
      MovedByChar(f, i, k, spec, text, done);
      idx' := Put(f[i], buf, idx, max, was, room, done);
      i', k', ran, done' := i + 1, k, false, done + [f[i]];
    } else {
      MovedByConversion(f, i, k, spec, text, spec(i + 1, k), done);
      var s;
      s, idx' := PutConversion(f, i + 1, k, env, buf, idx, max, was, room, done, spec, text);
      ran := s.at >= |f|;
      i', k' := if ran then |f| else s.at + 1, s.arg + Takes(At(f, s.at));
      done' := done + text(At(f, s.at), s);
    }
  }

  /** The loop of _vsnprintf. */
  method Print(f: CString, env: Env, buf: array?<char>, max: nat, ghost was: seq<char>, ghost spec: (nat, nat) -> Spec,
               ghost text: (char, Spec) -> seq<char>)
      returns (idx: nat, ran: bool)
    requires Models(f, env, spec, text) && Onward(spec)
    requires buf != null ==> was == buf[..] && (max <= buf.Length || |OutputBy(f, 0, 0, spec, text)| < buf.Length)
    modifies buf
    ensures ran <==> !CompleteBy(f, 0, 0, spec)
    ensures Ready(buf, was, max, |OutputBy(f, 0, 0, spec, text)| + 1, idx, OutputBy(f, 0, 0, spec, text))
  {
    ghost var all := OutputBy(f, 0, 0, spec, text);
    ghost var room, done: seq<char> := |all| + 1, [];
    var i: nat, k: nat := 0, 0;
    idx, ran := 0, false;
    while i < |f|
      invariant i <= |f| && Ready(buf, was, max, room, idx, done) && !ran
      invariant CompleteBy(f, 0, 0, spec) <==> CompleteBy(f, i, k, spec)
      invariant done + OutputBy(f, i, k, spec, text) == all
    {
      i, k, idx, ran, done := Item(f, i, k, env, buf, idx, max, was, room, done, spec, text);
      if ran {
        return;
      }
    }
    assert done == all;
  }

  /** The first max - 1 characters of the output, the terminator, and what was there before. */
  ghost predicate Terminated(was: seq<char>, now: seq<char>, out: seq<char>, max: nat) {
    && |now| == |was|
    && forall i :: 0 <= i < |now| ==>
         now[i] == if max == 0 then was[i]
                   else if i < |out| && i < max - 1 then out[i]
                   else if i == Least(|out|, max - 1) then '\0'
                   else was[i]
  }

  /** vsnprintf: whatever the capacity max, the result is the length of the whole output, the buffer holds as much of it as
      fits before a terminator, and nothing else is written.  The caller has to see to it that the buffer is as large as
      its capacity, or as what is written. */
  method Vsnprintf(buf: array?<char>, max: nat, f: CString, env: Env) returns (n: nat, ran: bool)
    requires buf != null ==> max <= buf.Length || |Output(f, env)| < buf.Length
    modifies buf
    ensures ran <==> !Complete(f, env.va)
    ensures n == |Output(f, env)|
    ensures !ran && buf != null ==> Terminated(old(buf[..]), buf[..], Output(f, env), max)
  {
    ghost var was := if buf == null then [] else buf[..];
    n, ran := Print(f, env, buf, max, was, SpecOf(f, env.va), TextOf(env));
    if ran {
      return;
    }
    var last: int := if n < max then n else max - 1;
    if buf != null && 0 <= last < max {
      buf[last] := '\0';
    }
  }

  /** "%": the scan runs past the terminator. */
  lemma LonePercent(va: nat -> nat)
    ensures !Complete("%", va)
  {
    assert SpecAt("%", 1, 0, va).at >= 1;
  }

  /** A format without conversions is its own output. */
  lemma {:induction false} PlainText(f: CString, i: nat, k: nat, spec: (nat, nat) -> Spec, text: (char, Spec) -> seq<char>)
    requires Onward(spec) && i <= |f| && '%' !in f[i..]
    ensures OutputBy(f, i, k, spec, text) == f[i..] && CompleteBy(f, i, k, spec)
    decreases |f| - i
  {
    if i < |f| {
      assert f[i..] == [f[i]] + f[i + 1..];
      assert f[i] in f[i..];
      PlainText(f, i + 1, k, spec, text);
    }
  }
}
