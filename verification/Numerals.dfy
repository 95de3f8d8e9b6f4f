/** Printed integers read back as the numbers they were printed from (kernel/lib/printf.c:204-306). */
module Numerals {
  import opened Printf
  import Format

  function Pow(b: nat, n: nat): (p: nat) {
    if n == 0 then 1 else b * Pow(b, n - 1)
  }

  lemma {:induction false} PowPositive(b: nat, n: nat)
    requires b > 0
    ensures Pow(b, n) > 0
  {
    if n > 0 {
      PowPositive(b, n - 1);
    }
  }

  lemma {:induction false} PowGrows(b: nat, m: nat, n: nat)
    requires b > 0 && m <= n
    ensures Pow(b, m) <= Pow(b, n)
  {
    if m < n {
      PowGrows(b, m, n - 1);
      PowPositive(b, n - 1);
    }
  }

  // ---- Reading a number, as strtol does ----

  function DigitOf(c: char): nat {
    if '0' <= c <= '9' then (c - '0') as nat
    else if 'a' <= c <= 'f' then (c - 'a') as nat + 10
    else if 'A' <= c <= 'F' then (c - 'A') as nat + 10
    else 16
  }

  predicate IsDigit(c: char, base: nat) {
    DigitOf(c) < base
  }

  /** The digits at the beginning of t, acc standing for those before. */
  function ReadDigits(t: seq<char>, base: nat, acc: nat): nat {
    if t == [] || !IsDigit(t[0], base) then acc else ReadDigits(t[1..], base, acc * base + DigitOf(t[0]))
  }

  /** Behind the prefix, if there is one. */
  function ReadNumeral(t: seq<char>, base: nat): nat {
    if |t| >= 2 && t[0] == '0' && ((base == 16 && (t[1] == 'x' || t[1] == 'X')) || (base == 2 && t[1] == 'b'))
    then ReadDigits(t[2..], base, 0)
    else ReadDigits(t, base, 0)
  }

  function ReadSigned(t: seq<char>, base: nat): int {
    if t != [] && t[0] == '-' then
      var n: int := ReadNumeral(t[1..], base);
      -n
    else if t != [] && t[0] == '+' then ReadNumeral(t[1..], base)
    else ReadNumeral(t, base)
  }

  /** Spaces, a sign, a prefix and digits; what follows them does not count. */
  function Strtol(t: seq<char>, base: nat): int {
    if t != [] && t[0] == ' ' then Strtol(t[1..], base) else ReadSigned(t, base)
  }

  // ---- Digits, last one first ----

  ghost predicate AllDigits(rs: seq<char>, base: nat) {
    forall i :: 0 <= i < |rs| ==> IsDigit(rs[i], base)
  }

  /** What the digits stand for. */
  ghost function Value(rs: seq<char>, base: nat): nat {
    if rs == [] then 0 else DigitOf(rs[0]) + base * Value(rs[1..], base)
  }

  lemma DigitRoundTrip(d: nat, upper: bool, base: nat)
    requires d < base <= 16
    ensures DigitOf(DigitChar(d, upper)) == d && IsDigit(DigitChar(d, upper), base)
  {
  }

  lemma {:induction false} ValueAppend(rs: seq<char>, d: char, base: nat)
    ensures Value(rs + [d], base) == Value(rs, base) + DigitOf(d) * Pow(base, |rs|)
  {
    if rs == [] {
      assert rs + [d] == [d];
      assert Value([], base) == 0;
    } else {
      ValueAppend(rs[1..], d, base);
      assert (rs + [d])[1..] == rs[1..] + [d];
      Distribute(base, Value(rs[1..], base), DigitOf(d), Pow(base, |rs| - 1));
    }
  }

  lemma Distribute(b: nat, x: nat, d: nat, p: nat)
    ensures b * (x + d * p) == b * x + d * (b * p)
  {
  }

  lemma {:induction false} ValueBelow(rs: seq<char>, base: nat)
    requires AllDigits(rs, base)
    ensures Value(rs, base) < Pow(base, |rs|)
  {
    if rs != [] {
      assert IsDigit(rs[0], base);
      forall i | 0 <= i < |rs| - 1 ensures IsDigit(rs[1..][i], base) {
        assert IsDigit(rs[i + 1], base);
      }
      ValueBelow(rs[1..], base);
      BelowStep(base, DigitOf(rs[0]), Value(rs[1..], base), Pow(base, |rs| - 1));
    }
  }

  lemma BelowStep(b: nat, d: nat, x: nat, p: nat)
    requires d < b && x < p
    ensures d + b * x < b * p
  {
    assert b * (x + 1) <= b * p;
  }

  lemma {:induction false} ValueZeros(rs: seq<char>, n: nat, base: nat)
    ensures Value(rs + Zeros(n), base) == Value(rs, base)
  {
    if n == 0 {
      assert rs + Zeros(0) == rs;
    } else {
      ValueZeros(rs, n - 1, base);
      ValueAppend(rs + Zeros(n - 1), '0', base);
      assert rs + Zeros(n - 1) + ['0'] == rs + Zeros(n);
    }
  }

  lemma ReversedLast(rs: seq<char>)
    requires rs != []
    ensures Reversed(rs) == [rs[|rs| - 1]] + Reversed(rs[..|rs| - 1])
  {
  }

  /** Reading digits, first one first. */
  lemma {:induction false} ReadReversed(rs: seq<char>, tail: seq<char>, base: nat, acc: nat)
    requires AllDigits(rs, base) && (tail == [] || !IsDigit(tail[0], base))
    ensures ReadDigits(Reversed(rs) + tail, base, acc) == acc * Pow(base, |rs|) + Value(rs, base)
  {
    if rs == [] {
      assert Reversed(rs) + tail == tail;
    } else {
      var n := |rs| - 1;
      var d, t := rs[n], Reversed(rs[..n]) + tail;
      assert IsDigit(d, base);
      ReversedLast(rs);
      assert Reversed(rs) + tail == [d] + t;
      assert ReadDigits([d] + t, base, acc) == ReadDigits(t, base, acc * base + DigitOf(d));
      ReadReversed(rs[..n], tail, base, acc * base + DigitOf(d));
      assert rs == rs[..n] + [d];
      ValueAppend(rs[..n], d, base);
      ReadStep(acc, base, DigitOf(d), Pow(base, n), Value(rs[..n], base));
    }
  }

  lemma ReadStep(acc: nat, b: nat, d: nat, p: nat, x: nat)
    ensures (acc * b + d) * p + x == acc * (b * p) + (x + d * p)
  {
  }

  // ---- The digits of a number ----

  lemma SplitNumber(v: nat, base: nat)
    requires Base(base)
    ensures v == Low(v, base) + base * High(v, base) && Low(v, base) < base
  {
  }

  /** The digits stand for the number exactly if it has no more of them than there is room for. */
  lemma {:induction false} RestValue(v: nat, base: nat, upper: bool, n: nat)
    requires Base(base)
    ensures var r := Rest(v, base, upper, n);
            && AllDigits(r, base) && Value(r, base) <= v && (Value(r, base) == v <==> v < Pow(base, n))
    decreases n
  {
    var r := Rest(v, base, upper, n);
    if v == 0 || n == 0 {
      assert r == [];
      PowPositive(base, n);
    } else {
      RestValue(High(v, base), base, upper, n - 1);
      SplitNumber(v, base);
      DigitRoundTrip(Low(v, base), upper, base);
      assert r[1..] == Rest(High(v, base), base, upper, n - 1);
      ValueStep(v, Low(v, base), High(v, base), base, Value(r[1..], base), Pow(base, n - 1));
      forall i | 0 <= i < |r| ensures IsDigit(r[i], base) {
        if i > 0 {
          assert r[i] == r[1..][i - 1];
        }
      }
    }
  }

  lemma ValueStep(v: nat, d: nat, q: nat, b: nat, x: nat, p: nat)
    requires v == d + b * q && d < b && x <= q && (x == q <==> q < p)
    ensures d + b * x <= v && (d + b * x == v <==> v < b * p)
  {
    if q < p {
      BelowStep(b, d, q, p);
    } else {
      assert b * (x + 1) <= b * q;
      assert b * p <= b * q;
    }
  }

  /** The first digit of a number is not 0. */
  lemma {:induction false} TopDigit(v: nat, base: nat, upper: bool, n: nat)
    requires Base(base) && 0 < v < Pow(base, n)
    ensures var r := Rest(v, base, upper, n); r != [] && Pow(base, |r| - 1) <= v
    decreases n
  {
    var q := High(v, base);
    SplitNumber(v, base);
    var r := Rest(v, base, upper, n);
    assert n > 0 && |r| == 1 + |Rest(q, base, upper, n - 1)|;
    if q > 0 {
      QuotientBelow(v, Low(v, base), q, base, Pow(base, n - 1));
      TopDigit(q, base, upper, n - 1);
      TopStep(v, Low(v, base), q, base, Pow(base, |r| - 2));
    } else {
      assert Rest(q, base, upper, n - 1) == [];
    }
  }

  lemma QuotientBelow(v: nat, d: nat, q: nat, b: nat, p: nat)
    requires v == d + b * q && v < b * p
    ensures q < p
  {
    if q >= p {
      MulOrder(b, p, q);
    }
  }

  lemma MulOrder(b: nat, p: nat, q: nat)
    requires p <= q
    ensures b * p <= b * q
  {
  }

  lemma TopStep(v: nat, d: nat, q: nat, b: nat, p: nat)
    requires v == d + b * q && p <= q
    ensures b * p <= v
  {
    assert b * p <= b * q;
  }

  /** Without its first digits a number is smaller. */
  lemma CutValue(v: nat, base: nat, upper: bool, m: nat)
    requires Base(base) && 0 < v < Pow(base, NTOA) && m < |Rest(v, base, upper, NTOA)|
    ensures Value(Rest(v, base, upper, NTOA)[..m], base) < v
  {
    var r := Rest(v, base, upper, NTOA);
    RestValue(v, base, upper, NTOA);
    TopDigit(v, base, upper, NTOA);
    ValueBelow(r[..m], base);
    PowGrows(base, m, |r| - 1);
  }

  // ---- The parts of the text ----

  lemma ReversedJoin(a: seq<char>, b: seq<char>)
    ensures Reversed(a + b) == Reversed(b) + Reversed(a)
  {
  }

  lemma {:induction false} SkipSpaces(n: nat, t: seq<char>, base: nat)
    ensures Strtol(Spaces(n) + t, base) == Strtol(t, base)
  {
    if n == 0 {
      assert Spaces(0) + t == t;
    } else {
      SkipSpaces(n - 1, t, base);
      assert (Spaces(n) + t)[1..] == Spaces(n - 1) + t;
    }
  }

  /** How many characters there are once the number is filled up with zeros. */
  function FillLength(n: nat, prec: nat, width: nat, flags: Flags): nat {
    if flags.left then n
    else
      var m := n + Left(Least(prec, NTOA), n);
      if flags.zeropad then m + Left(Least(width, NTOA), m) else m
  }

  lemma FilledIs(rs: seq<char>, prec: nat, width: nat, flags: Flags)
    ensures var m := FillLength(|rs|, prec, width, flags);
            m >= |rs| && Filled(rs, prec, width, flags) == rs + Zeros(m - |rs|)
  {
    var m := FillLength(|rs|, prec, width, flags);
    if flags.left {
      assert rs + Zeros(0) == rs;
    } else if flags.zeropad {
      var a := Left(Least(prec, NTOA), |rs|);
      assert rs + Zeros(a) + Zeros(m - |rs| - a) == rs + Zeros(m - |rs|);
    }
  }

  /** The digits that are left when the last k characters of the filled number are cut. */
  lemma CutFilled(rs: seq<char>, z: nat, k: nat, base: nat)
    requires AllDigits(rs, base) && Base(base) && k <= |rs| + z
    ensures var kept := (rs + Zeros(z))[..|rs| + z - k];
            && AllDigits(kept, base)
            && (k <= z ==> Value(kept, base) == Value(rs, base))
            && (k > z ==> kept == rs[..|rs| + z - k])
  {
    var kept := (rs + Zeros(z))[..|rs| + z - k];
    if k <= z {
      assert kept == rs + Zeros(z - k);
      ValueZeros(rs, z - k, base);
    } else {
      assert kept == rs[..|rs| + z - k];
    }
    forall i | 0 <= i < |kept| ensures IsDigit(kept[i], base) {
      if i < |rs| {
        assert kept[i] == rs[i];
      }
    }
  }

  /** Digits without a prefix. */
  lemma ReadBare(kept: seq<char>, tail: seq<char>, base: nat)
    requires Base(base) && AllDigits(kept, base) && (tail == [] || tail[0] == ' ')
    ensures ReadNumeral(Reversed(kept) + tail, base) == Value(kept, base)
  {
    ReadReversed(kept, tail, base, 0);
    var t := Reversed(kept) + tail;
    if |t| >= 2 {
      Second(kept, tail, base);
    }
  }

  /** What stands in second place is a digit or a space. */
  lemma Second(kept: seq<char>, tail: seq<char>, base: nat)
    requires AllDigits(kept, base) && (tail == [] || tail[0] == ' ') && |Reversed(kept) + tail| >= 2
    ensures var t := Reversed(kept) + tail; kept == [] ==> t[0] == ' '
    ensures var t := Reversed(kept) + tail; kept != [] ==> IsDigit(t[0], base) && (IsDigit(t[1], base) || t[1] == ' ')
  {
    if |kept| > 0 {
      var n := |kept| - 1;
      assert IsDigit(kept[n], base);
      if n > 0 {
        assert kept[..n][n - 1] == kept[n - 1];
        assert Reversed(kept[..n])[0] == kept[n - 1];
      }
    }
  }

  /** The letter of the prefix has room, and its 0 has not. */
  predicate BareLetter(len: nat, base: nat, flags: Flags) {
    flags.hash && (base == 16 || base == 2) && len == NTOA - 1
  }

  lemma ReversedShort(l: seq<char>)
    requires |l| <= 1
    ensures Reversed(l) == l
  {
    assert l == [] || l[..0] == [];
  }

  lemma PrefixedIs(kept: seq<char>, base: nat, flags: Flags)
    requires flags.hash && |kept| < NTOA
    ensures var l := Letter(base, flags);
            Reversed(Prefixed(kept, base, flags)) == if |kept| + |l| < NTOA then ['0'] + (l + Reversed(kept))
                                                     else l + Reversed(kept)
  {
    var l := Letter(base, flags);
    var a := kept + l;
    assert Joined(kept, l) == a;
    ReversedJoin(kept, l);
    ReversedShort(l);
    if |a| < NTOA {
      ReversedJoin(a, ['0']);
      ReversedShort(['0']);
    }
  }

  /** The text that begins with the prefix. */
  lemma PrefixedText(kept: seq<char>, tail: seq<char>, base: nat, flags: Flags)
    requires flags.hash && |kept| < NTOA
    ensures var l, r := Letter(base, flags), Reversed(kept);
            Reversed(Prefixed(kept, base, flags)) + tail
            == if l == [] then ['0'] + r + tail
               else if |kept| == NTOA - 1 then [l[0]] + (r + tail)
               else ['0', l[0]] + (r + tail)
  {
    PrefixedIs(kept, base, flags);
  }

  /** A number behind its prefix. */
  lemma ReadPrefixed(kept: seq<char>, tail: seq<char>, base: nat, flags: Flags)
    requires Base(base) && AllDigits(kept, base) && |kept| <= NTOA && (tail == [] || tail[0] == ' ')
    ensures ReadNumeral(Reversed(Prefixed(kept, base, flags)) + tail, base) == Read(kept, base, flags)
  {
    if !flags.hash || |kept| == NTOA {
      ReadBare(kept, tail, base);
    } else {
      PrefixedText(kept, tail, base, flags);
      var l := Letter(base, flags);
      if l == [] {
        Leading(kept, tail, base);
      } else if |kept| == NTOA - 1 {
        OnlyLetter(l[0], Reversed(kept) + tail, base);
      } else {
        BehindPrefix(kept, tail, l[0], base);
      }
    }
  }

  /** What the characters kept, with a prefix, read as. */
  ghost function Read(kept: seq<char>, base: nat, flags: Flags): nat {
    if BareLetter(|kept|, base, flags) then 0 else Value(kept, base)
  }

  lemma OnlyLetter(c: char, t: seq<char>, base: nat)
    requires (base == 16 && (c == 'x' || c == 'X')) || (base == 2 && c == 'b')
    ensures ReadNumeral([c] + t, base) == 0
  {
    assert ([c] + t)[0] == c;
  }

  lemma BehindPrefix(kept: seq<char>, tail: seq<char>, c: char, base: nat)
    requires (base == 16 && (c == 'x' || c == 'X')) || (base == 2 && c == 'b')
    requires AllDigits(kept, base) && (tail == [] || tail[0] == ' ')
    ensures ReadNumeral(['0', c] + (Reversed(kept) + tail), base) == Value(kept, base)
  {
    var t := ['0', c] + (Reversed(kept) + tail);
    assert t[0] == '0' && t[1] == c && t[2..] == Reversed(kept) + tail;
    ReadReversed(kept, tail, base, 0);
  }

  /** One more 0 in front. */
  lemma Leading(kept: seq<char>, tail: seq<char>, base: nat)
    requires Base(base) && AllDigits(kept, base) && (tail == [] || tail[0] == ' ')
    ensures ReadNumeral(['0'] + Reversed(kept) + tail, base) == Value(kept, base)
  {
    var more := kept + ['0'];
    ReversedJoin(kept, ['0']);
    assert Reversed(['0']) == ['0'] + Reversed([]);
    assert Reversed(more) == ['0'] + Reversed(kept);
    ValueAppend(kept, '0', base);
    forall i | 0 <= i < |more| ensures IsDigit(more[i], base) {
      assert i < |kept| ==> more[i] == kept[i];
    }
    ReadBare(more, tail, base);
  }

  /** No sign stands before the sign, and a space only where there is nothing else. */
  lemma FirstIs(kept: seq<char>, tail: seq<char>, base: nat, flags: Flags)
    requires Base(base) && AllDigits(kept, base) && |kept| <= NTOA && (tail == [] || tail[0] == ' ')
    ensures var t := Reversed(Prefixed(kept, base, flags)) + tail;
            t != [] ==> t[0] != '-' && t[0] != '+' && (t[0] == ' ' ==> Prefixed(kept, base, flags) == [])
  {
    if flags.hash && |kept| < NTOA {
      PrefixedIs(kept, base, flags);
    } else if kept != [] {
      assert IsDigit(kept[|kept| - 1], base);
    }
  }

  lemma {:induction false} NothingIsZero(tail: seq<char>, base: nat)
    requires forall i :: 0 <= i < |tail| ==> tail[i] == ' '
    ensures Strtol(tail, base) == 0
  {
    if tail != [] {
      NothingIsZero(tail[1..], base);
    }
  }

  function Negated(v: nat, negative: bool): int {
    if negative then 0 - v else v
  }

  /** What is read behind the spaces: the sign counts if there was room for it. */
  lemma ReadWithSign(kept: seq<char>, n: nat, base: nat, negative: bool, flags: Flags)
    requires Base(base) && AllDigits(kept, base) && |kept| <= NTOA
    ensures var pre := Prefixed(kept, base, flags);
            Strtol(Reversed(Joined(pre, Sign(negative, flags))) + Spaces(n), base)
            == Negated(Read(kept, base, flags), negative && |pre| < NTOA)
  {
    var pre, sign, tail := Prefixed(kept, base, flags), Sign(negative, flags), Spaces(n);
    ReadPrefixed(kept, tail, base, flags);
    Unsigned(kept, pre, tail, base, flags);
    if |pre| < NTOA && sign != [] {
      SignedText(pre, sign, tail);
      BehindSign(sign[0], Reversed(pre) + tail, base);
    } else {
      assert Joined(pre, sign) == pre;
    }
  }

  lemma SignedText(pre: seq<char>, sign: seq<char>, tail: seq<char>)
    requires |pre| < NTOA && |sign| == 1
    ensures Reversed(Joined(pre, sign)) + tail == [sign[0]] + (Reversed(pre) + tail)
  {
    ReversedJoin(pre, sign);
    ReversedShort(sign);
  }

  lemma BehindSign(c: char, t: seq<char>, base: nat)
    requires c == '-' || c == '+' || c == ' '
    ensures Strtol([c] + t, base) == if c == '-' then 0 - ReadNumeral(t, base) else if c == '+' then ReadNumeral(t, base)
                                     else Strtol(t, base)
  {
    assert ([c] + t)[0] == c && ([c] + t)[1..] == t;
  }

  /** Without a sign. */
  lemma Unsigned(kept: seq<char>, pre: seq<char>, tail: seq<char>, base: nat, flags: Flags)
    requires Base(base) && AllDigits(kept, base) && |kept| <= NTOA && pre == Prefixed(kept, base, flags)
    requires forall i :: 0 <= i < |tail| ==> tail[i] == ' '
    ensures Strtol(Reversed(pre) + tail, base) == ReadNumeral(Reversed(pre) + tail, base)
  {
    var t := Reversed(pre) + tail;
    FirstIs(kept, tail, base, flags);
    if t != [] && t[0] == ' ' {
      assert t == tail;
      NothingIsZero(tail, base);
    }
  }

  // ---- Integers read back ----

  /** How many characters there are with the prefix. */
  function PrefixLength(n: nat, base: nat, flags: Flags): nat {
    if !flags.hash then n
    else
      var m := if n < NTOA then n + |Letter(base, flags)| else n;
      if m < NTOA then m + 1 else m
  }

  /** How many characters of a number of n digits are left before the prefix. */
  function DigitCount(n: nat, base: nat, prec: nat, w: nat, flags: Flags): nat {
    var m := FillLength(n, prec, w, flags);
    m - Cut(m, base, prec, w, flags)
  }

  /** Nothing of the number is dropped: it has at most 32 digits, no digit makes place for the prefix, the prefix is whole
      or there is none, and there is room for a minus sign. */
  ghost predicate Kept(v: nat, negative: bool, base: nat, prec: nat, width: nat, flags: Flags)
    requires Base(base)
  {
    var n := |Digits(v, base, flags)|;
    var p := DigitCount(n, base, prec, Narrowed(width, negative, flags), NoHash(v, flags));
    && v < Pow(base, NTOA)
    && n <= p
    && !BareLetter(p, base, NoHash(v, flags))
    && (negative ==> PrefixLength(p, base, NoHash(v, flags)) < NTOA)
  }

  lemma DigitsValue(v: nat, base: nat, flags: Flags)
    requires Base(base)
    ensures AllDigits(Digits(v, base, flags), base) && Value(Digits(v, base, flags), base) <= v
    ensures Value(Digits(v, base, flags), base) == v <==> v < Pow(base, NTOA)
  {
    RestValue(v, base, flags.upper, NTOA);
    PowPositive(base, NTOA);
    assert Value([], base) == 0;
    assert ['0'][1..] == [];
  }

  /** The digits that are printed. */
  ghost function Printed(v: nat, base: nat, prec: nat, w: nat, flags: Flags): seq<char>
    requires Base(base)
  {
    var filled := Filled(Digits(v, base, flags), prec, w, NoHash(v, flags));
    filled[..|filled| - Cut(|filled|, base, prec, w, NoHash(v, flags))]
  }

  /** z zeros in front of them, and k characters cut. */
  lemma PrintedIs(v: nat, base: nat, prec: nat, w: nat, flags: Flags) returns (z: nat, k: nat)
    requires Base(base)
    ensures var n := |Digits(v, base, flags)|;
            n + z == FillLength(n, prec, w, NoHash(v, flags)) <= NTOA && k == Cut(n + z, base, prec, w, NoHash(v, flags))
    ensures var rs := Digits(v, base, flags); Printed(v, base, prec, w, flags) == (rs + Zeros(z))[..|rs| + z - k]
  {
    var rs, h := Digits(v, base, flags), NoHash(v, flags);
    FilledIs(rs, prec, w, h);
    z := FillLength(|rs|, prec, w, h) - |rs|;
    k := Cut(|rs| + z, base, prec, w, h);
  }

  /** What they stand for. */
  lemma PrintedValue(v: nat, base: nat, prec: nat, w: nat, flags: Flags)
    requires Base(base)
    ensures var kept := Printed(v, base, prec, w, flags);
            && |kept| <= NTOA && AllDigits(kept, base)
            && (Value(kept, base) == v <==> v < Pow(base, NTOA) && |Digits(v, base, flags)| <= |kept|)
  {
    var z, k := PrintedIs(v, base, prec, w, flags);
    ValueOfCut(v, base, flags, z, k);
  }

  lemma ValueOfCut(v: nat, base: nat, flags: Flags, z: nat, k: nat)
    requires Base(base) && |Digits(v, base, flags)| + z <= NTOA && k <= |Digits(v, base, flags)| + z && (k > 0 ==> v > 0)
    ensures var rs := Digits(v, base, flags);
            var kept := (rs + Zeros(z))[..|rs| + z - k];
            AllDigits(kept, base) && (Value(kept, base) == v <==> v < Pow(base, NTOA) && k <= z)
  {
    var rs := Digits(v, base, flags);
    DigitsValue(v, base, flags);
    CutFilled(rs, z, k, base);
    var kept := (rs + Zeros(z))[..|rs| + z - k];
    if v >= Pow(base, NTOA) {
      ValueBelow(kept, base);
      PowGrows(base, |kept|, NTOA);
    } else if k > z {
      CutValue(v, base, flags.upper, |rs| + z - k);
    }
  }

  /** The text of an integer reads back as the integer exactly if nothing of it is dropped. */
  lemma IntReads(v: nat, negative: bool, base: nat, prec: nat, width: nat, flags: Flags)
    requires Base(base) && (negative ==> v > 0)
    ensures Strtol(IntText(v, negative, base, prec, width, flags), base) == Negated(v, negative)
            <==> Kept(v, negative, base, prec, width, flags)
  {
    var w, h := Narrowed(width, negative, flags), NoHash(v, flags);
    var kept := Printed(v, base, prec, w, flags);
    TextReads(v, negative, base, prec, width, flags, kept);
    KeptMeans(v, negative, base, prec, width, flags, kept);
    Agree(v, negative, kept, base, h);
  }

  lemma TextReads(v: nat, negative: bool, base: nat, prec: nat, width: nat, flags: Flags, kept: seq<char>)
    requires Base(base) && kept == Printed(v, base, prec, Narrowed(width, negative, flags), flags)
    ensures var h := NoHash(v, flags);
            Strtol(IntText(v, negative, base, prec, width, flags), base)
            == Negated(Read(kept, base, h), negative && PrefixLength(|kept|, base, h) < NTOA)
  {
    PrintedValue(v, base, prec, Narrowed(width, negative, flags), flags);
    TextIs(v, negative, base, prec, width, flags);
    FieldReads(kept, Narrowed(width, negative, flags), base, negative, NoHash(v, flags), flags);
  }

  lemma KeptMeans(v: nat, negative: bool, base: nat, prec: nat, width: nat, flags: Flags, kept: seq<char>)
    requires Base(base) && kept == Printed(v, base, prec, Narrowed(width, negative, flags), flags)
    ensures var h := NoHash(v, flags);
            Kept(v, negative, base, prec, width, flags)
            <==> Value(kept, base) == v && !BareLetter(|kept|, base, h)
                 && (negative ==> PrefixLength(|kept|, base, h) < NTOA)
  {
    PrintedValue(v, base, prec, Narrowed(width, negative, flags), flags);
    PrintedLength(v, base, prec, Narrowed(width, negative, flags), flags);
  }

  lemma PrintedLength(v: nat, base: nat, prec: nat, w: nat, flags: Flags)
    requires Base(base)
    ensures |Printed(v, base, prec, w, flags)| == DigitCount(|Digits(v, base, flags)|, base, prec, w, NoHash(v, flags))
  {
    var z, k := PrintedIs(v, base, prec, w, flags);
  }

  lemma TextIs(v: nat, negative: bool, base: nat, prec: nat, width: nat, flags: Flags)
    requires Base(base)
    ensures var w, h := Narrowed(width, negative, flags), NoHash(v, flags);
            IntText(v, negative, base, prec, width, flags)
            == Field(Joined(Prefixed(Printed(v, base, prec, w, flags), base, h), Sign(negative, h)), w, flags)
  {
  }

  lemma Agree(v: nat, negative: bool, kept: seq<char>, base: nat, h: Flags)
    requires (negative ==> v > 0) && (h.hash ==> v > 0)
    ensures Negated(Read(kept, base, h), negative && PrefixLength(|kept|, base, h) < NTOA) == Negated(v, negative)
            <==> Value(kept, base) == v && !BareLetter(|kept|, base, h)
                 && (negative ==> PrefixLength(|kept|, base, h) < NTOA)
  {
  }

  /** The text of the digits kept, with prefix and sign in a field. */
  lemma FieldReads(kept: seq<char>, w: nat, base: nat, negative: bool, h: Flags, flags: Flags)
    requires Base(base) && AllDigits(kept, base) && |kept| <= NTOA && (h == flags || h == flags.(hash := false))
    ensures Strtol(Field(Joined(Prefixed(kept, base, h), Sign(negative, h)), w, flags), base)
            == Negated(Read(kept, base, h), negative && PrefixLength(|kept|, base, h) < NTOA)
  {
    var rs := Joined(Prefixed(kept, base, h), Sign(negative, h));
    var before := if !flags.left && !flags.zeropad then Left(w, |rs|) else 0;
    var after := if flags.left then Left(w, |rs|) else 0;
    ReadWithSign(kept, after, base, negative, h);
    SkipSpaces(before, Reversed(rs) + Spaces(after), base);
    assert Field(rs, w, flags) == Spaces(before) + (Reversed(rs) + Spaces(after));
  }

  /** An integer conversion prints the value of its argument, in the width and signedness that the conversion names. */
  lemma ConversionReads(c: char, s: Format.Spec, env: Format.Env)
    requires Format.IsInt(c)
    ensures var x := Format.IntArg(c, env.va(s.arg), s.flags);
            Strtol(Format.Text(c, s, env), Format.BaseOf(c)) == x
            <==> Kept(Format.Magnitude(x), x < 0, Format.BaseOf(c), s.prec, s.width, Format.IntFlags(c, s.flags))
  {
    var x := Format.IntArg(c, env.va(s.arg), s.flags);
    IntReads(Format.Magnitude(x), x < 0, Format.BaseOf(c), s.prec, s.width, Format.IntFlags(c, s.flags));
  }

  // ---- Special cases ----

  /** Without a prefix, and within 31 digits and 32 places, every integer reads back. */
  lemma PlainReads(v: nat, negative: bool, base: nat, prec: nat, width: nat, flags: Flags)
    requires Base(base) && (negative ==> v > 0) && !flags.hash && v < Pow(base, NTOA - 1) && prec < NTOA && width <= NTOA
    ensures Strtol(IntText(v, negative, base, prec, width, flags), base) == Negated(v, negative)
  {
    IntReads(v, negative, base, prec, width, flags);
    PlainKept(v, negative, base, prec, width, flags);
  }

  lemma PlainKept(v: nat, negative: bool, base: nat, prec: nat, width: nat, flags: Flags)
    requires Base(base) && !flags.hash && v < Pow(base, NTOA - 1) && prec < NTOA && width <= NTOA
    ensures Kept(v, negative, base, prec, width, flags)
  {
    PowGrows(base, NTOA - 1, NTOA);
    FewerThanAll(v, base, flags);
    PlainLength(|Digits(v, base, flags)|, negative, base, prec, width, NoHash(v, flags));
  }

  lemma FewerThanAll(v: nat, base: nat, flags: Flags)
    requires Base(base) && v < Pow(base, NTOA - 1)
    ensures |Digits(v, base, flags)| < NTOA
  {
    if v > 0 {
      FewDigits(v, base, flags.upper, NTOA, NTOA - 1);
    }
  }

  lemma PlainLength(n: nat, negative: bool, base: nat, prec: nat, width: nat, flags: Flags)
    requires n < NTOA && !flags.hash && prec < NTOA && width <= NTOA
    ensures var w := Narrowed(width, negative, flags);
            n <= DigitCount(n, base, prec, w, flags) && (negative ==> DigitCount(n, base, prec, w, flags) < NTOA)
  {
  }

  lemma {:induction false} FewDigits(v: nat, base: nat, upper: bool, n: nat, m: nat)
    requires Base(base) && v < Pow(base, m)
    ensures |Rest(v, base, upper, n)| <= m
    decreases n
  {
    if v > 0 && n > 0 {
      SplitNumber(v, base);
      QuotientBelow(v, Low(v, base), High(v, base), base, Pow(base, m - 1));
      FewDigits(High(v, base), base, upper, n - 1, m - 1);
    }
  }

  /** A field is as wide as it should be, unless it is to be filled with more zeros than the buffer holds. */
  lemma FieldWidth(v: nat, negative: bool, base: nat, prec: nat, width: nat, flags: Flags)
    requires Base(base)
    ensures |IntText(v, negative, base, prec, width, flags)| >= width <==>
              flags.left || !flags.zeropad || width <= NTOA
  {
    var w, h := Narrowed(width, negative, flags), NoHash(v, flags);
    FilledIs(Digits(v, base, flags), prec, w, h);
  }

  /** "%#4x" of 0x1234: the first two digits make place for the prefix. */
  lemma PrefixTakesDigits()
    ensures var flags := NO_FLAGS.(hash := true);
            !Kept(0x1234, false, 16, 0, 4, flags) && Strtol(IntText(0x1234, false, 16, 0, 4, flags), 16) != 0x1234
  {
    var flags := NO_FLAGS.(hash := true);
    assert Rest(0x1234, 16, false, 32) == ['4'] + Rest(0x123, 16, false, 31);
    assert Rest(0x123, 16, false, 31) == ['3'] + Rest(0x12, 16, false, 30);
    assert Rest(0x12, 16, false, 30) == ['2'] + Rest(0x1, 16, false, 29);
    assert Rest(0x1, 16, false, 29) == ['1'] + Rest(0, 16, false, 28);
    IntReads(0x1234, false, 16, 0, 4, flags);
  }
}
