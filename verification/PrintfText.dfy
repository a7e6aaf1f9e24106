/** What a format asks for and what is written for it, apart from the code: conversion specifications as they are
    spelled, and numbers in the order in which they are read. The text of every format is proved to be that. */
module PrintfText {
  import opened Words
  import opened PowersOfTwo
  import opened Printf
  import opened PrintfNumbers

  // ----- conversion specifications

  datatype Number = Absent | Literal(digits: string) | Star

  datatype Length = NoLength | H | HH | L | LL | T | J | Z

  datatype Directive = Directive(flags: string, width: Number, precision: Number, length: Length, conversion: char)

  predicate FlagSign(c: char) {
    c == '0' || c == '-' || c == '+' || c == ' ' || c == '#'
  }

  predicate DecimalDigit(c: char) {
    '0' <= c <= '9'
  }

  predicate Decimals(s: string) {
    forall i :: 0 <= i < |s| ==> DecimalDigit(s[i])
  }

  predicate LengthSign(c: char) {
    c == 'h' || c == 'l' || c == 't' || c == 'j' || c == 'z'
  }

  /** A character that no part of a specification could take for its own. */
  predicate EndsSpec(c: char) {
    !FlagSign(c) && !DecimalDigit(c) && !LengthSign(c) && c != '*' && c != '.'
  }

  /** Flags, width and precision in any number, and a length, up to such a character. */
  predicate WellFormed(d: Directive) {
    && (forall i :: 0 <= i < |d.flags| ==> FlagSign(d.flags[i]))
    && (d.width.Literal? ==> Decimals(d.width.digits) && d.width.digits != "" && d.width.digits[0] != '0')
    && (d.precision.Literal? ==> Decimals(d.precision.digits))
    && EndsSpec(d.conversion)
  }

  function SpellLength(length: Length): string {
    match length
    case NoLength => ""
    case H => "h"
    case HH => "hh"
    case L => "l"
    case LL => "ll"
    case T => "t"
    case J => "j"
    case Z => "z"
  }

  function SpellNumber(n: Number): string {
    match n
    case Absent => ""
    case Literal(digits) => digits
    case Star => "*"
  }

  function SpellPrecision(n: Number): string {
    if n.Absent? then "" else "." + SpellNumber(n)
  }

  /** The specification as it stands in a format, after the percent sign. */
  function Spell(d: Directive): string {
    d.flags + (SpellNumber(d.width) + (SpellPrecision(d.precision) + (SpellLength(d.length) + [d.conversion])))
  }

  ghost predicate StandsAt(fmt: string, i: nat, s: string) {
    i + |s| <= |fmt| && fmt[i..i + |s|] == s
  }

  // ----- what it means

  /** The number that decimal digits stand for. */
  function Decimal(digits: string): nat
    requires Decimals(digits)
  {
    if digits == "" then 0 else 10 * Decimal(digits[..|digits| - 1]) + (digits[|digits| - 1] as int - '0' as int)
  }

  /** The low bits of an argument, as an unsigned number and in two's complement. */
  function ToUnsigned(bits: u64, size: nat): nat {
    bits % Pow2(size)
  }

  function ToSigned(bits: u64, size: nat): int
    requires size > 0
  {
    if bits % Pow2(size) < Pow2(size - 1) then bits % Pow2(size) else bits % Pow2(size) - Pow2(size)
  }

  /** The size of the argument that a length names. */
  function Size(length: Length): nat {
    match length
    case HH => 8
    case H => 16
    case NoLength => 32
    case _ => 64
  }

  function Stars(n: Number): nat {
    if n.Star? then 1 else 0
  }

  /** A negative width asks for its magnitude, and to pad on the right; a negative precision counts as zero. */
  function ValueOfCount(n: Number, args: nat -> Arg, arg: nat): (v: int)
    requires n.Literal? ==> Decimals(n.digits)
    ensures -TWO31 <= v < TWO32
  {
    match n
    case Absent => 0
    case Literal(digits) => Decimal(digits) % TWO32
    case Star => Pow2Values(); SignedBounds(args(arg).bits, 32); ToSigned(args(arg).bits, 32)
  }

  /** The flags, one by one. */
  ghost predicate FlagsAre(f: Flags, signs: string, left: bool, precision: bool, length: Length) {
    && (f.zeroPad <==> '0' in signs) && (f.left <==> left) && (f.plus <==> '+' in signs) && (f.space <==> ' ' in signs)
    && (f.hash <==> '#' in signs) && !f.upper && (f.precision <==> precision)
    && (f.charArg <==> length.HH?) && (f.shortArg <==> length.HH? || length.H?) && (f.longArg <==> Size(length) == 64)
    && (f.longLongArg <==> length.LL?)
  }

  function Abs(v: int): nat {
    if v < 0 then 0 - v else v
  }

  /** What the parser is to find, for the place at which the specification ends. */
  ghost predicate IsMeant(s: Spec, d: Directive, args: nat -> Arg, arg: nat, next: nat)
    requires WellFormed(d)
  {
    var width := ValueOfCount(d.width, args, arg);
    var precision := ValueOfCount(d.precision, args, arg + Stars(d.width));
    && FlagsAre(s.flags, d.flags, '-' in d.flags || width < 0, !d.precision.Absent?, d.length)
    && s.width == Abs(width) && s.precision == (if precision > 0 then precision else 0)
    && s.next == next && s.arg == arg + Stars(d.width) + Stars(d.precision)
  }

  lemma SignedBounds(bits: u64, size: nat)
    requires size > 0
    ensures 0 <= bits % Pow2(size) < Pow2(size) == 2 * Pow2(size - 1)
    ensures 0 - Pow2(size - 1) <= ToSigned(bits, size) < Pow2(size - 1)
  {
  }

  /** Both are the argument modulo the power of two, each in its range. */
  lemma ArgumentIs(bits: u64, size: nat)
    requires size > 0
    ensures 0 <= ToUnsigned(bits, size) < Pow2(size) && (bits - ToUnsigned(bits, size)) % Pow2(size) == 0
    ensures 0 - Pow2(size - 1) <= ToSigned(bits, size) < Pow2(size - 1) && (bits - ToSigned(bits, size)) % Pow2(size) == 0
  {
    var p := Pow2(size);
    SignedBounds(bits, size);
    DivMod(bits, p);
    DivModUnique(bits - bits % p, p, bits / p, 0);
    assert (bits / p + 1) * p == bits / p * p + p;
    DivModUnique(bits - bits % p + p, p, bits / p + 1, 0);
  }

  // ----- reading a specification

  lemma InFront(c: char, rest: string, x: char)
    ensures x in [c] + rest <==> c == x || x in rest
  {
  }

  /** The flags g are f and those of the signs. */
  ghost predicate Adds(g: Flags, f: Flags, signs: string) {
    && (g.zeroPad <==> f.zeroPad || '0' in signs) && (g.left <==> f.left || '-' in signs)
    && (g.plus <==> f.plus || '+' in signs) && (g.space <==> f.space || ' ' in signs)
    && (g.hash <==> f.hash || '#' in signs)
    && g.upper == f.upper && g.precision == f.precision
    && g.charArg == f.charArg && g.shortArg == f.shortArg && g.longArg == f.longArg && g.longLongArg == f.longLongArg
  }

  lemma FlagStep(g: Flags, f: Flags, c: char, rest: string)
    requires FlagSign(c) && Adds(g, FlagOf(c, f), rest)
    ensures Adds(g, f, [c] + rest)
  {
    InFront(c, rest, '0');
    InFront(c, rest, '-');
    InFront(c, rest, '+');
    InFront(c, rest, ' ');
    InFront(c, rest, '#');
  }

  lemma {:induction false} FlagsRead(fmt: string, i: nat, j: nat, f: Flags)
    requires i <= j < |fmt| && (forall k :: i <= k < j ==> FlagSign(fmt[k])) && !FlagSign(fmt[j])
    ensures Adds(ReadFlags(fmt, i, f).0, f, fmt[i..j]) && ReadFlags(fmt, i, f).1 == j
    decreases j - i
  {
    if i < j {
      FlagsRead(fmt, i + 1, j, FlagOf(fmt[i], f));
      FlagStep(ReadFlags(fmt, i, f).0, f, fmt[i], fmt[i + 1..j]);
      assert fmt[i..j] == [fmt[i]] + fmt[i + 1..j];
    }
  }

  /** The number as it is built up, digit by digit. */
  function BuiltUp(digits: string): u32
    requires Decimals(digits)
  {
    if digits == "" then 0 else (BuiltUp(digits[..|digits| - 1]) * 10 + (digits[|digits| - 1] as int - '0' as int)) % TWO32
  }

  lemma StepModulo(x: nat, n: nat, d: nat, m: nat)
    requires m > 0 && n == x % m
    ensures (n * 10 + d) % m == (10 * x + d) % m
  {
    DivMod(x, m);
    var q := (n * 10 + d) / m;
    DivMod(n * 10 + d, m);
    assert (10 * (x / m) + q) * m == 10 * (x / m * m) + q * m;
    DivModUnique(10 * x + d, m, 10 * (x / m) + q, (n * 10 + d) % m);
  }

  lemma {:induction false} BuiltUpIs(digits: string)
    requires Decimals(digits)
    ensures BuiltUp(digits) == Decimal(digits) % TWO32
  {
    if digits != "" {
      var front, d := digits[..|digits| - 1], digits[|digits| - 1] as int - '0' as int;
      BuiltUpIs(front);
      StepModulo(Decimal(front), BuiltUp(front), d, TWO32);
    }
  }

  lemma BuiltUpStep(before: string, c: char)
    requires Decimals(before) && DecimalDigit(c)
    ensures Decimals(before + [c]) && BuiltUp(before + [c]) == (BuiltUp(before) * 10 + (c as int - '0' as int)) % TWO32
  {
    assert (before + [c])[..|before|] == before;
  }

  /** Digits from place i to j, after others. */
  lemma {:induction false} NumberRead(fmt: string, i: nat, j: nat, before: string)
    requires i <= j < |fmt| && Decimals(before) && Decimals(fmt[i..j]) && !DecimalDigit(fmt[j])
    ensures Decimals(before + fmt[i..j]) && ReadNumber(fmt, i, BuiltUp(before)) == (BuiltUp(before + fmt[i..j]), j)
    decreases j - i
  {
    if i < j {
      var c := fmt[i];
      assert c == fmt[i..j][0] && fmt[i + 1..j] == fmt[i..j][1..];
      BuiltUpStep(before, c);
      NumberRead(fmt, i + 1, j, before + [c]);
      assert before + fmt[i..j] == before + [c] + fmt[i + 1..j];
    } else {
      assert before + fmt[i..j] == before;
    }
  }

  lemma DigitsRead(fmt: string, i: nat, j: nat, digits: string)
    requires i <= j < |fmt| && fmt[i..j] == digits && Decimals(digits) && !DecimalDigit(fmt[j])
    ensures ReadNumber(fmt, i, 0) == (Decimal(digits) % TWO32, j)
  {
    NumberRead(fmt, i, j, "");
    assert "" + digits == digits;
    BuiltUpIs(digits);
  }

  lemma IntArgument(bits: u64)
    ensures AsInt(bits) == ToSigned(bits, 32)
  {
    Pow2Values();
  }

  lemma StarWidth(bits: u64)
    ensures -TWO31 <= ToSigned(bits, 32) < TWO31 && AsInt(bits) == ToSigned(bits, 32)
  {
    Pow2Values();
    SignedBounds(bits, 32);
    IntArgument(bits);
  }

  /** A number or a star, followed by something else. */
  lemma CountRead(fmt: string, args: nat -> Arg, i: nat, n: Number, next: nat, arg: nat)
    requires n.Literal? ==> Decimals(n.digits)
    requires i <= next < |fmt| && fmt[i..next] == SpellNumber(n) && !DecimalDigit(fmt[next])
    requires !n.Star? && i == next ==> fmt[next] != '*'
    ensures ReadCount(fmt, args, i, arg) == Count(ValueOfCount(n, args, arg), next, arg + Stars(n))
  {
    match n
    case Absent =>
    case Literal(digits) =>
      if digits != "" {
        assert fmt[i] == digits[0];
        DigitsRead(fmt, i, next, digits);
      }
    case Star =>
      assert fmt[i] == fmt[i..next][0];
      StarWidth(args(arg).bits);
  }

  /** Nothing but these flags differs. */
  ghost predicate Sized(g: Flags, f: Flags, left: bool, precision: bool) {
    && g.zeroPad == f.zeroPad && (g.left <==> f.left || left) && g.plus == f.plus && g.space == f.space && g.hash == f.hash
    && g.upper == f.upper && (g.precision <==> f.precision || precision)
    && g.charArg == f.charArg && g.shortArg == f.shortArg && g.longArg == f.longArg && g.longLongArg == f.longLongArg
  }

  lemma WidthRead(fmt: string, args: nat -> Arg, s: Spec, n: Number, next: nat)
    requires n.Literal? ==> Decimals(n.digits)
    requires s.next <= next < |fmt| && fmt[s.next..next] == SpellNumber(n) && !DecimalDigit(fmt[next]) && fmt[next] != '*'
    ensures var v, r := ValueOfCount(n, args, s.arg), ReadWidth(fmt, args, s);
      && Sized(r.flags, s.flags, v < 0, false)
      && r.width == Abs(v) && r.precision == s.precision && r.next == next && r.arg == s.arg + Stars(n)
  {
    CountRead(fmt, args, s.next, n, next, s.arg);
  }

  lemma PrecisionRead(fmt: string, args: nat -> Arg, s: Spec, n: Number, next: nat)
    requires n.Literal? ==> Decimals(n.digits)
    requires s.next <= next < |fmt| && fmt[s.next..next] == SpellPrecision(n) && s.precision == 0
    requires !DecimalDigit(fmt[next]) && fmt[next] != '.' && fmt[next] != '*'
    ensures var v, r := ValueOfCount(n, args, s.arg), ReadPrecision(fmt, args, s);
      && Sized(r.flags, s.flags, false, !n.Absent?)
      && r.width == s.width && r.precision == (if v > 0 then v else 0) && r.next == next && r.arg == s.arg + Stars(n)
  {
    if n.Absent? {
      assert s.next == next;
    } else {
      assert fmt[s.next] == fmt[s.next..next][0] == '.';
      assert fmt[s.next + 1..next] == fmt[s.next..next][1..] == SpellNumber(n);
      CountRead(fmt, args, s.next + 1, n, next, s.arg);
    }
  }

  lemma LengthRead(fmt: string, s: Spec, length: Length, next: nat)
    requires s.next <= next < |fmt| && fmt[s.next..next] == SpellLength(length) && !LengthSign(fmt[next])
    requires !s.flags.charArg && !s.flags.shortArg && !s.flags.longArg && !s.flags.longLongArg
    ensures var r := ReadLength(fmt, s);
      && r.flags.zeroPad == s.flags.zeroPad && r.flags.left == s.flags.left && r.flags.plus == s.flags.plus
      && r.flags.space == s.flags.space && r.flags.hash == s.flags.hash && r.flags.upper == s.flags.upper
      && r.flags.precision == s.flags.precision
      && (r.flags.charArg <==> length.HH?) && (r.flags.shortArg <==> length.HH? || length.H?)
      && (r.flags.longArg <==> Size(length) == 64) && (r.flags.longLongArg <==> length.LL?)
      && r.width == s.width && r.precision == s.precision && r.next == next && r.arg == s.arg
  {
    var spelled := SpellLength(length);
    if length.NoLength? {
      assert s.next == next;
    } else {
      assert fmt[s.next] == fmt[s.next..next][0] == spelled[0];
      if length.HH? || length.LL? {
        assert fmt[s.next + 1] == fmt[s.next..next][1] == spelled[1];
      }
    }
  }

  lemma StandsApart(fmt: string, i: nat, a: string, b: string)
    requires StandsAt(fmt, i, a + b)
    ensures StandsAt(fmt, i, a) && StandsAt(fmt, i + |a|, b)
    ensures b != "" ==> fmt[i + |a|] == b[0]
  {
    var whole := fmt[i..i + |a + b|];
    assert fmt[i..i + |a|] == whole[..|a|];
    assert fmt[i + |a|..i + |a| + |b|] == whole[|a|..];
    assert b != "" ==> fmt[i + |a|] == whole[|a|];
  }

  /** Where one part ends the next cannot be taken for more of it. */
  lemma PartsEnd(d: Directive)
    requires WellFormed(d)
    ensures !LengthSign(d.conversion)
    ensures var c := (SpellLength(d.length) + [d.conversion])[0]; !DecimalDigit(c) && c != '.' && c != '*'
    ensures var c := (SpellPrecision(d.precision) + (SpellLength(d.length) + [d.conversion]))[0]; !DecimalDigit(c) && c != '*'
    ensures !FlagSign((SpellNumber(d.width) + (SpellPrecision(d.precision) + (SpellLength(d.length) + [d.conversion])))[0])
  {
  }

  /** Where the parts of a specification stand, and that none is taken for more of the one before it. */
  lemma PartsStand(fmt: string, i: nat, d: Directive) returns (j: nat, k: nat, l: nat)
    requires WellFormed(d) && StandsAt(fmt, i, Spell(d))
    ensures j == i + |d.flags| && k == j + |SpellNumber(d.width)| && l == k + |SpellPrecision(d.precision)|
    ensures l + |SpellLength(d.length)| == i + |Spell(d)| - 1 < |fmt|
    ensures StandsAt(fmt, i, d.flags) && StandsAt(fmt, j, SpellNumber(d.width))
    ensures StandsAt(fmt, k, SpellPrecision(d.precision)) && StandsAt(fmt, l, SpellLength(d.length))
    ensures !FlagSign(fmt[j]) && !DecimalDigit(fmt[k]) && fmt[k] != '*'
    ensures !DecimalDigit(fmt[l]) && fmt[l] != '.' && fmt[l] != '*'
    ensures fmt[l + |SpellLength(d.length)|] == d.conversion && !LengthSign(d.conversion)
  {
    PartsEnd(d);
    j, k, l := FiveParts(fmt, i, d.flags, SpellNumber(d.width), SpellPrecision(d.precision), SpellLength(d.length), [d.conversion]);
  }

  lemma FiveParts(fmt: string, i: nat, a: string, b: string, c: string, d: string, e: string) returns (j: nat, k: nat, l: nat)
    requires StandsAt(fmt, i, a + (b + (c + (d + e)))) && |e| == 1
    ensures j == i + |a| && k == j + |b| && l == k + |c| && l + |d| == i + |a + (b + (c + (d + e)))| - 1 < |fmt|
    ensures StandsAt(fmt, i, a) && StandsAt(fmt, j, b) && StandsAt(fmt, k, c) && StandsAt(fmt, l, d)
    ensures fmt[j] == (b + (c + (d + e)))[0] && fmt[k] == (c + (d + e))[0] && fmt[l] == (d + e)[0] && fmt[l + |d|] == e[0]
  {
    j, k, l := i + |a|, i + |a| + |b|, i + |a| + |b| + |c|;
    StandsApart(fmt, i, a, b + (c + (d + e)));
    StandsApart(fmt, j, b, c + (d + e));
    StandsApart(fmt, k, c, d + e);
    StandsApart(fmt, l, d, e);
  }

  /** The parser finds what a specification means. */
  lemma SpecRead(fmt: string, args: nat -> Arg, i: nat, arg: nat, d: Directive, next: nat)
    requires WellFormed(d) && StandsAt(fmt, i, Spell(d)) && next == i + |Spell(d)| - 1
    ensures IsMeant(ReadSpec(fmt, args, i, arg), d, args, arg, next)
  {
    var j, k, l := PartsStand(fmt, i, d);
    FlagsPart(fmt, i, j, d.flags);
    SpecFrom(fmt, args, i, j, k, l, next, arg, d);
  }

  lemma FlagsPart(fmt: string, i: nat, j: nat, signs: string)
    requires StandsAt(fmt, i, signs) && j == i + |signs| < |fmt| && !FlagSign(fmt[j])
    requires forall k :: 0 <= k < |signs| ==> FlagSign(signs[k])
    ensures ReadFlags(fmt, i, NoFlags).1 == j && Adds(ReadFlags(fmt, i, NoFlags).0, NoFlags, signs)
  {
    forall n | i <= n < j
      ensures FlagSign(fmt[n])
    {
      assert fmt[n] == signs[n - i];
    }
    FlagsRead(fmt, i, j, NoFlags);
  }

  lemma SpecFrom(fmt: string, args: nat -> Arg, i: nat, j: nat, k: nat, l: nat, next: nat, arg: nat, d: Directive)
    requires WellFormed(d) && ReadFlags(fmt, i, NoFlags).1 == j && Adds(ReadFlags(fmt, i, NoFlags).0, NoFlags, d.flags)
    requires j <= k <= l <= next < |fmt| && fmt[j..k] == SpellNumber(d.width) && fmt[k..l] == SpellPrecision(d.precision)
    requires fmt[l..next] == SpellLength(d.length) && !LengthSign(fmt[next])
    requires !DecimalDigit(fmt[k]) && fmt[k] != '*' && !DecimalDigit(fmt[l]) && fmt[l] != '.' && fmt[l] != '*'
    ensures IsMeant(ReadSpec(fmt, args, i, arg), d, args, arg, next)
  {
    var s := Spec(ReadFlags(fmt, i, NoFlags).0, 0, 0, j, arg);
    var s2 := SizesRead(fmt, args, s, k, l, d.width, d.precision);
    LengthRead(fmt, s2, d.length, next);
    StepsAre(fmt, args, i, s, s2, ReadLength(fmt, s2));
  }

  lemma SizesRead(fmt: string, args: nat -> Arg, s: Spec, k: nat, l: nat, width: Number, precision: Number) returns (s2: Spec)
    requires (width.Literal? ==> Decimals(width.digits)) && (precision.Literal? ==> Decimals(precision.digits))
    requires s.next <= k <= l < |fmt| && s.precision == 0
    requires fmt[s.next..k] == SpellNumber(width) && fmt[k..l] == SpellPrecision(precision)
    requires !DecimalDigit(fmt[k]) && fmt[k] != '*' && !DecimalDigit(fmt[l]) && fmt[l] != '.' && fmt[l] != '*'
    ensures s2 == ReadPrecision(fmt, args, ReadWidth(fmt, args, s))
    ensures var v, p := ValueOfCount(width, args, s.arg), ValueOfCount(precision, args, s.arg + Stars(width));
      && Sized(s2.flags, s.flags, v < 0, !precision.Absent?) && s2.width == Abs(v) && s2.precision == (if p > 0 then p else 0)
      && s2.next == l && s2.arg == s.arg + Stars(width) + Stars(precision)
  {
    WidthRead(fmt, args, s, width, k);
    s2 := ReadPrecision(fmt, args, ReadWidth(fmt, args, s));
    PrecisionRead(fmt, args, ReadWidth(fmt, args, s), precision, l);
  }

  lemma StepsAre(fmt: string, args: nat -> Arg, i: nat, s: Spec, s2: Spec, s3: Spec)
    requires ReadFlags(fmt, i, NoFlags) == (s.flags, s.next) && s.width == 0 && s.precision == 0
    requires s2 == ReadPrecision(fmt, args, ReadWidth(fmt, args, s)) && s3 == ReadLength(fmt, s2)
    ensures ReadSpec(fmt, args, i, s.arg) == s3
  {
  }

  // ----- what is written for it

  /** The argument of a signed conversion; plain char is unsigned. */
  function SignedValue(length: Length, bits: u64): int {
    if length.HH? then ToUnsigned(bits, 8) else ToSigned(bits, Size(length))
  }

  /** The layout that a specification asks for; a precision does away with zeros that pad. */
  function IntegerLayout(d: Directive, width: int, precision: int, sharp: bool, upper: bool): Layout {
    Layout('-' in d.flags || width < 0, '0' in d.flags && d.precision.Absent?, sharp, upper, !d.precision.Absent?, Abs(width),
           if precision > 0 then precision else 0)
  }

  function SignedText(d: Directive, width: int, precision: int, v: int): string {
    NumberField(Abs(v), v < 0, 10, '+' in d.flags, ' ' in d.flags, IntegerLayout(d, width, precision, false, false))
  }

  function UnsignedText(d: Directive, width: int, precision: int, m: nat, base: nat, upper: bool): string
    requires IsBase(base)
  {
    NumberField(m, false, base, false, false, IntegerLayout(d, width, precision, '#' in d.flags && base != 10, upper))
  }

  /** An address, in all 32 places. */
  function AddressText(d: Directive, width: int, precision: int, bits: u64): string {
    NumberField(bits, false, 16, '+' in d.flags, ' ' in d.flags,
                Layout('-' in d.flags || width < 0, true, '#' in d.flags, true, !d.precision.Absent?, 32,
                       if precision > 0 then precision else 0))
  }

  predicate OfReal(c: char) {
    c == 'f' || c == 'F' || c == 'e' || c == 'E' || c == 'g' || c == 'G'
  }

  /** The text of a conversion other than of a floating-point number. */
  function Written(d: Directive, width: int, precision: int, arg: Arg): string {
    match d.conversion
    case 'd' => SignedText(d, width, precision, SignedValue(d.length, arg.bits))
    case 'i' => SignedText(d, width, precision, SignedValue(d.length, arg.bits))
    case 'u' => UnsignedText(d, width, precision, ToUnsigned(arg.bits, Size(d.length)), 10, false)
    case 'o' => UnsignedText(d, width, precision, ToUnsigned(arg.bits, Size(d.length)), 8, false)
    case 'x' => UnsignedText(d, width, precision, ToUnsigned(arg.bits, Size(d.length)), 16, false)
    case 'X' => UnsignedText(d, width, precision, ToUnsigned(arg.bits, Size(d.length)), 16, true)
    case 'b' => UnsignedText(d, width, precision, ToUnsigned(arg.bits, Size(d.length)), 2, false)
    case 'p' => AddressText(d, width, precision, arg.bits)
    case 'c' => Placed([(arg.bits % 0x100) as char], '-' in d.flags || width < 0, false, Abs(width))
    case 's' => Placed(if !d.precision.Absent? && precision < |arg.text| then arg.text[..if precision > 0 then precision else 0]
                       else arg.text, '-' in d.flags || width < 0, false, Abs(width))
    case _ => [d.conversion]
  }

  function Takes(c: char): nat {
    if c == 'd' || c == 'i' || c == 'u' || c == 'o' || c == 'x' || c == 'X' || c == 'b' || c == 'p' || c == 'c' || c == 's'
      || OfReal(c) then 1 else 0
  }

  lemma ArgumentsAre(f: Flags, length: Length, bits: u64)
    requires (f.charArg <==> length.HH?) && (f.shortArg <==> length.HH? || length.H?)
    requires (f.longArg <==> Size(length) == 64) && (f.longLongArg <==> length.LL?)
    ensures SignedArg(f, bits) == SignedValue(length, bits) && UnsignedArg(f, bits) == ToUnsigned(bits, Size(length))
  {
    Pow2Values();
    assert Pow2(7) == 128 && Pow2(8) == 256 && Pow2(15) == 0x8000;
  }

  ghost predicate Fits(s: Spec, d: Directive, width: int, precision: int) {
    && FlagsAre(s.flags, d.flags, '-' in d.flags || width < 0, !d.precision.Absent?, d.length)
    && s.width == Abs(width) && s.precision == (if precision > 0 then precision else 0)
    && (d.precision.Absent? ==> precision == 0)
  }

  lemma SignedLayout(s: Spec, d: Directive, width: int, precision: int, c: char, f: Flags)
    requires Fits(s, d, width, precision) && (c == 'd' || c == 'i') && f == IntegerFlags(c, s.flags)
    ensures (f.plus <==> '+' in d.flags) && (f.space <==> ' ' in d.flags) && (f.precision || s.precision == 0)
    ensures LayoutOf(f, s.width, s.precision) == IntegerLayout(d, width, precision, false, false)
  {
  }

  lemma SignedNumber(text: string, v: int, f: Flags, s: Spec, d: Directive, width: int, precision: int)
    requires text == NumberText(Magnitude(v), v < 0, 10, s.precision, s.width, f) && (f.precision || s.precision == 0)
    requires (f.plus <==> '+' in d.flags) && (f.space <==> ' ' in d.flags)
    requires LayoutOf(f, s.width, s.precision) == IntegerLayout(d, width, precision, false, false)
    ensures text == SignedText(d, width, precision, v)
  {
    NumberTextIs(Magnitude(v), v < 0, 10, s.precision, s.width, f);
  }

  lemma SignedConversion(s: Spec, d: Directive, width: int, precision: int, bits: u64, c: char)
    requires Fits(s, d, width, precision) && (c == 'd' || c == 'i')
    ensures IntegerText(c, s, bits) == SignedText(d, width, precision, SignedValue(d.length, bits))
  {
    var f := IntegerFlags(c, s.flags);
    ArgumentsAre(s.flags, d.length, bits);
    SignedLayout(s, d, width, precision, c, f);
    SignedNumber(IntegerText(c, s, bits), SignedArg(s.flags, bits), f, s, d, width, precision);
  }

  lemma UnsignedLayout(s: Spec, d: Directive, width: int, precision: int, c: char, f: Flags, base: nat)
    requires Fits(s, d, width, precision) && f == IntegerFlags(c, s.flags) && base == BaseOf(c) && c != 'd' && c != 'i'
    ensures !f.plus && !f.space && (f.precision || s.precision == 0)
    ensures LayoutOf(f, s.width, s.precision) == IntegerLayout(d, width, precision, '#' in d.flags && base != 10, c == 'X')
  {
  }

  lemma UnsignedNumber(text: string, m: nat, base: nat, f: Flags, s: Spec, d: Directive, width: int, precision: int,
      upper: bool)
    requires IsBase(base) && text == NumberText(m, false, base, s.precision, s.width, f)
    requires (f.precision || s.precision == 0) && !f.plus && !f.space
    requires LayoutOf(f, s.width, s.precision) == IntegerLayout(d, width, precision, '#' in d.flags && base != 10, upper)
    ensures text == UnsignedText(d, width, precision, m, base, upper)
  {
    NumberTextIs(m, false, base, s.precision, s.width, f);
  }

  lemma IntegerTextIs(c: char, s: Spec, bits: u64, f: Flags, v: int, base: nat)
    requires f == IntegerFlags(c, s.flags) && v == IntegerArg(c, s.flags, bits) && base == BaseOf(c)
    ensures IntegerText(c, s, bits) == NumberText(Magnitude(v), v < 0, base, s.precision, s.width, f)
  {
  }

  lemma UnsignedConversion(s: Spec, d: Directive, width: int, precision: int, bits: u64, c: char, base: nat)
    requires Fits(s, d, width, precision) && IsBase(base)
    requires (c == 'u' && base == 10) || (c == 'o' && base == 8) || ((c == 'x' || c == 'X') && base == 16)
      || (c == 'b' && base == 2)
    ensures IntegerText(c, s, bits) == UnsignedText(d, width, precision, ToUnsigned(bits, Size(d.length)), base, c == 'X')
  {
    var f, m, text := IntegerFlags(c, s.flags), UnsignedArg(s.flags, bits), IntegerText(c, s, bits);
    ArgumentsAre(s.flags, d.length, bits);
    UnsignedLayout(s, d, width, precision, c, f, base);
    IntegerTextIs(c, s, bits, f, m, base);
    UnsignedNumber(text, m, base, f, s, d, width, precision, c == 'X');
  }

  lemma AddressConversion(s: Spec, d: Directive, width: int, precision: int, bits: u64)
    requires Fits(s, d, width, precision)
    ensures PointerText(s, bits) == AddressText(d, width, precision, bits)
  {
    var f := s.flags.(zeroPad := true, upper := true);
    NumberTextIs(bits, false, 16, s.precision, 32, f);
  }

  lemma PaddedTextIs(body: string, s: Spec)
    ensures Padded(body, |body|, s) == Placed(body, s.flags.left, false, s.width)
  {
  }

  lemma StringConversion(s: Spec, d: Directive, width: int, precision: int, text: string)
    requires Fits(s, d, width, precision)
    ensures StringText(s, text)
         == Placed(if !d.precision.Absent? && precision < |text| then text[..if precision > 0 then precision else 0] else text,
                   '-' in d.flags || width < 0, false, Abs(width))
  {
    assert Measured(s, text) == |Shown(s, text)|;
    PaddedTextIs(Shown(s, text), s);
  }

  lemma IntegerConversion(s: Spec, d: Directive, width: int, precision: int, arg: Arg)
    requires Fits(s, d, width, precision) && IsInteger(d.conversion)
    ensures IntegerText(d.conversion, s, arg.bits) == Written(d, width, precision, arg)
  {
    match d.conversion
    case 'd' => SignedConversion(s, d, width, precision, arg.bits, 'd');
    case 'i' => SignedConversion(s, d, width, precision, arg.bits, 'i');
    case 'u' => UnsignedConversion(s, d, width, precision, arg.bits, 'u', 10);
    case 'o' => UnsignedConversion(s, d, width, precision, arg.bits, 'o', 8);
    case 'x' => UnsignedConversion(s, d, width, precision, arg.bits, 'x', 16);
    case 'X' => UnsignedConversion(s, d, width, precision, arg.bits, 'X', 16);
    case 'b' => UnsignedConversion(s, d, width, precision, arg.bits, 'b', 2);
  }

  lemma ConversionIs(s: Spec, d: Directive, width: int, precision: int, arg: Arg)
    requires Fits(s, d, width, precision) && !OfReal(d.conversion)
    ensures ConversionText(d.conversion, s, arg) == Written(d, width, precision, arg)
  {
    if IsInteger(d.conversion) {
      IntegerConversion(s, d, width, precision, arg);
    } else if d.conversion == 'c' {
      PaddedTextIs([(arg.bits % 0x100) as char], s);
    } else if d.conversion == 's' {
      StringConversion(s, d, width, precision, arg.text);
    } else if d.conversion == 'p' {
      AddressConversion(s, d, width, precision, arg.bits);
    }
  }

  // ----- whole formats

  function WidthIn(d: Directive, args: nat -> Arg, arg: nat): int
    requires WellFormed(d)
  {
    ValueOfCount(d.width, args, arg)
  }

  function PrecisionIn(d: Directive, args: nat -> Arg, arg: nat): int
    requires WellFormed(d)
  {
    ValueOfCount(d.precision, args, arg + Stars(d.width))
  }

  /** The place of the argument that is converted: after those for the stars. */
  function Converted(d: Directive, arg: nat): nat {
    arg + Stars(d.width) + Stars(d.precision)
  }

  lemma MeantFits(s: Spec, d: Directive, args: nat -> Arg, arg: nat, next: nat)
    requires WellFormed(d) && IsMeant(s, d, args, arg, next)
    ensures Fits(s, d, WidthIn(d, args, arg), PrecisionIn(d, args, arg)) && s.arg == Converted(d, arg) && s.next == next
  {
  }

  lemma TakesIs(c: char)
    ensures Takes(c) == if TakesArg(c) then 1 else 0
  {
  }

  lemma SpecFor(fmt: string, args: nat -> Arg, i: nat, arg: nat, d: Directive) returns (s: Spec)
    requires StandsAt(fmt, i, "%" + Spell(d)) && WellFormed(d)
    ensures i < |fmt| && fmt[i] == '%' && s == ReadSpec(fmt, args, i + 1, arg)
    ensures Fits(s, d, WidthIn(d, args, arg), PrecisionIn(d, args, arg)) && s.arg == Converted(d, arg)
    ensures s.next == i + |Spell(d)| < |fmt| && fmt[s.next] == d.conversion
  {
    var next := i + |Spell(d)|;
    StandsApart(fmt, i, "%", Spell(d));
    assert fmt[i] == fmt[i..i + |"%" + Spell(d)|][0];
    LastStands(fmt, i + 1, d, next);
    SpecRead(fmt, args, i + 1, arg, d, next);
    s := ReadSpec(fmt, args, i + 1, arg);
    MeantFits(s, d, args, arg, next);
  }

  lemma LastStands(fmt: string, i: nat, d: Directive, next: nat)
    requires StandsAt(fmt, i, Spell(d)) && next == i + |Spell(d)| - 1
    ensures next < |fmt| && fmt[next] == d.conversion
  {
    assert fmt[next] == Spell(d)[next - i];
  }

  lemma SpecTextIs(fmt: string, args: nat -> Arg, i: nat, arg: nat, s: Spec, c: char, next: nat, arg': nat, text: string,
      rest: string)
    requires i < |fmt| && fmt[i] == '%' && s == ReadSpec(fmt, args, i + 1, arg) && s.next < |fmt| && fmt[s.next] == c
    requires next == s.next + 1 && arg' == s.arg + Takes(c)
    requires text == Text(fmt, args, i, arg) && rest == Text(fmt, args, next, arg')
    ensures text == ConversionText(c, s, args(s.arg)) + rest
  {
    TakesIs(c);
  }

  /** Where the format and the arguments go on after a specification. */
  ghost predicate GoesOn(d: Directive, i: nat, arg: nat, next: nat, arg': nat) {
    next == i + 1 + |Spell(d)| && arg' == Converted(d, arg) + Takes(d.conversion)
  }

  lemma ConversionAt(fmt: string, args: nat -> Arg, i: nat, arg: nat, d: Directive, next: nat, arg': nat, text: string,
      rest: string) returns (s: Spec)
    requires StandsAt(fmt, i, "%" + Spell(d)) && WellFormed(d) && GoesOn(d, i, arg, next, arg')
    requires text == Text(fmt, args, i, arg) && rest == Text(fmt, args, next, arg')
    ensures Fits(s, d, WidthIn(d, args, arg), PrecisionIn(d, args, arg)) && s.arg == Converted(d, arg)
    ensures text == ConversionText(d.conversion, s, args(s.arg)) + rest
  {
    s := SpecFor(fmt, args, i, arg, d);
    SpecTextIs(fmt, args, i, arg, s, d.conversion, next, arg', text, rest);
  }

  /** Whatever precedes and follows it, a specification is written as it asks, and the rest of the format is
      continued with the arguments after its own. */
  lemma DirectiveText(fmt: string, args: nat -> Arg, i: nat, arg: nat, d: Directive, next: nat, arg': nat, text: string,
      rest: string)
    requires StandsAt(fmt, i, "%" + Spell(d)) && WellFormed(d) && !OfReal(d.conversion) && GoesOn(d, i, arg, next, arg')
    requires text == Text(fmt, args, i, arg) && rest == Text(fmt, args, next, arg')
    ensures text == Written(d, WidthIn(d, args, arg), PrecisionIn(d, args, arg), args(Converted(d, arg))) + rest
  {
    var s := ConversionAt(fmt, args, i, arg, d, next, arg', text, rest);
    ConversionIs(s, d, WidthIn(d, args, arg), PrecisionIn(d, args, arg), args(s.arg));
  }

  /** For a floating-point conversion it is the text of the argument for that conversion and those flags. */
  lemma RealText(fmt: string, args: nat -> Arg, i: nat, arg: nat, d: Directive, next: nat, arg': nat, text: string,
      rest: string) returns (f: Flags)
    requires StandsAt(fmt, i, "%" + Spell(d)) && WellFormed(d) && OfReal(d.conversion) && GoesOn(d, i, arg, next, arg')
    requires text == Text(fmt, args, i, arg) && rest == Text(fmt, args, next, arg')
    ensures FlagsAre(f, d.flags, '-' in d.flags || WidthIn(d, args, arg) < 0, !d.precision.Absent?, d.length)
    ensures var p := PrecisionIn(d, args, arg);
      text == args(Converted(d, arg)).realText(d.conversion, f, Abs(WidthIn(d, args, arg)), if p > 0 then p else 0) + rest
  {
    var s := ConversionAt(fmt, args, i, arg, d, next, arg', text, rest);
    f := s.flags;
  }

  lemma OneOrdinary(fmt: string, args: nat -> Arg, i: nat, arg: nat, text: string, rest: string)
    requires i < |fmt| && fmt[i] != '%' && text == Text(fmt, args, i, arg) && rest == Text(fmt, args, i + 1, arg)
    ensures text == [fmt[i]] + rest
  {
  }

  /** Ordinary characters are copied. */
  lemma {:induction false} OrdinaryText(fmt: string, args: nat -> Arg, i: nat, arg: nat, next: nat, plain: string,
      text: string, rest: string)
    requires StandsAt(fmt, i, plain) && (forall k :: 0 <= k < |plain| ==> plain[k] != '%') && next == i + |plain|
    requires text == Text(fmt, args, i, arg) && rest == Text(fmt, args, next, arg)
    ensures text == plain + rest
    decreases |plain|
  {
    if plain == "" {
      assert "" + rest == rest;
    } else {
      var more := Text(fmt, args, i + 1, arg);
      assert plain == [plain[0]] + plain[1..];
      StandsApart(fmt, i, [plain[0]], plain[1..]);
      assert fmt[i] == fmt[i..i + 1][0];
      OrdinaryText(fmt, args, i + 1, arg, next, plain[1..], more, rest);
      OneOrdinary(fmt, args, i, arg, text, more);
      Grouped([plain[0]], plain[1..], rest);
    }
  }

  datatype Piece = Plain(text: string) | Conversion(d: Directive)

  predicate IsPiece(p: Piece) {
    match p
    case Plain(text) => forall i :: 0 <= i < |text| ==> text[i] != '%'
    case Conversion(d) => WellFormed(d) && !OfReal(d.conversion)
  }

  predicate ArePieces(ps: seq<Piece>) {
    ps == [] || (IsPiece(ps[0]) && ArePieces(ps[1..]))
  }

  function SpellPiece(p: Piece): string {
    match p
    case Plain(text) => text
    case Conversion(d) => "%" + Spell(d)
  }

  /** A format, put together from pieces. */
  function Format(ps: seq<Piece>): string {
    if ps == [] then "" else SpellPiece(ps[0]) + Format(ps[1..])
  }

  function PieceText(p: Piece, args: nat -> Arg, arg: nat): string
    requires IsPiece(p)
  {
    match p
    case Plain(text) => text
    case Conversion(d) => Written(d, WidthIn(d, args, arg), PrecisionIn(d, args, arg), args(Converted(d, arg)))
  }

  function AfterPiece(p: Piece, arg: nat): nat {
    match p
    case Plain(_) => arg
    case Conversion(d) => Converted(d, arg) + Takes(d.conversion)
  }

  /** What is to be written for it: one piece after the other, each with the next arguments. */
  function Formatted(ps: seq<Piece>, args: nat -> Arg, arg: nat): string
    requires ArePieces(ps)
    decreases |ps|, 1
  {
    if ps == [] then "" else FirstFormatted(ps, args, arg)
  }

  function FirstFormatted(ps: seq<Piece>, args: nat -> Arg, arg: nat): string
    requires ps != [] && ArePieces(ps)
    decreases |ps|, 0
  {
    PieceText(ps[0], args, arg) + Formatted(ps[1..], args, AfterPiece(ps[0], arg))
  }

  lemma PieceIs(fmt: string, args: nat -> Arg, i: nat, arg: nat, p: Piece, next: nat, arg': nat, text: string, rest: string)
    requires IsPiece(p) && StandsAt(fmt, i, SpellPiece(p)) && next == i + |SpellPiece(p)| && arg' == AfterPiece(p, arg)
    requires text == Text(fmt, args, i, arg) && rest == Text(fmt, args, next, arg')
    ensures text == PieceText(p, args, arg) + rest
  {
    match p
    case Plain(plain) => OrdinaryText(fmt, args, i, arg, next, plain, text, rest);
    case Conversion(d) => DirectiveText(fmt, args, i, arg, d, next, arg', text, rest);
  }

  lemma FirstPiece(fmt: string, args: nat -> Arg, i: nat, arg: nat, ps: seq<Piece>, next: nat, arg': nat, text: string,
      rest: string, written: string)
    requires ps != [] && ArePieces(ps) && StandsAt(fmt, i, SpellPiece(ps[0])) && next == i + |SpellPiece(ps[0])|
    requires text == Text(fmt, args, i, arg) && rest == Text(fmt, args, next, arg') && arg' == AfterPiece(ps[0], arg)
    requires rest == Formatted(ps[1..], args, arg') && written == FirstFormatted(ps, args, arg)
    ensures text == written
  {
    PieceIs(fmt, args, i, arg, ps[0], next, arg', text, rest);
  }

  lemma TailStands(fmt: string, i: nat, ps: seq<Piece>, first: string, tail: string)
    requires ps != [] && StandsAt(fmt, i, Format(ps)) && i + |Format(ps)| == |fmt|
    requires first == SpellPiece(ps[0]) && tail == Format(ps[1..])
    ensures StandsAt(fmt, i, first) && StandsAt(fmt, i + |first|, tail) && i + |first| + |tail| == |fmt|
  {
    StandsApart(fmt, i, first, tail);
  }

  lemma NoPiece(fmt: string, args: nat -> Arg, i: nat, arg: nat, ps: seq<Piece>, text: string, written: string)
    requires ps == [] && StandsAt(fmt, i, Format(ps)) && i + |Format(ps)| == |fmt|
    requires text == Text(fmt, args, i, arg) && written == Formatted(ps, args, arg)
    ensures text == written
  {
  }

  lemma {:induction false} PiecesText(fmt: string, args: nat -> Arg, i: nat, arg: nat, ps: seq<Piece>, text: string,
      written: string)
    requires ArePieces(ps) && StandsAt(fmt, i, Format(ps)) && i + |Format(ps)| == |fmt|
    requires text == Text(fmt, args, i, arg) && written == Formatted(ps, args, arg)
    ensures text == written
    decreases |ps|, 1
  {
    if ps == [] {
      NoPiece(fmt, args, i, arg, ps, text, written);
    } else {
      MorePieces(fmt, args, i, arg, ps, text, written);
    }
  }

  lemma MorePieces(fmt: string, args: nat -> Arg, i: nat, arg: nat, ps: seq<Piece>, text: string, written: string)
    requires ps != [] && ArePieces(ps) && StandsAt(fmt, i, Format(ps)) && i + |Format(ps)| == |fmt|
    requires text == Text(fmt, args, i, arg) && written == FirstFormatted(ps, args, arg)
    ensures text == written
    decreases |ps|, 0
  {
    var first, more := SpellPiece(ps[0]), ps[1..];
    var j, arg' := i + |first|, AfterPiece(ps[0], arg);
    var rest := Text(fmt, args, j, arg');
    TailStands(fmt, i, ps, first, Format(more));
    PiecesText(fmt, args, j, arg', more, rest, Formatted(more, args, arg'));
    FirstPiece(fmt, args, i, arg, ps, j, arg', text, rest, written);
  }

  /** Formatting into a buffer: the length is that of the whole text, of which the buffer holds as much as fits. */
  method FormatPieces(buffer: array<char>, maxlen: nat, ps: seq<Piece>, args: nat -> Arg) returns (ret: nat)
    requires 0 < maxlen <= buffer.Length && ArePieces(ps)
    modifies buffer
    ensures ret == |Formatted(ps, args, 0)|
    ensures var n := if ret < maxlen then ret else maxlen - 1;
      buffer[..] == Formatted(ps, args, 0)[..n] + [NUL] + old(buffer[..])[n + 1..]
  {
    PiecesText(Format(ps), args, 0, 0, ps, Text(Format(ps), args, 0, 0), Formatted(ps, args, 0));
    ret := Vsnprintf(buffer, maxlen, false, Format(ps), args);
  }

  // ----- every specification is spelled

  lemma {:induction false} FlagsExtent(fmt: string, i: nat, f: Flags)
    requires i <= |fmt|
    ensures var j := ReadFlags(fmt, i, f).1;
      i <= j <= |fmt| && (forall k :: i <= k < j ==> FlagSign(fmt[k])) && (j < |fmt| ==> !FlagSign(fmt[j]))
    decreases |fmt| - i
  {
    if i < |fmt| && IsFlag(fmt[i]) {
      FlagsExtent(fmt, i + 1, FlagOf(fmt[i], f));
    }
  }

  lemma {:induction false} NumberExtent(fmt: string, i: nat, n: u32)
    requires i <= |fmt|
    ensures var j := ReadNumber(fmt, i, n).1;
      i <= j <= |fmt| && (forall k :: i <= k < j ==> DecimalDigit(fmt[k])) && (i < |fmt| && DecimalDigit(fmt[i]) ==> i < j)
    decreases |fmt| - i
  {
    if i < |fmt| && IsDigit(fmt[i]) {
      NumberExtent(fmt, i + 1, (n * 10 + (fmt[i] as int - '0' as int)) % TWO32);
    }
  }

  lemma CountExtent(fmt: string, args: nat -> Arg, i: nat, arg: nat) returns (n: Number)
    requires i <= |fmt| && ReadCount(fmt, args, i, arg).next <= |fmt|
    ensures StandsAt(fmt, i, SpellNumber(n)) && i + |SpellNumber(n)| == ReadCount(fmt, args, i, arg).next
    ensures n.Literal? ==> Decimals(n.digits) && n.digits != "" && n.digits[0] == fmt[i]
  {
    NumberExtent(fmt, i, 0);
    if i < |fmt| && IsDigit(fmt[i]) {
      n := Literal(fmt[i..ReadNumber(fmt, i, 0).1]);
    } else if i < |fmt| && fmt[i] == '*' {
      n := Star;
    } else {
      n := Absent;
    }
  }

  lemma LengthExtent(fmt: string, s: Spec) returns (length: Length)
    requires ReadLength(fmt, s).next <= |fmt|
    ensures StandsAt(fmt, s.next, SpellLength(length)) && s.next + |SpellLength(length)| == ReadLength(fmt, s).next
  {
    var c, twice := At(fmt, s.next), At(fmt, s.next + 1) == At(fmt, s.next);
    length := if c == 'l' then (if twice then LL else L) else if c == 'h' then (if twice then HH else H)
              else if c == 't' then T else if c == 'j' then J else if c == 'z' then Z else NoLength;
  }

  lemma PrecisionExtent(fmt: string, args: nat -> Arg, s: Spec) returns (n: Number)
    requires s.next <= |fmt| && ReadPrecision(fmt, args, s).next <= |fmt|
    ensures StandsAt(fmt, s.next, SpellPrecision(n)) && s.next + |SpellPrecision(n)| == ReadPrecision(fmt, args, s).next
    ensures n.Literal? ==> Decimals(n.digits)
  {
    n := Absent;
    if At(fmt, s.next) == '.' {
      n := CountExtent(fmt, args, s.next + 1, s.arg);
      Joined(fmt, s.next, ".", SpellNumber(n));
      if n.Absent? {
        n := Literal("");
      }
    }
  }

  lemma Joined(fmt: string, i: nat, a: string, b: string)
    requires StandsAt(fmt, i, a) && StandsAt(fmt, i + |a|, b)
    ensures StandsAt(fmt, i, a + b)
  {
    assert fmt[i..i + |a + b|] == fmt[i..i + |a|] + fmt[i + |a|..i + |a| + |b|];
  }

  /** Whatever the parser reads up to such a character is a specification as spelled above. */
  lemma SpecIsSpelled(fmt: string, args: nat -> Arg, i: nat, arg: nat, next: nat) returns (d: Directive)
    requires i <= |fmt| && next == ReadSpec(fmt, args, i, arg).next < |fmt| && EndsSpec(fmt[next])
    ensures WellFormed(d) && StandsAt(fmt, i, Spell(d)) && i + |Spell(d)| == next + 1
  {
    FlagsExtent(fmt, i, NoFlags);
    var j := ReadFlags(fmt, i, NoFlags).1;
    var s := Spec(ReadFlags(fmt, i, NoFlags).0, 0, 0, j, arg);
    var s1 := ReadWidth(fmt, args, s);
    var s2 := ReadPrecision(fmt, args, s1);
    assert next == ReadLength(fmt, s2).next;
    var width := CountExtent(fmt, args, j, arg);
    var precision := PrecisionExtent(fmt, args, s1);
    var length := LengthExtent(fmt, s2);
    d := Directive(fmt[i..j], width, precision, length, fmt[next]);
    JoinedParts(fmt, i, fmt[i..j], SpellNumber(width), SpellPrecision(precision), SpellLength(length), [fmt[next]]);
  }

  lemma JoinedParts(fmt: string, i: nat, a: string, b: string, c: string, d: string, e: string)
    requires StandsAt(fmt, i, a) && StandsAt(fmt, i + |a|, b) && StandsAt(fmt, i + |a| + |b|, c)
    requires StandsAt(fmt, i + |a| + |b| + |c|, d) && StandsAt(fmt, i + |a| + |b| + |c| + |d|, e)
    ensures StandsAt(fmt, i, a + (b + (c + (d + e))))
  {
    Joined(fmt, i + |a| + |b| + |c|, d, e);
    Joined(fmt, i + |a| + |b|, c, d + e);
    Joined(fmt, i + |a|, b, c + (d + e));
    Joined(fmt, i, a, b + (c + (d + e)));
  }

  // ----- specifications without width and precision, and what a width does to a prefix

  lemma TwentyTwoDigits(m: nat, base: nat, upper: bool, c: char)
    requires m < TWO64 && IsInteger(c) && c != 'b' && base == BaseOf(c)
    ensures |Numeral(m, base, upper)| <= 22
  {
    RoomForDigits(c);
    NumeralShort(m, base, upper, 22, Numeral(m, base, upper));
  }

  /** %d and %i with any flags and length: the sign and the decimal digits of the value, which read back to it. */
  lemma PlainSigned(d: Directive, arg: Arg)
    requires d.width.Absent? && d.precision.Absent? && (d.conversion == 'd' || d.conversion == 'i')
    ensures var v := SignedValue(d.length, arg.bits);
      && Written(d, 0, 0, arg) == SignOf(v < 0, '+' in d.flags, ' ' in d.flags) + Numeral(Abs(v), 10, false)
      && ReadAs(Numeral(Abs(v), 10, false), 10) == Abs(v)
  {
    var v := SignedValue(d.length, arg.bits);
    SignedFits(d.length, arg.bits);
    TwentyTwoDigits(Abs(v), 10, false, 'd');
    PlainField(Abs(v), v < 0, 10, '+' in d.flags, ' ' in d.flags, IntegerLayout(d, 0, 0, false, false), Numeral(Abs(v), 10, false));
    NumeralIsRead(Abs(v), 10, false);
    assert "" + Numeral(Abs(v), 10, false) == Numeral(Abs(v), 10, false);
  }

  lemma SignedFits(length: Length, bits: u64)
    ensures Abs(SignedValue(length, bits)) < TWO64
  {
    Pow2Values();
    SignedBounds(bits, Size(length));
    Pow2Monotone(Size(length) - 1, 63);
    SignedBounds(bits, 8);
    Pow2Monotone(8, 63);
  }

  lemma PlainUnsignedText(d: Directive, m: nat, base: nat, upper: bool, numeral: string, text: string)
    requires d.width.Absent? && d.precision.Absent? && IsBase(base) && numeral == Numeral(m, base, upper) && |numeral| <= 22
    requires text == UnsignedText(d, 0, 0, m, base, upper)
    ensures text == (if '#' in d.flags && base != 10 && m != 0 then PrefixOf(base, upper) else "") + numeral
  {
    var marked := (if '#' in d.flags && base != 10 && m != 0 then PrefixOf(base, upper) else "") + numeral;
    PlainField(m, false, base, false, false, IntegerLayout(d, 0, 0, '#' in d.flags && base != 10, upper), numeral);
    assert "" + marked == marked;
  }

  /** %u, %o, %x and %X likewise: with # a prefix, unless the value is zero. */
  lemma PlainUnsigned(d: Directive, arg: Arg, base: nat, m: nat, upper: bool)
    requires d.width.Absent? && d.precision.Absent? && m == ToUnsigned(arg.bits, Size(d.length)) && (upper <==> d.conversion == 'X')
    requires (d.conversion == 'u' && base == 10) || (d.conversion == 'o' && base == 8)
      || ((d.conversion == 'x' || d.conversion == 'X') && base == 16)
    ensures Written(d, 0, 0, arg)
         == (if '#' in d.flags && base != 10 && m != 0 then PrefixOf(base, upper) else "") + Numeral(m, base, upper)
    ensures ReadAs(Numeral(m, base, upper), base) == m
  {
    ModuloFits(arg.bits, Pow2(Size(d.length)));
    TwentyTwoDigits(m, base, upper, d.conversion);
    PlainUnsignedText(d, m, base, upper, Numeral(m, base, upper), Written(d, 0, 0, arg));
    NumeralIsRead(m, base, upper);
  }

  lemma ModuloFits(x: nat, p: nat)
    requires p > 0
    ensures 0 <= x % p <= x
  {
    if x < p {
      DivModUnique(x, p, 0, x);
    }
  }
}
