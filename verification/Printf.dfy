/** The embedded printf: whatever the size of the buffer, the same text is produced; the buffer keeps as
    much of it as fits, and the length returned is that of the whole. */
module Printf {
  import opened Words
  import opened PowersOfTwo

  const SIZE: nat := 32
  const NUL: char := '\0'

  datatype Flags = Flags(
    zeroPad: bool, left: bool, plus: bool, space: bool, hash: bool, upper: bool,
    charArg: bool, shortArg: bool, longArg: bool, longLongArg: bool, precision: bool)

  const NoFlags := Flags(false, false, false, false, false, false, false, false, false, false, false)

  // ----- the output

  /** Where characters go: a buffer of which the first maxlen places may be written, or nowhere. */
  class Writer {
    const buffer: array<char>
    const maxlen: nat
    const discards: bool
    var idx: nat
    /** What has been put out since the start, and what the buffer held then. */
    ghost var text: string
    ghost const before: string

    constructor (buffer: array<char>, maxlen: nat, discards: bool)
      requires discards || maxlen <= buffer.Length
      ensures Filled() && text == "" && before == buffer[..]
      ensures this.buffer == buffer && this.maxlen == maxlen && this.discards == discards
    {
      this.buffer := buffer;
      this.maxlen := maxlen;
      this.discards := discards;
      idx := 0;
      text := "";
      before := buffer[..];
    }

    /** The buffer holds the text as far as it fits, and nothing else of it has changed. */
    ghost predicate Filled()
      reads this, buffer
    {
      && idx == |text| && |before| == buffer.Length && (discards || maxlen <= buffer.Length)
      && (forall i :: 0 <= i < buffer.Length ==>
            buffer[i] == if !discards && i < maxlen && i < |text| then text[i] else before[i])
    }

    /** The output functions: characters past the end of the buffer are counted but not stored. */
    method Put(c: char)
      requires Filled()
      modifies this, buffer
      ensures Filled() && text == old(text) + [c]
    {
      OutAt(c, idx);
      text := text + [c];
      idx := idx + 1;
    }

    method OutAt(c: char, i: nat)
      requires discards || maxlen <= buffer.Length
      modifies buffer
      ensures buffer[..] == if !discards && i < maxlen then old(buffer[..])[i := c] else old(buffer[..])
    {
      if !discards && i < maxlen {
        buffer[i] := c;
      }
    }

    method PutMany(c: char, n: nat)
      requires Filled()
      modifies this, buffer
      ensures Filled() && text == old(text) + Repeat(c, n)
    {
      var i := 0;
      while i < n
        invariant 0 <= i <= n && Filled() && text == old(text) + Repeat(c, i)
      {
        Put(c);
        i := i + 1;
      }
    }

    method PutAll(s: string)
      requires Filled()
      modifies this, buffer
      ensures Filled() && text == old(text) + s
    {
      var i := 0;
      while i < |s|
        invariant 0 <= i <= |s| && Filled() && text == old(text) + s[..i]
      {
        Put(s[i]);
        i := i + 1;
      }
    }
  }

  function Repeat(c: char, n: nat): (s: string)
    ensures |s| == n
  {
    if n == 0 then "" else Repeat(c, n - 1) + [c]
  }

  function Reverse(s: string): (r: string)
    ensures |r| == |s|
  {
    if s == "" then "" else [s[|s| - 1]] + Reverse(s[..|s| - 1])
  }

  function Missing(have: nat, want: nat): nat {
    if have < want then want - have else 0
  }

  // ----- one number

  /** The digits in reverse, with spaces to fill the width on the side the flags ask for. */
  function RevText(buf: string, width: nat, flags: Flags): string {
    (if flags.left || flags.zeroPad then "" else Repeat(' ', Missing(|buf|, width)))
    + Reverse(buf)
    + if flags.left then Repeat(' ', Missing(|buf|, width)) else ""
  }

  method OutRev(w: Writer, buf: array<char>, len0: nat, width: nat, flags: Flags)
    requires w.Filled() && len0 <= buf.Length && buf != w.buffer
    modifies w, w.buffer
    ensures w.Filled() && w.text == old(w.text) + RevText(buf[..len0], width, flags)
  {
    ghost var t0 := w.text;
    var startIdx := w.idx;
    if !flags.left && !flags.zeroPad {
      w.PutMany(' ', Missing(len0, width));
    }
    ghost var pre := if flags.left || flags.zeroPad then "" else Repeat(' ', Missing(len0, width));
    assert w.text == t0 + pre;
    OutDigits(w, buf, len0);
    assert w.text == t0 + pre + Reverse(buf[..len0]);
    if flags.left {
      w.PutMany(' ', Missing(w.idx - startIdx, width));
    }
  }

  method OutDigits(w: Writer, buf: array<char>, len0: nat)
    requires w.Filled() && len0 <= buf.Length && buf != w.buffer
    modifies w, w.buffer
    ensures w.Filled() && w.text == old(w.text) + Reverse(buf[..len0])
  {
    var len := len0;
    while len > 0
      invariant 0 <= len <= len0 && w.Filled()
      invariant w.text + Reverse(buf[..len]) == old(w.text) + Reverse(buf[..len0])
    {
      len := len - 1;
      assert buf[..len + 1][..len] == buf[..len];
      w.Put(buf[len]);
    }
  }

  /** One more character while there is room. */
  function Add(buf: string, c: char): string {
    if |buf| < SIZE then buf + [c] else buf
  }

  function ZerosTo(buf: string, n: nat): (r: string)
    ensures |r| >= |buf|
    decreases SIZE - |buf|
  {
    if |buf| < n && |buf| < SIZE then ZerosTo(buf + ['0'], n) else buf
  }

  function SignWidth(width: nat, negative: bool, flags: Flags): nat {
    if !flags.left && width > 0 && flags.zeroPad && (negative || flags.plus || flags.space) then width - 1 else width
  }

  function ZeroPadded(buf: string, prec: nat, width: nat, flags: Flags): string {
    if flags.left then buf
    else if flags.zeroPad then ZerosTo(ZerosTo(buf, prec), width)
    else ZerosTo(buf, prec)
  }

  function Prefixed(buf: string, base: nat, prec: nat, width: nat, flags: Flags): string {
    if !flags.hash then buf
    else
      var cut := if flags.precision || buf == "" || (|buf| != prec && |buf| != width) then buf
                 else if |buf| > 1 && base == 16 then buf[..|buf| - 2] else buf[..|buf| - 1];
      var marked := if base == 16 then Add(cut, if flags.upper then 'X' else 'x')
                    else if base == 2 then Add(cut, 'b') else cut;
      Add(marked, '0')
  }

  function Signed(buf: string, negative: bool, flags: Flags): string {
    if negative then Add(buf, '-') else if flags.plus then Add(buf, '+') else if flags.space then Add(buf, ' ') else buf
  }

  /** The characters of a number in reverse, before the spaces that fill its width. */
  function Body(buf: string, negative: bool, base: nat, prec: nat, width: nat, flags: Flags): string {
    Signed(Prefixed(ZeroPadded(buf, prec, width, flags), base, prec, width, flags), negative, flags)
  }

  function FormatText(buf: string, negative: bool, base: nat, prec: nat, width: nat, flags: Flags): string {
    var w := SignWidth(width, negative, flags);
    RevText(Body(buf, negative, base, prec, w, flags), w, flags)
  }

  method NtoaFormat(w: Writer, buf: array<char>, len0: nat, negative: bool, base: nat, prec: nat, width0: nat, flags: Flags)
    requires w.Filled() && len0 <= SIZE == buf.Length && buf != w.buffer
    modifies w, w.buffer, buf
    ensures w.Filled()
    ensures w.text == old(w.text) + FormatText(old(buf[..len0]), negative, base, prec, width0, flags)
  {
    var width := width0;
    if !flags.left {
      if width != 0 && flags.zeroPad && (negative || flags.plus || flags.space) {
        width := width - 1;
      }
    }
    var len := PutBody(buf, len0, negative, base, prec, width, flags);
    OutRev(w, buf, len, width, flags);
  }

  method PutBody(buf: array<char>, len0: nat, negative: bool, base: nat, prec: nat, width: nat, flags: Flags)
      returns (len: nat)
    requires len0 <= SIZE == buf.Length
    modifies buf
    ensures len <= SIZE && buf[..len] == Body(old(buf[..len0]), negative, base, prec, width, flags)
  {
    len := len0;
    if !flags.left {
      len := PadZeros(buf, len, prec);
      if flags.zeroPad {
        len := PadZeros(buf, len, width);
      }
    }
    len := PutPrefix(buf, len, base, prec, width, flags);
    len := PutSign(buf, len, negative, flags);
  }

  method PadZeros(buf: array<char>, len0: nat, n: nat) returns (len: nat)
    requires len0 <= SIZE == buf.Length
    modifies buf
    ensures len <= SIZE && buf[..len] == ZerosTo(old(buf[..len0]), n)
  {
    len := len0;
    while len < n && len < SIZE
      invariant len0 <= len <= SIZE
      invariant ZerosTo(buf[..len], n) == ZerosTo(old(buf[..len0]), n)
    {
      ghost var front := buf[..len];
      buf[len] := '0';
      len := len + 1;
      assert buf[..len] == front + ['0'];
    }
  }

  method Append(buf: array<char>, len0: nat, c: char) returns (len: nat)
    requires len0 <= SIZE == buf.Length
    modifies buf
    ensures len <= SIZE && buf[..len] == Add(old(buf[..len0]), c)
  {
    len := len0;
    if len < SIZE {
      buf[len] := c;
      len := len + 1;
    }
  }

  method PutPrefix(buf: array<char>, len0: nat, base: nat, prec: nat, width: nat, flags: Flags) returns (len: nat)
    requires len0 <= SIZE == buf.Length
    modifies buf
    ensures len <= SIZE && buf[..len] == Prefixed(old(buf[..len0]), base, prec, width, flags)
  {
    len := len0;
    if flags.hash {
      if !flags.precision && len != 0 && (len == prec || len == width) {
        len := len - 1;
        if len != 0 && base == 16 {
          len := len - 1;
        }
      }
      assert buf[..len] == old(buf[..len0])[..len];
      if base == 16 {
        len := Append(buf, len, if flags.upper then 'X' else 'x');
      } else if base == 2 {
        len := Append(buf, len, 'b');
      }
      len := Append(buf, len, '0');
    }
  }

  method PutSign(buf: array<char>, len0: nat, negative: bool, flags: Flags) returns (len: nat)
    requires len0 <= SIZE == buf.Length
    modifies buf
    ensures len <= SIZE && buf[..len] == Signed(old(buf[..len0]), negative, flags)
  {
    len := len0;
    if negative {
      len := Append(buf, len, '-');
    } else if flags.plus {
      len := Append(buf, len, '+');
    } else if flags.space {
      len := Append(buf, len, ' ');
    }
  }

  function DigitChar(d: nat, upper: bool): char
    requires d < 16
  {
    if d < 10 then ('0' as int + d) as char else ((if upper then 'A' else 'a') as int + d - 10) as char
  }

  predicate IsBase(base: nat) {
    2 <= base <= 16
  }

  /** The digits of a value, the last first, as many as there is room for, at least one. */
  function Digits(value: nat, base: nat, upper: bool, room: nat): (s: string)
    requires IsBase(base)
    ensures |s| <= room
    decreases room, value
  {
    if room == 0 then ""
    else [DigitChar(value % base, upper)] + if value / base == 0 then "" else Digits(value / base, base, upper, room - 1)
  }

  function NumberText(value: nat, negative: bool, base: nat, prec: nat, width: nat, flags: Flags): string
    requires IsBase(base)
  {
    FormatText(NumberDigits(value, base, flags), negative, base, prec, width,
               if value == 0 then flags.(hash := false) else flags)
  }

  function NumberDigits(value: nat, base: nat, flags: Flags): string
    requires IsBase(base)
  {
    if flags.precision && value == 0 then "" else Digits(value, base, flags.upper, SIZE)
  }

  /** For long and for long long, which have the same width here. */
  method NtoaLong(w: Writer, value0: u64, negative: bool, base: nat, prec: nat, width: nat, flags0: Flags)
    requires w.Filled() && IsBase(base)
    modifies w, w.buffer
    ensures w.Filled() && w.text == old(w.text) + NumberText(value0, negative, base, prec, width, flags0)
  {
    var buf := new char[SIZE];
    var flags := flags0;
    if value0 == 0 {
      flags := flags.(hash := false);
    }
    var len := NumberIn(buf, value0, base, flags0);
    NtoaFormat(w, buf, len, negative, base, prec, width, flags);
  }

  method NumberIn(buf: array<char>, value: u64, base: nat, flags: Flags) returns (len: nat)
    requires buf.Length == SIZE && IsBase(base)
    modifies buf
    ensures len <= SIZE && buf[..len] == NumberDigits(value, base, flags)
  {
    len := 0;
    if !flags.precision || value != 0 {
      len := PutDigits(buf, value, base, flags.upper);
    }
  }

  /** What is still to be written of all the digits, after the first n of them. */
  ghost predicate Remains(all: string, n: nat, value: nat, base: nat, upper: bool)
    requires IsBase(base)
  {
    n <= SIZE && n <= |all| && all[n..] == if n > 0 && value == 0 then "" else Digits(value, base, upper, SIZE - n)
  }

  lemma DigitsStep(all: string, n: nat, value: nat, base: nat, upper: bool, rest: nat, digit: nat)
    requires IsBase(base) && rest == value / base && digit == value % base
    requires n < SIZE && Remains(all, n, value, base, upper) && (n == 0 || value != 0)
    ensures digit < base && n < |all| && all[n] == DigitChar(digit, upper)
    ensures Remains(all, n + 1, rest, base, upper)
  {
    var digits := Digits(value, base, upper, SIZE - n);
    assert all[n..] == digits;
    assert all[n] == digits[0];
    assert all[n + 1..] == digits[1..];
  }

  method Divide(value: nat, base: nat) returns (rest: nat, digit: nat)
    requires IsBase(base)
    ensures rest == value / base && digit == value % base && digit < base
  {
    rest, digit := value / base, value % base;
  }

  /** Takes the last digit off the value; all is the whole text of digits. */
  method PutDigit(buf: array<char>, len: nat, value: nat, base: nat, upper: bool, ghost all: string) returns (rest: nat)
    requires len < SIZE == buf.Length && IsBase(base) && (len == 0 || value != 0)
    requires Remains(all, len, value, base, upper) && (forall i :: 0 <= i < len ==> buf[i] == all[i])
    modifies buf
    ensures Remains(all, len + 1, rest, base, upper) && (forall i :: 0 <= i < len + 1 ==> buf[i] == all[i])
  {
    var digit;
    rest, digit := Divide(value, base);
    DigitsStep(all, len, value, base, upper, rest, digit);
    buf[len] := DigitChar(digit, upper);
  }

  lemma AllWritten(all: string, n: nat, value: nat, base: nat, upper: bool)
    requires IsBase(base) && Remains(all, n, value, base, upper) && n > 0 && (value == 0 || n == SIZE)
    ensures n == |all|
  {
    assert |all[n..]| == 0;
  }

  method PutDigits(buf: array<char>, value0: u64, base: nat, upper: bool) returns (len: nat)
    requires buf.Length == SIZE && IsBase(base)
    modifies buf
    ensures len <= SIZE && buf[..len] == Digits(value0, base, upper, SIZE)
  {
    ghost var all := Digits(value0, base, upper, SIZE);
    var value: nat := value0;
    len := 0;
    while len == 0 || (value != 0 && len < SIZE)
      invariant Remains(all, len, value, base, upper) && (forall i :: 0 <= i < len ==> buf[i] == all[i])
      decreases SIZE - len
    {
      value := PutDigit(buf, len, value, base, upper, all);
      len := len + 1;
    }
    AllWritten(all, len, value, base, upper);
  }

  // ----- the arguments

  /** An argument, as each kind of conversion would read it; floating-point conversions give their own text. */
  datatype Arg = Arg(bits: u64, text: string, realText: (char, Flags, nat, nat) -> string)

  const ADDRESS_BYTES: nat := 16

  function AsInt(bits: u64): int {
    var v := bits % TWO32;
    if v < TWO31 then v else v - TWO32
  }

  /** A signed argument cut to the size the flags name; plain char is unsigned on this target. */
  function SignedArg(flags: Flags, bits: u64): int {
    if flags.longLongArg || flags.longArg then (if bits < TWO63 then bits else bits - TWO64)
    else if flags.charArg then bits % 0x100
    else if flags.shortArg then (var v := bits % 0x1_0000; if v < 0x8000 then v else v - 0x1_0000)
    else AsInt(bits)
  }

  function UnsignedArg(flags: Flags, bits: u64): u64 {
    if flags.longLongArg || flags.longArg then bits
    else if flags.charArg then bits % 0x100
    else if flags.shortArg then bits % 0x1_0000
    else bits % TWO32
  }

  function Magnitude(v: int): nat {
    if v > 0 then v else 0 - v
  }

  // ----- the format string

  function At(fmt: string, i: nat): char {
    if i < |fmt| then fmt[i] else NUL
  }

  predicate IsDigit(c: char) {
    '0' <= c <= '9'
  }

  /** A conversion specification: what was read, and where the format and the arguments go on. */
  datatype Spec = Spec(flags: Flags, width: u32, precision: u32, next: nat, arg: nat)

  function FlagOf(c: char, flags: Flags): Flags {
    flags.(zeroPad := flags.zeroPad || c == '0', left := flags.left || c == '-', plus := flags.plus || c == '+',
           space := flags.space || c == ' ', hash := flags.hash || c == '#')
  }

  predicate IsFlag(c: char) {
    c == '0' || c == '-' || c == '+' || c == ' ' || c == '#'
  }

  function ReadFlags(fmt: string, i: nat, flags: Flags): (r: (Flags, nat))
    ensures r.1 >= i
    decreases |fmt| - i
  {
    if i < |fmt| && IsFlag(fmt[i]) then ReadFlags(fmt, i + 1, FlagOf(fmt[i], flags)) else (flags, i)
  }

  function ReadNumber(fmt: string, i: nat, n: u32): (r: (u32, nat))
    ensures r.1 >= i
    decreases |fmt| - i
  {
    if i < |fmt| && IsDigit(fmt[i]) then ReadNumber(fmt, i + 1, (n * 10 + (fmt[i] as int - '0' as int)) % TWO32) else (n, i)
  }

  /** A number in the format or an argument in its place; zero if there is neither. */
  datatype Count = Count(value: int, next: nat, arg: nat)

  function ReadCount(fmt: string, args: nat -> Arg, i: nat, arg: nat): (r: Count)
    ensures -TWO31 <= r.value < TWO32 && r.next >= i
  {
    if IsDigit(At(fmt, i)) then
      var (n, j) := ReadNumber(fmt, i, 0);
      Count(n, j, arg)
    else if At(fmt, i) == '*' then Count(AsInt(args(arg).bits), i + 1, arg + 1)
    else Count(0, i, arg)
  }

  /** A negative width asks to pad on the right. */
  function ReadWidth(fmt: string, args: nat -> Arg, s: Spec): (r: Spec)
    ensures r.next >= s.next
  {
    var c := ReadCount(fmt, args, s.next, s.arg);
    Spec(s.flags.(left := s.flags.left || c.value < 0), Magnitude(c.value), s.precision, c.next, c.arg)
  }

  function ReadPrecision(fmt: string, args: nat -> Arg, s: Spec): (r: Spec)
    ensures r.next >= s.next
  {
    if At(fmt, s.next) != '.' then s
    else
      var c := ReadCount(fmt, args, s.next + 1, s.arg);
      Spec(s.flags.(precision := true), s.width, if c.value > 0 then c.value else 0, c.next, c.arg)
  }

  function ReadLength(fmt: string, s: Spec): (r: Spec)
    ensures r.next >= s.next
  {
    var c := At(fmt, s.next);
    var twice := (c == 'l' || c == 'h') && At(fmt, s.next + 1) == c;
    Spec(s.flags.(charArg := s.flags.charArg || (c == 'h' && twice), shortArg := s.flags.shortArg || c == 'h',
                  longArg := s.flags.longArg || c == 'l' || c == 't' || c == 'j' || c == 'z',
                  longLongArg := s.flags.longLongArg || (c == 'l' && twice)),
         s.width, s.precision,
         s.next + if twice then 2 else if c == 'l' || c == 'h' || c == 't' || c == 'j' || c == 'z' then 1 else 0, s.arg)
  }

  function ReadSpec(fmt: string, args: nat -> Arg, i: nat, arg: nat): (s: Spec)
    ensures s.next >= i
  {
    var (flags, j) := ReadFlags(fmt, i, NoFlags);
    ReadLength(fmt, ReadPrecision(fmt, args, ReadWidth(fmt, args, Spec(flags, 0, 0, j, arg))))
  }

  // ----- the text of one conversion

  predicate IsInteger(c: char) {
    c == 'd' || c == 'i' || c == 'u' || c == 'x' || c == 'X' || c == 'o' || c == 'b'
  }

  predicate IsReal(c: char) {
    c == 'f' || c == 'F' || c == 'e' || c == 'E' || c == 'g' || c == 'G'
  }

  function BaseOf(c: char): (base: nat)
    ensures IsBase(base)
  {
    if c == 'x' || c == 'X' then 16 else if c == 'o' then 8 else if c == 'b' then 2 else 10
  }

  predicate IsSignedConversion(c: char) {
    c == 'i' || c == 'd'
  }

  /** The flags that count for an integer conversion. */
  function IntegerFlags(c: char, flags: Flags): Flags {
    flags.(hash := flags.hash && BaseOf(c) != 10,
           upper := flags.upper || c == 'X',
           plus := flags.plus && IsSignedConversion(c),
           space := flags.space && IsSignedConversion(c),
           zeroPad := flags.zeroPad && !flags.precision)
  }

  /** The value that an integer conversion has to write. */
  function IntegerArg(c: char, flags: Flags, bits: u64): int {
    if IsSignedConversion(c) then SignedArg(flags, bits) else UnsignedArg(flags, bits)
  }

  function IntegerText(c: char, s: Spec, bits: u64): string {
    var v := IntegerArg(c, s.flags, bits);
    NumberText(Magnitude(v), v < 0, BaseOf(c), s.precision, s.width, IntegerFlags(c, s.flags))
  }

  function Padded(body: string, have: nat, s: Spec): string {
    if s.flags.left then body + Repeat(' ', Missing(have, s.width)) else Repeat(' ', Missing(have, s.width)) + body
  }

  function CharText(s: Spec, bits: u64): string {
    Padded([(bits % 0x100) as char], 1, s)
  }

  /** The part of a string that a precision leaves. */
  function Shown(s: Spec, text: string): string {
    if s.flags.precision && s.precision < |text| then text[..s.precision] else text
  }

  /** The length of a string as the padding counts it. */
  function Measured(s: Spec, text: string): nat {
    var l := if s.precision != 0 && s.precision < |text| then s.precision else |text|;
    if s.flags.precision && s.precision < l then s.precision else l
  }

  function StringText(s: Spec, text: string): string {
    Padded(Shown(s, text), Measured(s, text), s)
  }

  function PointerText(s: Spec, bits: u64): string {
    NumberText(bits, false, 16, s.precision, ADDRESS_BYTES * 2, s.flags.(zeroPad := true, upper := true))
  }

  predicate TakesArg(c: char) {
    IsInteger(c) || IsReal(c) || c == 'c' || c == 's' || c == 'p'
  }

  function ConversionText(c: char, s: Spec, arg: Arg): string {
    if IsInteger(c) then IntegerText(c, s, arg.bits)
    else if IsReal(c) then arg.realText(c, s.flags, s.width, s.precision)
    else if c == 'c' then CharText(s, arg.bits)
    else if c == 's' then StringText(s, arg.text)
    else if c == 'p' then PointerText(s, arg.bits)
    else [c]
  }

  /** The whole text, from a place in the format and an argument on. No size of any buffer occurs in it. */
  function Text(fmt: string, args: nat -> Arg, i: nat, arg: nat): string
    decreases |fmt| - i, 0
  {
    if i >= |fmt| then ""
    else if fmt[i] != '%' then [fmt[i]] + Text(fmt, args, i + 1, arg)
    else SpecText(fmt, args, ReadSpec(fmt, args, i + 1, arg))
  }

  /** The text of a conversion and of what follows it. */
  function SpecText(fmt: string, args: nat -> Arg, s: Spec): string
    decreases |fmt| - s.next, 1
  {
    ConversionText(At(fmt, s.next), s, args(s.arg))
    + if s.next < |fmt| then Text(fmt, args, s.next + 1, ArgAfter(fmt, s)) else ""
  }

  function ArgAfter(fmt: string, s: Spec): nat {
    s.arg + if TakesArg(At(fmt, s.next)) then 1 else 0
  }

  // ----- the code

  method EvaluateFlags(fmt: string, i: nat) returns (flags: Flags, next: nat)
    ensures (flags, next) == ReadFlags(fmt, i, NoFlags)
  {
    flags := NoFlags;
    next := i;
    while IsFlag(At(fmt, next))
      invariant ReadFlags(fmt, next, flags) == ReadFlags(fmt, i, NoFlags)
      decreases |fmt| - next
    {
      flags := FlagOf(At(fmt, next), flags);
      next := next + 1;
    }
  }

  method Atoi(fmt: string, i: nat) returns (n: u32, next: nat)
    ensures (n, next) == ReadNumber(fmt, i, 0)
  {
    n := 0;
    next := i;
    while IsDigit(At(fmt, next))
      invariant ReadNumber(fmt, next, n) == ReadNumber(fmt, i, 0)
      decreases |fmt| - next
    {
      n := (n * 10 + (At(fmt, next) as int - '0' as int)) % TWO32;
      next := next + 1;
    }
  }

  method EvaluateWidth(fmt: string, args: nat -> Arg, s0: Spec) returns (s: Spec)
    requires s0.width == 0
    ensures s == ReadWidth(fmt, args, s0)
  {
    s := s0;
    if IsDigit(At(fmt, s.next)) {
      var width, next := Atoi(fmt, s.next);
      s := s.(width := width, next := next);
    } else if At(fmt, s.next) == '*' {
      var w := AsInt(args(s.arg).bits);
      if w < 0 {
        s := s.(flags := s.flags.(left := true), width := 0 - w);
      } else {
        s := s.(width := w);
      }
      s := s.(next := s.next + 1, arg := s.arg + 1);
    }
  }

  method EvaluatePrecision(fmt: string, args: nat -> Arg, s0: Spec) returns (s: Spec)
    requires s0.precision == 0
    ensures s == ReadPrecision(fmt, args, s0)
  {
    s := s0;
    if At(fmt, s.next) == '.' {
      s := s.(flags := s.flags.(precision := true), next := s.next + 1);
      if IsDigit(At(fmt, s.next)) {
        var precision, next := Atoi(fmt, s.next);
        s := s.(precision := precision, next := next);
      } else if At(fmt, s.next) == '*' {
        var prec := AsInt(args(s.arg).bits);
        s := s.(precision := if prec > 0 then prec else 0, next := s.next + 1, arg := s.arg + 1);
      }
    }
  }

  method EvaluateLength(fmt: string, s: Spec) returns (r: Spec)
    ensures r == ReadLength(fmt, s)
  {
    var next := s.next;
    var charArg, shortArg, longArg, longLongArg := s.flags.charArg, s.flags.shortArg, s.flags.longArg, s.flags.longLongArg;
    if At(fmt, next) == 'l' {
      longArg, next := true, next + 1;
      if At(fmt, next) == 'l' {
        longLongArg, next := true, next + 1;
      }
    } else if At(fmt, next) == 'h' {
      shortArg, next := true, next + 1;
      if At(fmt, next) == 'h' {
        charArg, next := true, next + 1;
      }
    } else if At(fmt, next) == 't' || At(fmt, next) == 'j' || At(fmt, next) == 'z' {
      longArg, next := true, next + 1;
    }
    r := Spec(s.flags.(charArg := charArg, shortArg := shortArg, longArg := longArg, longLongArg := longLongArg),
              s.width, s.precision, next, s.arg);
  }

  method Evaluate(fmt: string, args: nat -> Arg, i: nat, arg: nat) returns (s: Spec)
    ensures s == ReadSpec(fmt, args, i, arg)
  {
    var flags, next := EvaluateFlags(fmt, i);
    s := EvaluateWidth(fmt, args, Spec(flags, 0, 0, next, arg));
    s := EvaluatePrecision(fmt, args, s);
    s := EvaluateLength(fmt, s);
  }

  method PutChar(w: Writer, s: Spec, bits: u64)
    requires w.Filled()
    modifies w, w.buffer
    ensures w.Filled() && w.text == old(w.text) + CharText(s, bits)
  {
    if !s.flags.left {
      w.PutMany(' ', Missing(1, s.width));
    }
    w.Put((bits % 0x100) as char);
    if s.flags.left {
      w.PutMany(' ', Missing(1, s.width));
    }
  }

  method PutString(w: Writer, s: Spec, text: string)
    requires w.Filled()
    modifies w, w.buffer
    ensures w.Filled() && w.text == old(w.text) + StringText(s, text)
  {
    var l := if s.precision != 0 && s.precision < |text| then s.precision else |text|;
    if s.flags.precision {
      l := if l < s.precision then l else s.precision;
    }
    if !s.flags.left {
      w.PutMany(' ', Missing(l, s.width));
    }
    w.PutAll(Shown(s, text));
    if s.flags.left {
      w.PutMany(' ', Missing(l, s.width));
    }
  }

  method PutInteger(w: Writer, c: char, s: Spec, bits: u64)
    requires w.Filled() && IsInteger(c)
    modifies w, w.buffer
    ensures w.Filled() && w.text == old(w.text) + IntegerText(c, s, bits)
  {
    var flags := IntegerFlags(c, s.flags);
    LengthIsKept(c, s.flags, bits, flags);
    if IsSignedConversion(c) {
      var value := SignedArg(flags, bits);
      NtoaLong(w, Magnitude(value), value < 0, BaseOf(c), s.precision, s.width, flags);
    } else {
      NtoaLong(w, UnsignedArg(flags, bits), false, BaseOf(c), s.precision, s.width, flags);
    }
  }

  /** Clearing flags leaves those that name the size of the argument. */
  lemma LengthIsKept(c: char, flags: Flags, bits: u64, f: Flags)
    requires f == IntegerFlags(c, flags)
    ensures SignedArg(f, bits) == SignedArg(flags, bits) && UnsignedArg(f, bits) == UnsignedArg(flags, bits)
  {
  }

  method PutConversion(w: Writer, c: char, s: Spec, arg: Arg) returns (ghost body: string)
    requires w.Filled()
    modifies w, w.buffer
    ensures body == ConversionText(c, s, arg)
    ensures w.Filled() && w.text == old(w.text) + body
  {
    body := ConversionText(c, s, arg);
    if IsInteger(c) {
      PutInteger(w, c, s, arg.bits);
    } else if IsReal(c) {
      w.PutAll(arg.realText(c, s.flags, s.width, s.precision));
    } else if c == 'c' {
      PutChar(w, s, arg.bits);
    } else if c == 's' {
      PutString(w, s, arg.text);
    } else if c == 'p' {
      NtoaLong(w, arg.bits, false, 16, s.precision, ADDRESS_BYTES * 2, s.flags.(zeroPad := true, upper := true));
    } else {
      w.Put(c);
    }
  }

  /** The text from place n on is what is still to be formatted. */
  ghost predicate Remaining(all: string, n: nat, fmt: string, args: nat -> Arg, i: nat, arg: nat) {
    n <= |all| && all[n..] == Text(fmt, args, i, arg)
  }

  lemma OrdinaryStep(all: string, n: nat, fmt: string, args: nat -> Arg, i: nat, arg: nat)
    requires Remaining(all, n, fmt, args, i, arg) && i < |fmt| && fmt[i] != '%'
    ensures all[..n] + [fmt[i]] <= all && Remaining(all, n + 1, fmt, args, i + 1, arg)
  {
    var rest := Text(fmt, args, i + 1, arg);
    assert all[n..] == [fmt[i]] + rest;
    assert all[n..][1..] == rest;
  }

  lemma SpecStep(all: string, n: nat, fmt: string, args: nat -> Arg, i: nat, arg: nat, s: Spec)
    requires Remaining(all, n, fmt, args, i, arg) && i < |fmt| && fmt[i] == '%' && s == ReadSpec(fmt, args, i + 1, arg)
    ensures n <= |all| && all[n..] == SpecText(fmt, args, s) && s.next > i
  {
  }

  lemma ConversionStep(fmt: string, args: nat -> Arg, s: Spec, body: string, rest: string)
    requires body == ConversionText(At(fmt, s.next), s, args(s.arg)) && rest == Text(fmt, args, s.next + 1, ArgAfter(fmt, s))
    ensures SpecText(fmt, args, s) == body + rest
  {
  }

  lemma Suffix(all: string, n: nat, body: string, rest: string)
    requires n <= |all| && all[n..] == body + rest
    ensures all[..n] + body <= all && n + |body| <= |all| && all[n + |body|..] == rest
  {
    assert all == all[..n] + (body + rest);
    assert all[n + |body|..] == all[n..][|body|..];
  }

  /** One ordinary character, or one conversion. */
  method PutOne(w: Writer, fmt: string, args: nat -> Arg, i: nat, arg: nat, ghost all: string) returns (i': nat, arg': nat)
    requires w.Filled() && i < |fmt| && w.text <= all && Remaining(all, |w.text|, fmt, args, i, arg)
    modifies w, w.buffer
    ensures w.Filled() && i' > i && w.text <= all && Remaining(all, |w.text|, fmt, args, i', arg')
  {
    if fmt[i] != '%' {
      OrdinaryStep(all, |w.text|, fmt, args, i, arg);
      w.Put(fmt[i]);
      i', arg' := i + 1, arg;
    } else {
      var s := EvaluateSpec(fmt, args, i, arg, all, |w.text|);
      PutSpec(w, fmt, args, s, all);
      i', arg' := s.next + 1, ArgAfter(fmt, s);
    }
  }

  method EvaluateSpec(fmt: string, args: nat -> Arg, i: nat, arg: nat, ghost all: string, ghost n: nat) returns (s: Spec)
    requires Remaining(all, n, fmt, args, i, arg) && i < |fmt| && fmt[i] == '%'
    ensures all[n..] == SpecText(fmt, args, s) && s.next > i
  {
    s := Evaluate(fmt, args, i + 1, arg);
    SpecStep(all, n, fmt, args, i, arg, s);
  }

  /** One conversion, at the front of what is still to be written. */
  method PutSpec(w: Writer, fmt: string, args: nat -> Arg, s: Spec, ghost all: string)
    requires w.Filled() && w.text <= all && all[|w.text|..] == SpecText(fmt, args, s)
    modifies w, w.buffer
    ensures w.Filled() && w.text <= all && Remaining(all, |w.text|, fmt, args, s.next + 1, ArgAfter(fmt, s))
  {
    ghost var front, rest := w.text, Text(fmt, args, s.next + 1, ArgAfter(fmt, s));
    ghost var body := PutConversion(w, At(fmt, s.next), s, args(s.arg));
    ConversionStep(fmt, args, s, body, rest);
    Suffix(all, |front|, body, rest);
    assert w.text == all[..|front|] + body;
  }

  method PutText(w: Writer, fmt: string, args: nat -> Arg)
    requires w.Filled() && w.text == ""
    modifies w, w.buffer
    ensures w.Filled() && w.text == Text(fmt, args, 0, 0)
  {
    ghost var all := Text(fmt, args, 0, 0);
    var i: nat, arg: nat := 0, 0;
    while i < |fmt|
      invariant w.Filled() && w.text <= all && Remaining(all, |w.text|, fmt, args, i, arg)
      decreases |fmt| - i
    {
      i, arg := PutOne(w, fmt, args, i, arg, all);
    }
  }

  /** Formats into a buffer of maxlen characters, or nowhere. The length returned does not depend on the
      buffer; the buffer holds the text up to its last place but one, then a zero, and is otherwise as it was. */
  method Vsnprintf(buffer: array<char>, maxlen: nat, isNull: bool, fmt: string, args: nat -> Arg) returns (ret: nat)
    requires isNull || maxlen <= buffer.Length
    modifies buffer
    ensures ret == |Text(fmt, args, 0, 0)|
    ensures isNull || maxlen == 0 ==> buffer[..] == old(buffer[..])
    ensures !isNull && maxlen > 0 ==>
      var n := if ret < maxlen then ret else maxlen - 1;
      buffer[..] == Text(fmt, args, 0, 0)[..n] + [NUL] + old(buffer[..])[n + 1..]
  {
    var w := new Writer(buffer, maxlen, isNull);
    PutText(w, fmt, args);
    ret := w.idx;
    if maxlen > 0 {
      Finish(w);
    }
  }

  method Finish(w: Writer)
    requires w.Filled() && w.maxlen > 0
    modifies w.buffer
    ensures w.discards ==> w.buffer[..] == w.before
    ensures !w.discards ==>
      var n := if |w.text| < w.maxlen then |w.text| else w.maxlen - 1;
      w.buffer[..] == w.text[..n] + [NUL] + w.before[n + 1..]
  {
    w.OutAt(NUL, if w.idx < w.maxlen then w.idx else w.maxlen - 1);
  }

  /** Formatting the same again into a buffer of another size: the same length, and the shorter of the two
      contents is the beginning of the longer. */
  method FormatTwice(small: array<char>, large: array<char>, fmt: string, args: nat -> Arg) returns (r1: nat, r2: nat)
    requires 0 < small.Length <= large.Length && small != large
    modifies small, large
    ensures r1 == r2
    ensures var n := if r1 < small.Length then r1 else small.Length - 1;
      small[..n] == large[..n] && small[n] == NUL
  {
    r1 := Vsnprintf(small, small.Length, false, fmt, args);
    ghost var n := if r1 < small.Length then r1 else small.Length - 1;
    assert small[..n] == Text(fmt, args, 0, 0)[..n];
    r2 := Vsnprintf(large, large.Length, false, fmt, args);
  }

  // ----- what a formatted number says

  /** Reads digits as written, the first first; a character that is no digit of the base ends it. */
  function DigitValue(c: char): nat {
    if '0' <= c <= '9' then c as int - '0' as int
    else if 'a' <= c <= 'f' then c as int - 'a' as int + 10
    else if 'A' <= c <= 'F' then c as int - 'A' as int + 10
    else 16
  }

  /** The number that a reversed string of digits stands for. */
  function ValueOf(digits: string, base: nat): nat {
    if digits == "" then 0 else DigitValue(digits[0]) + base * ValueOf(digits[1..], base)
  }

  function Power(base: nat, n: nat): nat {
    if n == 0 then 1 else base * Power(base, n - 1)
  }

  lemma DigitRoundTrip(d: nat, upper: bool)
    requires d < 16
    ensures DigitValue(DigitChar(d, upper)) == d
  {
  }

  lemma {:induction false} PowerPositive(base: nat, n: nat)
    requires IsBase(base)
    ensures Power(base, n) > 0
  {
    if n > 0 {
      PowerPositive(base, n - 1);
      MulLe(1, base, Power(base, n - 1));
    }
  }

  lemma Recombined(value: nat, base: nat, rest: nat, last: nat)
    requires base > 0 && rest == value / base && last == value % base
    ensures value == base * rest + last && last < base
  {
    DivMod(value, base);
  }

  lemma ValueOfStep(c: char, digits: string, base: nat)
    ensures ValueOf([c] + digits, base) == DigitValue(c) + base * ValueOf(digits, base)
  {
    assert ([c] + digits)[1..] == digits;
  }

  /** The digits after the last one are those of the quotient, of which there are none if it is zero. */
  lemma ValueOfDigits(value: nat, base: nat, upper: bool, room: nat, rest: nat, last: nat, p: nat)
    requires IsBase(base) && room > 0 && rest == value / base && last == value % base && p > 0
    requires ValueOf(Digits(rest, base, upper, room - 1), base) == rest % p
    ensures last < base && ValueOf(Digits(value, base, upper, room), base) == last + base * (rest % p)
  {
    var more := if rest == 0 then "" else Digits(rest, base, upper, room - 1);
    DigitRoundTrip(last, upper);
    ValueOfStep(DigitChar(last, upper), more, base);
    ZeroModulo(p);
  }

  /** The digits stand for the value modulo the power of the base that the room allows. */
  lemma {:induction false} DigitsStandFor(value: nat, base: nat, upper: bool, room: nat)
    requires IsBase(base)
    ensures Power(base, room) > 0 && ValueOf(Digits(value, base, upper, room), base) == value % Power(base, room)
    decreases room
  {
    PowerPositive(base, room);
    if room > 0 {
      var last, rest, p := value % base, value / base, Power(base, room - 1);
      DigitsStandFor(rest, base, upper, room - 1);
      ValueOfDigits(value, base, upper, room, rest, last, p);
      Recombined(value, base, rest, last);
      StepModulo(value, base, p, last, rest);
    }
  }

  lemma ZeroModulo(p: nat)
    requires p > 0
    ensures 0 % p == 0
  {
  }

  lemma StepModulo(value: nat, base: nat, p: nat, last: nat, rest: nat)
    requires base > 1 && p > 0 && last < base && value == base * rest + last
    ensures base * p > 0 && value % (base * p) == last + base * (rest % p)
  {
    var d, r := rest / p, rest % p;
    DivMod(rest, p);
    MulLe(r, p - 1, base);
    MulLe(0, r, base);
    MulLe(1, p, base);
    assert base * rest == base * (d * p) + base * r;
    assert base * (d * p) == d * (base * p);
    assert base * (p - 1) == base * p - base;
    DivModUnique(value, base * p, d, base * r + last);
  }

  lemma {:induction false} ReverseTwice(s: string)
    ensures Reverse(Reverse(s)) == s
  {
    if s != "" {
      ReverseTwice(s[..|s| - 1]);
      ReverseOf(s[|s| - 1], Reverse(s[..|s| - 1]));
    }
  }

  lemma {:induction false} ReverseOf(c: char, s: string)
    ensures Reverse([c] + s) == Reverse(s) + [c]
  {
    var whole := [c] + s;
    assert whole[|whole| - 1] == if s == "" then c else s[|s| - 1];
    if s == "" {
      assert whole == [c] && whole[..0] == "";
    } else {
      var front := s[..|s| - 1];
      assert whole[..|whole| - 1] == [c] + front;
      ReverseOf(c, front);
      assert Reverse(whole) == [s[|s| - 1]] + (Reverse(front) + [c]);
      assert Reverse(s) == [s[|s| - 1]] + Reverse(front);
    }
  }

  /** What stands before the digits: a sign for the signed conversions, */
  function SignText(negative: bool, flags: Flags): string {
    if negative then "-" else if flags.plus then "+" else if flags.space then " " else ""
  }

  /** and a prefix, of which the end is written as far as there is room beside the digits. */
  function PrefixText(base: nat, flags: Flags, digits: nat): string {
    if !flags.hash then ""
    else if base == 16 then MarkText(if flags.upper then 'X' else 'x', digits)
    else if base == 2 then MarkText('b', digits)
    else if digits < SIZE then "0" else ""
  }

  function MarkText(mark: char, digits: nat): string {
    if digits + 2 <= SIZE then ['0', mark] else if digits < SIZE then [mark] else ""
  }

  /** A number without width and precision: its sign, its prefix unless it is zero, and its digits. */
  function PlainText(value: nat, negative: bool, base: nat, flags: Flags, digits: string): string {
    SignText(negative, flags)
    + (PrefixText(base, if value == 0 then flags.(hash := false) else flags, |digits|) + digits)
  }

  lemma ReverseAdded(buf: string, c: char)
    ensures Reverse(buf + [c]) == [c] + Reverse(buf)
  {
    assert (buf + [c])[..|buf|] == buf;
  }

  lemma NoneInFront(r: string)
    ensures "" + r == r
  {
  }

  lemma ReverseAddedTwo(buf: string, c: char, d: char)
    ensures Reverse(buf + [c] + [d]) == [d, c] + Reverse(buf)
  {
    ReverseAdded(buf, c);
    ReverseAdded(buf + [c], d);
    assert [d, c] + Reverse(buf) == [d] + ([c] + Reverse(buf));
  }

  lemma ReverseMarked(digits: string, mark: char)
    requires |digits| <= SIZE
    ensures Reverse(Add(Add(digits, mark), '0')) == MarkText(mark, |digits|) + Reverse(digits)
  {
    if |digits| + 2 <= SIZE {
      ReverseAddedTwo(digits, mark, '0');
      assert Add(Add(digits, mark), '0') == digits + [mark] + ['0'];
    } else if |digits| < SIZE {
      ReverseAdded(digits, mark);
      assert Add(Add(digits, mark), '0') == digits + [mark];
    } else {
      NoneInFront(Reverse(digits));
      assert Add(Add(digits, mark), '0') == digits;
    }
  }

  lemma ReversePrefixed(digits: string, base: nat, flags: Flags)
    requires 0 < |digits| <= SIZE && !flags.precision
    ensures Reverse(Prefixed(digits, base, 0, 0, flags)) == PrefixText(base, flags, |digits|) + Reverse(digits)
  {
    NoneInFront(Reverse(digits));
    if flags.hash {
      if base == 16 {
        ReverseMarked(digits, if flags.upper then 'X' else 'x');
      } else if base == 2 {
        ReverseMarked(digits, 'b');
      } else {
        ReverseAdded(digits, '0');
      }
    }
  }

  lemma ReverseAdd(buf: string, c: char)
    requires |buf| < SIZE
    ensures Reverse(Add(buf, c)) == [c] + Reverse(buf)
  {
    ReverseAdded(buf, c);
  }

  lemma ReverseSigned(buf: string, negative: bool, flags: Flags)
    requires SignText(negative, flags) != "" ==> |buf| < SIZE
    ensures Reverse(Signed(buf, negative, flags)) == SignText(negative, flags) + Reverse(buf)
  {
    if negative {
      ReverseAdd(buf, '-');
    } else if flags.plus {
      ReverseAdd(buf, '+');
    } else if flags.space {
      ReverseAdd(buf, ' ');
    } else {
      NoneInFront(Reverse(buf));
    }
  }

  lemma Unpadded(buf: string, flags: Flags)
    ensures RevText(buf, 0, flags) == Reverse(buf)
  {
    assert "" + Reverse(buf) + "" == Reverse(buf);
  }

  /** Without width and precision a number is its sign, its prefix and its digits. */
  lemma PlainFormat(digits: string, negative: bool, base: nat, flags: Flags)
    requires 0 < |digits| <= SIZE && !flags.precision
    requires SignText(negative, flags) != "" ==> !flags.hash && |digits| < SIZE
    ensures FormatText(digits, negative, base, 0, 0, flags)
         == SignText(negative, flags) + (PrefixText(base, flags, |digits|) + Reverse(digits))
  {
    var prefixed := Prefixed(digits, base, 0, 0, flags);
    assert ZeroPadded(digits, 0, 0, flags) == digits;
    ReversePrefixed(digits, base, flags);
    ReverseSigned(prefixed, negative, flags);
    Unpadded(Signed(prefixed, negative, flags), flags);
  }

  lemma PlainNumber(value: nat, negative: bool, base: nat, flags: Flags)
    requires IsBase(base) && !flags.precision
    requires SignText(negative, flags) != "" ==> !flags.hash && |Digits(value, base, flags.upper, SIZE)| < SIZE
    ensures NumberText(value, negative, base, 0, 0, flags)
         == PlainText(value, negative, base, flags, Reverse(Digits(value, base, flags.upper, SIZE)))
  {
    PlainFormat(Digits(value, base, flags.upper, SIZE), negative, base,
                if value == 0 then flags.(hash := false) else flags);
  }

  /** The digits read back, first digit first, are the value exactly when there is room for all of them. */
  lemma DigitsReadBack(value: nat, base: nat, upper: bool)
    requires IsBase(base)
    ensures ValueOf(Reverse(Reverse(Digits(value, base, upper, SIZE))), base) == value <==> value < Power(base, SIZE)
  {
    ReverseTwice(Digits(value, base, upper, SIZE));
    DigitsStandFor(value, base, upper, SIZE);
    SmallModulo(value, Power(base, SIZE));
  }

  /** A plain number read back is the number exactly when it has at most 32 digits. */
  lemma NumberReadsBack(value: nat, base: nat)
    requires IsBase(base)
    ensures ValueOf(Reverse(NumberText(value, false, base, 0, 0, NoFlags)), base) == value <==> value < Power(base, SIZE)
  {
    PlainNumber(value, false, base, NoFlags);
    assert NoFlags.(hash := false) == NoFlags;
    NoneInFront(Reverse(Digits(value, base, false, SIZE)));
    DigitsReadBack(value, base, false);
  }

  lemma {:induction false} PowerMonotone(base: nat, m: nat, n: nat)
    requires IsBase(base) && m <= n
    ensures Power(base, m) <= Power(base, n)
    decreases n
  {
    if m < n {
      PowerMonotone(base, m, n - 1);
      MulLe(1, base, Power(base, n - 1));
      PowerPositive(base, n - 1);
    }
  }

  /** All conversions but the binary one have room for every 64-bit value. */
  lemma RoomForDigits(c: char)
    requires IsInteger(c) && c != 'b'
    ensures Power(BaseOf(c), 22) > TWO64 && Power(BaseOf(c), SIZE) > TWO64
    ensures BaseOf(c) == 10 ==> Power(BaseOf(c), 20) > TWO64
  {
    var base := BaseOf(c);
    if base == 10 {
      TenTo20();
      PowerMonotone(10, 20, 22);
    } else if base == 8 {
      assert Power(8, 6) == 0x4_0000;
      assert Power(8, 12) == 0x10_0000_0000;
      assert Power(8, 18) == 0x40_0000_0000_0000;
      assert Power(8, 22) == 0x4_0000_0000_0000_0000;
    } else {
      assert Power(16, 5) == 0x10_0000;
      assert Power(16, 10) == 0x100_0000_0000;
      assert Power(16, 15) == 0x1000_0000_0000_0000;
      assert Power(16, 17) == 0x10_0000_0000_0000_0000;
      PowerMonotone(16, 17, 22);
    }
    PowerMonotone(base, 22, SIZE);
  }

  /** Only the signed conversions write a sign, and they are decimal and without prefix. */
  lemma SignIsDecimal(c: char, flags: Flags, bits: u64, f: Flags)
    requires IsInteger(c) && f == IntegerFlags(c, flags)
    ensures SignText(IntegerArg(c, flags, bits) < 0, f) != "" ==> BaseOf(c) == 10 && !f.hash
  {
  }

  lemma ArgFits(c: char, flags: Flags, bits: u64)
    ensures Magnitude(IntegerArg(c, flags, bits)) < TWO64
  {
  }

  function WithSign(negative: bool, magnitude: nat): int {
    if negative then 0 - magnitude else magnitude
  }

  /** Its digits, the first first. */
  function IntegerDigits(c: char, s: Spec, bits: u64): string
    requires IsInteger(c)
  {
    Reverse(Digits(Magnitude(IntegerArg(c, s.flags, bits)), BaseOf(c), IntegerFlags(c, s.flags).upper, SIZE))
  }

  lemma EnoughRoom(c: char, m: nat, upper: bool)
    requires IsInteger(c) && c != 'b' && m < TWO64
    ensures m < Power(BaseOf(c), SIZE) && |Digits(m, BaseOf(c), upper, SIZE)| <= 22
  {
    RoomForDigits(c);
    FewDigits(m, BaseOf(c), upper, SIZE, 22);
  }

  /** All but the binary one have room for all digits, beside sign and prefix. */
  lemma IntegerRoom(c: char, s: Spec, bits: u64)
    requires IsInteger(c) && c != 'b'
    ensures Magnitude(IntegerArg(c, s.flags, bits)) < Power(BaseOf(c), SIZE) && |IntegerDigits(c, s, bits)| <= 22
  {
    ArgFits(c, s.flags, bits);
    EnoughRoom(c, Magnitude(IntegerArg(c, s.flags, bits)), IntegerFlags(c, s.flags).upper);
  }

  lemma PlainInteger(text: string, m: nat, negative: bool, c: char, s: Spec, flags: Flags)
    requires IsInteger(c) && m < TWO64 && s.width == 0 && s.precision == 0 && !flags.precision
    requires SignText(negative, flags) != "" ==> BaseOf(c) == 10 && !flags.hash
    requires text == NumberText(m, negative, BaseOf(c), s.precision, s.width, flags)
    ensures text == PlainText(m, negative, BaseOf(c), flags, Reverse(Digits(m, BaseOf(c), flags.upper, SIZE)))
  {
    if c != 'b' {
      EnoughRoom(c, m, flags.upper);
    }
    PlainNumber(m, negative, BaseOf(c), flags);
  }

  /** Every integer conversion without width and precision, whatever its other flags and its length, writes a
      sign, a prefix and digits. */
  lemma IntegerIsPlain(c: char, s: Spec, bits: u64)
    requires IsInteger(c) && s.width == 0 && s.precision == 0 && !s.flags.precision
    ensures var v := IntegerArg(c, s.flags, bits);
      IntegerText(c, s, bits) == PlainText(Magnitude(v), v < 0, BaseOf(c), IntegerFlags(c, s.flags), IntegerDigits(c, s, bits))
  {
    var v, flags := IntegerArg(c, s.flags, bits), IntegerFlags(c, s.flags);
    SignIsDecimal(c, s.flags, bits, flags);
    ArgFits(c, s.flags, bits);
    PlainInteger(IntegerText(c, s, bits), Magnitude(v), v < 0, c, s, flags);
  }

  /** The digits read back, first digit first and with the sign, are the value of the argument exactly when
      its magnitude has at most 32 digits, as it always does but in binary. */
  lemma IntegerReadsBack(c: char, s: Spec, bits: u64)
    requires IsInteger(c)
    ensures var v := IntegerArg(c, s.flags, bits);
      (WithSign(v < 0, ValueOf(Reverse(IntegerDigits(c, s, bits)), BaseOf(c))) == v)
        <==> (Magnitude(v) < Power(BaseOf(c), SIZE))
  {
    DigitsReadBack(Magnitude(IntegerArg(c, s.flags, bits)), BaseOf(c), IntegerFlags(c, s.flags).upper);
  }

  lemma SmallModulo(value: nat, p: nat)
    requires p > 0
    ensures value % p == value <==> value < p
  {
    if value < p {
      DivModUnique(value, p, 0, value);
    }
  }

  // ----- the sign

  lemma {:induction false} ZerosLength(buf: string, n: nat)
    ensures |ZerosTo(buf, n)| == if |buf| < n && |buf| < SIZE then (if n < SIZE then n else SIZE) else |buf|
    decreases SIZE - |buf|
  {
    if |buf| < n && |buf| < SIZE {
      ZerosLength(buf + ['0'], n);
    }
  }

  lemma {:induction false} ZerosAddNoSign(buf: string, n: nat)
    requires '-' !in buf
    ensures '-' !in ZerosTo(buf, n)
    decreases SIZE - |buf|
  {
    if |buf| < n && |buf| < SIZE {
      ZerosAddNoSign(buf + ['0'], n);
    }
  }

  lemma {:induction false} DigitsAreNoSign(value: nat, base: nat, upper: bool, room: nat)
    requires IsBase(base)
    ensures '-' !in Digits(value, base, upper, room)
    decreases room
  {
    if room > 0 && value / base != 0 {
      DigitsAreNoSign(value / base, base, upper, room - 1);
    }
  }

  lemma {:induction false} SpacesAreNoSign(n: nat)
    ensures '-' !in Repeat(' ', n)
  {
    if n > 0 {
      SpacesAreNoSign(n - 1);
    }
  }

  lemma {:induction false} SignInReverse(s: string)
    ensures '-' in Reverse(s) <==> '-' in s
  {
    if s != "" {
      var front := s[..|s| - 1];
      SignInReverse(front);
      assert s == front + [s[|s| - 1]];
    }
  }

  /** A value below the n-th power of the base has at most n digits. */
  lemma {:induction false} FewDigits(value: nat, base: nat, upper: bool, room: nat, n: nat)
    requires IsBase(base) && n > 0 && value < Power(base, n)
    ensures |Digits(value, base, upper, room)| <= n
    decreases room
  {
    var rest, last := value / base, value % base;
    if room > 0 && rest != 0 {
      QuotientBelow(value, base, rest, last, Power(base, n - 1));
      FewDigits(rest, base, upper, room - 1, n - 1);
    }
  }

  lemma QuotientBelow(value: nat, base: nat, rest: nat, last: nat, p: nat)
    requires value == base * rest + last && value < base * p
    ensures rest < p
  {
    if rest >= p {
      MulLe(p, rest, base);
    }
  }

  lemma TenTo20()
    ensures Power(10, 20) == 100000000000000000000
  {
    assert Power(10, 5) == 100000;
    assert Power(10, 10) == 10000000000;
    assert Power(10, 15) == 1000000000000000;
  }

  /** The sign of a negative decimal number is written exactly when zeros do not fill the 32 places of the
      conversion first. */
  lemma SignIsKept(value: u64, prec: nat, width: nat, flags: Flags)
    requires !flags.hash
    ensures '-' in NumberText(value, true, 10, prec, width, flags)
        <==> flags.left || (prec < SIZE && (!flags.zeroPad || width <= SIZE))
  {
    var digits := NumberDigits(value, 10, flags);
    var w := SignWidth(width, true, flags);
    var zeros := ZeroPadded(digits, prec, w, flags);
    TenTo20();
    FewDigits(value, 10, flags.upper, SIZE, 20);
    DigitsAreNoSign(value, 10, flags.upper, SIZE);
    ZerosLength(digits, prec);
    ZerosAddNoSign(digits, prec);
    ZerosLength(ZerosTo(digits, prec), w);
    ZerosAddNoSign(ZerosTo(digits, prec), w);
    assert |zeros| < SIZE <==> flags.left || (prec < SIZE && (!flags.zeroPad || width <= SIZE));
    var body := Add(zeros, '-');
    assert '-' in body <==> |zeros| < SIZE by {
      if |zeros| < SIZE {
        assert body[|zeros|] == '-';
      }
    }
    SignInRevText(body, w, flags);
  }

  lemma SignInRevText(body: string, width: nat, flags: Flags)
    ensures '-' in RevText(body, width, flags) <==> '-' in body
  {
    SignInReverse(body);
    SpacesAreNoSign(Missing(|body|, width));
  }
}
