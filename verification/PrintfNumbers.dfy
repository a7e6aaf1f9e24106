/** Formatted numbers in the order in which they are read: the code builds them backwards, in a buffer of 32
    characters. */
module PrintfNumbers {
  import opened Words
  import opened PowersOfTwo
  import opened Printf

  // ----- numerals

  function DigitOf(k: nat, upper: bool): char
    requires k < 16
  {
    if upper then "0123456789ABCDEF"[k] else "0123456789abcdef"[k]
  }

  /** The numeral of a number, the first digit first. */
  function Numeral(m: nat, base: nat, upper: bool): (s: string)
    requires IsBase(base)
    ensures |s| > 0
  {
    (if m < base then "" else Numeral(m / base, base, upper)) + [DigitOf(m % base, upper)]
  }

  /** The last characters of a text, as many as there is room for. */
  function Last(s: string, room: nat): string {
    if |s| <= room then s else s[|s| - room..]
  }

  /** The number that a text stands for, the first digit first. */
  function ReadAs(s: string, base: nat): nat {
    if s == "" then 0 else base * ReadAs(s[..|s| - 1], base) + DigitValue(s[|s| - 1])
  }

  lemma DigitIsRead(k: nat, upper: bool)
    requires k < 16
    ensures DigitValue(DigitOf(k, upper)) == k && DigitChar(k, upper) == DigitOf(k, upper)
  {
  }

  lemma ReadStep(front: string, c: char, base: nat)
    ensures ReadAs(front + [c], base) == base * ReadAs(front, base) + DigitValue(c)
  {
    assert (front + [c])[..|front|] == front;
  }

  lemma Shrinks(m: nat, base: nat)
    requires base > 1 && m >= base
    ensures 0 < m / base < m
  {
    DivMod(m, base);
    assert (m / base + 1) * base == m / base * base + base;
    MulCancelLt(1, m / base + 1, base);
    MulLe(2, base, m / base);
  }

  lemma SmallNumeral(m: nat, base: nat)
    requires m < base
    ensures m % base == m
  {
    DivModUnique(m, base, 0, m);
  }

  lemma {:induction false} NumeralReads(m: nat, base: nat, upper: bool, numeral: string)
    requires IsBase(base) && numeral == Numeral(m, base, upper)
    ensures ReadAs(numeral, base) == m && (m > 0 ==> DigitValue(numeral[0]) > 0)
    decreases m
  {
    var rest, last := m / base, m % base;
    DigitIsRead(last, upper);
    if m < base {
      SmallNumeral(m, base);
      ReadStep("", DigitOf(last, upper), base);
    } else {
      Shrinks(m, base);
      Recombined(m, base, rest, last);
      var front := Numeral(rest, base, upper);
      NumeralReads(rest, base, upper, front);
      ReadStep(front, DigitOf(last, upper), base);
    }
  }

  /** A numeral stands for its number, and begins with a zero for zero only. */
  lemma NumeralIsRead(m: nat, base: nat, upper: bool)
    requires IsBase(base)
    ensures ReadAs(Numeral(m, base, upper), base) == m
    ensures m > 0 ==> DigitValue(Numeral(m, base, upper)[0]) > 0
  {
    NumeralReads(m, base, upper, Numeral(m, base, upper));
  }

  // ----- what is written

  function Fill(c: char, n: int): (s: string)
    ensures |s| == if n > 0 then n else 0
  {
    Repeat(c, if n > 0 then n else 0)
  }

  lemma {:induction false} FillIs(c: char, n: nat, i: nat)
    requires i < n
    ensures Fill(c, n)[i] == c
  {
    if i < n - 1 {
      FillIs(c, n - 1, i);
    }
  }

  function SignOf(negative: bool, plus: bool, space: bool): string {
    if negative then "-" else if plus then "+" else if space then " " else ""
  }

  function PrefixOf(base: nat, upper: bool): string {
    if base == 16 then (if upper then "0X" else "0x") else if base == 2 then "0b" else "0"
  }

  /** Where the digits fill the width (or would, if it counts) some are given up for the prefix, whether they are
      padding or not. */
  function Cut(digits: nat, base: nat, fills: bool): nat {
    if !fills then 0 else if base == 16 && digits > 1 then 2 else 1
  }

  /** The digits with a prefix, of which the end is written if there is no room for all. */
  function Marked(digits: string, base: nat, upper: bool, fills: bool): (r: string)
    requires 0 < |digits| <= 32
    ensures |r| <= 32
  {
    var kept := digits[Cut(|digits|, base, fills)..];
    Last(PrefixOf(base, upper), 32 - |kept|) + kept
  }

  /** The digits with the zeros that pad them. */
  function ZeroFilled(digits: string, left: bool, zero: bool, room: nat, precision: nat): (r: string)
    requires |digits| <= 32
    ensures |digits| <= |r| <= 32
  {
    var least := if left then 0 else if zero && room > precision then room else precision;
    Fill('0', (if least < 32 then least else 32) - |digits|) + digits
  }

  /** How a number is to be laid out. */
  datatype Layout = Layout(left: bool, zero: bool, sharp: bool, upper: bool, precise: bool, width: nat, precision: nat)

  /** A text in its field: spaces on the right, on the left, or none. */
  function Placed(text: string, left: bool, zero: bool, room: nat): string {
    if left then text + Fill(' ', room - |text|) else if zero then text else Fill(' ', room - |text|) + text
  }

  /** Where the sign and zeros are to fill the field one place of the width is the sign's. */
  function Room(l: Layout, signs: bool): nat {
    if !l.left && l.zero && signs && l.width > 0 then l.width - 1 else l.width
  }

  /** Sign, prefix, zeros and digits, as far as they fit in 32 characters, the least first to go being the sign. */
  function Whole(digits: string, sign: string, base: nat, l: Layout, room: nat): string
    requires |digits| <= 32 && (l.sharp ==> digits != "")
  {
    var padded := ZeroFilled(digits, l.left, l.zero, room, l.precision);
    var marked := if l.sharp then Marked(padded, base, l.upper, !l.precise && |padded| == room) else padded;
    if |marked| < 32 then sign + marked else marked
  }

  function InField(digits: string, sign: string, base: nat, l: Layout): string
    requires |digits| <= 32 && (l.sharp ==> digits != "")
  {
    Placed(Whole(digits, sign, base, l, Room(l, sign != "")), l.left, l.zero, Room(l, sign != ""))
  }

  /** A number in its field; zero has no prefix, and with a precision no digits. */
  function NumberField(m: nat, negative: bool, base: nat, plus: bool, space: bool, l: Layout): string
    requires IsBase(base)
  {
    var digits := if l.precise && m == 0 then "" else Last(Numeral(m, base, l.upper), 32);
    InField(digits, SignOf(negative, plus, space), base, l.(sharp := l.sharp && m != 0))
  }

  // ----- that it is what the code writes

  lemma {:induction false} FillInFront(c: char, n: nat)
    ensures [c] + Fill(c, n) == Fill(c, n + 1)
  {
    if n > 0 {
      FillInFront(c, n - 1);
      assert [c] + (Fill(c, n - 1) + [c]) == [c] + Fill(c, n - 1) + [c];
    }
  }

  lemma Grouped(a: string, b: string, c: string)
    ensures a + (b + c) == a + b + c
  {
  }

  lemma {:induction false} ReversedFill(buf: string, c: char, n: nat)
    ensures Reverse(buf + Fill(c, n)) == Fill(c, n) + Reverse(buf)
  {
    if n == 0 {
      assert buf + "" == buf && "" + Reverse(buf) == Reverse(buf);
    } else {
      var fewer := Fill(c, n - 1);
      ReversedFill(buf, c, n - 1);
      Grouped(buf, fewer, [c]);
      ReverseAdded(buf + fewer, c);
      FillInFront(c, n - 1);
      Grouped([c], fewer, Reverse(buf));
    }
  }

  lemma {:induction false} ZerosAreFill(buf: string, n: nat)
    requires |buf| <= 32
    ensures ZerosTo(buf, n) == buf + Fill('0', (if n < 32 then n else 32) - |buf|)
    decreases 32 - |buf|
  {
    if |buf| < n && |buf| < 32 {
      var more := (if n < 32 then n else 32) - |buf|;
      ZerosAreFill(buf + ['0'], n);
      FillInFront('0', more - 1);
      assert buf + ['0'] + Fill('0', more - 1) == buf + (['0'] + Fill('0', more - 1));
    } else {
      assert buf + "" == buf;
    }
  }

  lemma LastStep(front: string, c: char, room: nat)
    requires room > 0
    ensures Last(front + [c], room) == Last(front, room - 1) + [c]
  {
  }

  lemma DigitsSplit(m: nat, base: nat, upper: bool, room: nat)
    requires IsBase(base) && room > 0
    ensures Digits(m, base, upper, room)
         == [DigitOf(m % base, upper)] + if m < base then "" else Digits(m / base, base, upper, room - 1)
  {
    DigitIsRead(m % base, upper);
    if m < base {
      QuotientZero(m, base);
    } else {
      Shrinks(m, base);
    }
  }

  lemma ReversedDigit(c: char, more: string, front: string, room: nat)
    requires room > 0 && Reverse(more) == Last(front, room - 1)
    ensures Reverse([c] + more) == Last(front + [c], room)
  {
    ReverseOf(c, more);
    LastStep(front, c, room);
  }

  /** The digits, which come last first, in reading order. */
  lemma {:induction false} DigitsAreNumeral(m: nat, base: nat, upper: bool, room: nat, digits: string, numeral: string)
    requires IsBase(base) && digits == Digits(m, base, upper, room) && numeral == Numeral(m, base, upper)
    ensures Reverse(digits) == Last(numeral, room)
    decreases room
  {
    if room == 0 {
      NoRoom(numeral);
    } else {
      var c := DigitOf(m % base, upper);
      DigitsSplit(m, base, upper, room);
      if m < base {
        ReversedDigit(c, "", "", room);
      } else {
        Shrinks(m, base);
        var rest := m / base;
        var more, front := Digits(rest, base, upper, room - 1), Numeral(rest, base, upper);
        DigitsAreNumeral(rest, base, upper, room - 1, more, front);
        ReversedDigit(c, more, front, room);
      }
    }
  }

  lemma NoRoom(s: string)
    ensures Last(s, 0) == ""
  {
  }

  lemma QuotientZero(m: nat, base: nat)
    requires m < base
    ensures m / base == 0
  {
    DivModUnique(m, base, 0, m);
  }

  lemma {:induction false} ReversedFront(buf: string, cut: nat)
    requires cut <= |buf|
    ensures Reverse(buf[..|buf| - cut]) == Reverse(buf)[cut..]
  {
    if cut == 0 {
      assert buf[..|buf|] == buf;
    } else {
      var front := buf[..|buf| - cut + 1];
      ReversedFront(buf, cut - 1);
      assert front[..|front| - 1] == buf[..|buf| - cut];
      assert Reverse(front)[1..] == Reverse(buf[..|buf| - cut]);
      assert Reverse(buf)[cut - 1..][1..] == Reverse(buf)[cut..];
    }
  }

  /** The signs and marks that the code adds to the end of its buffer. */
  lemma ReversedAdd(buf: string, c: char)
    requires |buf| <= 32
    ensures Reverse(Add(buf, c)) == (if |buf| < 32 then [c] + Reverse(buf) else Reverse(buf))
  {
    ReverseAdded(buf, c);
  }

  lemma {:induction false} TwoFills(c: char, a: nat, b: nat, s: string)
    ensures Fill(c, b) + (Fill(c, a) + s) == Fill(c, a + b) + s
    decreases b
  {
    if b == 0 {
      assert "" + (Fill(c, a) + s) == Fill(c, a) + s;
    } else {
      TwoFills(c, a, b - 1, s);
      FillInFront(c, b - 1);
      FillInFront(c, a + b - 1);
      assert [c] + Fill(c, b - 1) + (Fill(c, a) + s) == [c] + (Fill(c, b - 1) + (Fill(c, a) + s));
      assert [c] + (Fill(c, a + b - 1) + s) == [c] + Fill(c, a + b - 1) + s;
    }
  }

  /** Zeros up to n of the 32 places. */
  lemma ZerosRead(buf: string, n: nat) returns (more: nat)
    requires |buf| <= 32
    ensures more == if (if n < 32 then n else 32) > |buf| then (if n < 32 then n else 32) - |buf| else 0
    ensures |ZerosTo(buf, n)| == |buf| + more <= 32
    ensures Reverse(ZerosTo(buf, n)) == Fill('0', more) + Reverse(buf)
  {
    more := if (if n < 32 then n else 32) > |buf| then (if n < 32 then n else 32) - |buf| else 0;
    ZerosAreFill(buf, n);
    ReversedFill(buf, '0', more);
  }

  lemma ZeroPaddedIs(buf: string, prec: nat, width: nat, flags: Flags)
    requires |buf| <= 32
    ensures |ZeroPadded(buf, prec, width, flags)| <= 32
    ensures Reverse(ZeroPadded(buf, prec, width, flags))
         == ZeroFilled(Reverse(buf), flags.left, flags.zeroPad, width, prec)
  {
    if flags.left {
      assert "" + Reverse(buf) == Reverse(buf);
    } else {
      var more := ZerosRead(buf, prec);
      if flags.zeroPad {
        var again := ZerosRead(ZerosTo(buf, prec), width);
        TwoFills('0', more, again, Reverse(buf));
      }
    }
  }

  lemma OneMark(kept: string)
    requires |kept| <= 32
    ensures |Add(kept, '0')| <= 32 && Reverse(Add(kept, '0')) == Last("0", 32 - |kept|) + Reverse(kept)
  {
    ReversedAdd(kept, '0');
    assert "" + Reverse(kept) == Reverse(kept);
  }

  lemma TwoMarks(kept: string, mark: char)
    requires |kept| <= 32
    ensures |Add(Add(kept, mark), '0')| <= 32
    ensures Reverse(Add(Add(kept, mark), '0')) == Last(['0', mark], 32 - |kept|) + Reverse(kept)
  {
    var once := Add(kept, mark);
    ReversedAdd(kept, mark);
    ReversedAdd(once, '0');
    Grouped(['0'], [mark], Reverse(kept));
    assert "" + Reverse(kept) == Reverse(kept);
  }

  /** What the code adds for a prefix, to the digits it keeps. */
  function WithMarks(kept: string, base: nat, upper: bool): string {
    if base == 16 then Add(Add(kept, if upper then 'X' else 'x'), '0')
    else if base == 2 then Add(Add(kept, 'b'), '0')
    else Add(kept, '0')
  }

  lemma MarksAre(kept: string, base: nat, upper: bool)
    requires |kept| <= 32
    ensures |WithMarks(kept, base, upper)| <= 32
    ensures Reverse(WithMarks(kept, base, upper)) == Last(PrefixOf(base, upper), 32 - |kept|) + Reverse(kept)
  {
    if base == 16 {
      TwoMarks(kept, if upper then 'X' else 'x');
    } else if base == 2 {
      TwoMarks(kept, 'b');
    } else {
      OneMark(kept);
    }
  }

  lemma PrefixedCut(buf: string, cut: nat, base: nat, prec: nat, width: nat, flags: Flags)
    requires 0 < |buf| && flags.hash && (flags.precision || prec == 0)
    requires cut == if flags.precision || |buf| != width then 0 else if base == 16 && |buf| > 1 then 2 else 1
    ensures cut <= |buf| && Prefixed(buf, base, prec, width, flags) == WithMarks(buf[..|buf| - cut], base, flags.upper)
  {
    assert buf[..|buf|] == buf;
  }

  lemma MarkedIs(buf: string, cut: nat, base: nat, upper: bool, fills: bool)
    requires 0 < |buf| <= 32 && cut == Cut(|buf|, base, fills)
    ensures cut <= |buf|
    ensures Marked(Reverse(buf), base, upper, fills)
         == Last(PrefixOf(base, upper), 32 - |buf| + cut) + Reverse(buf[..|buf| - cut])
  {
    ReversedFront(buf, cut);
  }

  lemma PrefixedIs(buf: string, base: nat, prec: nat, width: nat, flags: Flags)
    requires 0 < |buf| <= 32 && flags.hash && IsBase(base) && (flags.precision || prec == 0)
    ensures |Prefixed(buf, base, prec, width, flags)| <= 32
    ensures Reverse(Prefixed(buf, base, prec, width, flags))
         == Marked(Reverse(buf), base, flags.upper, !flags.precision && |buf| == width)
  {
    var cut := Cut(|buf|, base, !flags.precision && |buf| == width);
    PrefixedCut(buf, cut, base, prec, width, flags);
    MarksAre(buf[..|buf| - cut], base, flags.upper);
    MarkedIs(buf, cut, base, flags.upper, !flags.precision && |buf| == width);
  }

  lemma SignedIs(buf: string, negative: bool, flags: Flags)
    requires |buf| <= 32
    ensures Reverse(Signed(buf, negative, flags))
         == (if |buf| < 32 then SignOf(negative, flags.plus, flags.space) + Reverse(buf) else Reverse(buf))
  {
    ReversedAdd(buf, '-');
    ReversedAdd(buf, '+');
    ReversedAdd(buf, ' ');
    assert "" + Reverse(buf) == Reverse(buf);
  }

  lemma Sides(digits: string, spaces: string)
    ensures "" + digits + spaces == digits + spaces && spaces + digits + "" == spaces + digits && "" + digits + "" == digits
  {
  }

  lemma RevTextIs(buf: string, width: nat, flags: Flags)
    ensures RevText(buf, width, flags) == Placed(Reverse(buf), flags.left, flags.zeroPad, width)
  {
    Sides(Reverse(buf), Repeat(' ', Missing(|buf|, width)));
  }

  function LayoutOf(f: Flags, width: nat, precision: nat): Layout {
    Layout(f.left, f.zeroPad, f.hash, f.upper, f.precision, width, precision)
  }

  lemma BodyIs(buf: string, negative: bool, base: nat, prec: nat, width: nat, room: nat, f: Flags)
    requires |buf| <= 32 && IsBase(base) && (f.hash ==> buf != "") && (f.precision || prec == 0)
    ensures Reverse(Body(buf, negative, base, prec, room, f))
         == Whole(Reverse(buf), SignOf(negative, f.plus, f.space), base, LayoutOf(f, width, prec), room)
  {
    ZeroPaddedIs(buf, prec, room, f);
    var padded := ZeroPadded(buf, prec, room, f);
    if f.hash {
      PrefixedIs(padded, base, prec, room, f);
    }
    SignedIs(Prefixed(padded, base, prec, room, f), negative, f);
  }

  lemma FormatTextIs(buf: string, negative: bool, base: nat, prec: nat, width: nat, f: Flags)
    requires |buf| <= 32 && IsBase(base) && (f.hash ==> buf != "") && (f.precision || prec == 0)
    ensures FormatText(buf, negative, base, prec, width, f)
         == InField(Reverse(buf), SignOf(negative, f.plus, f.space), base, LayoutOf(f, width, prec))
  {
    var room := SignWidth(width, negative, f);
    BodyIs(buf, negative, base, prec, width, room, f);
    RevTextIs(Body(buf, negative, base, prec, room, f), room, f);
  }

  /** The code writes the number in its field. */
  lemma NumberTextIs(m: nat, negative: bool, base: nat, prec: nat, width: nat, flags: Flags)
    requires IsBase(base) && (flags.precision || prec == 0)
    ensures NumberText(m, negative, base, prec, width, flags)
         == NumberField(m, negative, base, flags.plus, flags.space, LayoutOf(flags, width, prec))
  {
    var f := if m == 0 then flags.(hash := false) else flags;
    var digits, numeral := Digits(m, base, flags.upper, 32), Numeral(m, base, flags.upper);
    DigitsAreNumeral(m, base, flags.upper, 32, digits, numeral);
    FormatTextIs(NumberDigits(m, base, flags), negative, base, prec, width, f);
  }

  // ----- what can be read off it

  lemma {:induction false} ReadFirst(s: string, base: nat)
    requires s != ""
    ensures ReadAs(s, base) == DigitValue(s[0]) * Power(base, |s| - 1) + ReadAs(s[1..], base)
  {
    var front, c := s[..|s| - 1], s[|s| - 1];
    if |s| == 1 {
      assert front == "" && s[1..] == "";
    } else {
      ReadFirst(front, base);
      assert s[1..] == front[1..] + [c];
      ReadStep(front[1..], c, base);
      Distribute(base, DigitValue(s[0]), Power(base, |s| - 2), ReadAs(front[1..], base));
    }
  }

  lemma Distribute(b: int, d: int, p: int, r: int)
    ensures b * (d * p + r) == d * (b * p) + b * r
  {
  }

  lemma ZeroInFront(s: string, base: nat)
    ensures ReadAs(['0'] + s, base) == ReadAs(s, base)
  {
    var whole := ['0'] + s;
    ReadFirst(whole, base);
    assert whole[1..] == s;
  }

  /** Zeros in front change nothing. */
  lemma {:induction false} ZerosInFront(s: string, base: nat, n: nat)
    ensures ReadAs(Fill('0', n) + s, base) == ReadAs(s, base)
  {
    if n == 0 {
      assert "" + s == s;
    } else {
      var fewer := Fill('0', n - 1);
      ZerosInFront(s, base, n - 1);
      FillInFront('0', n - 1);
      Grouped(['0'], fewer, s);
      ZeroInFront(fewer + s, base);
    }
  }

  /** Zeros and digits read back are the number. */
  lemma PaddedIsRead(m: nat, base: nat, upper: bool, left: bool, zero: bool, room: nat, precision: nat)
    requires IsBase(base) && |Numeral(m, base, upper)| <= 32
    ensures ReadAs(ZeroFilled(Numeral(m, base, upper), left, zero, room, precision), base) == m
  {
    var digits := Numeral(m, base, upper);
    var least := if left then 0 else if zero && room > precision then room else precision;
    var n := (if least < 32 then least else 32) - |digits|;
    NumeralIsRead(m, base, upper);
    ZerosInFront(digits, base, if n > 0 then n else 0);
  }

  lemma {:induction false} DropsFirst(s: string, base: nat, n: nat)
    requires 0 < n <= |s| && DigitValue(s[0]) > 0 && base > 0
    ensures ReadAs(s[n..], base) < ReadAs(s, base)
  {
    ReadFirst(s, base);
    PowerAbove(base, |s| - 1);
    MulLe(1, DigitValue(s[0]), Power(base, |s| - 1));
    if n > 1 {
      DropsSome(s[1..], base, n - 1);
      assert s[1..][n - 1..] == s[n..];
    }
  }

  lemma {:induction false} DropsSome(s: string, base: nat, n: nat)
    requires n <= |s|
    ensures ReadAs(s[n..], base) <= ReadAs(s, base)
  {
    if n > 0 {
      ReadFirst(s, base);
      MulLe(0, DigitValue(s[0]), Power(base, |s| - 1));
      DropsSome(s[1..], base, n - 1);
      assert s[1..][n - 1..] == s[n..];
    } else {
      assert s[0..] == s;
    }
  }

  lemma {:induction false} PowerAbove(base: nat, n: nat)
    requires base > 0
    ensures Power(base, n) >= 1
  {
    if n > 0 {
      PowerAbove(base, n - 1);
      MulLe(1, base, Power(base, n - 1));
    }
  }

  /** Giving up places for a prefix keeps the number exactly when they hold nothing but padding. */
  lemma CutKeepsIff(m: nat, base: nat, upper: bool, zeros: nat, cut: nat)
    requires IsBase(base) && m > 0 && cut <= zeros + |Numeral(m, base, upper)|
    ensures ReadAs((Fill('0', zeros) + Numeral(m, base, upper))[cut..], base) == m <==> cut <= zeros
  {
    var digits := Numeral(m, base, upper);
    NumeralIsRead(m, base, upper);
    if cut <= zeros {
      FillTail('0', zeros, cut, digits);
      ZerosInFront(digits, base, zeros - cut);
    } else {
      assert (Fill('0', zeros) + digits)[cut..] == digits[cut - zeros..];
      DropsFirst(digits, base, cut - zeros);
    }
  }

  lemma {:induction false} FillTail(c: char, n: nat, k: nat, s: string)
    requires k <= n
    ensures (Fill(c, n) + s)[k..] == Fill(c, n - k) + s
    decreases k
  {
    if k > 0 {
      FillInFront(c, n - 1);
      Grouped([c], Fill(c, n - 1), s);
      FillTail(c, n - 1, k - 1, s);
      assert (Fill(c, n) + s)[k..] == (Fill(c, n - 1) + s)[k - 1..];
    }
  }

  /** The field is filled, and not by enough zeros to make way for a prefix: one, or in base 16 two. */
  predicate NoSparePlaces(digits: nat, l: Layout, base: nat, room: nat) {
    if l.zero && !l.left then digits <= room <= 32 && room < digits + (if base == 16 && room > 1 then 2 else 1)
    else room == digits
  }

  lemma CutIs(digits: string, l: Layout, base: nat, room: nat) returns (zeros: nat, cut: nat)
    requires 0 < |digits| <= 32
    ensures var padded := ZeroFilled(digits, l.left, l.zero, room, 0);
      padded == Fill('0', zeros) + digits && cut == Cut(|padded|, base, |padded| == room) <= |padded|
    ensures cut <= zeros <==> !NoSparePlaces(|digits|, l, base, room)
  {
    var padded := ZeroFilled(digits, l.left, l.zero, room, 0);
    zeros, cut := |padded| - |digits|, Cut(|padded|, base, |padded| == room);
  }

  /** With a prefix the digits that stay are those of the number exactly when there are places to spare for it: "%#4x" of
      0x1234 is 0x34. */
  lemma PrefixKeepsIff(m: nat, base: nat, l: Layout, room: nat, digits: string, padded: string)
    requires IsBase(base) && m > 0 && digits == Numeral(m, base, l.upper) && |digits| <= 32
    requires padded == ZeroFilled(digits, l.left, l.zero, room, 0)
    ensures ReadAs(padded[Cut(|padded|, base, |padded| == room)..], base) == m <==> !NoSparePlaces(|digits|, l, base, room)
  {
    var zeros, cut := CutIs(digits, l, base, room);
    CutKeepsIff(m, base, l.upper, zeros, cut);
  }

  /** A number below the n-th power of the base has at most n digits. */
  lemma {:induction false} NumeralShort(m: nat, base: nat, upper: bool, n: nat, numeral: string)
    requires IsBase(base) && n > 0 && m < Power(base, n) && numeral == Numeral(m, base, upper)
    ensures |numeral| <= n
    decreases m
  {
    if m >= base {
      var rest, last := m / base, m % base;
      Shrinks(m, base);
      Recombined(m, base, rest, last);
      QuotientBelow(m, base, rest, last, Power(base, n - 1));
      NumeralShort(rest, base, upper, n - 1, Numeral(rest, base, upper));
    }
  }

  lemma PlainWhole(digits: string, sign: string, base: nat, l: Layout)
    requires l.width == 0 && l.precision == 0 && !l.precise && 0 < |digits| <= 29
    ensures InField(digits, sign, base, l) == sign + ((if l.sharp then PrefixOf(base, l.upper) else "") + digits)
  {
    var marked := (if l.sharp then PrefixOf(base, l.upper) else "") + digits;
    assert "" + digits == digits && digits[0..] == digits;
    assert ZeroFilled(digits, l.left, l.zero, 0, 0) == digits;
    assert Whole(digits, sign, base, l, 0) == sign + marked;
    NoSpaces(sign + marked, l.left, l.zero);
  }

  lemma NoSpaces(text: string, left: bool, zero: bool)
    ensures Placed(text, left, zero, 0) == text
  {
    assert text + "" == text && "" + text == text;
  }

  /** A number without width and precision is its sign and its numeral, with a prefix if it is to have one. */
  lemma PlainField(m: nat, negative: bool, base: nat, plus: bool, space: bool, l: Layout, numeral: string)
    requires IsBase(base) && l.width == 0 && l.precision == 0 && !l.precise && numeral == Numeral(m, base, l.upper)
    requires |numeral| <= 29
    ensures NumberField(m, negative, base, plus, space, l)
         == SignOf(negative, plus, space) + ((if l.sharp && m != 0 then PrefixOf(base, l.upper) else "") + numeral)
  {
    PlainWhole(numeral, SignOf(negative, plus, space), base, l.(sharp := l.sharp && m != 0));
  }

  lemma FourDigits()
    ensures Numeral(0x1234, 16, false) == "1234"
  {
    assert Numeral(1, 16, false) == "1";
    assert Numeral(0x12, 16, false) == "12";
    assert Numeral(0x123, 16, false) == "123";
  }

  /** A width can cost a number its first digits: with a prefix 0x1234 is written 0x34 in a field of four places, */
  lemma WidthCostsDigits(l: Layout)
    requires l == Layout(false, false, true, false, false, 4, 0)
    ensures NumberField(0x1234, false, 16, false, false, l) == "0x34"
  {
    FourDigits();
    assert ZeroFilled("1234", false, false, 4, 0) == "1234";
    assert Marked("1234", 16, false, true) == "0x34";
    assert Whole("1234", "", 16, l, 4) == "0x34";
    assert Placed("0x34", false, false, 4) == "0x34";
  }

  /** and 0x1234 without a width. */
  lemma NoWidthKeepsDigits(l: Layout)
    requires l == Layout(false, false, true, false, false, 0, 0)
    ensures NumberField(0x1234, false, 16, false, false, l) == "0x1234"
  {
    FourDigits();
    PlainField(0x1234, false, 16, false, false, l, "1234");
    OnlyPrefix();
  }

  lemma OnlyPrefix()
    ensures SignOf(false, false, false) + (PrefixOf(16, false) + "1234") == "0x1234"
  {
  }
}
