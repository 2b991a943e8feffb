/** Integers formatted by the printf family. Text is a sequence of characters; the
    null terminator of a C string is its end. */
module Format {
  import opened Basics

  datatype Flags = Flags(minus: bool, plus: bool, space: bool, pound: bool, zero: bool, group: bool)

  /** A parsed conversion. A negative precision means that none was given. */
  datatype Conversion = Conversion(flags: Flags, width: nat, precision: int)

  datatype Base = Base(base: nat, digits: string, x: string, group: nat)

  const DECIMAL := Base(10, "0123456789", "", 3)
  const OCTAL := Base(8, "01234567", "", 3)
  const HEX := Base(16, "0123456789abcdef", "x", 4)
  const UPPER_HEX := Base(16, "0123456789ABCDEF", "X", 4)

  predicate IsBase(b: Base) {
    b == DECIMAL || b == OCTAL || b == HEX || b == UPPER_HEX
  }

  const BUFFER_SIZE := 64

  // --------------------------------------------------------------------------
  // What the digits are worth

  function DigitValue(ch: char): nat {
    if '0' <= ch <= '9' then ch as nat - '0' as nat
    else if 'a' <= ch <= 'f' then ch as nat - 'a' as nat + 10
    else if 'A' <= ch <= 'F' then ch as nat - 'A' as nat + 10
    else 0
  }

  /** The value of digits, the most significant first; group separators do not count. */
  function Value(s: string, base: nat): nat {
    if s == "" then 0
    else if s[|s| - 1] == ',' then Value(s[..|s| - 1], base)
    else Value(s[..|s| - 1], base) * base + DigitValue(s[|s| - 1])
  }

  function Separator(b: Base, group: bool, count: nat): string
    requires b.group > 0
  {
    if group && count > 0 && count % b.group == 0 then "," else ""
  }

  /** The digits of a value as they are put into the buffer, the least significant first. */
  function Digits(value: nat, b: Base, group: bool, count: nat): string
    requires IsBase(b)
  {
    if value == 0 then ""
    else
      Separator(b, group, count)
      + [b.digits[value % b.base]] + Digits(value / b.base, b, group, count + 1)
  }

  function Repeat(ch: char, n: nat): (s: string)
    ensures |s| == n
  {
    seq(n, _ => ch)
  }

  function Reverse(s: string): (r: string)
    ensures |r| == |s|
  {
    if s == "" then "" else Reverse(s[1..]) + [s[0]]
  }

  lemma DigitOfBase(b: Base, d: nat)
    requires IsBase(b) && d < b.base
    ensures d < |b.digits| && DigitValue(b.digits[d]) == d && b.digits[d] != ','
    ensures b.base <= 10 ==> '0' <= b.digits[d] <= '9'
  {
  }

  lemma ValueSnoc(s: string, ch: char, base: nat)
    ensures Value(s + [ch], base) == if ch == ',' then Value(s, base) else Value(s, base) * base + DigitValue(ch)
  {
    assert (s + [ch])[..|s|] == s;
  }

  lemma ReverseCons(ch: char, s: string)
    ensures Reverse([ch] + s) == Reverse(s) + [ch]
  {
    assert ([ch] + s)[1..] == s;
  }

  /** One digit more, with or without a separator before it in the buffer. */
  lemma DigitAdded(separator: string, digit: char, rest: string, base: nat)
    requires (separator == "" || separator == ",") && digit != ','
    ensures Value(Reverse(separator + [digit] + rest), base) == Value(Reverse(rest), base) * base + DigitValue(digit)
  {
    hide DigitValue, Reverse, Value;
    var s := [digit] + rest;
    ReverseCons(digit, rest);
    ValueSnoc(Reverse(rest), digit, base);
    if separator == "," {
      ReverseCons(',', s);
      ValueSnoc(Reverse(s), ',', base);
      assert separator + [digit] + rest == [','] + s;
    } else {
      assert separator + [digit] + rest == s;
    }
  }

  /** The digits put into the buffer are worth the value, in every base and with or without separators. */
  lemma {:induction false} DigitsValue(value: nat, b: Base, group: bool, count: nat)
    requires IsBase(b)
    ensures Value(Reverse(Digits(value, b, group, count)), b.base) == value
    decreases value
  {
    hide DigitValue, Reverse, Value, Digits, IsBase;
    BaseFacts(b);
    if value > 0 {
      QuotientSmaller(value, b.base);
      DigitsValue(value / b.base, b, group, count + 1);
      DigitOfBase(b, value % b.base);
      NextDigit(value, b, group, count);
      DigitAdded(Separator(b, group, count), b.digits[value % b.base],
                 Digits(value / b.base, b, group, count + 1), b.base);
      QuotientRemainder(value, b.base);
    } else {
      NoDigits(b, group, count);
      NoValue(b.base);
    }
  }

  lemma NoValue(base: nat)
    ensures Reverse("") == "" && Value("", base) == 0
  {
  }

  lemma QuotientRemainder(x: nat, y: nat)
    requires y > 0
    ensures x / y * y + x % y == x
  {
  }

  /** How many characters a value below base to the n-th takes at most. */
  lemma {:induction false} DigitsLength(value: nat, b: Base, group: bool, count: nat, n: nat)
    requires IsBase(b) && value < Power(b.base, n)
    ensures |Digits(value, b, group, count)| <= 2 * n
    decreases n
  {
    if value > 0 {
      if n == 0 {
        assert false;
      }
      assert value / b.base < Power(b.base, n - 1) by { PowerStep(value, b.base, n); }
      DigitsLength(value / b.base, b, group, count + 1, n - 1);
    }
  }

  function Power(base: nat, n: nat): nat {
    if n == 0 then 1 else base * Power(base, n - 1)
  }

  lemma PowerStep(value: nat, base: nat, n: nat)
    requires n > 0 && base > 0 && value < Power(base, n)
    ensures value / base < Power(base, n - 1)
  {
  }

  // --------------------------------------------------------------------------
  // The formatted text

  function SignText(isSigned: bool, negative: bool, flags: Flags): string {
    if !isSigned then ""
    else if flags.plus then if negative then "-" else "+"
    else if flags.space then if negative then "-" else " "
    else if negative then "-"
    else ""
  }

  function Prefix(value: nat, b: Base, flags: Flags): string {
    if flags.pound && value > 0 && b.x != "" then "0" + b.x else ""
  }

  /** The zeros it takes to reach the precision, as far as the buffer reaches. */
  function PrecisionZeros(length: nat, c: Conversion): nat {
    var precision := if c.precision < 0 then 1 else c.precision;
    var limit := if precision < BUFFER_SIZE - 1 then precision else BUFFER_SIZE - 1;
    if length < limit then limit - length else 0
  }

  /** The buffer's contents, the least significant digit first. */
  function Buffered(value: nat, b: Base, c: Conversion): string
    requires IsBase(b)
  {
    var digits := Digits(value, b, c.flags.group, 0);
    var padded := digits + Repeat('0', PrecisionZeros(|digits|, c));
    if c.flags.pound && b.base == 8 && (padded == "" || padded[|padded| - 1] != '0') then padded + "0" else padded
  }

  function Padding(wanted: bool, ch: char, n: nat): string {
    if wanted then Repeat(ch, n) else ""
  }

  function Formatted(value: nat, isSigned: bool, negative: bool, b: Base, c: Conversion): string
    requires IsBase(b)
  {
    var body := Buffered(value, b, c);
    var sign, prefix := SignText(isSigned, negative, c.flags), Prefix(value, b, c.flags);
    var used := |body| + |prefix| + |sign|;
    var pad := if used < c.width then c.width - used else 0;
    Padding(!c.flags.minus && !c.flags.zero, ' ', pad)
    + sign + prefix
    + Padding(c.flags.zero, '0', pad)
    + Reverse(body)
    + Padding(c.flags.minus, ' ', pad)
  }

  method OutputDup(ch: char, cnt: nat, out: string) returns (out': string)
    ensures out' == out + Repeat(ch, cnt)
  {
    out' := out;
    var left := cnt;
    while left > 0
      invariant 0 <= left <= cnt && out' == out + Repeat(ch, cnt - left)
    {
      assert Repeat(ch, cnt - left + 1) == Repeat(ch, cnt - left) + [ch];
      out' := out' + [ch];
      left := left - 1;
    }
  }

  /** Puts the digits of a value, zeros up to the precision and the octal zero into the buffer, which has
      room for them. */
  method FillBuffer(value: U64, b: Base, c: Conversion, buf: array<char>) returns (cp: nat)
    requires IsBase(b) && buf.Length == BUFFER_SIZE
    modifies buf
    ensures cp <= buf.Length && buf[..cp] == Buffered(value, b, c)
  {
    hide Digits;
    cp := PutDigits(value, b, c.flags.group, buf);
    cp := PutZeros(c, buf, cp);
    if c.flags.pound && b.base == 8 && (cp == 0 || buf[cp - 1] != '0') {
      buf[cp] := '0';
      cp := cp + 1;
    }
  }

  method PutDigits(value: U64, b: Base, group: bool, buf: array<char>) returns (cp: nat)
    requires IsBase(b) && buf.Length == BUFFER_SIZE
    modifies buf
    ensures cp <= BUFFER_SIZE - 1 && buf[..cp] == Digits(value, b, group, 0)
  {
    hide IsBase, Digits, Digit;
    var left: nat := value;
    var digitCnt := 0;
    cp := 0;
    ghost var digits := Digits(value, b, group, 0);
    BufferBound(value, b, group);
    BaseFacts(b);
    while left > 0
      invariant cp <= |digits| && buf[..cp] + Digits(left, b, group, digitCnt) == digits
      decreases left
    {
      ghost var put := buf[..cp];
      NextDigit(left, b, group, digitCnt);
      QuotientSmaller(left, b.base);
      ghost var digit, rest := Digit(left, b, group, digitCnt), Digits(left / b.base, b, group, digitCnt + 1);
      Joined(put, digit, rest);
      cp := PutDigit(left, b, group, digitCnt, buf, cp);
      left := left / b.base;
      digitCnt := digitCnt + 1;
    }
    NoDigits(b, group, digitCnt);
  }

  /** What one round puts into the buffer. */
  function Digit(value: nat, b: Base, group: bool, count: nat): string
    requires IsBase(b)
  {
    Separator(b, group, count) + [b.digits[value % b.base]]
  }

  lemma Joined(s: string, t: string, u: string)
    ensures s + (t + u) == s + t + u
  {
  }

  method PutDigit(value: nat, b: Base, group: bool, digitCnt: nat, buf: array<char>, cnt: nat) returns (cp: nat)
    requires IsBase(b) && cnt + |Digit(value, b, group, digitCnt)| <= buf.Length
    modifies buf
    ensures cp <= buf.Length && buf[..cp] == old(buf[..cnt]) + Digit(value, b, group, digitCnt)
  {
    cp := cnt;
    if group && digitCnt > 0 && digitCnt % b.group == 0 {
      buf[cp] := ',';
      cp := cp + 1;
    }
    buf[cp] := b.digits[value % b.base];
    cp := cp + 1;
  }

  lemma NextDigit(value: nat, b: Base, group: bool, count: nat)
    requires IsBase(b) && value > 0
    ensures value % b.base < |b.digits|
    ensures Digits(value, b, group, count)
            == Digit(value, b, group, count) + Digits(value / b.base, b, group, count + 1)
  {
  }

  lemma NoDigits(b: Base, group: bool, count: nat)
    requires IsBase(b)
    ensures Digits(0, b, group, count) == ""
  {
  }

  lemma BaseFacts(b: Base)
    requires IsBase(b)
    ensures b.group > 0 && (b.base == 8 || b.base == 10 || b.base == 16) && |b.digits| == b.base
  {
  }

  lemma QuotientSmaller(x: nat, y: nat)
    requires x > 0 && (y == 8 || y == 10 || y == 16)
    ensures x / y < x
  {
  }

  method PutZeros(c: Conversion, buf: array<char>, digitCnt: nat) returns (cp: nat)
    requires buf.Length == BUFFER_SIZE && digitCnt <= BUFFER_SIZE - 1
    modifies buf
    ensures cp <= BUFFER_SIZE - 1
    ensures buf[..cp] == old(buf[..digitCnt]) + Repeat('0', PrecisionZeros(digitCnt, c))
  {
    cp := digitCnt;
    ghost var digits := buf[..digitCnt];
    var precision := if c.precision < 0 then 1 else c.precision;
    while cp < precision && cp < BUFFER_SIZE - 1
      invariant digitCnt <= cp <= BUFFER_SIZE - 1
      invariant cp == digitCnt || cp <= precision
      invariant buf[..cp] == digits + Repeat('0', cp - digitCnt)
    {
      buf[cp] := '0';
      assert Repeat('0', cp + 1 - digitCnt) == Repeat('0', cp - digitCnt) + ['0'];
      cp := cp + 1;
      assert buf[..cp] == buf[..cp - 1] + ['0'];
    }
  }

  /** The digits of a 64-bit value, separators included, leave at least one place in the buffer. */
  lemma BufferBound(value: U64, b: Base, group: bool)
    requires IsBase(b)
    ensures |Digits(value, b, group, 0)| <= BUFFER_SIZE - 1
  {
    var n := if b.base == 8 then 22 else 20;
    PowerLarge(b.base, n);
    DigitsLength(value, b, group, 0, n);
  }

  lemma PowerLarge(base: nat, n: nat)
    requires (base == 8 && n == 22) || ((base == 10 || base == 16) && n == 20)
    ensures Power(base, n) >= 0x1_0000_0000_0000_0000
  {
    PowerProduct(base, 10, 10);
    PowerProduct(base, 11, 11);
  }

  lemma {:induction false} PowerProduct(base: nat, m: nat, n: nat)
    ensures Power(base, m + n) == Power(base, m) * Power(base, n)
  {
    if m > 0 {
      PowerProduct(base, m - 1, n);
      MulAssociative(base, Power(base, m - 1), Power(base, n));
    }
  }

  lemma MulAssociative(x: nat, y: nat, z: nat)
    ensures x * (y * z) == x * y * z
  {
  }

  method FormatInteger(value: U64, isSigned: bool, negative: bool, b: Base, c: Conversion) returns (out: string)
    requires IsBase(b)
    ensures out == Formatted(value, isSigned, negative, b, c)
  {
    hide Buffered, Reverse, SignText, Prefix, Digits, IsBase, Repeat;
    var sign := SignText(isSigned, negative, c.flags);
    var prefix := Prefix(value, b, c.flags);
    var buf := new char[BUFFER_SIZE];
    var cp := FillBuffer(value, b, c, buf);
    var padCnt := c.width - cp - |prefix| - |sign|;
    if padCnt < 0 {
      padCnt := 0;
    }
    out := "";
    if !c.flags.minus && !c.flags.zero {
      out := OutputDup(' ', padCnt, out);
    }
    assert out == Padding(!c.flags.minus && !c.flags.zero, ' ', padCnt);
    out := out + sign;
    out := out + prefix;
    ghost var signed, zeros := out, Padding(c.flags.zero, '0', padCnt);
    if c.flags.zero {
      out := OutputDup('0', padCnt, out);
    }
    assert out == signed + zeros;
    out := EmitReversed(buf, cp, out);
    ghost var digits, rest := out, Padding(c.flags.minus, ' ', padCnt);
    if c.flags.minus {
      out := OutputDup(' ', padCnt, out);
    }
    assert out == digits + rest;
  }

  method EmitReversed(buf: array<char>, cnt: nat, out: string) returns (out': string)
    requires cnt <= buf.Length
    ensures out' == out + Reverse(buf[..cnt])
  {
    out' := out;
    var cp := cnt;
    while cp > 0
      invariant 0 <= cp <= cnt
      invariant out' + Reverse(buf[..cp]) == out + Reverse(buf[..cnt])
    {
      ReverseLast(buf[..cp]);
      cp := cp - 1;
      assert buf[..cp + 1][..cp] == buf[..cp];
      assert out' + ([buf[cp]] + Reverse(buf[..cp])) == (out' + [buf[cp]]) + Reverse(buf[..cp]);
      out' := out' + [buf[cp]];
    }
  }

  lemma {:induction false} ReverseLast(s: string)
    requires s != ""
    ensures Reverse(s) == [s[|s| - 1]] + Reverse(s[..|s| - 1])
  {
    if |s| > 1 {
      ReverseLast(s[1..]);
      assert s[1..][..|s| - 2] == s[..|s| - 1][1..];
    }
  }

  // --------------------------------------------------------------------------
  // What the formatted digits are worth

  lemma {:induction false} ReverseAppend(s: string, t: string)
    ensures Reverse(s + t) == Reverse(t) + Reverse(s)
  {
    if s == "" {
      assert s + t == t;
    } else {
      ReverseAppend(s[1..], t);
      assert (s + t)[1..] == s[1..] + t;
    }
  }

  lemma {:induction false} ReverseRepeat(ch: char, n: nat)
    ensures Reverse(Repeat(ch, n)) == Repeat(ch, n)
  {
    if n > 0 {
      ReverseRepeat(ch, n - 1);
      assert Repeat(ch, n)[1..] == Repeat(ch, n - 1);
      assert Repeat(ch, n) == Repeat(ch, n - 1) + [ch];
    }
  }

  /** Zeros before the digits are worth nothing. */
  lemma {:induction false} ZerosWorthless(n: nat, s: string, base: nat)
    ensures Value(Repeat('0', n) + s, base) == Value(s, base)
    decreases |s|, n
  {
    if s != "" {
      var front := s[..|s| - 1];
      ZerosWorthless(n, front, base);
      assert Repeat('0', n) + s == (Repeat('0', n) + front) + [s[|s| - 1]];
      ValueSnoc(Repeat('0', n) + front, s[|s| - 1], base);
    } else if n > 0 {
      ZerosWorthless(n - 1, s, base);
      assert Repeat('0', n) + s == (Repeat('0', n - 1) + s) + ['0'];
      ValueSnoc(Repeat('0', n - 1) + s, '0', base);
    }
  }

  /** In every base, with any precision and flags, the digits put out are worth the value. */
  lemma BufferedValue(value: nat, b: Base, c: Conversion)
    requires IsBase(b)
    ensures Value(Reverse(Buffered(value, b, c)), b.base) == value
  {
    hide Value, Reverse, Digits, Repeat, IsBase, PrecisionZeros;
    var digits := Digits(value, b, c.flags.group, 0);
    DigitsValue(value, b, c.flags.group, 0);
    var n := PrecisionZeros(|digits|, c);
    ReverseAppend(digits, Repeat('0', n));
    ReverseRepeat('0', n);
    ZerosWorthless(n, Reverse(digits), b.base);
    var padded := digits + Repeat('0', n);
    ReverseAppend(padded, "0");
    OneZero();
    ZerosWorthless(1, Reverse(padded), b.base);
  }

  lemma OneZero()
    ensures Reverse("0") == "0" && Repeat('0', 1) == "0"
  {
  }

  // --------------------------------------------------------------------------
  // What the formatted text looks like

  /** A number in a base, in the usual way: at least one digit, and no zeros before the first. */
  function Numeral(value: nat, b: Base): (s: string)
    requires IsBase(b)
    ensures s != ""
  {
    BaseFacts(b);
    if value < b.base then [b.digits[value]]
    else
      QuotientSmaller(value, b.base);
      Numeral(value / b.base, b) + [b.digits[value % b.base]]
  }

  /** A conversion without flags, width or precision. */
  const PLAIN := Conversion(Flags(false, false, false, false, false, false), 0, -1)

  lemma {:induction false} NumeralDigits(value: nat, b: Base, count: nat)
    requires IsBase(b) && value > 0
    ensures Reverse(Digits(value, b, false, count)) == Numeral(value, b)
    decreases value
  {
    hide Digits, IsBase, Numeral, Reverse, Digit;
    BaseFacts(b);
    QuotientSmaller(value, b.base);
    NextDigit(value, b, false, count);
    DigitShape(value, b, count);
    ReverseCons(b.digits[value % b.base], Digits(value / b.base, b, false, count + 1));
    NumeralStep(value, b);
    if value < b.base {
      NoDigits(b, false, count + 1);
      NoValue(b.base);
    } else {
      NumeralDigits(value / b.base, b, count + 1);
    }
  }

  lemma NumeralStep(value: nat, b: Base)
    requires IsBase(b)
    ensures value % b.base < |b.digits| && b.base > 0
    ensures value < b.base ==> value / b.base == 0 && Numeral(value, b) == [b.digits[value % b.base]]
    ensures value >= b.base ==> value / b.base > 0
    ensures value >= b.base ==> Numeral(value, b) == Numeral(value / b.base, b) + [b.digits[value % b.base]]
  {
    BaseFacts(b);
    hide IsBase;
  }

  /** Without flags, width and precision a number is put out as its numeral, after a minus if it is negative. */
  lemma PlainNumeral(value: nat, isSigned: bool, negative: bool, b: Base)
    requires IsBase(b)
    ensures Formatted(value, isSigned, negative, b, PLAIN)
            == (if isSigned && negative then "-" else "") + Numeral(value, b)
  {
    hide Reverse, Digits, Numeral;
    NoDigits(b, false, 0);
    OneZero();
    if value > 0 {
      NumeralDigits(value, b, 0);
      DigitsThere(value, b);
      assert Digits(value, b, false, 0) + Repeat('0', 0) == Digits(value, b, false, 0);
    } else {
      ZeroNumeral(b);
      assert Digits(value, b, false, 0) + Repeat('0', 1) == "0";
    }
  }

  lemma DigitsThere(value: nat, b: Base)
    requires IsBase(b) && value > 0
    ensures |Digits(value, b, false, 0)| >= 1
  {
  }

  lemma ZeroNumeral(b: Base)
    requires IsBase(b)
    ensures Numeral(0, b) == "0"
  {
  }

  /** No numeral but that of zero starts with a zero. */
  lemma {:induction false} NumeralStart(value: nat, b: Base)
    requires IsBase(b)
    ensures Numeral(value, b)[0] == '0' <==> value == 0
    decreases value
  {
    if value >= b.base {
      QuotientSmaller(value, b.base);
      NumeralStart(value / b.base, b);
      assert value / b.base > 0;
    } else {
      NonzeroDigit(b, value);
    }
  }

  lemma NonzeroDigit(b: Base, d: nat)
    requires IsBase(b) && d < b.base
    ensures d < |b.digits| && (b.digits[d] == '0' <==> d == 0)
  {
  }

  /** Which characters are digits of a base: small letters for x, capital ones for X. */
  predicate IsDigitOf(b: Base, ch: char) {
    || '0' <= ch <= (if b.base == 8 then '7' else '9')
    || (b.x == "x" && 'a' <= ch <= 'f')
    || (b.x == "X" && 'A' <= ch <= 'F')
  }

  lemma {:induction false} DigitsOfBase(value: nat, b: Base, group: bool, count: nat)
    requires IsBase(b)
    ensures forall ch :: ch in Digits(value, b, group, count) ==> IsDigitOf(b, ch) || (group && ch == ',')
    decreases value
  {
    BaseFacts(b);
    if value > 0 {
      QuotientSmaller(value, b.base);
      DigitsOfBase(value / b.base, b, group, count + 1);
      DigitIn(b, value % b.base);
      hide Digits, IsDigitOf;
      NextDigit(value, b, group, count);
    }
  }

  lemma DigitIn(b: Base, d: nat)
    requires IsBase(b) && d < b.base
    ensures d < |b.digits| && IsDigitOf(b, b.digits[d])
  {
  }

  /** How many characters after the last separator there are before the count-th digit. */
  function SinceSeparator(b: Base, count: nat): nat
    requires b.group > 0
  {
    if count == 0 then 0 else if count % b.group == 0 then b.group else count % b.group
  }

  /** Separators stand after each group of digits, counted from the right, and nowhere else. */
  lemma {:induction false} SeparatorsPlaced(value: nat, b: Base, count: nat, i: nat)
    requires IsBase(b) && i < |Digits(value, b, true, count)|
    ensures b.group > 0
    ensures Digits(value, b, true, count)[i] == ',' <==> (SinceSeparator(b, count) + i) % (b.group + 1) == b.group
    decreases value
  {
    hide Digits, IsBase, Digit, SinceSeparator;
    BaseFacts(b);
    NoDigits(b, true, count);
    QuotientSmaller(value, b.base);
    NextDigit(value, b, true, count);
    DigitShape(value, b, count);
    GroupStep(b, count);
    var digit := Digit(value, b, true, count);
    if i >= |digit| {
      SeparatorsPlaced(value / b.base, b, count + 1, i - |digit|);
      Wrapped(b.group, SinceSeparator(b, count), SinceSeparator(b, count + 1), |digit|, i);
    } else {
      Within(b.group, SinceSeparator(b, count), |digit|, i);
    }
  }

  lemma DigitShape(value: nat, b: Base, count: nat)
    requires IsBase(b)
    ensures b.group > 0 && value % b.base < |b.digits|
    ensures var ch := b.digits[value % b.base];
            && ch != ','
            && Digit(value, b, false, count) == [ch]
            && Digit(value, b, true, count) == (if SinceSeparator(b, count) == b.group then [','] + [ch] else [ch])
  {
    DigitOfBase(b, value % b.base);
  }

  lemma Within(group: nat, o: nat, n: nat, i: nat)
    requires (group == 3 || group == 4) && o <= group && i < n && n == (if o == group then 2 else 1)
    ensures (o + i) % (group + 1) == group <==> i == 0 && o == group
  {
  }

  lemma GroupStep(b: Base, count: nat)
    requires IsBase(b)
    ensures b.group == 3 || b.group == 4
    ensures var o := SinceSeparator(b, count);
            && o <= b.group
            && (o == b.group <==> count > 0 && count % b.group == 0)
            && SinceSeparator(b, count + 1) == if o == b.group then 1 else o + 1
  {
  }

  lemma Wrapped(group: nat, o: nat, o': nat, n: nat, i: nat)
    requires (group == 3 || group == 4) && o <= group && n <= i
    requires if o == group then o' == 1 && n == 2 else o' == o + 1 && n == 1
    ensures (o + i) % (group + 1) == group <==> (o' + (i - n)) % (group + 1) == group
  {
  }

  /** A text without its separators. */
  function Ungrouped(s: string): string {
    if s == "" then "" else (if s[0] == ',' then "" else [s[0]]) + Ungrouped(s[1..])
  }

  /** Grouping adds separators and nothing else. */
  lemma {:induction false} GroupingAdds(value: nat, b: Base, count: nat)
    requires IsBase(b)
    ensures Ungrouped(Digits(value, b, true, count)) == Digits(value, b, false, count)
    decreases value
  {
    hide Digits, IsBase, Digit, SinceSeparator, Ungrouped;
    BaseFacts(b);
    NoDigits(b, true, count);
    NoDigits(b, false, count);
    NothingUngrouped();
    if value > 0 {
      QuotientSmaller(value, b.base);
      GroupingAdds(value / b.base, b, count + 1);
      DigitShape(value, b, count);
      NextDigit(value, b, true, count);
      NextDigit(value, b, false, count);
      UngroupedDigit(b.digits[value % b.base], Digits(value / b.base, b, true, count + 1));
    }
  }

  lemma NothingUngrouped()
    ensures Ungrouped("") == ""
  {
  }

  lemma UngroupedDigit(ch: char, rest: string)
    requires ch != ','
    ensures Ungrouped([ch] + rest) == [ch] + Ungrouped(rest)
    ensures Ungrouped([','] + [ch] + rest) == [ch] + Ungrouped(rest)
  {
    UngroupedCons(ch, rest);
    UngroupedCons(',', [ch] + rest);
    assert [','] + [ch] + rest == [','] + ([ch] + rest);
  }

  lemma UngroupedCons(ch: char, s: string)
    ensures Ungrouped([ch] + s) == (if ch == ',' then "" else [ch]) + Ungrouped(s)
  {
    assert ([ch] + s)[1..] == s;
  }

  lemma LastOfDigit(value: nat, b: Base, group: bool, count: nat)
    requires IsBase(b)
    ensures var s := Digit(value, b, group, count); s != "" && (s[|s| - 1] == '0' <==> value % b.base == 0)
  {
    NonzeroDigit(b, value % b.base);
  }

  /** The digits of a value start with no zero. */
  lemma {:induction false} TopDigit(value: nat, b: Base, group: bool, count: nat)
    requires IsBase(b)
    ensures value > 0 ==>
              var s := Digits(value, b, group, count); s != "" && s[|s| - 1] != '0'
    decreases value
  {
    hide Digits, IsBase, Digit;
    if value > 0 {
      BaseFacts(b);
      QuotientSmaller(value, b.base);
      TopDigit(value / b.base, b, group, count + 1);
      NoDigits(b, group, count + 1);
      NextDigit(value, b, group, count);
      LastOfDigit(value, b, group, count);
      assert value / b.base == 0 ==> value % b.base == value;
    }
  }

  /** The digits put out, with the zeros before them: as many characters as the precision asks for, at least, as
      far as 63; one more exactly if an octal number that must start with a zero does not do so already. */
  lemma PrecisionMet(value: nat, b: Base, c: Conversion)
    requires IsBase(b) && |Digits(value, b, c.flags.group, 0)| < BUFFER_SIZE
    ensures var digits := Digits(value, b, c.flags.group, 0);
            var text := Reverse(Buffered(value, b, c));
            var asked := Max(|digits|, Min(if c.precision < 0 then 1 else c.precision, BUFFER_SIZE - 1));
            && |text| == asked + (if c.flags.pound && b.base == 8 && asked == |digits| then 1 else 0)
            && text == Repeat('0', |text| - |digits|) + Reverse(digits)
            && (c.flags.pound && b.base == 8 ==> text != "" && text[0] == '0')
            && (c.precision != 0 ==> text != "")
  {
    hide Digits, Reverse, Buffered, IsBase;
    var digits := Digits(value, b, c.flags.group, 0);
    BufferedText(value, b, c);
    ZerosFirst(PrecisionZeros(|digits|, c), Reverse(digits));
  }

  lemma BufferedText(value: nat, b: Base, c: Conversion)
    requires IsBase(b)
    ensures var digits := Digits(value, b, c.flags.group, 0);
            var n := PrecisionZeros(|digits|, c);
            Reverse(Buffered(value, b, c))
            == Repeat('0', if c.flags.pound && b.base == 8 && n == 0 then 1 else n) + Reverse(digits)
  {
    hide Digits, Reverse, IsBase;
    var digits := Digits(value, b, c.flags.group, 0);
    var n := PrecisionZeros(|digits|, c);
    var padded := digits + Repeat('0', n);
    ReverseAppend(digits, Repeat('0', n));
    ReverseRepeat('0', n);
    ReverseAppend(padded, "0");
    OneZero();
    TopDigit(value, b, c.flags.group, 0);
    NoDigits(b, c.flags.group, 0);
    assert "" + Reverse(digits) == Reverse(digits);
  }

  lemma ZerosFirst(n: nat, s: string)
    ensures n > 0 ==> (Repeat('0', n) + s)[0] == '0'
  {
  }

  /** The number in its field: its sign, its prefix, and the digits. */
  function NumberText(value: nat, isSigned: bool, negative: bool, b: Base, c: Conversion): string
    requires IsBase(b)
  {
    SignText(isSigned, negative, c.flags) + Prefix(value, b, c.flags) + Reverse(Buffered(value, b, c))
  }

  /** The field is as wide as asked for, or as the number, exactly if the number does not have to be padded or is
      not to be padded both ways. parse_conversion never asks for both but for one case: a zero flag, and a
      negative width as an argument. */
  lemma FieldWidth(value: nat, isSigned: bool, negative: bool, b: Base, c: Conversion)
    requires IsBase(b)
    ensures var number := NumberText(value, isSigned, negative, b, c);
            |Formatted(value, isSigned, negative, b, c)| == Max(c.width, |number|)
            <==> !(c.flags.minus && c.flags.zero && |number| < c.width)
  {
    hide Buffered, Reverse, SignText, Prefix, Repeat;
    hide IsBase;
  }

  /** A field of three characters with a 7 gets two zeros before it and two spaces after it. */
  lemma PaddedTwice()
    ensures Formatted(7, true, false, DECIMAL, Conversion(Flags(true, false, false, false, true, false), 3, -1))
            == "007  "
  {
    var c := Conversion(Flags(true, false, false, false, true, false), 3, -1);
    OneDigit(c);
    hide Buffered;
    assert Repeat('0', 2) == "00" && Repeat(' ', 2) == "  ";
  }

  lemma OneDigit(c: Conversion)
    requires !c.flags.group && c.precision < 0
    ensures Buffered(7, DECIMAL, c) == "7" && Reverse("7") == "7"
  {
    NoDigits(DECIMAL, false, 1);
    NoValue(10);
    assert "7" + Repeat('0', 0) == "7";
  }

  /** Where the number stands: at the right end of its field, at the left one, or with zeros after its sign and
      prefix. */
  lemma NumberPlaced(value: nat, isSigned: bool, negative: bool, b: Base, c: Conversion)
    requires IsBase(b) && !(c.flags.minus && c.flags.zero)
    ensures var number := NumberText(value, isSigned, negative, b, c);
            var start := SignText(isSigned, negative, c.flags) + Prefix(value, b, c.flags);
            var pad := if |number| < c.width then c.width - |number| else 0;
            Formatted(value, isSigned, negative, b, c)
            == if c.flags.zero then start + Repeat('0', pad) + number[|start|..]
               else if c.flags.minus then number + Repeat(' ', pad)
               else Repeat(' ', pad) + number
  {
    hide Buffered, Reverse, SignText, Prefix;
    hide IsBase;
  }

  /** When there is a sign and which, and when there is a prefix. */
  lemma SignAndPrefix(value: nat, isSigned: bool, negative: bool, b: Base, flags: Flags)
    requires IsBase(b)
    ensures var sign := SignText(isSigned, negative, flags);
            && (sign == "-" <==> isSigned && negative)
            && (sign == "+" <==> isSigned && !negative && flags.plus)
            && (sign == " " <==> isSigned && !negative && !flags.plus && flags.space)
            && (sign == "" <==> !isSigned || (!negative && !flags.plus && !flags.space))
    ensures Prefix(value, b, flags)
            == if flags.pound && value > 0 && b == HEX then "0x"
               else if flags.pound && value > 0 && b == UPPER_HEX then "0X"
               else ""
  {
  }

  /** Digits added on the right never make a number smaller. */
  lemma {:induction false} ValueGrows(s: string, t: string, base: nat)
    requires base > 0
    ensures Value(s, base) <= Value(s + t, base)
  {
    if t != "" {
      var front := t[..|t| - 1];
      ValueGrows(s, front, base);
      assert s + t == (s + front) + [t[|t| - 1]];
      hide Value, DigitValue;
      ValueSnoc(s + front, t[|t| - 1], base);
      NotLess(Value(s + front, base), base);
    } else {
      assert s + t == s;
    }
  }

  lemma NotLess(x: nat, y: nat)
    requires y > 0
    ensures x <= x * y
  {
  }

  // --------------------------------------------------------------------------
  // Output into a buffer of limited size

  /** The state of formatting into a buffer: text past the last free place is counted but not stored. */
  class BufferOutput {
    const buffer: array<char>
    const start: nat
    const size: nat
    var p: nat
    var length: nat
    const maxLength: nat

    ghost predicate Valid()
      reads this
    {
      && start + size <= buffer.Length
      && maxLength == (if size > 0 then size - 1 else 0)
      && p == start + if length < maxLength then length else maxLength
    }

    constructor (buffer: array<char>, start: nat, size: nat)
      requires start + size <= buffer.Length
      ensures Valid() && this.buffer == buffer && this.start == start && this.size == size && length == 0
    {
      this.buffer, this.start, this.size := buffer, start, size;
      p, length, maxLength := start, 0, if size > 0 then size - 1 else 0;
    }

    method Put(ch: char)
      requires Valid()
      modifies this, buffer
      ensures Valid() && length == old(length) + 1
      ensures buffer[..] == if old(length) < maxLength then old(buffer[..])[start + old(length) := ch]
                            else old(buffer[..])
    {
      if length < maxLength {
        buffer[p] := ch;
        p := p + 1;
      }
      length := length + 1;
    }
  }

  /** What part of a text fits into a buffer of a given size, and the terminator. */
  function Stored(text: string, size: nat): (s: string)
    ensures |s| <= size
  {
    if size == 0 then "" else (if |text| < size then text else text[..size - 1]) + "\0"
  }

  function Overwritten(chars: string, start: nat, s: string): (r: string)
    requires start + |s| <= |chars|
    ensures |r| == |chars|
  {
    chars[..start] + s + chars[start + |s|..]
  }

  /** What of the first i characters of a text has been stored. */
  function Fitting(text: string, i: nat, size: nat): (s: string)
    requires i <= |text|
    ensures |s| <= size
  {
    if i < size then text[..i] else if size > 0 then text[..size - 1] else ""
  }

  lemma NothingStored(chars: string, start: nat, size: nat, text: string)
    requires start + size <= |chars|
    ensures Overwritten(chars, start, Fitting(text, 0, size)) == chars
  {
    assert chars == chars[..start] + chars[start..];
  }

  lemma StoreStep(chars: string, start: nat, size: nat, text: string, i: nat)
    requires start + size <= |chars| && i < |text|
    ensures Overwritten(chars, start, Fitting(text, i + 1, size))
            == if i + 1 < size then Overwritten(chars, start, Fitting(text, i, size))[start + i := text[i]]
               else Overwritten(chars, start, Fitting(text, i, size))
  {
    if i + 1 < size {
      OverwriteNext(chars, start, text[..i], text[i]);
      assert text[..i + 1] == text[..i] + [text[i]];
    }
  }

  lemma OverwriteNext(chars: string, start: nat, s: string, ch: char)
    requires start + |s| < |chars|
    ensures Overwritten(chars, start, s + [ch]) == Overwritten(chars, start, s)[start + |s| := ch]
  {
  }

  lemma Terminated(chars: string, start: nat, size: nat, text: string)
    requires start + size <= |chars|
    ensures |Stored(text, size)| <= size
    ensures var fitting := Fitting(text, |text|, size);
            Overwritten(chars, start, Stored(text, size))
            == if size > 0 then Overwritten(chars, start, fitting)[start + |fitting| := '\0']
               else Overwritten(chars, start, fitting)
  {
    if size > 0 {
      OverwriteNext(chars, start, Fitting(text, |text|, size), '\0');
      assert text[..|text|] == text;
    }
  }

  /** Puts a formatted text into the size characters of a buffer from start on: as much of it as fits, then a
      terminator. Every other character keeps its value, and the length counts what did not fit as well. */
  method Snprintf(buffer: array<char>, start: nat, size: nat, text: string) returns (length: nat)
    requires start + size <= buffer.Length
    modifies buffer
    ensures length == |text|
    ensures buffer[..] == Overwritten(old(buffer[..]), start, Stored(text, size))
  {
    hide Overwritten, Stored;
    ghost var chars := buffer[..];
    var aux := new BufferOutput(buffer, start, size);
    var i := 0;
    NothingStored(chars, start, size, text);
    while i < |text|
      invariant 0 <= i <= |text| && aux.Valid() && aux.length == i
      invariant aux.buffer == buffer && aux.start == start && aux.size == size
      invariant buffer[..] == Overwritten(chars, start, Fitting(text, i, size))
    {
      StoreStep(chars, start, size, text, i);
      aux.Put(text[i]);
      i := i + 1;
    }
    Terminated(chars, start, size, text);
    if size > 0 {
      buffer[aux.p] := '\0';
    }
    length := aux.length;
  }
}
