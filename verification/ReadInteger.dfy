/** atoi, and what it makes of the integers that the printf family formats. */
module ReadInteger {
  import opened Basics
  import opened Format

  /** The number read, or the arithmetic leaving the range of an int, which C leaves undefined. */
  datatype Reading = Number(value: I32) | Overflow

  predicate IsSpace(ch: char) {
    ch == ' ' || 9 as char <= ch <= 13 as char
  }

  predicate IsDigit(ch: char) {
    '0' <= ch <= '9'
  }

  function AfterSpace(s: string): string {
    if s != "" && IsSpace(s[0]) then AfterSpace(s[1..]) else s
  }

  predicate Signed(s: string) {
    s != "" && (s[0] == '+' || s[0] == '-')
  }

  function AfterSign(s: string): string {
    if Signed(s) then s[1..] else s
  }

  function LeadingDigits(s: string): string {
    if s != "" && IsDigit(s[0]) then [s[0]] + LeadingDigits(s[1..]) else ""
  }

  function InRange(n: int): Reading {
    if INT_MIN <= n <= INT_MAX then Number(n) else Overflow
  }

  /** The decimal number that a string starts with, after white space and a sign. */
  function Read(s: string): Reading {
    var text := AfterSpace(s);
    var size := Value(LeadingDigits(AfterSign(text)), 10);
    InRange(if text != "" && text[0] == '-' then 0 - size else size)
  }

  predicate AllDigits(s: string) {
    forall i :: 0 <= i < |s| ==> IsDigit(s[i])
  }

  // --------------------------------------------------------------------------
  // Reading, one character at a time

  /** Reads a number as the negative of its digits first, since an int reaches further down than up: the
      result overflows exactly if the number is not an int. */
  method Atoi(s: string) returns (r: Reading)
    ensures r == Read(s)
  {
    hide Value, LeadingDigits;
    var i := 0;
    while i < |s| && IsSpace(s[i])
      invariant 0 <= i <= |s| && AfterSpace(s[i..]) == AfterSpace(s)
    {
      assert s[i..][1..] == s[i + 1..];
      i := i + 1;
    }
    ghost var text := s[i..];
    assert text == AfterSpace(s);
    var negative := false;
    if i < |s| && s[i] == '+' {
      i := i + 1;
    } else if i < |s| && s[i] == '-' {
      negative := true;
      i := i + 1;
    }
    assert s[i..] == AfterSign(text);
    r := ReadDigits(s[i..], negative);
  }

  method ReadDigits(s: string, negative: bool) returns (r: Reading)
    ensures r == InRange((if negative then -1 else 1) * Value(LeadingDigits(s), 10))
  {
    hide Value, DigitValue, LeadingDigits, InRange;
    var value: I32 := 0;
    var i := 0;
    NoValue(10);
    RangeOf();
    while i < |s| && IsDigit(s[i])
      invariant 0 <= i <= |s| && LeadingDigits(s) == s[..i] + LeadingDigits(s[i..])
      invariant value as int == 0 - Value(s[..i], 10)
    {
      assert s[i..][1..] == s[i + 1..];
      NextLeading(s[i..]);
      ValueSnoc(s[..i], s[i], 10);
      DigitIsDecimal(s[i]);
      assert s[..i] + [s[i]] == s[..i + 1];
      assert s[..i] + ([s[i]] + LeadingDigits(s[i + 1..])) == s[..i + 1] + LeadingDigits(s[i + 1..]);
      var next := value * 10 - (s[i] as int - '0' as int);
      if next < INT_MIN {
        ValueGrows(s[..i + 1], LeadingDigits(s[i + 1..]), 10);
        return Overflow;
      }
      value := next;
      i := i + 1;
    }
    NextLeading(s[i..]);
    assert LeadingDigits(s) == s[..i];
    r := if negative then Number(value) else if value == INT_MIN then Overflow else Number(-value);
  }

  lemma RangeOf()
    ensures forall n: int :: InRange(n) == if INT_MIN <= n <= INT_MAX then Number(n) else Overflow
  {
  }

  lemma DigitIsDecimal(ch: char)
    requires IsDigit(ch)
    ensures DigitValue(ch) == ch as int - '0' as int && ch != ','
  {
  }

  lemma NextLeading(s: string)
    ensures LeadingDigits(s) == if s != "" && IsDigit(s[0]) then [s[0]] + LeadingDigits(s[1..]) else ""
  {
  }

  // --------------------------------------------------------------------------
  // White space

  /** Space, tab, line feed, vertical tab, form feed and carriage return, by their codes. */
  const WHITE_SPACE: set<int> := {32, 9, 10, 11, 12, 13}

  /** White space before a number makes no difference. */
  lemma {:induction false} SpaceIgnored(w: string, s: string)
    requires forall i :: 0 <= i < |w| ==> w[i] as int in WHITE_SPACE
    ensures Read(w + s) == Read(s)
  {
    hide Value, LeadingDigits;
    if w == "" {
      assert w + s == s;
    } else {
      assert w[0] as int in WHITE_SPACE;
      assert (w + s)[1..] == w[1..] + s;
      SpaceIgnored(w[1..], s);
    }
  }

  /** Any other character that is no digit and no sign ends the number before it starts. */
  lemma NothingRead(s: string)
    requires s != "" && s[0] as int !in WHITE_SPACE && !('0' <= s[0] <= '9') && s[0] != '+' && s[0] != '-'
    ensures Read(s) == Number(0)
  {
    assert AfterSpace(s) == s && LeadingDigits(s) == "";
    NoValue(10);
  }

  // --------------------------------------------------------------------------
  // Formatting and reading back

  lemma {:induction false} SpacesSkipped(n: nat, s: string)
    ensures AfterSpace(Repeat(' ', n) + s) == AfterSpace(s)
  {
    if n == 0 {
      assert Repeat(' ', 0) + s == s;
    } else {
      SpacesSkipped(n - 1, s);
      assert (Repeat(' ', n) + s)[1..] == Repeat(' ', n - 1) + s;
    }
  }

  lemma {:induction false} DigitsLead(d: string, t: string)
    requires AllDigits(d) && (t == "" || !IsDigit(t[0]))
    ensures LeadingDigits(d + t) == d
  {
    if d == "" {
      assert d + t == t;
    } else {
      DigitsLead(d[1..], t);
      assert (d + t)[1..] == d[1..] + t;
      assert d == [d[0]] + d[1..];
    }
  }

  /** A padded number with a sign character, if any, reads as that number. */
  lemma PaddedReads(before: nat, sign: string, d: string, after: nat)
    requires AllDigits(d) && (sign == "" || sign == " " || sign == "+" || sign == "-")
    ensures Read(Repeat(' ', before) + (sign + (d + Repeat(' ', after))))
            == InRange(if sign == "-" then 0 - Value(d, 10) else Value(d, 10))
  {
    hide Value, InRange, LeadingDigits, Repeat;
    var tail := d + Repeat(' ', after);
    SpacesSkipped(before, sign + tail);
    DigitsLeadSpaces(d, after);
    if sign == "" || sign == " " {
      SpaceSkipped(sign, tail);
      if d == "" {
        SpacesSkipped(after, "");
        assert tail == Repeat(' ', after) + "";
        SpacesLeadNothing(after);
        assert Repeat(' ', after) + "" == Repeat(' ', after);
      } else {
        assert !IsSpace(tail[0]);
      }
    } else {
      assert (sign + tail)[1..] == tail;
    }
  }

  lemma SpaceSkipped(sign: string, tail: string)
    requires sign == "" || sign == " "
    ensures AfterSpace(sign + tail) == AfterSpace(tail)
  {
    if sign == "" {
      assert sign + tail == tail;
    } else {
      assert (sign + tail)[1..] == tail;
    }
  }

  lemma DigitsLeadSpaces(d: string, after: nat)
    requires AllDigits(d)
    ensures LeadingDigits(d + Repeat(' ', after)) == d
  {
    DigitsLead(d, Repeat(' ', after));
  }

  lemma SpacesLeadNothing(after: nat)
    ensures LeadingDigits("") == "" && LeadingDigits(Repeat(' ', after)) == ""
  {
  }

  lemma {:induction false} DigitsAreDigits(value: nat, count: nat)
    ensures AllDigits(Digits(value, DECIMAL, false, count))
    decreases value
  {
    if value > 0 {
      DigitsAreDigits(value / 10, count + 1);
      hide Digits;
      NextDigit(value, DECIMAL, false, count);
      DigitOfBase(DECIMAL, value % 10);
    }
  }

  lemma {:induction false} ReversedDigits(s: string)
    requires AllDigits(s)
    ensures AllDigits(Reverse(s))
  {
    if s != "" {
      ReversedDigits(s[1..]);
    }
  }

  function FieldPadding(value: nat, negative: bool, c: Conversion): nat {
    var used := |Buffered(value, DECIMAL, c)| + |SignText(true, negative, c.flags)|;
    if used < c.width then c.width - used else 0
  }

  /** A formatted decimal number: spaces, its sign, its digits with zeros before them, and spaces. */
  lemma FormattedShape(value: nat, negative: bool, c: Conversion)
    ensures var pad := FieldPadding(value, negative, c);
            Formatted(value, true, negative, DECIMAL, c)
            == Repeat(' ', if !c.flags.minus && !c.flags.zero then pad else 0)
               + (SignText(true, negative, c.flags)
                  + ((Repeat('0', if c.flags.zero then pad else 0) + Reverse(Buffered(value, DECIMAL, c)))
                     + Repeat(' ', if c.flags.minus then pad else 0)))
  {
    hide Reverse, Buffered, Repeat, SignText;
    var pad := FieldPadding(value, negative, c);
    RepeatNone(' ');
    RepeatNone('0');
    assert Prefix(value, DECIMAL, c.flags) == "";
    Regroup(Padding(!c.flags.minus && !c.flags.zero, ' ', pad), SignText(true, negative, c.flags),
            Padding(c.flags.zero, '0', pad), Reverse(Buffered(value, DECIMAL, c)), Padding(c.flags.minus, ' ', pad));
  }

  /** Formatting loses nothing: atoi of an int formatted in decimal gives that int back, whatever the width,
      the precision and the flags other than grouping, and never overflows on the way. */
  lemma FormattedReadsBack(v: I32, c: Conversion)
    requires !c.flags.group
    ensures Read(Formatted(Abs(v), true, v < 0, DECIMAL, c)) == Number(v)
  {
    hide Value, Reverse, Buffered, Repeat, FieldPadding, SignText, Read, InRange, Formatted;
    var size := Abs(v);
    var body := Reverse(Buffered(size, DECIMAL, c));
    var pad := FieldPadding(size, v < 0, c);
    var zeros := if c.flags.zero then pad else 0;
    FormattedShape(size, v < 0, c);
    BufferedDigits(size, c);
    BufferedValue(size, DECIMAL, c);
    RepeatedZeros(zeros);
    ZerosWorthless(zeros, body, 10);
    SignOf(v, c.flags);
    PaddedReads(if !c.flags.minus && !c.flags.zero then pad else 0, SignText(true, v < 0, c.flags),
                Repeat('0', zeros) + body, if c.flags.minus then pad else 0);
  }

  lemma SignOf(v: I32, flags: Flags)
    ensures var size := Abs(v);
            InRange(if SignText(true, v < 0, flags) == "-" then 0 - size else size) == Number(v)
    ensures var sign := SignText(true, v < 0, flags); sign == "" || sign == " " || sign == "+" || sign == "-"
  {
  }

  lemma Regroup(a: string, b: string, c: string, d: string, e: string)
    ensures a + b + "" + c + d + e == a + (b + ((c + d) + e))
  {
  }

  lemma RepeatNone(ch: char)
    ensures Repeat(ch, 0) == ""
  {
  }

  lemma RepeatedZeros(n: nat)
    ensures AllDigits(Repeat('0', n))
  {
  }

  lemma BufferedDigits(value: nat, c: Conversion)
    requires !c.flags.group
    ensures AllDigits(Reverse(Buffered(value, DECIMAL, c)))
  {
    hide Digits, Reverse, PrecisionZeros;
    DigitsAreDigits(value, 0);
    ReversedDigits(Buffered(value, DECIMAL, c));
  }
}
