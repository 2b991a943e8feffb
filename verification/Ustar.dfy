/** Headers of ustar archives: IEEE Std 1003.1, the pax utility, "ustar Interchange Format". A header is a
    row of fields of fixed sizes, 512 characters in all. */
module Ustar {
  import opened Basics
  import opened Format

  const HEADER_SIZE := 512
  const FIELDS := 17

  const NAME := 0
  const MODE := 1
  const UID := 2
  const GID := 3
  const SIZE := 4
  const MTIME := 5
  const CHKSUM := 6
  const TYPEFLAG := 7
  const LINKNAME := 8
  const MAGIC := 9
  const VERSION := 10
  const UNAME := 11
  const GNAME := 12
  const DEVMAJOR := 13
  const DEVMINOR := 14
  const PREFIX := 15
  const PADDING := 16

  const MODIFICATION_TIME := 1136102400
  const ULONG_MAX := 0xffff_ffff

  datatype FileType = Regular | Directory

  datatype Parsing = EndOfArchive | Entry(name: string, kind: FileType, size: nat) | Rejected(reason: string)

  // --------------------------------------------------------------------------
  // The fields of a header

  function FieldSize(k: nat): (n: nat)
    ensures n > 0
  {
    if k == NAME || k == LINKNAME then 100
    else if k == SIZE || k == MTIME || k == PADDING then 12
    else if k == TYPEFLAG then 1
    else if k == MAGIC then 6
    else if k == VERSION then 2
    else if k == UNAME || k == GNAME then 32
    else if k == PREFIX then 155
    else 8
  }

  /** Where a field starts. */
  function Start(k: nat): nat {
    if k == 0 then 0 else Start(k - 1) + FieldSize(k - 1)
  }

  lemma HeaderSize()
    ensures Start(FIELDS) == HEADER_SIZE
  {
    assert Start(4) == 124;
    assert Start(8) == 157;
    assert Start(12) == 297;
    assert Start(16) == 500;
  }

  lemma {:induction false} FieldsInside(k: nat, n: nat)
    requires k < n
    ensures Start(k) + FieldSize(k) <= Start(n)
    decreases n
  {
    hide FieldSize;
    if k < n - 1 {
      FieldsInside(k, n - 1);
    }
  }

  predicate Shaped(fields: seq<string>) {
    forall k :: 0 <= k < |fields| ==> |fields[k]| == FieldSize(k)
  }

  function Flatten(fields: seq<string>): string {
    if fields == [] then "" else Flatten(fields[..|fields| - 1]) + fields[|fields| - 1]
  }

  function FieldOf(h: string, k: nat): (f: string)
    requires |h| == HEADER_SIZE && k < FIELDS
    ensures |f| == FieldSize(k)
  {
    HeaderSize();
    FieldsInside(k, FIELDS);
    h[Start(k)..Start(k) + FieldSize(k)]
  }

  lemma {:induction false} FlattenLength(fields: seq<string>)
    requires Shaped(fields)
    ensures |Flatten(fields)| == Start(|fields|)
  {
    hide FieldSize;
    if fields != [] {
      FlattenLength(fields[..|fields| - 1]);
    }
  }

  /** Each field is found where it starts. */
  lemma {:induction false} FieldFound(fields: seq<string>, k: nat)
    requires Shaped(fields) && k < |fields|
    ensures Start(k) + FieldSize(k) <= |Flatten(fields)|
    ensures Flatten(fields)[Start(k)..Start(k) + FieldSize(k)] == fields[k]
    decreases |fields|
  {
    hide FieldSize;
    var front := fields[..|fields| - 1];
    FlattenLength(fields);
    FlattenLength(front);
    FieldsInside(k, |fields|);
    if k < |fields| - 1 {
      FieldsInside(k, |front|);
      FieldFound(front, k);
      assert front[k] == fields[k];
    } else {
      assert Start(|fields|) == Start(k) + FieldSize(k);
    }
  }

  /** Characters written at the start of a field change that field only. */
  lemma {:induction false} FieldWritten(fields: seq<string>, k: nat, s: string)
    requires Shaped(fields) && k < |fields| && |s| <= FieldSize(k)
    ensures Start(k) + |s| <= |Flatten(fields)|
    ensures Overwritten(Flatten(fields), Start(k), s) == Flatten(fields[k := Overwritten(fields[k], 0, s)])
    decreases |fields|
  {
    hide FieldSize;
    var front := fields[..|fields| - 1];
    FieldFound(fields, k);
    FlattenLength(fields);
    FlattenLength(front);
    var changed := fields[k := Overwritten(fields[k], 0, s)];
    if k < |fields| - 1 {
      FieldsInside(k, |front|);
      FieldWritten(front, k, s);
      assert changed[..|fields| - 1] == front[k := Overwritten(front[k], 0, s)];
      OverwrittenAppend(Flatten(front), Start(k), s, fields[|fields| - 1]);
    } else {
      assert changed[..|fields| - 1] == front;
      OverwrittenAfter(Flatten(front), fields[k], s);
    }
  }

  lemma OverwrittenAppend(a: string, start: nat, s: string, b: string)
    requires start + |s| <= |a|
    ensures Overwritten(a + b, start, s) == Overwritten(a, start, s) + b
  {
  }

  lemma OverwrittenAfter(a: string, b: string, s: string)
    requires |s| <= |b|
    ensures Overwritten(a + b, |a|, s) == a + Overwritten(b, 0, s)
  {
  }

  // --------------------------------------------------------------------------
  // Names

  predicate StartsWith(s: string, prefix: string) {
    |prefix| <= |s| && s[..|prefix|] == prefix
  }

  predicate Antisocial(s: string) {
    StartsWith(s, "/") || StartsWith(s, "./") || StartsWith(s, "../")
  }

  /** What follows the first slash. */
  function AfterSlash(s: string): (r: string)
    requires '/' in s
    ensures |r| < |s| && r == s[|s| - |r|..]
  {
    if s[0] == '/' then s[1..] else AfterSlash(s[1..])
  }

  function Unprefixed(s: string): (r: string)
    ensures !Antisocial(r) && |r| <= |s| && r == s[|s| - |r|..]
    decreases |s|
  {
    if Antisocial(s) then SlashIn(s); Unprefixed(AfterSlash(s)) else s
  }

  lemma SlashIn(s: string)
    requires Antisocial(s)
    ensures '/' in s
  {
    if StartsWith(s, "/") {
      assert s[0] == s[..1][0];
    } else if StartsWith(s, "./") {
      assert s[1] == s[..2][1];
    } else {
      assert s[2] == s[..3][2];
    }
  }

  function Strip(s: string): string {
    var name := Unprefixed(s);
    if name == "" || name == ".." then "." else name
  }

  method StripAntisocialPrefixes(fileName: string) returns (name: string)
    ensures name == Strip(fileName)
  {
    name := fileName;
    while StartsWith(name, "/") || StartsWith(name, "./") || StartsWith(name, "../")
      invariant Unprefixed(name) == Unprefixed(fileName)
      decreases |name|
    {
      SlashIn(name);
      name := AfterSlash(name);
    }
    if name == "" || name == ".." {
      name := ".";
    }
  }

  /** Stripping goes on with what follows a prefix, and takes nothing else away: with `StripPlain` this says what
      the result is for every name. */
  lemma StripPrefix(s: string)
    ensures Strip("/" + s) == Strip(s) && Strip("./" + s) == Strip(s) && Strip("../" + s) == Strip(s)
  {
    hide Strip;
    StripSlash("", s);
    StripSlash(".", s);
    StripSlash("..", s);
    assert "" + "/" == "/" && "." + "/" == "./" && ".." + "/" == "../";
  }

  lemma StripSlash(dots: string, s: string)
    requires dots == "" || dots == "." || dots == ".."
    ensures Strip(dots + "/" + s) == Strip(s)
  {
    hide Antisocial;
    PrefixFound(dots, s);
    SlashSplits(dots + "/" + s, dots, s);
  }

  lemma PrefixFound(dots: string, s: string)
    requires dots == "" || dots == "." || dots == ".."
    ensures Antisocial(dots + "/" + s)
  {
    var t := dots + "/" + s;
    assert t[..|dots| + 1] == dots + "/";
  }

  lemma StripPlain(s: string)
    ensures !Antisocial(s) && s != "" && s != ".." ==> Strip(s) == s
    ensures Strip("") == "." && Strip("..") == "."
  {
    NoPrefix();
    hide Antisocial;
  }

  lemma NoPrefix()
    ensures !Antisocial("") && !Antisocial("..")
  {
    assert ".."[..1][0] == '.' && ".."[..2][1] == '.';
  }

  /** A stripped name starts with no antisocial prefix, and is what is left of the name or stands for the
      directory itself. */
  lemma StrippedIsSafe(s: string)
    ensures !Antisocial(Strip(s)) && Strip(s) != "" && Strip(s) != ".."
    ensures Strip(s) == "." || (|Strip(s)| <= |s| && Strip(s) == s[|s| - |Strip(s)|..])
  {
    NotAntisocial();
  }

  lemma NotAntisocial()
    ensures !Antisocial(".") && Unprefixed(".") == "."
  {
    assert "."[..1][0] == '.';
  }

  lemma StripTwice(s: string)
    ensures Strip(Strip(s)) == Strip(s)
  {
    hide Antisocial;
    StrippedIsSafe(s);
  }

  // --------------------------------------------------------------------------
  // Octal fields

  predicate IsOctal(ch: char) {
    '0' <= ch <= '7'
  }

  predicate AllOctal(s: string) {
    forall i :: 0 <= i < |s| ==> IsOctal(s[i])
  }

  function OctalDigits(s: string): (n: nat)
    ensures n <= |s| && (forall i :: 0 <= i < n ==> IsOctal(s[i])) && (n < |s| ==> !IsOctal(s[n]))
  {
    if s != "" && IsOctal(s[0]) then
      assert forall k :: 0 < k < |s| ==> s[k] == s[1..][k - 1];
      1 + OctalDigits(s[1..])
    else 0
  }

  /** The number in a field: octal digits, at least one, and a space or a null character after them. */
  function OctalField(s: string): Option<nat> {
    var n := OctalDigits(s);
    if n == 0 || n == |s| || (s[n] != ' ' && s[n] != '\0') || Value(s[..n], 8) > ULONG_MAX then None
    else Some(Value(s[..n], 8))
  }

  method ParseOctalField(s: string) returns (r: Option<nat>)
    ensures r == OctalField(s)
  {
    hide Value, OctalDigits, DigitValue;
    var value: nat := 0;
    NoValue(8);
    var ofs := 0;
    while ofs < |s|
      invariant 0 <= ofs <= |s| && forall i :: 0 <= i < ofs ==> IsOctal(s[i])
      invariant value == Value(s[..ofs], 8) <= ULONG_MAX
    {
      var c := s[ofs];
      if '0' <= c <= '7' {
        assert s[..ofs] + [c] == s[..ofs + 1];
        ValueSnoc(s[..ofs], c, 8);
        OctalDigitValue(c);
        if value > ULONG_MAX / 8 {
          DigitsFrom(s, ofs + 1);
          ValueGrows(s[..ofs + 1], s[..OctalDigits(s)][ofs + 1..], 8);
          assert s[..ofs + 1] + s[..OctalDigits(s)][ofs + 1..] == s[..OctalDigits(s)];
          return None;
        }
        value := c as nat - '0' as nat + value * 8;
      } else {
        DigitsEnd(s, ofs);
        if c == ' ' || c == '\0' {
          return if ofs > 0 then Some(value) else None;
        } else {
          return None;
        }
      }
      ofs := ofs + 1;
    }
    DigitsFrom(s, |s|);
    return None;
  }

  lemma OctalDigitValue(ch: char)
    requires IsOctal(ch)
    ensures DigitValue(ch) == ch as nat - '0' as nat && ch != ','
  {
  }

  lemma DigitsFrom(s: string, n: nat)
    requires n <= |s| && (forall i :: 0 <= i < n ==> IsOctal(s[i]))
    ensures OctalDigits(s) >= n
  {
    hide OctalDigits, IsOctal;
  }

  lemma DigitsEnd(s: string, n: nat)
    requires n < |s| && (forall i :: 0 <= i < n ==> IsOctal(s[i])) && !IsOctal(s[n])
    ensures OctalDigits(s) == n
  {
    hide OctalDigits, IsOctal;
    DigitsFrom(s, n);
  }

  /** The conversion %0<width>o. */
  function OctalConversion(width: nat): Conversion {
    Conversion(Flags(false, false, false, false, true, false), width, -1)
  }

  function OctalText(value: nat, width: nat): string {
    Formatted(value, false, false, OCTAL, OctalConversion(width))
  }

  lemma {:induction false} OctalDigitsOf(value: nat, count: nat, n: nat)
    requires value < Power(8, n)
    ensures AllOctal(Digits(value, OCTAL, false, count)) && |Digits(value, OCTAL, false, count)| <= n
    decreases n
  {
    hide Digits;
    if value > 0 {
      if n > 0 {
        PowerStep(value, 8, n);
        OctalDigitsOf(value / 8, count + 1, n - 1);
        NextDigit(value, OCTAL, false, count);
        OctalDigit(value % 8);
      } else {
        assert false;
      }
    } else {
      NoDigits(OCTAL, false, count);
    }
  }

  lemma OctalDigit(d: nat)
    requires d < 8
    ensures IsOctal(OCTAL.digits[d])
  {
  }

  lemma {:induction false} ReversedOctal(s: string)
    requires AllOctal(s)
    ensures AllOctal(Reverse(s))
  {
    if s != "" {
      ReversedOctal(s[1..]);
    }
  }

  /** A number printed in octal over a field's width fills the width, and its digits are worth the number. */
  lemma OctalTextValue(value: nat, width: nat)
    requires width > 0 && value < Power(8, width)
    ensures |OctalText(value, width)| == width && AllOctal(OctalText(value, width))
    ensures Value(OctalText(value, width), 8) == value
  {
    hide Value, Digits, Power, Reverse, Repeat;
    var c := OctalConversion(width);
    var body := Buffered(value, OCTAL, c);
    OctalDigitsOf(value, 0, width);
    BufferedValue(value, OCTAL, c);
    AllZeros(1);
    AllZeros(0);
    ReversedOctal(body);
    var pad := if |body| < width then width - |body| else 0;
    AllZeros(pad);
    ZerosWorthless(pad, Reverse(body), 8);
    OctalShape(value, width);
  }

  lemma AllZeros(n: nat)
    ensures AllOctal(Repeat('0', n))
  {
  }

  lemma OctalShape(value: nat, width: nat)
    ensures var body := Buffered(value, OCTAL, OctalConversion(width));
            OctalText(value, width) == Repeat('0', if |body| < width then width - |body| else 0) + Reverse(body)
  {
    hide Buffered, Reverse, Repeat;
  }

  /** A field holding an octal text is read back as the number printed. */
  lemma OctalReadsBack(value: nat, width: nat)
    requires width > 0 && value < Power(8, width) && value <= ULONG_MAX
    ensures OctalField(OctalText(value, width) + "\0") == Some(value)
  {
    hide Value, OctalText, Power, OctalDigits;
    var t := OctalText(value, width);
    OctalTextValue(value, width);
    assert (t + "\0")[..width] == t;
    DigitsEnd(t + "\0", width);
  }

  // --------------------------------------------------------------------------
  // The checksum

  predicate InChecksum(i: nat) {
    Start(CHKSUM) <= i < Start(CHKSUM) + FieldSize(CHKSUM)
  }

  /** The sum of the first n octets, the checksum field counted as spaces. */
  function Sum(h: string, n: nat): nat
    requires n <= |h|
  {
    if n == 0 then 0
    else Sum(h, n - 1) + if InChecksum(n - 1) then ' ' as nat else h[n - 1] as nat % 256
  }

  method CalculateChecksum(h: string) returns (chksum: nat)
    requires |h| == HEADER_SIZE
    ensures chksum == Sum(h, HEADER_SIZE)
  {
    chksum := 0;
    var i := 0;
    while i < HEADER_SIZE
      invariant 0 <= i <= HEADER_SIZE && chksum == Sum(h, i)
    {
      var inChksumField := Start(CHKSUM) <= i < Start(CHKSUM) + FieldSize(CHKSUM);
      chksum := chksum + if inChksumField then ' ' as nat else h[i] as nat % 256;
      i := i + 1;
    }
  }

  lemma {:induction false} SumBounded(h: string, n: nat)
    requires n <= |h|
    ensures Sum(h, n) <= 255 * n
  {
    hide InChecksum;
    if n > 0 {
      SumBounded(h, n - 1);
    }
  }

  /** The checksum does not depend on what the checksum field holds. */
  lemma {:induction false} SumIgnoresField(h: string, g: string, n: nat)
    requires n <= |h| && n <= |g|
    requires forall i :: 0 <= i < n && !InChecksum(i) ==> h[i] == g[i]
    ensures Sum(h, n) == Sum(g, n)
  {
    hide InChecksum;
    if n > 0 {
      SumIgnoresField(h, g, n - 1);
    }
  }

  /** One octet more or less changes the sum by exactly the difference. */
  lemma {:induction false} SumChanged(h: string, i: nat, ch: char, n: nat)
    requires i < n <= |h| && !InChecksum(i)
    ensures Sum(h[i := ch], n) == Sum(h, n) - h[i] as nat % 256 + ch as nat % 256
  {
    hide InChecksum;
    if i < n - 1 {
      SumChanged(h, i, ch, n - 1);
    } else {
      SumIgnoresField(h, h[i := ch], n - 1);
    }
  }

  // --------------------------------------------------------------------------
  // Making a header

  function Nulls(n: nat): string {
    Repeat('\0', n)
  }

  /** A text in a field, as far as it fits, with null characters after it. */
  function Filled(s: string, n: nat): (f: string)
    ensures |f| == n
  {
    if |s| <= n then s + Nulls(n - |s|) else s[..n]
  }

  function TypeFlag(kind: FileType): char {
    if kind == Regular then '0' else '5'
  }

  /** An int argument converted by %o is taken as an unsigned one. */
  function AsUnsigned(size: I32): nat {
    if size < 0 then size + 0x1_0000_0000 else size
  }

  /** What a header's field holds, given its checksum. */
  function Content(k: nat, name: string, kind: FileType, size: I32, chksum: string): string {
    if k == NAME then name
    else if k == MODE then OctalText(Mode(kind), 7)
    else if k == UID || k == GID then "0000000"
    else if k == SIZE then OctalText(AsUnsigned(size), 11)
    else if k == MTIME then OctalText(MODIFICATION_TIME, 11)
    else if k == CHKSUM then chksum
    else if k == TYPEFLAG then [TypeFlag(kind)]
    else if k == MAGIC then "ustar"
    else if k == VERSION then "00"
    else if k == UNAME || k == GNAME then "root"
    else ""
  }

  function HeaderFields(name: string, kind: FileType, size: I32, chksum: string): (fields: seq<string>)
    ensures |fields| == FIELDS && Shaped(fields)
  {
    seq(FIELDS, k requires 0 <= k < FIELDS => Filled(Content(k, name, kind, size, chksum), FieldSize(k)))
  }

  function Mode(kind: FileType): nat {
    // 0644 and 0755 in octal.
    if kind == Regular then 420 else 493
  }

  lemma NumbersFit(kind: FileType, size: I32)
    ensures |OctalText(AsUnsigned(size), 11)| == |OctalText(MODIFICATION_TIME, 11)| == 11
    ensures |OctalText(Mode(kind), 7)| == 7
    ensures AsUnsigned(size) < Power(8, 11) && HEADER_SIZE * 255 < Power(8, 7)
  {
    hide OctalText;
    PowersOfEight();
    OctalTextValue(AsUnsigned(size), 11);
    OctalTextValue(MODIFICATION_TIME, 11);
    OctalTextValue(Mode(kind), 7);
  }

  lemma PowersOfEight()
    ensures Power(8, 7) == 0x20_0000 && Power(8, 11) == 0x2_0000_0000
  {
    assert Power(8, 3) == 512;
    assert Power(8, 7) == 0x20_0000;
  }

  function Packed(fields: seq<string>): (h: string)
    requires |fields| == FIELDS && Shaped(fields)
    ensures |h| == HEADER_SIZE
  {
    HeaderLength(fields);
    Flatten(fields)
  }

  function ChecksumText(h: string): string
    requires |h| == HEADER_SIZE
  {
    OctalText(Sum(h, HEADER_SIZE), 7)
  }

  /** A header for a file: its checksum field holds the checksum that its other fields have. */
  function HeaderOf(name: string, kind: FileType, size: I32): (h: string)
    ensures |h| == HEADER_SIZE
  {
    Packed(HeaderFields(name, kind, size, ChecksumText(Packed(HeaderFields(name, kind, size, "")))))
  }

  lemma HeaderLength(fields: seq<string>)
    requires |fields| == FIELDS && Shaped(fields)
    ensures |Flatten(fields)| == HEADER_SIZE
  {
    hide Shaped, Flatten;
    FlattenLength(fields);
    HeaderSize();
  }

  /** The fields that one more write fills. */
  lemma FieldFilled(fields: seq<string>, k: nat, text: string)
    requires |fields| == FIELDS && Shaped(fields) && k < FIELDS
    requires fields[k] == Nulls(FieldSize(k)) && |text| < FieldSize(k)
    ensures |Flatten(fields)| == HEADER_SIZE && Start(k) + FieldSize(k) <= HEADER_SIZE
    ensures Overwritten(Flatten(fields), Start(k), Stored(text, FieldSize(k)))
            == Flatten(fields[k := Filled(text, FieldSize(k))])
  {
    hide FieldSize, Start, Flatten;
    HeaderLength(fields);
    HeaderSize();
    FieldsInside(k, FIELDS);
    FieldWritten(fields, k, Stored(text, FieldSize(k)));
    assert Overwritten(fields[k], 0, Stored(text, FieldSize(k))) == Filled(text, FieldSize(k));
  }

  /** Copies a string with its terminator, as far as it fits. */
  method Strlcpy(buffer: array<char>, start: nat, size: nat, s: string)
    requires start + size <= buffer.Length
    modifies buffer
    ensures buffer[..] == Overwritten(old(buffer[..]), start, Stored(s, size))
  {
    if size > 0 {
      var dstLen := if |s| > size - 1 then size - 1 else |s|;
      forall k | 0 <= k < dstLen {
        buffer[start + k] := s[k];
      }
      buffer[start + dstLen] := '\0';
    }
  }

  /** A header under construction. */
  ghost predicate Holds(header: array<char>, fields: seq<string>)
    reads header
  {
    header.Length == HEADER_SIZE && |fields| == FIELDS && Shaped(fields) && header[..] == Flatten(fields)
  }

  /** The fields of a header under construction: those done are as wanted, the others still null. */
  function Partly(target: seq<string>, done: set<nat>): (fields: seq<string>)
    requires |target| == FIELDS && Shaped(target)
    ensures |fields| == FIELDS && Shaped(fields)
  {
    seq(FIELDS, k requires 0 <= k < FIELDS => if k in done then target[k] else Nulls(FieldSize(k)))
  }

  lemma OneMoreField(target: seq<string>, done: set<nat>, k: nat)
    requires |target| == FIELDS && Shaped(target) && k < FIELDS && k !in done
    ensures Partly(target, done)[k] == Nulls(FieldSize(k))
    ensures Partly(target, done)[k := target[k]] == Partly(target, done + {k})
  {
    hide FieldSize, Nulls;
  }

  method SetText(header: array<char>, ghost target: seq<string>, ghost done: set<nat>, k: nat, s: string)
    returns (ghost done': set<nat>)
    requires |target| == FIELDS && Shaped(target) && Holds(header, Partly(target, done))
    requires k < FIELDS && k !in done && |s| < FieldSize(k) && target[k] == Filled(s, FieldSize(k))
    modifies header
    ensures Holds(header, Partly(target, done')) && done' == done + {k}
  {
    hide FieldSize, Start, Flatten, Overwritten, Stored, Filled, Partly;
    OneMoreField(target, done, k);
    FieldFilled(Partly(target, done), k, s);
    Strlcpy(header, Start(k), FieldSize(k), s);
    done' := done + {k};
  }

  method SetNumber(header: array<char>, ghost target: seq<string>, ghost done: set<nat>, k: nat, value: U64, width: nat)
    returns (ghost done': set<nat>)
    requires |target| == FIELDS && Shaped(target) && Holds(header, Partly(target, done))
    requires k < FIELDS && k !in done
    requires |OctalText(value, width)| < FieldSize(k) && target[k] == Filled(OctalText(value, width), FieldSize(k))
    modifies header
    ensures Holds(header, Partly(target, done')) && done' == done + {k}
  {
    hide FieldSize, Start, Flatten, Overwritten, Stored, Filled, Partly, Formatted, IsBase;
    BaseOctal();
    var text := FormatInteger(value, false, false, OCTAL, OctalConversion(width));
    OneMoreField(target, done, k);
    FieldFilled(Partly(target, done), k, text);
    var _ := Snprintf(header, Start(k), FieldSize(k), text);
    done' := done + {k};
  }

  lemma BaseOctal()
    ensures IsBase(OCTAL)
  {
  }

  /** Assigns the characters of a field that has no terminator. */
  method SetChars(header: array<char>, ghost target: seq<string>, ghost done: set<nat>, k: nat, s: string)
    returns (ghost done': set<nat>)
    requires |target| == FIELDS && Shaped(target) && Holds(header, Partly(target, done))
    requires k < FIELDS && k !in done && |s| == FieldSize(k) && target[k] == Filled(s, FieldSize(k))
    modifies header
    ensures Holds(header, Partly(target, done')) && done' == done + {k}
  {
    hide FieldSize, Start, Flatten, Partly;
    HeaderSize();
    FieldsInside(k, FIELDS);
    OneMoreField(target, done, k);
    ghost var fields := Partly(target, done);
    FieldWritten(fields, k, s);
    forall i | 0 <= i < |s| {
      header[Start(k) + i] := s[i];
    }
    assert header[..] == Overwritten(old(header[..]), Start(k), s);
    assert Overwritten(fields[k], 0, s) == s == Filled(s, FieldSize(k));
    done' := done + {k};
  }

  method ClearHeader(header: array<char>, ghost target: seq<string>)
    requires |target| == FIELDS && Shaped(target) && header.Length == HEADER_SIZE
    modifies header
    ensures Holds(header, Partly(target, {}))
  {
    forall i | 0 <= i < HEADER_SIZE {
      header[i] := '\0';
    }
    hide FieldSize;
    NullFields(Partly(target, {}));
    HeaderLength(Partly(target, {}));
  }

  lemma {:induction false} NullFields(fields: seq<string>)
    requires forall k :: 0 <= k < |fields| ==> fields[k] == Nulls(FieldSize(k))
    ensures forall i :: 0 <= i < |Flatten(fields)| ==> Flatten(fields)[i] == '\0'
  {
    if fields != [] {
      NullFields(fields[..|fields| - 1]);
    }
  }

  const NUMBERS: set<nat> := {NAME, MODE, UID, GID, SIZE, MTIME}
  const FILLED: set<nat> := NUMBERS + {TYPEFLAG, MAGIC, VERSION, GNAME, UNAME}

  /** Fills in the fields of a header, apart from the checksum. */
  method FillFields(header: array<char>, name: string, kind: FileType, size: I32)
    requires header.Length == HEADER_SIZE && |name| < 100
    modifies header
    ensures Holds(header, HeaderFields(name, kind, size, ""))
  {
    hide Flatten, Filled, OctalText, Shaped, Holds, Partly;
    FillNumbers(header, name, kind, size);
    ghost var target := HeaderFields(name, kind, size, "");
    ghost var done := NUMBERS;
    done := SetChars(header, target, done, TYPEFLAG, [TypeFlag(kind)]);
    done := SetText(header, target, done, MAGIC, "ustar");
    done := SetChars(header, target, done, VERSION, "00");
    done := SetText(header, target, done, GNAME, "root");
    done := SetText(header, target, done, UNAME, "root");
    assert done == FILLED;
    FieldsFilled(name, kind, size, "");
  }

  method FillNumbers(header: array<char>, name: string, kind: FileType, size: I32)
    requires header.Length == HEADER_SIZE && |name| < 100
    modifies header
    ensures Holds(header, Partly(HeaderFields(name, kind, size, ""), NUMBERS))
  {
    hide Flatten, Filled, OctalText, Shaped, Holds, Partly;
    NumbersFit(kind, size);
    ghost var target := HeaderFields(name, kind, size, "");
    ClearHeader(header, target);
    ghost var done: set<nat> := {};
    done := SetText(header, target, done, NAME, name);
    done := SetNumber(header, target, done, MODE, Mode(kind), 7);
    done := SetText(header, target, done, UID, "0000000");
    done := SetText(header, target, done, GID, "0000000");
    done := SetNumber(header, target, done, SIZE, AsUnsigned(size), 11);
    done := SetNumber(header, target, done, MTIME, MODIFICATION_TIME, 11);
    assert done == NUMBERS;
  }

  /** The fields filled in, and the others null, make a header without its checksum. */
  lemma FieldsFilled(name: string, kind: FileType, size: I32, chksum: string)
    ensures Partly(HeaderFields(name, kind, size, chksum), FILLED) == HeaderFields(name, kind, size, "")
    ensures Partly(HeaderFields(name, kind, size, chksum), FILLED + {CHKSUM}) == HeaderFields(name, kind, size, chksum)
  {
    hide Content, Filled, FieldSize;
    EmptyField();
    OtherContent(name, kind, size, chksum);
    NullContent(name, kind, size, chksum);
    NullContent(name, kind, size, "");
  }

  lemma NullContent(name: string, kind: FileType, size: I32, chksum: string)
    ensures CHKSUM !in FILLED
    ensures forall k :: 0 <= k < FIELDS && k !in FILLED && k != CHKSUM ==> Content(k, name, kind, size, chksum) == ""
    ensures Content(CHKSUM, name, kind, size, chksum) == chksum
  {
    hide OctalText, Mode;
  }

  lemma EmptyField()
    ensures forall n :: Filled("", n) == Nulls(n)
  {
    forall n: nat
      ensures Filled("", n) == Nulls(n)
    {
      assert "" + Nulls(n) == Nulls(n);
    }
  }

  /** Makes the header of a file, unless its name is too long once its antisocial prefixes are gone. */
  method MakeHeader(fileName: string, kind: FileType, size: I32, header: array<char>) returns (ok: bool)
    requires header.Length == HEADER_SIZE
    modifies header
    ensures ok == (|Strip(fileName)| <= 99)
    ensures header[..] == if ok then HeaderOf(Strip(fileName), kind, size) else old(header[..])
  {
    hide Strip, Flatten, HeaderFields, OctalText, Sum, Shaped, Partly;
    var name := StripAntisocialPrefixes(fileName);
    if |name| > 99 {
      return false;
    }
    FillFields(header, name, kind, size);
    var chksum := CalculateChecksum(header[..]);
    NumbersFit(kind, size);
    SumBounded(header[..], HEADER_SIZE);
    OctalTextValue(chksum, 7);
    ghost var target := HeaderFields(name, kind, size, OctalText(chksum, 7));
    FieldsFilled(name, kind, size, OctalText(chksum, 7));
    ChecksumField(name, kind, size, OctalText(chksum, 7));
    ghost var _ := SetNumber(header, target, FILLED, CHKSUM, chksum, 7);
    return true;
  }

  lemma ChecksumField(name: string, kind: FileType, size: I32, chksum: string)
    ensures HeaderFields(name, kind, size, chksum)[CHKSUM] == Filled(chksum, 8) && FieldSize(CHKSUM) == 8
  {
    hide OctalText, Filled;
  }

  // --------------------------------------------------------------------------
  // Parsing a header

  /** The string that starts a row of characters, up to a terminator. */
  function CString(s: string): string {
    if s == "" || s[0] == '\0' then "" else [s[0]] + CString(s[1..])
  }

  predicate AllNull(h: string) {
    forall i :: 0 <= i < |h| ==> h[i] == '\0'
  }

  function Parse(h: string): Parsing
    requires |h| == HEADER_SIZE
  {
    if AllNull(h) then EndOfArchive
    else if FieldOf(h, MAGIC) != "ustar\0" then Rejected("not a ustar archive")
    else if FieldOf(h, VERSION) != "00" then Rejected("invalid ustar version")
    else if OctalField(FieldOf(h, CHKSUM)).None? then Rejected("corrupt chksum field")
    else if OctalField(FieldOf(h, CHKSUM)).value != Sum(h, HEADER_SIZE) then Rejected("checksum mismatch")
    else if FieldOf(h, NAME)[99] != '\0' || FieldOf(h, PREFIX)[0] != '\0' then Rejected("file name too long")
    else ParseFile(h)
  }

  /** The type and the size of a file, once its header is known to be sound. */
  function ParseFile(h: string): Parsing
    requires |h| == HEADER_SIZE
  {
    var flag, name := FieldOf(h, TYPEFLAG)[0], Strip(CString(FieldOf(h, NAME)));
    if flag == TypeFlag(Directory) then Entry(name, Directory, 0)
    else if flag != TypeFlag(Regular) then Rejected("unimplemented file type")
    else
      match OctalField(FieldOf(h, SIZE))
      case None => Rejected("corrupt file size field")
      case Some(size) => if size > INT_MAX then Rejected("file too large") else Entry(name, Regular, size)
  }

  method IsAllZeros(block: string) returns (r: bool)
    ensures r == AllNull(block)
  {
    var i := 0;
    while i < |block|
      invariant 0 <= i <= |block| && AllNull(block[..i])
    {
      if block[i] != '\0' {
        return false;
      }
      assert block[..i + 1] == block[..i] + [block[i]];
      i := i + 1;
    }
    assert block[..i] == block;
    return true;
  }

  method ParseHeader(header: string) returns (r: Parsing)
    requires |header| == HEADER_SIZE
    ensures r == Parse(header)
  {
    hide Sum, OctalField, Strip, AllNull, FieldSize, Start, CString;
    var end := IsAllZeros(header);
    if end {
      return EndOfArchive;
    }
    FieldSizes();
    var chksum := ParseOctalField(FieldOf(header, CHKSUM));
    var actual := CalculateChecksum(header);
    if FieldOf(header, MAGIC) != "ustar\0" {
      return Rejected("not a ustar archive");
    } else if FieldOf(header, VERSION)[0] != '0' || FieldOf(header, VERSION)[1] != '0' {
      return Rejected("invalid ustar version");
    } else if chksum.None? {
      return Rejected("corrupt chksum field");
    } else if chksum.value != actual {
      return Rejected("checksum mismatch");
    } else if FieldOf(header, NAME)[99] != '\0' || FieldOf(header, PREFIX)[0] != '\0' {
      return Rejected("file name too long");
    }
    var flag := FieldOf(header, TYPEFLAG)[0];
    if flag != '0' && flag != '5' {
      return Rejected("unimplemented file type");
    }
    var size := 0;
    if flag == '0' {
      var parsed := ParseOctalField(FieldOf(header, SIZE));
      if parsed.None? {
        return Rejected("corrupt file size field");
      } else if parsed.value > INT_MAX {
        return Rejected("file too large");
      }
      size := parsed.value;
    }
    var name := StripAntisocialPrefixes(CString(FieldOf(header, NAME)));
    return Entry(name, if flag == '0' then Regular else Directory, size);
  }

  lemma FieldSizes()
    ensures FieldSize(NAME) == 100 && FieldSize(TYPEFLAG) == 1 && FieldSize(VERSION) == 2
    ensures FieldSize(CHKSUM) == 8 && FieldSize(PREFIX) == 155
  {
  }

  // --------------------------------------------------------------------------
  // What is made is parsed back

  lemma {:induction false} FilledString(s: string, n: nat)
    requires '\0' !in s && |s| <= n
    ensures CString(Filled(s, n)) == s
  {
    if s != "" {
      FilledString(s[1..], n - 1);
      assert Filled(s, n)[1..] == Filled(s[1..], n - 1);
    }
  }

  lemma PackedField(fields: seq<string>, k: nat)
    requires |fields| == FIELDS && Shaped(fields) && k < FIELDS
    ensures FieldOf(Packed(fields), k) == fields[k]
  {
    hide FieldSize, Start, Flatten, Shaped;
    FieldFound(fields, k);
  }

  /** Packing another checksum leaves the sum as it is. */
  lemma ChecksumInvariant(name: string, kind: FileType, size: I32, chksum: string)
    ensures Sum(Packed(HeaderFields(name, kind, size, chksum)), HEADER_SIZE)
            == Sum(Packed(HeaderFields(name, kind, size, "")), HEADER_SIZE)
  {
    hide FieldSize, Start, Flatten, Sum, OctalText, Content, Filled;
    var blank, fields := HeaderFields(name, kind, size, ""), HeaderFields(name, kind, size, chksum);
    var h := Packed(blank);
    FieldWritten(blank, CHKSUM, fields[CHKSUM]);
    FlattenedLength(blank);
    assert Overwritten(blank[CHKSUM], 0, fields[CHKSUM]) == fields[CHKSUM];
    OtherContent(name, kind, size, chksum);
    assert blank[CHKSUM := fields[CHKSUM]] == fields;
    SumIgnoresField(h, Packed(fields), HEADER_SIZE);
  }

  lemma FlattenedLength(fields: seq<string>)
    requires |fields| == FIELDS && Shaped(fields)
    ensures Flatten(fields) == Packed(fields)
  {
  }

  lemma OtherContent(name: string, kind: FileType, size: I32, chksum: string)
    ensures forall k :: k != CHKSUM ==> Content(k, name, kind, size, chksum) == Content(k, name, kind, size, "")
  {
    hide OctalText;
  }

  /** The octal fields of a made header hold their numbers. */
  lemma NumbersReadBack(name: string, kind: FileType, size: I32)
    ensures var h := HeaderOf(name, kind, size);
            && OctalField(FieldOf(h, CHKSUM)) == Some(Sum(h, HEADER_SIZE))
            && OctalField(FieldOf(h, SIZE)) == Some(AsUnsigned(size))
  {
    hide FieldSize, Start, Flatten, Sum, OctalText, OctalField, Shaped, Power, Packed, Content, FieldOf;
    var blank := Packed(HeaderFields(name, kind, size, ""));
    var text := ChecksumText(blank);
    var fields := HeaderFields(name, kind, size, text);
    NumbersFit(kind, size);
    SumBounded(blank, HEADER_SIZE);
    OctalTextValue(Sum(blank, HEADER_SIZE), 7);
    OctalReadsBack(Sum(blank, HEADER_SIZE), 7);
    OctalReadsBack(AsUnsigned(size), 11);
    ChecksumInvariant(name, kind, size, text);
    PackedField(fields, CHKSUM);
    PackedField(fields, SIZE);
    NumberContent(name, kind, size, text);
    OneNull();
  }

  lemma NumberContent(name: string, kind: FileType, size: I32, chksum: string)
    ensures Content(CHKSUM, name, kind, size, chksum) == chksum && FieldSize(CHKSUM) == 8
    ensures Content(SIZE, name, kind, size, chksum) == OctalText(AsUnsigned(size), 11) && FieldSize(SIZE) == 12
  {
    hide OctalText;
  }

  lemma OneNull()
    ensures Nulls(1) == "\0"
  {
  }

  /** The other fields that parsing looks at. */
  lemma TextsReadBack(name: string, kind: FileType, size: I32)
    requires '\0' !in name && |name| <= 99
    ensures var h := HeaderOf(name, kind, size);
            && CString(FieldOf(h, NAME)) == name && FieldOf(h, NAME)[99] == '\0'
            && FieldOf(h, MAGIC) == "ustar\0" && FieldOf(h, VERSION) == "00"
            && FieldOf(h, TYPEFLAG)[0] == TypeFlag(kind) && FieldOf(h, PREFIX)[0] == '\0'
  {
    hide Start, Flatten, Sum, OctalText, Shaped, Packed, FieldOf, CString, ChecksumText;
    var fields := HeaderFields(name, kind, size, ChecksumText(Packed(HeaderFields(name, kind, size, ""))));
    PackedField(fields, NAME);
    PackedField(fields, MAGIC);
    PackedField(fields, VERSION);
    PackedField(fields, TYPEFLAG);
    PackedField(fields, PREFIX);
    FilledString(name, 100);
    assert "ustar" + Nulls(1) == "ustar\0";
    assert "00" + Nulls(0) == "00";
  }

  lemma FieldHeld(name: string, kind: FileType, size: I32, k: nat)
    requires k < FIELDS && k != CHKSUM
    ensures FieldOf(HeaderOf(name, kind, size), k) == Filled(Content(k, name, kind, size, ""), FieldSize(k))
  {
    hide Start, Flatten, Sum, OctalText, Packed, Content, FieldSize, Filled;
    var text := ChecksumText(Packed(HeaderFields(name, kind, size, "")));
    PackedField(HeaderFields(name, kind, size, text), k);
    OtherContent(name, kind, size, text);
  }

  /** What a made header says of the file beside its name, type and size: its permissions, 0644 or 0755, owner and
      group 0, called root, and a fixed time; the rest is null characters. */
  lemma MadeFields(name: string, kind: FileType, size: I32)
    ensures var h := HeaderOf(name, kind, size);
            && OctalField(FieldOf(h, MODE)) == Some(if kind == Regular then 6 * 64 + 4 * 8 + 4 else 7 * 64 + 5 * 8 + 5)
            && OctalField(FieldOf(h, UID)) == Some(0) && OctalField(FieldOf(h, GID)) == Some(0)
            && OctalField(FieldOf(h, MTIME)) == Some(1136102400)
            && CString(FieldOf(h, UNAME)) == "root" && CString(FieldOf(h, GNAME)) == "root"
            && AllNull(FieldOf(h, LINKNAME)) && AllNull(FieldOf(h, DEVMAJOR)) && AllNull(FieldOf(h, DEVMINOR))
            && AllNull(FieldOf(h, PREFIX)) && AllNull(FieldOf(h, PADDING))
  {
    hide HeaderOf, FieldOf, OctalField, CString, AllNull, OctalText, Power, Filled, Content;
    NumberField(name, kind, size, MODE, Mode(kind), 7);
    NumberField(name, kind, size, MTIME, MODIFICATION_TIME, 11);
    ZeroField(name, kind, size, UID);
    ZeroField(name, kind, size, GID);
    RootField(name, kind, size, UNAME);
    RootField(name, kind, size, GNAME);
    NullField(name, kind, size, LINKNAME);
    NullField(name, kind, size, DEVMAJOR);
    NullField(name, kind, size, DEVMINOR);
    NullField(name, kind, size, PREFIX);
    NullField(name, kind, size, PADDING);
  }

  lemma NumberField(name: string, kind: FileType, size: I32, k: nat, value: nat, width: nat)
    requires (k == MODE && value == Mode(kind) && width == 7)
             || (k == MTIME && value == MODIFICATION_TIME && width == 11)
    ensures OctalField(FieldOf(HeaderOf(name, kind, size), k)) == Some(value)
  {
    hide HeaderOf, FieldOf, OctalField, OctalText, Power;
    FieldHeld(name, kind, size, k);
    PowersOfEight();
    OctalTextValue(value, width);
    OctalReadsBack(value, width);
    OneNull();
  }

  lemma ZeroField(name: string, kind: FileType, size: I32, k: nat)
    requires k == UID || k == GID
    ensures OctalField(FieldOf(HeaderOf(name, kind, size), k)) == Some(0)
  {
    hide HeaderOf, FieldOf, OctalDigits, Value, OctalText, Power;
    FieldHeld(name, kind, size, k);
    OneNull();
    var zeros := Repeat('0', 7);
    assert "0000000" == zeros;
    DigitsEnd(zeros + "\0", 7);
    assert (zeros + "\0")[..7] == zeros;
    ZerosWorthless(7, "", 8);
    NoValue(8);
    assert zeros + "" == zeros;
  }

  lemma RootField(name: string, kind: FileType, size: I32, k: nat)
    requires k == UNAME || k == GNAME
    ensures CString(FieldOf(HeaderOf(name, kind, size), k)) == "root"
  {
    hide HeaderOf, FieldOf, CString, OctalText, Filled;
    FieldHeld(name, kind, size, k);
    FilledString("root", 32);
  }

  lemma NullField(name: string, kind: FileType, size: I32, k: nat)
    requires k == LINKNAME || k == DEVMAJOR || k == DEVMINOR || k == PREFIX || k == PADDING
    ensures AllNull(FieldOf(HeaderOf(name, kind, size), k))
  {
    hide HeaderOf, FieldOf, OctalText;
    FieldHeld(name, kind, size, k);
  }

  /** The end of the archive is a block of null characters, and nothing else. */
  lemma EndIsNull(h: string)
    requires |h| == HEADER_SIZE
    ensures Parse(h) == EndOfArchive <==> h == Nulls(HEADER_SIZE)
  {
    hide FieldOf, OctalField, Sum, Strip, CString;
  }

  /** Parsing a made header gives the name, stripped, and the type and size of the file back; and a header
      made for a regular file of negative size, which holds the size as an unsigned number, is rejected. */
  lemma MadeHeaderParses(fileName: string, kind: FileType, size: I32)
    requires '\0' !in fileName && |Strip(fileName)| <= 99
    ensures Parse(HeaderOf(Strip(fileName), kind, size))
            == if kind == Directory then Entry(Strip(fileName), Directory, 0)
               else if size >= 0 then Entry(Strip(fileName), Regular, size)
               else Rejected("file too large")
  {
    hide Strip, HeaderOf, FieldOf, Sum, OctalField, CString;
    StrippedChars(fileName);
    StripTwice(fileName);
    var name := Strip(fileName);
    TextsReadBack(name, kind, size);
    NumbersReadBack(name, kind, size);
    NotAllNull(HeaderOf(name, kind, size));
  }

  lemma StrippedChars(s: string)
    requires '\0' !in s
    ensures '\0' !in Strip(s)
  {
    StrippedIsSafe(s);
  }

  lemma NotAllNull(h: string)
    requires |h| == HEADER_SIZE && FieldOf(h, MAGIC) == "ustar\0"
    ensures h[Start(MAGIC)] == 'u' && h[Start(MAGIC) + 1] == 's'
    ensures !AllNull(h)
  {
    hide Start, FieldSize;
    HeaderSize();
    FieldsInside(MAGIC, FIELDS);
    assert FieldOf(h, MAGIC)[0] == 'u' && FieldOf(h, MAGIC)[1] == 's';
  }

  /** Whatever header is accepted, the name it gives starts with no antisocial prefix and its size is an int. */
  lemma ParsedIsStripped(h: string)
    requires |h| == HEADER_SIZE && Parse(h).Entry?
    ensures var name := Parse(h).name; !Antisocial(name) && name != "" && name != ".." && |name| <= 99
    ensures Parse(h).size <= INT_MAX
  {
    hide Strip, Antisocial, Sum, OctalField, AllNull;
    StrippedIsSafe(CString(FieldOf(h, NAME)));
    CStringShort(FieldOf(h, NAME));
  }

  /** A header is accepted exactly if it is no end mark, has the magic and the version, a checksum that is its own,
      a name with a terminator and no prefix, and the type of a directory or of a regular file whose size is an
      octal number that an int holds; and then the entry is what it says. */
  lemma AcceptedExactly(h: string)
    requires |h| == HEADER_SIZE
    ensures Parse(h).Entry? <==>
              && !AllNull(h) && FieldOf(h, MAGIC) == "ustar\0" && FieldOf(h, VERSION) == "00"
              && OctalField(FieldOf(h, CHKSUM)) == Some(Sum(h, HEADER_SIZE))
              && FieldOf(h, NAME)[99] == '\0' && FieldOf(h, PREFIX)[0] == '\0'
              && (|| FieldOf(h, TYPEFLAG) == "5"
                  || (&& FieldOf(h, TYPEFLAG) == "0" && OctalField(FieldOf(h, SIZE)).Some?
                      && OctalField(FieldOf(h, SIZE)).value <= INT_MAX))
    ensures Parse(h).Entry? ==>
              && Parse(h).name == Strip(CString(FieldOf(h, NAME)))
              && (Parse(h).kind == Directory <==> FieldOf(h, TYPEFLAG) == "5")
              && Parse(h).size == if FieldOf(h, TYPEFLAG) == "5" then 0 else OctalField(FieldOf(h, SIZE)).value
  {
    hide FieldOf, OctalField, Sum, Strip, CString, AllNull, Start;
  }

  // --------------------------------------------------------------------------
  // Where an accepted name leads. Stripping looks only at the start of a name, so it does not keep a name
  // from climbing out of the directory it is extracted into further on.

  function BeforeSlash(s: string): string {
    if s == "" || s[0] == '/' then "" else [s[0]] + BeforeSlash(s[1..])
  }

  /** The components of a name. */
  function Components(s: string): (parts: seq<string>)
    ensures parts != []
    decreases |s|
  {
    if '/' in s then [BeforeSlash(s)] + Components(AfterSlash(s)) else [s]
  }

  /** The directory that a component leads to, as the components of its own path. */
  function Visit(dir: seq<string>, part: string): seq<string> {
    if part == "" || part == "." then dir
    else if part == ".." then if dir == [] then [] else dir[..|dir| - 1]
    else dir + [part]
  }

  /** Nothing on the way lies outside of the base directory. */
  ghost predicate Inside(base: seq<string>, dir: seq<string>, parts: seq<string>)
    decreases |parts|
  {
    base <= dir && (parts != [] ==> Inside(base, Visit(dir, parts[0]), parts[1..]))
  }

  /** Extracting a file by its name from within a directory stays in that directory. */
  ghost predicate StaysInside(base: seq<string>, name: string) {
    !StartsWith(name, "/") && Inside(base, base, Components(name))
  }

  function Ups(parts: seq<string>): nat {
    if parts == [] then 0 else (if parts[0] == ".." then 1 else 0) + Ups(parts[1..])
  }

  function Downs(parts: seq<string>): nat {
    if parts == [] then 0
    else (if parts[0] != "" && parts[0] != "." && parts[0] != ".." then 1 else 0) + Downs(parts[1..])
  }

  /** The first k components go down at least as often as up. */
  predicate BalancedAt(depth: nat, parts: seq<string>, k: nat)
    requires k <= |parts|
  {
    Ups(parts[..k]) <= depth + Downs(parts[..k])
  }

  predicate Balanced(depth: nat, parts: seq<string>) {
    forall k :: 0 <= k <= |parts| ==> BalancedAt(depth, parts, k)
  }

  lemma {:induction false} InsideIfBalanced(base: seq<string>, more: seq<string>, parts: seq<string>)
    requires base != []
    ensures Inside(base, base + more, parts) <==> Balanced(|more|, parts)
    decreases |parts|
  {
    hide Balanced;
    if parts == [] {
      BalancedEmpty(|more|);
    } else if parts[0] == ".." && more == [] {
      assert base + more == base && !(base <= base[..|base| - 1]);
      UpAtOnce(parts);
    } else {
      var more' := Visit(more, parts[0]);
      assert Visit(base + more, parts[0]) == base + more';
      InsideIfBalanced(base, more', parts[1..]);
      BalancedStep(|more|, |more'|, parts);
    }
  }

  lemma BalancedEmpty(depth: nat)
    ensures Balanced(depth, [])
  {
  }

  lemma UpAtOnce(parts: seq<string>)
    requires parts != [] && parts[0] == ".."
    ensures !Balanced(0, parts)
  {
    assert parts[..1][1..] == [];
    assert Ups(parts[..1]) == 1 && Downs(parts[..1]) == 0;
    assert !BalancedAt(0, parts, 1);
  }

  lemma BalancedStep(depth: nat, depth': nat, parts: seq<string>)
    requires parts != []
    requires depth' == if parts[0] == ".." then depth - 1
                       else if parts[0] == "" || parts[0] == "." then depth else depth + 1
    ensures Balanced(depth, parts) <==> Balanced(depth', parts[1..])
  {
    hide BalancedAt;
    var rest := parts[1..];
    if Balanced(depth, parts) {
      forall k | 0 <= k <= |rest|
        ensures BalancedAt(depth', rest, k)
      {
        BalancedNext(depth, depth', parts, k);
        assert BalancedAt(depth, parts, k + 1);
      }
    }
    if Balanced(depth', rest) {
      forall k | 0 <= k <= |parts|
        ensures BalancedAt(depth, parts, k)
      {
        if k > 0 {
          BalancedNext(depth, depth', parts, k - 1);
          assert BalancedAt(depth', rest, k - 1);
        } else {
          BalancedStart(depth, parts);
        }
      }
    }
  }

  lemma BalancedStart(depth: nat, parts: seq<string>)
    ensures BalancedAt(depth, parts, 0)
  {
  }

  lemma BalancedNext(depth: nat, depth': nat, parts: seq<string>, k: nat)
    requires k < |parts|
    requires depth' == if parts[0] == ".." then depth - 1
                       else if parts[0] == "" || parts[0] == "." then depth else depth + 1
    ensures BalancedAt(depth, parts, k + 1) <==> BalancedAt(depth', parts[1..], k)
  {
    assert parts[..k + 1][1..] == parts[1..][..k];
  }

  /** The name of an accepted header stays inside every directory exactly if, counted from its start, its
      components never go up more often than down. */
  lemma AcceptedStaysInside(h: string, base: seq<string>)
    requires |h| == HEADER_SIZE && Parse(h).Entry? && base != []
    ensures StaysInside(base, Parse(h).name) <==> Balanced(0, Components(Parse(h).name))
  {
    ParsedIsStripped(h);
    hide Parse, Inside, Components;
    InsideIfBalanced(base, [], Components(Parse(h).name));
    assert base + [] == base;
  }

  /** "a/../../x" */
  function ClimbingName(): string {
    "a" + "/" + Climb(Climb("x"))
  }

  function Climb(s: string): string {
    ".." + "/" + s
  }

  /** A name whose header is made and accepted, and which climbs out of every directory. */
  lemma AcceptedClimbs(base: seq<string>)
    requires base != []
    ensures Parse(HeaderOf(ClimbingName(), Regular, 0)) == Entry(ClimbingName(), Regular, 0)
    ensures !StaysInside(base, ClimbingName())
  {
    var name := ClimbingName();
    NotStripped();
    ClimbingComponents();
    hide *;
    MadeHeaderParses(name, Regular, 0);
    ClimbsIfUnbalanced(base, name);
  }

  lemma ClimbsIfUnbalanced(base: seq<string>, name: string)
    requires base != [] && !Balanced(0, Components(name))
    ensures !StaysInside(base, name)
  {
    hide Inside, Components, Balanced;
    InsideIfBalanced(base, [], Components(name));
    assert base + [] == base;
  }

  lemma NotStripped()
    ensures Strip(ClimbingName()) == ClimbingName() && |ClimbingName()| <= 99 && '\0' !in ClimbingName()
  {
    hide Strip;
    PlainStart(ClimbingName());
  }

  lemma PlainStart(s: string)
    requires |s| > 2 && s[0] != '/' && s[0] != '.'
    ensures Strip(s) == s
  {
    OtherStart(s, "/");
    OtherStart(s, "./");
    OtherStart(s, "../");
    hide StartsWith;
  }

  lemma OtherStart(s: string, prefix: string)
    requires s != "" && prefix != "" && s[0] != prefix[0]
    ensures !StartsWith(s, prefix)
  {
    if |prefix| <= |s| {
      assert s[..|prefix|][0] == s[0];
    }
  }

  lemma ClimbingComponents()
    ensures !Balanced(0, Components(ClimbingName()))
  {
    hide Components, Balanced;
    FirstComponent(ClimbingName(), "a", Climb(Climb("x")));
    FirstComponent(Climb(Climb("x")), "..", Climb("x"));
    FirstComponent(Climb("x"), "..", "x");
    UpTwice(Components(ClimbingName()));
  }

  lemma UpTwice(parts: seq<string>)
    requires |parts| >= 3 && parts[0] == "a" && parts[1] == parts[2] == ".."
    ensures !Balanced(0, parts)
  {
    var three := parts[..3];
    var two := three[1..];
    var one := two[1..];
    assert one[1..] == [];
    assert Ups(one) == 1 && Downs(one) == 0;
    assert Ups(two) == 2 && Downs(two) == 0;
    assert !BalancedAt(0, parts, 3);
  }

  lemma FirstComponent(s: string, head: string, tail: string)
    requires s == head + "/" + tail && '/' !in head
    ensures Components(s) == [head] + Components(tail)
  {
    SlashSplits(s, head, tail);
  }

  lemma {:induction false} SlashSplits(s: string, head: string, tail: string)
    requires s == head + "/" + tail && '/' !in head
    ensures '/' in s && BeforeSlash(s) == head && AfterSlash(s) == tail
  {
    assert s[|head|] == '/';
    if head == "" {
      assert s[1..] == tail;
    } else {
      assert s[0] == head[0] && s[1..] == head[1..] + "/" + tail;
      SlashSplits(s[1..], head[1..], tail);
      assert [head[0]] + head[1..] == head;
    }
  }

  lemma {:induction false} CStringShort(s: string)
    requires s != "" && s[|s| - 1] == '\0'
    ensures |CString(s)| < |s|
  {
    if s[0] != '\0' {
      CStringShort(s[1..]);
    }
  }

  /** The checksum detects any change of a single octet outside of the checksum field. */
  lemma CorruptionDetected(h: string, i: nat, ch: char)
    requires |h| == HEADER_SIZE && Parse(h).Entry?
    requires i < HEADER_SIZE && !InChecksum(i) && ch as nat % 256 != h[i] as nat % 256
    ensures Parse(h[i := ch]).Rejected?
  {
    hide Strip, Sum, OctalField, InChecksum, FieldSize, Start, CString, ParseFile;
    var g := h[i := ch];
    SumChanged(h, i, ch, HEADER_SIZE);
    ChecksumFieldKept(h, i, ch);
    NotAllNull(h);
    MagicInside();
    assert !AllNull(g) by {
      assert g[Start(MAGIC)] == 'u' || g[Start(MAGIC) + 1] == 's';
    }
  }

  lemma MagicInside()
    ensures Start(MAGIC) + 1 < HEADER_SIZE
  {
    hide Start, FieldSize;
    HeaderSize();
    FieldsInside(MAGIC, FIELDS);
    FieldsInside(MAGIC, MAGIC + 1);
    MagicSize();
  }

  lemma MagicSize()
    ensures FieldSize(MAGIC) == 6
  {
  }

  lemma ChecksumFieldKept(h: string, i: nat, ch: char)
    requires |h| == HEADER_SIZE && i < HEADER_SIZE && !InChecksum(i)
    ensures FieldOf(h[i := ch], CHKSUM) == FieldOf(h, CHKSUM)
  {
    hide Start, FieldSize;
    HeaderSize();
    FieldsInside(CHKSUM, FIELDS);
    var start, end := Start(CHKSUM), Start(CHKSUM) + FieldSize(CHKSUM);
    assert h[i := ch][start..end] == h[start..end];
  }
}
