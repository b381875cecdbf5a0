/** The picker's hex text box: CP_UpdateHexEdit formats the colour with
    `%02X%02X%02X`, and the EN_CHANGE handler reads six characters back with
    base-16 `strtoul` and splits the value into red (bits 16-23), green
    (bits 8-15) and blue (bits 0-7). */
module HexText {
  import opened Numeric
  import opened ColorModel

  datatype Option<T> = None | Some(value: T)

  /** ULONG_MAX: `unsigned long` is 32 bits wide on Windows. */
  const ULongMax: nat := 0xFFFF_FFFF

  const UpperDigits: string := "0123456789ABCDEF"

  predicate IsHexDigit(ch: char) {
    ('0' <= ch <= '9') || ('A' <= ch <= 'F') || ('a' <= ch <= 'f')
  }

  predicate IsUpperHexDigit(ch: char) {
    ('0' <= ch <= '9') || ('A' <= ch <= 'F')
  }

  predicate AllHex(s: string) {
    forall i :: 0 <= i < |s| ==> IsHexDigit(s[i])
  }

  /** isspace in the C locale: space, tab, newline, vertical tab, form feed,
      carriage return. */
  predicate IsSpace(ch: char) {
    ch == ' ' || ('\t' <= ch <= '\r')
  }

  function DigitValue(ch: char): (d: nat)
    requires IsHexDigit(ch)
    ensures d < 16
  {
    if '0' <= ch <= '9' then ch as int - '0' as int
    else if 'A' <= ch <= 'F' then ch as int - 'A' as int + 10
    else ch as int - 'a' as int + 10
  }

  /** The `%X` digit of a value below 16. */
  function UpperDigit(n: nat): (ch: char)
    requires n < 16
    ensures IsUpperHexDigit(ch) && IsHexDigit(ch) && DigitValue(ch) == n
  {
    UpperDigits[n]
  }

  /** `%02X` of one byte: two uppercase digits, high nibble first. */
  function Hex2(b: Byte): string {
    [UpperDigit(b / 16), UpperDigit(b % 16)]
  }

  /** The text CP_UpdateHexEdit writes for a colour. */
  function FormatHex(c: Rgb): (s: string)
    ensures |s| == 6
    ensures forall i :: 0 <= i < 6 ==> IsUpperHexDigit(s[i])
  {
    Hex2(c.r) + Hex2(c.g) + Hex2(c.b)
  }

  /** The number a run of hex digits denotes, most significant first. */
  function Value(ds: string): nat
    requires AllHex(ds)
  {
    if |ds| == 0 then 0 else Value(ds[..|ds| - 1]) * 16 + DigitValue(ds[|ds| - 1])
  }

  /** The run of hex digits at the front of s (LeadingDigitsLongest: it is
      the longest one). */
  function LeadingDigits(s: string): (ds: string)
    ensures AllHex(ds)
  {
    if |s| > 0 && IsHexDigit(s[0]) then [s[0]] + LeadingDigits(s[1..]) else []
  }

  /** s without its leading white space. */
  function SkipSpace(s: string): string {
    if |s| > 0 && IsSpace(s[0]) then SkipSpace(s[1..]) else s
  }

  /** LeadingDigits is a prefix of s, and the character after it (if any) is
      not a hex digit. */
  lemma {:induction false} LeadingDigitsLongest(s: string)
    ensures LeadingDigits(s) <= s
    ensures |LeadingDigits(s)| < |s| ==> !IsHexDigit(s[|LeadingDigits(s)|])
  {
    if |s| > 0 && IsHexDigit(s[0]) {
      LeadingDigitsLongest(s[1..]);
    }
  }

  /** SkipSpace removes a prefix of white space and stops at the first other
      character. */
  lemma {:induction false} SkipSpaceSuffix(s: string)
    ensures |SkipSpace(s)| <= |s| && SkipSpace(s) == s[|s| - |SkipSpace(s)|..]
    ensures forall i :: 0 <= i < |s| - |SkipSpace(s)| ==> IsSpace(s[i])
    ensures |SkipSpace(s)| > 0 ==> !IsSpace(SkipSpace(s)[0])
  {
    if |s| > 0 && IsSpace(s[0]) {
      SkipSpaceSuffix(s[1..]);
    }
  }

  /** The subject sequence strtoul(s, NULL, 16) recognises, as section
      7.22.1.4 of ISO C describes it: after white space, an optional sign
      (reported as `neg`), an optional 0x or 0X when a hex digit follows it,
      and then the longest run of hex digits. */
  function Subject(s: string): (r: (bool, string))
    ensures AllHex(r.1)
  {
    var t := SkipSpace(s);
    var neg := |t| > 0 && t[0] == '-';
    var u := if |t| > 0 && (t[0] == '+' || t[0] == '-') then t[1..] else t;
    var w := if |u| >= 3 && u[0] == '0' && (u[1] == 'x' || u[1] == 'X') && IsHexDigit(u[2]) then u[2..] else u;
    (neg, LeadingDigits(w))
  }

  /** The value strtoul returns for a subject sequence of magnitude m: a value
      above ULONG_MAX gives ULONG_MAX, and a minus sign negates in unsigned
      arithmetic. */
  function Convert(neg: bool, m: nat): (v: nat)
    ensures v <= ULongMax
    ensures m <= ULongMax && !neg ==> v == m
    ensures m <= ULongMax && neg ==> (v + m) % (ULongMax + 1) == 0
    ensures m > ULongMax ==> v == ULongMax
  {
    if m > ULongMax then ULongMax
    else if neg then (ULongMax + 1 - m) % (ULongMax + 1)
    else m
  }

  /** strtoul(s, NULL, 16). */
  function StrToUL16(s: string): (v: nat)
    ensures v <= ULongMax
  {
    var sub := Subject(s);
    Convert(sub.0, Value(sub.1))
  }

  /** RGB((hex>>16)&0xFF, (hex>>8)&0xFF, hex&0xFF). */
  function SplitRgb(v: nat): (c: Rgb)
    ensures c.r < 256 && c.g < 256 && c.b < 256
    ensures c.r * 65536 + c.g * 256 + c.b == v % 0x100_0000
  {
    SplitLow24(v);
    Rgb((v / 65536) % 256, (v / 256) % 256, v % 256)
  }

  /** The three byte fields of v are its low 24 bits. */
  lemma SplitLow24(v: nat)
    ensures (v / 65536) % 256 * 65536 + (v / 256) % 256 * 256 + v % 256 == v % 0x100_0000
  {
    var a, b := v / 256, v % 256;
    var c, g := a / 256, a % 256;
    var k, r := c / 256, c % 256;
    assert v == 65536 * c + (256 * g + b);
    assert v / 65536 == c;
    assert v == 0x100_0000 * k + (65536 * r + 256 * g + b);
    assert v % 0x100_0000 == 65536 * r + 256 * g + b;
  }

  /** The colour the EN_CHANGE handler reads from the edit text: only text of
      exactly six characters is parsed. */
  function ParseHex(text: string): (r: Option<Rgb>)
    ensures r.None? <==> |text| != 6
  {
    if |text| != 6 then None else Some(SplitRgb(StrToUL16(text)))
  }

  // ---------------------------------------------------------------------
  // Digit runs

  lemma {:induction false} ValueAppend(a: string, b: string)
    requires AllHex(a) && AllHex(b)
    ensures AllHex(a + b)
    ensures Value(a + b) == Value(a) * Pow16(|b|) + Value(b)
    decreases |b|
  {
    assert AllHex(a + b) by {
      forall i | 0 <= i < |a + b| ensures IsHexDigit((a + b)[i]) {
        if i < |a| { assert (a + b)[i] == a[i]; } else { assert (a + b)[i] == b[i - |a|]; }
      }
    }
    if |b| == 0 {
      assert a + b == a;
    } else {
      var b' := b[..|b| - 1];
      assert (a + b)[..|a + b| - 1] == a + b';
      assert (a + b)[|a + b| - 1] == b[|b| - 1];
      ValueAppend(a, b');
      calc {
        Value(a + b);
        Value(a + b') * 16 + DigitValue(b[|b| - 1]);
        (Value(a) * Pow16(|b'|) + Value(b')) * 16 + DigitValue(b[|b| - 1]);
        { MulAssoc16(Value(a), Pow16(|b'|)); }
        Value(a) * Pow16(|b|) + Value(b') * 16 + DigitValue(b[|b| - 1]);
      }
    }
  }

  function Pow16(n: nat): (p: nat)
    ensures p >= 1
  {
    if n == 0 then 1 else 16 * Pow16(n - 1)
  }

  // One step of nonlinear arithmetic, stated apart to keep the solver cheap.
  lemma MulAssoc16(x: nat, y: nat)
    ensures x * y * 16 == x * (16 * y)
  {
  }

  lemma ValueAppendPair(a: string, b: string)
    requires AllHex(a) && AllHex(b) && |b| == 2
    ensures AllHex(a + b)
    ensures Value(a + b) == Value(a) * 256 + Value(b)
  {
    ValueAppend(a, b);
    assert Pow16(2) == 256;
  }

  lemma ValuePair(p: string)
    requires |p| == 2 && AllHex(p)
    ensures Value(p) == DigitValue(p[0]) * 16 + DigitValue(p[1])
    ensures Value(p) < 256
  {
    var hi := p[..1];
    assert hi[..0] == [] && hi[0] == p[0];
    assert Value(hi) == DigitValue(p[0]);
  }

  /** Two digits of `%02X` denote the byte they were made from. */
  lemma Hex2Value(b: Byte)
    ensures AllHex(Hex2(b)) && Value(Hex2(b)) == b
  {
    ValuePair(Hex2(b));
  }

  /** Two uppercase digits are the `%02X` text of the byte they denote. */
  lemma Hex2OfPair(p: string)
    requires |p| == 2 && IsUpperHexDigit(p[0]) && IsUpperHexDigit(p[1])
    ensures AllHex(p) && Value(p) < 256 && Hex2(Value(p)) == p
  {
    ValuePair(p);
    var v := Value(p);
    assert v / 16 == DigitValue(p[0]) && v % 16 == DigitValue(p[1]);
    UpperDigitOf(p[0]);
    UpperDigitOf(p[1]);
  }

  lemma UpperDigitOf(ch: char)
    requires IsUpperHexDigit(ch)
    ensures UpperDigit(DigitValue(ch)) == ch
  {
  }

  /** Three digit pairs denote the packed value red * 65536 + green * 256 + blue. */
  lemma {:induction false} SixDigitValue(a: string, b: string, c: string)
    requires |a| == 2 && |b| == 2 && |c| == 2 && AllHex(a) && AllHex(b) && AllHex(c)
    ensures AllHex(a + b + c)
    ensures Value(a) < 256 && Value(b) < 256 && Value(c) < 256
    ensures Value(a + b + c) == Value(a) * 65536 + Value(b) * 256 + Value(c)
  {
    ValuePair(a);
    ValuePair(b);
    ValuePair(c);
    ValueAppendPair(a, b);
    ValueAppendPair(a + b, c);
  }

  /** The bytes SplitRgb extracts from a packed value are the packed bytes. */
  lemma SplitPacked(x: Byte, y: Byte, z: Byte)
    ensures SplitRgb(x * 65536 + y * 256 + z) == Rgb(x, y, z)
  {
    var v := x * 65536 + y * 256 + z;
    assert v / 65536 == x;
    assert v / 256 == x * 256 + y;
    assert (x * 256 + y) % 256 == y;
  }

  /** A string made only of hex digits is its own longest digit prefix. */
  lemma {:induction false} LeadingDigitsAll(s: string)
    requires AllHex(s)
    ensures LeadingDigits(s) == s
    decreases |s|
  {
    if |s| > 0 {
      LeadingDigitsAll(s[1..]);
      assert [s[0]] + s[1..] == s;
    }
  }

  /** A run of hex digits with no x in second place is read as it stands. */
  lemma SubjectOfDigits(s: string)
    requires AllHex(s) && 0 < |s|
    requires !(|s| >= 2 && (s[1] == 'x' || s[1] == 'X'))
    ensures Subject(s) == (false, s)
  {
    assert SkipSpace(s) == s;
    LeadingDigitsAll(s);
  }

  // ---------------------------------------------------------------------
  // Properties of the text box

  /** The text CP_UpdateHexEdit writes parses back to the same colour. */
  lemma FormatParseRoundTrip(c: Rgb)
    ensures ParseHex(FormatHex(c)) == Some(c)
  {
    var s := FormatHex(c);
    assert AllHex(s);
    SixDigitsParse(s);
    assert s[0..2] == Hex2(c.r) && s[2..4] == Hex2(c.g) && s[4..6] == Hex2(c.b);
    Hex2Value(c.r);
    Hex2Value(c.g);
    Hex2Value(c.b);
  }

  /** Six hex digits (either case) give the colour whose bytes are the three
      digit pairs. */
  lemma SixDigitsParse(s: string)
    requires |s| == 6 && AllHex(s)
    ensures AllHex(s[0..2]) && AllHex(s[2..4]) && AllHex(s[4..6])
    ensures Value(s[0..2]) < 256 && Value(s[2..4]) < 256 && Value(s[4..6]) < 256
    ensures ParseHex(s) == Some(Rgb(Value(s[0..2]), Value(s[2..4]), Value(s[4..6])))
  {
    var a, b, c := s[0..2], s[2..4], s[4..6];
    assert AllHex(a) && AllHex(b) && AllHex(c);
    assert s == a + b + c;
    SixDigitValue(a, b, c);
    assert !IsHexDigit('x') && !IsHexDigit('X');
    SubjectOfDigits(s);
    SplitPacked(Value(a), Value(b), Value(c));
  }

  /** Six uppercase hex digits survive parse then format unchanged, so the
      formatter and the parser are inverse on the texts the formatter writes. */
  lemma ParseFormatRoundTrip(s: string)
    requires |s| == 6 && forall i :: 0 <= i < 6 ==> IsUpperHexDigit(s[i])
    ensures ParseHex(s).Some? && FormatHex(ParseHex(s).value) == s
  {
    assert AllHex(s);
    SixDigitsParse(s);
    Hex2OfPair(s[0..2]);
    Hex2OfPair(s[2..4]);
    Hex2OfPair(s[4..6]);
    assert s == s[0..2] + s[2..4] + s[4..6];
  }

  /** strtoul stops at the first character that is not a hex digit:
      "12G456" is read as 0x12. */
  lemma LongestPrefixExample()
    ensures ParseHex("12G456") == Some(Rgb(0, 0, 0x12))
  {
    var s := "12G456";
    assert SkipSpace(s) == s;
    assert LeadingDigits(s[2..]) == [];
    assert LeadingDigits(s) == "12";
    ValuePair("12");
    assert Subject(s) == (false, "12");
    SplitPacked(0, 0, 0x12);
  }

  /** A minus sign wraps in unsigned arithmetic: "-00001" is read as
      ULONG_MAX, whose three low bytes are white. */
  lemma NegativeTextExample()
    ensures ParseHex("-00001") == Some(White)
  {
    NegativeSubject();
    assert Value("00001") == 1 by { ValueOfOne(); }
    assert StrToUL16("-00001") == ULongMax;
    assert SplitRgb(ULongMax) == White;
  }

  lemma NegativeSubject()
    ensures Subject("-00001") == (true, "00001")
  {
    var s := "-00001";
    assert SkipSpace(s) == s;
    var u := s[1..];
    assert u == "00001";
    assert AllHex(u);
    LeadingDigitsAll(u);
  }

  lemma ValueOfOne()
    ensures AllHex("00001") && Value("00001") == 1
  {
    ValuePair("00");
    ValueAppendPair("00", "00");
    assert "00" + "00" == "0000";
    var one := "1";
    assert one[..0] == [];
    assert Value(one) == 1;
    ValueAppend("0000", one);
    assert "0000" + one == "00001";
  }
}
