/** Number parsing and formatting as the window uses it: Int32.TryParse with the default
    NumberStyles.Integer, Int32.ToString, and two-digit hexadecimal bytes
    (Convert.ToByte(s, 16)). */
module Numbers {
  import opened Text

  /** int.MaxValue and int.MinValue. */
  const IntMax: int := 0x7FFF_FFFF
  const IntMin: int := -0x8000_0000

  type byte = x: int | 0 <= x < 256

  function DigitValue(c: char): (d: nat)
    requires IsDigit(c)
    ensures d < 10
  {
    c as int - '0' as int
  }

  function DigitChar(d: nat): (c: char)
    requires d < 10
    ensures IsDigit(c) && DigitValue(c) == d
  {
    ('0' as int + d) as char
  }

  /** The value of a run of decimal digits, most significant first. */
  function DigitsValue(s: string): nat
    requires AllDigits(s)
    decreases |s|
  {
    if s == [] then 0 else DigitsValue(s[..|s| - 1]) * 10 + DigitValue(s[|s| - 1])
  }

  /** Decimal rendering of a natural number, without leading zeros. */
  function Decimal(n: nat): (r: string)
    ensures r != [] && AllDigits(r)
    decreases n
  {
    if n < 10 then [DigitChar(n)] else Decimal(n / 10) + [DigitChar(n % 10)]
  }

  /** Reading back a decimal rendering gives the number. */
  lemma {:induction false} DecimalValue(n: nat)
    ensures DigitsValue(Decimal(n)) == n
    decreases n
  {
    if n >= 10 {
      var r := Decimal(n);
      assert r[..|r| - 1] == Decimal(n / 10);
      DecimalValue(n / 10);
    }
  }

  /** Int32.ToString() in the invariant culture. */
  function IntToString(n: int): string {
    if n < 0 then "-" + Decimal(-n) else Decimal(n)
  }

  /** The white space that NumberStyles.AllowLeadingWhite/AllowTrailingWhite skip. */
  predicate IsNumberWhite(c: char) { '\t' <= c <= '\r' || c == ' ' }

  function NumberTrimStart(s: string): (r: string)
    ensures r == [] || !IsNumberWhite(r[0])
  {
    if s != [] && IsNumberWhite(s[0]) then NumberTrimStart(s[1..]) else s
  }

  function NumberTrimEnd(s: string): (r: string)
    ensures r == [] || !IsNumberWhite(r[|r| - 1])
  {
    if s != [] && IsNumberWhite(s[|s| - 1]) then NumberTrimEnd(s[..|s| - 1]) else s
  }

  /** Int32.TryParse(s, out n): optional white space, an optional '+' or '-', at least one
      ASCII digit, optional white space; None when the text is malformed or the value
      does not fit in 32 bits. */
  function TryParseInt32(s: string): (r: Option<int>)
    ensures r.Some? ==> IntMin <= r.value <= IntMax
  {
    var t := NumberTrimEnd(NumberTrimStart(s));
    if t == [] then None
    else
      var body := if t[0] == '-' || t[0] == '+' then t[1..] else t;
      if body == [] || !AllDigits(body) then None
      else
        var n: int := DigitsValue(body);
        var v := if t[0] == '-' then -n else n;
        if IntMin <= v <= IntMax then Some(v) else None
  }

  /** Trailing white space is removed without reaching a first character that is not white. */
  lemma {:induction false} NumberTrimEndKeepsFirst(s: string)
    requires s != [] && !IsNumberWhite(s[0])
    ensures NumberTrimEnd(s) != [] && NumberTrimEnd(s)[0] == s[0]
    decreases |s|
  {
    if IsNumberWhite(s[|s| - 1]) {
      NumberTrimEndKeepsFirst(s[..|s| - 1]);
    }
  }

  /** Text that starts with something other than white space, a sign or a digit is not a
      number. */
  lemma ParseRejectsFirst(s: string)
    requires s != [] && !IsNumberWhite(s[0]) && s[0] != '-' && s[0] != '+' && !IsDigit(s[0])
    ensures TryParseInt32(s) == None
  {
    assert NumberTrimStart(s) == s;
    NumberTrimEndKeepsFirst(s);
  }

  lemma NumberTrimmed(s: string)
    requires s != [] && !IsNumberWhite(s[0]) && !IsNumberWhite(s[|s| - 1])
    ensures NumberTrimEnd(NumberTrimStart(s)) == s
  {
  }

  /** A run of digits is read as its value when that fits. */
  lemma ParseDigits(d: string)
    requires d != [] && AllDigits(d) && DigitsValue(d) <= IntMax
    ensures TryParseInt32(d) == Some(DigitsValue(d))
  {
    assert IsDigit(d[0]) && IsDigit(d[|d| - 1]);
    NumberTrimmed(d);
  }

  /** A '-' and a run of digits is read as the negated value when that fits. */
  lemma ParseNegatedDigits(d: string)
    requires d != [] && AllDigits(d) && IntMin <= -(DigitsValue(d) as int)
    ensures TryParseInt32("-" + d) == Some(-(DigitsValue(d) as int))
  {
    var s := "-" + d;
    assert s[0] == '-' && s[1..] == d;
    assert IsDigit(d[|d| - 1]) && s[|s| - 1] == d[|d| - 1];
    NumberTrimmed(s);
  }

  /** Int32.TryParse reads back what Int32.ToString writes. */
  lemma ParseIntToString(n: int)
    requires IntMin <= n <= IntMax
    ensures TryParseInt32(IntToString(n)) == Some(n)
  {
    if n < 0 {
      ParseNegativeString(n);
    } else {
      ParseNaturalString(n);
    }
  }

  lemma ParseNegativeString(n: int)
    requires IntMin <= n < 0
    ensures TryParseInt32("-" + Decimal(-n)) == Some(n)
  {
    var d := Decimal(-n);
    assert DigitsValue(d) == -n by {
      DecimalValue(-n);
    }
    ParseNegatedDigits(d);
  }

  lemma ParseNaturalString(n: nat)
    requires n <= IntMax
    ensures TryParseInt32(Decimal(n)) == Some(n)
  {
    DecimalValue(n);
    ParseDigits(Decimal(n));
  }

  function HexValue(c: char): (v: nat)
    requires IsHexDigit(c)
    ensures v < 16
  {
    if IsDigit(c) then DigitValue(c)
    else if 'a' <= c <= 'f' then c as int - 'a' as int + 10
    else c as int - 'A' as int + 10
  }

  /** Upper-case hexadecimal digit for a value below 16. */
  function HexChar(v: nat): (c: char)
    requires v < 16
    ensures IsHexDigit(c) && HexValue(c) == v
  {
    if v < 10 then DigitChar(v) else ('A' as int + v - 10) as char
  }

  /** Convert.ToByte(s, 16) on two hexadecimal digits. */
  function HexByte(s: string): byte
    requires |s| == 2 && AllHex(s)
  {
    HexValue(s[0]) * 16 + HexValue(s[1])
  }

  /** Two upper-case hexadecimal digits for a byte (the "X2" format). */
  function Hex2(b: byte): (s: string)
    ensures |s| == 2 && AllHex(s) && HexByte(s) == b
  {
    [HexChar(b / 16), HexChar(b % 16)]
  }
}
