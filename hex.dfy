/// Hexadecimal codepoint text as the program writes and reads it: Rust's
/// `format!("{:04X}", n)` (upper-case digits, zero-padded to at least four) and
/// `u32::from_str_radix(s, 16)`. Glyph names such as `uni0041` and the codepoint
/// keys of the font navigation are built from these.
module Hex {
  import opened Wrappers

  predicate IsUpperHexDigit(c: char) { '0' <= c <= '9' || 'A' <= c <= 'F' }

  /// Digits `from_str_radix` accepts in base 16, in either case.
  predicate IsHexDigit(c: char) { '0' <= c <= '9' || 'A' <= c <= 'F' || 'a' <= c <= 'f' }

  function HexDigit(d: nat): (c: char)
    requires d < 16
    ensures IsUpperHexDigit(c)
  {
    if d < 10 then ('0' as int + d) as char else ('A' as int + d - 10) as char
  }

  function DigitValue(c: char): (d: nat)
    requires IsHexDigit(c)
    ensures d < 16
  {
    if '0' <= c <= '9' then c as int - '0' as int
    else if 'A' <= c <= 'F' then c as int - 'A' as int + 10
    else c as int - 'a' as int + 10
  }

  lemma DigitValueOfHexDigit(d: nat)
    requires d < 16
    ensures DigitValue(HexDigit(d)) == d
  {
  }

  /// The shortest upper-case hexadecimal spelling of `n`, most significant digit first.
  function Digits(n: nat): (r: string)
    ensures 1 <= |r| && forall i :: 0 <= i < |r| ==> IsUpperHexDigit(r[i])
    ensures n < 0x10 ==> |r| == 1
    ensures n >= 0x10 ==> |r| == |Digits(n / 16)| + 1
  {
    if n < 16 then [HexDigit(n)] else Digits(n / 16) + [HexDigit(n % 16)]
  }

  function Zeros(k: nat): (r: string)
    ensures |r| == k && forall i :: 0 <= i < k ==> r[i] == '0'
  {
    seq(k, _ => '0')
  }

  /// `format!("{:04X}", n)`.
  function Format04X(n: nat): (r: string)
    ensures |r| >= 4 && forall i :: 0 <= i < |r| ==> IsUpperHexDigit(r[i])
  {
    var d := Digits(n);
    if |d| < 4 then Zeros(4 - |d|) + d else d
  }

  /// Numeric value of a string of hexadecimal digits.
  function Value(s: string): nat
    requires forall i :: 0 <= i < |s| ==> IsHexDigit(s[i])
  {
    if s == [] then 0 else Value(s[..|s| - 1]) * 16 + DigitValue(s[|s| - 1])
  }

  /// `u32::from_str_radix(s, 16)`: an optional `+`, then at least one digit of
  /// either case, and a value that fits 32 bits.
  function ParseHex(s: string): (r: Option<nat>)
    ensures r.Some? ==> r.value < 0x1_0000_0000
    ensures r.Some? ==> s != [] && s != "+"
  {
    var digits := if |s| > 0 && s[0] == '+' then s[1..] else s;
    if digits == [] || exists i :: 0 <= i < |digits| && !IsHexDigit(digits[i]) then None
    else if Value(digits) >= 0x1_0000_0000 then None
    else Some(Value(digits))
  }

  lemma {:induction false} ValueOfDigits(n: nat)
    ensures forall i :: 0 <= i < |Digits(n)| ==> IsHexDigit(Digits(n)[i])
    ensures Value(Digits(n)) == n
  {
    var d := Digits(n);
    if n >= 16 {
      ValueOfDigits(n / 16);
      assert d[..|d| - 1] == Digits(n / 16);
      DigitValueOfHexDigit(n % 16);
    } else {
      DigitValueOfHexDigit(n);
    }
  }

  lemma {:induction false} ValueIgnoresLeadingZeros(k: nat, d: string)
    requires forall i :: 0 <= i < |d| ==> IsHexDigit(d[i])
    ensures forall i :: 0 <= i < |Zeros(k) + d| ==> IsHexDigit((Zeros(k) + d)[i])
    ensures Value(Zeros(k) + d) == Value(d)
    decreases |d| + k
  {
    var z := Zeros(k) + d;
    if d == [] {
      if k > 0 {
        assert z[..|z| - 1] == Zeros(k - 1);
        ValueIgnoresLeadingZeros(k - 1, []);
        assert Zeros(k - 1) + [] == Zeros(k - 1);
      }
    } else {
      assert z[..|z| - 1] == Zeros(k) + d[..|d| - 1];
      ValueIgnoresLeadingZeros(k, d[..|d| - 1]);
    }
  }

  /// Reading back what `{:04X}` wrote gives the number again.
  lemma ParseFormatRoundTrip(n: nat)
    requires n < 0x1_0000_0000
    ensures ParseHex(Format04X(n)) == Some(n)
  {
    var d := Digits(n);
    ValueOfDigits(n);
    if |d| < 4 {
      ValueIgnoresLeadingZeros(4 - |d|, d);
    }
  }

  /// Different numbers get different `{:04X}` spellings.
  lemma FormatInjective(a: nat, b: nat)
    requires a < 0x1_0000_0000 && b < 0x1_0000_0000 && a != b
    ensures Format04X(a) != Format04X(b)
  {
    ParseFormatRoundTrip(a);
    ParseFormatRoundTrip(b);
  }

  /// Exactly four digits below 0x10000, more above.
  lemma {:induction false} FormatWidth(n: nat)
    ensures n < 0x10000 <==> |Format04X(n)| == 4
  {
    if n >= 0x10000 {
      assert n / 16 >= 0x1000 && n / 256 >= 0x100 && n / 4096 >= 0x10;
      assert |Digits(n)| == |Digits(n / 16)| + 1;
      assert n / 16 / 16 == n / 256;
      assert n / 256 / 16 == n / 4096;
    } else if n >= 0x1000 {
      assert n / 16 / 16 == n / 256;
      assert n / 256 / 16 < 16;
    } else if n >= 0x100 {
      assert n / 16 / 16 < 16;
    }
  }

  /// The codepoint of a character: `format!("{:04X}", c as u32)` (`char_to_hex_codepoint`).
  function CharToHexCodepoint(c: char): (r: string)
    ensures ParseHex(r) == Some(c as nat)
  {
    ParseFormatRoundTrip(c as nat);
    Format04X(c as nat)
  }

  /// `format!("uni{:04X}", c as u32)`, the fallback glyph name of a character.
  function UniName(c: char): (r: string)
    ensures |r| >= 7 && r[..3] == "uni" && ParseHex(r[3..]) == Some(c as nat)
  {
    var hex := CharToHexCodepoint(c);
    assert ("uni" + hex)[3..] == hex;
    "uni" + hex
  }

  /// `char::from_u32`: a Unicode scalar value, that is not a surrogate.
  function CharFromU32(n: nat): (r: Option<char>)
    ensures r.Some? ==> r.value as nat == n
    ensures r.None? <==> (0xD800 <= n < 0xE000 || n >= 0x11_0000)
  {
    if 0xD800 <= n < 0xE000 || n >= 0x11_0000 then None else Some(n as char)
  }
}
