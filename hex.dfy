/**
 * Text helpers of the Rust core library that the firmware relies on:
 * `char::to_digit(16)`, `u8::from_str_radix(_, 16)`, `<[u8]>::as_ascii`
 * and the UTF-8 check of `core::str::from_utf8`.
 */
module Hex {
  import opened Base

  const PLUS: byte := '+' as int
  const MINUS: byte := '-' as int

  /** `char::to_digit(16)` on one byte: the value of an ASCII hex digit of either case. */
  function DigitValue(c: byte): (r: Option<byte>)
    ensures r.Some? ==> r.value < 16
  {
    if '0' as int <= c <= '9' as int then Some(c - '0' as int)
    else if 'a' as int <= c <= 'f' as int then Some(c - 'a' as int + 10)
    else if 'A' as int <= c <= 'F' as int then Some(c - 'A' as int + 10)
    else None
  }

  /** The ASCII hex digit of a value below 16, lower or upper case. */
  function DigitChar(v: nat, upper: bool): (c: byte)
    requires v < 16
  {
    if v < 10 then '0' as int + v
    else if upper then 'A' as int + (v - 10)
    else 'a' as int + (v - 10)
  }

  /** `DigitValue` inverts `DigitChar` in either case. */
  lemma DigitRoundTrip(v: nat, upper: bool)
    requires v < 16
    ensures DigitValue(DigitChar(v, upper)) == Some(v)
  {
  }

  /** Hex digits only: a digit is anything `DigitValue` accepts. */
  lemma DigitsAreAscii(c: byte)
    requires DigitValue(c).Some?
    ensures c < 0x80 && c != PLUS && c != MINUS
  {
  }

  /**
   * The big-endian base-16 value of a digit string, accumulated left to right
   * (`result * 16 + digit`), or None when some byte is not a hex digit.
   */
  function DigitsValue(ds: seq<byte>): (r: Option<nat>)
    ensures r.Some? <==> forall i :: 0 <= i < |ds| ==> DigitValue(ds[i]).Some?
    decreases |ds|
  {
    if ds == [] then Some(0)
    else
      var init := DigitsValue(ds[..|ds| - 1]);
      var last := DigitValue(ds[|ds| - 1]);
      if init.Some? && last.Some? then Some(init.value * 16 + last.value) else None
  }

  /**
   * `u8::from_str_radix(s, 16)`: an optional leading '+', then at least one
   * hex digit of either case, with a value that fits in a u8. A leading '-'
   * is an invalid digit for an unsigned type; a lone sign is an error.
   */
  function FromStrRadix16(s: seq<byte>): (r: Option<byte>)
  {
    if |s| == 0 then None
    else
      var ds := if s[0] == PLUS then s[1..] else s;
      if |ds| == 0 then None
      else match DigitsValue(ds)
        case Some(v) => if v < 256 then Some(v) else None
        case None => None
  }

  /** A one-byte string parses iff it is a hex digit, to that digit's value. */
  lemma OneCharRadix(a: byte)
    ensures FromStrRadix16([a]) == DigitValue(a)
  {
    assert [a][..|[a]| - 1] == [];
    assert DigitsValue([]) == Some(0);
    if a != PLUS {
      assert DigitsValue([a]) == if DigitValue(a).Some? then Some(DigitValue(a).value) else None;
    }
  }

  /**
   * A two-byte string parses to `16 * hi + lo` when both bytes are hex
   * digits, to the second digit's value when it is '+' followed by a digit,
   * and fails otherwise.
   */
  lemma TwoCharRadix(a: byte, b: byte)
    ensures FromStrRadix16([a, b]) ==
      if a == PLUS then DigitValue(b)
      else if DigitValue(a).Some? && DigitValue(b).Some? then Some(16 * DigitValue(a).value + DigitValue(b).value)
      else None
  {
    if a == PLUS {
      assert [a, b][1..] == [b];
      OneCharRadix(b);
      assert [b][..|[b]| - 1] == [];
    } else {
      assert [a, b][..|[a, b]| - 1] == [a];
      assert [a][..|[a]| - 1] == [];
      assert DigitsValue([a]) == if DigitValue(a).Some? then Some(DigitValue(a).value) else None;
    }
  }

  /** `<[u8]>::as_ascii` succeeds: every byte is below 0x80. */
  predicate IsAscii(s: seq<byte>)
  {
    forall i :: 0 <= i < |s| ==> s[i] < 0x80
  }

  predicate IsCont(b: byte)
  {
    0x80 <= b <= 0xBF
  }

  /**
   * `core::str::from_utf8` succeeds: the bytes are well-formed UTF-8 (one
   * to four bytes per scalar value, no overlong forms, no surrogates, nothing
   * above U+10FFFF).
   */
  predicate ValidUtf8(s: seq<byte>)
    decreases |s|
  {
    if |s| == 0 then true
    else if s[0] < 0x80 then ValidUtf8(s[1..])
    else if 0xC2 <= s[0] <= 0xDF then
      |s| >= 2 && IsCont(s[1]) && ValidUtf8(s[2..])
    else if s[0] == 0xE0 then
      |s| >= 3 && 0xA0 <= s[1] <= 0xBF && IsCont(s[2]) && ValidUtf8(s[3..])
    else if 0xE1 <= s[0] <= 0xEC || 0xEE <= s[0] <= 0xEF then
      |s| >= 3 && IsCont(s[1]) && IsCont(s[2]) && ValidUtf8(s[3..])
    else if s[0] == 0xED then
      |s| >= 3 && 0x80 <= s[1] <= 0x9F && IsCont(s[2]) && ValidUtf8(s[3..])
    else if s[0] == 0xF0 then
      |s| >= 4 && 0x90 <= s[1] <= 0xBF && IsCont(s[2]) && IsCont(s[3]) && ValidUtf8(s[4..])
    else if 0xF1 <= s[0] <= 0xF3 then
      |s| >= 4 && IsCont(s[1]) && IsCont(s[2]) && IsCont(s[3]) && ValidUtf8(s[4..])
    else if s[0] == 0xF4 then
      |s| >= 4 && 0x80 <= s[1] <= 0x8F && IsCont(s[2]) && IsCont(s[3]) && ValidUtf8(s[4..])
    else false
  }

  /** ASCII text is valid UTF-8. */
  lemma {:induction false} AsciiIsUtf8(s: seq<byte>)
    requires IsAscii(s)
    ensures ValidUtf8(s)
    decreases |s|
  {
    if |s| > 0 {
      assert IsAscii(s[1..]) by {
        forall i | 0 <= i < |s[1..]| ensures s[1..][i] < 0x80 {
          assert s[1..][i] == s[i + 1];
        }
      }
      AsciiIsUtf8(s[1..]);
    }
  }

  /** Whatever `from_str_radix` accepts is ASCII, hence also valid UTF-8. */
  lemma {:induction false} RadixInputIsAscii(s: seq<byte>)
    requires FromStrRadix16(s).Some?
    ensures IsAscii(s) && ValidUtf8(s)
  {
    var ds := if s[0] == PLUS then s[1..] else s;
    forall i | 0 <= i < |s| ensures s[i] < 0x80 {
      if s[0] == PLUS {
        if i > 0 {
          assert s[i] == ds[i - 1];
          DigitsAreAscii(ds[i - 1]);
        }
      } else {
        DigitsAreAscii(ds[i]);
      }
    }
    AsciiIsUtf8(s);
  }
}
