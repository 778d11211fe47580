/**
 * The MAC address of the W5500 Ethernet interface (src/ethernet.rs): the
 * build-time text `MAC=aa:bb:cc:dd:ee:ff` is parsed by a `const fn`, so a
 * malformed address stops the build (a panic during constant evaluation).
 * The build script writes a random address in colon notation when none is
 * configured.
 */
module Ethernet {
  import opened Base
  import opened Hex

  /** Length of a MAC in colon notation. */
  const MAC_TEXT_LEN: nat := 17
  const MAC_LEN: nat := 6
  const COLON: byte := ':' as int

  /**
   * `from_hex_digit`: the value of an ASCII hex digit of either case, or
   * None where the source panics. It inverts `DigitChar`.
   */
  function FromHexDigit(b: byte): (r: Option<byte>)
    ensures r.Some? <==> '0' as int <= b <= '9' as int || 'a' as int <= b <= 'f' as int || 'A' as int <= b <= 'F' as int
    ensures r.Some? ==> r.value < 16 && DigitChar(r.value, 'A' as int <= b <= 'F' as int) == b
  {
    if '0' as int <= b <= '9' as int then Some(b - '0' as int)
    else if 'a' as int <= b <= 'f' as int then Some(10 + (b - 'a' as int))
    else if 'A' as int <= b <= 'F' as int then Some(10 + (b - 'A' as int))
    else None
  }

  /** The text is 17 bytes, with two hex digits per octet and ':' between octets. */
  predicate ValidMacText(s: seq<byte>)
  {
    |s| == MAC_TEXT_LEN &&
    (forall i :: 0 <= i < MAC_LEN ==> FromHexDigit(s[3 * i]).Some? && FromHexDigit(s[3 * i + 1]).Some?) &&
    (forall i :: 0 <= i < MAC_LEN - 1 ==> s[3 * i + 2] == COLON)
  }

  /** Octet `i` of a valid text: `(hi << 4) | lo`, which for digits below 16 is `16 * hi + lo`. */
  function OctetAt(s: seq<byte>, i: nat): byte
    requires ValidMacText(s) && i < MAC_LEN
  {
    16 * FromHexDigit(s[3 * i]).value + FromHexDigit(s[3 * i + 1]).value
  }

  /** For two digit values, `(hi << 4) | lo` on a u8 is `16 * hi + lo`. */
  lemma ShiftOrIsSum(hi: bv8, lo: bv8)
    requires hi < 16 && lo < 16
    ensures (hi << 4) | lo == 16 * hi + lo
  {
  }

  /**
   * `parse_mac`: None where the source panics (wrong length, a non-digit,
   * a wrong separator), otherwise the six octets. The byte after the last
   * octet is not checked, since there is none.
   */
  method ParseMac(s: seq<byte>) returns (mac: Option<seq<byte>>)
    ensures mac.Some? <==> ValidMacText(s)
    ensures mac.Some? ==> |mac.value| == MAC_LEN && forall i :: 0 <= i < MAC_LEN ==> mac.value[i] == OctetAt(s, i)
  {
    if |s| != MAC_TEXT_LEN {
      return None;
    }
    var out := new byte[MAC_LEN](_ => 0);
    var i := 0;
    while i < MAC_LEN
      invariant 0 <= i <= MAC_LEN
      invariant forall j :: 0 <= j < i ==> FromHexDigit(s[3 * j]).Some? && FromHexDigit(s[3 * j + 1]).Some?
      invariant forall j :: 0 <= j < i && j < MAC_LEN - 1 ==> s[3 * j + 2] == COLON
      invariant forall j :: 0 <= j < i ==> out[j] == 16 * FromHexDigit(s[3 * j]).value + FromHexDigit(s[3 * j + 1]).value
    {
      var idx := 3 * i;
      var hi := FromHexDigit(s[idx]);
      if hi.None? {
        return None;
      }
      var lo := FromHexDigit(s[idx + 1]);
      if lo.None? {
        return None;
      }
      out[i] := 16 * hi.value + lo.value;
      if i < MAC_LEN - 1 && s[idx + 2] != COLON {
        return None;
      }
      i := i + 1;
    }
    mac := Some(out[..]);
  }

  /** Colon notation of six octets, two digits each, in either case (as the build script writes it). */
  function FormatMac(m: seq<byte>, upper: bool): (s: seq<byte>)
    requires |m| == MAC_LEN
    ensures |s| == MAC_TEXT_LEN
  {
    var o := (i: nat) requires i < MAC_LEN => [DigitChar(m[i] / 16, upper), DigitChar(m[i] % 16, upper)];
    o(0) + [COLON] + o(1) + [COLON] + o(2) + [COLON] + o(3) + [COLON] + o(4) + [COLON] + o(5)
  }

  /** The digits and separators of a formatted MAC are where the parser looks for them. */
  lemma FormatMacLayout(m: seq<byte>, upper: bool)
    requires |m| == MAC_LEN
    ensures forall i :: 0 <= i < MAC_LEN ==>
      FormatMac(m, upper)[3 * i] == DigitChar(m[i] / 16, upper) &&
      FormatMac(m, upper)[3 * i + 1] == DigitChar(m[i] % 16, upper)
    ensures forall i :: 0 <= i < MAC_LEN - 1 ==> FormatMac(m, upper)[3 * i + 2] == COLON
  {
  }

  /** Whatever address the build script writes, the firmware parses back to the same six octets. */
  lemma ParseFormatRoundTrip(m: seq<byte>, upper: bool)
    requires |m| == MAC_LEN
    ensures ValidMacText(FormatMac(m, upper))
    ensures forall i :: 0 <= i < MAC_LEN ==> OctetAt(FormatMac(m, upper), i) == m[i]
  {
    var s := FormatMac(m, upper);
    FormatMacLayout(m, upper);
    forall i | 0 <= i < MAC_LEN
      ensures FromHexDigit(s[3 * i]) == Some(m[i] / 16) && FromHexDigit(s[3 * i + 1]) == Some(m[i] % 16)
    {
      DigitRoundTrip(m[i] / 16, upper);
      DigitRoundTrip(m[i] % 16, upper);
    }
  }
}
