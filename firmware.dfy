/**
 * Start-up computations of the firmware entry point (src/main.rs): the
 * firmware version decoded from the `GIT_HASH` build variable, and the
 * bound on the random start-up spin delay.
 */
module Firmware {
  import opened Base
  import opened Hex

  /** Size of the decoded version (`[u8; 7]`). */
  const HASH_LEN: nat := 7
  /** The version text the build script uses when git is unavailable. */
  const FALLBACK_HASH: string := "0000000"

  /** How many pieces `chunks(2)` cuts a string into. */
  function NumChunks(s: seq<byte>): nat
  {
    (|s| + 1) / 2
  }

  /** Chunk `i` of `chunks(2)`: two bytes, or the last byte of an odd-length string. */
  function HashChunk(s: seq<byte>, i: nat): seq<byte>
    requires i < NumChunks(s)
  {
    if 2 * i + 2 <= |s| then s[2 * i..2 * i + 2] else s[2 * i..]
  }

  /** One chunk through `from_utf8(..).unwrap()` and `from_str_radix(.., 16).unwrap()`; None where either panics. */
  function ChunkByte(s: seq<byte>, i: nat): Option<byte>
    requires i < NumChunks(s)
  {
    var c := HashChunk(s, i);
    if ValidUtf8(c) then FromStrRadix16(c) else None
  }

  /** The decode finishes: at most seven chunks (more index past `hash`), each of them hex. */
  predicate HashDecodes(s: seq<byte>)
  {
    NumChunks(s) <= HASH_LEN && forall i :: 0 <= i < NumChunks(s) ==> ChunkByte(s, i).Some?
  }

  /**
   * The `GIT_HASH` closure: byte `i` of the version is chunk `i` read as
   * hex, and bytes past the last chunk stay 0. None where the closure panics.
   */
  method DecodeGitHash(s: seq<byte>) returns (hash: Option<seq<byte>>)
    ensures hash.Some? <==> HashDecodes(s)
    ensures hash.Some? ==> |hash.value| == HASH_LEN
    ensures hash.Some? ==>
      forall i :: 0 <= i < HASH_LEN ==> hash.value[i] == if i < NumChunks(s) then ChunkByte(s, i).value else 0
  {
    var h := new byte[HASH_LEN](_ => 0);
    var i := 0;
    while i < NumChunks(s)
      invariant 0 <= i <= NumChunks(s) && i <= HASH_LEN
      invariant forall j :: 0 <= j < i ==> ChunkByte(s, j).Some? && h[j] == ChunkByte(s, j).value
      invariant forall j :: i <= j < HASH_LEN ==> h[j] == 0
    {
      var chunk := if 2 * i + 2 <= |s| then s[2 * i..2 * i + 2] else s[2 * i..];
      assert chunk == HashChunk(s, i);
      if !ValidUtf8(chunk) {
        assert ChunkByte(s, i).None?;
        return None;
      }
      var b := FromStrRadix16(chunk);
      assert b == ChunkByte(s, i);
      if b.None? {
        return None;
      }
      if i >= HASH_LEN {
        return None;
      }
      h[i] := b.value;
      i := i + 1;
    }
    hash := Some(h[..]);
  }

  /** A one-byte final chunk is read as a single hex digit. */
  lemma LastDigitAlone(s: seq<byte>)
    requires |s| % 2 == 1
    ensures ChunkByte(s, NumChunks(s) - 1) == DigitValue(s[|s| - 1])
  {
    var c := HashChunk(s, NumChunks(s) - 1);
    assert c == [s[|s| - 1]];
    OneCharRadix(s[|s| - 1]);
    if DigitValue(s[|s| - 1]).Some? {
      DigitsAreAscii(s[|s| - 1]);
      AsciiIsUtf8(c);
    } else if FromStrRadix16(c).Some? {
      RadixInputIsAscii(c);
    }
  }

  /** The fallback version text decodes, to seven zero bytes. */
  lemma FallbackIsZero()
    ensures HashDecodes(AsciiBytes(FALLBACK_HASH))
    ensures forall i :: 0 <= i < HASH_LEN ==> (if i < NumChunks(AsciiBytes(FALLBACK_HASH)) then ChunkByte(AsciiBytes(FALLBACK_HASH), i).value else 0) == 0
  {
    var s := AsciiBytes(FALLBACK_HASH);
    assert s == [0x30, 0x30, 0x30, 0x30, 0x30, 0x30, 0x30];
    assert NumChunks(s) == 4;
    forall i | 0 <= i < 3
      ensures ChunkByte(s, i) == Some(0)
    {
      assert HashChunk(s, i) == [0x30, 0x30];
      TwoCharRadix(0x30, 0x30);
      RadixInputIsAscii([0x30, 0x30]);
    }
    LastDigitAlone(s);
  }

  /**
   * A string of more than fourteen bytes never decodes: its eighth chunk
   * would index past the seven-byte array.
   */
  lemma TooLongPanics(s: seq<byte>)
    requires |s| > 2 * HASH_LEN
    ensures !HashDecodes(s)
  {
  }

  /** The start-up spin count `(r % 1000) + 50` for a random u32 `r`. */
  function SpinCount(r: nat): (c: nat)
    requires r < 0x1_0000_0000
    ensures 50 <= c <= 1049
  {
    r % 1000 + 50
  }
}
