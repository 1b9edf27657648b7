/**
 * Hexadecimal text for byte values: the `ToHex` helper that renders a value
 * of `sizeof(T)` bytes as exactly `2 * sizeof(T)` upper-case digits, and a
 * parser that inverts it.
 */
module HexFormat {
  import opened Bytes

  /** The digit `ToHex` writes for a nibble value. */
  function HexDigit(n: bv32): (c: char)
    requires n < 16
    ensures IsHexDigit(c)
  {
    if n >= 0xA then ('A' as int + (n - 0xA) as int) as char else ('0' as int + n as int) as char
  }

  /** An upper-case hexadecimal digit. */
  predicate IsHexDigit(c: char)
  {
    '0' <= c <= '9' || 'A' <= c <= 'F'
  }

  /** The lowest nibble of `v`. */
  function Low(v: bv32): (n: bv32)
    ensures n < 16
  {
    v & 0xF
  }

  /** `v` without its lowest nibble. */
  function Drop(v: bv32): bv32
  {
    v >> 4
  }

  /**
   * The last `k` hexadecimal digits of `v`, most significant first: the
   * rendering of a value as `ToHex` produces it.
   */
  function HexString(v: bv32, k: nat): (s: string)
    ensures |s| == k
    ensures forall i :: 0 <= i < |s| ==> IsHexDigit(s[i])
  {
    if k == 0 then "" else HexString(Drop(v), k - 1) + [HexDigit(Low(v))]
  }

  /**
   * Renders the low `w` bytes of `v` as `2 * w.Size()` digits, filling a
   * character buffer from its last position to its first.
   */
  method ToHex(v: bv32, w: Width) returns (s: string)
    ensures s == HexString(v, 2 * w.Size())
  {
    var len := 2 * w.Size();
    var buffer := new char[len];
    var value := v;
    var idx := len;
    while idx > 0
      invariant 0 <= idx <= len
      invariant HexString(v, len) == HexString(value, idx) + buffer[idx..]
    {
      idx := idx - 1;
      buffer[idx] := HexDigit(Low(value));
      value := Drop(value);
    }
    s := buffer[..];
  }

  // --------------------------------------------------------------- parsing

  /** The value of an upper-case hexadecimal digit. */
  function DigitValue(c: char): (n: bv32)
    requires IsHexDigit(c)
    ensures n < 16
  {
    if c <= '9' then (c as int - '0' as int) as bv32 else (c as int - 'A' as int + 10) as bv32
  }

  /** Appends digit value `d` below the digits of `acc`. */
  function Push(acc: bv32, d: bv32): bv32
  {
    (acc << 4) | d
  }

  /** The value of a string of upper-case hexadecimal digits. */
  function ParseHex(s: string): bv32
    requires forall i :: 0 <= i < |s| ==> IsHexDigit(s[i])
  {
    if s == [] then 0 else Push(ParseHex(s[..|s| - 1]), DigitValue(s[|s| - 1]))
  }

  /** The bits of `v` selected by `mask`. */
  function Keep(v: bv32, mask: bv32): bv32
  {
    v & mask
  }

  /** The low `k` nibbles set. */
  function NibbleMask(k: nat): bv32
  {
    if k == 0 then 0 else Push(NibbleMask(k - 1), 0xF)
  }

  lemma DigitRoundTrip(n: bv32)
    requires n < 16
    ensures DigitValue(HexDigit(n)) == n
  {
  }

  /** Parsing the digits `ToHex` produces gives back the rendered part of the value. */
  lemma {:induction false} ParseHexString(v: bv32, k: nat)
    ensures ParseHex(HexString(v, k)) == Keep(v, NibbleMask(k))
  {
    if k == 0 {
      assert Keep(v, 0) == 0;
    } else {
      var s := HexString(v, k);
      assert s[..|s| - 1] == HexString(Drop(v), k - 1);
      assert s[|s| - 1] == HexDigit(Low(v));
      ParseHexString(Drop(v), k - 1);
      DigitRoundTrip(Low(v));
      ShiftMask(v, NibbleMask(k - 1));
    }
  }

  lemma ShiftMask(v: bv32, m: bv32)
    ensures Push(Keep(Drop(v), m), Low(v)) == Keep(v, Push(m, 0xF))
  {
  }

  /** Two digits are all the rendering of a byte needs: nothing of the byte is lost. */
  lemma ByteHexRoundTrip(b: byte)
    ensures ParseHex(HexString(b as bv32, 2)) == b as bv32
  {
    ParseHexString(b as bv32, 2);
    assert NibbleMask(2) == 0xFF;
  }

  /** Distinct bytes render as distinct two-digit strings. */
  lemma ByteHexInjective(a: byte, b: byte)
    requires HexString(a as bv32, 2) == HexString(b as bv32, 2)
    ensures a == b
  {
    ByteHexRoundTrip(a);
    ByteHexRoundTrip(b);
  }

  // ------------------------------------------------------- byte keys by number

  /** The digit for a nibble given as a number. */
  function DigitChar(k: int): (c: char)
    requires 0 <= k < 16
    ensures IsHexDigit(c)
  {
    if k >= 0xA then ('A' as int + (k - 0xA)) as char else ('0' as int + k) as char
  }

  /** The two upper-case digits of byte number `i`, high nibble first. */
  function ByteKey(i: nat): (s: string)
    requires i < 256
    ensures |s| == 2 && IsHexDigit(s[0]) && IsHexDigit(s[1])
  {
    [DigitChar(i / 16), DigitChar(i % 16)]
  }

  /** Distinct byte numbers have distinct keys. */
  lemma ByteKeyInjective(i: nat, j: nat)
    requires i < 256 && j < 256 && ByteKey(i) == ByteKey(j)
    ensures i == j
  {
    assert DigitChar(i / 16) == DigitChar(j / 16) && DigitChar(i % 16) == DigitChar(j % 16);
    assert i / 16 == j / 16 && i % 16 == j % 16;
  }

  lemma ByteLowValue(b: bv8)
    ensures (b & 0xF) as int == b as int % 16
  {
  }

  lemma NarrowKeepsValue(c: bv32)
    requires c < 256
    ensures (c as bv8) as int == c as int
  {
  }

  lemma LowValue(c: bv32)
    requires c < 256
    ensures Low(c) as int == c as int % 16
  {
    NarrowKeepsValue(c);
    ByteLowValue(c as bv8);
    assert Low(c) as int == (c as bv8 & 0xF) as int;
  }

  lemma HighValue(c: bv32)
    requires c < 256
    ensures Low(Drop(c)) as int == c as int / 16
  {
  }

  /** What `ToHex` renders for a byte code is the key of its number. */
  lemma ToHexByteKey(c: bv32)
    requires c < 256
    ensures HexString(c, 2) == ByteKey(c as int)
  {
    LowValue(c);
    HighValue(c);
    assert HexString(c, 2) == HexString(Drop(c), 1) + [HexDigit(Low(c))];
    assert HexString(Drop(c), 1) == [HexDigit(Low(Drop(c)))];
  }

  /** A byte widened to `uint32_t` keeps its number and stays below 256. */
  lemma WidenKeepsValue(b: bv8)
    ensures (b as bv32) < 256 && (b as bv32) as int == b as int
  {
  }

  /** `ToHex<uint8_t>` of a byte: its key. */
  method ToHexByte(b: bv8) returns (key: string)
    ensures key == ByteKey(b as int)
  {
    WidenKeepsValue(b);
    key := ToHex(b as bv32, U8);
    ToHexByteKey(b as bv32);
  }

  /** The two-digit rendering of a byte, which parses back to the byte. */
  method ByteText(b: byte) returns (s: string)
    ensures s == HexString(b as bv32, 2) && ParseHex(s) == b as bv32
  {
    s := ToHex(b as bv32, U8);
    ByteHexRoundTrip(b);
  }
}
