/** The conversion of a small number to a byte, kept apart from the bit-level definitions. */
module ByteCast {
  /** A number below 256 converted to `uint8_t` keeps its value. */
  lemma ByteNumber(i: nat)
    requires i < 256
    ensures (i as bv8) as int == i
  {
  }
}

/**
 * Byte-level building blocks shared by the editor's buffers: the byte type,
 * 32-bit unsigned arithmetic, single bits, nibbles and the assembly of
 * multi-byte values in either byte order.
 */
module Bytes {

  datatype Option<T> = None | Some(value: T)

  /** One byte of a file (`uint8_t`). */
  type byte = bv8

  /** A value of C++ type `uint32_t`. */
  type u32 = x: int | 0 <= x < 0x1_0000_0000

  const U32_LIMIT: int := 0x1_0000_0000

  /** `a + b` evaluated on `uint32_t` operands: the sum wraps around. */
  function Add32(a: u32, b: int): (r: u32)
    requires -U32_LIMIT < b < U32_LIMIT
    ensures a + b < U32_LIMIT && 0 <= a + b ==> r == a + b
    ensures a + b >= U32_LIMIT ==> r == a + b - U32_LIMIT
    ensures a + b < 0 ==> r == a + b + U32_LIMIT
  {
    (a + b) % 0x1_0000_0000
  }

  // ---------------------------------------------------------------- bits

  /** Bit `i` of `b`, counted from the least significant bit. */
  function Bit(b: byte, i: bv8): bool
    requires i < 8
  {
    (b >> i) & 1 != 0
  }

  /** `b` with bit `i` cleared and then set to `s`. */
  function SetBit(b: byte, i: bv8, s: bool): (r: byte)
    requires i < 8
    ensures Bit(r, i) == s
  {
    (b & !(1 << i)) | (if s then 1 << i else 0)
  }

  /** Setting bit `i` leaves every other bit as it was. */
  lemma SetBitKeepsOthers(b: byte, i: bv8, s: bool, j: bv8)
    requires i < 8 && j < 8 && j != i
    ensures Bit(SetBit(b, i, s), j) == Bit(b, j)
  {
  }

  /** The low nibble (`First == true`) or the high nibble of `b`. */
  function Nibble(b: byte, first: bool): (r: byte)
    ensures r <= 0xF
  {
    if first then b & 0xF else b >> 4
  }

  /** `b` with one nibble replaced by `d`; the other nibble is kept. */
  function SetNibble(b: byte, first: bool, d: byte): (r: byte)
    requires d <= 0xF
    ensures Nibble(r, first) == d
    ensures Nibble(r, !first) == Nibble(b, !first)
  {
    if first then (b & 0xF0) | (d & 0xF) else (b & 0x0F) | (d << 4)
  }

  /** A byte is fully described by its two nibbles. */
  lemma NibblesDetermineByte(a: byte, b: byte)
    ensures a == b <==> Nibble(a, true) == Nibble(b, true) && Nibble(a, false) == Nibble(b, false)
  {
  }

  /** A byte is fully described by its eight bits. */
  lemma BitsDetermineByte(a: byte, b: byte)
    requires forall j: bv8 :: j < 8 ==> Bit(a, j) == Bit(b, j)
    ensures a == b
  {
    assert Bit(a, 0) == Bit(b, 0) && Bit(a, 1) == Bit(b, 1);
    assert Bit(a, 2) == Bit(b, 2) && Bit(a, 3) == Bit(b, 3);
    assert Bit(a, 4) == Bit(b, 4) && Bit(a, 5) == Bit(b, 5);
    assert Bit(a, 6) == Bit(b, 6) && Bit(a, 7) == Bit(b, 7);
  }

  // ------------------------------------------------------ multi-byte values

  /** The `sizeof(T)` of the unsigned types a buffer is read as. */
  datatype Width = U8 | U16 | U32
  {
    function Size(): (n: nat)
      ensures 1 <= n <= 4
    {
      match this
      case U8 => 1
      case U16 => 2
      case U32 => 4
    }

    /** The all-ones value of the type, as a 32-bit mask. */
    function Mask(): bv32
    {
      match this
      case U8 => 0xFF
      case U16 => 0xFFFF
      case U32 => 0xFFFF_FFFF
    }
  }

  /**
   * How far byte `idx` of a `w`-byte value is shifted: big endian puts
   * byte 0 at the top, little endian at the bottom.
   */
  function ShiftOf(w: Width, idx: nat, bigEndian: bool): (s: bv32)
    requires idx < w.Size()
    ensures s < 32 && s % 8 == 0
  {
    var place := if bigEndian then w.Size() - 1 - idx else idx;
    if place == 0 then 0 else if place == 1 then 8 else if place == 2 then 16 else 24
  }

  /**
   * The value assembled from the first `n` bytes of `bs`, each ORed in at its
   * place in a `w`-byte value; bytes not gathered stay zero.
   */
  function Gather(bs: seq<byte>, w: Width, n: nat, bigEndian: bool): bv32
    requires n <= |bs| && n <= w.Size()
  {
    if n == 0 then 0
    else Merge(Gather(bs, w, n - 1, bigEndian), Place(bs[n - 1], ShiftOf(w, n - 1, bigEndian)))
  }

  /** One step of assembling a value: OR a placed byte into the accumulator. */
  function Merge(acc: bv32, placed: bv32): bv32
  {
    acc | placed
  }

  /** The `w`-byte value stored in `bs` in the given byte order. */
  function Compose(bs: seq<byte>, w: Width, bigEndian: bool): bv32
    requires |bs| == w.Size()
  {
    Gather(bs, w, w.Size(), bigEndian)
  }

  /** Byte `idx` of the `w`-byte value `v` in the given byte order. */
  function ByteOf(v: bv32, w: Width, idx: nat, bigEndian: bool): byte
    requires idx < w.Size()
  {
    Slice(v, ShiftOf(w, idx, bigEndian))
  }

  /** The bytes that store the low `w` bytes of `v` in the given byte order. */
  function Decompose(v: bv32, w: Width, bigEndian: bool): (bs: seq<byte>)
    ensures |bs| == w.Size()
    ensures forall idx :: 0 <= idx < w.Size() ==> bs[idx] == ByteOf(v, w, idx, bigEndian)
  {
    match w
    case U8 => [ByteOf(v, w, 0, bigEndian)]
    case U16 => [ByteOf(v, w, 0, bigEndian), ByteOf(v, w, 1, bigEndian)]
    case U32 => [ByteOf(v, w, 0, bigEndian), ByteOf(v, w, 1, bigEndian),
                 ByteOf(v, w, 2, bigEndian), ByteOf(v, w, 3, bigEndian)]
  }

  /** Storing a value and reading it back yields the value truncated to the type. */
  lemma ComposeDecompose(v: bv32, w: Width, bigEndian: bool)
    ensures Compose(Decompose(v, w, bigEndian), w, bigEndian) == v & w.Mask()
  {
    if w == U8 {
      RoundTrip8(v, w, bigEndian);
    } else if w == U16 {
      RoundTrip16(v, w, bigEndian);
    } else {
      RoundTrip32(v, w, bigEndian);
    }
  }

  lemma RoundTrip8(v: bv32, w: Width, bigEndian: bool)
    requires w == U8
    ensures Compose(Decompose(v, w, bigEndian), w, bigEndian) == v & w.Mask()
  {
    var bs := Decompose(v, U8, bigEndian);
    SplitValue(v);
    Compose8(bs, bigEndian);
    assert bs[0] == Slice(v, 0);
  }

  lemma RoundTrip16(v: bv32, w: Width, bigEndian: bool)
    requires w == U16
    ensures Compose(Decompose(v, w, bigEndian), w, bigEndian) == v & w.Mask()
  {
    if bigEndian { RoundTrip16BE(v); } else { RoundTrip16LE(v); }
  }

  lemma RoundTrip32(v: bv32, w: Width, bigEndian: bool)
    requires w == U32
    ensures Compose(Decompose(v, w, bigEndian), w, bigEndian) == v & w.Mask()
  {
    if bigEndian { RoundTrip32BE(v); } else { RoundTrip32LE(v); }
  }

  lemma RoundTrip16BE(v: bv32)
    ensures Compose(Decompose(v, U16, true), U16, true) == v & U16.Mask()
  {
    var bs := Decompose(v, U16, true);
    SplitValue(v);
    Compose16(bs, true);
    assert bs[0] == Slice(v, 8) && bs[1] == Slice(v, 0);
  }

  lemma RoundTrip16LE(v: bv32)
    ensures Compose(Decompose(v, U16, false), U16, false) == v & U16.Mask()
  {
    var bs := Decompose(v, U16, false);
    SplitValue(v);
    Compose16(bs, false);
    assert bs[0] == Slice(v, 0) && bs[1] == Slice(v, 8);
  }

  lemma RoundTrip32BE(v: bv32)
    ensures Compose(Decompose(v, U32, true), U32, true) == v & U32.Mask()
  {
    var bs := Decompose(v, U32, true);
    SplitValue(v);
    Compose32BE(bs);
    assert bs[0] == Slice(v, 24) && bs[1] == Slice(v, 16);
    assert bs[2] == Slice(v, 8) && bs[3] == Slice(v, 0);
  }

  lemma RoundTrip32LE(v: bv32)
    ensures Compose(Decompose(v, U32, false), U32, false) == v & U32.Mask()
  {
    var bs := Decompose(v, U32, false);
    SplitValue(v);
    Compose32LE(bs);
    assert bs[0] == Slice(v, 0) && bs[1] == Slice(v, 8);
    assert bs[2] == Slice(v, 16) && bs[3] == Slice(v, 24);
  }

  /** Reading stored bytes as a value and storing that value gives the same bytes. */
  lemma DecomposeCompose(bs: seq<byte>, w: Width, bigEndian: bool)
    requires |bs| == w.Size()
    ensures Decompose(Compose(bs, w, bigEndian), w, bigEndian) == bs
  {
    if w == U8 {
      Bytes8(bs, bigEndian);
    } else if w == U16 {
      Bytes16(bs, bigEndian);
    } else if bigEndian {
      Bytes32BE(bs);
    } else {
      Bytes32LE(bs);
    }
  }

  lemma Bytes8(bs: seq<byte>, bigEndian: bool)
    requires |bs| == 1
    ensures Decompose(Compose(bs, U8, bigEndian), U8, bigEndian) == bs
  {
    var v := Compose(bs, U8, bigEndian);
    Compose8(bs, bigEndian);
    JoinBytes(bs[0], 0, 0, 0);
    assert Decompose(v, U8, bigEndian)[0] == Slice(v, 0);
  }

  lemma Bytes16(bs: seq<byte>, bigEndian: bool)
    requires |bs| == 2
    ensures Decompose(Compose(bs, U16, bigEndian), U16, bigEndian) == bs
  {
    var v := Compose(bs, U16, bigEndian);
    var ds := Decompose(v, U16, bigEndian);
    Compose16(bs, bigEndian);
    if bigEndian { JoinBytes(bs[1], bs[0], 0, 0); } else { JoinBytes(bs[0], bs[1], 0, 0); }
    assert ds[0] == Slice(v, if bigEndian then 8 else 0);
    assert ds[1] == Slice(v, if bigEndian then 0 else 8);
  }

  lemma Bytes32BE(bs: seq<byte>)
    requires |bs| == 4
    ensures Decompose(Compose(bs, U32, true), U32, true) == bs
  {
    var v := Compose(bs, U32, true);
    var ds := Decompose(v, U32, true);
    Compose32BE(bs);
    JoinBytes(bs[3], bs[2], bs[1], bs[0]);
    assert ds[0] == Slice(v, 24) && ds[1] == Slice(v, 16);
    assert ds[2] == Slice(v, 8) && ds[3] == Slice(v, 0);
  }

  lemma Bytes32LE(bs: seq<byte>)
    requires |bs| == 4
    ensures Decompose(Compose(bs, U32, false), U32, false) == bs
  {
    var v := Compose(bs, U32, false);
    var ds := Decompose(v, U32, false);
    Compose32LE(bs);
    JoinBytes(bs[0], bs[1], bs[2], bs[3]);
    assert ds[0] == Slice(v, 0) && ds[1] == Slice(v, 8);
    assert ds[2] == Slice(v, 16) && ds[3] == Slice(v, 24);
  }

  /** The byte of `v` that starts at bit `s`. */
  function Slice(v: bv32, s: bv32): byte
    requires s < 32
  {
    ((v >> s) & 0xFF) as byte
  }

  /** Four bytes placed from the least significant end. */
  function Join(b0: byte, b1: byte, b2: byte, b3: byte): bv32
  {
    b0 as bv32 | (b1 as bv32 << 8) | (b2 as bv32 << 16) | (b3 as bv32 << 24)
  }

  lemma SplitValue(v: bv32)
    ensures Join(Slice(v, 0), Slice(v, 8), Slice(v, 16), Slice(v, 24)) == v
    ensures Join(Slice(v, 0), Slice(v, 8), 0, 0) == v & 0xFFFF
    ensures Join(Slice(v, 0), 0, 0, 0) == v & 0xFF
    ensures v & 0xFFFF_FFFF == v
  {
  }

  lemma JoinBytes(b0: byte, b1: byte, b2: byte, b3: byte)
    ensures var v := Join(b0, b1, b2, b3);
      Slice(v, 0) == b0 && Slice(v, 8) == b1 && Slice(v, 16) == b2 && Slice(v, 24) == b3
  {
  }

  /** `Compose` written out for each width and byte order. */
  lemma ComposeExplicit(bs: seq<byte>, w: Width, bigEndian: bool)
    requires |bs| == w.Size()
    ensures w == U8 ==> Compose(bs, w, bigEndian) == Join(bs[0], 0, 0, 0)
    ensures w == U16 ==>
      Compose(bs, w, bigEndian) == (if bigEndian then Join(bs[1], bs[0], 0, 0) else Join(bs[0], bs[1], 0, 0))
    ensures w == U32 ==>
      Compose(bs, w, bigEndian) == (if bigEndian then Join(bs[3], bs[2], bs[1], bs[0]) else Join(bs[0], bs[1], bs[2], bs[3]))
  {
    if w == U8 {
      Compose8(bs, bigEndian);
    } else if w == U16 {
      Compose16(bs, bigEndian);
    } else {
      Compose32(bs, bigEndian);
    }
  }

  lemma Compose8(bs: seq<byte>, bigEndian: bool)
    requires |bs| == 1
    ensures Compose(bs, U8, bigEndian) == Join(bs[0], 0, 0, 0)
  {
    assert Gather(bs, U8, 1, bigEndian) == Merge(0, Place(bs[0], ShiftOf(U8, 0, bigEndian)));
    PlaceJoin(bs[0], 0, 0, 0);
  }

  lemma Compose16(bs: seq<byte>, bigEndian: bool)
    requires |bs| == 2
    ensures Compose(bs, U16, bigEndian) == (if bigEndian then Join(bs[1], bs[0], 0, 0) else Join(bs[0], bs[1], 0, 0))
  {
    assert Gather(bs, U16, 1, bigEndian) == Merge(0, Place(bs[0], ShiftOf(U16, 0, bigEndian)));
    assert Gather(bs, U16, 2, bigEndian) == Merge(Gather(bs, U16, 1, bigEndian), Place(bs[1], ShiftOf(U16, 1, bigEndian)));
    if bigEndian { PlaceJoin(bs[1], bs[0], 0, 0); } else { PlaceJoin(bs[0], bs[1], 0, 0); }
  }

  lemma Compose32(bs: seq<byte>, bigEndian: bool)
    requires |bs| == 4
    ensures Compose(bs, U32, bigEndian) == (if bigEndian then Join(bs[3], bs[2], bs[1], bs[0]) else Join(bs[0], bs[1], bs[2], bs[3]))
  {
    if bigEndian { Compose32BE(bs); } else { Compose32LE(bs); }
  }

  lemma Compose32BE(bs: seq<byte>)
    requires |bs| == 4
    ensures Compose(bs, U32, true) == Join(bs[3], bs[2], bs[1], bs[0])
  {
    var g1 := Merge(0, Place(bs[0], 24));
    var g2 := Merge(g1, Place(bs[1], 16));
    var g3 := Merge(g2, Place(bs[2], 8));
    assert ShiftOf(U32, 0, true) == 24 && ShiftOf(U32, 1, true) == 16;
    assert ShiftOf(U32, 2, true) == 8 && ShiftOf(U32, 3, true) == 0;
    assert Gather(bs, U32, 1, true) == g1;
    assert Gather(bs, U32, 2, true) == g2;
    assert Gather(bs, U32, 3, true) == g3;
    assert Compose(bs, U32, true) == Merge(g3, Place(bs[3], 0));
    MergeJoin(bs[3], bs[2], bs[1], bs[0]);
  }

  lemma Compose32LE(bs: seq<byte>)
    requires |bs| == 4
    ensures Compose(bs, U32, false) == Join(bs[0], bs[1], bs[2], bs[3])
  {
    var g1 := Merge(0, Place(bs[0], 0));
    var g2 := Merge(g1, Place(bs[1], 8));
    var g3 := Merge(g2, Place(bs[2], 16));
    assert ShiftOf(U32, 0, false) == 0 && ShiftOf(U32, 1, false) == 8;
    assert ShiftOf(U32, 2, false) == 16 && ShiftOf(U32, 3, false) == 24;
    assert Gather(bs, U32, 1, false) == g1;
    assert Gather(bs, U32, 2, false) == g2;
    assert Gather(bs, U32, 3, false) == g3;
    assert Compose(bs, U32, false) == Merge(g3, Place(bs[3], 24));
    MergeJoin(bs[0], bs[1], bs[2], bs[3]);
  }

  lemma MergeJoin(b0: byte, b1: byte, b2: byte, b3: byte)
    ensures Join(b0, b1, b2, b3) == Merge(Merge(Merge(Merge(0, Place(b3, 24)), Place(b2, 16)), Place(b1, 8)), Place(b0, 0))
    ensures Join(b0, b1, b2, b3) == Merge(Merge(Merge(Merge(0, Place(b0, 0)), Place(b1, 8)), Place(b2, 16)), Place(b3, 24))
  {
  }

  /** Byte `b` moved up by `s` bits in a 32-bit value. */
  function Place(b: byte, s: bv32): bv32
    requires s < 32
  {
    (b as bv32) << s
  }

  lemma PlaceJoin(b0: byte, b1: byte, b2: byte, b3: byte)
    ensures Join(b0, b1, b2, b3) == Place(b0, 0) | Place(b1, 8) | Place(b2, 16) | Place(b3, 24)
    ensures Join(b0, b1, b2, b3) == Place(b3, 24) | Place(b2, 16) | Place(b1, 8) | Place(b0, 0)
    ensures Join(b0, b1, 0, 0) == Place(b0, 0) | Place(b1, 8)
    ensures Join(b0, b1, 0, 0) == Place(b1, 8) | Place(b0, 0)
    ensures Join(b0, 0, 0, 0) == Place(b0, 0)
  {
  }

  /** The two byte orders store the same value as reversed byte sequences. */
  lemma ByteOrdersMirror(v: bv32, w: Width, idx: nat)
    requires idx < w.Size()
    ensures Decompose(v, w, true)[idx] == Decompose(v, w, false)[w.Size() - 1 - idx]
  {
  }
}
