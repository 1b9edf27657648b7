/**
 * The in-memory `HexData` buffer: a whole file held as a byte vector, read and
 * written as unsigned values of one, two or four bytes in either byte order.
 */
module MemoryHexData {
  import opened Bytes

  /** `data` with the bytes from `offs` on replaced by `bs`; the length is kept. */
  function Overwrite(data: seq<byte>, offs: nat, bs: seq<byte>): (r: seq<byte>)
    requires offs + |bs| <= |data|
    ensures |r| == |data|
    ensures r[offs..offs + |bs|] == bs
    ensures forall j :: 0 <= j < |data| && !(offs <= j < offs + |bs|) ==> r[j] == data[j]
  {
    data[..offs] + bs + data[offs + |bs|..]
  }

  /**
   * The number of bytes the read loop gathers: it stops at the end of the
   * data, comparing `Offs + Idx` against the size in 32-bit arithmetic.
   */
  function Available(size: nat, offs: u32, w: Width): (n: nat)
    requires size < U32_LIMIT
    ensures n <= w.Size()
    ensures offs + n <= size || n == 0
    ensures offs + w.Size() <= size ==> n == w.Size()
    ensures offs >= size ==> n == 0
  {
    if offs >= size then 0 else if size - offs < w.Size() then size - offs else w.Size()
  }

  /**
   * The guard of `Read` and `Write` as written: `Offs + sizeof(T) - 1` is
   * formed in 32-bit arithmetic before it is compared with the size.
   */
  predicate RejectedAsWritten(good: bool, size: nat, offs: u32, w: Width)
  {
    !good || size == 0 || Add32(offs, w.Size() - 1) >= size
  }

  /** The guard `Write` is meant to have: the whole value lies inside the data. */
  predicate WriteAllowed(good: bool, size: nat, offs: u32, w: Width)
  {
    good && offs + w.Size() <= size
  }

  /** The `n` bytes from `offs` on; empty when there are none. */
  function Window(data: seq<byte>, offs: nat, n: nat): (r: seq<byte>)
    requires n == 0 || offs + n <= |data|
    ensures |r| == n
  {
    if n == 0 then [] else data[offs..offs + n]
  }

  /** The value `Read` returns for the given buffer state and arguments. */
  function ReadValue(data: seq<byte>, good: bool, offs: u32, w: Width, bigEndian: bool): bv32
    requires |data| < U32_LIMIT
  {
    if RejectedAsWritten(good, |data|, offs, w) then 0
    else
      var n := Available(|data|, offs, w);
      Gather(Window(data, offs, n), w, n, bigEndian)
  }

  class HexData {
    var fileData: seq<byte>
    var fileGood: bool
    var changesMade: bool
    /** The glyph shown for each byte value. */
    var encoding: seq<string>

    ghost predicate Valid()
      reads this
    {
      |fileData| < U32_LIMIT && |encoding| == 256
    }

    /** The glyph of the byte at `offs`, or "." past the end of the data. */
    function GetChar(offs: u32): (r: string)
      reads this
      requires Valid()
      ensures offs < |fileData| ==> r == encoding[fileData[offs]]
      ensures offs >= |fileData| ==> r == "."
    {
      if offs >= |fileData| then "." else encoding[fileData[offs]]
    }

    /**
     * `Read<T>`: gathers the bytes from `offs` on into a `w`-byte value, each
     * byte ORed in at the place its byte order gives it.
     */
    method Read(offs: u32, w: Width, bigEndian: bool) returns (v: bv32)
      requires Valid()
      ensures v == ReadValue(fileData, fileGood, offs, w, bigEndian)
    {
      if RejectedAsWritten(fileGood, |fileData|, offs, w) {
        return 0;
      }
      v := 0;
      var idx := 0;
      while idx < w.Size() && Add32(offs, idx) < |fileData|
        invariant 0 <= idx <= Available(|fileData|, offs, w)
        invariant v == Gather(Window(fileData, offs, idx), w, idx, bigEndian)
        decreases w.Size() - idx
      {
        assert Window(fileData, offs, idx) == Window(fileData, offs, idx + 1)[..idx];
        GatherPrefix(Window(fileData, offs, idx + 1), w, idx, bigEndian);
        v := Merge(v, Place(fileData[offs + idx], ShiftOf(w, idx, bigEndian)));
        idx := idx + 1;
      }
      assert idx == Available(|fileData|, offs, w);
    }

    /**
     * `Write<T>`: stores the low `w` bytes of `data` at `offs` in the given
     * byte order and marks the buffer changed; a value that would not fit
     * leaves everything as it was.
     */
    method Write(offs: u32, data: bv32, w: Width, bigEndian: bool)
      modifies this
      requires Valid()
      ensures Valid()
      ensures WriteAllowed(old(fileGood), old(|fileData|), offs, w) ==>
        fileData == Overwrite(old(fileData), offs, Decompose(data, w, bigEndian)) && changesMade
      ensures !WriteAllowed(old(fileGood), old(|fileData|), offs, w) ==>
        fileData == old(fileData) && changesMade == old(changesMade)
      ensures fileGood == old(fileGood) && encoding == old(encoding)
    {
      if !WriteAllowed(fileGood, |fileData|, offs, w) {
        return;
      }
      if bigEndian {
        StoreBackwards(offs, data, w);
      } else {
        StoreForwards(offs, data, w);
      }
      changesMade := true;
    }

    /** The big-endian store loop: from the last byte of the value to the first. */
    method StoreBackwards(offs: u32, data: bv32, w: Width)
      modifies this`fileData
      requires offs + w.Size() <= |fileData|
      ensures fileData == Overwrite(old(fileData), offs, Decompose(data, w, true))
      ensures fileGood == old(fileGood) && encoding == old(encoding) && changesMade == old(changesMade)
    {
      ghost var bs := Decompose(data, w, true);
      ghost var before := fileData;
      var buf := fileData;
      var rest := data;
      var idx := w.Size();
      while idx > 0
        invariant 0 <= idx <= w.Size()
        invariant rest == ShiftedBytes(data, w.Size() - idx)
        invariant buf == Overwrite(before, offs + idx, bs[idx..])
      {
        idx := idx - 1;
        buf, rest := StoreDown(before, buf, offs, data, w, idx, rest);
      }
      fileData := buf;
    }

    /** The little-endian store loop: from the first byte of the value to the last. */
    method StoreForwards(offs: u32, data: bv32, w: Width)
      modifies this`fileData
      requires offs + w.Size() <= |fileData|
      ensures fileData == Overwrite(old(fileData), offs, Decompose(data, w, false))
      ensures fileGood == old(fileGood) && encoding == old(encoding) && changesMade == old(changesMade)
    {
      ghost var bs := Decompose(data, w, false);
      ghost var before := fileData;
      var buf := fileData;
      var rest := data;
      var idx := 0;
      while idx < w.Size()
        invariant 0 <= idx <= w.Size()
        invariant rest == ShiftedBytes(data, idx)
        invariant buf == Overwrite(before, offs, bs[..idx])
      {
        StoredByte(data, w, idx, false);
        OverwriteUp(before, offs, bs, idx);
        buf := buf[offs + idx := Slice(rest, 0)];
        rest := NextByte(rest);
        idx := idx + 1;
      }
      fileData := buf;
    }
  }

  /** One step of the big-endian store loop: the low byte of `rest` goes to `offs + idx`. */
  method StoreDown(ghost before: seq<byte>, buf: seq<byte>, offs: nat, data: bv32, w: Width, idx: nat, rest: bv32)
    returns (buf': seq<byte>, rest': bv32)
    requires idx < w.Size() && offs + w.Size() <= |before|
    requires rest == ShiftedBytes(data, w.Size() - 1 - idx)
    requires buf == Overwrite(before, offs + idx + 1, Decompose(data, w, true)[idx + 1..])
    ensures rest' == ShiftedBytes(data, w.Size() - idx)
    ensures buf' == Overwrite(before, offs + idx, Decompose(data, w, true)[idx..])
  {
    StoredByte(data, w, idx, true);
    OverwriteDown(before, offs, Decompose(data, w, true), idx);
    buf' := buf[offs + idx := Slice(rest, 0)];
    rest' := NextByte(rest);
  }

  /** One step of the big-endian write loop, which stores the last byte first. */
  lemma OverwriteDown(data: seq<byte>, offs: nat, bs: seq<byte>, idx: nat)
    requires idx < |bs| && offs + |bs| <= |data|
    ensures Overwrite(data, offs + idx + 1, bs[idx + 1..])[offs + idx := bs[idx]]
      == Overwrite(data, offs + idx, bs[idx..])
  {
  }

  /** One step of the little-endian write loop, which stores the first byte first. */
  lemma OverwriteUp(data: seq<byte>, offs: nat, bs: seq<byte>, idx: nat)
    requires idx < |bs| && offs + |bs| <= |data|
    ensures Overwrite(data, offs, bs[..idx])[offs + idx := bs[idx]] == Overwrite(data, offs, bs[..idx + 1])
  {
  }

  /** One more loop step of the read: the gathered prefix grows by one byte. */
  lemma GatherPrefix(bs: seq<byte>, w: Width, n: nat, bigEndian: bool)
    requires n < |bs| && n < w.Size()
    ensures Gather(bs, w, n + 1, bigEndian)
      == Merge(Gather(bs[..n], w, n, bigEndian), Place(bs[n], ShiftOf(w, n, bigEndian)))
  {
    GatherOnPrefix(bs, w, n, n, bigEndian);
  }

  /** Gathering `n` bytes looks at nothing beyond the first `n`. */
  lemma {:induction false} GatherOnPrefix(bs: seq<byte>, w: Width, n: nat, k: nat, bigEndian: bool)
    requires k <= n <= |bs| && k <= w.Size()
    ensures Gather(bs, w, k, bigEndian) == Gather(bs[..n], w, k, bigEndian)
  {
    if k > 0 {
      GatherOnPrefix(bs, w, n, k - 1, bigEndian);
    }
  }

  /** `Data >>= 8`. */
  function NextByte(x: bv32): bv32
  {
    x >> 8
  }

  /** The value left after `k` steps of `Data >>= 8`. */
  function ShiftedBytes(v: bv32, k: nat): bv32
  {
    if k == 0 then v else NextByte(ShiftedBytes(v, k - 1))
  }

  /** After `k` shifts the low byte of the value is byte `k` from the bottom. */
  lemma SliceOfShifted(v: bv32, w: Width, idx: nat, bigEndian: bool)
    requires idx < w.Size()
    ensures bigEndian ==> Slice(ShiftedBytes(v, w.Size() - 1 - idx), 0) == ByteOf(v, w, idx, bigEndian)
    ensures !bigEndian ==> Slice(ShiftedBytes(v, idx), 0) == ByteOf(v, w, idx, bigEndian)
  {
    var k := if bigEndian then w.Size() - 1 - idx else idx;
    assert ShiftedBytes(v, 1) == NextByte(v);
    assert ShiftedBytes(v, 2) == NextByte(NextByte(v));
    assert ShiftedBytes(v, 3) == NextByte(NextByte(NextByte(v)));
    ShiftedSlices(v);
    assert ShiftOf(w, idx, bigEndian) == (if k == 0 then 0 else if k == 1 then 8 else if k == 2 then 16 else 24);
  }

  /** The byte each store step writes is the one the byte order puts there. */
  lemma StoredByte(v: bv32, w: Width, idx: nat, bigEndian: bool)
    requires idx < w.Size()
    ensures bigEndian ==> Slice(ShiftedBytes(v, w.Size() - 1 - idx), 0) == Decompose(v, w, bigEndian)[idx]
    ensures !bigEndian ==> Slice(ShiftedBytes(v, idx), 0) == Decompose(v, w, bigEndian)[idx]
  {
    SliceOfShifted(v, w, idx, bigEndian);
  }

  lemma ShiftedSlices(v: bv32)
    ensures Slice(NextByte(v), 0) == Slice(v, 8)
    ensures Slice(NextByte(NextByte(v)), 0) == Slice(v, 16)
    ensures Slice(NextByte(NextByte(NextByte(v))), 0) == Slice(v, 24)
  {
  }

  // ------------------------------------------------------------ properties

  /** A value read from bytes that lie inside the data is the value they store. */
  lemma ReadInRange(data: seq<byte>, offs: u32, w: Width, bigEndian: bool)
    requires |data| < U32_LIMIT && offs + w.Size() <= |data|
    ensures ReadValue(data, true, offs, w, bigEndian) == Compose(data[offs..offs + w.Size()], w, bigEndian)
  {
  }

  /**
   * A read that does not fit in the data gives 0, unless the data is within
   * three bytes of 4 GiB, where the wrapped guard lets a partial read through.
   */
  lemma ReadOutOfRange(data: seq<byte>, good: bool, offs: u32, w: Width, bigEndian: bool)
    requires |data| <= U32_LIMIT - 4 && offs + w.Size() > |data|
    ensures ReadValue(data, good, offs, w, bigEndian) == 0
  {
  }

  /** A buffer that failed to load reads as 0 everywhere. */
  lemma ReadBadFile(data: seq<byte>, offs: u32, w: Width, bigEndian: bool)
    requires |data| < U32_LIMIT
    ensures ReadValue(data, false, offs, w, bigEndian) == 0
  {
  }

  /** Reading back a value just written yields it, truncated to the type. */
  lemma WriteThenRead(data: seq<byte>, offs: u32, v: bv32, w: Width, bigEndian: bool)
    requires |data| < U32_LIMIT && WriteAllowed(true, |data|, offs, w)
    ensures ReadValue(Overwrite(data, offs, Decompose(v, w, bigEndian)), true, offs, w, bigEndian) == v & w.Mask()
  {
    var after := Overwrite(data, offs, Decompose(v, w, bigEndian));
    ReadInRange(after, offs, w, bigEndian);
    ComposeDecompose(v, w, bigEndian);
  }

  /** Writing back the value just read leaves the data as it was. */
  lemma ReadThenWrite(data: seq<byte>, offs: u32, w: Width, bigEndian: bool)
    requires |data| < U32_LIMIT && WriteAllowed(true, |data|, offs, w)
    ensures Overwrite(data, offs, Decompose(ReadValue(data, true, offs, w, bigEndian), w, bigEndian)) == data
  {
    ReadInRange(data, offs, w, bigEndian);
    DecomposeCompose(data[offs..offs + w.Size()], w, bigEndian);
  }

  /**
   * The guard as written lets a two-byte write at offset 0xFFFFFFFF through
   * on a one-byte buffer, although the bytes it addresses lie past the end.
   */
  lemma WriteGuardWrapsAround()
    ensures !RejectedAsWritten(true, 1, 0xFFFF_FFFF, U16)
    ensures !WriteAllowed(true, 1, 0xFFFF_FFFF, U16)
  {
  }

  /** Where the sum does not wrap, the corrected guard and the written one agree. */
  lemma WriteGuardAgrees(good: bool, size: nat, offs: u32, w: Width)
    requires 0 < size < U32_LIMIT && offs + w.Size() <= U32_LIMIT
    ensures WriteAllowed(good, size, offs, w) <==> !RejectedAsWritten(good, size, offs, w)
  {
  }
}
