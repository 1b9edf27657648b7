/**
 * The "Remove / Insert" screen of the navigator: with the offset, size and
 * fill value it holds, it splices the open file through the temporary file
 * in chunks of 0x50000 bytes, with no backup, no free-space check and no
 * early exit.
 */
module ReminsertScreen {
  import opened Bytes
  import opened Splice
  import opened Actions

  /** Bytes moved per read/write on this screen. */
  const CHUNK_SIZE: nat := 0x50000

  /**
   * A chunked copy with no early exit: `count` bytes of `src` from `from`
   * on are appended to `temp`, each chunk at most `CHUNK_SIZE` bytes.
   */
  method CopyAll(src: seq<byte>, from: nat, count: nat, temp: seq<byte>) returns (out: seq<byte>, chunks: seq<nat>)
    requires from + count <= |src|
    ensures out == temp + src[from .. from + count]
    ensures Bounded(chunks, CHUNK_SIZE) && Sum(chunks) == count && |chunks| == Chunks(count, CHUNK_SIZE)
  {
    var rem: nat := count;
    out, chunks := temp, [];
    while rem > 0
      invariant rem <= count && Sum(chunks) == count - rem
      invariant Bounded(chunks, CHUNK_SIZE)
      invariant out == temp + src[from .. from + (count - rem)]
      invariant |chunks| + Chunks(rem, CHUNK_SIZE) == Chunks(count, CHUNK_SIZE)
      decreases rem
    {
      var n := NextChunk(rem, CHUNK_SIZE);
      CopyAdvance(src, from, count - rem, n, temp, out);
      out := out + src[from + (count - rem) .. from + (count - rem) + n];
      SumAppend(chunks, n);
      BoundedAppend(chunks, n, CHUNK_SIZE);
      chunks := chunks + [n];
      rem := rem - n;
    }
  }

  /** A chunked fill with no early exit: `count` bytes of value `v` are appended to `temp`. */
  method FillAll(count: nat, v: byte, temp: seq<byte>) returns (out: seq<byte>, chunks: seq<nat>)
    ensures out == temp + Fill(count, v)
    ensures Bounded(chunks, CHUNK_SIZE) && Sum(chunks) == count && |chunks| == Chunks(count, CHUNK_SIZE)
  {
    var rem: nat := count;
    out, chunks := temp, [];
    while rem > 0
      invariant rem <= count && Sum(chunks) == count - rem
      invariant Bounded(chunks, CHUNK_SIZE)
      invariant out == temp + Fill(count - rem, v)
      invariant |chunks| + Chunks(rem, CHUNK_SIZE) == Chunks(count, CHUNK_SIZE)
      decreases rem
    {
      var n := NextChunk(rem, CHUNK_SIZE);
      FillMore(count - rem, n, v);
      out := out + Fill(n, v);
      SumAppend(chunks, n);
      BoundedAppend(chunks, n, CHUNK_SIZE);
      chunks := chunks + [n];
      rem := rem - n;
    }
  }

  /** The guard `Remove` is written with: the end of the range is summed in `uint32_t`. */
  predicate RemoveGuardAsWritten(loaded: bool, fileSize: nat, offset: u32, size: u32)
  {
    loaded && size > 0 && Add32(offset, size) <= fileSize
  }

  /** The guard `Remove` is meant to have: the whole range lies inside the file. */
  predicate RemoveGuard(loaded: bool, fileSize: nat, offset: u32, size: u32)
  {
    loaded && size > 0 && offset + size <= fileSize
  }

  /**
   * What `Remove` as written leaves: the bytes before the offset, then the
   * file from the wrapped end of the range on (the second pass copies the
   * file's size less the wrapped sum, ending at the end of the file). None
   * when the guard rejects.
   */
  function RemovedAsWritten(f: seq<byte>, loaded: bool, offset: u32, size: u32): (r: Option<seq<byte>>)
    requires offset <= |f|
    ensures r.Some? <==> RemoveGuardAsWritten(loaded, |f|, offset, size)
    ensures r.Some? ==> |r.value| == offset + |f| - Add32(offset, size)
  {
    if RemoveGuardAsWritten(loaded, |f|, offset, size) then Some(f[..offset] + f[Add32(offset, size)..]) else None
  }

  /** Where `offset + size` does not wrap, the guard as written is the intended one and so is the result. */
  lemma RemoveAsWrittenAgrees(f: seq<byte>, loaded: bool, offset: u32, size: u32)
    requires offset <= |f| && offset + size < U32_LIMIT
    ensures RemoveGuardAsWritten(loaded, |f|, offset, size) <==> RemoveGuard(loaded, |f|, offset, size)
    ensures RemoveGuard(loaded, |f|, offset, size) ==> RemovedAsWritten(f, loaded, offset, size) == Some(Removed(f, offset, size))
  {
  }

  /**
   * A 0x20-byte file, offset 0x10 and size 0xFFFFFFF8: the sum wraps to 8,
   * the guard lets the request through, and the file grows to 0x28 bytes
   * with bytes 8..0xF written twice.
   */
  lemma RemoveGuardWraps(f: seq<byte>)
    requires |f| == 0x20
    ensures RemoveGuardAsWritten(true, |f|, 0x10, 0xFFFF_FFF8)
    ensures !RemoveGuard(true, |f|, 0x10, 0xFFFF_FFF8)
    ensures var r := RemovedAsWritten(f, true, 0x10, 0xFFFF_FFF8).value;
      |r| == 0x28 > |f| && r[0x10..0x18] == f[0x08..0x10] && r[0x08..0x10] == f[0x08..0x10]
  {
    assert Add32(0x10, 0xFFFF_FFF8) == 8;
  }

  /** The screen's settings and its two actions. */
  class Reminsert {
    /** Where to insert or remove (entered bounded by the file's size). */
    var offset: u32
    /** How many bytes to insert or remove. */
    var size: u32
    /** The value inserted bytes take. */
    var valueToInsert: byte

    constructor (offset: u32, size: u32, valueToInsert: byte)
      ensures this.offset == offset && this.size == size && this.valueToInsert == valueToInsert
    {
      this.offset := offset;
      this.size := size;
      this.valueToInsert := valueToInsert;
    }

    /**
     * Insert: with a file loaded, a non-zero size and the offset inside the
     * file (or at its end), and the user confirming, the open file becomes
     * the splice, `size` bytes longer. Otherwise nothing is written.
     */
    method Insert(st: Storage, confirm: bool)
      requires st.editFile != TEMP_PATH
      modifies st`files, st`current
      ensures var ran := st.loaded && size > 0 && offset <= |old(st.current)| && confirm;
        && (ran ==>
              && st.current == Inserted(old(st.current), offset, size, valueToInsert)
              && |st.current| == |old(st.current)| + size
              && st.files == (old(st.files) - {TEMP_PATH})[st.editFile := st.current])
        && (!ran ==> st.files == old(st.files) && st.current == old(st.current))
    {
      if st.loaded && size > 0 && offset <= |st.current| && confirm {
        var f := st.current;
        var t1, _ := CopyAll(f, 0, offset, []);
        var t2, _ := FillAll(size, valueToInsert, t1);
        var t3, _ := CopyAll(f, offset, |f| - offset, t2);
        assert t3 == f[..offset] + Fill(size, valueToInsert) + f[offset..];
        InsertedBytes(f, offset, size, valueToInsert);
        st.Replace(t3);
      }
    }

    /**
     * Remove, with the corrected guard: with a file loaded, a non-zero size,
     * the whole range inside the file and the user confirming, the open file
     * becomes the splice, `size` bytes shorter. Otherwise nothing is written.
     */
    method Remove(st: Storage, confirm: bool)
      requires st.editFile != TEMP_PATH
      modifies st`files, st`current
      ensures var ran := RemoveGuard(st.loaded, |old(st.current)|, offset, size) && confirm;
        && (ran ==>
              && st.current == Removed(old(st.current), offset, size)
              && |st.current| == |old(st.current)| - size
              && st.files == (old(st.files) - {TEMP_PATH})[st.editFile := st.current])
        && (!ran ==> st.files == old(st.files) && st.current == old(st.current))
    {
      if RemoveGuard(st.loaded, |st.current|, offset, size) && confirm {
        var f := st.current;
        var t1, _ := CopyAll(f, 0, offset, []);
        var t2, _ := CopyAll(f, offset + size, |f| - (offset + size), t1);
        assert t2 == f[..offset] + f[offset + size..];
        RemovedBytes(f, offset, size);
        st.Replace(t2);
      }
    }
  }

  /** Removing what `Insert` inserted gives the file back. */
  lemma InsertThenRemove(f: seq<byte>, offset: u32, size: u32, v: byte)
    requires offset <= |f|
    ensures RemoveGuard(true, |Inserted(f, offset, size, v)|, offset, size) <==> size > 0
    ensures Removed(Inserted(f, offset, size, v), offset, size) == f
  {
    RemoveInserted(f, offset, size, v);
  }
}
