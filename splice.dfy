/**
 * What inserting and removing bytes does to a file, independent of how the
 * bytes are streamed through the temporary file: the splice equations, and
 * the bookkeeping of a copy done in bounded chunks.
 */
module Splice {
  import opened Bytes

  /** `n` copies of `v`. */
  function Fill(n: nat, v: byte): (r: seq<byte>)
    ensures |r| == n
    ensures forall i :: 0 <= i < n ==> r[i] == v
  {
    if n == 0 then [] else Fill(n - 1, v) + [v]
  }

  /** `f` with `n` bytes of value `v` inserted before offset `offs`. */
  function Inserted(f: seq<byte>, offs: nat, n: nat, v: byte): seq<byte>
    requires offs <= |f|
  {
    f[..offs] + Fill(n, v) + f[offs..]
  }

  /** `f` with the `n` bytes from `offs` on taken out. */
  function Removed(f: seq<byte>, offs: nat, n: nat): seq<byte>
    requires offs + n <= |f|
  {
    f[..offs] + f[offs + n..]
  }

  /** The file after an insertion, byte by byte: the old bytes before, the fill, the old bytes shifted. */
  lemma InsertedBytes(f: seq<byte>, offs: nat, n: nat, v: byte)
    requires offs <= |f|
    ensures |Inserted(f, offs, n, v)| == |f| + n
    ensures forall i :: 0 <= i < offs ==> Inserted(f, offs, n, v)[i] == f[i]
    ensures forall i :: offs <= i < offs + n ==> Inserted(f, offs, n, v)[i] == v
    ensures forall i :: offs <= i < |f| ==> Inserted(f, offs, n, v)[i + n] == f[i]
  {
  }

  /** The file after a removal, byte by byte: the old bytes before, then the old bytes past the gap. */
  lemma RemovedBytes(f: seq<byte>, offs: nat, n: nat)
    requires offs + n <= |f|
    ensures |Removed(f, offs, n)| == |f| - n
    ensures forall i :: 0 <= i < offs ==> Removed(f, offs, n)[i] == f[i]
    ensures forall i :: offs <= i < |f| - n ==> Removed(f, offs, n)[i] == f[i + n]
  {
  }

  /** Removing what was just inserted gives the file back. */
  lemma RemoveInserted(f: seq<byte>, offs: nat, n: nat, v: byte)
    requires offs <= |f|
    ensures offs + n <= |Inserted(f, offs, n, v)|
    ensures Removed(Inserted(f, offs, n, v), offs, n) == f
  {
    var g := Inserted(f, offs, n, v);
    assert g[..offs] == f[..offs];
    assert g[offs + n..] == f[offs..];
  }

  /** Inserting the bytes that were removed gives the file back, when they all had one value. */
  lemma InsertRemoved(f: seq<byte>, offs: nat, n: nat, v: byte)
    requires offs + n <= |f|
    requires forall i :: offs <= i < offs + n ==> f[i] == v
    ensures Inserted(Removed(f, offs, n), offs, n, v) == f
  {
    var r := Removed(f, offs, n);
    assert r[..offs] == f[..offs];
    assert r[offs..] == f[offs + n..];
    assert f[offs..offs + n] == Fill(n, v);
    assert f == f[..offs] + f[offs..offs + n] + f[offs + n..];
  }

  // ------------------------------------------------------------ chunked copies

  /** The total of the chunk sizes. */
  function Sum(chunks: seq<nat>): nat
  {
    if chunks == [] then 0 else Sum(chunks[..|chunks| - 1]) + chunks[|chunks| - 1]
  }

  /** Every chunk moves at least one and at most `limit` bytes. */
  predicate Bounded(chunks: seq<nat>, limit: nat)
  {
    forall i :: 0 <= i < |chunks| ==> 0 < chunks[i] <= limit
  }

  /** The number of chunks a copy of `n` bytes takes with chunks of at most `limit` bytes. */
  function Chunks(n: nat, limit: nat): nat
    requires limit > 0
  {
    if n == 0 then 0 else if n <= limit then 1 else 1 + Chunks(n - limit, limit)
  }

  /** One more chunk of `n` bytes. */
  lemma SumAppend(chunks: seq<nat>, n: nat)
    ensures Sum(chunks + [n]) == Sum(chunks) + n
  {
    assert (chunks + [n])[..|chunks|] == chunks;
  }

  /** Appending a chunk that is within the limit keeps every chunk within it. */
  lemma BoundedAppend(chunks: seq<nat>, n: nat, limit: nat)
    requires Bounded(chunks, limit) && 0 < n <= limit
    ensures Bounded(chunks + [n], limit)
  {
  }

  /** The next chunk of a copy with `rem` bytes left: the whole rest, or `limit` bytes. */
  function NextChunk(rem: nat, limit: nat): (n: nat)
    requires 0 < rem && 0 < limit
    ensures 0 < n <= limit && n <= rem
    ensures Chunks(rem, limit) == 1 + Chunks(rem - n, limit)
  {
    if rem > limit then limit else rem
  }

  /** A copy that has appended `k` bytes from `from` on to `temp` and appends `n` more has appended `k + n`. */
  lemma CopyAdvance(src: seq<byte>, from: nat, k: nat, n: nat, temp: seq<byte>, out: seq<byte>)
    requires from + k + n <= |src| && out == temp + src[from .. from + k]
    ensures out + src[from + k .. from + k + n] == temp + src[from .. from + k + n]
  {
    assert src[from .. from + k] + src[from + k .. from + k + n] == src[from .. from + k + n];
  }
}
