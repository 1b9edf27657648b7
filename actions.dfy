/**
 * The file-level actions of the 3DS editor: inserting and removing bytes
 * through a temporary file, the backup taken before the first write, saving
 * under a new name, creating a new file and searching for a byte sequence.
 *
 * The SD card is a map from paths to contents; the file the session has
 * open is `current`, as it was when last loaded. Prompts, the keyboard,
 * the free-space query and the system's `aptMainLoop()` are inputs.
 */
module Actions {
  import opened Bytes
  import opened Splice

  /** Bytes moved per read/write in the copy loops. */
  const BUFFER_SIZE: nat := 0x80000

  /** The temporary file a splice is built in. */
  const TEMP_PATH: string := "sdmc:/3ds/Universal-Edit/Hex-Editor/Temp.bin"

  /** The file a new document is created as. */
  const NEW_FILE_PATH: string := "sdmc:/3ds/Universal-Edit/Temp.bin"

  /** Lines and edit-buffer length every reload uses. */
  const RELOAD_LINES: nat := 0xD
  const RELOAD_EDIT_LEN: nat := 0x20000

  /** `a` is a prefix of `b`. */
  predicate IsPrefix(a: seq<byte>, b: seq<byte>)
  {
    |a| <= |b| && b[..|a|] == a
  }

  /**
   * The user's answers during a backup: the configured backup setting (0:
   * always, 1: never, anything else: ask), the answer to "create a backup?",
   * the file name typed on the keyboard, and whether to go on when there is
   * no room for the backup.
   */
  datatype BackupAnswers = BackupAnswers(setting: nat, create: bool, name: string, proceed: bool)

  /** Whether the backup is skipped: never wanted, or declined when asked. */
  predicate Cancelled(ans: BackupAnswers)
  {
    ans.setting == 1 || (ans.setting != 0 && !ans.create)
  }

  /**
   * The free space a gate asks for. `GetSize() * 2 + Size`, `GetSize() * 2
   * - Size` and `GetSize() * 2` are computed in uint32, so the amount asked
   * for is the unbounded one reduced modulo 2^32: a sum past 2^32 asks for
   * little, a difference below 0 for almost 4 GiB.
   */
  function Needed(amount: int): (r: nat)
    ensures r < 0x1_0000_0000 && (amount - r) % 0x1_0000_0000 == 0
    ensures 0 <= amount < 0x1_0000_0000 ==> r == amount
  {
    amount % 0x1_0000_0000
  }

  /**
   * For a 2 GiB file the uint32 amounts wrap: the backup and save gates ask
   * for nothing, a 0x10-byte insertion asks for 0x10 bytes, and a removal
   * of more than twice a small file asks for almost 4 GiB.
   */
  lemma NeededWraps()
    ensures Needed(2 * 0x8000_0000) == 0
    ensures Needed(2 * 0x8000_0000 + 0x10) == 0x10
    ensures Needed(2 * 0x10 - 0x30) == 0xFFFF_FFF0
  {
  }

  /**
   * Whether `Backup` reports success: the first write already happened, the
   * backup is not wanted, there is room for it (twice the file's `size`, in
   * uint32), or the user goes on without it.
   */
  predicate BackupSucceeds(wasWritten: bool, ans: BackupAnswers, freeSpace: nat, size: nat)
  {
    wasWritten || Cancelled(ans) || freeSpace >= Needed(2 * size) || ans.proceed
  }

  /** The backup's path: the directory, a '/' when it does not end in one, then the name. */
  function BackupFile(dir: string, name: string): (p: string)
    requires |dir| > 0
    ensures |p| - |name| >= |dir| && p[..|dir|] == dir && p[|p| - |name| - 1] == '/'
    ensures p[|p| - |name|..] == name
  {
    if dir[|dir| - 1] != '/' then dir + "/" + name else dir + name
  }

  /** The SD card, the open file and the flags the actions consult. */
  class Storage {
    /** The files on the card. */
    var files: map<string, seq<byte>>
    /** The path of the open file. */
    var editFile: string
    /** The open file's contents as last loaded. */
    var current: seq<byte>
    /** Whether the first write (and its backup) has happened. */
    var firstWrite: bool
    /** Whether a file is loaded. */
    var loaded: bool
    /** The configured backup directory. */
    var backupPath: string
    /** How many more times `aptMainLoop()` reports the application as running. */
    var aptRuns: nat

    constructor (files: map<string, seq<byte>>, editFile: string, backupPath: string, aptRuns: nat)
      requires editFile in files
      ensures this.files == files && this.editFile == editFile && current == files[editFile]
      ensures !firstWrite && loaded && this.backupPath == backupPath && this.aptRuns == aptRuns
    {
      this.files := files;
      this.editFile := editFile;
      current := files[editFile];
      firstWrite := false;
      loaded := true;
      this.backupPath := backupPath;
      this.aptRuns := aptRuns;
    }

    /** `aptMainLoop()`: true while the system lets the application run; once false it stays false. */
    method AptMainLoop() returns (running: bool)
      modifies this`aptRuns
      ensures running == (old(aptRuns) > 0)
      ensures aptRuns == if running then old(aptRuns) - 1 else 0
    {
      running := aptRuns > 0;
      if running {
        aptRuns := aptRuns - 1;
      }
    }

    /**
     * A copy loop: `count` bytes of `src` from `from` on are appended to
     * `temp` in chunks of at most `BUFFER_SIZE`, asking `aptMainLoop()`
     * before each chunk and stopping when it says no.
     */
    method CopyChunks(src: seq<byte>, from: nat, count: nat, temp: seq<byte>) returns (out: seq<byte>, chunks: seq<nat>)
      requires from + count <= |src|
      modifies this`aptRuns
      ensures Bounded(chunks, BUFFER_SIZE) && Sum(chunks) <= count
      ensures out == temp + src[from .. from + Sum(chunks)]
      ensures Sum(chunks) < count ==> aptRuns == 0
      ensures old(aptRuns) == 0 ==> chunks == [] && aptRuns == 0
      ensures old(aptRuns) >= Chunks(count, BUFFER_SIZE) ==>
        Sum(chunks) == count && aptRuns == old(aptRuns) - Chunks(count, BUFFER_SIZE)
      ensures old(aptRuns) < Chunks(count, BUFFER_SIZE) ==>
        Sum(chunks) < count && aptRuns == 0 && |chunks| == old(aptRuns)
    {
      var rem: nat := count;
      out, chunks := temp, [];
      while rem > 0
        invariant rem <= count && Sum(chunks) == count - rem
        invariant Bounded(chunks, BUFFER_SIZE)
        invariant out == temp + src[from .. from + (count - rem)]
        invariant |chunks| + Chunks(rem, BUFFER_SIZE) == Chunks(count, BUFFER_SIZE)
        invariant aptRuns + |chunks| == old(aptRuns)
        decreases rem
      {
        var running := AptMainLoop();
        if !running {
          break;
        }
        var n := NextChunk(rem, BUFFER_SIZE);
        CopyAdvance(src, from, count - rem, n, temp, out);
        out := out + src[from + (count - rem) .. from + (count - rem) + n];
        SumAppend(chunks, n);
        BoundedAppend(chunks, n, BUFFER_SIZE);
        chunks := chunks + [n];
        rem := rem - n;
      }
    }

    /** The fill loop: `count` bytes of value `v` appended to `temp` in chunks, asking `aptMainLoop()` before each. */
    method FillChunks(count: nat, v: byte, temp: seq<byte>) returns (out: seq<byte>, chunks: seq<nat>)
      modifies this`aptRuns
      ensures Bounded(chunks, BUFFER_SIZE) && Sum(chunks) <= count
      ensures out == temp + Fill(Sum(chunks), v)
      ensures Sum(chunks) < count ==> aptRuns == 0
      ensures old(aptRuns) == 0 ==> chunks == [] && aptRuns == 0
      ensures old(aptRuns) >= Chunks(count, BUFFER_SIZE) ==>
        Sum(chunks) == count && aptRuns == old(aptRuns) - Chunks(count, BUFFER_SIZE)
      ensures old(aptRuns) < Chunks(count, BUFFER_SIZE) ==>
        Sum(chunks) < count && aptRuns == 0 && |chunks| == old(aptRuns)
    {
      var rem: nat := count;
      out, chunks := temp, [];
      while rem > 0
        invariant rem <= count && Sum(chunks) == count - rem
        invariant Bounded(chunks, BUFFER_SIZE)
        invariant out == temp + Fill(count - rem, v)
        invariant |chunks| + Chunks(rem, BUFFER_SIZE) == Chunks(count, BUFFER_SIZE)
        invariant aptRuns + |chunks| == old(aptRuns)
        decreases rem
      {
        var running := AptMainLoop();
        if !running {
          break;
        }
        var n := NextChunk(rem, BUFFER_SIZE);
        FillMore(count - rem, n, v);
        out := out + Fill(n, v);
        SumAppend(chunks, n);
        BoundedAppend(chunks, n, BUFFER_SIZE);
        chunks := chunks + [n];
        rem := rem - n;
      }
    }

    /**
     * The last step of a splice: the open file is deleted, the temporary
     * file takes its name, and the file is loaded again from there.
     */
    method Replace(temp: seq<byte>)
      requires editFile != TEMP_PATH
      modifies this`files, this`current
      ensures files == (old(files) - {TEMP_PATH})[editFile := temp]
      ensures current == temp
    {
      files := (files - {TEMP_PATH})[editFile := temp];
      current := files[editFile];
    }

    /**
     * The backup before the first write. Afterwards the first write counts
     * as done; it reports failure only when there is no room for a wanted
     * backup and the user does not want to go on without one.
     */
    method Backup(ans: BackupAnswers, freeSpace: nat) returns (ok: bool)
      requires |backupPath| > 0
      modifies this`firstWrite, this`files, this`aptRuns
      ensures firstWrite
      ensures ok <==> BackupSucceeds(old(firstWrite), ans, freeSpace, |current|)
      ensures Wrote(old(firstWrite), ans, freeSpace) ==>
        var p := BackupFile(backupPath, ans.name);
        && p in files && files == old(files)[p := files[p]]
        && IsPrefix(files[p], current)
        && (old(aptRuns) >= Chunks(|current|, BUFFER_SIZE) ==> files[p] == current)
      ensures !Wrote(old(firstWrite), ans, freeSpace) ==> files == old(files)
    {
      ok := true;
      if !firstWrite {
        if Cancelled(ans) {
          firstWrite := true;
          return;
        }
        if freeSpace >= Needed(2 * |current|) {
          var path := BackupFile(backupPath, ans.name);
          if ans.name != "" {
            var copy, _ := CopyChunks(current, 0, |current|, []);
            files := files[path := copy];
          }
        } else {
          firstWrite := true;
          if !ans.proceed {
            ok := false;
            return;
          }
        }
        firstWrite := true;
      }
    }

    /** Whether `Backup` writes a backup file. */
    predicate Wrote(wasWritten: bool, ans: BackupAnswers, freeSpace: nat)
      reads this`current
    {
      !wasWritten && !Cancelled(ans) && freeSpace >= Needed(2 * |current|) && ans.name != ""
    }

    /**
     * Insert: after the backup, when there is room for twice the file plus
     * the insertion and the user confirms, the file becomes the splice. The
     * loops stop early when the application is told to close; the partial
     * temporary file still replaces the file, so the result is then a proper
     * prefix of the splice.
     */
    method Insert(offs: nat, size: nat, v: byte, ans: BackupAnswers, freeSpace: nat, confirm: bool)
      requires offs <= |current| && |backupPath| > 0 && editFile != TEMP_PATH
      modifies this`firstWrite, this`files, this`aptRuns, this`current
      ensures firstWrite
      ensures !(freeSpace >= Needed(2 * |old(current)| + size) && confirm) ==> current == old(current)
      ensures freeSpace >= Needed(2 * |old(current)| + size) && confirm ==>
        && editFile in files && files[editFile] == current && TEMP_PATH !in files
        && IsPrefix(current, Inserted(old(current), offs, size, v))
        && (|current| == |old(current)| + size ==> current == Inserted(old(current), offs, size, v))
    {
      var _ := Backup(ans, freeSpace);
      InsertAfterBackup(offs, size, v, freeSpace, confirm);
    }

    /** `Insert` past its backup: the free-space and prompt gates, the three loops and the replacement. */
    method InsertAfterBackup(offs: nat, size: nat, v: byte, freeSpace: nat, confirm: bool)
      requires offs <= |current| && editFile != TEMP_PATH
      modifies this`files, this`aptRuns, this`current
      ensures !(freeSpace >= Needed(2 * |old(current)| + size) && confirm) ==>
        files == old(files) && current == old(current) && aptRuns == old(aptRuns)
      ensures freeSpace >= Needed(2 * |old(current)| + size) && confirm ==>
        && files == (old(files) - {TEMP_PATH})[editFile := current]
        && IsPrefix(current, Inserted(old(current), offs, size, v))
        && (|current| == |old(current)| + size ==> current == Inserted(old(current), offs, size, v))
        && (old(aptRuns) >= Chunks(offs, BUFFER_SIZE) + Chunks(size, BUFFER_SIZE) + Chunks(|old(current)| - offs, BUFFER_SIZE) ==>
              current == Inserted(old(current), offs, size, v))
    {
      if freeSpace >= Needed(2 * |current| + size) && confirm {
        var t := BuildInserted(current, offs, size, v);
        Replace(t);
      }
    }

    /**
     * The three loops of `Insert`: the bytes before the offset, the fill,
     * then the rest of the file, each copied only when the one before it
     * finished.
     */
    method BuildInserted(f: seq<byte>, offs: nat, size: nat, v: byte) returns (t: seq<byte>)
      requires offs <= |f|
      modifies this`aptRuns
      ensures IsPrefix(t, Inserted(f, offs, size, v))
      ensures |t| == |f| + size ==> t == Inserted(f, offs, size, v)
      ensures old(aptRuns) >= Chunks(offs, BUFFER_SIZE) + Chunks(size, BUFFER_SIZE) + Chunks(|f| - offs, BUFFER_SIZE) ==>
        t == Inserted(f, offs, size, v)
    {
      var t1, k1 := CopyChunks(f, 0, offs, []);
      assert t1 == f[..Sum(k1)];
      var t2, k2 := FillChunks(size, v, t1);
      var k3;
      t, k3 := CopyChunks(f, offs, |f| - offs, t2);
      InsertPrefix(f, offs, size, v, Sum(k1), Sum(k2), Sum(k3));
    }

    /**
     * Remove: after the backup, when there is room for twice the file less
     * the removed bytes and the user confirms, the file becomes the splice;
     * an interrupted run leaves a proper prefix of it.
     */
    method Remove(offs: nat, size: nat, ans: BackupAnswers, freeSpace: nat, confirm: bool)
      requires offs + size <= |current| && |backupPath| > 0 && editFile != TEMP_PATH
      modifies this`firstWrite, this`files, this`aptRuns, this`current
      ensures firstWrite
      ensures !(freeSpace >= Needed(2 * |old(current)| - size) && confirm) ==> current == old(current)
      ensures freeSpace >= Needed(2 * |old(current)| - size) && confirm ==>
        && editFile in files && files[editFile] == current && TEMP_PATH !in files
        && IsPrefix(current, Removed(old(current), offs, size))
        && (|current| == |old(current)| - size ==> current == Removed(old(current), offs, size))
    {
      var _ := Backup(ans, freeSpace);
      RemoveAfterBackup(offs, size, freeSpace, confirm);
    }

    /** `Remove` past its backup: the gates, the two loops and the replacement. */
    method RemoveAfterBackup(offs: nat, size: nat, freeSpace: nat, confirm: bool)
      requires offs + size <= |current| && editFile != TEMP_PATH
      modifies this`files, this`aptRuns, this`current
      ensures !(freeSpace >= Needed(2 * |old(current)| - size) && confirm) ==>
        files == old(files) && current == old(current) && aptRuns == old(aptRuns)
      ensures freeSpace >= Needed(2 * |old(current)| - size) && confirm ==>
        && files == (old(files) - {TEMP_PATH})[editFile := current]
        && IsPrefix(current, Removed(old(current), offs, size))
        && (|current| == |old(current)| - size ==> current == Removed(old(current), offs, size))
        && (old(aptRuns) >= Chunks(offs, BUFFER_SIZE) + Chunks(|old(current)| - (offs + size), BUFFER_SIZE) ==>
              current == Removed(old(current), offs, size))
    {
      if freeSpace >= Needed(2 * |current| - size) && confirm {
        var t := BuildRemoved(current, offs, size);
        Replace(t);
      }
    }

    /** The two loops of `Remove`: the bytes before the offset, then those past the removed ones. */
    method BuildRemoved(f: seq<byte>, offs: nat, size: nat) returns (t: seq<byte>)
      requires offs + size <= |f|
      modifies this`aptRuns
      ensures IsPrefix(t, Removed(f, offs, size))
      ensures |t| == |f| - size ==> t == Removed(f, offs, size)
      ensures old(aptRuns) >= Chunks(offs, BUFFER_SIZE) + Chunks(|f| - (offs + size), BUFFER_SIZE) ==>
        t == Removed(f, offs, size)
    {
      var t1, k1 := CopyChunks(f, 0, offs, []);
      var k2;
      t, k2 := CopyChunks(f, offs + size, |f| - (offs + size), t1);
      assert t == f[..Sum(k1)] + f[offs + size .. offs + size + Sum(k2)];
      RemovePrefix(f, offs, size, Sum(k1), Sum(k2));
    }

    /**
     * Save as: with a file loaded, a directory and a name chosen and room
     * for twice the file, the file is copied to the new path and that copy
     * is loaded.
     */
    method SaveFileAs(dest: string, name: string, freeSpace: nat) returns (ok: bool)
      modifies this`files, this`aptRuns, this`current, this`editFile
      ensures ok <==> loaded && dest != "" && name != "" && freeSpace >= Needed(2 * |old(current)|)
      ensures !ok ==> files == old(files) && current == old(current) && editFile == old(editFile)
      ensures ok ==>
        && editFile == dest + name && files == old(files)[editFile := current]
        && IsPrefix(current, old(current))
        && (old(aptRuns) >= Chunks(|old(current)|, BUFFER_SIZE) ==> current == old(current))
    {
      ok := false;
      if loaded && dest != "" && name != "" && freeSpace >= Needed(2 * |current|) {
        var path := dest + name;
        var copy, _ := CopyChunks(current, 0, |current|, []);
        files := files[path := copy];
        editFile := path;
        current := files[path];
        ok := true;
      }
    }

    /**
     * New file: with at least one free byte and the file created, a file
     * holding the single byte 0x00 is written and loaded.
     */
    method NewFile(freeSpace: nat, created: bool) returns (ok: bool)
      modifies this`files, this`current, this`editFile
      ensures ok <==> freeSpace >= 1 && created
      ensures ok ==> editFile == NEW_FILE_PATH && files == old(files)[NEW_FILE_PATH := [0x00]] && current == [0x00]
      ensures !ok ==> files == old(files) && current == old(current) && editFile == old(editFile)
    {
      ok := false;
      if freeSpace >= 1 && created {
        files := files[NEW_FILE_PATH := [0x00]];
        editFile := NEW_FILE_PATH;
        current := files[editFile];
        ok := true;
      }
    }
  }

  /** One more chunk of the fill. */
  lemma FillMore(k: nat, n: nat, v: byte)
    ensures Fill(k, v) + Fill(n, v) == Fill(k + n, v)
  {
    assert forall i :: 0 <= i < k + n ==> (Fill(k, v) + Fill(n, v))[i] == v;
  }

  /**
   * The three stages of `Insert` build a prefix of the splice: `a` bytes
   * copied from the front, `b` fill bytes and `c` bytes copied from the back,
   * each stage moving bytes only when the one before it finished.
   */
  lemma InsertPrefix(f: seq<byte>, offs: nat, size: nat, v: byte, a: nat, b: nat, c: nat)
    requires offs <= |f| && a <= offs && b <= size && c <= |f| - offs
    requires a < offs ==> b == 0 && c == 0
    requires b < size ==> c == 0
    ensures IsPrefix(f[..a] + Fill(b, v) + f[offs .. offs + c], Inserted(f, offs, size, v))
    ensures a + b + c == |f| + size ==> f[..a] + Fill(b, v) + f[offs .. offs + c] == Inserted(f, offs, size, v)
  {
    var t := f[..a] + Fill(b, v) + f[offs .. offs + c];
    var g := Inserted(f, offs, size, v);
    if a < offs {
      assert t == f[..a] && g[..a] == f[..a];
    } else if b < size {
      assert t == f[..offs] + Fill(b, v);
      assert g[..offs + b] == f[..offs] + Fill(size, v)[..b];
      assert Fill(size, v)[..b] == Fill(b, v);
    } else {
      var h := f[..offs] + Fill(size, v);
      PrefixOfAppend(h, f[offs..], c);
      assert f[offs..][..c] == f[offs .. offs + c];
    }
  }

  /** The first `|h| + c` bytes of `h + r` are `h` followed by the first `c` bytes of `r`. */
  lemma PrefixOfAppend(h: seq<byte>, r: seq<byte>, c: nat)
    requires c <= |r|
    ensures (h + r)[..|h| + c] == h + r[..c]
  {
  }

  /**
   * The two stages of `Remove` build a prefix of the splice: `a` bytes
   * copied from the front and `c` bytes from past the gap, the second only
   * when the first finished.
   */
  lemma RemovePrefix(f: seq<byte>, offs: nat, size: nat, a: nat, c: nat)
    requires offs + size <= |f| && a <= offs && c <= |f| - (offs + size)
    requires a < offs ==> c == 0
    ensures IsPrefix(f[..a] + f[offs + size .. offs + size + c], Removed(f, offs, size))
    ensures a + c == |f| - size ==> f[..a] + f[offs + size .. offs + size + c] == Removed(f, offs, size)
  {
    var t := f[..a] + f[offs + size .. offs + size + c];
    var g := Removed(f, offs, size);
    if a < offs {
      assert t == f[..a] && g[..a] == f[..a];
    } else {
      assert g[..offs + c] == t;
    }
  }

  // ------------------------------------------------------------------- search

  /**
   * Whether the sequence is reported at index `idx`: it fits in the current
   * mode's data and every byte matches. `view[j]` is the byte the current
   * mode reads at the start offset plus `j`.
   */
  predicate MatchesAt(view: seq<byte>, modeSize: nat, pattern: seq<byte>, idx: nat)
    requires modeSize <= |view|
  {
    idx + |pattern| <= modeSize && view[idx .. idx + |pattern|] == pattern
  }

  /** The offsets reported for the indices below `n`, in order. */
  function Found(start: nat, pattern: seq<byte>, view: seq<byte>, modeSize: nat, n: nat): seq<nat>
    requires modeSize <= |view|
  {
    if n == 0 then []
    else Found(start, pattern, view, modeSize, n - 1) + (if MatchesAt(view, modeSize, pattern, n - 1) then [start + n - 1] else [])
  }

  /** The number of indices a search visits: the size, the mode's size, or the index where B cancelled it. */
  function Visited(size: nat, modeSize: nat, cancelAt: nat): (n: nat)
    ensures n <= size && n <= modeSize && n <= cancelAt
    ensures n == size || n == modeSize || n == cancelAt
  {
    if size <= modeSize && size <= cancelAt then size else if modeSize <= cancelAt then modeSize else cancelAt
  }

  /**
   * The search: every index below the size and the mode's size is tried in
   * order, until B is seen pressed at index `cancelAt`; an index is
   * reported when the sequence matches there.
   */
  method Search(start: nat, size: nat, pattern: seq<byte>, view: seq<byte>, modeSize: nat, cancelAt: nat) returns (res: seq<nat>)
    requires modeSize <= |view|
    ensures res == Found(start, pattern, view, modeSize, Visited(size, modeSize, cancelAt))
  {
    res := [];
    var idx := 0;
    while idx < size && idx < modeSize
      invariant idx <= size && idx <= modeSize && idx <= cancelAt
      invariant res == Found(start, pattern, view, modeSize, idx)
      decreases size - idx
    {
      if idx == cancelAt {
        break;
      }
      var matched := true;
      var idx2 := 0;
      while idx2 < |pattern|
        invariant idx2 <= |pattern|
        invariant matched == (idx + idx2 <= modeSize && view[idx .. idx + idx2] == pattern[..idx2])
        decreases |pattern| - idx2
      {
        if idx + idx2 < modeSize {
          if view[idx + idx2] != pattern[idx2] {
            matched := false;
            break;
          }
        } else {
          matched := false;
          break;
        }
        assert view[idx .. idx + idx2 + 1] == view[idx .. idx + idx2] + [view[idx + idx2]];
        assert pattern[..idx2 + 1] == pattern[..idx2] + [pattern[idx2]];
        idx2 := idx2 + 1;
      }
      MatchLoopResult(view, modeSize, pattern, idx, idx2, matched);
      if matched {
        res := res + [start + idx];
      }
      idx := idx + 1;
    }
  }

  /**
   * The inner loop as written, on the data the current mode reads (the file,
   * or the edit window) with the start offset at `base` in it: the guard
   * compares `idx + idx2` with the mode's size but the byte read is at
   * `base + idx + idx2`. `None` when the loop reads past the end of the data.
   */
  function ScanAsWritten(data: seq<byte>, base: nat, modeSize: nat, pattern: seq<byte>, idx: nat, idx2: nat): (r: Option<bool>)
    requires idx2 <= |pattern|
    ensures base == 0 && modeSize <= |data| ==> r.Some?
    decreases |pattern| - idx2
  {
    if idx2 == |pattern| then Some(true)
    else if idx + idx2 < modeSize then
      if base + idx + idx2 >= |data| then None
      else if data[base + idx + idx2] != pattern[idx2] then Some(false)
      else ScanAsWritten(data, base, modeSize, pattern, idx, idx2 + 1)
    else Some(false)
  }

  /**
   * Where the data reaches `modeSize` bytes past the start offset, the loop
   * as written stays inside it and decides exactly `MatchesAt` on the data
   * from the start offset on.
   */
  lemma {:induction false} ScanAsWrittenAgrees(data: seq<byte>, base: nat, modeSize: nat, pattern: seq<byte>, idx: nat, idx2: nat)
    requires base + modeSize <= |data| && idx2 <= |pattern|
    requires idx + idx2 <= modeSize && data[base + idx .. base + idx + idx2] == pattern[..idx2]
    ensures ScanAsWritten(data, base, modeSize, pattern, idx, idx2) == Some(MatchesAt(data[base..], modeSize, pattern, idx))
    decreases |pattern| - idx2
  {
    var view := data[base..];
    if idx2 == |pattern| {
      assert view[idx .. idx + |pattern|] == data[base + idx .. base + idx + idx2];
    } else if idx + idx2 < modeSize {
      if data[base + idx + idx2] != pattern[idx2] {
        if idx + |pattern| <= modeSize {
          assert view[idx .. idx + |pattern|][idx2] == data[base + idx + idx2];
        }
      } else {
        assert data[base + idx .. base + idx + idx2 + 1] == data[base + idx .. base + idx + idx2] + [data[base + idx + idx2]];
        assert pattern[..idx2 + 1] == pattern[..idx2] + [pattern[idx2]];
        ScanAsWrittenAgrees(data, base, modeSize, pattern, idx, idx2 + 1);
      }
    }
  }

  /**
   * A 16-byte file searched from offset 8 for two bytes: at index 7 the guard
   * `7 + 1 < 16` lets the loop read offset 16, one past the end of the file.
   */
  lemma SearchReadsPastEnd(data: seq<byte>)
    requires |data| == 0x10 && data[0xF] == 0xAA
    ensures ScanAsWritten(data, 8, 0x10, [0xAA, 0xBB], 7, 0) == None
  {
    assert ScanAsWritten(data, 8, 0x10, [0xAA, 0xBB], 7, 1) == None;
  }

  /** What the inner loop's flag means once the loop is left. */
  lemma MatchLoopResult(view: seq<byte>, modeSize: nat, pattern: seq<byte>, idx: nat, idx2: nat, matched: bool)
    requires modeSize <= |view| && idx < modeSize && idx2 <= |pattern|
    requires matched ==> idx2 == |pattern| && idx + idx2 <= modeSize && view[idx .. idx + idx2] == pattern[..idx2]
    requires !matched ==> idx2 < |pattern| && (idx + idx2 >= modeSize || view[idx + idx2] != pattern[idx2])
    ensures matched == MatchesAt(view, modeSize, pattern, idx)
  {
    if !matched && idx + |pattern| <= modeSize {
      assert view[idx .. idx + |pattern|][idx2] == view[idx + idx2];
    }
  }

  /** Every offset lies in `lo..hi-1` and each is below the next. */
  predicate IncreasingWithin(r: seq<nat>, lo: nat, hi: nat)
  {
    && (forall i :: 0 <= i < |r| ==> lo <= r[i] < hi)
    && (forall i, j :: 0 <= i < j < |r| ==> r[i] < r[j])
  }

  /** The reported offsets are strictly increasing and lie at `start` plus a visited index. */
  lemma {:induction false} FoundIncreasing(start: nat, pattern: seq<byte>, view: seq<byte>, modeSize: nat, n: nat)
    requires modeSize <= |view|
    ensures IncreasingWithin(Found(start, pattern, view, modeSize, n), start, start + n)
  {
    if n > 0 {
      FoundIncreasing(start, pattern, view, modeSize, n - 1);
      var r, r' := Found(start, pattern, view, modeSize, n), Found(start, pattern, view, modeSize, n - 1);
      if MatchesAt(view, modeSize, pattern, n - 1) {
        assert r == r' + [start + n - 1];
        AppendLarger(r', start, start + n - 1);
      } else {
        assert r == r';
      }
    }
  }

  /** Appending an offset above all the others keeps the sequence increasing. */
  lemma AppendLarger(r: seq<nat>, lo: nat, x: nat)
    requires IncreasingWithin(r, lo, x) && lo <= x
    ensures IncreasingWithin(r + [x], lo, x + 1)
  {
    var t := r + [x];
    forall i, j | 0 <= i < j < |t|
      ensures t[i] < t[j]
    {
      if j < |r| {
        assert t[i] == r[i] && t[j] == r[j];
      }
    }
  }

  /** An offset is reported exactly when the sequence matches at its index. */
  lemma {:induction false} FoundExactly(start: nat, pattern: seq<byte>, view: seq<byte>, modeSize: nat, n: nat, idx: nat)
    requires modeSize <= |view| && idx < n
    ensures start + idx in Found(start, pattern, view, modeSize, n) <==> MatchesAt(view, modeSize, pattern, idx)
  {
    var r' := Found(start, pattern, view, modeSize, n - 1);
    FoundIncreasing(start, pattern, view, modeSize, n - 1);
    if idx < n - 1 {
      FoundExactly(start, pattern, view, modeSize, n - 1, idx);
    }
  }

  /** Cancelling early reports a prefix of what the full search reports. */
  lemma {:induction false} FoundPrefix(start: nat, pattern: seq<byte>, view: seq<byte>, modeSize: nat, m: nat, n: nat)
    requires modeSize <= |view| && m <= n
    ensures var a, b := Found(start, pattern, view, modeSize, m), Found(start, pattern, view, modeSize, n);
      |a| <= |b| && b[..|a|] == a
  {
    if m < n {
      FoundPrefix(start, pattern, view, modeSize, m, n - 1);
    }
  }

  /** The empty sequence matches at every visited index inside the mode's data. */
  lemma {:induction false} EmptyPatternEverywhere(start: nat, view: seq<byte>, modeSize: nat, n: nat)
    requires modeSize <= |view| && n <= modeSize
    ensures |Found(start, [], view, modeSize, n)| == n
  {
    if n > 0 {
      EmptyPatternEverywhere(start, view, modeSize, n - 1);
      assert MatchesAt(view, modeSize, [], n - 1);
    }
  }
}
