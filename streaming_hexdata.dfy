/**
 * The editing session over an open file (`HexData` in
 * common/source/Data/HexData.cpp): a page of the file in the display buffer,
 * a cursor inside that page, an edit window read from the file, pending
 * changes keyed by absolute offset, and the 256-entry character encoding.
 *
 * The file stream is the sequence `file`; `fileSize` is the size measured when
 * the file was loaded (writing changes past the end extends `file` but, as in
 * the source, not `fileSize`).
 */
module StreamingHexData {
  import opened Bytes
  import opened ByteCast
  import opened HexFormat
  import opened Layout

  /** The three states of the editor: moving over the file, moving over the edit window, changing a value. */
  datatype EditMode = Scroll | Edit | Change

  /** A JSON value as the encoding loader distinguishes it: a string or anything else. */
  datatype JsonValue = JString(text: string) | JOther

  /**
   * What reading an encoding file yields: nothing (missing or unreadable), a
   * document the parser discarded, or a parsed document whose `"map"` member
   * is an object (`Some`) or is absent or not an object (`None`).
   */
  datatype EncodingDoc = Unavailable | Discarded | Parsed(map_: Option<map<string, JsonValue>>)

  function Min(a: nat, b: nat): nat
  {
    if a < b then a else b
  }

  /** `n` bytes of `s` from `from`, zero where the stream has ended (a short `fread` into a zero-filled buffer). */
  function Padded(s: seq<byte>, from: nat, n: nat): (r: seq<byte>)
    ensures |r| == n
    ensures forall i :: 0 <= i < n && from + i < |s| ==> r[i] == s[from + i]
    ensures forall i :: 0 <= i < n && from + i >= |s| ==> r[i] == 0
  {
    seq(n, i requires 0 <= i < n => if from + i < |s| then s[from + i] else 0)
  }

  /** `n` zero bytes: what a seek past the end of a file leaves before the byte written there. */
  function Zeros(n: nat): (r: seq<byte>)
    ensures |r| == n && forall i :: 0 <= i < n ==> r[i] == 0
  {
    seq(n, _ => 0)
  }

  /** The file after seeking to `k` and writing the byte `v`. */
  function WriteOne(f: seq<byte>, k: nat, v: byte): (r: seq<byte>)
    ensures |r| == if k < |f| then |f| else k + 1
    ensures r[k] == v
    ensures forall i :: 0 <= i < |r| && i != k ==> r[i] == if i < |f| then f[i] else 0
  {
    if k < |f| then f[k := v] else f + Zeros(k - |f|) + [v]
  }

  /**
   * `after` is `before` with every change of `ch` written at its offset: each
   * change is present, every other byte is the old one or, past the old end,
   * zero, and the file grew only as far as the furthest change.
   */
  ghost predicate IsCommitted(before: seq<byte>, ch: map<nat, byte>, after: seq<byte>)
  {
    && |after| >= |before|
    && (forall k :: k in ch ==> k < |after|)
    && (|after| > |before| ==> |after| - 1 in ch)
    && (forall i :: 0 <= i < |after| ==> after[i] == if i in ch then ch[i] else if i < |before| then before[i] else 0)
  }

  /** The changes of `ch` whose offsets are not in `todo`. */
  function Without(ch: map<nat, byte>, todo: set<nat>): (r: map<nat, byte>)
    ensures forall k :: k in r <==> k in ch && k !in todo
    ensures forall k :: k in r ==> r[k] == ch[k]
  {
    map k | k in ch && k !in todo :: ch[k]
  }

  /** A non-empty set of offsets has a smallest one: the next entry an ordered map visits. */
  lemma {:induction false} HasSmallest(s: set<nat>)
    requires s != {}
    ensures exists k :: k in s && forall j :: j in s ==> k <= j
  {
    var x :| x in s;
    var rest := s - {x};
    if y :| y in rest {
      HasSmallest(rest);
      var m :| m in rest && forall j :: j in rest ==> m <= j;
      SmallestWith(s, x, m);
    } else {
      assert rest == {};
      SmallestWith(s, x, x);
    }
  }

  /** The smaller of `x` and the smallest `m` of the rest of `s` is the smallest of `s`. */
  lemma SmallestWith(s: set<nat>, x: nat, m: nat)
    requires x in s && m in s
    requires forall j :: j in s - {x} ==> m <= j
    ensures var k := if m < x then m else x; k in s && forall j :: j in s ==> k <= j
  {
    forall j | j in s && j != x
      ensures m <= j
    {
      assert j in s - {x};
    }
  }

  /** The string a document maps `key` to, "." when the key is absent or not mapped to a string. */
  function Lookup(obj: map<string, JsonValue>, key: string): string
  {
    if key in obj && obj[key].JString? then obj[key].text else "."
  }

  /** The entry the encoding loader stores for byte number `idx`. */
  function EncodingEntry(obj: map<string, JsonValue>, idx: nat): string
    requires idx < 256
  {
    Lookup(obj, ByteKey(idx))
  }

  /** The encoding table after loading `doc` over `old`. */
  ghost predicate EncodingLoaded(before: seq<string>, doc: EncodingDoc, after: seq<string>)
    requires |before| == 256
  {
    |after| == 256 &&
    match doc
    case Unavailable => after == before
    case Discarded => after == before
    case Parsed(None) => forall i :: 0 <= i < 256 ==> after[i] == "."
    case Parsed(Some(obj)) => forall i :: 0 <= i < 256 ==> after[i] == EncodingEntry(obj, i)
  }

  /**
   * The display copy of the edit branch of `UpdateDisplay` as written: it
   * copies `GetEditSize()` bytes when the window is shorter than a page and a
   * full page otherwise, both from `start` = `OffsIdx * 0x10 - EditStartOffs`,
   * with no check against the buffer. `None` where that copy leaves the buffer.
   */
  function EditCopyAsWritten(ed: seq<byte>, start: nat, bytesPerList: nat): (r: Option<seq<byte>>)
    ensures r.Some? ==> start + |r.value| <= |ed|
  {
    var n := if |ed| < bytesPerList then |ed| else bytesPerList;
    if start + n <= |ed| then Some(ed[start .. start + n]) else None
  }

  /**
   * The edit-mode page with the copy bounded by the buffer: up to a page of
   * the edit window from `start`.
   */
  function EditCopy(ed: seq<byte>, start: nat, bytesPerList: nat): (r: seq<byte>)
    requires start <= |ed|
    ensures |r| == Min(bytesPerList, |ed| - start)
  {
    ed[start .. start + Min(bytesPerList, |ed| - start)]
  }

  /** Wherever the copy as written stays inside the buffer, it is the bounded copy. */
  lemma EditCopyAgrees(ed: seq<byte>, start: nat, bytesPerList: nat)
    requires EditCopyAsWritten(ed, start, bytesPerList).Some?
    ensures start <= |ed| && EditCopyAsWritten(ed, start, bytesPerList).value == EditCopy(ed, start, bytesPerList)
  {
  }

  /**
   * `disp`, a page starting `o` bytes into the edit window `ed`, shows the
   * window: it reaches at least to the end of the page or of the window,
   * whichever comes first, and up to there its bytes are the window's.
   */
  ghost predicate Shows(disp: seq<byte>, ed: seq<byte>, o: nat, bytesPerList: nat)
  {
    && o <= |ed|
    && var n := Min(bytesPerList, |ed| - o);
       |disp| >= n && disp[..n] == ed[o .. o + n]
  }

  /** The bounded copy of the window from the page's first byte shows the window. */
  lemma CopyShows(disp: seq<byte>, ed: seq<byte>, o: nat, bytesPerList: nat)
    requires o <= |ed| && disp == EditCopy(ed, o, bytesPerList)
    ensures Shows(disp, ed, o, bytesPerList)
  {
  }

  /** Writing the same byte at the cursor into the page and into the window keeps the page showing the window. */
  lemma StoreShows(disp: seq<byte>, ed: seq<byte>, o: nat, bytesPerList: nat, c: nat, k: nat, v: byte)
    requires Shows(disp, ed, o, bytesPerList)
    requires c < bytesPerList && k == o + c < |ed|
    ensures c < |disp|
    ensures Shows(disp[c := v], ed[k := v], o, bytesPerList)
  {
    var n := Min(bytesPerList, |ed| - o);
    assert disp[c := v][..n] == disp[..n][c := v];
    assert ed[k := v][o .. o + n] == ed[o .. o + n][c := v];
  }

  /** A row boundary below row `row` is at most the row above it. */
  lemma RowAbove(start: nat, row: nat)
    requires start % 0x10 == 0 && start < row * 0x10
    ensures row >= 1 && start <= (row - 1) * 0x10
  {
  }

  /** The last column of the row above `row` is the byte before `row`'s first. */
  lemma PreviousRowEnd(row: nat)
    requires row >= 1
    ensures (row - 1) * 0x10 + 0xF + 1 == row * 0x10
  {
  }

  class HexData {
    /** The contents of the open file stream. */
    var file: seq<byte>
    /** `FileSize`: the size measured by `Load`. */
    var fileSize: nat
    var fileGood: bool
    var maxLines: nat
    var bytesPerList: nat
    var editLen: nat
    var cursorPos: nat
    var offsIdx: nat
    var mode: EditMode
    var editStartOffs: nat
    var editData: seq<byte>
    var displayData: seq<byte>
    /** Pending changes: absolute offset to new byte value. */
    var changes: map<nat, byte>
    var encoding: seq<string>

    /** A session with no file loaded, in scroll mode. */
    constructor ()
      ensures mode == Scroll && editData == [] && changes == map[] && fileSize == 0 && !fileGood
      ensures |encoding| == 256
    {
      file, fileSize, fileGood := [], 0, false;
      maxLines, bytesPerList, editLen := 0, 0, 0;
      cursorPos, offsIdx := 0, 0;
      mode, editStartOffs, editData, displayData := Scroll, 0, [], [];
      changes := map[];
      encoding := seq(256, _ => "");
    }

    /** The absolute offset under the cursor. */
    function Abs(): nat
      reads this`offsIdx, this`cursorPos
    {
      offsIdx * 0x10 + cursorPos
    }

    /** The lowest offset the cursor may reach in the current mode. */
    function Lower(): nat
      reads this`mode, this`editStartOffs
    {
      if mode == Scroll then 0 else editStartOffs
    }

    /** One past the highest offset the cursor may reach: the file in scroll mode, the edit window otherwise. */
    function Limit(): nat
      reads this`mode, this`fileSize, this`editStartOffs, this`editData
    {
      if mode == Scroll then fileSize else editStartOffs + |editData|
    }

    /** What `UpdateDisplay` reads from the file in scroll mode. */
    function ScrollPage(): (p: seq<byte>)
      reads this`fileSize, this`file, this`bytesPerList, this`offsIdx
      requires fileSize <= |file|
      ensures |p| == if fileSize < bytesPerList then fileSize else bytesPerList
    {
      if fileSize < bytesPerList then file[..fileSize] else Padded(file, offsIdx * 0x10, bytesPerList)
    }

    /** The page of the edit window starting at row `row`. */
    function EditPage(row: nat): seq<byte>
      reads this`editStartOffs, this`editData, this`bytesPerList
      requires editStartOffs <= row * 0x10 <= editStartOffs + |editData|
    {
      EditCopy(editData, row * 0x10 - editStartOffs, bytesPerList)
    }

    /** The page geometry and the tables: a page is a whole number of rows and fits in the edit buffer. */
    ghost predicate Geometry()
      reads this`maxLines, this`bytesPerList, this`editLen, this`fileSize, this`file, this`encoding
    {
      && maxLines >= 1
      && bytesPerList == maxLines * 0x10
      && bytesPerList >= BYTES_PER_OFFS && bytesPerList % 0x10 == 0
      && editLen >= bytesPerList
      && fileSize <= |file|
      && |encoding| == 256
    }

    /**
     * The edit window: empty in scroll mode; otherwise a non-empty run of
     * the file starting on a row, from the file's start when the file is
     * shorter than a page.
     */
    ghost predicate Window()
      reads this`mode, this`editStartOffs, this`editData, this`fileSize, this`bytesPerList
    {
      && (mode == Scroll ==> editData == [])
      && (mode != Scroll ==>
            && editStartOffs % 0x10 == 0
            && |editData| >= 1
            && editStartOffs + |editData| <= fileSize
            && (fileSize < bytesPerList ==> editStartOffs == 0))
    }

    /**
     * The view: the cursor is on the page and inside the file (scroll) or the
     * edit window (edit, change), a file shorter than a page is shown from
     * row 0, and in the edit modes the page does not start before the window.
     */
    ghost predicate Placed()
      reads this`mode, this`offsIdx, this`cursorPos, this`editStartOffs, this`editData, this`fileSize, this`bytesPerList
    {
      && cursorPos < bytesPerList
      && (fileSize < bytesPerList ==> offsIdx == 0)
      && (mode == Scroll ==>
            && (fileSize == 0 ==> Abs() == 0)
            && (fileSize > 0 ==> Abs() < fileSize))
      && (mode != Scroll ==>
            && editStartOffs <= offsIdx * 0x10
            && editStartOffs <= Abs() < editStartOffs + |editData|)
    }

    /** In the edit modes the page shows the edit window. */
    ghost predicate Displayed()
      reads this`mode, this`offsIdx, this`editStartOffs, this`editData, this`displayData, this`bytesPerList
    {
      mode != Scroll ==>
        editStartOffs <= offsIdx * 0x10
        && Shows(displayData, editData, offsIdx * 0x10 - editStartOffs, bytesPerList)
    }

    /** The session invariant. */
    ghost predicate Valid()
      reads this
    {
      Geometry() && Window() && Placed() && Displayed()
    }

    /** The page `UpdateDisplay` produces in the current mode. */
    function Page(): seq<byte>
      reads this
      requires Valid()
    {
      if mode == Scroll then ScrollPage() else EditPage(offsIdx)
    }

    /**
     * `Load` as the source writes it: a partial reset. `contents` is the
     * stream's contents when the file exists and opens, `None` otherwise. The
     * view moves to the first byte of the file, but the mode, the edit window
     * and the pending changes are kept. In the edit modes the redisplay copies
     * the page from the window at `0 - editStartOffs`; that copy stays inside
     * the window only when the window starts at offset 0. Where it would start
     * before the window, the model leaves the page as it was and `shown` is false.
     */
    method LoadAsWritten(contents: Option<seq<byte>>, lines: nat, editModeBufferLen: nat, encodingDoc: EncodingDoc)
      returns (shown: bool)
      requires |encoding| == 256
      requires 1 <= lines < 256 && lines * 0x10 <= editModeBufferLen
      modifies this`file, this`fileSize, this`fileGood, this`maxLines, this`bytesPerList, this`editLen
      modifies this`cursorPos, this`offsIdx, this`displayData, this`encoding
      ensures mode == old(mode) && editData == old(editData) && editStartOffs == old(editStartOffs)
      ensures changes == old(changes)
      ensures maxLines == lines && bytesPerList == lines * 0x10 && editLen == editModeBufferLen
      ensures offsIdx == 0 && cursorPos == 0
      ensures contents.Some? ==> file == contents.value && fileSize == |file| && fileGood
      ensures contents.None? ==> file == [] && fileSize == 0 && !fileGood
      ensures shown <==> contents.Some? && (mode == Scroll || editStartOffs == 0)
      ensures shown && mode == Scroll ==> displayData == ScrollPage()
      ensures shown && mode != Scroll ==> displayData == EditPage(0)
      ensures !shown ==> displayData == old(displayData)
      ensures contents.Some? && !shown ==> mode != Scroll && offsIdx * 0x10 < editStartOffs
      ensures old(mode) == Scroll && old(editData) == [] ==> Valid()
      ensures EncodingLoaded(old(encoding), encodingDoc, encoding)
    {
      // The encoding and the file part touch disjoint fields; the encoding is loaded first here.
      LoadEncoding(encodingDoc);
      ghost var loaded := encoding;
      assert mode == old(mode) && editData == old(editData) && editStartOffs == old(editStartOffs) && changes == old(changes);
      shown := Reopen(contents, lines, editModeBufferLen);
      assert encoding == loaded;
    }

    /** The part of `LoadAsWritten` before the encoding. */
    method Reopen(contents: Option<seq<byte>>, lines: nat, editModeBufferLen: nat) returns (shown: bool)
      requires |encoding| == 256
      requires 1 <= lines < 256 && lines * 0x10 <= editModeBufferLen
      modifies this`file, this`fileSize, this`fileGood, this`maxLines, this`bytesPerList, this`editLen
      modifies this`cursorPos, this`offsIdx, this`displayData
      ensures maxLines == lines && bytesPerList == lines * 0x10 && editLen == editModeBufferLen
      ensures offsIdx == 0 && cursorPos == 0
      ensures contents.Some? ==> file == contents.value && fileSize == |file| && fileGood
      ensures contents.None? ==> file == [] && fileSize == 0 && !fileGood
      ensures shown <==> contents.Some? && (mode == Scroll || editStartOffs == 0)
      ensures shown && mode == Scroll ==> displayData == ScrollPage()
      ensures shown && mode != Scroll ==> displayData == EditPage(0)
      ensures !shown ==> displayData == old(displayData)
      ensures contents.Some? && !shown ==> mode != Scroll && offsIdx * 0x10 < editStartOffs
      ensures mode == Scroll && editData == [] ==> Valid()
    {
      Reset(lines, editModeBufferLen);
      shown := false;
      if contents.Some? {
        file := contents.value;
        fileSize := |file|;
        fileGood := true;
        if mode == Scroll || editStartOffs == 0 {
          UpdateDisplay();
          shown := true;
        }
      }
      if mode == Scroll && editData == [] {
        ScrollValid();
      }
    }

    /**
     * Loads a file and shows it from its first byte. Unlike `LoadAsWritten`, it
     * first leaves the edit window, which belongs to the file before the reload.
     * The pending changes are kept, as the source keeps them.
     */
    method Load(contents: Option<seq<byte>>, lines: nat, editModeBufferLen: nat, encodingDoc: EncodingDoc)
      requires |encoding| == 256
      requires 1 <= lines < 256 && lines * 0x10 <= editModeBufferLen
      modifies this`file, this`fileSize, this`fileGood, this`maxLines, this`bytesPerList, this`editLen
      modifies this`cursorPos, this`offsIdx, this`displayData, this`encoding, this`mode, this`editData
      ensures Valid()
      ensures maxLines == lines && bytesPerList == lines * 0x10 && editLen == editModeBufferLen
      ensures offsIdx == 0 && cursorPos == 0
      ensures mode == Scroll && editData == [] && changes == old(changes)
      ensures contents.Some? ==> file == contents.value && fileSize == |file| && fileGood && displayData == ScrollPage()
      ensures contents.None? ==> file == [] && fileSize == 0 && !fileGood && displayData == old(displayData)
      ensures EncodingLoaded(old(encoding), encodingDoc, encoding)
    {
      Open(contents, lines, editModeBufferLen);
      LoadEncoding(encodingDoc);
    }

    /**
     * The part of `Load` before the encoding: the edit window is dropped, then
     * the file, the page geometry and a view of the first byte are set.
     */
    method Open(contents: Option<seq<byte>>, lines: nat, editModeBufferLen: nat)
      requires |encoding| == 256
      requires 1 <= lines < 256 && lines * 0x10 <= editModeBufferLen
      modifies this`file, this`fileSize, this`fileGood, this`maxLines, this`bytesPerList, this`editLen
      modifies this`cursorPos, this`offsIdx, this`displayData, this`mode, this`editData
      ensures Valid() && mode == Scroll && editData == []
      ensures maxLines == lines && bytesPerList == lines * 0x10 && editLen == editModeBufferLen
      ensures offsIdx == 0 && cursorPos == 0
      ensures contents.Some? ==> file == contents.value && fileSize == |file| && fileGood && displayData == ScrollPage()
      ensures contents.None? ==> file == [] && fileSize == 0 && !fileGood && displayData == old(displayData)
    {
      mode, editData := Scroll, [];
      Reset(lines, editModeBufferLen);
      if contents.Some? {
        file := contents.value;
        fileSize := |file|;
        fileGood := true;
        UpdateDisplay();
      }
      ScrollValid();
    }

    /** The start of `Open`: no file, the page geometry for `lines` rows, and the view at the first byte. */
    method Reset(lines: nat, editModeBufferLen: nat)
      requires |encoding| == 256
      requires 1 <= lines && lines * 0x10 <= editModeBufferLen
      modifies this`file, this`fileSize, this`fileGood, this`maxLines, this`bytesPerList, this`editLen
      modifies this`cursorPos, this`offsIdx
      ensures Geometry() && file == [] && fileSize == 0 && !fileGood
      ensures maxLines == lines && bytesPerList == lines * 0x10 && editLen == editModeBufferLen
      ensures offsIdx == 0 && cursorPos == 0
    {
      fileSize, fileGood, editLen := 0, false, editModeBufferLen;
      file := [];
      maxLines := lines;
      bytesPerList := maxLines * 0x10;
      WholeRows(maxLines);
      cursorPos, offsIdx := 0, 0;
    }

    /** The session invariant in scroll mode, conjunct by conjunct. */
    lemma ScrollValid()
      requires Geometry() && mode == Scroll && editData == [] && cursorPos < bytesPerList
      requires fileSize < bytesPerList ==> offsIdx == 0
      requires fileSize == 0 ==> Abs() == 0
      requires fileSize > 0 ==> Abs() < fileSize
      ensures Valid()
    {
    }

    /**
     * Writes the pending changes to the file in ascending offset order when
     * `doChanges` holds, and discards them either way.
     */
    method WriteChanges(doChanges: bool)
      modifies this`file, this`changes
      ensures changes == (if old(changes) == map[] then old(changes) else map[])
      ensures doChanges ==> IsCommitted(old(file), old(changes), file)
      ensures !doChanges ==> file == old(file)
      ensures |file| >= old(|file|)
    {
      if changes == map[] {
        return;
      }
      if doChanges {
        var todo := changes.Keys;
        while todo != {}
          invariant changes == old(changes) && todo <= changes.Keys
          invariant IsCommitted(old(file), Without(changes, todo), file)
          decreases |todo|
        {
          HasSmallest(todo);
          var k :| k in todo && forall j :: j in todo ==> k <= j;
          CommitNext(old(file), changes, todo, file, k);
          file := WriteOne(file, k, changes[k]);
          todo := todo - {k};
        }
        assert Without(changes, {}) == changes;
      }
      changes := map[];
    }

    /** Bit `bitIndex` of the file byte at `offs`; false for an offset past the file or an index above 7. */
    function ReadBit(offs: nat, bitIndex: bv8): (r: bool)
      reads this`fileSize, this`file
      requires fileSize <= |file|
      ensures r ==> offs < fileSize && bitIndex <= 7
      ensures offs < fileSize && bitIndex <= 7 ==> r == Bit(file[offs], bitIndex)
    {
      if bitIndex > 7 || offs >= fileSize then false else Bit(file[offs], bitIndex)
    }

    /** Bit `bitIndex` of the edit window's byte at `offs` (relative to the window). */
    function ReadBitFromEditBuffer(offs: nat, bitIndex: bv8): (r: bool)
      reads this`editData
      ensures r ==> offs < |editData| && bitIndex <= 7
      ensures offs < |editData| && bitIndex <= 7 ==> r == Bit(editData[offs], bitIndex)
    {
      if bitIndex > 7 || offs >= |editData| then false else Bit(editData[offs], bitIndex)
    }

    /** Records as a pending change the file byte at `offs` with bit `bitIndex` set to `isSet`. */
    method WriteBit(offs: nat, bitIndex: bv8, isSet: bool)
      requires fileSize <= |file|
      modifies this`changes
      ensures !(offs < fileSize && bitIndex <= 7) ==> changes == old(changes)
      ensures offs < fileSize && bitIndex <= 7 ==>
        && changes.Keys == old(changes).Keys + {offs}
        && (forall k :: k in old(changes) && k != offs ==> changes[k] == old(changes)[k])
        && Bit(changes[offs], bitIndex) == isSet
        && (forall j: bv8 :: j < 8 && j != bitIndex ==> Bit(changes[offs], j) == Bit(file[offs], j))
    {
      if bitIndex > 7 || offs >= fileSize {
        return;
      }
      var v := file[offs];
      forall j: bv8 | j < 8 && j != bitIndex
        ensures Bit(SetBit(v, bitIndex, isSet), j) == Bit(v, j)
      {
        SetBitKeepsOthers(v, bitIndex, isSet, j);
      }
      changes := changes[offs := SetBit(v, bitIndex, isSet)];
    }

    /**
     * Sets bit `bitIndex` of the edit window's byte at `offs`, records the new
     * byte as a pending change at its absolute offset and refreshes the page.
     */
    method WriteBitToEditBuffer(offs: nat, bitIndex: bv8, isSet: bool)
      requires Valid()
      modifies this`editData, this`changes, this`displayData
      ensures Valid()
      ensures !(offs < old(|editData|) && bitIndex <= 7) ==>
        editData == old(editData) && changes == old(changes) && displayData == old(displayData)
      ensures offs < old(|editData|) && bitIndex <= 7 ==>
        && |editData| == old(|editData|)
        && (forall i :: 0 <= i < |editData| && i != offs ==> editData[i] == old(editData)[i])
        && ReadBitFromEditBuffer(offs, bitIndex) == isSet
        && (forall j: bv8 :: j < 8 && j != bitIndex ==> Bit(editData[offs], j) == Bit(old(editData)[offs], j))
        && changes == old(changes)[editStartOffs + offs := editData[offs]]
        && displayData == Page()
    {
      if bitIndex > 7 || offs >= |editData| {
        return;
      }
      var v := SetBit(editData[offs], bitIndex, isSet);
      forall j: bv8 | j < 8 && j != bitIndex
        ensures Bit(v, j) == Bit(editData[offs], j)
      {
        SetBitKeepsOthers(editData[offs], bitIndex, isSet, j);
      }
      PutEditByte(offs, v);
    }

    /** Byte `k` of the edit window becomes `v`, is recorded as a change, and the page is refreshed. */
    method PutEditByte(k: nat, v: byte)
      requires Valid() && k < |editData|
      modifies this`editData, this`changes, this`displayData
      ensures Valid()
      ensures editData == old(editData)[k := v]
      ensures changes == old(changes)[editStartOffs + k := v]
      ensures displayData == Page()
    {
      assert mode != Scroll;
      SetWindowByte(k, v);
      RefreshWindow();
    }

    /** The window and change-map half of `PutEditByte`; the page is left as it was. */
    method SetWindowByte(k: nat, v: byte)
      requires Geometry() && Window() && Placed() && mode != Scroll && k < |editData|
      modifies this`editData, this`changes
      ensures Geometry() && Window() && Placed()
      ensures editData == old(editData)[k := v]
      ensures changes == old(changes)[editStartOffs + k := v]
    {
      editData := editData[k := v];
      changes := changes[editStartOffs + k := v];
    }

    /** `UpdateDisplay` in the edit modes: the page shows the edit window from the view's row again. */
    method RefreshWindow()
      requires Geometry() && Window() && Placed() && mode != Scroll
      modifies this`displayData
      ensures Valid() && displayData == EditPage(offsIdx)
    {
      DisplayWindow();
      CopyShows(displayData, editData, offsIdx * 0x10 - editStartOffs, bytesPerList);
    }

    /** The low (`first`) or high nibble of the file byte at `offs`; 0 past the file. */
    function ReadBits(offs: nat, first: bool): (r: byte)
      reads this`fileSize, this`file
      requires fileSize <= |file|
      ensures r <= 0xF
      ensures offs < fileSize ==> r == Nibble(file[offs], first)
    {
      if offs >= fileSize then 0 else Nibble(file[offs], first)
    }

    /** Records as a pending change the file byte at `offs` with one nibble replaced by `data`. */
    method WriteBits(offs: nat, first: bool, data: byte)
      requires fileSize <= |file|
      modifies this`changes
      ensures !(offs < fileSize && data <= 0xF) ==> changes == old(changes)
      ensures offs < fileSize && data <= 0xF ==>
        && changes.Keys == old(changes).Keys + {offs}
        && (forall k :: k in old(changes) && k != offs ==> changes[k] == old(changes)[k])
        && Nibble(changes[offs], first) == data
        && Nibble(changes[offs], !first) == ReadBits(offs, !first)
    {
      if data > 0xF || offs >= fileSize {
        return;
      }
      var v := file[offs];
      changes := changes[offs := SetNibble(v, first, data)];
    }

    /** The two-digit rendering of the displayed byte at `cursor`, empty past the page. */
    method ByteToString(cursor: nat) returns (s: string)
      ensures cursor >= |displayData| ==> s == ""
      ensures cursor < |displayData| ==> s == HexString(displayData[cursor] as bv32, 2) && ParseHex(s) == displayData[cursor] as bv32
    {
      if cursor >= |displayData| {
        return "";
      }
      s := ByteText(displayData[cursor]);
    }

    /**
     * Loads the character encoding: a readable document resets every entry to
     * "." and then takes, for each byte, the string its two-digit upper-case
     * key maps to in the `"map"` object.
     */
    method LoadEncoding(doc: EncodingDoc)
      requires |encoding| == 256
      modifies this`encoding
      ensures EncodingLoaded(old(encoding), doc, encoding)
    {
      if doc.Unavailable? || doc.Discarded? {
        return;
      }
      var idx := 0;
      while idx < 256
        invariant 0 <= idx <= 256 && |encoding| == 256
        invariant forall i :: 0 <= i < idx ==> encoding[i] == "."
      {
        encoding := encoding[idx := "."];
        idx := idx + 1;
      }
      if doc.map_.Some? {
        encoding := MapEncoding(doc.map_.value, encoding);
      }
    }

    // -------------------------------------------------------------- display

    /** Refreshes the display: a page of the file in scroll mode, a page of the edit window otherwise. */
    method UpdateDisplay()
      requires fileSize <= |file|
      requires mode != Scroll ==> editStartOffs <= offsIdx * 0x10 <= editStartOffs + |editData|
      modifies this`displayData
      ensures mode == Scroll ==> displayData == ScrollPage()
      ensures mode != Scroll ==> displayData == EditPage(offsIdx)
    {
      if mode == Scroll {
        if fileSize < bytesPerList {
          displayData := file[..fileSize];
          return;
        }
        displayData := Padded(file, offsIdx * 0x10, bytesPerList);
      } else {
        DisplayWindow();
      }
    }

    /** The edit-mode branch of `UpdateDisplay`: the page of the edit window from the first row shown. */
    method DisplayWindow()
      requires editStartOffs <= offsIdx * 0x10 <= editStartOffs + |editData|
      modifies this`displayData
      ensures displayData == EditPage(offsIdx)
    {
      displayData := EditCopy(editData, offsIdx * 0x10 - editStartOffs, bytesPerList);
    }

    /** Reads the edit window: `EditLen` bytes from its start, fewer where the file ends. */
    method FetchBuffer()
      requires editStartOffs <= fileSize <= |file|
      modifies this`editData
      ensures editData == file[editStartOffs .. editStartOffs + Min(editLen, fileSize - editStartOffs)]
    {
      if fileSize < editStartOffs + editLen {
        editData := file[editStartOffs .. fileSize];
      } else {
        editData := file[editStartOffs .. editStartOffs + editLen];
      }
    }

    // ---------------------------------------------------------------- modes

    /** Leaves the edit window and shows the file again at the same position. */
    method SwitchToScrollMode()
      requires Valid()
      modifies this`editData, this`mode, this`displayData
      ensures Valid() && mode == Scroll && editData == [] && displayData == Page()
      ensures Abs() == old(Abs())
    {
      assert fileSize > 0 ==> Abs() < fileSize;
      assert fileSize == 0 ==> Abs() == 0;
      editData := [];
      mode := Scroll;
      UpdateDisplay();
      ScrollValid();
    }

    /**
     * Enters edit mode. From scroll mode the edit window starts at the first
     * row shown; the display is refreshed before the mode changes, so it still
     * holds the file's page.
     */
    method SwitchToEditMode(fromScroll: bool)
      requires Valid()
      requires fromScroll ==> mode == Scroll && fileSize > 0
      requires !fromScroll ==> mode != Scroll
      modifies this`editStartOffs, this`editData, this`displayData, this`mode
      ensures Valid() && mode == Edit && Abs() == old(Abs())
      ensures fromScroll ==>
        && editStartOffs == offsIdx * 0x10
        && editData == file[editStartOffs .. editStartOffs + Min(editLen, fileSize - editStartOffs)]
        && displayData == old(Page())
      ensures !fromScroll ==> editStartOffs == old(editStartOffs) && editData == old(editData) && displayData == old(displayData)
    {
      if fromScroll {
        EditFromScroll();
      } else {
        mode := Edit;
      }
    }

    /** The scroll-mode branch of `SwitchToEditMode`. */
    method EditFromScroll()
      requires Valid() && mode == Scroll && fileSize > 0
      modifies this`editStartOffs, this`editData, this`displayData, this`mode
      ensures Valid() && mode == Edit
      ensures editStartOffs == offsIdx * 0x10
      ensures editData == file[editStartOffs .. editStartOffs + Min(editLen, fileSize - editStartOffs)]
      ensures displayData == old(ScrollPage())
    {
      FetchWindow();
      UpdateDisplay();
      mode := Edit;
      WindowEntered();
    }

    /** The window half of `EditFromScroll`: the window starts at the first row shown and is read from the file. */
    method FetchWindow()
      requires fileSize <= |file| && offsIdx * 0x10 <= fileSize
      modifies this`editStartOffs, this`editData
      ensures editStartOffs == offsIdx * 0x10
      ensures editData == file[editStartOffs .. editStartOffs + Min(editLen, fileSize - editStartOffs)]
    {
      editStartOffs := offsIdx * 0x10;
      FetchBuffer();
    }

    /**
     * Entering edit mode from scroll mode keeps the session valid: the window
     * read from the first row shown covers the cursor, and the file page
     * still displayed agrees with it.
     */
    lemma WindowEntered()
      requires Geometry() && mode == Edit && cursorPos < bytesPerList
      requires fileSize < bytesPerList ==> offsIdx == 0
      requires Abs() < fileSize
      requires editStartOffs == offsIdx * 0x10
      requires editData == file[editStartOffs .. editStartOffs + Min(editLen, fileSize - editStartOffs)]
      requires displayData == ScrollPage()
      ensures Valid()
    {
      PageShowsWindow();
    }

    /** The file page shown agrees with the window freshly read from its first row. */
    lemma PageShowsWindow()
      requires fileSize <= |file| && editStartOffs == offsIdx * 0x10 <= fileSize
      requires fileSize < bytesPerList ==> offsIdx == 0
      requires editData == file[editStartOffs .. editStartOffs + Min(editLen, fileSize - editStartOffs)]
      requires displayData == ScrollPage()
      ensures Shows(displayData, editData, offsIdx * 0x10 - editStartOffs, bytesPerList)
    {
    }

    /** Starts changing the value under the cursor. */
    method SwitchToChangeMode()
      requires Valid() && mode == Edit
      modifies this`mode
      ensures Valid() && mode == Change
    {
      mode := Change;
    }

    /** A: scroll to edit, edit to change; nothing in change mode. */
    method APress()
      requires Valid() && fileSize > 0
      modifies this`editStartOffs, this`editData, this`displayData, this`mode
      ensures Valid() && Abs() == old(Abs()) && file == old(file) && changes == old(changes)
      ensures mode == match old(mode) case Scroll => Edit case Edit => Change case Change => Change
      ensures old(mode) == Scroll ==> editStartOffs == offsIdx * 0x10 && |editData| >= 1
      ensures old(mode) != Scroll ==> editData == old(editData) && displayData == old(displayData)
    {
      match mode {
        case Scroll => SwitchToEditMode(true);
        case Edit => SwitchToChangeMode();
        case Change =>
      }
    }

    /** B: change back to edit, edit back to scroll; nothing in scroll mode. */
    method BPress()
      requires Valid()
      modifies this`editStartOffs, this`editData, this`displayData, this`mode
      ensures Valid() && Abs() == old(Abs()) && file == old(file) && changes == old(changes)
      ensures mode == match old(mode) case Scroll => Scroll case Edit => Scroll case Change => Edit
      ensures old(mode) == Edit ==> editData == [] && displayData == Page()
      ensures old(mode) != Edit ==> editData == old(editData) && displayData == old(displayData)
    {
      match mode {
        case Scroll =>
        case Edit => SwitchToScrollMode();
        case Change => SwitchToEditMode(false);
      }
    }

    /**
     * Jumps to `offs` when it is inside the file (scroll mode) or the edit
     * window: the first page keeps row 0, later offsets are shown on the last
     * row. In the edit modes the page chosen must start inside the window.
     */
    method JumpOffs(offs: nat)
      requires Valid()
      requires mode != Scroll && Lower() <= offs < Limit() ==>
        editStartOffs <= PagePosition(offs, bytesPerList).offsIdx * 0x10
      modifies this`offsIdx, this`cursorPos, this`displayData
      ensures Valid()
      ensures Lower() <= offs < Limit() ==>
        Abs() == offs && Position(offsIdx, cursorPos) == PagePosition(offs, bytesPerList) && displayData == Page()
      ensures !(Lower() <= offs < Limit()) ==>
        offsIdx == old(offsIdx) && cursorPos == old(cursorPos) && displayData == old(displayData)
    {
      if Lower() <= offs < Limit() {
        assert Limit() <= fileSize;
        var p := PagePosition(offs, bytesPerList);
        assert Absolute(p) == p.offsIdx * 0x10 + p.cursorPos == offs;
        ShowPage(p.offsIdx, p.cursorPos);
        assert mode == old(mode) && editStartOffs == old(editStartOffs) && editData == old(editData) && fileSize == old(fileSize);
      }
    }

    // ---------------------------------------------------------------- moves

    /** A cursor move inside the page: only the cursor changes. */
    method MoveCursor(c: nat)
      requires Valid() && c < bytesPerList
      requires Lower() <= offsIdx * 0x10 + c < Limit()
      modifies this`cursorPos
      ensures Valid() && cursorPos == c
    {
      cursorPos := c;
    }

    /** A move onto another page: the view starts at `row`, the cursor is at `c`, and the page is refreshed. */
    method ShowPage(row: nat, c: nat)
      requires Valid() && c < bytesPerList
      requires Lower() <= row * 0x10 + c < Limit()
      requires fileSize < bytesPerList ==> row == 0
      requires mode != Scroll ==> editStartOffs <= row * 0x10
      modifies this`offsIdx, this`cursorPos, this`displayData
      ensures Valid() && offsIdx == row && cursorPos == c && displayData == Page()
    {
      if mode == Scroll {
        ShowFilePage(row, c);
      } else {
        ShowWindowPage(row, c);
      }
    }

    /** `ShowPage` in scroll mode. */
    method ShowFilePage(row: nat, c: nat)
      requires Valid() && mode == Scroll && c < bytesPerList
      requires row * 0x10 + c < fileSize
      requires fileSize < bytesPerList ==> row == 0
      modifies this`offsIdx, this`cursorPos, this`displayData
      ensures Valid() && offsIdx == row && cursorPos == c && displayData == ScrollPage()
    {
      offsIdx, cursorPos := row, c;
      UpdateDisplay();
    }

    /** `ShowPage` in the edit modes. */
    method ShowWindowPage(row: nat, c: nat)
      requires Geometry() && Window() && mode != Scroll && c < bytesPerList
      requires editStartOffs <= row * 0x10 + c < editStartOffs + |editData|
      requires fileSize < bytesPerList ==> row == 0
      requires editStartOffs <= row * 0x10
      modifies this`offsIdx, this`cursorPos, this`displayData
      ensures Valid() && offsIdx == row && cursorPos == c && displayData == EditPage(row)
    {
      offsIdx, cursorPos := row, c;
      RefreshWindow();
    }

    /** The session invariant in the edit modes, from the view's conjuncts. */
    lemma WindowValid()
      requires Geometry() && Window() && mode != Scroll
      requires cursorPos < bytesPerList && (fileSize < bytesPerList ==> offsIdx == 0)
      requires editStartOffs <= offsIdx * 0x10 && editStartOffs <= Abs() < editStartOffs + |editData|
      requires Shows(displayData, editData, offsIdx * 0x10 - editStartOffs, bytesPerList)
      ensures Valid()
    {
    }

    /**
     * The change-mode step of a direction key: the byte under the cursor
     * becomes `v` in the edit window, in the pending changes and on the page.
     */
    method Store(v: byte)
      requires Valid() && mode == Change
      modifies this`editData, this`changes, this`displayData
      ensures Valid()
      ensures editData == old(editData)[old(Abs()) - editStartOffs := v]
      ensures changes == old(changes)[old(Abs()) := v]
      ensures displayData == old(displayData)[cursorPos := v]
    {
      var k := Abs() - editStartOffs;
      StoreShows(displayData, editData, offsIdx * 0x10 - editStartOffs, bytesPerList, cursorPos, k, v);
      SetWindowByte(k, v);
      SetPageByte(cursorPos, v);
    }

    /** The page half of `Store`: the byte at `c` on the page becomes `v`, which keeps the page showing the window. */
    method SetPageByte(c: nat, v: byte)
      requires Geometry() && Window() && Placed() && mode != Scroll && c < |displayData|
      requires editStartOffs <= offsIdx * 0x10
      requires Shows(displayData[c := v], editData, offsIdx * 0x10 - editStartOffs, bytesPerList)
      modifies this`displayData
      ensures Valid() && displayData == old(displayData)[c := v]
    {
      displayData := displayData[c := v];
    }

    /**
     * The effect of a change-mode key on the byte at offset `a`, shown at
     * column `c` of the page: when `apply` holds it becomes `v` in the edit
     * window, the pending changes and the page; otherwise nothing changes.
     */
    ghost predicate Stepped(ed: seq<byte>, ch: map<nat, byte>, disp: seq<byte>, a: nat, c: nat, apply: bool, v: byte)
      reads this`editStartOffs, this`editData, this`changes, this`displayData
      requires editStartOffs <= a < editStartOffs + |ed| && c < |disp|
    {
      if apply then
        editData == ed[a - editStartOffs := v] && changes == ch[a := v] && displayData == disp[c := v]
      else
        editData == ed && changes == ch && displayData == disp
    }

    /** The byte under the cursor in the edit window. */
    function Current(): byte
      reads this`offsIdx, this`cursorPos, this`editStartOffs, this`editData
      requires editStartOffs <= Abs() < editStartOffs + |editData|
    {
      editData[Abs() - editStartOffs]
    }

    /**
     * DOWN: one row down while that row is inside the file (scroll) or the
     * edit window (edit), scrolling the page from its last row; in change
     * mode, the value under the cursor decreases by one down to 0.
     */
    method Down()
      requires Valid() && fileSize > 0
      modifies this`offsIdx, this`cursorPos, this`displayData, this`editData, this`changes
      ensures Valid()
      ensures old(mode) != Change ==> editData == old(editData) && changes == old(changes)
      ensures old(mode) != Change ==> Abs() == if old(Abs()) + BYTES_PER_OFFS < Limit() then old(Abs()) + BYTES_PER_OFFS else old(Abs())
      ensures old(mode) != Change && offsIdx != old(offsIdx) ==>
        offsIdx == old(offsIdx) + 1 && old(cursorPos) >= bytesPerList - BYTES_PER_OFFS && displayData == Page()
      ensures old(mode) != Change && offsIdx == old(offsIdx) ==> displayData == old(displayData)
      ensures old(mode) == Change ==>
        offsIdx == old(offsIdx) && cursorPos == old(cursorPos) && Stepped(old(editData), old(changes), old(displayData), old(Abs()), old(cursorPos), old(Current()) > 0x0, old(Current()) - 1)
    {
      if mode == Change {
        DownChange();
      } else {
        DownMove();
      }
    }

    /** DOWN in scroll or edit mode: the cursor moves one row down. */
    method DownMove()
      requires Valid() && fileSize > 0 && mode != Change
      modifies this`offsIdx, this`cursorPos, this`displayData
      ensures Valid() && editData == old(editData) && changes == old(changes)
      ensures Abs() == if old(Abs()) + BYTES_PER_OFFS < Limit() then old(Abs()) + BYTES_PER_OFFS else old(Abs())
      ensures offsIdx != old(offsIdx) ==>
        offsIdx == old(offsIdx) + 1 && old(cursorPos) >= bytesPerList - BYTES_PER_OFFS && displayData == Page()
      ensures offsIdx == old(offsIdx) ==> displayData == old(displayData)
    {
      if mode == Scroll {
        DownScroll();
      } else {
        DownEdit();
      }
    }

    method DownChange()
      requires Valid() && fileSize > 0 && mode == Change
      modifies this`editData, this`changes, this`displayData
      ensures Valid() && offsIdx == old(offsIdx) && cursorPos == old(cursorPos)
      ensures Stepped(old(editData), old(changes), old(displayData), old(Abs()), old(cursorPos), old(Current()) > 0x0, old(Current()) - 1)
    {
      if Abs() - editStartOffs <= |editData| {
        var v := editData[Abs() - editStartOffs];
        if v > 0x0 {
          Store(v - 1);
        }
      }
    }

    method DownScroll()
      requires Valid() && fileSize > 0 && mode == Scroll
      modifies this`offsIdx, this`cursorPos, this`displayData
      ensures Valid()
      ensures Abs() == if old(Abs()) + BYTES_PER_OFFS < Limit() then old(Abs()) + BYTES_PER_OFFS else old(Abs())
      ensures offsIdx != old(offsIdx) ==>
        offsIdx == old(offsIdx) + 1 && old(cursorPos) >= bytesPerList - BYTES_PER_OFFS && displayData == Page()
      ensures offsIdx == old(offsIdx) ==> displayData == old(displayData)
    {
      if fileSize > BYTES_PER_OFFS {
        if Abs() < fileSize - BYTES_PER_OFFS {
          if cursorPos >= bytesPerList - BYTES_PER_OFFS {
            ShowPage(offsIdx + 1, cursorPos);
          } else {
            MoveCursor(cursorPos + BYTES_PER_OFFS);
          }
        }
      }
    }

    method DownEdit()
      requires Valid() && fileSize > 0 && mode == Edit
      modifies this`offsIdx, this`cursorPos, this`displayData
      ensures Valid()
      ensures Abs() == if old(Abs()) + BYTES_PER_OFFS < Limit() then old(Abs()) + BYTES_PER_OFFS else old(Abs())
      ensures offsIdx != old(offsIdx) ==>
        offsIdx == old(offsIdx) + 1 && old(cursorPos) >= bytesPerList - BYTES_PER_OFFS && displayData == Page()
      ensures offsIdx == old(offsIdx) ==> displayData == old(displayData)
    {
      if |editData| > BYTES_PER_OFFS {
        if Abs() < editStartOffs + |editData| - BYTES_PER_OFFS {
          if cursorPos >= bytesPerList - BYTES_PER_OFFS {
            ShowPage(offsIdx + 1, cursorPos);
          } else {
            MoveCursor(cursorPos + BYTES_PER_OFFS);
          }
        }
      }
    }

    /**
     * UP: one row up while that row is inside the file (scroll) or the edit
     * window (edit), scrolling the page from its first row; in change mode,
     * the value under the cursor increases by one up to 0xFF.
     */
    method Up()
      requires Valid() && fileSize > 0
      modifies this`offsIdx, this`cursorPos, this`displayData, this`editData, this`changes
      ensures Valid()
      ensures old(mode) != Change ==> editData == old(editData) && changes == old(changes)
      ensures old(mode) != Change ==> Abs() == if old(Abs()) >= Lower() + BYTES_PER_OFFS then old(Abs()) - BYTES_PER_OFFS else old(Abs())
      ensures old(mode) != Change && offsIdx != old(offsIdx) ==>
        offsIdx + 1 == old(offsIdx) && old(cursorPos) < BYTES_PER_OFFS && displayData == Page()
      ensures old(mode) != Change && offsIdx == old(offsIdx) ==> displayData == old(displayData)
      ensures old(mode) == Change ==>
        offsIdx == old(offsIdx) && cursorPos == old(cursorPos) && Stepped(old(editData), old(changes), old(displayData), old(Abs()), old(cursorPos), old(Current()) < 0xFF, old(Current()) + 1)
    {
      if mode == Change {
        UpChange();
      } else {
        UpMove();
      }
    }

    /** UP in scroll or edit mode: the cursor moves one row up. */
    method UpMove()
      requires Valid() && fileSize > 0 && mode != Change
      modifies this`offsIdx, this`cursorPos, this`displayData
      ensures Valid() && editData == old(editData) && changes == old(changes)
      ensures Abs() == if old(Abs()) >= Lower() + BYTES_PER_OFFS then old(Abs()) - BYTES_PER_OFFS else old(Abs())
      ensures offsIdx != old(offsIdx) ==>
        offsIdx + 1 == old(offsIdx) && old(cursorPos) < BYTES_PER_OFFS && displayData == Page()
      ensures offsIdx == old(offsIdx) ==> displayData == old(displayData)
    {
      if mode == Scroll {
        UpScroll();
      } else {
        UpEdit();
      }
    }

    method UpChange()
      requires Valid() && fileSize > 0 && mode == Change
      modifies this`editData, this`changes, this`displayData
      ensures Valid() && offsIdx == old(offsIdx) && cursorPos == old(cursorPos)
      ensures Stepped(old(editData), old(changes), old(displayData), old(Abs()), old(cursorPos), old(Current()) < 0xFF, old(Current()) + 1)
    {
      if Abs() - editStartOffs <= |editData| {
        var v := editData[Abs() - editStartOffs];
        if v < 0xFF {
          Store(v + 1);
        }
      }
    }

    method UpScroll()
      requires Valid() && fileSize > 0 && mode == Scroll
      modifies this`offsIdx, this`cursorPos, this`displayData
      ensures Valid()
      ensures Abs() == if old(Abs()) >= Lower() + BYTES_PER_OFFS then old(Abs()) - BYTES_PER_OFFS else old(Abs())
      ensures offsIdx != old(offsIdx) ==>
        offsIdx + 1 == old(offsIdx) && old(cursorPos) < BYTES_PER_OFFS && displayData == Page()
      ensures offsIdx == old(offsIdx) ==> displayData == old(displayData)
    {
      if Abs() > BYTES_PER_OFFS - 1 {
        if cursorPos > 0xF {
          MoveCursor(cursorPos - BYTES_PER_OFFS);
        } else {
          ShowPage(offsIdx - 1, cursorPos);
        }
      }
    }

    method UpEdit()
      requires Valid() && fileSize > 0 && mode == Edit
      modifies this`offsIdx, this`cursorPos, this`displayData
      ensures Valid()
      ensures Abs() == if old(Abs()) >= Lower() + BYTES_PER_OFFS then old(Abs()) - BYTES_PER_OFFS else old(Abs())
      ensures offsIdx != old(offsIdx) ==>
        offsIdx + 1 == old(offsIdx) && old(cursorPos) < BYTES_PER_OFFS && displayData == Page()
      ensures offsIdx == old(offsIdx) ==> displayData == old(displayData)
    {
      if Abs() > editStartOffs + BYTES_PER_OFFS - 1 {
        if cursorPos > 0xF {
          MoveCursor(cursorPos - BYTES_PER_OFFS);
        } else {
          RowAbove(editStartOffs, offsIdx);
          ShowPage(offsIdx - 1, cursorPos);
        }
      }
    }

    /**
     * LEFT: one byte back while it is inside the file (scroll) or the edit
     * window (edit), moving to the previous row's last column from the first
     * column; in change mode, the value under the cursor decreases by 0x10
     * while it is above 0xF.
     */
    method Left()
      requires Valid() && fileSize > 0
      modifies this`offsIdx, this`cursorPos, this`displayData, this`editData, this`changes
      ensures Valid()
      ensures old(mode) != Change ==> editData == old(editData) && changes == old(changes)
      ensures old(mode) != Change ==> Abs() == if old(Abs()) > Lower() then old(Abs()) - 1 else old(Abs())
      ensures old(mode) != Change && offsIdx != old(offsIdx) ==>
        offsIdx + 1 == old(offsIdx) && old(cursorPos) == 0 && displayData == Page()
      ensures old(mode) != Change && offsIdx == old(offsIdx) ==> displayData == old(displayData)
      ensures old(mode) == Change ==>
        offsIdx == old(offsIdx) && cursorPos == old(cursorPos) && Stepped(old(editData), old(changes), old(displayData), old(Abs()), old(cursorPos), old(Current()) > 0xF, old(Current()) - 0x10)
    {
      if mode == Change {
        LeftChange();
      } else {
        LeftMove();
      }
    }

    /** LEFT in scroll or edit mode: the cursor moves one byte back. */
    method LeftMove()
      requires Valid() && fileSize > 0 && mode != Change
      modifies this`offsIdx, this`cursorPos, this`displayData
      ensures Valid() && editData == old(editData) && changes == old(changes)
      ensures Abs() == if old(Abs()) > Lower() then old(Abs()) - 1 else old(Abs())
      ensures offsIdx != old(offsIdx) ==>
        offsIdx + 1 == old(offsIdx) && old(cursorPos) == 0 && displayData == Page()
      ensures offsIdx == old(offsIdx) ==> displayData == old(displayData)
    {
      if mode == Scroll {
        LeftScroll();
      } else {
        LeftEdit();
      }
    }

    method LeftChange()
      requires Valid() && fileSize > 0 && mode == Change
      modifies this`editData, this`changes, this`displayData
      ensures Valid() && offsIdx == old(offsIdx) && cursorPos == old(cursorPos)
      ensures Stepped(old(editData), old(changes), old(displayData), old(Abs()), old(cursorPos), old(Current()) > 0xF, old(Current()) - 0x10)
    {
      if Abs() - editStartOffs <= |editData| {
        var v := editData[Abs() - editStartOffs];
        if v > 0xF {
          Store(v - 0x10);
        }
      }
    }

    method LeftScroll()
      requires Valid() && fileSize > 0 && mode == Scroll
      modifies this`offsIdx, this`cursorPos, this`displayData
      ensures Valid()
      ensures Abs() == if old(Abs()) > Lower() then old(Abs()) - 1 else old(Abs())
      ensures offsIdx != old(offsIdx) ==>
        offsIdx + 1 == old(offsIdx) && old(cursorPos) == 0 && displayData == Page()
      ensures offsIdx == old(offsIdx) ==> displayData == old(displayData)
    {
      if Abs() > 0 {
        if cursorPos > 0 {
          MoveCursor(cursorPos - 1);
        } else {
          ShowPage(offsIdx - 1, 0xF);
        }
      }
    }

    method LeftEdit()
      requires Valid() && fileSize > 0 && mode == Edit
      modifies this`offsIdx, this`cursorPos, this`displayData
      ensures Valid()
      ensures Abs() == if old(Abs()) > Lower() then old(Abs()) - 1 else old(Abs())
      ensures offsIdx != old(offsIdx) ==>
        offsIdx + 1 == old(offsIdx) && old(cursorPos) == 0 && displayData == Page()
      ensures offsIdx == old(offsIdx) ==> displayData == old(displayData)
    {
      assert Lower() == editStartOffs;
      if Abs() > editStartOffs {
        if cursorPos > 0 {
          MoveCursor(cursorPos - 1);
        } else {
          LeftEditRowAbove();
        }
      }
    }

    /** LEFT in edit mode from the first column: the last column of the row above, one byte back. */
    method LeftEditRowAbove()
      requires Valid() && mode == Edit && cursorPos == 0 && Abs() > editStartOffs
      modifies this`offsIdx, this`cursorPos, this`displayData
      ensures Valid() && offsIdx + 1 == old(offsIdx) && Abs() + 1 == old(Abs()) && displayData == Page()
    {
      RowAbove(editStartOffs, offsIdx);
      PreviousRowEnd(offsIdx);
      ShowPage(offsIdx - 1, 0xF);
    }

    /**
     * RIGHT: one byte on while it is inside the file (scroll) or the edit
     * window (edit), moving to the next row's first column from the page's
     * last byte; in change mode, the value under the cursor increases by 0x10
     * while it is below 0xF0.
     */
    method Right()
      requires Valid() && fileSize > 0
      modifies this`offsIdx, this`cursorPos, this`displayData, this`editData, this`changes
      ensures Valid()
      ensures old(mode) != Change ==> editData == old(editData) && changes == old(changes)
      ensures old(mode) != Change ==> Abs() == if old(Abs()) + 1 < Limit() then old(Abs()) + 1 else old(Abs())
      ensures old(mode) != Change && offsIdx != old(offsIdx) ==>
        offsIdx == old(offsIdx) + 1 && old(cursorPos) == bytesPerList - 1 && displayData == Page()
      ensures old(mode) != Change && offsIdx == old(offsIdx) ==> displayData == old(displayData)
      ensures old(mode) == Change ==>
        offsIdx == old(offsIdx) && cursorPos == old(cursorPos) && Stepped(old(editData), old(changes), old(displayData), old(Abs()), old(cursorPos), old(Current()) < 0xF0, old(Current()) + 0x10)
    {
      if mode == Change {
        RightChange();
      } else {
        RightMove();
      }
    }

    /** RIGHT in scroll or edit mode: the cursor moves one byte on. */
    method RightMove()
      requires Valid() && fileSize > 0 && mode != Change
      modifies this`offsIdx, this`cursorPos, this`displayData
      ensures Valid() && editData == old(editData) && changes == old(changes)
      ensures Abs() == if old(Abs()) + 1 < Limit() then old(Abs()) + 1 else old(Abs())
      ensures offsIdx != old(offsIdx) ==>
        offsIdx == old(offsIdx) + 1 && old(cursorPos) == bytesPerList - 1 && displayData == Page()
      ensures offsIdx == old(offsIdx) ==> displayData == old(displayData)
    {
      if mode == Scroll {
        RightScroll();
      } else {
        RightEdit();
      }
    }

    method RightChange()
      requires Valid() && fileSize > 0 && mode == Change
      modifies this`editData, this`changes, this`displayData
      ensures Valid() && offsIdx == old(offsIdx) && cursorPos == old(cursorPos)
      ensures Stepped(old(editData), old(changes), old(displayData), old(Abs()), old(cursorPos), old(Current()) < 0xF0, old(Current()) + 0x10)
    {
      if Abs() - editStartOffs <= |editData| {
        var v := editData[Abs() - editStartOffs];
        if v < 0xF0 {
          Store(v + 0x10);
        }
      }
    }

    method RightScroll()
      requires Valid() && fileSize > 0 && mode == Scroll
      modifies this`offsIdx, this`cursorPos, this`displayData
      ensures Valid()
      ensures Abs() == if old(Abs()) + 1 < Limit() then old(Abs()) + 1 else old(Abs())
      ensures offsIdx != old(offsIdx) ==>
        offsIdx == old(offsIdx) + 1 && old(cursorPos) == bytesPerList - 1 && displayData == Page()
      ensures offsIdx == old(offsIdx) ==> displayData == old(displayData)
    {
      if Abs() < fileSize - 1 {
        if cursorPos < bytesPerList - 1 {
          MoveCursor(cursorPos + 1);
        } else {
          ShowPage(offsIdx + 1, bytesPerList - BYTES_PER_OFFS);
        }
      }
    }

    method RightEdit()
      requires Valid() && fileSize > 0 && mode == Edit
      modifies this`offsIdx, this`cursorPos, this`displayData
      ensures Valid()
      ensures Abs() == if old(Abs()) + 1 < Limit() then old(Abs()) + 1 else old(Abs())
      ensures offsIdx != old(offsIdx) ==>
        offsIdx == old(offsIdx) + 1 && old(cursorPos) == bytesPerList - 1 && displayData == Page()
      ensures offsIdx == old(offsIdx) ==> displayData == old(displayData)
    {
      if Abs() < editStartOffs + |editData| - 1 {
        if cursorPos < bytesPerList - 1 {
          MoveCursor(cursorPos + 1);
        } else {
          ShowPage(offsIdx + 1, bytesPerList - BYTES_PER_OFFS);
        }
      }
    }
  }

  /** The second pass of `LoadEncoding`: each byte whose key maps to a string takes that string. */
  method MapEncoding(obj: map<string, JsonValue>, reset: seq<string>) returns (table: seq<string>)
    requires |reset| == 256 && forall i :: 0 <= i < 256 ==> reset[i] == "."
    ensures |table| == 256
    ensures forall i :: 0 <= i < 256 ==> table[i] == EncodingEntry(obj, i)
  {
    table := reset;
    var idx := 0;
    while idx < 256
      invariant 0 <= idx <= 256 && |table| == 256
      invariant forall i :: 0 <= i < idx ==> table[i] == EncodingEntry(obj, i)
      invariant forall i :: idx <= i < 256 ==> table[i] == "."
    {
      table := MapEntry(obj, table, idx);
      idx := idx + 1;
    }
  }

  /** One step of `MapEncoding`: the entry of byte `idx` takes the string its key maps to, if any. */
  method MapEntry(obj: map<string, JsonValue>, table: seq<string>, idx: nat) returns (t: seq<string>)
    requires idx < |table| && idx < 256 && table[idx] == "."
    ensures t == table[idx := EncodingEntry(obj, idx)]
  {
    t := table;
    ByteNumber(idx);
    var key := ToHexByte(idx as bv8);
    if key in obj && obj[key].JString? {
      t := t[idx := obj[key].text];
    }
  }

  /** One more change written at an offset not yet written keeps the result committed. */
  lemma CommitStep(before: seq<byte>, done: map<nat, byte>, after: seq<byte>, k: nat, v: byte)
    requires IsCommitted(before, done, after) && k !in done
    ensures IsCommitted(before, done[k := v], WriteOne(after, k, v))
  {
  }

  /** The loop step of `WriteChanges`: writing the change at `k` commits one more change. */
  lemma CommitNext(before: seq<byte>, ch: map<nat, byte>, todo: set<nat>, f: seq<byte>, k: nat)
    requires IsCommitted(before, Without(ch, todo), f) && k in todo && todo <= ch.Keys
    ensures IsCommitted(before, Without(ch, todo - {k}), WriteOne(f, k, ch[k]))
  {
    CommitStep(before, Without(ch, todo), f, k, ch[k]);
    assert Without(ch, todo - {k}) == Without(ch, todo)[k := ch[k]];
  }

  /** Every pending change is in the file once committed. */
  lemma CommittedHasChanges(before: seq<byte>, ch: map<nat, byte>, after: seq<byte>, k: nat)
    requires IsCommitted(before, ch, after) && k in ch
    ensures k < |after| && after[k] == ch[k]
  {
  }

  /** Committing no changes leaves the file as it was. */
  lemma CommitNothing(before: seq<byte>, after: seq<byte>)
    requires IsCommitted(before, map[], after)
    ensures after == before
  {
  }

  /** Committing changes only inside the file keeps its size. */
  lemma CommitInsideKeepsSize(before: seq<byte>, ch: map<nat, byte>, after: seq<byte>)
    requires IsCommitted(before, ch, after)
    requires forall k :: k in ch ==> k < |before|
    ensures |after| == |before|
  {
  }

  /** The encoding table only ever consults the keys `ToHex` produces: two upper-case digits. */
  lemma EncodingIgnoresOtherKeys(obj: map<string, JsonValue>, key: string, e: JsonValue, idx: nat)
    requires idx < 256
    requires !(|key| == 2 && IsHexDigit(key[0]) && IsHexDigit(key[1]))
    ensures EncodingEntry(obj[key := e], idx) == EncodingEntry(obj, idx)
  {
    assert ByteKey(idx) != key;
  }

  /** A key sets at most one entry of the table. */
  lemma EncodingKeySetsOneEntry(obj: map<string, JsonValue>, key: string, e: string, i: nat, j: nat)
    requires i < 256 && j < 256 && i != j
    requires key == ByteKey(i)
    ensures EncodingEntry(obj[key := JString(e)], i) == e
    ensures EncodingEntry(obj[key := JString(e)], j) == EncodingEntry(obj, j)
  {
    if ByteKey(j) == key {
      ByteKeyInjective(i, j);
    }
  }


  /**
   * The guards of the change-mode keys keep the byte from wrapping: each
   * step that is applied moves the value by exactly its amount.
   */
  lemma ChangeStepsDoNotWrap(v: byte)
    ensures v > 0x0 ==> (v - 1) as int == v as int - 1
    ensures v < 0xFF ==> (v + 1) as int == v as int + 1
    ensures v > 0xF ==> (v - 0x10) as int == v as int - 0x10
    ensures v < 0xF0 ==> (v + 0x10) as int == v as int + 0x10
  {
  }

  /**
   * As written, DOWN in edit mode on a 0xD5-byte window (a 0xD5-byte file,
   * 13 rows) with the cursor at 0xC0 passes its guard, scrolls one row, and
   * the display copy then runs past the end of the edit buffer.
   */
  lemma EditPageOverrunsWindow(ed: seq<byte>)
    requires |ed| == 0xD5
    ensures var bytesPerList, editStart, offsIdx, cursorPos := 0xD0, 0, 0, 0xC0;
      && |ed| > BYTES_PER_OFFS
      && offsIdx * 0x10 + cursorPos < editStart + |ed| - BYTES_PER_OFFS
      && cursorPos >= bytesPerList - BYTES_PER_OFFS
      && EditCopyAsWritten(ed, (offsIdx + 1) * 0x10 - editStart, bytesPerList).None?
  {
  }
}
