# Universal-Edit-Hex binary-data engine in Dafny

This project models the binary-data engine of Universal-Edit-Hex, a hex
editor for the Nintendo 3DS and DS, and proves properties of it.

It covers the following parts of the engine:

- **The streaming editing session** (`StreamingHexData.HexData`, `streaming_hexdata.dfy`). This is the class behind
  `common/source/Data/HexData.cpp`. It holds:
  - the backing file as a byte sequence;
  - a view of `bytesPerList = maxLines * 0x10` bytes, starting at row `offsIdx`, with a cursor at `cursorPos`;
  - the three-state mode machine (scroll, edit, change);
  - the bounded edit window `editData`, starting at `editStartOffs`;
  - the sparse change map `changes`, which `WriteChanges` commits or discards;
  - the page shown on screen, `displayData`;
  - the 256-entry character encoding.

  The session invariant `Valid()` says how these fit together. Every key press preserves it.
- **The in-memory buffer** (`MemoryHexData.HexData`, `memory_hexdata.dfy`). This is the other `HexData`, declared in
  `common/include/Data/HexData.hpp`: endian-aware `Read<T>` and `Write<T>`, `GetChar`, and the `ChangesMade` flag.
  Byte order is modelled on `bv32` values in `bytes.dfy`.
- **The file splices, backup and search of the 3DS actions** (`Actions.Storage`, `actions.dfy`), and the guarded
  splices of the insert/remove screen (`ReminsertScreen.Reminsert`, `reminsert.dfy`). Both are built on the sequence
  definitions in `splice.dfy`. The file system is a map from paths to byte sequences.
- **The search screen's parameter clamping, sequence editing and text-to-byte encoding** (`SearchMenu.Search`,
  `search_menu.dfy`).
- **The offset-to-cursor jump arithmetic** of the navigator and of the label list (`Navigation`, `layout.dfy`).
- **The hex editor's byte-group helpers and key handler** (`HexEditorView`, `hex_editor.dfy`).
- **The argument and bounds checks of the Lua script interface** (`ScriptApi`, `lua_api.dfy`). Each call is modelled
  as the access it would perform, or the error it raises.
- **The `ToHex` formatter** (`HexFormat`, `hex_format.dfy`), together with a parser that inverts it.

## Model

| member | source | states |
|---|---|---|
| Bytes.Add32 | 3DS/source/Components/Navigator/Reminsert.cpp:181 | uint32 addition: the exact sum when it fits, otherwise the sum reduced by 2^32 (or raised by 2^32 below zero) |
| Bytes.SetBit | common/source/Data/HexData.cpp:132-138 | after setting bit `i` of a byte to `s`, bit `i` reads `s` |
| Bytes.SetBitKeepsOthers | common/source/Data/HexData.cpp:132-138 | setting one bit leaves every other bit of the byte as it was |
| Bytes.SetNibble | common/source/Data/HexData.cpp:179-185 | writing a nibble makes that nibble read back the value, and keeps the other nibble |
| Bytes.NibblesDetermineByte | common/source/Data/HexData.cpp:159-186 | two bytes are equal exactly when both their nibbles are equal |
| Bytes.BitsDetermineByte | common/source/Data/HexData.cpp:105-150 | two bytes that agree on all eight bits are equal |
| Bytes.Decompose | common/include/Data/HexData.hpp:78-88 | splits a value into `sizeof(T)` bytes; byte `idx` is the one placed at shift `(size-1-idx)*8` (big endian) or `idx*8` (little endian) |
| Bytes.ComposeDecompose | common/include/Data/HexData.hpp:56-92 | reading back the bytes a value was written as gives the value truncated to `sizeof(T)` bytes, for every width and byte order |
| Bytes.DecomposeCompose | common/include/Data/HexData.hpp:56-92 | writing the value read from `sizeof(T)` bytes reproduces those bytes |
| Bytes.ByteOrdersMirror | common/include/Data/HexData.hpp:60-69 | byte `idx` in big-endian order is byte `size-1-idx` in little-endian order |
| HexFormat.HexDigit | DS/arm9/include/Common.hpp:39 | every nibble is written as a character in '0'..'9' or 'A'..'F' |
| HexFormat.HexString | DS/arm9/include/Common.hpp:35-44 | the rendering has exactly `k` characters, all upper-case hex digits |
| HexFormat.ToHex | DS/arm9/include/Common.hpp:35-44 | the loop writes the `2*sizeof(T)` digits from the last to the first, least significant nibble last, giving `HexString(v, 2*size)` |
| HexFormat.DigitRoundTrip | DS/arm9/include/Common.hpp:39 | the digit written for a nibble parses back to the nibble |
| HexFormat.ParseHexString | DS/arm9/include/Common.hpp:38-41 | parsing `k` digits of a value gives the value's low `k` nibbles |
| HexFormat.ByteHexRoundTrip | DS/arm9/include/Common.hpp:35-44 | parsing the two digits of a byte gives back the byte |
| HexFormat.ByteHexInjective | DS/arm9/include/Common.hpp:35-44 | distinct bytes get distinct two-digit strings ("00".."FF") |
| HexFormat.ByteKey | common/source/Data/HexData.cpp:223 | the encoding-table key of byte number `i` is two hex digits |
| HexFormat.ByteKeyInjective | common/source/Data/HexData.cpp:222-226 | distinct byte numbers have distinct keys, so each key names one table entry |
| HexFormat.ToHexByteKey | common/source/Data/HexData.cpp:223 | `ToHex<uint8_t>` of a byte code is that byte's key, high nibble first |
| HexFormat.ToHexByte | common/source/Data/HexData.cpp:222-223 | `ToHex<uint8_t>` of the loop counter, narrowed to a byte, is the key `ByteKey` of the counter's number |
| HexFormat.ByteText | common/source/Data/HexData.cpp:195 | a displayed byte is rendered as two hex digits that parse back to the byte |
| Layout.PagePosition | common/source/Data/HexData.cpp:540-569 | the row and column chosen for an offset address exactly that offset; the column is on the page; offsets on the first page keep row 0; later offsets are shown on the last row |
| Layout.PagePositionLowest | common/source/Data/HexData.cpp:557-565 | no placement of the offset on the page starts at an earlier row |
| Splice.Fill | 3DS/source/Actions.cpp:91 | `n` copies of the value |
| Splice.InsertedBytes | 3DS/source/Actions.cpp:58-124 | the inserted file is the old bytes before `offs`, then `n` bytes of the value, then the rest, shifted by `n` |
| Splice.RemovedBytes | 3DS/source/Actions.cpp:153-207 | the removed file keeps the bytes before `offs` and shifts the bytes after `offs+n` down by `n` |
| Splice.RemoveInserted | 3DS/source/Components/Navigator/Reminsert.cpp:86-252 | removing the run just inserted restores the file |
| Splice.InsertRemoved | 3DS/source/Components/Navigator/Reminsert.cpp:86-252 | re-inserting a removed run of equal bytes restores the file |
| Splice.NextChunk | 3DS/source/Actions.cpp:67-74 | one pass moves between 1 and the buffer size bytes, never more than remain, and one pass fewer remains afterwards |
| StreamingHexData.Padded | common/source/Data/HexData.cpp:433-435 | a page copied from the file holds the file's bytes where they exist and zeros past its end |
| StreamingHexData.WriteOne | common/source/Data/HexData.cpp:89-92 | writing one byte at `k` sets byte `k`, keeps the others, and extends a shorter file with zeros |
| StreamingHexData.Without | common/source/Data/HexData.cpp:88-94 | the pending changes still to commit: exactly those outside the done set, with their values |
| StreamingHexData.CommitStep | common/source/Data/HexData.cpp:88-94 | committing one more change keeps the file a faithful commit of the changes done so far |
| StreamingHexData.CommitNext | common/source/Data/HexData.cpp:88-94 | writing one pending change moves it from the pending set to the committed ones |
| StreamingHexData.CommittedHasChanges | common/source/Data/HexData.cpp:85-96 | after a commit, every changed offset holds its new value |
| StreamingHexData.CommitNothing | common/source/Data/HexData.cpp:85-96 | committing an empty change map leaves the file unchanged |
| StreamingHexData.CommitInsideKeepsSize | common/source/Data/HexData.cpp:85-96 | committing changes that are all inside the file keeps its size |
| StreamingHexData.EditCopyAsWritten | common/source/Data/HexData.cpp:438-446 | the unchecked copy of a page from the edit buffer, defined only when it stays inside the buffer |
| StreamingHexData.EditCopy | common/source/Data/HexData.cpp:438-446 | the page copied from the edit buffer has the page size, or fewer bytes where the buffer ends |
| StreamingHexData.EditCopyAgrees | common/source/Data/HexData.cpp:438-446 | wherever the unchecked copy stays inside the buffer, it equals the clamped copy |
| StreamingHexData.EditPageOverrunsWindow | common/source/Data/HexData.cpp:260-283 | with a 0xD5-byte edit window, DOWN from column 0xC0 moves the page one row on, and the copy then runs past the buffer |
| StreamingHexData.CopyShows | common/source/Data/HexData.cpp:441-446 | a freshly copied page agrees with the edit window |
| StreamingHexData.StoreShows | common/source/Data/HexData.cpp:290-295 | writing the same byte into the window and the page keeps them in agreement |
| StreamingHexData.EncodingIgnoresOtherKeys | common/source/Data/HexData.cpp:221-226 | map entries whose key is not two hex digits never reach the table |
| StreamingHexData.EncodingKeySetsOneEntry | common/source/Data/HexData.cpp:221-226 | a string entry under a byte's key sets that byte's character and no other |
| StreamingHexData.ChangeStepsDoNotWrap | common/source/Data/HexData.cpp:285-414 | each guarded change step (−1, +1, −0x10, +0x10) gives the exact integer result, never a wrapped byte |
| StreamingHexData.MapEncoding | common/source/Data/HexData.cpp:219-227 | the loop over all 256 codes gives every entry the map's string for its key, or "." |
| StreamingHexData.MapEntry | common/source/Data/HexData.cpp:223-225 | one iteration sets exactly entry `idx` |
| StreamingHexData.HexData.ScrollPage | common/source/Data/HexData.cpp:425-436 | the scroll-mode page is the whole file when shorter than a page, else exactly one page |
| StreamingHexData.HexData.Load | common/source/Data/HexData.cpp:44-73 | the corrected reload of the Load finding: the session first leaves the edit modes, then holds the new file (or an empty, not-good one when it fails to open), shows it from its first byte, keeps the change map and loads the encoding; the session is valid afterwards in every mode it started in |
| StreamingHexData.HexData.LoadAsWritten | common/source/Data/HexData.cpp:44-73 | the reload as written: the file, size, good flag and geometry are reset and the view moves to byte 0, but the mode, the edit window, its start and the change map are kept; the page is redrawn exactly when the file opened and the copy starts inside the data (scroll mode, or a window starting at offset 0); otherwise an edit-mode copy would start before the window |
| StreamingHexData.HexData.Open | common/source/Data/HexData.cpp:44-70 | the file part of the corrected `Load`: scroll mode with no window, the view on the first byte, and the page showing the file from its start |
| StreamingHexData.HexData.Reset | common/source/Data/HexData.cpp:45-55 | the reset before opening: no file, the new page size and window length, cursor on byte 0 |
| StreamingHexData.HexData.ScrollValid | common/source/Data/HexData.cpp:235-258 | a scroll-mode view with the cursor inside the file satisfies the session invariant |
| StreamingHexData.HexData.WriteChanges | common/source/Data/HexData.cpp:85-96 | the change map is empty afterwards; with `doChanges` every pending byte is in the file and all other bytes are unchanged; without it the file is unchanged |
| StreamingHexData.HexData.ReadBit | common/source/Data/HexData.cpp:105-112 | true only inside the file with a bit index up to 7, and then it is that bit of the file byte; pending changes are not consulted |
| StreamingHexData.HexData.ReadBitFromEditBuffer | common/source/Data/HexData.cpp:115-120 | true only inside the edit window with a bit index up to 7, and then it is that bit of the window byte |
| StreamingHexData.HexData.WriteBit | common/source/Data/HexData.cpp:129-139 | outside the file or with a bit index above 7 nothing changes; otherwise only `changes[offs]` is set: the file byte with that bit replaced, all other bits from the file |
| StreamingHexData.HexData.WriteBitToEditBuffer | common/source/Data/HexData.cpp:142-150 | the bit reads back as written, the other seven bits and all other window bytes are kept, the change map records the new byte, and the page is refreshed; out of range nothing changes |
| StreamingHexData.HexData.PutEditByte | common/source/Data/HexData.cpp:145-149 | a window byte replaced, the change map updated at its absolute offset, and the page refreshed, keeping the session valid |
| StreamingHexData.HexData.SetWindowByte | common/source/Data/HexData.cpp:145-147 | a window byte replaced and recorded in the change map at its absolute offset |
| StreamingHexData.HexData.RefreshWindow | common/source/Data/HexData.cpp:438-447 | the page is recopied from the window, restoring the session invariant |
| StreamingHexData.HexData.ReadBits | common/source/Data/HexData.cpp:159-167 | the result is at most 0xF; inside the file it is the low nibble for `first`, the high nibble otherwise |
| StreamingHexData.HexData.WriteBits | common/source/Data/HexData.cpp:176-186 | a value above 0xF or an offset outside the file changes nothing; otherwise `changes[offs]` holds the value in the chosen nibble and the file's other nibble |
| StreamingHexData.HexData.ByteToString | common/source/Data/HexData.cpp:193-196 | "" past the page; otherwise the two hex digits of the displayed byte, which parse back to it |
| StreamingHexData.HexData.LoadEncoding | common/source/Data/HexData.cpp:203-228 | a missing or malformed file keeps the table; otherwise every entry is reset to "." and then set from the map's string under its key |
| StreamingHexData.HexData.UpdateDisplay | common/source/Data/HexData.cpp:422-448 | scroll mode shows the file page (the whole file when shorter than a page); the edit modes show the window from the first row shown |
| StreamingHexData.HexData.DisplayWindow | common/source/Data/HexData.cpp:438-447 | the edit-mode page is the window from the first row shown |
| StreamingHexData.HexData.FetchBuffer | common/source/Data/HexData.cpp:454-469 | the window is `editLen` file bytes from its start, fewer where the file ends; pending changes are not applied |
| StreamingHexData.HexData.SwitchToScrollMode | common/source/Data/HexData.cpp:473-478 | the window is emptied, the mode is scroll, the file page is shown, and the cursor's offset is kept |
| StreamingHexData.HexData.SwitchToEditMode | common/source/Data/HexData.cpp:485-496 | from scroll mode the window starts at the first row shown and holds `min(editLen, size - start)` file bytes, and the display still holds the file page; from change mode only the mode changes |
| StreamingHexData.HexData.EditFromScroll | common/source/Data/HexData.cpp:486-494 | entering edit mode from scroll mode reads the window from the first row shown |
| StreamingHexData.HexData.FetchWindow | common/source/Data/HexData.cpp:487-488 | the window starts at the first row shown and is read from the file |
| StreamingHexData.HexData.WindowEntered | common/source/Data/HexData.cpp:485-496 | the window read on entering edit mode covers the cursor and agrees with the page, so the session stays valid |
| StreamingHexData.HexData.PageShowsWindow | common/source/Data/HexData.cpp:485-496 | the file page still displayed agrees with the window freshly read from its first row |
| StreamingHexData.HexData.SwitchToChangeMode | common/source/Data/HexData.cpp:499-501 | edit mode becomes change mode, keeping the session valid |
| StreamingHexData.HexData.APress | common/source/Data/HexData.cpp:504-517 | A takes scroll to edit (window starting at the first row shown) and edit to change, and does nothing in change mode; the cursor's offset, the file and the change map are kept |
| StreamingHexData.HexData.BPress | common/source/Data/HexData.cpp:520-533 | B takes change to edit and edit to scroll (window cleared, file page shown), and does nothing in scroll mode; the cursor's offset, the file and the change map are kept |
| StreamingHexData.HexData.JumpOffs | common/source/Data/HexData.cpp:540-569 | an offset inside the file (scroll) or the window (edit, change) puts the cursor exactly on it, at the position `PagePosition` chooses, and shows that page; any other offset changes nothing |
| StreamingHexData.HexData.MoveCursor | common/source/Data/HexData.cpp:241-242 | a move within the page changes only the cursor |
| StreamingHexData.HexData.ShowPage | common/source/Data/HexData.cpp:244-256 | a move onto another page sets the row and the column and shows that page |
| StreamingHexData.HexData.ShowFilePage | common/source/Data/HexData.cpp:244-256 | the scroll-mode page move shows the file page at the new row |
| StreamingHexData.HexData.ShowWindowPage | common/source/Data/HexData.cpp:269-281 | the edit-mode page move shows the window page at the new row |
| StreamingHexData.HexData.WindowValid | common/source/Data/HexData.cpp:260-283 | an edit-mode view whose cursor is inside the window and whose page agrees with it is valid |
| StreamingHexData.HexData.Store | common/source/Data/HexData.cpp:288-295 | a change-mode step writes the new byte to the window, to the change map at the cursor's absolute offset, and to the page under the cursor |
| StreamingHexData.HexData.SetPageByte | common/source/Data/HexData.cpp:293 | only the page byte under the cursor changes, and the session stays valid |
| StreamingHexData.HexData.Down | common/source/Data/HexData.cpp:231-298 | scroll and edit: the offset grows by 0x10 exactly when that stays below the file or window end, otherwise nothing moves; a page change happens only from the last row and shows the next page; change: the byte under the cursor drops by 1 when above 0, mirrored to window, change map and page |
| StreamingHexData.HexData.DownMove | common/source/Data/HexData.cpp:235-283 | the scroll/edit part of DOWN: +0x10 when in range, the window and change map untouched |
| StreamingHexData.HexData.DownChange | common/source/Data/HexData.cpp:285-296 | the change-mode part of DOWN: −1 when the byte is above 0, else nothing |
| StreamingHexData.HexData.DownScroll | common/source/Data/HexData.cpp:235-258 | +0x10 when below the file's end, next page only from the last row |
| StreamingHexData.HexData.DownEdit | common/source/Data/HexData.cpp:260-283 | +0x10 when below the window's end, next page only from the last row |
| StreamingHexData.HexData.Up | common/source/Data/HexData.cpp:301-336 | scroll and edit: the offset drops by 0x10 exactly when that stays at or above the file or window start; a page change happens only from the first row; change: the byte under the cursor grows by 1 when below 0xFF |
| StreamingHexData.HexData.UpMove | common/source/Data/HexData.cpp:303-321 | the scroll/edit part of UP: −0x10 when in range |
| StreamingHexData.HexData.UpChange | common/source/Data/HexData.cpp:323-334 | the change-mode part of UP: +1 when the byte is below 0xFF, else nothing |
| StreamingHexData.HexData.UpScroll | common/source/Data/HexData.cpp:303-311 | −0x10 when at least 0x10 into the file, previous page only from the first row |
| StreamingHexData.HexData.UpEdit | common/source/Data/HexData.cpp:313-321 | −0x10 when at least 0x10 into the window, previous page only from the first row |
| StreamingHexData.HexData.Left | common/source/Data/HexData.cpp:339-376 | scroll and edit: the offset drops by 1 when above the file or window start; a page change happens only from column 0; change: the byte under the cursor drops by 0x10 when above 0xF |
| StreamingHexData.HexData.LeftMove | common/source/Data/HexData.cpp:341-361 | the scroll/edit part of LEFT: −1 when in range |
| StreamingHexData.HexData.LeftChange | common/source/Data/HexData.cpp:363-374 | the change-mode part of LEFT: −0x10 when the byte is above 0xF, else nothing |
| StreamingHexData.HexData.LeftScroll | common/source/Data/HexData.cpp:341-350 | −1 when not on the file's first byte |
| StreamingHexData.HexData.LeftEdit | common/source/Data/HexData.cpp:352-361 | −1 when not on the window's first byte |
| StreamingHexData.HexData.LeftEditRowAbove | common/source/Data/HexData.cpp:355-358 | from column 0 inside the window, the view moves up one row and the cursor to that row's last byte |
| StreamingHexData.HexData.Right | common/source/Data/HexData.cpp:379-416 | scroll and edit: the offset grows by 1 when below the file or window end; a page change happens only from the last column; change: the byte under the cursor grows by 0x10 when below 0xF0 |
| StreamingHexData.HexData.RightMove | common/source/Data/HexData.cpp:381-401 | the scroll/edit part of RIGHT: +1 when in range |
| StreamingHexData.HexData.RightChange | common/source/Data/HexData.cpp:403-414 | the change-mode part of RIGHT: +0x10 when the byte is below 0xF0, else nothing |
| StreamingHexData.HexData.RightScroll | common/source/Data/HexData.cpp:381-390 | +1 when not on the file's last byte |
| StreamingHexData.HexData.RightEdit | common/source/Data/HexData.cpp:392-401 | +1 when not on the window's last byte |
| MemoryHexData.Overwrite | common/include/Data/HexData.hpp:75-92 | the written run holds the new bytes; every byte outside it is unchanged; the size is kept |
| MemoryHexData.Available | common/include/Data/HexData.hpp:61-67 | the number of bytes the read loops visit: all `sizeof(T)` inside the buffer, none at or past its end |
| MemoryHexData.HexData.GetChar | common/include/Data/HexData.hpp:50-53 | "." at or past the end, else the encoding of the byte |
| MemoryHexData.HexData.Read | common/include/Data/HexData.hpp:56-72 | the read loop returns `ReadValue`: 0 for a bad buffer or a range past the end (as the uint32 guard computes it), else the bytes composed in the chosen byte order |
| MemoryHexData.HexData.Write | common/include/Data/HexData.hpp:75-92 | outside the guard nothing changes; otherwise exactly the `sizeof(T)` bytes at `offs` are replaced by the value's bytes in the chosen order, and `ChangesMade` is set |
| MemoryHexData.HexData.StoreBackwards | common/include/Data/HexData.hpp:78-82 | the backwards loop writes the big-endian bytes of the value at `offs` |
| MemoryHexData.HexData.StoreForwards | common/include/Data/HexData.hpp:84-88 | the forwards loop writes the little-endian bytes of the value at `offs` |
| MemoryHexData.StoreDown | common/include/Data/HexData.hpp:79-81 | one backwards step writes the next big-endian byte and shifts the value by 8 |
| MemoryHexData.ReadInRange | common/include/Data/HexData.hpp:56-72 | inside the buffer, the read value is the composition of the `sizeof(T)` bytes |
| MemoryHexData.ReadOutOfRange | common/include/Data/HexData.hpp:57 | a range past the end reads 0 |
| MemoryHexData.ReadBadFile | common/include/Data/HexData.hpp:57 | a buffer that is not good reads 0 |
| MemoryHexData.WriteThenRead | common/include/Data/HexData.hpp:56-92 | writing a value and reading it back with the same width and order gives the value truncated to the width |
| MemoryHexData.ReadThenWrite | common/include/Data/HexData.hpp:56-92 | writing back the value just read leaves the buffer unchanged |
| MemoryHexData.WriteGuardWrapsAround | common/include/Data/HexData.hpp:76 | at offset 0xFFFFFFFF the uint32 guard of a 2-byte write wraps and lets the write through, although the range is outside a 1-byte buffer |
| MemoryHexData.WriteGuardAgrees | common/include/Data/HexData.hpp:76 | when the range does not wrap, the guard as written accepts exactly the ranges inside the buffer |
| Actions.BackupFile | 3DS/source/Actions.cpp:249-258 | the backup path is the backup directory, then a '/' (added only when missing), then the file name |
| Actions.Storage.AptMainLoop | 3DS/source/Actions.cpp:66 | the system keeps running while its budget lasts; once it stops, it stays stopped |
| Actions.Storage.CopyChunks | 3DS/source/Actions.cpp:66-78 | each pass copies at most `BUFFER_SIZE` bytes; the temp file grows by the source bytes copied so far; the loop completes exactly when the system runs for enough passes |
| Actions.Storage.FillChunks | 3DS/source/Actions.cpp:87-97 | each pass appends at most `BUFFER_SIZE` bytes of the value; the loop completes exactly when the system runs for enough passes |
| Actions.Storage.Replace | 3DS/source/Actions.cpp:120-124 | the edited file is replaced by the temp file and the temp file is gone |
| Actions.Needed | 3DS/source/Actions.cpp:52 | the amount a free-space gate asks for is the uint32 value of `GetSize() * 2 ± Size`: below 2^32, congruent to the unbounded amount, and equal to it when that fits in 32 bits |
| Actions.NeededWraps | 3DS/source/Actions.cpp:148 | for a 2 GiB file the backup and save gates ask for nothing and a 0x10-byte insertion for 0x10 bytes; removing 0x30 bytes from a 0x10-byte file asks for 0xFFFFFFF0 |
| Actions.Storage.Backup | 3DS/source/Actions.cpp:222-299 | the first-write flag is set on every path; it returns false exactly on a first write with less free space than twice the file's size computed in uint32 (`Needed`), which the user does not pursue; a backup, when written, is a prefix of the file (the whole file when the copy completes) and is the only file added |
| Actions.Storage.Insert | 3DS/source/Actions.cpp:49-131 | with less free space than the uint32 amount `GetSize() * 2 + Size` (`Needed`, which wraps for files of 2 GiB or more) or without confirmation the file is unchanged; otherwise the new file is a prefix of old[0..offs) ++ fill ++ old[offs..), and all of it when every loop completes |
| Actions.Storage.InsertAfterBackup | 3DS/source/Actions.cpp:52-130 | the uint32 space check `Needed(2 * size + Size)`, the prompt and the splice of `Insert` after its backup, with completion when the system runs for all passes |
| Actions.Storage.BuildInserted | 3DS/source/Actions.cpp:57-116 | the temp file the three loops build is a prefix of the inserted file, and equals it when they complete |
| Actions.Storage.Remove | 3DS/source/Actions.cpp:145-214 | with less free space than the uint32 amount `GetSize() * 2 - Size` (`Needed`, which wraps below 0 and past 2^32) or without confirmation the file is unchanged; otherwise the new file is a prefix of old[0..offs) ++ old[offs+size..), and all of it when both loops complete |
| Actions.Storage.RemoveAfterBackup | 3DS/source/Actions.cpp:148-213 | the uint32 space check `Needed(2 * size - Size)`, the prompt and the splice of `Remove` after its backup |
| Actions.Storage.BuildRemoved | 3DS/source/Actions.cpp:153-200 | the temp file the two loops build is a prefix of the removed file, and equals it when they complete |
| Actions.Storage.SaveFileAs | 3DS/source/Actions.cpp:307-359 | succeeds exactly with a loaded file, a chosen directory and name, and free space of at least twice the file's size computed in uint32 (`Needed`); the copy becomes the edited file and is the old file when the loop completes; otherwise nothing changes |
| Actions.Storage.NewFile | 3DS/source/Actions.cpp:367-386 | succeeds exactly with free space and a created file, which then holds the single byte 0x00 and is the edited file |
| Actions.InsertPrefix | 3DS/source/Actions.cpp:58-124 | the bytes the three loops have written so far form a prefix of the inserted file, and the whole of it when every count is reached |
| Actions.RemovePrefix | 3DS/source/Actions.cpp:153-207 | the bytes the two loops have written so far form a prefix of the removed file, and the whole of it when every count is reached |
| Actions.Visited | 3DS/source/Actions.cpp:402-407 | the search visits min(size, mode size) indices, or fewer when B cancels it |
| Actions.Search | 3DS/source/Actions.cpp:398-441 | the results are the offsets `start + idx`, in order, of the visited indices where the sequence fits in the data searched and every byte matches |
| Actions.ScanAsWritten | 3DS/source/Actions.cpp:407-427 | the inner loop as written: the guard tests `Idx + Idx2` against the mode's size while the byte read is at `StartOffs + Idx + Idx2`; from offset 0 with the data's own size it never reads past the data |
| Actions.ScanAsWrittenAgrees | 3DS/source/Actions.cpp:407-427 | when the data reaches the mode's size beyond the start offset, the loop as written decides exactly `MatchesAt` on the data from the start offset |
| Actions.SearchReadsPastEnd | 3DS/source/Actions.cpp:407-427 | in a 16-byte file searched from offset 8, the guard passes at index 7 for the second sequence byte and offset 16 is read, past the end |
| Actions.MatchLoopResult | 3DS/source/Actions.cpp:409-428 | the inner loop's flag is true exactly when the sequence matches at the index |
| Actions.FoundIncreasing | 3DS/source/Actions.cpp:398-441 | the results are strictly increasing and lie in [start, start + visited) |
| Actions.FoundExactly | 3DS/source/Actions.cpp:409-432 | an index is reported exactly when the sequence matches there |
| Actions.FoundPrefix | 3DS/source/Actions.cpp:407 | the results of a cancelled search are a prefix of those of a longer one |
| Actions.EmptyPatternEverywhere | 3DS/source/Actions.cpp:409-432 | an empty sequence is reported at every visited index |
| ReminsertScreen.CopyAll | 3DS/source/Components/Navigator/Reminsert.cpp:103-118 | each pass copies at most 0x50000 bytes; the loop always completes, appending exactly the source range |
| ReminsertScreen.FillAll | 3DS/source/Components/Navigator/Reminsert.cpp:131-144 | each pass appends at most 0x50000 bytes of the value; the loop appends exactly `count` of them |
| ReminsertScreen.RemovedAsWritten | 3DS/source/Components/Navigator/Reminsert.cpp:181-249 | the remove as written runs exactly when its uint32 guard passes, and its result has `offset + |f| - Add32(offset, size)` bytes, where `f` is the old file |
| ReminsertScreen.RemoveAsWrittenAgrees | 3DS/source/Components/Navigator/Reminsert.cpp:181 | when `offset + size` does not wrap, the guard as written is the intended one and the result is the removed file |
| ReminsertScreen.RemoveGuardWraps | 3DS/source/Components/Navigator/Reminsert.cpp:181 | for a 0x20-byte file, offset 0x10 and size 0xFFFFFFF8 pass the guard as written; the result is longer than the file and repeats bytes |
| ReminsertScreen.Reminsert.Insert | 3DS/source/Components/Navigator/Reminsert.cpp:86-178 | with a loaded file, a positive size, an offset within the file and confirmation, the file becomes old[0..offset) ++ fill ++ old[offset..), `size` bytes longer; otherwise nothing changes |
| ReminsertScreen.Reminsert.Remove | 3DS/source/Components/Navigator/Reminsert.cpp:180-252 | with a loaded file, a positive size, a range within the file and confirmation, the file becomes old[0..offset) ++ old[offset+size..), `size` bytes shorter; otherwise nothing changes |
| ReminsertScreen.InsertThenRemove | 3DS/source/Components/Navigator/Reminsert.cpp:86-252 | removing what was just inserted passes the guard exactly when the size is positive, and restores the file |
| SearchMenu.Scrolled | 3DS/source/Components/Navigator/Search.cpp:328-329 | after the fix-up the selection is inside the visible list; a list position that already shows it is kept; otherwise it moves as little as possible |
| SearchMenu.FirstMatch | 3DS/source/Components/Navigator/Search.cpp:229-236 | the first byte number from `from` on whose glyph equals the one-byte string of the text byte, or none; no earlier number matches |
| SearchMenu.EncodedSpells | 3DS/source/Components/Navigator/Search.cpp:227-239 | when every byte of the UTF-8 text is a one-byte glyph, the sequence has one byte per text byte, each the smallest number whose glyph is that byte |
| SearchMenu.SpellsAppend | 3DS/source/Components/Navigator/Search.cpp:227-239 | pushing the smallest number whose glyph is the next text byte extends a sequence that spells the text so far into one that spells the longer text |
| SearchMenu.LastEncoded | 3DS/source/Components/Navigator/Search.cpp:227-239 | a last text byte that is a one-byte glyph appends the smallest number whose glyph it is |
| SearchMenu.EncodedShorter | 3DS/source/Components/Navigator/Search.cpp:238 | unmatched text bytes are dropped, so the sequence is never longer than the text |
| SearchMenu.EncodedOneByteGlyphs | 3DS/source/Components/Navigator/Search.cpp:230 | every byte put into the sequence is the number of a glyph of exactly one byte |
| SearchMenu.AccentedTextDropped | 3DS/source/Components/Navigator/Search.cpp:227-239 | with "é" (bytes C3 A9) as a glyph, typing "é" matches no entry byte by byte and gives an empty sequence |
| SearchMenu.Search.SyncSettings | 3DS/source/Components/Navigator/Search.cpp:116-127 | with a file loaded, the offset ends inside the file (scroll) or window (edit), reset to its start when it was outside, and the size is kept when the range fits and zeroed otherwise |
| SearchMenu.Search.RemoveSequence | 3DS/source/Components/Navigator/Search.cpp:182-197 | a valid index removes exactly that element and keeps the order; the selection is clamped to the last index while the list is non-empty; the list position follows the selection |
| SearchMenu.Search.ClearSequence | 3DS/source/Components/Navigator/Search.cpp:209-214 | with a file loaded the list is emptied and the selection is 0 |
| SearchMenu.Search.EnterChar | 3DS/source/Components/Navigator/Search.cpp:216-247 | typed text, taken as the bytes of its UTF-8 string, replaces the list with its byte-by-byte encoding; empty text changes nothing; a picked character is appended |
| SearchMenu.Search.ScrollSequences | 3DS/source/Components/Navigator/Search.cpp:328-329 | the sequence list position after the fix-up shows the selection |
| SearchMenu.Search.ScrollResults | 3DS/source/Components/Navigator/Search.cpp:419-420 | the result list position after the fix-up shows the selection |
| SearchMenu.Search.SearchAction | 3DS/source/Components/Navigator/Search.cpp:352-365 | with a file and a non-empty sequence the results are replaced by the corrected search over the mode's data from the start offset on; the results screen opens at the top only when results exist |
| SearchMenu.Search.JumpToSelected | 3DS/source/Components/Navigator/Search.cpp:368-375 | a selected result inside the file and the current range puts the cursor on it; anything else changes nothing |
| SearchMenu.EncodeText | 3DS/source/Components/Navigator/Search.cpp:227-239 | the nested loops over the text's bytes and the 256 glyphs compute `Encoded` of the text |
| Navigation.TruncDiv | source/Components/Utils/Utils.cpp:79 | C++ integer division, truncating toward zero for negative dividends |
| Navigation.LabelPositionAsWritten | source/Components/Utils/Utils.cpp:73-79 | label jump as written: offsets below 0x10 go to row 0, column `offs`; others to column `0xC0 + offs % 0x10` |
| Navigation.LabelJumpMisplaced | source/Components/Utils/Utils.cpp:73-79 | a label at 0x15 is sent to row −10, column 0xC5, which addresses 0x25 |
| Navigation.LabelJumpOneRowOff | source/Components/Utils/Utils.cpp:73-79 | for offsets 0x10..0xCF not on a row start, the jump as written lands one row (0x10 bytes) past the label |
| Navigation.LabelJumpNegativeRow | source/Components/Utils/Utils.cpp:73-79 | for offsets 0x10..0xB0 the row as written is negative |
| Navigation.EditorCursor.JumpTo | 3DS/source/Components/Navigator/Navigation.cpp:88-103 | with no file or an empty one nothing moves; re-entering the current offset moves nothing; otherwise the cursor addresses the entered offset afterwards, on row 0 at column `entered` below 0xD0 and on the last row (columns 0xC0..0xCF) above |
| Navigation.EditorCursor.Labels | source/Components/Utils/Utils.cpp:63-84 | a chosen label inside the loaded file puts the cursor exactly on it, using the page-size threshold; otherwise nothing moves |
| HexEditorView.GetNums | 3DS/include/Components/HexEditor.hpp:44-53 | between 1 and 16 groups per row |
| HexEditorView.BytesPerGroup | 3DS/include/Components/HexEditor.hpp:55-64 | between 1 and 16 bytes per group |
| HexEditorView.GroupsCoverRow | 3DS/include/Components/HexEditor.hpp:44-64 | groups per row times bytes per group is 16 for every group setting |
| HexEditorView.GroupSizes | 3DS/include/Components/HexEditor.hpp:55-64 | group `g` holds 2^g bytes for g up to 4; any other setting behaves like 0 |
| HexEditorView.TopRows | 3DS/include/Components/HexEditor.hpp:66-75 | the first byte of group `i` is `i` times the group size; those starts increase and stay below 16 |
| HexEditorView.ColumnGroup | 3DS/include/Components/HexEditor.hpp:44-75 | every column of a row lies in exactly the group `column / size` |
| HexEditorView.ModeRoundTrips | common/source/Data/HexData.cpp:504-533 | B undoes A outside change mode, and A undoes B outside scroll mode |
| HexEditorView.NextGroup | 3DS/source/Components/HexEditor.cpp:194-197 | SELECT moves to the next group setting and stays within 0..4 |
| HexEditorView.GroupCycle | 3DS/source/Components/HexEditor.cpp:194-197 | five SELECT presses return to the starting setting, and no fewer do |
| HexEditorView.ViewAfter | 3DS/source/Components/HexEditor.cpp:186-192 | R and L step the view within 0..2 |
| HexEditorView.ViewKeys | 3DS/source/Components/HexEditor.cpp:186-197 | R/L and SELECT update the configuration as `ViewAfter` and `NextGroup` say |
| HexEditorView.Handler | 3DS/source/Components/HexEditor.cpp:159-198 | keys reach the session only with a loaded, good, non-empty file; the mode follows B then A; the commit prompt opens exactly on B in edit mode with pending changes when `Backup` succeeds for the edited file, and then empties the change map and, on commit, writes it; without a commit the file is kept; R/L/SELECT always apply |
| HexEditorView.SessionKeys | 3DS/source/Components/HexEditor.cpp:161-183 | the cursor keys, then B, then A; the mode follows `ModeAfterB` and `ModeAfterA`; the prompt opens exactly on B in edit mode with pending changes and a successful backup of the edited file; without a commit the file is kept |
| HexEditorView.BKey | 3DS/source/Components/HexEditor.cpp:167-180 | B: the prompt exactly when the commit condition and the backup hold, then `BPress` regardless; a declined or absent commit keeps the file |
| HexEditorView.BCommit | 3DS/source/Components/HexEditor.cpp:168-177 | the prompt opens exactly in edit mode with pending changes when `Backup` returns true (`BackupSucceeds`, sized by the edited file); then the change map is emptied and, on commit, written to the file; a declined commit or no prompt keeps the file |
| HexEditorView.Moves | 3DS/source/Components/HexEditor.cpp:161-164 | the four cursor keys in order keep the session valid, the mode and the file |
| HexEditorView.Move | 3DS/source/Components/HexEditor.cpp:161-164 | one cursor key: the session stays valid and, outside change mode, no change is recorded |
| ScriptApi.ToU32 | DS/arm9/source/Data/LUAHelper.cpp:50-51 | a Lua integer converted to uint32: unchanged in range, wrapped by 2^32 otherwise |
| ScriptApi.ToU8 | DS/arm9/source/Data/LUAHelper.cpp:133 | a Lua integer converted to uint8: below 0x100, unchanged in range |
| ScriptApi.CheckU32 | DS/arm9/source/Data/LUAHelper.cpp:50-51 | an argument is accepted exactly when it is an integer or a decimal numeral string, and then converted to uint32; an integer argument gives its own value |
| ScriptApi.CheckString | DS/arm9/source/Data/LUAHelper.cpp:52 | an argument is accepted exactly when it is a string or an integer; a string is itself and an integer is written in decimal |
| ScriptApi.DigitsDenote | DS/arm9/source/Data/LUAHelper.cpp:50-52 | the decimal digits written for a number are non-empty digits that denote the number |
| ScriptApi.DecimalRoundTrip | DS/arm9/source/Data/LUAHelper.cpp:50-52 | an integer written as a string converts back to the same integer |
| ScriptApi.NumeralArguments | DS/arm9/source/Data/LUAHelper.cpp:50-52 | an integer argument given as its decimal string is accepted as the same integer, and an integer given where a string is expected becomes its digits |
| ScriptApi.TypeOf | DS/arm9/source/Data/LUAHelper.cpp:56-113 | "u8"/"uint8_t", "u16"/"uint16_t" and "u32"/"uint32_t" name the three widths, and nothing else names one |
| ScriptApi.ReachesFits | DS/arm9/source/Data/LUAHelper.cpp:57-95 | when the range does not wrap, the uint32 bound check passes exactly when the range fits the file as stated |
| ScriptApi.ReadRequest | DS/arm9/source/Data/LUAHelper.cpp:45-116 | a wrong argument count or an unknown type is an error with no access; an accepted read passes the width's bound check as computed in uint32, and defaults to u8, little endian |
| ScriptApi.ReadWithinFile | DS/arm9/source/Data/LUAHelper.cpp:57-95 | an accepted read whose range does not wrap lies within the file |
| ScriptApi.ReadBounds | DS/arm9/source/Data/LUAHelper.cpp:57-95 | a read that does not wrap is accepted exactly when it fits, and otherwise fails as out of bounds |
| ScriptApi.ReadToEndOfFile | DS/arm9/source/Data/LUAHelper.cpp:57-76 | a u8 read ending exactly at the end of the file is rejected while the u16 read of the same bytes is accepted |
| ScriptApi.ReadEmptyAtStart | DS/arm9/source/Data/LUAHelper.cpp:76 | a u16 read of zero elements at offset 0 is rejected, because `0 + 0*2 - 1` wraps |
| ScriptApi.ReadRangeWraps | DS/arm9/source/Data/LUAHelper.cpp:76 | a u16 read at offset 0xFFFFFFFF of a 16-byte file passes the check, because the bound wraps |
| ScriptApi.Read | DS/arm9/source/Data/LUAHelper.cpp:45-116 | a rejected read returns its error; without stack space it fails as out of space; otherwise it returns a table mapping indices 0.. to the values read |
| ScriptApi.Swap16Involution | DS/arm9/source/Data/LUAHelper.cpp:215 | the u16 big-endian conversion stays in 16 bits and undoes itself |
| ScriptApi.Swap32Involution | DS/arm9/source/Data/LUAHelper.cpp:239 | the u32 big-endian conversion undoes itself |
| ScriptApi.SwapsReverseBytes | DS/arm9/source/Data/LUAHelper.cpp:215-239 | the conversions swap the two bytes, and reverse the four bytes |
| ScriptApi.Collected | DS/arm9/source/Data/LUAHelper.cpp:186-248 | one truncated, possibly byte-swapped element per table value, in order |
| ScriptApi.BigEndianLayout | DS/arm9/source/Data/LUAHelper.cpp:215-239 | storing a swapped element little-endian lays out the same bytes as the element stored big-endian |
| ScriptApi.WriteRequest | DS/arm9/source/Data/LUAHelper.cpp:172-257 | a wrong argument count or unknown type is an error with no access; an accepted write passes the width's bound check over the collected count and writes the collected values; a table too large to collect fails before the bound check |
| ScriptApi.WriteWithinFile | DS/arm9/source/Data/LUAHelper.cpp:203-251 | an accepted write whose range does not wrap lies within the file |
| ScriptApi.Collect | DS/arm9/source/Data/LUAHelper.cpp:186-248 | collecting fails when the values do not fit the capacity, and otherwise gives `Collected` |
| ScriptApi.Write | DS/arm9/source/Data/LUAHelper.cpp:172-257 | the write performed is the one `WriteRequest` describes |
| ScriptApi.ReadBit | DS/arm9/source/Data/LUAHelper.cpp:128-138 | an offset outside the file fails before the bit index is looked at; then an index above 7 (after uint8 truncation) fails; otherwise the bit is read |
| ScriptApi.ReadBits | DS/arm9/source/Data/LUAHelper.cpp:150-158 | accepted exactly inside the file, reading the nibble chosen by the flag |
| ScriptApi.WriteBit | DS/arm9/source/Data/LUAHelper.cpp:270-281 | the same guards as `ReadBit`, in the same order, then the bit is set as the flag says |
| ScriptApi.WriteBits | DS/arm9/source/Data/LUAHelper.cpp:294-304 | accepted exactly inside the file, writing the uint8-truncated value into the chosen nibble |
| ScriptApi.BitGuardsOrder | DS/arm9/source/Data/LUAHelper.cpp:128-138 | the offset check comes first; index 8 is rejected; index 0x107 truncates to 7 and is accepted |
| ScriptApi.DumpBytes | DS/arm9/source/Data/LUAHelper.cpp:428-452 | rejects `offs + size >= file size` as computed in uint32; an accepted dump whose file cannot be created writes nothing |
| ScriptApi.InjectFile | DS/arm9/source/Data/LUAHelper.cpp:464-503 | a missing source file is an error; an accepted injection's range passes the uint32 bound check and carries the source's bytes |
| ScriptApi.FileRangesWithinFile | DS/arm9/source/Data/LUAHelper.cpp:433-482 | when `offs + n` does not wrap, the uint32 check is the plain bound |
| ScriptApi.FileSize | DS/arm9/source/Data/LUAHelper.cpp:530-552 | no argument gives the open file's size; a path gives that file's size, or −1 when it does not exist; more arguments are an error |

## Left out

- Rendering and input polling are not modelled: every `Draw*` function, the list selectors, and the settings, converter and compare screens. Key states, prompt answers, keyboard and hex-pad input, and the system's run state are parameters.
- File-system calls (`fopen`, `fseek`, `fread`, `fwrite`, `remove`, `rename`, `access`) are not modelled as I/O. Files are byte sequences in a map from paths, and free space is a parameter. Short reads and write errors are not modelled.
- `aptMainLoop()` is a run budget `aptRuns`: the system keeps running for that many more loop tests. Any interruption pattern is one budget.
- Parsing the encoding JSON is not modelled: `LoadEncoding` takes the parsed document, or its absence, or a parse failure, as a value.
- The Lua virtual machine is not modelled. Each script call takes its arguments as values and returns the access it would perform or the error it raises. `ReadScript`/`WriteScript` and the stack checks are not part of this model; the values read and the stack check's outcome are parameters.
- The analyzer, `EditBytes`, the label loader, the themes and `UniversalEdit.cpp` are not part of this model.
- File sizes and offsets in the streaming session, the splices and the search are unbounded naturals: files of 4 GiB or more are not modelled. uint32 wrap-around is modelled where it changes a decision: the remove guard, the `Write<T>` and `Read<T>` guards, the Lua bound checks and the free-space formulas.
- Actions.Search: `StartOffs + Idx` is not reduced modulo 2^32, and the memory failure that ends the search early is not modelled. The bytes searched are passed as one sequence, the data the mode reads from the start offset on; `GetCurModeSize` and `EditStart` are not part of this model, so the mode's size is a parameter.
- ScriptApi.CheckU32: a string is accepted as an integer only as an optional sign followed by decimal digits. Lua also converts numerals with surrounding spaces, hexadecimal numerals, and fractional or exponent numerals with an integral value; those forms, and floating-point arguments, are not modelled.
- ScriptApi.CheckString: integers are converted to their decimal digits; floating-point arguments, which Lua also converts, are not modelled.
- ScriptApi.ToInteger: takes the same integers and numerals as `CheckU32`; floating-point values in a table are not modelled.
- MemoryHexData.HexData: `GetSize` is the length of `fileData` itself, with no member of its own. `Load`, `InsertBytes`, `EraseBytes` and `WriteBack` are declared in the header without a body in this source and are not modelled.
- StreamingHexData.EditCopy: states only the length of the copied page. Its contents are stated through `CopyShows` and the session invariant.
- StreamingHexData.HexData.JumpOffs: requires, in the edit modes, that the page chosen starts inside the window. The source does not check this; Finding 4 shows what its unchecked copy then does.
- StreamingHexData.HexData.UpdateDisplay: requires, in the edit modes, that the first row shown lies inside the window. This is the corrected behaviour of Finding 4.
- SearchMenu.Search.JumpToSelected: carries the same edit-mode requirement as `JumpOffs`, which it calls.
- HexEditorView.Move: states only that the session stays valid and that no change is recorded outside change mode. The effect of each key is stated by `HexData.Down`, `Up`, `Left` and `Right`.
- HexEditorView.Moves: states only the invariant, the mode and the file, for the same reason.
- SearchMenu.Search.EnterChar: the text is taken as the bytes of the keyboard's UTF-8 string and glyph strings as their bytes, one character per byte, as the source compares them.
- StreamingHexData.HexData.ReadBit, WriteBit, ReadBits, WriteBits: the `!FileHandler` test is not modelled. A failed open leaves size 0, so the offset test already refuses every access.
- StreamingHexData.HexData: `EditStart()` has no body in these sources and is not part of this model. The window's start is read as `EditStartOffs` wherever the source calls it, as in `DownEdit`, the change steps and `SetWindowByte`.

## Findings

| source | as written | input that shows it | evidently intended | confidence | as-written member | corrected member |
|---|---|---|---|---|---|---|
| source/Components/Utils/Utils.cpp:73-79 | the label jump treats every offset of 0x10 or more as lying beyond the first page, using the row size where the page size (0xD0) is meant | a label at 0x15 gives row −10, column 0xC5, which addresses 0x25 | offsets below the page size stay on row 0, as in Navigation.cpp:93-99, so the cursor lands on the label | not executed | Navigation.LabelJumpMisplaced | Navigation.EditorCursor.Labels |
| 3DS/source/Components/Navigator/Reminsert.cpp:181 | the remove guard computes `Offset + Size` in uint32, so a large size wraps below the file size | a 0x20-byte file with offset 0x10 and size 0xFFFFFFF8 passes the guard; the result is 0x28 bytes and repeats bytes 0x08..0x0F | the range must lie inside the file | not executed | ReminsertScreen.RemoveGuardWraps | ReminsertScreen.Reminsert.Remove |
| common/include/Data/HexData.hpp:76 | the `Write<T>` guard computes `Offs + sizeof(T) - 1` in uint32, so an offset near 2^32 wraps and passes | a 1-byte buffer and a 2-byte write at 0xFFFFFFFF pass the guard | the write happens only when all `sizeof(T)` bytes are inside the buffer | not executed | MemoryHexData.WriteGuardWrapsAround | MemoryHexData.HexData.Write |
| common/source/Data/HexData.cpp:441-446 | the edit-mode page is copied from `_EditData + OffsIdx*16 - EditStartOffs` for a full page, with no bound check | a 0xD5-byte edit window with a 0xD0-byte page: DOWN from column 0xC0 moves the page one row on, and the copy reads past the window | the copy stops at the end of the window | not executed | StreamingHexData.EditPageOverrunsWindow | StreamingHexData.EditCopy |
| 3DS/source/Actions.cpp:407-427 | the search's inner loop tests `Idx + Idx2` against the mode's size, but reads the byte at `StartOffs + Idx + Idx2` | a 16-byte file searched from offset 8 with size 8 (values the search screen keeps) for two bytes: at index 7 the second comparison reads offset 16, past the end of the file | a position matches only when the whole sequence lies inside the data from the start offset on | not executed | Actions.SearchReadsPastEnd | SearchMenu.Search.SearchAction |
| common/source/Data/HexData.cpp:44-73 | `Load` keeps the mode, the edit window and its start; in an edit mode the redisplay copies from `_EditData + 0 - EditStartOffs` | an insert or remove in edit mode with the window starting at 0x100 (Reminsert.cpp:175, 249 reload the file): the page copy starts 0x100 bytes before the window | a reload leaves the edit modes, since the window belongs to the file before the reload | not executed | StreamingHexData.HexData.LoadAsWritten | StreamingHexData.HexData.Load |
