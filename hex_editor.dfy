/**
 * The hex editor view: how a row of sixteen bytes is split into groups for
 * the column header, and the key handler that drives the editing session,
 * the commit prompt and the view settings.
 */
module HexEditorView {
  import opened Bytes
  import opened Layout
  import opened Actions
  import opened StreamingHexData

  // ------------------------------------------------------------ byte groups

  /** How many groups a row of 16 bytes shows; a group number above 4 counts as 0. */
  function GetNums(group: nat): (n: nat)
    ensures 1 <= n <= 16
  {
    if group == 1 then 8
    else if group == 2 then 4
    else if group == 3 then 2
    else if group == 4 then 1
    else 16
  }

  /** How many bytes one group holds; a group number above 4 counts as 0. */
  function BytesPerGroup(group: nat): (n: nat)
    ensures 1 <= n <= 16
  {
    if group == 1 then 2
    else if group == 2 then 4
    else if group == 3 then 8
    else if group == 4 then 16
    else 1
  }

  /** The column (0..15) heading group `idx`, computed in `uint8_t`. */
  function GetTopRow(group: nat, idx: nat): nat
    requires idx < 256
  {
    (idx * BytesPerGroup(group)) % 256
  }

  /** Two to the power `g`. */
  function Pow2(g: nat): nat
  {
    if g == 0 then 1 else 2 * Pow2(g - 1)
  }

  /** The groups of a row cover its sixteen bytes exactly. */
  lemma GroupsCoverRow(group: nat)
    ensures GetNums(group) * BytesPerGroup(group) == BYTES_PER_OFFS
  {
  }

  /** A group holds `2^group` bytes for the group numbers 0..4; any other number is laid out as 0. */
  lemma GroupSizes(group: nat)
    ensures group <= 4 ==> BytesPerGroup(group) == Pow2(group)
    ensures group > 4 ==> BytesPerGroup(group) == BytesPerGroup(0) && GetNums(group) == GetNums(0)
  {
    if group <= 4 {
      assert Pow2(1) == 2 && Pow2(2) == 4 && Pow2(3) == 8 && Pow2(4) == 16;
    }
  }

  /**
   * The header columns of a row's groups: group `idx` starts at column
   * `idx * BytesPerGroup`, every start is a column of the row, and the
   * starts increase.
   */
  lemma TopRows(group: nat, i: nat, j: nat)
    requires i < j < GetNums(group)
    ensures GetTopRow(group, i) == i * BytesPerGroup(group)
    ensures GetTopRow(group, i) < GetTopRow(group, j) < BYTES_PER_OFFS
  {
    GroupsCoverRow(group);
    assert j * BytesPerGroup(group) < BYTES_PER_OFFS by {
      assert j + 1 <= GetNums(group);
      assert (j + 1) * BytesPerGroup(group) <= GetNums(group) * BytesPerGroup(group);
    }
  }

  /** Every column of a row lies in exactly one group: the one the header highlights for it. */
  lemma ColumnGroup(group: nat, column: nat)
    requires column < BYTES_PER_OFFS
    ensures column / BytesPerGroup(group) < GetNums(group)
    ensures var t := GetTopRow(group, column / BytesPerGroup(group));
      t <= column < t + BytesPerGroup(group)
  {
    var b := BytesPerGroup(group);
    var q := column / b;
    if group == 1 {
      assert b == 2 && q * 2 <= column < q * 2 + 2;
    } else if group == 2 {
      assert b == 4 && q * 4 <= column < q * 4 + 4;
    } else if group == 3 {
      assert b == 8 && q * 8 <= column < q * 8 + 8;
    } else if group == 4 {
      assert b == 16 && q == 0;
    } else {
      assert b == 1 && q == column;
    }
    assert q * b < 256;
    assert GetTopRow(group, q) == q * b;
  }

  // ------------------------------------------------------------- key handler

  /** The keys seen in one frame: the four directions (repeating), A, B, R, L and SELECT. */
  datatype Keys = Keys(up: bool, down: bool, left: bool, right: bool, a: bool, b: bool, r: bool, l: bool, select: bool)

  /** The mode after B: Change returns to Edit, Edit to Scroll. */
  function ModeAfterB(m: EditMode): EditMode
  {
    match m
    case Scroll => Scroll
    case Edit => Scroll
    case Change => Edit
  }

  /** The mode after A: Scroll enters Edit, Edit enters Change. */
  function ModeAfterA(m: EditMode): EditMode
  {
    match m
    case Scroll => Edit
    case Edit => Change
    case Change => Change
  }

  /** B undoes A except in Change mode, and A undoes B except in Scroll mode. */
  lemma ModeRoundTrips(m: EditMode)
    ensures m != Scroll ==> ModeAfterA(ModeAfterB(m)) == m
    ensures m != Change ==> ModeAfterB(ModeAfterA(m)) == m
  {
  }

  /** The next byte grouping on SELECT: 0, 1, 2, 3, 4, then back to 0. */
  function NextGroup(g: nat): (n: nat)
    ensures n <= 4
    ensures g < 4 ==> n == g + 1
  {
    if g < 4 then g + 1 else 0
  }

  /** SELECT pressed five times from any grouping 0..4 comes back to it. */
  lemma GroupCycle(g: nat)
    requires g <= 4
    ensures NextGroup(NextGroup(NextGroup(NextGroup(NextGroup(g))))) == g
    ensures forall k :: 1 <= k < 5 ==> Cycled(g, k) != g
  {
    assert Cycled(g, 4) == NextGroup(Cycled(g, 3)) && Cycled(g, 3) == NextGroup(Cycled(g, 2));
  }

  /** The grouping after `k` presses of SELECT. */
  function Cycled(g: nat, k: nat): nat
  {
    if k == 0 then g else NextGroup(Cycled(g, k - 1))
  }

  /** The view after R (one step to the right, at most 2) and L (one step to the left, at least 0). */
  function ViewAfter(view: nat, r: bool, l: bool): (v: nat)
    ensures view <= 2 ==> v <= 2
    ensures r && !l && view < 2 ==> v == view + 1
    ensures l && !r && 0 < view <= 2 ==> v == view - 1
  {
    var v1 := if r && view < 2 then view + 1 else view;
    if l && v1 > 0 then v1 - 1 else v1
  }

  /** The view settings the handler changes. */
  class Config {
    var byteGroup: nat
    var defaultHexView: nat

    constructor (byteGroup: nat, defaultHexView: nat)
      ensures this.byteGroup == byteGroup && this.defaultHexView == defaultHexView
    {
      this.byteGroup := byteGroup;
      this.defaultHexView := defaultHexView;
    }
  }

  /** The view-setting keys: R and L step the view, SELECT cycles the grouping. */
  method ViewKeys(cfg: Config, keys: Keys)
    modifies cfg
    ensures cfg.defaultHexView == ViewAfter(old(cfg.defaultHexView), keys.r, keys.l)
    ensures cfg.byteGroup == if keys.select then NextGroup(old(cfg.byteGroup)) else old(cfg.byteGroup)
  {
    if keys.r {
      if cfg.defaultHexView < 2 {
        cfg.defaultHexView := cfg.defaultHexView + 1;
      }
    }
    if keys.l {
      if cfg.defaultHexView > 0 {
        cfg.defaultHexView := cfg.defaultHexView - 1;
      }
    }
    if keys.select {
      cfg.byteGroup := NextGroup(cfg.byteGroup);
    }
  }

  /**
   * One frame of the hex editor. With a file loaded, good and non-empty the
   * session's keys are handled; the view keys work regardless.
   * `prompted` tells whether the commit prompt was shown.
   */
  method Handler(h: HexData, st: Storage, cfg: Config, keys: Keys, loaded: bool,
                 ans: BackupAnswers, freeSpace: nat, commit: bool) returns (prompted: bool)
    requires h.Valid() && |st.backupPath| > 0 && st.current == h.file
    modifies h`offsIdx, h`cursorPos, h`displayData, h`editData, h`changes, h`file, h`editStartOffs, h`mode
    modifies st`firstWrite, st`files, st`aptRuns, cfg
    ensures h.Valid()
    ensures !(loaded && h.fileGood && h.fileSize > 0) ==>
      && !prompted && h.mode == old(h.mode) && h.offsIdx == old(h.offsIdx) && h.cursorPos == old(h.cursorPos)
      && h.file == old(h.file) && h.changes == old(h.changes)
    ensures loaded && h.fileGood && h.fileSize > 0 ==>
      var m := if keys.b then ModeAfterB(old(h.mode)) else old(h.mode);
      h.mode == if keys.a then ModeAfterA(m) else m
    ensures prompted <==>
      && loaded && h.fileGood && h.fileSize > 0 && keys.b
      && old(h.mode) == Edit && old(h.changes) != map[] && BackupSucceeds(old(st.firstWrite), ans, freeSpace, |old(h.file)|)
    ensures prompted ==> h.changes == map[] && (commit ==> IsCommitted(old(h.file), old(h.changes), h.file))
    ensures !(prompted && commit) ==> h.file == old(h.file)
    ensures cfg.defaultHexView == ViewAfter(old(cfg.defaultHexView), keys.r, keys.l)
    ensures cfg.byteGroup == if keys.select then NextGroup(old(cfg.byteGroup)) else old(cfg.byteGroup)
  {
    prompted := false;
    if loaded && h.fileGood && h.fileSize > 0 {
      prompted := SessionKeys(h, st, keys, ans, freeSpace, commit);
    }
    ViewKeys(cfg, keys);
  }

  /**
   * The session's keys: the directions move the session; B in Edit mode
   * with pending changes first takes the backup and, only when that
   * succeeds, shows the commit prompt whose answer `commit` writes or
   * discards the changes; B then leaves the mode and A enters the next one.
   */
  method SessionKeys(h: HexData, st: Storage, keys: Keys, ans: BackupAnswers, freeSpace: nat, commit: bool) returns (prompted: bool)
    requires h.Valid() && h.fileSize > 0 && |st.backupPath| > 0 && st.current == h.file
    modifies h`offsIdx, h`cursorPos, h`displayData, h`editData, h`changes, h`file, h`editStartOffs, h`mode
    modifies st`firstWrite, st`files, st`aptRuns
    ensures h.Valid()
    ensures var m := if keys.b then ModeAfterB(old(h.mode)) else old(h.mode);
      h.mode == if keys.a then ModeAfterA(m) else m
    ensures prompted <==> keys.b && old(h.mode) == Edit && old(h.changes) != map[] && BackupSucceeds(old(st.firstWrite), ans, freeSpace, |old(h.file)|)
    ensures prompted ==> h.changes == map[] && (commit ==> IsCommitted(old(h.file), old(h.changes), h.file))
    ensures !(prompted && commit) ==> h.file == old(h.file)
  {
    prompted := false;
    Moves(h, keys);
    if keys.b {
      prompted := BKey(h, st, ans, freeSpace, commit);
    }
    if keys.a {
      h.APress();
    }
  }

  /** The B key: the commit step, then leaving the mode. */
  method BKey(h: HexData, st: Storage, ans: BackupAnswers, freeSpace: nat, commit: bool) returns (prompted: bool)
    requires h.Valid() && |st.backupPath| > 0 && st.current == h.file
    modifies h`file, h`changes, h`editStartOffs, h`editData, h`displayData, h`mode
    modifies st`firstWrite, st`files, st`aptRuns
    ensures h.Valid() && h.mode == ModeAfterB(old(h.mode))
    ensures prompted <==> old(h.mode) == Edit && old(h.changes) != map[] && BackupSucceeds(old(st.firstWrite), ans, freeSpace, |old(h.file)|)
    ensures prompted ==> h.changes == map[] && (commit ==> IsCommitted(old(h.file), old(h.changes), h.file))
    ensures prompted && !commit ==> h.file == old(h.file)
    ensures !prompted ==> h.file == old(h.file)
  {
    prompted := BCommit(h, st, ans, freeSpace, commit);
    h.BPress();
  }

  /** The four direction keys. */
  datatype Direction = Up | Down | Left | Right

  /** The direction keys of one frame, in the order up, down, left, right. */
  method Moves(h: HexData, keys: Keys)
    requires h.Valid() && h.fileSize > 0
    modifies h`offsIdx, h`cursorPos, h`displayData, h`editData, h`changes
    ensures h.Valid() && h.mode == old(h.mode) && h.file == old(h.file)
    ensures old(h.mode) != Change ==> h.changes == old(h.changes)
  {
    if keys.up {
      Move(h, Up);
    }
    if keys.down {
      Move(h, Down);
    }
    if keys.left {
      Move(h, Left);
    }
    if keys.right {
      Move(h, Right);
    }
  }

  /** One direction key: the session's move; outside Change mode the pending changes stay as they are. */
  method Move(h: HexData, d: Direction)
    requires h.Valid() && h.fileSize > 0
    modifies h`offsIdx, h`cursorPos, h`displayData, h`editData, h`changes
    ensures h.Valid()
    ensures old(h.mode) != Change ==> h.changes == old(h.changes)
  {
    match d
    case Up => h.Up();
    case Down => h.Down();
    case Left => h.Left();
    case Right => h.Right();
  }

  /**
   * The commit step of B: in Edit mode with pending changes, the backup
   * runs and, when it succeeds, the prompt's answer is applied.
   */
  method BCommit(h: HexData, st: Storage, ans: BackupAnswers, freeSpace: nat, commit: bool) returns (prompted: bool)
    requires h.Valid() && |st.backupPath| > 0 && st.current == h.file
    modifies h`file, h`changes, st`firstWrite, st`files, st`aptRuns
    ensures h.Valid()
    ensures prompted <==> old(h.mode) == Edit && old(h.changes) != map[] && BackupSucceeds(old(st.firstWrite), ans, freeSpace, |old(h.file)|)
    ensures prompted ==> h.changes == map[] && (commit ==> IsCommitted(old(h.file), old(h.changes), h.file))
    ensures prompted && !commit ==> h.file == old(h.file)
    ensures !prompted ==> h.file == old(h.file) && h.changes == old(h.changes)
    ensures h.mode == Edit && old(h.changes) != map[] ==> st.firstWrite
  {
    prompted := false;
    if h.mode == Edit && h.changes != map[] {
      var ok := st.Backup(ans, freeSpace);
      if ok {
        h.WriteChanges(commit);
        prompted := true;
      }
    }
  }
}
