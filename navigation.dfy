/**
 * Jumping the hex view to an offset from the navigator ("Jump to") and from a
 * label file ("Labels"). Both update the editor's static row index and cursor
 * for a page of `0xD0` bytes.
 */
module Navigation {
  import opened Layout

  /** The bytes one page of the editor shows. */
  const BYTES_PER_LIST: nat := 0xD0

  /** C's `/` on `int`: the quotient is truncated toward zero. */
  function TruncDiv(a: int, b: int): (q: int)
    requires b > 0
    ensures a >= 0 ==> q == a / b
    ensures a < 0 ==> q == -((-a) / b)
  {
    if a >= 0 then a / b else -((-a) / b)
  }

  /**
   * The row index and cursor `Labels` computes as written: it tests the offset
   * against one row (`BYTES_PER_OFFS`) where the page size is meant, and
   * divides a negative difference with C's truncating division.
   */
  function LabelPositionAsWritten(offs: int): (r: (int, int))
    requires offs >= 0
    ensures offs < BYTES_PER_OFFS ==> r == (0, offs)
    ensures offs >= BYTES_PER_OFFS ==> r.1 == (BYTES_PER_LIST - BYTES_PER_OFFS) + offs % 0x10
  {
    if offs < BYTES_PER_OFFS then (0, offs)
    else (1 + TruncDiv(offs - BYTES_PER_LIST, BYTES_PER_OFFS), (BYTES_PER_LIST - BYTES_PER_OFFS) + offs % 0x10)
  }

  /** A label at 0x15 lands on a negative row and designates offset 0x25. */
  lemma LabelJumpMisplaced()
    ensures LabelPositionAsWritten(0x15) == (-10, 0xC5)
    ensures -10 * 0x10 + 0xC5 == 0x25 != 0x15
  {
    assert TruncDiv(0x15 - 0xD0, 0x10) == -11;
  }

  /**
   * As written, a label between one row and the end of the first page that is
   * not at the start of a row designates the byte one row further on.
   */
  lemma {:induction false} LabelJumpOneRowOff(offs: int)
    requires BYTES_PER_OFFS <= offs < BYTES_PER_LIST && offs % 0x10 != 0
    ensures var r := LabelPositionAsWritten(offs); r.0 * 0x10 + r.1 == offs + BYTES_PER_OFFS
  {
    var a, b := offs / 16, offs % 16;
    assert offs == 16 * a + b;
    assert 0xD0 - offs == 16 * (12 - a) + (16 - b);
    assert (0xD0 - offs) / 16 == 12 - a;
    assert TruncDiv(offs - 0xD0, 16) == a - 12;
  }

  /** As written, every label from the second row up to offset 0xB0 gets a negative row index. */
  lemma {:induction false} LabelJumpNegativeRow(offs: int)
    requires BYTES_PER_OFFS <= offs <= 0xB0
    ensures LabelPositionAsWritten(offs).0 < 0
  {
    var a, b := offs / 16, offs % 16;
    assert offs == 16 * a + b && a <= 11;
    if b == 0 {
      assert 0xD0 - offs == 16 * (13 - a);
      assert TruncDiv(offs - 0xD0, 16) == a - 13;
    } else {
      assert 0xD0 - offs == 16 * (12 - a) + (16 - b);
      assert TruncDiv(offs - 0xD0, 16) == a - 12;
    }
  }

  /** The editor's static view state: first row shown and cursor on the page. */
  class EditorCursor {
    var offsIdx: int
    var cursorIdx: int

    /** The offset under the cursor. */
    function Current(): int
      reads this
    {
      offsIdx * 0x10 + cursorIdx
    }

    /**
     * "Jump to": `entered` is what the hex pad returns (the typed offset, or
     * the current one when the pad is left). With a non-empty file loaded the
     * view afterwards designates that offset.
     */
    method JumpTo(loaded: bool, size: nat, entered: nat)
      modifies this
      ensures !(loaded && size > 0) ==> offsIdx == old(offsIdx) && cursorIdx == old(cursorIdx)
      ensures loaded && size > 0 ==> Current() == entered
      ensures loaded && size > 0 && entered == old(Current()) ==> offsIdx == old(offsIdx) && cursorIdx == old(cursorIdx)
      ensures loaded && size > 0 && entered != old(Current()) ==>
        0 <= cursorIdx < BYTES_PER_LIST && 0 <= offsIdx
      ensures loaded && size > 0 && entered != old(Current()) && entered < BYTES_PER_LIST ==>
        offsIdx == 0 && cursorIdx == entered
      ensures loaded && size > 0 && entered != old(Current()) && entered >= BYTES_PER_LIST ==>
        BYTES_PER_LIST - BYTES_PER_OFFS <= cursorIdx < BYTES_PER_LIST
    {
      if loaded && size > 0 {
        if entered != Current() {
          var p := PagePosition(entered, BYTES_PER_LIST);
          offsIdx, cursorIdx := p.offsIdx, p.cursorPos;
        }
      }
    }

    /**
     * "Labels" with the page-size threshold `Jump to` uses: `chosen` is the
     * label selector's result, -1 when nothing was chosen. An offset inside
     * the file moves the view onto it.
     */
    method Labels(loaded: bool, size: nat, chosen: int)
      modifies this
      ensures loaded && chosen != -1 && chosen < size ==> Current() == chosen
      ensures loaded && 0 <= chosen < size ==> 0 <= offsIdx && 0 <= cursorIdx < BYTES_PER_LIST
      ensures loaded && 0 <= chosen < size && chosen < BYTES_PER_LIST ==> offsIdx == 0 && cursorIdx == chosen
      ensures loaded && BYTES_PER_LIST <= chosen < size ==> BYTES_PER_LIST - BYTES_PER_OFFS <= cursorIdx
      ensures !(loaded && chosen != -1 && chosen < size) ==>
        offsIdx == old(offsIdx) && cursorIdx == old(cursorIdx)
    {
      if loaded && chosen != -1 && chosen < size {
        if chosen < BYTES_PER_LIST {
          offsIdx, cursorIdx := 0, chosen;
        } else {
          var p := PagePosition(chosen, BYTES_PER_LIST);
          offsIdx, cursorIdx := p.offsIdx, p.cursorPos;
        }
      }
    }
  }
}
