/**
 * The page layout of the hex view: a page shows `BytesPerList` bytes as rows
 * of 16, starting at row `OffsIdx`; the cursor is a position inside the page.
 */
module Layout {

  /**
   * Bytes per row of the hex view. Products, quotients and remainders by a
   * row are written with the literal `0x10` throughout, which keeps that
   * arithmetic linear.
   */
  const BYTES_PER_OFFS: nat := 0x10

  /** The first row shown and the cursor's place inside the page. */
  datatype Position = Position(offsIdx: nat, cursorPos: nat)

  /** The absolute offset a position designates. */
  function Absolute(p: Position): nat
  {
    p.offsIdx * 0x10 + p.cursorPos
  }

  /**
   * Where a jump to `offs` puts the view: offsets on the first page keep the
   * page at row 0; any later offset scrolls so that it sits on the last row
   * of the page.
   */
  function PagePosition(offs: nat, bytesPerList: nat): (p: Position)
    requires bytesPerList >= BYTES_PER_OFFS && bytesPerList % 0x10 == 0
    ensures Absolute(p) == offs
    ensures p.cursorPos < bytesPerList
    ensures offs < bytesPerList ==> p.offsIdx == 0
    ensures offs >= bytesPerList ==> bytesPerList - BYTES_PER_OFFS <= p.cursorPos
  {
    if offs < bytesPerList then Position(0, offs)
    else Position(1 + (offs - bytesPerList) / 0x10, (bytesPerList - BYTES_PER_OFFS) + offs % 0x10)
  }

  /** The page a jump selects is the lowest one that still shows the offset. */
  lemma PagePositionLowest(offs: nat, bytesPerList: nat, q: Position)
    requires bytesPerList >= BYTES_PER_OFFS && bytesPerList % 0x10 == 0
    requires Absolute(q) == offs && q.cursorPos < bytesPerList
    ensures PagePosition(offs, bytesPerList).offsIdx <= q.offsIdx
  {
  }

  /** A page of `lines` rows is a non-empty whole number of rows. */
  lemma WholeRows(lines: nat)
    requires lines >= 1
    ensures lines * 0x10 >= BYTES_PER_OFFS && (lines * 0x10) % 0x10 == 0
  {
  }
}
