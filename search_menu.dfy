/**
 * The navigator's search screen: the start offset and size of the search,
 * the byte sequence to look for (entered byte by byte or as text through
 * the encoding table), the results, and the scrolled lists showing them.
 */
module SearchMenu {
  import opened Bytes
  import opened ByteCast
  import opened Layout
  import opened Actions
  import opened StreamingHexData

  /** Results shown per list page. */
  const RESULTS_PER_LIST: nat := 6
  /** Sequence bytes shown per list page. */
  const SEQUENCE_PER_LIST: nat := 5

  /** The screen's three views. */
  datatype DisplayMode = Main | Sequence | Results

  /** The distance between two list positions. */
  function Dist(a: nat, b: nat): nat
  {
    if a <= b then b - a else a - b
  }

  /**
   * The scroll fix-up of a list showing `window` entries from `sPos`: the
   * window moves the least distance that brings the selection into view.
   */
  function Scrolled(sPos: nat, selection: nat, window: nat): (p: nat)
    requires window >= 1
    ensures p <= selection < p + window
    ensures sPos <= selection < sPos + window ==> p == sPos
    ensures forall q: nat :: q <= selection < q + window ==> Dist(p, sPos) <= Dist(q, sPos)
  {
    if selection < sPos then selection
    else if selection > sPos + window - 1 then selection - window + 1
    else sPos
  }

  // --------------------------------------------------------- text to bytes

  /**
   * `std::string(1, b)`: the one-byte string holding `b`. Glyph strings hold
   * one character per byte of their UTF-8 text, so a glyph such as "é" is a
   * two-character string here and never equals a one-byte string.
   */
  function Unit(b: byte): string
  {
    [(b as int) as char]
  }

  /** The first byte number from `from` on whose glyph is the one-byte string of `b`. */
  function FirstMatch(encoding: seq<string>, b: byte, from: nat): (r: Option<nat>)
    requires |encoding| == 256 && from <= 256
    ensures r.Some? ==> from <= r.value < 256 && encoding[r.value] == Unit(b)
    ensures r.Some? ==> forall j :: from <= j < r.value ==> encoding[j] != Unit(b)
    ensures r.None? ==> forall j :: from <= j < 256 ==> encoding[j] != Unit(b)
    decreases 256 - from
  {
    if from == 256 then None
    else if encoding[from] == Unit(b) then Some(from)
    else FirstMatch(encoding, b, from + 1)
  }

  /**
   * The sequence for the keyboard's text, given as the bytes of its UTF-8
   * string: for each byte, the first byte number whose glyph is that one
   * byte; bytes without such a glyph are dropped.
   */
  function Encoded(encoding: seq<string>, text: seq<byte>): seq<byte>
    requires |encoding| == 256
  {
    if text == [] then []
    else
      Encoded(encoding, text[..|text| - 1]) +
      match FirstMatch(encoding, text[|text| - 1], 0)
      case Some(i) => [i as byte]
      case None => []
  }

  /** Whether every byte of `text` is, as a one-byte string, the glyph of some byte number. */
  predicate Spellable(encoding: seq<string>, text: seq<byte>)
    requires |encoding| == 256
  {
    forall k :: 0 <= k < |text| ==> exists j :: 0 <= j < 256 && encoding[j] == Unit(text[k])
  }

  /**
   * `e` spells `text` through the table: one byte per text byte, each the
   * smallest number whose glyph is that text byte.
   */
  predicate Spells(encoding: seq<string>, e: seq<byte>, text: seq<byte>)
    requires |encoding| == 256
  {
    && |e| == |text|
    && (forall k :: 0 <= k < |e| ==> encoding[e[k] as int] == Unit(text[k]))
    && (forall k, j :: 0 <= k < |e| && 0 <= j < e[k] as int ==> encoding[j] != Unit(text[k]))
  }

  /**
   * Text whose bytes are all one-byte glyphs is encoded one byte per text
   * byte, each the smallest number whose glyph is that byte; shown through
   * the table the sequence spells the text again.
   */
  lemma {:induction false} EncodedSpells(encoding: seq<string>, text: seq<byte>)
    requires |encoding| == 256 && Spellable(encoding, text)
    ensures Spells(encoding, Encoded(encoding, text), text)
  {
    if text != [] {
      var init, c := text[..|text| - 1], text[|text| - 1];
      assert Spellable(encoding, init) by {
        forall k | 0 <= k < |init|
          ensures exists j :: 0 <= j < 256 && encoding[j] == Unit(init[k])
        {
          assert init[k] == text[k];
        }
      }
      EncodedSpells(encoding, init);
      var b := LastEncoded(encoding, text);
      assert text == init + [c];
      SpellsAppend(encoding, Encoded(encoding, init), init, b, c);
    }
  }

  /** Spelling one more byte `c` with its smallest glyph number `b` extends a spelling. */
  lemma SpellsAppend(encoding: seq<string>, e: seq<byte>, text: seq<byte>, b: byte, c: byte)
    requires |encoding| == 256 && Spells(encoding, e, text)
    requires encoding[b as int] == Unit(c) && forall j :: 0 <= j < b as int ==> encoding[j] != Unit(c)
    ensures Spells(encoding, e + [b], text + [c])
  {
    var e', t' := e + [b], text + [c];
    forall k | 0 <= k < |e'|
      ensures encoding[e'[k] as int] == Unit(t'[k])
      ensures forall j :: 0 <= j < e'[k] as int ==> encoding[j] != Unit(t'[k])
    {
      if k < |e| {
        assert e'[k] == e[k] && t'[k] == text[k];
      }
    }
  }

  /** A last byte that is a one-byte glyph adds one byte: the first number whose glyph it is. */
  lemma LastEncoded(encoding: seq<string>, text: seq<byte>) returns (b: byte)
    requires |encoding| == 256 && text != []
    requires exists j :: 0 <= j < 256 && encoding[j] == Unit(text[|text| - 1])
    ensures Encoded(encoding, text) == Encoded(encoding, text[..|text| - 1]) + [b]
    ensures encoding[b as int] == Unit(text[|text| - 1])
    ensures forall j :: 0 <= j < b as int ==> encoding[j] != Unit(text[|text| - 1])
  {
    var c := text[|text| - 1];
    var j :| 0 <= j < 256 && encoding[j] == Unit(c);
    var i := FirstMatch(encoding, c, 0).value;
    ByteNumber(i);
    b := i as byte;
  }

  /** Only byte numbers whose glyph is a single byte ever enter the sequence. */
  lemma {:induction false} EncodedOneByteGlyphs(encoding: seq<string>, text: seq<byte>)
    requires |encoding| == 256
    ensures forall k :: 0 <= k < |Encoded(encoding, text)| ==> |encoding[Encoded(encoding, text)[k] as int]| == 1
  {
    if text != [] {
      EncodedOneByteGlyphs(encoding, text[..|text| - 1]);
      match FirstMatch(encoding, text[|text| - 1], 0)
      case Some(i) => ByteNumber(i);
      case None =>
    }
  }

  /**
   * A glyph of several bytes cannot be typed: with "é" (bytes C3 A9) as the
   * only glyph besides ".", typing "é" gives an empty sequence.
   */
  lemma AccentedTextDropped(encoding: seq<string>)
    requires |encoding| == 256 && encoding[0x80] == [0xC3 as char, 0xA9 as char]
    requires forall j :: 0 <= j < 256 && j != 0x80 ==> encoding[j] == "."
    ensures Encoded(encoding, [0xC3, 0xA9]) == []
  {
    var text: seq<byte> := [0xC3, 0xA9];
    assert FirstMatch(encoding, 0xC3, 0).None? && FirstMatch(encoding, 0xA9, 0).None? by {
      forall j | 0 <= j < 256
        ensures encoding[j] != Unit(0xC3) && encoding[j] != Unit(0xA9)
      {
        if j == 0x80 {
          assert |encoding[j]| == 2;
        } else {
          assert encoding[j][0] == '.';
        }
      }
    }
    assert text[..1] == [0xC3] && text[..1][..0] == [];
    assert Encoded(encoding, text[..1]) == [];
    assert Encoded(encoding, text) == Encoded(encoding, text[..1]);
  }

  /** Encoding never produces more bytes than the text has characters. */
  lemma {:induction false} EncodedShorter(encoding: seq<string>, text: seq<byte>)
    requires |encoding| == 256
    ensures |Encoded(encoding, text)| <= |text|
  {
    if text != [] {
      EncodedShorter(encoding, text[..|text| - 1]);
    }
  }

  // ------------------------------------------------------------------ screen

  /** The search screen's state. */
  class Search {
    var mode: DisplayMode
    /** First entry shown in the current list. */
    var sPos: nat
    /** The selected entry of the current list. */
    var selection: nat
    /** Where the search starts. */
    var offs: nat
    /** How many offsets the search covers. */
    var size: nat
    /** The byte sequence searched for. */
    var sequences: seq<byte>
    /** The offsets found by the last search. */
    var foundResults: seq<nat>
    /** Whether sequence bytes are edited as hex (true) or as glyphs. */
    var seqMode: bool

    constructor ()
      ensures mode == Main && sPos == 0 && selection == 0 && offs == 0 && size == 0
      ensures sequences == [] && foundResults == []
    {
      mode, sPos, selection, offs, size := Main, 0, 0, 0, 0;
      sequences, foundResults := [], [];
      seqMode := true;
    }

    /**
     * Keeps the start offset and size valid for the session: in scroll mode
     * inside the file, otherwise inside the edit window. An offset outside
     * is reset to the start, a size reaching past the end to zero; values
     * already valid are kept.
     */
    method SyncSettings(loaded: bool, h: HexData)
      modifies this`offs, this`size
      ensures !loaded ==> offs == old(offs) && size == old(size)
      ensures loaded ==>
        var lo, hi := h.Lower(), h.Limit();
        && lo <= offs <= hi && offs + size <= hi
        && (lo <= old(offs) <= hi ==> offs == old(offs))
        && (!(lo <= old(offs) <= hi) ==> offs == lo)
        && (offs + old(size) <= hi ==> size == old(size))
        && (offs + old(size) > hi ==> size == 0)
    {
      if loaded {
        if h.mode == Scroll {
          if offs > h.fileSize {
            offs := 0;
          }
          if size > h.fileSize - offs {
            size := 0;
          }
        } else {
          if offs < h.editStartOffs || offs > h.editStartOffs + |h.editData| {
            offs := h.editStartOffs;
          }
          if size > (h.editStartOffs + |h.editData|) - offs {
            size := 0;
          }
        }
      }
    }

    /**
     * Removes the byte at `idx` and keeps the selection on the list: it is
     * clamped to the last index while the list is not empty. The list's
     * first shown entry is set from the selection.
     */
    method RemoveSequence(loaded: bool, idx: nat)
      modifies this`sequences, this`selection, this`sPos
      ensures !(loaded && idx < |old(sequences)|) ==>
        sequences == old(sequences) && selection == old(selection) && sPos == old(sPos)
      ensures loaded && idx < |old(sequences)| ==>
        && sequences == old(sequences)[..idx] + old(sequences)[idx + 1..]
        && (|sequences| > 0 ==> selection == if old(selection) > |sequences| - 1 then |sequences| - 1 else old(selection))
        && (|sequences| == 0 ==> selection == old(selection))
        && sPos == if selection > SEQUENCE_PER_LIST then selection - SEQUENCE_PER_LIST else 0
    {
      if loaded && idx < |sequences| {
        sequences := sequences[..idx] + sequences[idx + 1..];
        // `size() - 1` is computed in `size_t`: with the list empty it wraps and the clamp never fires.
        if |sequences| > 0 && selection > |sequences| - 1 {
          selection := |sequences| - 1;
        }
        if selection > SEQUENCE_PER_LIST {
          sPos := selection - SEQUENCE_PER_LIST;
        } else {
          sPos := 0;
        }
      }
    }

    /** Empties the sequence and selects the first entry. */
    method ClearSequence(loaded: bool)
      modifies this`sequences, this`selection
      ensures loaded ==> sequences == [] && selection == 0
      ensures !loaded ==> sequences == old(sequences) && selection == old(selection)
    {
      if loaded {
        sequences := [];
        selection := 0;
      }
    }

    /**
     * Entering characters: from the keyboard, non-empty text (the bytes of
     * its UTF-8 string) replaces the sequence by its encoding; otherwise the
     * byte picked in the glyph selector is appended.
     */
    method EnterChar(loaded: bool, fromKeyboard: bool, text: seq<byte>, encoding: seq<string>, picked: byte)
      requires |encoding| == 256
      modifies this`sequences
      ensures !loaded || (fromKeyboard && text == []) ==> sequences == old(sequences)
      ensures loaded && fromKeyboard && text != [] ==> sequences == Encoded(encoding, text)
      ensures loaded && !fromKeyboard ==> sequences == old(sequences) + [picked]
    {
      if loaded {
        if fromKeyboard {
          if text != [] {
            var s := EncodeText(text, encoding);
            sequences := s;
          }
        } else {
          sequences := sequences + [picked];
        }
      }
    }

    /** Scroll fix-up of the sequence list after its key handling. */
    method ScrollSequences()
      modifies this`sPos
      ensures sPos == Scrolled(old(sPos), selection, SEQUENCE_PER_LIST)
    {
      if selection < sPos {
        sPos := selection;
      } else if selection > sPos + SEQUENCE_PER_LIST - 1 {
        sPos := selection - SEQUENCE_PER_LIST + 1;
      }
    }

    /** Scroll fix-up of the result list after its key handling. */
    method ScrollResults()
      modifies this`sPos
      ensures sPos == Scrolled(old(sPos), selection, RESULTS_PER_LIST)
    {
      if selection < sPos {
        sPos := selection;
      } else if selection > sPos + RESULTS_PER_LIST - 1 {
        sPos := selection - RESULTS_PER_LIST + 1;
      }
    }

    /**
     * The search button: a non-empty sequence is searched for in `data`,
     * what the session's mode reads (the file, or the edit window), from
     * the start offset's position `base` in it; `cancelAt` is the index at
     * which B is seen pressed. Both the scan and the fit of the sequence
     * are measured from the start offset (the correction of the read past
     * the end that `Actions.ScanAsWritten` shows). The results view opens,
     * at its top, only when there are results. An empty sequence keeps the
     * previous results.
     */
    method SearchAction(loaded: bool, data: seq<byte>, base: nat, cancelAt: nat)
      requires base <= |data|
      modifies this`foundResults, this`mode, this`sPos, this`selection
      ensures loaded && |sequences| > 0 ==>
        foundResults == Found(offs, sequences, data[base..], |data| - base, Visited(size, |data| - base, cancelAt))
      ensures !(loaded && |sequences| > 0) ==> foundResults == old(foundResults)
      ensures loaded && foundResults != [] ==> mode == Results && sPos == 0 && selection == 0
      ensures !(loaded && foundResults != []) ==>
        mode == old(mode) && sPos == old(sPos) && selection == old(selection)
    {
      if loaded {
        if |sequences| > 0 {
          var res := Actions.Search(offs, size, sequences, data[base..], |data| - base, cancelAt);
          foundResults := res;
        }
        if foundResults == [] {
          return;
        }
        mode := Results;
        sPos, selection := 0, 0;
      }
    }

    /**
     * Jumps the session to result `selected` when there is such a result
     * and it lies inside the file; the session moves only when the offset
     * is one its mode can reach.
     */
    method JumpToSelected(h: HexData, selected: nat)
      requires h.Valid()
      requires selected < |foundResults| && foundResults[selected] < h.fileSize ==>
        var o := foundResults[selected];
        h.mode != Scroll && h.Lower() <= o < h.Limit() ==>
          h.editStartOffs <= PagePosition(o, h.bytesPerList).offsIdx * 0x10
      modifies h`offsIdx, h`cursorPos, h`displayData
      ensures h.Valid()
      ensures selected < |foundResults| && foundResults[selected] < h.fileSize && h.Lower() <= foundResults[selected] < h.Limit() ==>
        h.Abs() == foundResults[selected]
      ensures !(selected < |foundResults| && foundResults[selected] < h.fileSize && h.Lower() <= foundResults[selected] < h.Limit()) ==>
        h.offsIdx == old(h.offsIdx) && h.cursorPos == old(h.cursorPos) && h.displayData == old(h.displayData)
    {
      if selected < |foundResults| {
        var o := foundResults[selected];
        if o < h.fileSize {
          h.JumpOffs(o);
        }
      }
    }
  }

  /**
   * The keyboard branch of `EnterChar`: for each byte of the text in order,
   * the 256 glyphs are compared with that byte as a one-byte string, from
   * the first, and the first number matching is appended.
   */
  method EncodeText(text: seq<byte>, encoding: seq<string>) returns (s: seq<byte>)
    requires |encoding| == 256
    ensures s == Encoded(encoding, text)
  {
    s := [];
    var str := 0;
    while str < |text|
      invariant str <= |text|
      invariant s == Encoded(encoding, text[..str])
    {
      var c := text[str];
      var matched := false;
      var idxToPush := 0;
      var idx := 0;
      while idx < 256
        invariant idx <= 256
        invariant !matched
        invariant FirstMatch(encoding, c, 0) == FirstMatch(encoding, c, idx)
        decreases 256 - idx
      {
        if encoding[idx] == Unit(c) {
          matched := true;
          idxToPush := idx;
          break;
        }
        idx := idx + 1;
      }
      assert text[..str + 1][..str] == text[..str];
      if matched {
        assert FirstMatch(encoding, c, 0) == Some(idxToPush);
        s := s + [idxToPush as byte];
      }
      str := str + 1;
    }
    assert text[..str] == text;
  }
}
