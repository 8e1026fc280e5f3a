/** Properties of the line renderer (src/render.c) stated across calls or
    across layouts: what a line determines, what can be read back from it,
    and the defect of the 64-column layout. */
module RenderProps {
  import opened Types
  import opened Hex
  import opened Render

  //---------------------------------------------------------------------------
  // The descriptions determine the text.
  //---------------------------------------------------------------------------

  /** Only one text is a wide line of a given frame. */
  lemma WideTextUnique(s: seq<char8>, t: seq<char8>, f: Frame)
    requires f.uiStride <= |f.uiData|
    requires WideText(s, f) && WideText(t, f)
    ensures s == t
  {
    var n: nat := f.uiStride;
    forall k | 0 <= k < |s|
      ensures s[k] == t[k]
    {
      if 2 <= k < 2 + 3 * n {
        var i: nat := (k - 2) / 3;
        assert s[2 + 3 * i] == t[2 + 3 * i] && s[3 + 3 * i] == t[3 + 3 * i] && s[4 + 3 * i] == t[4 + 3 * i];
        assert k == 2 + 3 * i || k == 3 + 3 * i || k == 4 + 3 * i;
      } else if 5 + 3 * n <= k {
        var i: nat := k - 5 - 3 * n;
        assert s[5 + 3 * n + i] == CharCell(f, i) == t[5 + 3 * n + i];
      }
    }
  }

  /** Only one text is a narrow line of a given frame. */
  lemma NarrowTextUnique(s: seq<char8>, t: seq<char8>, f: Frame)
    requires f.uiStride <= |f.uiData|
    requires NarrowText(s, f) && NarrowText(t, f)
    ensures s == t
  {
    var n: nat := f.uiStride;
    forall k | 0 <= k < |s|
      ensures s[k] == t[k]
    {
      if 1 <= k < 1 + 2 * n {
        var i: nat := (k - 1) / 2;
        var h := HexCell(f, i);
        assert s[1 + 2 * i] == h[0] == t[1 + 2 * i] && s[2 + 2 * i] == h[1] == t[2 + 2 * i];
        assert k == 1 + 2 * i || k == 2 + 2 * i;
      } else if 2 + 2 * n <= k {
        var i: nat := k - 2 - 2 * n;
        assert s[2 + 2 * n + i] == CharCell(f, i) == t[2 + 2 * n + i];
      }
    }
  }

  /** The address prefix determines the six characters. */
  lemma AddressUnique(s: seq<char8>, t: seq<char8>, addr: uint32)
    requires ShowsAddress(s, addr) && ShowsAddress(t, addr)
    ensures s[..6] == t[..6]
  {
    DecodeHexPairSound(s[0..2], (addr / 0x10000) % 0x100);
    DecodeHexPairSound(t[0..2], (addr / 0x10000) % 0x100);
    DecodeHexPairSound(s[2..4], (addr / 0x100) % 0x100);
    DecodeHexPairSound(t[2..4], (addr / 0x100) % 0x100);
    DecodeHexPairSound(s[4..6], addr % 0x100);
    DecodeHexPairSound(t[4..6], addr % 0x100);
    assert s[..6] == s[0..2] + s[2..4] + s[4..6];
    assert t[..6] == t[0..2] + t[2..4] + t[4..6];
  }

  /** The six prefix digits read back as a number are the low 24 bits of the address. */
  lemma {:induction false} AddressPrefixRoundTrip(s: seq<char8>, addr: uint32)
    requires ShowsAddress(s, addr)
    ensures 0x10000 * DecodeHexPair(s[0..2]).value + 0x100 * DecodeHexPair(s[2..4]).value
            + DecodeHexPair(s[4..6]).value == addr % 0x100_0000
  {
    var hi := addr / 0x10000;
    var mid := addr / 0x100;
    assert addr == 0x10000 * hi + 0x100 * (mid % 0x100) + addr % 0x100;
    assert addr % 0x100_0000 == 0x10000 * (hi % 0x100) + 0x100 * (mid % 0x100) + addr % 0x100;
  }

  //---------------------------------------------------------------------------
  // What the hex and character columns say about the frame.
  //---------------------------------------------------------------------------

  /** A hex cell pair decodes exactly when its position lies in the window,
      and then it decodes to the frame's byte: a blank is never mistaken for
      a byte, and a shown byte is read back unchanged. */
  lemma HexCellRoundTrip(f: Frame, i: nat)
    requires i < |f.uiData|
    ensures DecodeHexPair(HexCell(f, i)).Some? <==> Covered(f, i)
    ensures Covered(f, i) ==> DecodeHexPair(HexCell(f, i)) == Some(f.uiData[i])
    ensures !Covered(f, i) ==> HexCell(f, i) == "  "
  {
    if Covered(f, i) {
      ByteToHexRoundTrip(f.uiData[i]);
    }
  }

  /** Reading the hex column of a wide line gives back every in-window byte. */
  lemma WideLineRecoversBytes(s: seq<char8>, f: Frame, i: nat)
    requires f.uiStride <= |f.uiData|
    requires WideText(s, f)
    requires i < f.uiStride
    ensures Covered(f, i) <==> DecodeHexPair(s[3 + 3 * i..5 + 3 * i]).Some?
    ensures Covered(f, i) ==> DecodeHexPair(s[3 + 3 * i..5 + 3 * i]) == Some(f.uiData[i])
  {
    assert s[3 + 3 * i..5 + 3 * i] == HexCell(f, i);
    HexCellRoundTrip(f, i);
  }

  /** Reading a character cell back: anything but a space comes from an
      in-window byte; anything but a space or a dot is that byte itself, and
      printable; and an in-window byte is shown verbatim exactly when it is
      printable. */
  lemma CharCellReadBack(f: Frame, i: nat)
    requires i < |f.uiData|
    ensures CharCell(f, i) != ' ' ==> Covered(f, i)
    ensures CharCell(f, i) != ' ' && CharCell(f, i) != '.' ==>
      Covered(f, i) && Printable(f.uiData[i]) && CharCell(f, i) as int == f.uiData[i]
    ensures Covered(f, i) ==> (CharCell(f, i) as int == f.uiData[i] <==> Printable(f.uiData[i]))
  {
  }

  /** The glyph rule on a rendered wide line: in the character column, a
      position shows its byte verbatim exactly when it is in the window and
      printable, or is a space. */
  lemma WideLineShowsGlyphs(s: seq<char8>, f: Frame, i: nat)
    requires f.uiStride <= |f.uiData|
    requires WideText(s, f)
    requires i < f.uiStride
    ensures s[5 + 3 * f.uiStride + i] != ' ' ==> Covered(f, i)
    ensures Covered(f, i) ==> (s[5 + 3 * f.uiStride + i] as int == f.uiData[i] <==> Printable(f.uiData[i]))
    ensures Covered(f, i) && !Printable(f.uiData[i]) ==> s[5 + 3 * f.uiStride + i] == '.'
  {
    CharCellReadBack(f, i);
  }

  //---------------------------------------------------------------------------
  // Rendering as a whole.
  //---------------------------------------------------------------------------

  /** Except in the 64-column layout, a rendered line does not depend on
      what the buffer held before: any two renderings of the same frame at
      the same width hold the same line, terminator and length, whatever
      the two buffers held and however long they are. */
  lemma RenderIgnoresPrior(cols: uint8, f: Frame, b1: RenderBuffer, b2: RenderBuffer, o1: RenderBuffer, o2: RenderBuffer)
    requires !(64 <= cols < 80)
    requires Renderable(cols, f, b1) && Renderable(cols, f, b2)
    requires RenderedFrame(cols, f, b1, o1) && RenderedFrame(cols, f, b2, o2)
    ensures o1.acData[..LineLength(cols, f.uiStride) + 1] == o2.acData[..LineLength(cols, f.uiStride) + 1]
    ensures o1.uiLen == o2.uiLen
  {
    var len := LineLength(cols, f.uiStride);
    var s1 := o1.acData;
    var s2 := o2.acData;
    AddressUnique(s1, s2, f.uiAddr);
    if 80 <= cols {
      WideTextUnique(s1[6..len], s2[6..len], f);
    } else {
      NarrowTextUnique(s1[6..len], s2[6..len], f);
    }
    assert s1[..len + 1] == s1[..6] + s1[6..len] + [s1[len]];
    assert s2[..len + 1] == s2[..6] + s2[6..len] + [s2[len]];
  }

  /** `uiLen` is the line length only while the line fits in a uint8: up to a
      stride of 61 in every layout. */
  lemma LineLengthFits(cols: uint8, stride: nat)
    requires stride <= 61
    ensures LineLength(cols, stride) < 0x100
    ensures ToUint8(LineLength(cols, stride)) == LineLength(cols, stride)
  {
  }

  //---------------------------------------------------------------------------
  // The 64-column layout, as written and as evidently intended.
  //---------------------------------------------------------------------------

  /** In the 64-column layout as written, an out-of-window odd position's
      hex cells show whatever the buffer held there before (with stride 2,
      window [0, 1) and a buffer of 'X's, the line reads `|41XX |A `). */
  lemma Medium64KeepsStaleCells(cols: uint8, f: Frame, prior: RenderBuffer, out: RenderBuffer, q: nat)
    requires 64 <= cols < 80
    requires Renderable(cols, f, prior) && RenderedFrame(cols, f, prior, out)
    requires q < Pairs(f.uiStride) && !Covered(f, 2 * q + 1)
    ensures out.acData[9 + 5 * q..11 + 5 * q] == prior.acData[9 + 5 * q..11 + 5 * q]
    ensures HexCell(f, 2 * q + 1) == "  "
  {
    var len := LineLength(cols, f.uiStride);
    var s := out.acData[6..len];
    var pr := prior.acData[6..len];
    assert s[1 + 5 * q] == HexCell(f, 2 * q)[0];
    assert s[3 + 5 * q] == pr[3 + 5 * q] && s[4 + 5 * q] == pr[4 + 5 * q];
  }

  /** The 64-column hex column as evidently intended: an out-of-window odd
      position is blanked like every other. */
  function HexGroupedBlanked(f: Frame, p: nat): (s: seq<char8>)
    requires 2 * p <= |f.uiData|
    ensures |s| == 5 * p
  {
    if p == 0 then [] else HexGroupedBlanked(f, p - 1) + GroupBlanked(f, p - 1)
  }

  /** One corrected group: both positions' cells, then a space. */
  function GroupBlanked(f: Frame, q: nat): (g: seq<char8>)
    requires 2 * q + 1 < |f.uiData|
    ensures |g| == 5
  {
    HexCell(f, 2 * q) + HexCell(f, 2 * q + 1) + [' ']
  }

  /** Group `q` sits at offset `5 * q` of the corrected hex column. */
  lemma {:induction false} HexGroupedBlankedAt(f: Frame, p: nat, q: nat)
    requires 2 * p <= |f.uiData|
    requires q < p
    ensures HexGroupedBlanked(f, p)[5 * q..5 * q + 5] == GroupBlanked(f, q)
    decreases p
  {
    var prev := HexGroupedBlanked(f, p - 1);
    if q < p - 1 {
      HexGroupedBlankedAt(f, p - 1, q);
      SliceOfPrefix(prev, GroupBlanked(f, p - 1), 5 * q, 5 * q + 5);
    }
  }

  /** The evidently intended 64-column text after the address. */
  function Line64Blanked(f: Frame): seq<char8>
    requires 2 * Pairs(f.uiStride) <= |f.uiData|
  {
    [Separator] + HexGroupedBlanked(f, Pairs(f.uiStride)) + [Separator] + CharColumn(f, f.uiStride)
  }

  /** The evidently intended 64-column line: like `MediumText`, except that
      every position's hex cells are written, blank outside the window. */
  ghost predicate MediumBlankedText(s: seq<char8>, f: Frame)
    requires 2 * Pairs(f.uiStride) <= |f.uiData|
  {
    var n: nat := f.uiStride;
    var p := Pairs(n);
    && |s| == 2 + 5 * p + n
    && s[0] == '|'
    && (forall q: nat {:trigger HexCell(f, 2 * q)} :: q < p ==>
          && s[1 + 5 * q] == HexCell(f, 2 * q)[0] && s[2 + 5 * q] == HexCell(f, 2 * q)[1]
          && s[3 + 5 * q] == HexCell(f, 2 * q + 1)[0] && s[4 + 5 * q] == HexCell(f, 2 * q + 1)[1]
          && s[5 + 5 * q] == ' ')
    && s[1 + 5 * p] == '|'
    && (forall i: nat :: i < n ==> s[2 + 5 * p + i] == CharCell(f, i))
  }

  lemma Line64BlankedParts(f: Frame, k: nat)
    requires 2 * Pairs(f.uiStride) <= |f.uiData|
    requires k < |Line64Blanked(f)|
    ensures var s := Line64Blanked(f); var p := Pairs(f.uiStride);
      && |s| == 2 + 5 * p + f.uiStride
      && (k == 0 || k == 1 + 5 * p ==> s[k] == Separator)
      && (1 <= k < 1 + 5 * p ==> s[k] == HexGroupedBlanked(f, p)[k - 1])
      && (2 + 5 * p <= k ==> s[k] == CharColumn(f, f.uiStride)[k - 2 - 5 * p])
  {
  }

  /** One group of the corrected hex column, read back from the line. */
  lemma Line64BlankedGroupAt(f: Frame, q: nat)
    requires 2 * Pairs(f.uiStride) <= |f.uiData|
    requires q < Pairs(f.uiStride)
    ensures var s := Line64Blanked(f);
      && |s| == 2 + 5 * Pairs(f.uiStride) + f.uiStride
      && s[1 + 5 * q] == HexCell(f, 2 * q)[0] && s[2 + 5 * q] == HexCell(f, 2 * q)[1]
      && s[3 + 5 * q] == HexCell(f, 2 * q + 1)[0] && s[4 + 5 * q] == HexCell(f, 2 * q + 1)[1]
      && s[5 + 5 * q] == ' '
  {
    var p := Pairs(f.uiStride);
    var h := HexGroupedBlanked(f, p);
    var s := Line64Blanked(f);
    HexGroupedBlankedAt(f, p, q);
    assert s == [Separator] + h + [Separator] + CharColumn(f, f.uiStride);
    assert s[1 + 5 * q..6 + 5 * q] == h[5 * q..5 * q + 5];
    var g := GroupBlanked(f, q);
    assert g == HexCell(f, 2 * q) + HexCell(f, 2 * q + 1) + [' '];
    assert s[1 + 5 * q] == g[0] && s[2 + 5 * q] == g[1] && s[3 + 5 * q] == g[2]
        && s[4 + 5 * q] == g[3] && s[5 + 5 * q] == g[4];
  }

  /** The corrected layout meets its description: every cell is written,
      so the line no longer depends on the buffer's earlier contents. */
  lemma Line64BlankedIsBlanked(f: Frame)
    requires 2 * Pairs(f.uiStride) <= |f.uiData|
    ensures MediumBlankedText(Line64Blanked(f), f)
  {
    var n: nat := f.uiStride;
    var p := Pairs(n);
    var s := Line64Blanked(f);
    Line64BlankedParts(f, 0);
    Line64BlankedParts(f, 1 + 5 * p);
    forall q: nat | q < p
      ensures && s[1 + 5 * q] == HexCell(f, 2 * q)[0] && s[2 + 5 * q] == HexCell(f, 2 * q)[1]
              && s[3 + 5 * q] == HexCell(f, 2 * q + 1)[0] && s[4 + 5 * q] == HexCell(f, 2 * q + 1)[1]
              && s[5 + 5 * q] == ' '
    {
      Line64BlankedGroupAt(f, q);
    }
    forall i: nat | i < n
      ensures s[2 + 5 * p + i] == CharCell(f, i)
    {
      Line64BlankedParts(f, 2 + 5 * p + i);
    }
  }

  /** One position of the comparison below. */
  lemma MediumAgreesAt(s: seq<char8>, prior: seq<char8>, t: seq<char8>, f: Frame, k: nat)
    requires 2 * Pairs(f.uiStride) <= |f.uiData|
    requires forall q: nat :: q < Pairs(f.uiStride) ==> Covered(f, 2 * q + 1)
    requires MediumText(s, prior, f) && MediumBlankedText(t, f)
    requires k < |s|
    ensures s[k] == t[k]
  {
    var n: nat := f.uiStride;
    var p := Pairs(n);
    if 1 <= k < 1 + 5 * p {
      var q: nat := (k - 1) / 5;
      assert s[1 + 5 * q] == HexCell(f, 2 * q)[0] == t[1 + 5 * q];
      assert Covered(f, 2 * q + 1);
      assert k == 1 + 5 * q || k == 2 + 5 * q || k == 3 + 5 * q || k == 4 + 5 * q || k == 5 + 5 * q;
    } else if 2 + 5 * p <= k {
      var i: nat := k - 2 - 5 * p;
      assert s[2 + 5 * p + i] == CharCell(f, i) == t[2 + 5 * p + i];
    }
  }

  /** When every odd position of the frame lies in the window, the
      64-column line as written is the corrected line. */
  lemma Medium64AgreesWhenCovered(s: seq<char8>, prior: seq<char8>, f: Frame)
    requires 2 * Pairs(f.uiStride) <= |f.uiData|
    requires forall q: nat :: q < Pairs(f.uiStride) ==> Covered(f, 2 * q + 1)
    requires MediumText(s, prior, f)
    ensures s == Line64Blanked(f)
  {
    var t := Line64Blanked(f);
    Line64BlankedIsBlanked(f);
    forall k | 0 <= k < |s|
      ensures s[k] == t[k]
    {
      MediumAgreesAt(s, prior, t, f, k);
    }
  }

  //---------------------------------------------------------------------------
  // The 64-column loop counter, as written and as evidently intended.
  //---------------------------------------------------------------------------

  /** The 64-column loop counter after `k` iterations as written: a uint8
      starting at 0 and stepped by `i += 2` (render.c line 315). */
  function Counter64(k: nat): uint8
  {
    if k == 0 then 0 else ToUint8(Counter64(k - 1) + 2)
  }

  /** After `128 * a + b` iterations (`b < 128`) the counter is `2 * b`: it
      counts up by two and wraps to 0 every 128 iterations. */
  lemma {:induction false} Counter64Value(a: nat, b: nat)
    requires b < 128
    ensures Counter64(128 * a + b) == 2 * b
    decreases 128 * a + b
  {
    if b > 0 {
      Counter64Value(a, b - 1);
    } else if a > 0 {
      Counter64Value(a - 1, 127);
      assert 128 * a - 1 == 128 * (a - 1) + 127;
    }
  }

  /** With stride 255 the loop as written never ends: the counter is always
      even, so always below 255, and it wraps from 254 back to 0, repeating
      every 128 iterations. */
  lemma Loop64NeverEnds(k: nat)
    ensures Counter64(k) < 255
    ensures Counter64(k + 128) == Counter64(k)
    ensures Counter64(k) == 254 ==> Counter64(k + 1) == 0
  {
    var a, b := k / 128, k % 128;
    assert k == 128 * a + b;
    Counter64Value(a, b);
    Counter64Value(a + 1, b);
    assert k + 128 == 128 * (a + 1) + b;
    if b == 127 {
      Counter64Value(a + 1, 0);
      assert k + 1 == 128 * (a + 1) + 0;
    }
  }

  /** The positions the 64-column loop visits from `i` with a counter wide
      enough not to wrap. */
  function Visits64(stride: nat, i: nat): seq<nat>
    decreases stride - i
  {
    if i < stride then [i] + Visits64(stride, i + 2) else []
  }

  lemma {:induction false} Visits64From(stride: nat, i: nat)
    requires i <= stride
    ensures |Visits64(stride, i)| == (stride - i + 1) / 2
    ensures forall k :: 0 <= k < |Visits64(stride, i)| ==> Visits64(stride, i)[k] == i + 2 * k
    decreases stride - i
  {
    if i < stride {
      if i + 2 <= stride {
        Visits64From(stride, i + 2);
      } else {
        assert Visits64(stride, i + 2) == [];
      }
    }
  }

  /** With a wide counter the loop ends for every stride, 255 included, after
      visiting exactly the even positions 0, 2, ..., one per pair the
      64-column cells lay out. */
  lemma Visits64Pairs(stride: nat)
    ensures |Visits64(stride, 0)| == Pairs(stride)
    ensures forall q :: 0 <= q < Pairs(stride) ==> Visits64(stride, 0)[q] == 2 * q
  {
    Visits64From(stride, 0);
  }
}
