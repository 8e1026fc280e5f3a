/** The line renderer (src/render.c): one frame of bytes becomes one text line
    in the render buffer, in one of four layouts chosen by the screen width. */
module Render {
  import opened Types
  import opened Hex

  /** readbuffer_t as the renderer and saver use it: `uiStride` bytes of
      `uiData` read from address `uiAddr`, of which those inside the
      window [uiLower, uiUpper) are shown. `uiData` is the whole buffer,
      so it may be longer than the stride. */
  datatype Frame = Frame(
    uiStride: uint8,
    uiAddr: uint32,
    uiLower: uint32,
    uiUpper: uint32,
    uiData: seq<uint8>)

  /** screeninfo_t */
  datatype ScreenInfo = ScreenInfo(uiCols: uint8, uiRows: uint8)

  /** renderbuffer_t: a fixed-capacity text buffer and the length of its line. */
  datatype RenderBuffer = RenderBuffer(acData: seq<char8>, uiLen: uint8)

  /** The four layouts, named after the column count they target. */
  datatype Layout = Cols85 | Cols80 | Cols64 | Cols32

  /** cFIRST_CHAR and cLAST_CHAR: the range shown verbatim in the character column. */
  const FirstChar: uint8 := 0x20
  const LastChar: uint8 := 0x8F

  /** cSEPERATOR_CHAR */
  const Separator: char8 := '|'

  /** Window membership, `between_uint32(a, lower, upper, 1)`, taken as half-open. */
  predicate InWindow(a: int, lower: int, upper: int)
  {
    lower <= a < upper
  }

  /** The printable test `between_uint8(b, cFIRST_CHAR, cLAST_CHAR)`, taken as inclusive. */
  predicate Printable(b: uint8)
  {
    FirstChar <= b <= LastChar
  }

  /** The absolute address of position `i`: `uiAddr + i` in uint32 arithmetic. */
  function AddrAt(f: Frame, i: nat): uint32
  {
    ToUint32(f.uiAddr + i)
  }

  /** Position `i` of the frame lies inside the window. */
  predicate Covered(f: Frame, i: nat)
  {
    InWindow(AddrAt(f, i), f.uiLower, f.uiUpper)
  }

  /** The character-column glyph of an in-window byte. */
  function Glyph(b: uint8): char8
  {
    if Printable(b) then b as char else '.'
  }

  /** The two hex cells of position `i`: its digits inside the window, blanks outside. */
  function HexCell(f: Frame, i: nat): (s: seq<char8>)
    requires i < |f.uiData|
    ensures |s| == 2
  {
    if Covered(f, i) then ByteToHex(f.uiData[i]) else "  "
  }

  /** The character cell of position `i`. */
  function CharCell(f: Frame, i: nat): char8
    requires i < |f.uiData|
  {
    if Covered(f, i) then Glyph(f.uiData[i]) else ' '
  }

  /** The fewest screen columns a layout is chosen for. */
  function MinCols(l: Layout): nat
  {
    match l
    case Cols85 => 85
    case Cols80 => 80
    case Cols64 => 64
    case Cols32 => 0
  }

  /** The layout chosen for a screen width (render.c lines 157-172): the widest one the screen admits. */
  function LayoutFor(cols: uint8): (r: Layout)
    ensures MinCols(r) <= cols
    ensures forall l: Layout :: MinCols(l) <= cols ==> MinCols(l) <= MinCols(r)
  {
    if 85 <= cols then Cols85
    else if 80 <= cols then Cols80
    else if 64 <= cols then Cols64
    else Cols32
  }

  /** The number of characters of a whole line, address prefix included. */
  function LineLength(cols: uint8, stride: nat): nat
  {
    if 80 <= cols then 11 + 4 * stride
    else if 64 <= cols then 8 + stride + 5 * ((stride + 1) / 2)
    else 8 + 3 * stride
  }

  /** A wider screen never gets a shorter line for the same stride. */
  lemma LineLengthMonotone(narrow: uint8, wide: uint8, stride: nat)
    requires narrow <= wide
    ensures MinCols(LayoutFor(narrow)) <= MinCols(LayoutFor(wide))
    ensures LineLength(narrow, stride) <= LineLength(wide, stride)
  {
    var h := (stride + 1) / 2;
    assert stride <= 2 * h <= stride + 1;
  }

  /** The six-character address prefix: bits 23-16, 15-8 and 7-0 of `addr`. */
  function AddressText(addr: uint32): (s: seq<char8>)
    ensures |s| == 6
    ensures DecodeHexPair(s[0..2]) == Some((addr / 0x10000) % 0x100)
    ensures DecodeHexPair(s[2..4]) == Some((addr / 0x100) % 0x100)
    ensures DecodeHexPair(s[4..6]) == Some(addr % 0x100)
  {
    var s := ByteToHex((addr / 0x10000) % 0x100) + ByteToHex((addr / 0x100) % 0x100) + ByteToHex(addr % 0x100);
    ByteToHexRoundTrip((addr / 0x10000) % 0x100);
    ByteToHexRoundTrip((addr / 0x100) % 0x100);
    ByteToHexRoundTrip(addr % 0x100);
    assert s[0..2] == ByteToHex((addr / 0x10000) % 0x100);
    assert s[2..4] == ByteToHex((addr / 0x100) % 0x100);
    assert s[4..6] == ByteToHex(addr % 0x100);
    s
  }

  /** The character column of the first `k` positions. */
  function CharColumn(f: Frame, k: nat): (s: seq<char8>)
    requires k <= |f.uiData|
    ensures |s| == k
    ensures forall i :: 0 <= i < k ==> s[i] == CharCell(f, i)
  {
    if k == 0 then [] else CharColumn(f, k - 1) + [CharCell(f, k - 1)]
  }

  /** Hex column of the 85-column layout: a space before every cell pair. */
  function HexSpaced(f: Frame, k: nat): (s: seq<char8>)
    requires k <= |f.uiData|
    ensures |s| == 3 * k
    ensures forall i :: 0 <= i < k ==>
      s[3 * i] == ' ' && s[3 * i + 1] == HexCell(f, i)[0] && s[3 * i + 2] == HexCell(f, i)[1]
  {
    if k == 0 then [] else HexSpaced(f, k - 1) + [' '] + HexCell(f, k - 1)
  }

  /** Hex column of the 80-column layout: a space after every cell pair. */
  function HexTrailing(f: Frame, k: nat): (s: seq<char8>)
    requires k <= |f.uiData|
    ensures |s| == 3 * k
    ensures forall i :: 0 <= i < k ==>
      s[3 * i] == HexCell(f, i)[0] && s[3 * i + 1] == HexCell(f, i)[1] && s[3 * i + 2] == ' '
  {
    if k == 0 then [] else HexTrailing(f, k - 1) + HexCell(f, k - 1) + [' ']
  }

  /** Hex column of the 32-column layout: cell pairs packed without spaces. */
  function HexPacked(f: Frame, k: nat): (s: seq<char8>)
    requires k <= |f.uiData|
    ensures |s| == 2 * k
    ensures forall i :: 0 <= i < k ==> s[2 * i] == HexCell(f, i)[0] && s[2 * i + 1] == HexCell(f, i)[1]
  {
    if k == 0 then [] else HexPacked(f, k - 1) + HexCell(f, k - 1)
  }

  /** renderFrame_85 (render.c lines 199-234), after the address prefix. */
  function Line85(f: Frame): seq<char8>
    requires f.uiStride <= |f.uiData|
  {
    [' ', Separator] + HexSpaced(f, f.uiStride) + [' ', Separator, ' '] + CharColumn(f, f.uiStride)
  }

  /** renderFrame_80 (render.c lines 256-291), after the address prefix. */
  function Line80(f: Frame): seq<char8>
    requires f.uiStride <= |f.uiData|
  {
    [' ', Separator, ' '] + HexTrailing(f, f.uiStride) + [Separator, ' '] + CharColumn(f, f.uiStride)
  }

  /** renderFrame_32 (render.c lines 373-403), after the address prefix. */
  function Line32(f: Frame): seq<char8>
    requires f.uiStride <= |f.uiData|
  {
    [Separator] + HexPacked(f, f.uiStride) + [Separator] + CharColumn(f, f.uiStride)
  }

  /** One character position of the buffer as the 64-column layout treats it:
      written with a character, or stepped over and left as it was. */
  datatype Cell = Put(c: char8) | Keep

  function Lift(s: seq<char8>): (r: seq<Cell>)
    ensures |r| == |s|
  {
    seq(|s|, k requires 0 <= k < |s| => Put(s[k]))
  }

  /** The buffer `mem` after the cells are applied from its start. */
  function Overlay(mem: seq<char8>, cells: seq<Cell>): (r: seq<char8>)
    requires |cells| <= |mem|
    ensures |r| == |mem|
  {
    seq(|mem|, k requires 0 <= k < |mem| => if k < |cells| && cells[k].Put? then cells[k].c else mem[k])
  }

  /** The second cell pair of a 64-column group, as written: for an
      out-of-window position the index moves on but nothing is written
      (render.c lines 328-332). */
  function OddPairAsWritten(f: Frame, i: nat): (r: seq<Cell>)
    requires i < |f.uiData|
    ensures |r| == 2
  {
    if Covered(f, i) then Lift(ByteToHex(f.uiData[i])) else [Keep, Keep]
  }

  /** The hex column of the 64-column layout for the first `p` position pairs. */
  function HexGrouped(f: Frame, p: nat): (s: seq<Cell>)
    requires 2 * p <= |f.uiData|
    ensures |s| == 5 * p
  {
    if p == 0 then [] else HexGrouped(f, p - 1) + Group64(f, p - 1)
  }

  /** One group of the 64-column hex column as written: the even position's
      cells, the odd position's cells or, outside the window, nothing, then a
      space. */
  function Group64(f: Frame, q: nat): (g: seq<Cell>)
    requires 2 * q + 1 < |f.uiData|
    ensures |g| == 5
  {
    Lift(HexCell(f, 2 * q)) + OddPairAsWritten(f, 2 * q + 1) + [Put(' ')]
  }

  /** A slice inside the first part of a concatenation. */
  lemma SliceOfPrefix<T>(a: seq<T>, b: seq<T>, i: nat, j: nat)
    requires i <= j <= |a|
    ensures (a + b)[i..j] == a[i..j]
  {
  }

  /** Group `q` sits at offset `5 * q` of the hex column. */
  lemma {:induction false} HexGroupedAt(f: Frame, p: nat, q: nat)
    requires 2 * p <= |f.uiData|
    requires q < p
    ensures HexGrouped(f, p)[5 * q..5 * q + 5] == Group64(f, q)
    decreases p
  {
    var prev := HexGrouped(f, p - 1);
    if q < p - 1 {
      HexGroupedAt(f, p - 1, q);
      SliceOfPrefix(prev, Group64(f, p - 1), 5 * q, 5 * q + 5);
    }
  }

  /** What group `q` shows, cell by cell. */
  lemma Group64Cells(f: Frame, q: nat)
    requires 2 * q + 1 < |f.uiData|
    ensures var g := Group64(f, q);
      && g[0] == Put(HexCell(f, 2 * q)[0])
      && g[1] == Put(HexCell(f, 2 * q)[1])
      && (Covered(f, 2 * q + 1) ==>
            g[2] == Put(HexCell(f, 2 * q + 1)[0]) && g[3] == Put(HexCell(f, 2 * q + 1)[1]))
      && (!Covered(f, 2 * q + 1) ==> g[2] == Keep && g[3] == Keep)
      && g[4] == Put(' ')
  {
  }

  /** The number of position pairs the 64-column loop visits (`i += 2` while `i < uiStride`). */
  function Pairs(stride: nat): nat
  {
    (stride + 1) / 2
  }

  /** renderFrame_64 (render.c lines 313-351), after the address prefix. */
  function Cells64(f: Frame): seq<Cell>
    requires 2 * Pairs(f.uiStride) <= |f.uiData|
  {
    [Put(Separator)] + HexGrouped(f, Pairs(f.uiStride)) + [Put(Separator)] + Lift(CharColumn(f, f.uiStride))
  }

  /** What the render buffer must provide for `renderFrame` to stay inside
      its arrays and to terminate: the frame buffer holds every position the
      chosen layout reads (the 64-column layout also reads position
      `uiStride` when the stride is odd), the text buffer holds the line and
      its terminator, and the 64-column loop's uint8 counter, stepping by
      two, does not wrap around (it would for a stride of 255). */
  predicate Renderable(cols: uint8, f: Frame, buf: RenderBuffer)
  {
    && f.uiStride <= |f.uiData|
    && (LayoutFor(cols) == Cols64 ==> f.uiStride < 255 && 2 * Pairs(f.uiStride) <= |f.uiData|)
    && LineLength(cols, f.uiStride) < |buf.acData|
  }

  /** The cells a layout writes after the address prefix. */
  function LayoutCells(cols: uint8, f: Frame): (r: seq<Cell>)
    requires f.uiStride <= |f.uiData|
    requires LayoutFor(cols) == Cols64 ==> 2 * Pairs(f.uiStride) <= |f.uiData|
    ensures |r| + 6 == LineLength(cols, f.uiStride)
  {
    match LayoutFor(cols)
    case Cols85 => Lift(Line85(f))
    case Cols80 => Lift(Line80(f))
    case Cols64 => Cells64(f)
    case Cols32 => Lift(Line32(f))
  }

  //---------------------------------------------------------------------------
  // What a rendered line shows, stated position by position.
  //---------------------------------------------------------------------------

  /** The first six characters are the hex of address bits 23-16, 15-8 and 7-0. */
  ghost predicate ShowsAddress(out: seq<char8>, addr: uint32)
  {
    && |out| >= 6
    && DecodeHexPair(out[0..2]) == Some((addr / 0x10000) % 0x100)
    && DecodeHexPair(out[2..4]) == Some((addr / 0x100) % 0x100)
    && DecodeHexPair(out[4..6]) == Some(addr % 0x100)
  }

  /** The text after the address in the 85- and 80-column layouts: ` |`,
      then ` hh` per position, then ` | `, then one glyph per position. */
  ghost predicate WideText(s: seq<char8>, f: Frame)
    requires f.uiStride <= |f.uiData|
  {
    var n: nat := f.uiStride;
    && |s| == 5 + 4 * n
    && s[0] == ' ' && s[1] == '|'
    && (forall i: nat :: i < n ==>
          s[2 + 3 * i] == ' ' && s[3 + 3 * i] == HexCell(f, i)[0] && s[4 + 3 * i] == HexCell(f, i)[1])
    && s[2 + 3 * n] == ' ' && s[3 + 3 * n] == '|' && s[4 + 3 * n] == ' '
    && (forall i: nat :: i < n ==> s[5 + 3 * n + i] == CharCell(f, i))
  }

  /** The text after the address in the 32-column layout: `|`, the packed
      cells, `|`, one glyph per position. */
  ghost predicate NarrowText(s: seq<char8>, f: Frame)
    requires f.uiStride <= |f.uiData|
  {
    var n: nat := f.uiStride;
    && |s| == 2 + 3 * n
    && s[0] == '|'
    && (forall i: nat :: i < n ==> s[1 + 2 * i] == HexCell(f, i)[0] && s[2 + 2 * i] == HexCell(f, i)[1])
    && s[1 + 2 * n] == '|'
    && (forall i: nat :: i < n ==> s[2 + 2 * n + i] == CharCell(f, i))
  }

  /** The text after the address in the 64-column layout: `|`, then per pair
      of positions their cells and a space, then `|`, then one glyph per
      position. The second cells of an out-of-window odd position keep what
      `prior` held there. */
  ghost predicate MediumText(s: seq<char8>, prior: seq<char8>, f: Frame)
    requires 2 * Pairs(f.uiStride) <= |f.uiData|
  {
    var n: nat := f.uiStride;
    var p := Pairs(n);
    && |s| == 2 + 5 * p + n && |prior| == |s|
    && s[0] == '|'
    && (forall q: nat {:trigger HexCell(f, 2 * q)} :: q < p ==>
          && s[1 + 5 * q] == HexCell(f, 2 * q)[0] && s[2 + 5 * q] == HexCell(f, 2 * q)[1]
          && (Covered(f, 2 * q + 1) ==>
                s[3 + 5 * q] == HexCell(f, 2 * q + 1)[0] && s[4 + 5 * q] == HexCell(f, 2 * q + 1)[1])
          && (!Covered(f, 2 * q + 1) ==> s[3 + 5 * q] == prior[3 + 5 * q] && s[4 + 5 * q] == prior[4 + 5 * q])
          && s[5 + 5 * q] == ' ')
    && s[1 + 5 * p] == '|'
    && (forall i: nat :: i < n ==> s[2 + 5 * p + i] == CharCell(f, i))
  }

  /** A successful `renderFrame` of `f` on a `cols`-wide screen over the
      buffer `prior` left `out`: the address, the layout's text, a NUL, the
      rest of the buffer untouched, and the length as a uint8. */
  ghost predicate RenderedFrame(cols: uint8, f: Frame, prior: RenderBuffer, out: RenderBuffer)
    requires Renderable(cols, f, prior)
  {
    var len := LineLength(cols, f.uiStride);
    && |out.acData| == |prior.acData|
    && out.uiLen == ToUint8(len)
    && out.acData[len] == '\0'
    && (forall k :: len < k < |prior.acData| ==> out.acData[k] == prior.acData[k])
    && ShowsAddress(out.acData, f.uiAddr)
    && (80 <= cols ==> WideText(out.acData[6..len], f))
    && (64 <= cols < 80 ==> MediumText(out.acData[6..len], prior.acData[6..len], f))
    && (cols < 64 ==> NarrowText(out.acData[6..len], f))
  }

  //---------------------------------------------------------------------------
  // The layouts meet their descriptions.
  //---------------------------------------------------------------------------

  lemma Line85IsWide(f: Frame)
    requires f.uiStride <= |f.uiData|
    ensures WideText(Line85(f), f)
  {
    var n: nat := f.uiStride;
    var s := Line85(f);
    var h := HexSpaced(f, n);
    forall i: nat | i < n
      ensures s[2 + 3 * i] == ' ' && s[3 + 3 * i] == HexCell(f, i)[0] && s[4 + 3 * i] == HexCell(f, i)[1]
    {
      assert s[2 + 3 * i] == h[3 * i];
      assert s[3 + 3 * i] == h[3 * i + 1];
      assert s[4 + 3 * i] == h[3 * i + 2];
    }
    forall i: nat | i < n
      ensures s[5 + 3 * n + i] == CharCell(f, i)
    {
      assert s[5 + 3 * n + i] == CharColumn(f, n)[i];
    }
  }

  /** Moving the separating space from after each cell pair to before it
      shifts the whole column by one space. */
  lemma {:induction false} HexTrailingShift(f: Frame, k: nat)
    requires k <= |f.uiData|
    ensures [' '] + HexTrailing(f, k) == HexSpaced(f, k) + [' ']
  {
    if k > 0 {
      HexTrailingShift(f, k - 1);
      MoveFront([' '], HexTrailing(f, k - 1), HexSpaced(f, k - 1), HexCell(f, k - 1));
    }
  }

  /** One step of the shift: `sp` moved from the front of `a` to the end of
      `b` stays moved when `c` and another `sp` follow. */
  lemma MoveFront(sp: seq<char8>, a: seq<char8>, b: seq<char8>, c: seq<char8>)
    requires sp + a == b + sp
    ensures sp + (a + c + sp) == (b + sp + c) + sp
  {
    calc {
      sp + (a + c + sp);
      (sp + a) + c + sp;
      (b + sp) + c + sp;
    }
  }

  /** The 85-column and the 80-column layouts emit the same text. */
  lemma {:induction false} Line85EqualsLine80(f: Frame)
    requires f.uiStride <= |f.uiData|
    ensures Line85(f) == Line80(f)
  {
    var n := f.uiStride;
    var c := CharColumn(f, n);
    HexTrailingShift(f, n);
    calc {
      Line80(f);
      [' ', Separator] + ([' '] + HexTrailing(f, n)) + [Separator, ' '] + c;
      [' ', Separator] + (HexSpaced(f, n) + [' ']) + [Separator, ' '] + c;
      Line85(f);
    }
  }

  lemma Line80IsWide(f: Frame)
    requires f.uiStride <= |f.uiData|
    ensures WideText(Line80(f), f)
  {
    Line85EqualsLine80(f);
    Line85IsWide(f);
  }

  lemma Line32IsNarrow(f: Frame)
    requires f.uiStride <= |f.uiData|
    ensures NarrowText(Line32(f), f)
  {
    var n: nat := f.uiStride;
    var s := Line32(f);
    var h := HexPacked(f, n);
    forall i: nat | i < n
      ensures s[1 + 2 * i] == HexCell(f, i)[0] && s[2 + 2 * i] == HexCell(f, i)[1]
    {
      assert s[1 + 2 * i] == h[2 * i];
      assert s[2 + 2 * i] == h[2 * i + 1];
    }
    forall i: nat | i < n
      ensures s[2 + 2 * n + i] == CharCell(f, i)
    {
      assert s[2 + 2 * n + i] == CharColumn(f, n)[i];
    }
  }

  // Where the parts of the 64-column cells sit, one fact per lemma.

  lemma Cells64Length(f: Frame)
    requires 2 * Pairs(f.uiStride) <= |f.uiData|
    ensures |Cells64(f)| == 2 + 5 * Pairs(f.uiStride) + f.uiStride
  {
  }

  lemma Cells64Separators(f: Frame)
    requires 2 * Pairs(f.uiStride) <= |f.uiData|
    ensures Cells64(f)[0] == Put(Separator)
    ensures Cells64(f)[1 + 5 * Pairs(f.uiStride)] == Put(Separator)
  {
  }

  lemma Cells64Chars(f: Frame, i: nat)
    requires 2 * Pairs(f.uiStride) <= |f.uiData|
    requires i < f.uiStride
    ensures Cells64(f)[2 + 5 * Pairs(f.uiStride) + i] == Put(CharColumn(f, f.uiStride)[i])
  {
  }

  /** One group of the 64-column hex column, read back from the buffer. */
  lemma Cells64GroupAt(f: Frame, prior: seq<char8>, q: nat)
    requires 2 * Pairs(f.uiStride) <= |f.uiData|
    requires |prior| == |Cells64(f)|
    requires q < Pairs(f.uiStride)
    ensures var s := Overlay(prior, Cells64(f));
      && s[1 + 5 * q] == HexCell(f, 2 * q)[0] && s[2 + 5 * q] == HexCell(f, 2 * q)[1]
      && (Covered(f, 2 * q + 1) ==>
            s[3 + 5 * q] == HexCell(f, 2 * q + 1)[0] && s[4 + 5 * q] == HexCell(f, 2 * q + 1)[1])
      && (!Covered(f, 2 * q + 1) ==> s[3 + 5 * q] == prior[3 + 5 * q] && s[4 + 5 * q] == prior[4 + 5 * q])
      && s[5 + 5 * q] == ' '
  {
    var c := Cells64(f);
    var g := Group64(f, q);
    Cells64Group(f, q);
    Group64Cells(f, q);
    assert c[1 + 5 * q] == g[0] && c[2 + 5 * q] == g[1] && c[3 + 5 * q] == g[2]
        && c[4 + 5 * q] == g[3] && c[5 + 5 * q] == g[4];
  }

  /** Group `q` sits at offset `1 + 5 * q` of the 64-column cells. */
  lemma Cells64Group(f: Frame, q: nat)
    requires 2 * Pairs(f.uiStride) <= |f.uiData|
    requires q < Pairs(f.uiStride)
    ensures |Cells64(f)| == 2 + 5 * Pairs(f.uiStride) + f.uiStride
    ensures Cells64(f)[1 + 5 * q..6 + 5 * q] == Group64(f, q)
  {
    var h := HexGrouped(f, Pairs(f.uiStride));
    HexGroupedAt(f, Pairs(f.uiStride), q);
    assert Cells64(f) == [Put(Separator)] + h + [Put(Separator)] + Lift(CharColumn(f, f.uiStride));
    assert Cells64(f)[1 + 5 * q..6 + 5 * q] == h[5 * q..5 * q + 5];
  }

  lemma Cells64IsMedium(f: Frame, prior: seq<char8>)
    requires 2 * Pairs(f.uiStride) <= |f.uiData|
    requires |prior| == |Cells64(f)|
    ensures MediumText(Overlay(prior, Cells64(f)), prior, f)
  {
    var n: nat := f.uiStride;
    var p := Pairs(n);
    var s := Overlay(prior, Cells64(f));
    Cells64Length(f);
    Cells64Separators(f);
    forall q: nat | q < p
      ensures && s[1 + 5 * q] == HexCell(f, 2 * q)[0] && s[2 + 5 * q] == HexCell(f, 2 * q)[1]
              && (Covered(f, 2 * q + 1) ==>
                    s[3 + 5 * q] == HexCell(f, 2 * q + 1)[0] && s[4 + 5 * q] == HexCell(f, 2 * q + 1)[1])
              && (!Covered(f, 2 * q + 1) ==> s[3 + 5 * q] == prior[3 + 5 * q] && s[4 + 5 * q] == prior[4 + 5 * q])
              && s[5 + 5 * q] == ' '
    {
      Cells64GroupAt(f, prior, q);
    }
    forall i: nat | i < n
      ensures s[2 + 5 * p + i] == CharCell(f, i)
    {
      Cells64Chars(f, i);
    }
  }

  //---------------------------------------------------------------------------
  // renderFrame
  //---------------------------------------------------------------------------

  /** The successful path of `renderFrame`: the address prefix and the
      layout's cells applied to the buffer, a terminating NUL after them, and
      the length truncated to the uint8 `uiLen`. */
  function Draw(cols: uint8, f: Frame, buf: RenderBuffer): RenderBuffer
    requires Renderable(cols, f, buf)
  {
    var cells := Lift(AddressText(f.uiAddr)) + LayoutCells(cols, f);
    RenderBuffer(Overlay(buf.acData, cells)[|cells| := '\0'], ToUint8(|cells|))
  }

  /** Applying a prefix of plain characters followed by `body` and ending
      the text with a NUL leaves the prefix in front and `body` applied to
      the part of the buffer after it. */
  lemma OverlayPrefix(mem: seq<char8>, a: seq<char8>, body: seq<Cell>)
    requires |a| + |body| < |mem|
    ensures var n := |a| + |body|; var out := Overlay(mem, Lift(a) + body)[n := '\0'];
      && out[..|a|] == a
      && out[|a|..n] == Overlay(mem[|a|..n], body)
  {
    var n := |a| + |body|;
    var cells := Lift(a) + body;
    var out := Overlay(mem, cells)[n := '\0'];
    forall k | 0 <= k < |a|
      ensures out[k] == a[k]
    {
      assert cells[k] == Put(a[k]);
    }
    var o := Overlay(mem[|a|..n], body);
    forall j | 0 <= j < |body|
      ensures out[|a| + j] == o[j]
    {
      assert cells[|a| + j] == body[j];
    }
    assert out[|a|..n] == o;
  }

  /** How `Draw` lays the prefix and the layout's cells into the buffer. */
  lemma DrawSlices(cols: uint8, f: Frame, buf: RenderBuffer)
    requires Renderable(cols, f, buf)
    ensures var out := Draw(cols, f, buf).acData; var len := LineLength(cols, f.uiStride);
      && out[..6] == AddressText(f.uiAddr)
      && out[6..len] == Overlay(buf.acData[6..len], LayoutCells(cols, f))
  {
    OverlayPrefix(buf.acData, AddressText(f.uiAddr), LayoutCells(cols, f));
  }

  lemma OverlayLift(mem: seq<char8>, s: seq<char8>)
    requires |mem| == |s|
    ensures Overlay(mem, Lift(s)) == s
  {
  }

  lemma DrawAddress(cols: uint8, f: Frame, buf: RenderBuffer)
    requires Renderable(cols, f, buf)
    ensures ShowsAddress(Draw(cols, f, buf).acData, f.uiAddr)
  {
    var out := Draw(cols, f, buf).acData;
    var a := AddressText(f.uiAddr);
    DrawSlices(cols, f, buf);
    assert out[0..2] == a[0..2] && out[2..4] == a[2..4] && out[4..6] == a[4..6];
  }

  lemma DrawLayout(cols: uint8, f: Frame, buf: RenderBuffer)
    requires Renderable(cols, f, buf)
    ensures var out := Draw(cols, f, buf).acData; var len := LineLength(cols, f.uiStride);
      && (80 <= cols ==> WideText(out[6..len], f))
      && (64 <= cols < 80 ==> MediumText(out[6..len], buf.acData[6..len], f))
      && (cols < 64 ==> NarrowText(out[6..len], f))
  {
    var len := LineLength(cols, f.uiStride);
    var prior := buf.acData[6..len];
    DrawSlices(cols, f, buf);
    match LayoutFor(cols)
    case Cols85 =>
      OverlayLift(prior, Line85(f));
      Line85IsWide(f);
    case Cols80 =>
      OverlayLift(prior, Line80(f));
      Line80IsWide(f);
    case Cols64 =>
      Cells64IsMedium(f, prior);
    case Cols32 =>
      OverlayLift(prior, Line32(f));
      Line32IsNarrow(f);
  }

  /** `Draw` meets the position-by-position description of a rendered line. */
  lemma DrawShows(cols: uint8, f: Frame, buf: RenderBuffer)
    requires Renderable(cols, f, buf)
    ensures RenderedFrame(cols, f, buf, Draw(cols, f, buf))
  {
    DrawAddress(cols, f, buf);
    DrawLayout(cols, f, buf);
  }

  /** renderFrame (render.c lines 138-181): EINVAL when any of the screen,
      frame or render buffer is missing; otherwise the line is rendered. */
  function RenderFrame(pScreen: Option<ScreenInfo>, pRead: Option<Frame>, pRender: Option<RenderBuffer>)
    : (r: (Errno, Option<RenderBuffer>))
    requires pScreen.Some? && pRead.Some? && pRender.Some? ==>
      Renderable(pScreen.value.uiCols, pRead.value, pRender.value)
    ensures r.0 == EOK <==> pScreen.Some? && pRead.Some? && pRender.Some?
    ensures r.0 != EOK ==> r.0 == EINVAL && r.1 == pRender
    ensures r.0 == EOK ==> r.1.Some? && RenderedFrame(pScreen.value.uiCols, pRead.value, pRender.value, r.1.value)
  {
    if pScreen.None? || pRead.None? || pRender.None? then (EINVAL, pRender)
    else
      DrawShows(pScreen.value.uiCols, pRead.value, pRender.value);
      (EOK, Some(Draw(pScreen.value.uiCols, pRead.value, pRender.value)))
  }
}
