/** The frame saver (src/save.c): a rendered line plus a newline, or a raw
    byte range of the frame, written to an output file. */
module Save {
  import opened Types
  import opened Render

  /** INV_FILE_HND: the handle value meaning "no file open". */
  const InvFileHnd: uint8 := 0xFF

  /** fileinfo_t as the saver uses it: the open handle. */
  datatype FileInfo = FileInfo(hFile: uint8)

  /** The output device behind a file handle: the bytes written so far and
      how many more it will accept. */
  datatype Sink = Sink(written: seq<uint8>, room: nat)

  function Min(a: nat, b: nat): nat
  {
    if a <= b then a else b
  }

  /** esx_f_write: the device takes as many of the requested bytes as it has
      room for, appends them, and reports how many it took. */
  function Write(sink: Sink, bytes: seq<uint8>): (r: (nat, Sink))
    ensures r.0 <= |bytes| && r.0 <= sink.room
    ensures r.0 < |bytes| ==> r.0 == sink.room
    ensures r.1 == Sink(sink.written + bytes[..r.0], sink.room - r.0)
  {
    var n := Min(|bytes|, sink.room);
    (n, Sink(sink.written + bytes[..n], sink.room - n))
  }

  /** The bytes of a piece of text. */
  function TextBytes(s: seq<char8>): (r: seq<uint8>)
    ensures |r| == |s|
  {
    seq(|s|, k requires 0 <= k < |s| => s[k] as int)
  }

  /** The line the text path writes: the first `uiLen` characters of the buffer. */
  function LineBytes(b: RenderBuffer): seq<uint8>
    requires b.uiLen <= |b.acData|
  {
    TextBytes(b.acData[..b.uiLen])
  }

  /** The outcome of the text path on an open file: the line, then "\n";
      a short write of the line is EBADF and the newline is not attempted. */
  ghost predicate TextSaved(b: RenderBuffer, sink: Sink, r: (Errno, Sink))
    requires b.uiLen <= |b.acData|
  {
    var line := LineBytes(b);
    && (sink.room > |line| ==> r.0 == EOK && r.1.written == sink.written + line + [0x0A])
    && (sink.room <= |line| ==> r.0 == EBADF && r.1.written == sink.written + line[..sink.room])
  }

  /** saveFrame_hex (save.c lines 126-157). */
  function SaveFrameHex(pRender: Option<RenderBuffer>, pFile: Option<FileInfo>, sink: Sink): (r: (Errno, Sink))
    requires pRender.Some? ==> pRender.value.uiLen <= |pRender.value.acData|
    ensures pRender.None? || pFile.None? ==> r == (EINVAL, sink)
    ensures pRender.Some? && pFile.Some? && pFile.value.hFile == InvFileHnd ==> r == (EOK, sink)
    ensures pRender.Some? && pFile.Some? && pFile.value.hFile != InvFileHnd ==> TextSaved(pRender.value, sink, r)
  {
    if pRender.None? || pFile.None? then (EINVAL, sink)
    else if pFile.value.hFile == InvFileHnd then (EOK, sink)
    else
      var line := LineBytes(pRender.value);
      var w1 := Write(sink, line);
      if w1.0 != pRender.value.uiLen then (EBADF, w1.1)
      else
        var w2 := Write(w1.1, [0x0A]);
        if w2.0 != 1 then (EBADF, w2.1)
        else
          assert w1.1.written == sink.written + line;
          (EOK, w2.1)
  }

  //---------------------------------------------------------------------------
  // The raw path.
  //---------------------------------------------------------------------------

  /** The sub-range of the frame buffer the raw path writes, all uint8. */
  datatype Range = Range(from: uint8, to: uint8, len: uint8)

  /** The range arithmetic of saveFrame_raw (save.c lines 175-179), as written.
      `from` skips the part of the frame before the window; for a frame that
      reaches the window's end, `to` is how far the frame overshoots it; and
      `len` is the uint8 difference. */
  function RawRange(f: Frame): Range
  {
    var from := if f.uiAddr < f.uiLower then ToUint8(f.uiLower - f.uiAddr) else 0;
    var end := ToUint32(f.uiAddr + f.uiStride);
    var to := if end >= f.uiUpper then ToUint8(end - f.uiUpper) else f.uiStride;
    Range(from, to, ToUint8(to - from))
  }

  /** The byte at offset `k` from the start of the frame buffer. Offsets past
      the buffer read the memory that follows it, given by `following`. */
  function BufferAt(f: Frame, following: nat -> uint8, k: nat): uint8
  {
    if k < |f.uiData| then f.uiData[k] else following(k - |f.uiData|)
  }

  /** `count` bytes of the buffer starting at offset `start`. */
  function BufferSlice(f: Frame, following: nat -> uint8, start: nat, count: nat): (r: seq<uint8>)
    ensures |r| == count
    ensures forall k :: 0 <= k < count ==> r[k] == BufferAt(f, following, start + k)
  {
    if count == 0 then [] else BufferSlice(f, following, start, count - 1) + [BufferAt(f, following, start + count - 1)]
  }

  /** The bytes `&uiData[from]` .. `&uiData[from + len]` the raw path hands to the device. */
  function RawBytes(f: Frame, following: nat -> uint8): seq<uint8>
  {
    BufferSlice(f, following, RawRange(f).from, RawRange(f).len)
  }

  /** The outcome of the raw path on an open file. */
  ghost predicate RawSaved(f: Frame, following: nat -> uint8, sink: Sink, r: (Errno, Sink))
  {
    var bytes := RawBytes(f, following);
    && (sink.room >= |bytes| ==> r.0 == EOK && r.1.written == sink.written + bytes)
    && (sink.room < |bytes| ==> r.0 == EBADF && r.1.written == sink.written + bytes[..sink.room])
  }

  /** saveFrame_raw (save.c lines 163-193). */
  function SaveFrameRaw(pRead: Option<Frame>, pFile: Option<FileInfo>, sink: Sink, following: nat -> uint8)
    : (r: (Errno, Sink))
    ensures pRead.None? || pFile.None? ==> r == (EINVAL, sink)
    ensures pRead.Some? && pFile.Some? && pFile.value.hFile == InvFileHnd ==> r == (EOK, sink)
    ensures pRead.Some? && pFile.Some? && pFile.value.hFile != InvFileHnd ==> RawSaved(pRead.value, following, sink, r)
  {
    if pRead.None? || pFile.None? then (EINVAL, sink)
    else if pFile.value.hFile == InvFileHnd then (EOK, sink)
    else
      var bytes := RawBytes(pRead.value, following);
      var w := Write(sink, bytes);
      if w.0 != RawRange(pRead.value).len then (EBADF, w.1) else (EOK, w.1)
  }

  /** saveFrame (save.c lines 103-120): a render buffer selects the text
      path, its absence the raw path. */
  function SaveFrame(pRead: Option<Frame>, pRender: Option<RenderBuffer>, pFile: Option<FileInfo>, sink: Sink,
                     following: nat -> uint8): (r: (Errno, Sink))
    requires pRender.Some? ==> pRender.value.uiLen <= |pRender.value.acData|
    ensures pFile.None? || (pRender.None? && pRead.None?) ==> r == (EINVAL, sink)
    ensures pFile.Some? && pFile.value.hFile == InvFileHnd && (pRender.Some? || pRead.Some?) ==> r == (EOK, sink)
    ensures pRender.Some? && pFile.Some? && pFile.value.hFile != InvFileHnd ==> TextSaved(pRender.value, sink, r)
    ensures pRender.None? && pRead.Some? && pFile.Some? && pFile.value.hFile != InvFileHnd ==>
      RawSaved(pRead.value, following, sink, r)
    ensures r.0 == EOK || r.0 == EINVAL || r.0 == EBADF
    ensures sink.written <= r.1.written
  {
    if pRender.Some? then SaveFrameHex(pRender, pFile, sink)
    else SaveFrameRaw(pRead, pFile, sink, following)
  }

  //---------------------------------------------------------------------------
  // What the raw range covers, as written and as evidently intended.
  //---------------------------------------------------------------------------

  /** The in-window sub-range of a frame, `[max(0, lower - addr), min(stride, upper - addr))`
      clamped to the frame: what the raw path evidently means to write. */
  function ClippedRange(f: Frame): (r: (nat, nat))
    ensures r.0 <= r.1 <= f.uiStride
    ensures f.uiAddr + f.uiStride <= 0x1_0000_0000 ==>
      forall i: nat :: i < f.uiStride ==> (r.0 <= i < r.1 <==> Covered(f, i))
  {
    var lo := if f.uiLower <= f.uiAddr then 0
              else if f.uiLower - f.uiAddr <= f.uiStride then f.uiLower - f.uiAddr else f.uiStride;
    var hi := if f.uiUpper <= f.uiAddr + lo then lo
              else if f.uiUpper - f.uiAddr <= f.uiStride then f.uiUpper - f.uiAddr else f.uiStride;
    (lo, hi)
  }

  /** For a frame that ends before the window does, `to` is the stride.
      When the frame reaches into the window, the range as written is the
      clipped range. A frame lying wholly before the window, less than 256
      bytes before it, still gets a non-empty range, although none of its
      bytes is in the window. */
  lemma RawRangeInterior(f: Frame)
    requires f.uiAddr + f.uiStride < f.uiUpper
    ensures RawRange(f).to == f.uiStride
    ensures f.uiAddr >= f.uiLower || f.uiLower - f.uiAddr <= f.uiStride ==>
      RawRange(f).from == ClippedRange(f).0 && RawRange(f).from + RawRange(f).len == ClippedRange(f).1
    ensures f.uiAddr < f.uiLower && f.uiStride < f.uiLower - f.uiAddr < 0x100 ==>
      ClippedRange(f).0 == ClippedRange(f).1 && RawRange(f).len > 0
  {
  }

  /** For a frame that starts in the window and reaches its end, the code
      writes from the right place but writes the length of the frame's part
      beyond the window instead of the part inside it: the two agree only
      when the window ends exactly in the middle of the frame. */
  lemma RawRangeLastFrame(f: Frame)
    requires f.uiLower <= f.uiAddr < f.uiUpper <= f.uiAddr + f.uiStride < 0x1_0000_0000
    ensures RawRange(f).from == ClippedRange(f).0 == 0
    ensures RawRange(f).len + ClippedRange(f).1 == f.uiStride
    ensures RawRange(f).len == ClippedRange(f).1 <==> 2 * (f.uiUpper - f.uiAddr) == f.uiStride
  {
  }

  /** The frame at 0 with stride 8 over the window [5, 8): the intended range
      is positions 5..7, but the code writes 251 bytes starting at position
      5, running 248 bytes past the 8-byte frame into whatever follows it. */
  lemma RawLastFrameCounterexample(following: nat -> uint8)
    ensures var f := Frame(8, 0, 5, 8, [0, 1, 2, 3, 4, 5, 6, 7]);
            && RawRange(f) == Range(5, 0, 251)
            && ClippedRange(f) == (5, 8)
            && |RawBytes(f, following)| == 251
            && RawBytes(f, following)[3] == following(0)
  {
  }

  /** A window of exactly one aligned frame: the intended range is the whole
      frame, but the code as written writes nothing. */
  lemma RawAlignedFrameWritesNothing()
    ensures var f := Frame(16, 0, 0, 16, seq(16, _ => 0));
            RawRange(f).len == 0 && ClippedRange(f) == (0, 16)
  {
  }

  /** Saving an interior frame on the raw path writes exactly its in-window
      bytes, in order, when the device has room. */
  lemma RawInteriorWritesWindow(f: Frame, following: nat -> uint8, sink: Sink)
    requires f.uiStride <= |f.uiData|
    requires f.uiAddr + f.uiStride < f.uiUpper
    requires f.uiAddr >= f.uiLower || f.uiLower - f.uiAddr <= f.uiStride
    requires sink.room >= f.uiStride
    ensures var r := SaveFrame(Some(f), None, Some(FileInfo(0)), sink, following);
            var (lo, hi) := ClippedRange(f);
            r.0 == EOK && r.1.written == sink.written + f.uiData[lo..hi]
  {
    RawRangeInterior(f);
    var (lo, hi) := ClippedRange(f);
    assert RawBytes(f, following) == f.uiData[lo..hi];
  }

  /** The raw path as evidently intended: the frame's in-window bytes, and
      nothing outside the frame buffer, reach the device. */
  function SaveFrameRawClipped(pRead: Option<Frame>, pFile: Option<FileInfo>, sink: Sink): (r: (Errno, Sink))
    requires pRead.Some? ==> pRead.value.uiStride <= |pRead.value.uiData|
    ensures pRead.None? || pFile.None? ==> r == (EINVAL, sink)
    ensures pRead.Some? && pFile.Some? && pFile.value.hFile == InvFileHnd ==> r == (EOK, sink)
    ensures pRead.Some? && pFile.Some? && pFile.value.hFile != InvFileHnd ==>
      var f := pRead.value;
      var (lo, hi) := ClippedRange(f);
      && r.1.written == sink.written + f.uiData[lo..lo + Min(hi - lo, sink.room)]
      && (r.0 == EOK <==> sink.room >= hi - lo)
      && (r.0 != EOK ==> r.0 == EBADF)
  {
    if pRead.None? || pFile.None? then (EINVAL, sink)
    else if pFile.value.hFile == InvFileHnd then (EOK, sink)
    else
      var f := pRead.value;
      var (lo, hi) := ClippedRange(f);
      var w := Write(sink, f.uiData[lo..hi]);
      assert f.uiData[lo..hi][..w.0] == f.uiData[lo..lo + w.0];
      if w.0 != hi - lo then (EBADF, w.1) else (EOK, w.1)
  }

  /** The corrected raw path writes the frame's bytes at exactly the
      in-window positions, in order, for a frame that does not wrap past 2^32
      and a device with room. */
  lemma RawClippedWritesWindow(f: Frame, sink: Sink)
    requires f.uiStride <= |f.uiData|
    requires f.uiAddr + f.uiStride <= 0x1_0000_0000
    requires sink.room >= f.uiStride
    ensures var r := SaveFrameRawClipped(Some(f), Some(FileInfo(0)), sink);
      exists lo: nat, hi: nat ::
        && lo <= hi <= f.uiStride
        && r == (EOK, Sink(sink.written + f.uiData[lo..hi], sink.room - (hi - lo)))
        && forall i: nat :: i < f.uiStride ==> (lo <= i < hi <==> Covered(f, i))
  {
    var (lo, hi) := ClippedRange(f);
    var r := SaveFrameRawClipped(Some(f), Some(FileInfo(0)), sink);
    assert r == (EOK, Sink(sink.written + f.uiData[lo..hi], sink.room - (hi - lo)));
  }

  /** A rendered wide line from stride 62 on: `uiLen` is the line length
      modulo 256, shorter than the line. */
  lemma RenderedLengthTruncated(cols: uint8, f: Frame, buf: RenderBuffer)
    requires 80 <= cols && 62 <= f.uiStride
    requires Renderable(cols, f, buf)
    ensures var r := RenderFrame(Some(ScreenInfo(cols, 24)), Some(f), Some(buf));
      && r.0 == EOK && r.1.Some?
      && r.1.value.uiLen == (11 + 4 * f.uiStride) % 0x100 < 11 + 4 * f.uiStride < |r.1.value.acData|
  {
    var r := RenderFrame(Some(ScreenInfo(cols, 24)), Some(f), Some(buf));
    assert r.0 == EOK && r.1.Some?;
    WideRenderedLength(cols, f, buf, r.1.value);
  }

  /** The length facts of a rendered wide line. */
  lemma WideRenderedLength(cols: uint8, f: Frame, prior: RenderBuffer, out: RenderBuffer)
    requires 80 <= cols
    requires Renderable(cols, f, prior) && RenderedFrame(cols, f, prior, out)
    ensures out.uiLen == (11 + 4 * f.uiStride) % 0x100
    ensures 11 + 4 * f.uiStride < |out.acData|
  {
  }

  /** The text path on an open file with room: the first `uiLen` characters
      and a newline, whatever the line's real length. */
  lemma TextSavedWhole(b: RenderBuffer, sink: Sink)
    requires b.uiLen <= |b.acData|
    requires sink.room > b.uiLen
    ensures var saved := SaveFrameHex(Some(b), Some(FileInfo(0)), sink);
      && saved.0 == EOK
      && saved.1.written == sink.written + TextBytes(b.acData[..b.uiLen]) + [0x0A]
      && |saved.1.written| - |sink.written| == b.uiLen + 1
  {
  }

  /** `uiLen` holds the line length modulo 256, so from stride 62 on a screen
      of 80 or more columns the text path saves only the first
      `(11 + 4 * stride) % 256` characters of the rendered line, then the
      newline. */
  lemma TruncatedLineSaved(cols: uint8, f: Frame, buf: RenderBuffer, sink: Sink)
    requires 80 <= cols && 62 <= f.uiStride
    requires Renderable(cols, f, buf)
    requires sink.room > 0x100
    ensures var r := RenderFrame(Some(ScreenInfo(cols, 24)), Some(f), Some(buf));
      && r.0 == EOK
      && var out := r.1.value;
         var len := 11 + 4 * f.uiStride;
         var saved := SaveFrameHex(Some(out), Some(FileInfo(0)), sink);
         && out.uiLen < len
         && saved.0 == EOK
         && saved.1.written == sink.written + TextBytes(out.acData[..out.uiLen]) + [0x0A]
         && |saved.1.written| - |sink.written| == (len % 0x100) + 1
  {
    RenderedLengthTruncated(cols, f, buf);
    var out := RenderFrame(Some(ScreenInfo(cols, 24)), Some(f), Some(buf)).1.value;
    TextSavedWhole(out, sink);
  }
}
