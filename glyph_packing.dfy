/**
 * The per-glyph computation of `load_glyph`: the Xrender glyph metrics
 * derived from FreeType's rendered glyph slot, the row stride rounded up to
 * four bytes, and the zero-padded image buffer built row by row.
 */
module GlyphPacking {

  import opened Wrappers
  import opened RustInt

  /**
   * What FreeType leaves in the face's glyph slot after rendering one glyph:
   * the bitmap's left and top bearings in pixels, its width and number of
   * rows, the pen advance in 26.6 fixed point, and the 8-bit coverage buffer.
   * The loader treats the buffer as `rows` rows of exactly `width` bytes.
   */
  datatype GlyphSlot = GlyphSlot(
    bitmapLeft: int,
    bitmapTop: int,
    width: int,
    rows: int,
    advanceX: int,
    advanceY: int,
    buffer: seq<u8>)

  /** Xrender's `XGlyphInfo`: 16-bit size, origin and advance of one glyph. */
  datatype GlyphInfo = GlyphInfo(width: u16, height: u16, x: i16, y: i16, xOff: i16, yOff: i16)

  /**
   * The glyph info `load_glyph` builds from the slot. Every field is
   * converted with a truncating `as` cast; the advance is first divided by
   * 64 with Rust's signed division.
   */
  function Metrics(slot: GlyphSlot): GlyphInfo
  {
    GlyphInfo(
      width := WrapU16(slot.width),
      height := WrapU16(slot.rows),
      x := WrapI16(-slot.bitmapLeft),
      y := WrapI16(slot.bitmapTop),
      xOff := WrapI16(TruncDiv(slot.advanceX, 64)),
      yOff := WrapI16(TruncDiv(slot.advanceY, 64)))
  }

  predicate InI16(v: int) {
    -0x8000 <= v < 0x8000
  }

  /** `pixels` is the 26.6 value `fixed` with its fraction dropped toward zero. */
  predicate DropsFraction(fixed: int, pixels: int) {
    var rest := fixed - 64 * pixels;
    -64 < rest < 64 && (fixed >= 0 ==> rest >= 0) && (fixed <= 0 ==> rest <= 0)
  }

  /**
   * When the slot's values fit the 16-bit fields, the glyph info holds them
   * exactly: the origin is the negated left bearing and the top bearing,
   * the size is the bitmap's, and each advance is the whole-pixel part of
   * the 26.6 advance, rounded toward zero.
   */
  lemma MetricsOfFittingSlot(slot: GlyphSlot)
    requires 0 <= slot.width < 0x1_0000 && 0 <= slot.rows < 0x1_0000
    requires InI16(-slot.bitmapLeft) && InI16(slot.bitmapTop)
    requires InI16(TruncDiv(slot.advanceX, 64)) && InI16(TruncDiv(slot.advanceY, 64))
    ensures Metrics(slot).width as int == slot.width && Metrics(slot).height as int == slot.rows
    ensures Metrics(slot).x as int == -slot.bitmapLeft && Metrics(slot).y as int == slot.bitmapTop
    ensures DropsFraction(slot.advanceX, Metrics(slot).xOff as int)
    ensures DropsFraction(slot.advanceY, Metrics(slot).yOff as int)
  {
  }

  /**
   * `(width + 3) & !3` in `u16` arithmetic: the row stride, the width
   * rounded up to a multiple of four. The addition must not overflow.
   */
  function Stride(width: u16): (stride: u16)
    requires width <= 0xFFFC
    ensures stride % 4 == 0
    ensures width <= stride <= width + 3
  {
    var v := (width + 3) as int;
    ClearLowTwoBits(width + 3);
    DivModUnique(v, 4, v / 4, v % 4);
    assert v - v % 4 == 4 * (v / 4);
    BitAnd(v, Not16(3) as nat) as u16
  }

  /** No multiple of four at least `width` is smaller than the stride. */
  lemma StrideIsLeast(width: u16, m: int)
    requires width <= 0xFFFC
    requires width as int <= m && m % 4 == 0
    ensures Stride(width) as int <= m
  {
  }

  /** `n` zero bytes: the value `vec![0; n]` starts with, and a row's padding. */
  function Zeros(n: nat): seq<u8>
  {
    seq(n, _ => 0)
  }

  /**
   * The padded image of a `width` by `height` bitmap whose rows lie tightly
   * packed in `src`: row `y` is the `width` bytes of `src` from `y * width`
   * on, followed by `stride - width` zero bytes.
   */
  function Packed(src: seq<u8>, width: nat, height: nat, stride: nat): seq<u8>
    requires width <= stride
    requires Mul(height, width) <= |src|
    decreases height
  {
    if height == 0 then []
    else
      Packed(src, width, height - 1, stride)
        + src[Mul(height - 1, width) .. Mul(height, width)]
        + Zeros(stride - width)
  }

  /** The image is exactly `stride * height` bytes long. */
  lemma {:induction false} PackedLength(src: seq<u8>, width: nat, height: nat, stride: nat)
    requires width <= stride
    requires Mul(height, width) <= |src|
    ensures |Packed(src, width, height, stride)| == Mul(height, stride)
  {
    if height > 0 {
      PackedLength(src, width, height - 1, stride);
    }
  }

  /**
   * Byte `x` of row `y` of the image, at offset `y * stride + x`, is byte
   * `x` of row `y` of the source, at `y * width + x`, for the first `width`
   * columns, and zero in the padding columns.
   */
  lemma {:induction false} PackedAt(src: seq<u8>, width: nat, height: nat, stride: nat, y: nat, x: nat)
    requires width <= stride
    requires Mul(height, width) <= |src|
    requires y < height && x < stride
    ensures Mul(y, stride) + x < |Packed(src, width, height, stride)|
    ensures x < width ==> Mul(y, width) + x < |src|
    ensures Packed(src, width, height, stride)[Mul(y, stride) + x]
              == if x < width then src[Mul(y, width) + x] else 0
    decreases height
  {
    PackedLength(src, width, height - 1, stride);
    var prev := Packed(src, width, height - 1, stride);
    var row := src[Mul(height - 1, width) .. Mul(height, width)];
    var all := prev + row + Zeros(stride - width);
    assert Packed(src, width, height, stride) == all;
    if y < height - 1 {
      MulGrows(y + 1, height - 1, stride);
      PackedAt(src, width, height - 1, stride, y, x);
      assert all[Mul(y, stride) + x] == prev[Mul(y, stride) + x];
    } else if x < width {
      assert all[|prev| + x] == row[x];
    } else {
      assert all[|prev| + x] == Zeros(stride - width)[x - width];
    }
  }

  /**
   * `PackedAt` with the offsets written as the loader writes them: the byte
   * at `y * stride + x` is source byte `y * width + x`, or padding 0.
   */
  lemma PackedAtOffset(src: seq<u8>, width: nat, height: nat, stride: nat, y: nat, x: nat)
    requires width <= stride
    requires height * width <= |src|
    requires y < height && x < stride
    ensures Mul(height, width) == height * width
    ensures y * stride + x < |Packed(src, width, height, stride)|
    ensures x < width ==> y * width + x < |src|
    ensures Packed(src, width, height, stride)[y * stride + x]
              == if x < width then src[y * width + x] else 0
  {
    MulIsProduct(height, width);
    MulIsProduct(y, stride);
    MulIsProduct(y, width);
    PackedAt(src, width, height, stride, y, x);
  }

  /**
   * The image depends on nothing but the first `width * height` bytes of the
   * source: the loader reads only within that range.
   */
  lemma {:induction false} PackedReadsOnlyImage(src: seq<u8>, src': seq<u8>, width: nat, height: nat, stride: nat)
    requires width <= stride
    requires Mul(height, width) <= |src| && Mul(height, width) <= |src'|
    requires src[..Mul(height, width)] == src'[..Mul(height, width)]
    ensures Packed(src, width, height, stride) == Packed(src', width, height, stride)
  {
    if height > 0 {
      var lo, hi := Mul(height - 1, width), Mul(height, width);
      assert src[..lo] == src[..hi][..lo] && src'[..lo] == src'[..hi][..lo];
      PackedReadsOnlyImage(src, src', width, height - 1, stride);
      assert src[lo..hi] == src[..hi][lo..] == src'[..hi][lo..] == src'[lo..hi];
    }
  }

  /**
   * `std::ptr::copy_nonoverlapping(&src[srcAt], &mut dst[dstAt], count)`:
   * overwrites `count` bytes of `dst` from `dstAt` on with the bytes of
   * `src` from `srcAt` on, and leaves the rest of `dst` as it was.
   */
  method CopyNonoverlapping(src: seq<u8>, srcAt: nat, dst: array<u8>, dstAt: nat, count: nat)
    requires srcAt + count <= |src| && dstAt + count <= dst.Length
    modifies dst
    ensures dst[..] == old(dst[..dstAt]) + src[srcAt .. srcAt + count] + old(dst[dstAt + count ..])
  {
    for i := 0 to count
      invariant dst[..] == old(dst[..dstAt]) + src[srcAt .. srcAt + i] + old(dst[dstAt + i ..])
    {
      dst[dstAt + i] := src[srcAt + i];
    }
  }

  /**
   * The stride computation and the copy loop of `load_glyph`: allocate a
   * zero-filled buffer of `stride * height` bytes and copy each `width`-byte
   * source row to offset `y * stride`. All offsets are `u16` products. The
   * loop indexes `src[y * width]` and `tmpbitmap[y * stride]` with bounds
   * checks, so a bitmap with rows but no columns, whose buffer is empty,
   * panics (`None`).
   */
  method PackBitmap(src: seq<u8>, width: u16, height: u16) returns (stride: u16, packed: Option<array<u8>>)
    requires width <= 0xFFFC
    requires Stride(width) as int * height as int < 0x1_0000
    requires Mul(height as nat, width as nat) <= |src|
    ensures stride == Stride(width)
    ensures packed.None? <==> height > 0 && width == 0
    ensures packed.Some? ==>
              && fresh(packed.value)
              && packed.value.Length == stride as int * height as int
              && packed.value[..] == Packed(src, width as nat, height as nat, stride as nat)
  {
    stride := Stride(width);
    MulIsProduct(height as nat, stride as nat);
    var tmpbitmap := new u8[stride * height](_ => 0);
    assert tmpbitmap[..] == Zeros(tmpbitmap.Length);
    for y: u16 := 0 to height
      invariant RowsCopied(tmpbitmap[..], src, width as nat, stride as nat, y as nat)
      invariant width == 0 ==> y == 0
    {
      var inBounds := CopyRow(src, tmpbitmap, width, stride, height, y);
      if !inBounds {
        return stride, None;
      }
    }
    assert Zeros(0) == [];
    packed := Some(tmpbitmap);
  }

  /**
   * The state of the buffer after `y` turns of the copy loop: the image of
   * the first `y` rows, then the zeros it was allocated with.
   */
  ghost predicate RowsCopied(buf: seq<u8>, src: seq<u8>, width: nat, stride: nat, y: nat)
  {
    && width <= stride
    && Mul(y, width) <= |src| && Mul(y, stride) <= |buf|
    && buf == Packed(src, width, y, stride) + Zeros(|buf| - Mul(y, stride))
  }

  /**
   * One turn `y` of the copy loop: the bounds-checked indexing of
   * `buffer()[y * width]` and `tmpbitmap[y * stride]`, then the copy of
   * `width` bytes. It reports whether both indexes were in bounds; they are
   * exactly when the bitmap has columns.
   */
  method CopyRow(src: seq<u8>, tmpbitmap: array<u8>, width: u16, stride: u16, height: u16, y: u16)
    returns (inBounds: bool)
    requires width <= stride && y < height
    requires tmpbitmap.Length == Mul(height as nat, stride as nat) < 0x1_0000
    requires Mul(height as nat, width as nat) <= |src|
    requires RowsCopied(tmpbitmap[..], src, width as nat, stride as nat, y as nat)
    requires width > 0 || stride == 0
    modifies tmpbitmap
    ensures inBounds <==> width > 0
    ensures inBounds ==> RowsCopied(tmpbitmap[..], src, width as nat, stride as nat, y as nat + 1)
    ensures !inBounds ==> tmpbitmap[..] == old(tmpbitmap[..])
  {
    RowIndexesInBounds(|src|, tmpbitmap.Length, width as nat, stride as nat, height as nat, y as nat);
    var srcAt := RowStart(y, width, height);
    var dstAt := RowStart(y, stride, height);
    if srcAt as int >= |src| || dstAt as int >= tmpbitmap.Length {
      return false;
    }
    CopyRowAt(src, tmpbitmap, width as nat, stride as nat, y as nat);
    return true;
  }

  /**
   * The `copy_nonoverlapping` of turn `y`, from offset `y * width` of the
   * source to offset `y * stride` of the buffer: it extends the copied
   * prefix by row `y`.
   */
  method CopyRowAt(src: seq<u8>, tmpbitmap: array<u8>, width: nat, stride: nat, y: nat)
    requires width <= stride
    requires Mul(y, width) + width <= |src| && Mul(y, stride) + stride <= tmpbitmap.Length
    requires RowsCopied(tmpbitmap[..], src, width, stride, y)
    modifies tmpbitmap
    ensures RowsCopied(tmpbitmap[..], src, width, stride, y + 1)
  {
    ghost var before := tmpbitmap[..];
    CopyNonoverlapping(src, Mul(y, width), tmpbitmap, Mul(y, stride), width);
    RowAppended(before, tmpbitmap[..], src, width, stride, y);
  }

  /**
   * Both row indexes of turn `y` are in bounds exactly when the bitmap has
   * columns, and the copied row then lies within both buffers.
   */
  lemma RowIndexesInBounds(srcLen: nat, dstLen: nat, width: nat, stride: nat, height: nat, y: nat)
    requires width <= stride && y < height
    requires dstLen == Mul(height, stride) && Mul(height, width) <= srcLen
    requires width > 0 || stride == 0
    ensures Mul(height, width) <= dstLen
    ensures Mul(y, width) < srcLen && Mul(y, stride) < dstLen <==> width > 0
    ensures Mul(y, width) + width <= srcLen && Mul(y, stride) + stride <= dstLen
  {
    MulWider(height, width, stride);
    MulGrows(y + 1, height, width);
    MulGrows(y + 1, height, stride);
    if width == 0 {
      MulIsProduct(height, 0);
    }
  }

  /**
   * The `u16` offset `y * n` of row `y` in an array of `height` rows of `n`
   * bytes each; the row ends within the array.
   */
  function RowStart(y: u16, n: u16, height: u16): (at: u16)
    requires y < height && Mul(height as nat, n as nat) < 0x1_0000
    ensures at as int == Mul(y as nat, n as nat)
    ensures at as int + n as int <= Mul(height as nat, n as nat)
  {
    MulIsProduct(y as nat, n as nat);
    MulGrows(y as nat + 1, height as nat, n as nat);
    y * n
  }

  /**
   * One turn of the copy loop: when the buffer holds the image of the first
   * `y` rows followed by zeros, copying source row `y` to offset `y * stride`
   * leaves the image of `y + 1` rows followed by zeros.
   */
  lemma RowAppended(before: seq<u8>, after: seq<u8>, src: seq<u8>, width: nat, stride: nat, y: nat)
    requires width <= stride
    requires Mul(y, width) + width <= |src| && Mul(y, stride) + stride <= |before|
    requires RowsCopied(before, src, width, stride, y)
    requires after == before[..Mul(y, stride)] + src[Mul(y, width) .. Mul(y, width) + width]
                      + before[Mul(y, stride) + width ..]
    ensures Mul(y + 1, width) <= |src| && Mul(y + 1, stride) <= |after|
    ensures RowsCopied(after, src, width, stride, y + 1)
  {
    var at := Mul(y, stride);
    var rest := |before| - at - stride;
    PackedLength(src, width, y, stride);
    var prefix := Packed(src, width, y, stride);
    assert before[..at] == prefix;
    assert before[at + width ..] == Zeros(stride - width) + Zeros(rest);
  }
}
