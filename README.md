# Glyph loading for an Xrender text demo, in Dafny

The program draws text through the X Render extension. Before it can draw,
it fills a glyph set on the X server with the printable ASCII characters:

- `load_glyphset` creates a glyph set;
- it then calls `load_glyph` for each character code from 32 to 127.

For one character, `load_glyph` does three things:

1. It has FreeType render the glyph and derives an `XGlyphInfo` from the
   glyph slot.
2. It rounds the bitmap width up to a multiple of four. That is the row
   stride.
3. It copies the tightly packed FreeType rows into a zero-filled buffer of
   `stride * height` bytes and uploads that buffer with
   `XRenderAddGlyphs` under the character code. An `XSync` follows.

This project models those two functions and proves what they compute.

Modules:

- `Wrappers` — `Option`.
- `RustInt` — the Rust integer behaviour the loader depends on:
  - the `u8`, `u16` and `i16` types;
  - the truncating `as` casts (`WrapU16`, `WrapI16`);
  - signed division, which rounds toward zero (`TruncDiv`);
  - `&` and `!` on `u16`, both built one bit at a time (`BitAnd`, `BitNot`,
    `Not16`);
  - `Mul(n, k)`, which is `n * k` written as repeated addition. Row offsets
    are written with it, and `MulIsProduct` proves it equals `n * k`.
- `GlyphPacking` — the per-glyph computation:
  - `GlyphSlot` is what FreeType leaves in the glyph slot.
  - `Metrics` builds the glyph info.
  - `Stride` is `(width + 3) & !3`.
  - `Packed` is the specification of the padded image.
  - `PackBitmap` is the imperative allocate-and-copy loop over an `array`,
    one `CopyRow` per turn; `CopyRowAt` is the copy within a turn.
  - `CopyNonoverlapping` is the row copy.
- `XRender` — the X server side:
  - A `Display` class records the requests sent on the connection:
    `CreateGlyphSet`, `AddGlyph` and `Sync`.
  - It also tracks the next resource identifier.
  - `GlyphsOf` folds a request log into the contents of one glyph set.
- `GlyphLoading` — `load_glyph` (`LoadGlyph`) and `load_glyphset`
  (`LoadGlyphset`):
  - The sized FreeType face is a function from character code to the
    rendered slot; `None` means FreeType reported an error.
  - `LoadRange` specifies the loop. It takes the code points in ascending
    order and stops at the first one that panics.

The panics of `load_glyph` are modelled as outcomes rather than excluded. It
panics in two cases:

- when FreeType fails, through `unwrap`;
- when a bitmap has rows but no columns. Its stride is then 0, the buffer
  is empty, and `&bitmap.buffer()[0]` or `&mut tmpbitmap[0]` is out of
  bounds.

A panic ends `load_glyphset` after the requests already sent.

Two cases become preconditions of `PackBitmap`, `LoadGlyph` and
`LoadGlyphset` (through `Loadable`) instead of outcomes:

- **`u16` overflow** in `width + 3`, `stride * height`, `y * width` and
  `y * stride`. Rust defines what happens here: a debug build panics at the
  overflowing operation, and a release build wraps. The release-build wrap
  is not harmless. A wrapped `width + 3` gives stride 0, so when the
  bitmap has rows, indexing the empty buffer panics. A wrapped
  `stride * height` allocates too small a buffer, and the row that
  straddles its end is copied partly past it, which is undefined
  behaviour. With width and height 300, 90000 wraps to 24464 bytes: row 81
  is written to offsets 24300..24599, and row 82's bounds-checked index
  24600 then panics. The model says nothing about either build's
  behaviour on overflow.
- **A source buffer shorter than `height * width`.** Depending on where it
  ends, the bounds-checked `buffer()[y * width]` panics, or
  `copy_nonoverlapping` reads past its end.

## Model

| member | source | states |
|---|---|---|
| RustInt.WrapU16 | src/main.rs:31-32 | `as u16` keeps the value modulo 2^16, and it is the identity on values that fit |
| RustInt.WrapI16 | src/main.rs:29-30 | `as i16` gives the two's-complement value congruent modulo 2^16, and it is the identity on values in the `i16` range |
| RustInt.TruncDiv | src/main.rs:33-34 | signed `/` rounds toward zero: the remainder is smaller than the divisor in magnitude and has the sign of the dividend |
| RustInt.MulIsProduct | src/main.rs:40-45 | the row-offset product `Mul(n, k)` equals `n * k` |
| RustInt.BitNotIsComplement | src/main.rs:39 | inverting the lowest `n` bits of `a` one at a time gives `2^n - 1 - a % 2^n` |
| RustInt.Not16IsBitwise | src/main.rs:39 | `!v` on a `u16` (`Not16`) equals the bit-by-bit complement of its sixteen bits, `BitNot(v, 16)` |
| RustInt.ClearLowTwoBits | src/main.rs:39 | `v & !3` equals `v - v % 4` |
| GlyphPacking.MetricsOfFittingSlot | src/main.rs:28-35 | when the slot's values fit in 16 bits: `x` is the negated left bearing, `y` is the top bearing, width and height are the bitmap's, and `xOff`/`yOff` are the 26.6 advance with its fraction dropped toward zero |
| GlyphPacking.Stride | src/main.rs:39 | the stride is a multiple of 4, and `width <= stride <= width + 3` |
| GlyphPacking.StrideIsLeast | src/main.rs:39 | no multiple of 4 that is at least `width` is smaller than the stride |
| GlyphPacking.PackedLength | src/main.rs:40 | the padded image is `stride * height` bytes long |
| GlyphPacking.PackedAt | src/main.rs:40-48 | the byte at `y * stride + x` is source byte `y * width + x` for `x < width`, and 0 in the padding columns `width..stride-1` |
| GlyphPacking.PackedAtOffset | src/main.rs:44-45 | the same byte correspondence with the offsets written as the loader writes them: the byte at `y * stride + x` is source byte `y * width + x`, or 0 in the padding |
| GlyphPacking.PackedReadsOnlyImage | src/main.rs:44 | the image depends only on the first `width * height` source bytes |
| GlyphPacking.CopyNonoverlapping | src/main.rs:43-47 | `count` bytes from `srcAt` overwrite `dst` from `dstAt`, and every other byte of `dst` is unchanged |
| GlyphPacking.RowStart | src/main.rs:44-45 | the `u16` offset `y * n` of row `y` does not overflow, and the row ends inside the array |
| GlyphPacking.CopyRow | src/main.rs:42-48 | one loop turn; it panics exactly when the bitmap has no columns, and otherwise extends the copied prefix by row `y` and keeps the rest zero; when it panics the buffer is unchanged |
| GlyphPacking.RowIndexesInBounds | src/main.rs:44-45 | the indexes `y * width` into the source and `y * stride` into the buffer are both in bounds exactly when the bitmap has columns, and row `y` then fits in both |
| GlyphPacking.CopyRowAt | src/main.rs:43-47 | copying `width` bytes from `y * width` to `y * stride` turns the image of rows `0..y` plus zeros into the image of rows `0..y+1` plus zeros |
| GlyphPacking.RowAppended | src/main.rs:43-47 | copying row `y` onto the image of rows `0..y` plus zeros gives the image of rows `0..y+1` plus zeros |
| GlyphPacking.PackBitmap | src/main.rs:39-49 | the stride is `Stride(width)`; the result is a fresh array of `stride * height` bytes equal to `Packed`; it panics exactly when `height > 0` and `width == 0` |
| XRender.Display.CreateGlyphSet | src/main.rs:71 | the call returns the connection's next identifier, advances it, and logs the creation request; `Valid()` (every created set's identifier is below `nextId`) is kept, so the identifier was never created before on this connection |
| XRender.Display.AddGlyphs | src/main.rs:51-60 | the call logs one glyph whose image is the first `nbytes` bytes of the buffer |
| XRender.Display.Sync | src/main.rs:61 | the call logs a sync and nothing else |
| XRender.GlyphsSinceCreation | src/main.rs:71-77 | a glyph set's contents depend only on the requests sent after it was created |
| GlyphLoading.ImageSize | src/main.rs:40-59 | the uploaded image has the `stride * height` bytes passed as the byte count |
| GlyphLoading.LoadGlyph | src/main.rs:15-63 | `load_glyph` returns normally exactly when neither panic case applies; it then sends `AddGlyph(gs, charcode, metrics, packed image)` followed by `Sync`; otherwise it sends nothing |
| GlyphLoading.LoadGlyphset | src/main.rs:65-79 | `load_glyphset` creates a glyph set under the connection's next identifier, which no earlier request created, and advances `nextId` by one; it then sends the requests of `LoadRange(32, 128)` and reports whether that loop completed |
| GlyphLoading.FailureIsFinal | src/main.rs:75-77 | after a panic, no later code point sends anything |
| GlyphLoading.CompletesIffNoPanic | src/main.rs:75-77 | the loop runs to the end exactly when no code point in the range panics |
| GlyphLoading.CompletedLoadUploads | src/main.rs:75-77 | a completed loop sends, for each code point in ascending order, its rendered glyph under its own code and then a sync |
| GlyphLoading.UploadedIds | src/main.rs:75-77 | the uploads name the code points `lo..hi-1` once each, in ascending order |
| GlyphLoading.UploadsSynced | src/main.rs:75-77 | the uploads are two requests per code point, with a sync right after every upload |
| GlyphLoading.UploadsStore | src/main.rs:52-60 | after the uploads, the glyph set holds `glyph(n)` under every `n` in the range |
| GlyphLoading.UploadsStoreOnly | src/main.rs:75-77 | after the uploads, the glyph set holds nothing outside the range |
| GlyphLoading.UploadsFill | src/main.rs:75-77 | the keys of the filled glyph set are exactly the range, and each entry is that key's glyph |
| GlyphLoading.LoadsEachCodeOnceInOrder | src/main.rs:75-77 | a completed loop uploads the codes `lo..hi-1` exactly once each, in ascending order and no others, with a sync after each |
| GlyphLoading.StopsAtFirstPanic | src/main.rs:75-77 | a panic at `m` leaves exactly the codes below `m` uploaded, in order |
| GlyphLoading.GlyphsetCoversPrintableAscii | src/main.rs:65-79 | after a completed `load_glyphset`, the glyph set holds an entry for every code 32..127 and for no other |
| GlyphLoading.GlyphsetHoldsRenderedGlyphs | src/main.rs:28-37 | the entry for code `n` holds exactly the metrics and packed image of code `n`'s rendered glyph |
| GlyphLoading.BlankFaceCompletes | src/main.rs:75-77 | a face that renders every code as an empty bitmap with zero metrics meets the loader's preconditions and loads all of 32..127 without a panic |
| GlyphPacking.Metrics | src/main.rs:28-35 | has no contract of its own; it builds `XGlyphInfo` with the truncating casts and signed `/ 64`. Its properties are stated by `MetricsOfFittingSlot`, `WrapU16`, `WrapI16` and `TruncDiv` |
| GlyphLoading.LoadPanics | src/main.rs:22-45 | has no contract of its own; it holds exactly when `unwrap` fails or the bitmap has rows but no columns. `LoadGlyph` proves it is exactly the panic condition, with `CopyRow` for the index case |
| GlyphLoading.LoadRange | src/main.rs:75-77 | has no contract of its own; it specifies the loop over codes. `LoadGlyphset` proves equality with it. `FailureIsFinal`, `CompletesIffNoPanic`, `CompletedLoadUploads`, `LoadsEachCodeOnceInOrder` and `StopsAtFirstPanic` state its properties |
| RustInt.Not16 | src/main.rs:39 | has no contract of its own; it is `!v` on a `u16`, written as `0xFFFF - v`. `Not16IsBitwise` proves it inverts every bit, and `ClearLowTwoBits` uses it for `!3` |
| XRender.GlyphsOf | src/main.rs:52-60 | has no contract of its own; it gives the contents of a glyph set after a request log. `GlyphsSinceCreation`, `UploadsStore`, `UploadsStoreOnly` and `UploadsFill` state its properties |

## Left out

- FreeType: `get_char_index`, `load_glyph` with forced autohinting, `set_char_size`, `new_memory_face` and the embedded DejaVu font are foreign rasterization code. The sized face is taken as a function from character code to rendered slot (or error), and the slot's accessors are plain fields. The `unwrap`s on `new_memory_face` and `set_char_size` at src/main.rs:73-74 are assumed to succeed: `LoadGlyphset` starts from a face that is already sized.
- `XRenderFindStandardFormat` and the A8 format it returns: the model records glyph-set creation without a picture format, because the format plays no part in the loader's computation.
- The X server's handling of requests is reduced to the contents of glyph sets (`GlyphsOf`). `XSync`'s round trip and error reporting are I/O and are modelled only as a logged request.
- `create_pen`, `main`, window and event handling, and compositing with `XRenderCompositeString8` are resource and event plumbing outside the loader.
- The debug-build panic when `bitmap_left` is `i32::MIN` and is negated: the model negates on unbounded integers and then truncates to 16 bits, which is what a release build computes.
- `u16` overflow is not modelled as an outcome in either build. The model covers neither the debug-build panic nor the release-build wrap, with its zero stride or too-small buffer. Both are excluded by the preconditions of `PackBitmap`, `LoadGlyph` and `LoadGlyphset`, through `Loadable`.
- GlyphPacking.MetricsOfFittingSlot: it states the exact field values only for slots whose values fit in 16 bits. Outside that range `WrapU16` and `WrapI16` give the truncated values.
- A FreeType buffer shorter than `height * width` bytes is excluded by a precondition. With such a buffer the program panics at `buffer()[y * width]` or reads past its end, and the model does not say which.
- GlyphLoading.FaceLoadable: the precondition of `LoadGlyphset` and of the loop lemmas asks every code in the range to be `Loadable`, including codes after the first panic. The program never renders those codes, so the model does not cover an unloadable code that follows a panic.
