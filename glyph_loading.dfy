/**
 * `load_glyph` and `load_glyphset`: rasterize each printable ASCII
 * character, pack its bitmap, and upload it to a new glyph set under its
 * own character code, with a round trip to the server after every glyph.
 */
module GlyphLoading {

  import opened Wrappers
  import opened RustInt
  import opened GlyphPacking
  import opened XRender

  /**
   * The sized FreeType face, seen as what it renders for each character
   * code: the charmap lookup followed by `load_glyph` with rendering and
   * forced autohinting. `None` stands for an error from `load_glyph`.
   */
  type Face = nat -> Option<GlyphSlot>

  /**
   * What the loader needs of a rendered slot: no `u16` overflow in
   * `width + 3` or in `stride * height` (whose factors bound every row
   * offset), and a buffer holding at least `height` rows of `width` bytes,
   * since each row copy reads `width` bytes without a bounds check.
   */
  predicate Loadable(slot: GlyphSlot)
  {
    var info := Metrics(slot);
    && info.width <= 0xFFFC
    && Stride(info.width) as int * info.height as int < 0x1_0000
    && Mul(info.height as nat, info.width as nat) <= |slot.buffer|
  }

  predicate FaceLoadable(face: Face, lo: nat, hi: nat)
  {
    forall n: nat :: lo <= n < hi && face(n).Some? ==> Loadable(face(n).value)
  }

  /** The image uploaded for a slot: its bitmap, packed at the rounded-up stride. */
  function Image(slot: GlyphSlot): seq<u8>
    requires Loadable(slot)
  {
    var info := Metrics(slot);
    Packed(slot.buffer, info.width as nat, info.height as nat, Stride(info.width) as nat)
  }

  /**
   * The uploaded image is `stride * height` bytes, the byte count
   * `load_glyph` passes with it.
   */
  lemma ImageSize(slot: GlyphSlot)
    requires Loadable(slot)
    ensures |Image(slot)| == Stride(Metrics(slot).width) as int * Metrics(slot).height as int
  {
    var info := Metrics(slot);
    var h := info.height as nat;
    var s := Stride(info.width) as nat;
    PackedLength(slot.buffer, info.width as nat, h, s);
    MulIsProduct(h, s);
    assert |Image(slot)| == h * s;
  }

  /**
   * `load_glyph` panics when FreeType reports an error (`unwrap`), and when
   * the bitmap has rows but no columns: its stride is 0, so `tmpbitmap` is
   * empty, and `buffer()[0]` (when FreeType's buffer is empty too) or
   * `tmpbitmap[0]` is out of bounds.
   */
  predicate LoadPanics(rendered: Option<GlyphSlot>)
  {
    rendered.None? || (Metrics(rendered.value).height > 0 && Metrics(rendered.value).width == 0)
  }

  /**
   * The requests `load_glyph` sends for one character code: the packed glyph
   * under identifier `charcode`, then a sync. `None` when it panics first.
   */
  function GlyphRequests(gs: nat, charcode: nat, rendered: Option<GlyphSlot>): Option<seq<Request>>
    requires rendered.Some? ==> Loadable(rendered.value)
  {
    if LoadPanics(rendered) then None
    else Some([AddGlyph(gs, charcode, Metrics(rendered.value), Image(rendered.value)), Sync])
  }

  /** What a run of `load_glyph` calls sent, and whether it ran to the end. */
  datatype Outcome = Outcome(requests: seq<Request>, completed: bool)

  /**
   * The loop `for n in lo..hi { load_glyph(n) }`: the calls in ascending
   * order, stopping at the first one that panics.
   */
  function LoadRange(gs: nat, face: Face, lo: nat, hi: nat): Outcome
    requires FaceLoadable(face, lo, hi)
    decreases hi
  {
    if hi <= lo then Outcome([], true)
    else
      var done := LoadRange(gs, face, lo, hi - 1);
      if !done.completed then done
      else match GlyphRequests(gs, hi - 1, face(hi - 1))
        case None => Outcome(done.requests, false)
        case Some(sent) => Outcome(done.requests + sent, true)
  }

  /** `load_glyph`: rasterize, derive the metrics, pack, upload, sync. */
  method LoadGlyph(display: Display, gs: nat, face: Face, charcode: nat) returns (ok: bool)
    requires face(charcode).Some? ==> Loadable(face(charcode).value)
    requires display.Valid()
    modifies display
    ensures display.Valid()
    ensures ok <==> !LoadPanics(face(charcode))
    ensures ok ==> display.requests == old(display.requests) + GlyphRequests(gs, charcode, face(charcode)).value
    ensures !ok ==> display.requests == old(display.requests)
    ensures display.nextId == old(display.nextId)
  {
    var rendered := face(charcode);
    if rendered.None? {
      return false;
    }
    var slot := rendered.value;
    var ginfo := Metrics(slot);
    var gid := charcode;
    var stride, tmpbitmap := PackBitmap(slot.buffer, ginfo.width, ginfo.height);
    if tmpbitmap.None? {
      return false;
    }
    display.AddGlyphs(gs, gid, ginfo, tmpbitmap.value, (stride * ginfo.height) as nat);
    display.Sync();
    assert tmpbitmap.value[..(stride * ginfo.height) as nat] == tmpbitmap.value[..];
    return true;
  }

  /**
   * `load_glyphset`: create a glyph set and load every code point from 32
   * up to 127 into it. The face arrives already sized.
   */
  method LoadGlyphset(display: Display, face: Face) returns (gs: nat, completed: bool)
    requires FaceLoadable(face, 32, 128)
    requires display.Valid()
    modifies display
    ensures display.Valid()
    ensures gs == old(display.nextId) && display.nextId == old(display.nextId) + 1
    ensures CreateGlyphSet(gs) !in old(display.requests)
    ensures display.requests
              == old(display.requests) + [CreateGlyphSet(gs)] + LoadRange(gs, face, 32, 128).requests
    ensures completed == LoadRange(gs, face, 32, 128).completed
  {
    gs := display.CreateGlyphSet();
    ghost var created := display.requests;
    for n := 32 to 128
      invariant display.requests == created + LoadRange(gs, face, 32, n).requests
      invariant LoadRange(gs, face, 32, n).completed
      invariant display.nextId == old(display.nextId) + 1
      invariant display.Valid()
    {
      var loaded := LoadGlyph(display, gs, face, n);
      if !loaded {
        FailureIsFinal(gs, face, 32, n + 1, 128);
        return gs, false;
      }
    }
    completed := true;
  }

  /** Once a call has panicked, no later code point is loaded. */
  lemma {:induction false} FailureIsFinal(gs: nat, face: Face, lo: nat, mid: nat, hi: nat)
    requires lo <= mid <= hi
    requires FaceLoadable(face, lo, hi)
    requires !LoadRange(gs, face, lo, mid).completed
    ensures LoadRange(gs, face, lo, hi) == LoadRange(gs, face, lo, mid)
    decreases hi
  {
    if hi > mid {
      FailureIsFinal(gs, face, lo, mid, hi - 1);
    }
  }

  /** The loop runs to the end exactly when no code point in the range panics. */
  lemma {:induction false} CompletesIffNoPanic(gs: nat, face: Face, lo: nat, hi: nat)
    requires FaceLoadable(face, lo, hi)
    ensures LoadRange(gs, face, lo, hi).completed <==> forall n: nat :: lo <= n < hi ==> !LoadPanics(face(n))
    decreases hi
  {
    if hi > lo {
      CompletesIffNoPanic(gs, face, lo, hi - 1);
    }
  }

  /** The identifiers of the glyphs `requests` add, in the order they are added. */
  function AddedIds(requests: seq<Request>): seq<nat>
    decreases |requests|
  {
    if requests == [] then []
    else
      var last := requests[|requests| - 1];
      AddedIds(requests[..|requests| - 1]) + (if last.AddGlyph? then [last.gid] else [])
  }

  /** The code points `lo`, `lo + 1`, ..., `hi - 1`. */
  function Range(lo: nat, hi: nat): seq<nat>
    requires lo <= hi
  {
    seq(hi - lo, i => lo + i)
  }

  /** Every glyph upload is followed at once by a sync. */
  predicate SyncAfterEachAdd(requests: seq<Request>)
  {
    forall i :: 0 <= i < |requests| && requests[i].AddGlyph? ==> i + 1 < |requests| && requests[i + 1] == Sync
  }

  /**
   * Uploading `glyph(n)` under identifier `n` for each `n` from `lo` up to
   * `hi - 1`, with a sync after each upload.
   */
  function Uploads(gs: nat, glyph: nat -> Glyph, lo: nat, hi: nat): seq<Request>
    decreases hi
  {
    if hi <= lo then []
    else Uploads(gs, glyph, lo, hi - 1) + UploadOf(gs, hi - 1, glyph(hi - 1))
  }

  function UploadOf(gs: nat, gid: nat, glyph: Glyph): seq<Request>
  {
    [AddGlyph(gs, gid, glyph.info, glyph.image), Sync]
  }

  /**
   * A loop that runs to the end sends, for each code point in turn, the
   * upload of the glyph FreeType rendered for it and a sync.
   */
  lemma {:induction false} CompletedLoadUploads(gs: nat, face: Face, lo: nat, hi: nat, glyph: nat -> Glyph)
    requires FaceLoadable(face, lo, hi)
    requires LoadRange(gs, face, lo, hi).completed
    requires forall n: nat :: lo <= n < hi && face(n).Some? ==>
               glyph(n) == Glyph(Metrics(face(n).value), Image(face(n).value))
    ensures forall n: nat :: lo <= n < hi ==> face(n).Some?
    ensures LoadRange(gs, face, lo, hi).requests == Uploads(gs, glyph, lo, hi)
    decreases hi
  {
    if hi > lo {
      assert LoadRange(gs, face, lo, hi - 1).completed;
      assert face(hi - 1).Some?;
      CompletedLoadUploads(gs, face, lo, hi - 1, glyph);
    }
  }

  /** The glyphs a face renders, for the code points where loading does not panic. */
  function Rendered(face: Face): nat -> Glyph
  {
    (n: nat) =>
      if face(n).Some? && Loadable(face(n).value)
      then Glyph(Metrics(face(n).value), Image(face(n).value))
      else Glyph(GlyphInfo(0, 0, 0, 0, 0, 0), [])
  }

  lemma RenderedAgrees(face: Face, lo: nat, hi: nat)
    requires FaceLoadable(face, lo, hi)
    ensures forall n: nat :: lo <= n < hi && face(n).Some? ==>
              Rendered(face)(n) == Glyph(Metrics(face(n).value), Image(face(n).value))
  {
  }

  lemma AddedIdsOfUpload(requests: seq<Request>, gs: nat, gid: nat, glyph: Glyph)
    ensures AddedIds(requests + UploadOf(gs, gid, glyph)) == AddedIds(requests) + [gid]
  {
    var add := AddGlyph(gs, gid, glyph.info, glyph.image);
    var all := requests + UploadOf(gs, gid, glyph);
    assert all[..|all| - 1] == requests + [add];
    assert (requests + [add])[..|requests|] == requests;
  }

  lemma GlyphsOfUpload(requests: seq<Request>, gs: nat, gid: nat, glyph: Glyph)
    ensures GlyphsOf(requests + UploadOf(gs, gid, glyph), gs) == GlyphsOf(requests, gs)[gid := glyph]
  {
    var add := AddGlyph(gs, gid, glyph.info, glyph.image);
    var all := requests + UploadOf(gs, gid, glyph);
    assert all[..|all| - 1] == requests + [add];
    assert (requests + [add])[..|requests|] == requests;
  }

  lemma SyncAfterUploadAppended(requests: seq<Request>, gs: nat, gid: nat, glyph: Glyph)
    requires SyncAfterEachAdd(requests)
    ensures SyncAfterEachAdd(requests + UploadOf(gs, gid, glyph))
  {
    var all := requests + UploadOf(gs, gid, glyph);
    forall i | 0 <= i < |all| && all[i].AddGlyph?
      ensures i + 1 < |all| && all[i + 1] == Sync
    {
      if i < |requests| {
        assert requests[i].AddGlyph?;
      }
    }
  }

  lemma RangeGrows(lo: nat, hi: nat)
    requires lo < hi
    ensures Range(lo, hi) == Range(lo, hi - 1) + [hi - 1]
  {
  }

  /** The uploads name each code point of the range once, in ascending order. */
  lemma {:induction false} UploadedIds(gs: nat, glyph: nat -> Glyph, lo: nat, hi: nat)
    requires lo <= hi
    ensures AddedIds(Uploads(gs, glyph, lo, hi)) == Range(lo, hi)
    decreases hi
  {
    if hi > lo {
      UploadedIds(gs, glyph, lo, hi - 1);
      AddedIdsOfUpload(Uploads(gs, glyph, lo, hi - 1), gs, hi - 1, glyph(hi - 1));
      RangeGrows(lo, hi);
    }
  }

  /** Two requests per code point, and a sync right after every upload. */
  lemma {:induction false} UploadsSynced(gs: nat, glyph: nat -> Glyph, lo: nat, hi: nat)
    requires lo <= hi
    ensures |Uploads(gs, glyph, lo, hi)| == 2 * (hi - lo)
    ensures SyncAfterEachAdd(Uploads(gs, glyph, lo, hi))
    decreases hi
  {
    if hi > lo {
      UploadsSynced(gs, glyph, lo, hi - 1);
      SyncAfterUploadAppended(Uploads(gs, glyph, lo, hi - 1), gs, hi - 1, glyph(hi - 1));
    }
  }

  /** After the uploads the glyph set holds `glyph(n)` under every `n` of the range ... */
  lemma {:induction false} UploadsStore(gs: nat, glyph: nat -> Glyph, lo: nat, hi: nat, n: nat)
    requires lo <= n < hi
    ensures n in GlyphsOf(Uploads(gs, glyph, lo, hi), gs)
    ensures GlyphsOf(Uploads(gs, glyph, lo, hi), gs)[n] == glyph(n)
    decreases hi
  {
    GlyphsOfUpload(Uploads(gs, glyph, lo, hi - 1), gs, hi - 1, glyph(hi - 1));
    if n < hi - 1 {
      UploadsStore(gs, glyph, lo, hi - 1, n);
    }
  }

  /** ... and nothing under any other identifier. */
  lemma {:induction false} UploadsStoreOnly(gs: nat, glyph: nat -> Glyph, lo: nat, hi: nat, n: nat)
    requires n in GlyphsOf(Uploads(gs, glyph, lo, hi), gs)
    ensures lo <= n < hi
    decreases hi
  {
    if hi > lo {
      GlyphsOfUpload(Uploads(gs, glyph, lo, hi - 1), gs, hi - 1, glyph(hi - 1));
      if n != hi - 1 {
        UploadsStoreOnly(gs, glyph, lo, hi - 1, n);
      }
    }
  }

  /**
   * A completed loop uploads the glyphs of `lo`, ..., `hi - 1`, each exactly
   * once, in ascending order and no others, and syncs after every upload.
   */
  lemma LoadsEachCodeOnceInOrder(gs: nat, face: Face, lo: nat, hi: nat)
    requires lo <= hi
    requires FaceLoadable(face, lo, hi)
    requires LoadRange(gs, face, lo, hi).completed
    ensures AddedIds(LoadRange(gs, face, lo, hi).requests) == Range(lo, hi)
    ensures |LoadRange(gs, face, lo, hi).requests| == 2 * (hi - lo)
    ensures SyncAfterEachAdd(LoadRange(gs, face, lo, hi).requests)
  {
    RenderedAgrees(face, lo, hi);
    CompletedLoadUploads(gs, face, lo, hi, Rendered(face));
    UploadedIds(gs, Rendered(face), lo, hi);
    UploadsSynced(gs, Rendered(face), lo, hi);
  }

  /**
   * When the loop panics at code point `m`, everything below `m` was
   * uploaded in order and nothing from `m` on.
   */
  lemma StopsAtFirstPanic(gs: nat, face: Face, lo: nat, m: nat, hi: nat)
    requires lo <= m < hi
    requires FaceLoadable(face, lo, hi)
    requires LoadPanics(face(m))
    requires forall n: nat :: lo <= n < m ==> !LoadPanics(face(n))
    ensures !LoadRange(gs, face, lo, hi).completed
    ensures AddedIds(LoadRange(gs, face, lo, hi).requests) == Range(lo, m)
  {
    CompletesIffNoPanic(gs, face, lo, m);
    LoadsEachCodeOnceInOrder(gs, face, lo, m);
    FailureIsFinal(gs, face, lo, m + 1, hi);
  }

  /** The glyph set the uploads fill holds exactly the range, each entry its own glyph. */
  lemma UploadsFill(gs: nat, glyph: nat -> Glyph, lo: nat, hi: nat)
    ensures forall n: nat :: n in GlyphsOf(Uploads(gs, glyph, lo, hi), gs) <==> lo <= n < hi
    ensures forall n: nat :: lo <= n < hi ==> GlyphsOf(Uploads(gs, glyph, lo, hi), gs)[n] == glyph(n)
  {
    forall n: nat
      ensures n in GlyphsOf(Uploads(gs, glyph, lo, hi), gs) <==> lo <= n < hi
    {
      if n in GlyphsOf(Uploads(gs, glyph, lo, hi), gs) {
        UploadsStoreOnly(gs, glyph, lo, hi, n);
      }
      if lo <= n < hi {
        UploadsStore(gs, glyph, lo, hi, n);
      }
    }
    forall n: nat | lo <= n < hi
      ensures GlyphsOf(Uploads(gs, glyph, lo, hi), gs)[n] == glyph(n)
    {
      UploadsStore(gs, glyph, lo, hi, n);
    }
  }

  /**
   * The glyph set `load_glyphset` returns, once it has run to the end,
   * holds an entry for every code point from 32 to 127 and for no other,
   * whatever was sent on the connection before.
   */
  lemma GlyphsetCoversPrintableAscii(before: seq<Request>, gs: nat, face: Face)
    requires FaceLoadable(face, 32, 128)
    requires LoadRange(gs, face, 32, 128).completed
    ensures forall n: nat ::
              (n in GlyphsOf(before + [CreateGlyphSet(gs)] + LoadRange(gs, face, 32, 128).requests, gs))
              <==> 32 <= n < 128
  {
    var loaded := LoadRange(gs, face, 32, 128).requests;
    GlyphsSinceCreation(before, gs, loaded);
    RenderedAgrees(face, 32, 128);
    CompletedLoadUploads(gs, face, 32, 128, Rendered(face));
    UploadsFill(gs, Rendered(face), 32, 128);
  }

  /**
   * Each entry of that glyph set holds the metrics and the packed image of
   * the glyph FreeType rendered for its own code point.
   */
  lemma GlyphsetHoldsRenderedGlyphs(before: seq<Request>, gs: nat, face: Face, n: nat)
    requires FaceLoadable(face, 32, 128)
    requires LoadRange(gs, face, 32, 128).completed
    requires 32 <= n < 128
    ensures face(n).Some?
    ensures n in GlyphsOf(before + [CreateGlyphSet(gs)] + LoadRange(gs, face, 32, 128).requests, gs)
    ensures GlyphsOf(before + [CreateGlyphSet(gs)] + LoadRange(gs, face, 32, 128).requests, gs)[n]
              == Glyph(Metrics(face(n).value), Image(face(n).value))
  {
    var loaded := LoadRange(gs, face, 32, 128).requests;
    GlyphsSinceCreation(before, gs, loaded);
    RenderedAgrees(face, 32, 128);
    CompletedLoadUploads(gs, face, 32, 128, Rendered(face));
    UploadsStore(gs, Rendered(face), 32, 128, n);
  }

  /** A face that renders every code as an empty bitmap with zero metrics. */
  function BlankFace(): Face
  {
    (n: nat) => Some(GlyphSlot(0, 0, 0, 0, 0, 0, []))
  }

  /**
   * The glyph-set lemmas above speak of a real case: with such a face the
   * loop runs to the end.
   */
  lemma BlankFaceCompletes(gs: nat)
    ensures FaceLoadable(BlankFace(), 32, 128)
    ensures LoadRange(gs, BlankFace(), 32, 128).completed
  {
    var slot := GlyphSlot(0, 0, 0, 0, 0, 0, []);
    assert Metrics(slot) == GlyphInfo(0, 0, 0, 0, 0, 0);
    assert Loadable(slot) && !LoadPanics(Some(slot));
    assert forall n: nat :: BlankFace()(n) == Some(slot);
    CompletesIffNoPanic(gs, BlankFace(), 32, 128);
  }
}
