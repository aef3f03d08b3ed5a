/**
 * The part of the X server the loader talks to: the requests it sends on
 * the display connection, and the glyph sets those requests build.
 */
module XRender {

  import opened RustInt
  import opened GlyphPacking

  /** Requests the loader sends, in the order they reach the server. */
  datatype Request =
    | CreateGlyphSet(glyphset: nat)
    | AddGlyph(glyphset: nat, gid: nat, info: GlyphInfo, image: seq<u8>)
    | Sync

  /** What a glyph set stores for one glyph identifier. */
  datatype Glyph = Glyph(info: GlyphInfo, image: seq<u8>)

  /**
   * The display connection, seen as the log of requests sent on it and the
   * next resource identifier the server hands out.
   */
  class Display {
    var requests: seq<Request>
    var nextId: nat

    /** Every glyph set created so far has an identifier below `nextId`. */
    ghost predicate Valid()
      reads this
    {
      forall r <- requests :: r.CreateGlyphSet? ==> r.glyphset < nextId
    }

    constructor ()
      ensures Valid()
      ensures requests == [] && nextId == 1
    {
      requests := [];
      nextId := 1;
    }

    /** `XRenderCreateGlyphSet`: a new, empty glyph set under a new identifier. */
    method CreateGlyphSet() returns (gs: nat)
      requires Valid()
      modifies this
      ensures Valid()
      ensures Request.CreateGlyphSet(gs) !in old(requests)
      ensures gs == old(nextId) && nextId == old(nextId) + 1
      ensures requests == old(requests) + [Request.CreateGlyphSet(gs)]
    {
      gs := nextId;
      nextId := nextId + 1;
      requests := requests + [Request.CreateGlyphSet(gs)];
    }

    /**
     * `XRenderAddGlyphs` with one glyph: the server takes `nbytes` bytes of
     * `images` as the glyph's image.
     */
    method AddGlyphs(gs: nat, gid: nat, info: GlyphInfo, images: array<u8>, nbytes: nat)
      requires nbytes <= images.Length
      requires Valid()
      modifies this
      ensures Valid()
      ensures requests == old(requests) + [AddGlyph(gs, gid, info, images[..nbytes])]
      ensures nextId == old(nextId)
    {
      requests := requests + [AddGlyph(gs, gid, info, images[..nbytes])];
    }

    /** `XSync`: a round trip that makes every earlier request take effect. */
    method Sync()
      requires Valid()
      modifies this
      ensures Valid()
      ensures requests == old(requests) + [Request.Sync]
      ensures nextId == old(nextId)
    {
      requests := requests + [Request.Sync];
    }
  }

  /**
   * The contents of glyph set `gs` once the server has processed
   * `requests`: creating the set empties it, and adding a glyph stores it
   * under its identifier, replacing any glyph stored there before.
   */
  function GlyphsOf(requests: seq<Request>, gs: nat): map<nat, Glyph>
    decreases |requests|
  {
    if requests == [] then map[]
    else
      var earlier := GlyphsOf(requests[..|requests| - 1], gs);
      match requests[|requests| - 1]
      case CreateGlyphSet(g) => if g == gs then map[] else earlier
      case AddGlyph(g, gid, info, image) => if g == gs then earlier[gid := Glyph(info, image)] else earlier
      case Sync => earlier
  }

  /** A glyph set's contents depend only on the requests sent since it was created. */
  lemma {:induction false} GlyphsSinceCreation(before: seq<Request>, gs: nat, after: seq<Request>)
    ensures GlyphsOf(before + [CreateGlyphSet(gs)] + after, gs) == GlyphsOf(after, gs)
    decreases |after|
  {
    var all := before + [CreateGlyphSet(gs)] + after;
    if after == [] {
      assert all[..|all| - 1] == before;
    } else {
      var last := |after| - 1;
      assert all[..|all| - 1] == before + [CreateGlyphSet(gs)] + after[..last];
      GlyphsSinceCreation(before, gs, after[..last]);
    }
  }
}
