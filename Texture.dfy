/**
  The texture decoder (wad3xtract.c:62-67, 117-142): locating a texture's
  level-0 index plane and its palette inside the archive, and resolving
  the plane's indices through the palette into RGB bytes.

  Arithmetic follows the C types on an LP64 target, where long holds
  every uint32_t value: width * height is a uint32_t product (so it
  wraps modulo 2^32), and fileOffset + offsets[k] adds an int32_t to a
  uint32_t, which C carries out in uint32_t (so it wraps as well).
 */
module Texture {
  import opened Wrappers
  import opened Bytes
  import opened Stream
  import opened Layout

  // ------------------------------------------------------------------ ipow

  /** x to the power n; a positive base has a positive power. */
  function Pow(x: int, n: nat): (p: int)
    ensures x > 0 ==> p > 0
  {
    if n == 0 then 1 else x * Pow(x, n - 1)
  }

  /** ipow: multiplies an accumulator by x, n times. */
  method Ipow(x: int, n: int) returns (r: int)
    requires n >= 0
    ensures r == Pow(x, n)
  {
    r := 1;
    var k := n;
    while k != 0
      invariant 0 <= k <= n
      invariant r * Pow(x, k) == Pow(x, n)
    {
      k := k - 1;
      r := r * x;
    }
  }

  // -------------------------------------------------------- decoded shape

  datatype DecodeError = Truncated | PaletteIndexOutOfRange(pixel: nat)

  /**
    What the decoder reads for one texture: its header, the level-0
    index plane, the palette's entry count and its RGB bytes.
   */
  datatype Texture = Texture(mip: MipTex, indices: seq<Byte>, palCount: nat, palette: seq<Byte>)

  /** long size = width * height, computed in uint32_t. */
  function PlaneSize(m: MipTex): nat {
    (m.width * m.height) % TWO_32
  }

  /** Where the level-0 plane starts: fileOffset + offsets[0], in uint32_t. */
  function IndexStart(off: int, m: MipTex): nat
    requires |m.offsets| == MIP_LEVELS
  {
    (off + m.offsets[0]) % TWO_32
  }

  /**
    Where the palette is looked for: past the start of the last mip
    level by size / 4^3 bytes, that is by the level-0 pixel count
    divided by 64 (not by (width >> 3) * (height >> 3)).
   */
  function PaletteStart(off: int, m: MipTex): nat
    requires |m.offsets| == MIP_LEVELS
  {
    (off + m.offsets[MIP_LEVELS - 1]) % TWO_32 + PlaneSize(m) / Pow(4, MIP_LEVELS - 1)
  }

  /**
    The palette at position p: a uint16_t entry count, then three bytes
    per entry. None when either read comes back short.
   */
  function ReadPalette(a: seq<Byte>, p: nat): (r: Option<(nat, seq<Byte>)>)
    ensures r.Some? <==> p + 2 <= |a| && p + 2 + 3 * U16At(a, p) <= |a|
    ensures r.Some? ==> && r.value.0 == U16At(a, p)
                        && r.value.1 == a[p + 2..p + 2 + 3 * r.value.0]
  {
    match FullRead(a, p, 2)
    case None => None
    case Some(c) =>
      assert c == a[p..p + 2];
      var count := U16At(c, 0);
      match FullRead(a, p + 2, 3 * count)
      case None => None
      case Some(palette) => Some((count, palette))
  }

  /**
    Decoding of the texture of an entry whose fileOffset is off, read
    with the cursor standing at here. The header is read at off, or at
    here when off is negative (fseek refuses it and the cursor stays);
    every read that comes back short is refused as truncated. The later
    positions are computed from off in uint32_t whatever its sign. On
    success, the index plane is the
    width*height (mod 2^32) bytes at offset + offsets[0] (mod 2^32), the
    palette count is the uint16 at offset + offsets[3] (mod 2^32) +
    size/64, and the colour table is the 3*count bytes after it.
   */
  function DecodeTexture(a: seq<Byte>, off: int, here: nat): (r: Result<Texture, DecodeError>)
    ensures r.Failure? ==> r.error == Truncated
    ensures var q := SeekResult(off, here);
            q + MIPTEX_SIZE <= |a| ==> r == DecodeLevels(a, off, ParseMipTex(a[q..q + MIPTEX_SIZE]))
    ensures SeekResult(off, here) + MIPTEX_SIZE > |a| ==> r == Failure(Truncated)
    ensures r.Success? ==> var q := SeekResult(off, here);
                           q + MIPTEX_SIZE <= |a| && r.value.mip == ParseMipTex(a[q..q + MIPTEX_SIZE])
    ensures r.Success? ==> r.value.palCount < TWO_16 && |r.value.palette| == 3 * r.value.palCount
    ensures r.Success? ==> FullRead(a, IndexStart(off, r.value.mip), PlaneSize(r.value.mip)) == Some(r.value.indices)
    ensures r.Success? ==> ReadPalette(a, PaletteStart(off, r.value.mip)) == Some((r.value.palCount, r.value.palette))
  {
    match FullRead(a, SeekResult(off, here), MIPTEX_SIZE)
    case None => Failure(Truncated)
    case Some(h) => DecodeLevels(a, off, ParseMipTex(h))
  }

  /** The part of the decoding that follows the texture header m: the level-0 plane and the palette. */
  function DecodeLevels(a: seq<Byte>, off: int, m: MipTex): (r: Result<Texture, DecodeError>)
    requires ValidMipTex(m)
    ensures r.Failure? ==> r.error == Truncated
    ensures r.Success? ==> r.value.mip == m
    ensures r.Success? ==> r.value.palCount < TWO_16 && |r.value.palette| == 3 * r.value.palCount
    ensures r.Success? <==> FullRead(a, IndexStart(off, m), PlaneSize(m)).Some? && ReadPalette(a, PaletteStart(off, m)).Some?
    ensures r.Success? ==> FullRead(a, IndexStart(off, m), PlaneSize(m)) == Some(r.value.indices)
    ensures r.Success? ==> ReadPalette(a, PaletteStart(off, m)) == Some((r.value.palCount, r.value.palette))
  {
    match FullRead(a, IndexStart(off, m), PlaneSize(m))
    case None => Failure(Truncated)
    case Some(indices) =>
      match ReadPalette(a, PaletteStart(off, m))
      case None => Failure(Truncated)
      case Some((count, palette)) => Success(Texture(m, indices, count, palette))
  }

  /**
    The header fields of a decoded texture are the uint32_t fields stored
    at its offset (at the cursor, for a negative offset).
   */
  lemma DecodedHeader(a: seq<Byte>, off: int, here: nat)
    ensures var r, q := DecodeTexture(a, off, here), SeekResult(off, here);
            r.Success? ==>
              && q + MIPTEX_SIZE <= |a|
              && r.value.mip.width == U32At(a, q + 16) && r.value.mip.height == U32At(a, q + 20)
              && r.value.mip.offsets[0] == U32At(a, q + 24) && r.value.mip.offsets[3] == U32At(a, q + 36)
  {
    var q := SeekResult(off, here);
    if DecodeTexture(a, off, here).Success? {
      U32AtSlice(a, q, q + MIPTEX_SIZE, 16);
      U32AtSlice(a, q, q + MIPTEX_SIZE, 20);
      U32AtSlice(a, q, q + MIPTEX_SIZE, 24);
      U32AtSlice(a, q, q + MIPTEX_SIZE, 36);
    }
  }

  // ------------------------------------------------------------ palette

  /** Every index of the plane names an entry of a palette of count entries. */
  predicate InPalette(indices: seq<Byte>, count: nat) {
    forall n | 0 <= n < |indices| :: indices[n] < count
  }

  /** The position of the first index that is not in the palette (|indices| when there is none). */
  function FirstOutOfRange(indices: seq<Byte>, count: nat): (k: nat)
    ensures k <= |indices|
    ensures forall j | 0 <= j < k :: indices[j] < count
    ensures k < |indices| ==> indices[k] >= count
  {
    if indices == [] || indices[0] >= count then 0
    else 1 + FirstOutOfRange(indices[1..], count)
  }

  /** The three bytes of entry i of a table of RGB triples. */
  function Rgb(s: seq<Byte>, i: nat): seq<Byte>
    requires 3 * i + 3 <= |s|
  {
    s[3 * i..3 * i + 3]
  }

  /** The pixel bytes: the palette triple of each index, in plane order. */
  function Pixels(indices: seq<Byte>, count: nat, palette: seq<Byte>): seq<Byte>
    requires |palette| == 3 * count && InPalette(indices, count)
  {
    if indices == [] then []
    else
      var n := |indices| - 1;
      Pixels(indices[..n], count, palette) + Rgb(palette, indices[n])
  }

  /** Pixel n of the output is palette entry indices[n], for every n, and nothing else is output. */
  lemma {:induction false} PixelsAt(indices: seq<Byte>, count: nat, palette: seq<Byte>)
    requires |palette| == 3 * count && InPalette(indices, count)
    ensures |Pixels(indices, count, palette)| == 3 * |indices|
    ensures forall n | 0 <= n < |indices| ::
              Rgb(Pixels(indices, count, palette), n) == Rgb(palette, indices[n])
  {
    if indices != [] {
      var m := |indices| - 1;
      var init := indices[..m];
      PixelsAt(init, count, palette);
      var px := Pixels(indices, count, palette);
      var pre := Pixels(init, count, palette);
      assert px == pre + Rgb(palette, indices[m]);
      forall n | 0 <= n < |indices|
        ensures Rgb(px, n) == Rgb(palette, indices[n])
      {
        if n < m {
          assert Rgb(px, n) == Rgb(pre, n);
          assert init[n] == indices[n];
        }
      }
    }
  }

  /**
    Resolution of the whole plane: the pixel bytes when every index is
    in the palette, otherwise the position of the first index that is
    not (the C code would read past the palette there).
   */
  function Resolve(indices: seq<Byte>, count: nat, palette: seq<Byte>): (r: Result<seq<Byte>, DecodeError>)
    requires |palette| == 3 * count
    ensures r.Success? <==> InPalette(indices, count)
    ensures r.Failure? ==> r.error.PaletteIndexOutOfRange? && r.error.pixel < |indices|
                           && indices[r.error.pixel] >= count
                           && InPalette(indices[..r.error.pixel], count)
  {
    var k := FirstOutOfRange(indices, count);
    if k < |indices| then Failure(PaletteIndexOutOfRange(k))
    else Success(Pixels(indices, count, palette))
  }

  /** Indices 0 and 1 through the palette red, green. */
  lemma TwoPixels()
    ensures Pixels([0, 1], 2, [0xFF, 0, 0, 0, 0xFF, 0]) == [0xFF, 0, 0, 0, 0xFF, 0]
  {
    var indices: seq<Byte> := [0, 1];
    assert indices[..1] == [0] && [0][..0] == [];
  }

  /** The pixel loop: one palette lookup per index, three bytes appended per pixel. */
  method ResolvePixels(indices: seq<Byte>, count: nat, palette: seq<Byte>)
    returns (r: Result<seq<Byte>, DecodeError>)
    requires |palette| == 3 * count
    ensures r == Resolve(indices, count, palette)
    ensures r.Success? ==> |r.value| == 3 * |indices|
    ensures r.Success? ==> forall n | 0 <= n < |indices| :: Rgb(r.value, n) == Rgb(palette, indices[n])
  {
    var out: seq<Byte> := [];
    var n := 0;
    while n < |indices|
      invariant 0 <= n <= |indices|
      invariant InPalette(indices[..n], count)
      invariant out == Pixels(indices[..n], count, palette)
    {
      var d := indices[n];
      if d >= count {
        return Failure(PaletteIndexOutOfRange(n));
      }
      var col := [palette[3 * d], palette[3 * d + 1], palette[3 * d + 2]];
      assert indices[..n + 1][..n] == indices[..n];
      out := out + col;
      n := n + 1;
    }
    assert indices[..n] == indices;
    PixelsAt(indices, count, palette);
    r := Success(out);
  }

  // ----------------------------------------------------- writer's layout

  /** The pixel counts of the four mip levels of a width x height texture, as a writer lays them out. */
  function MipSizes(w: nat, h: nat): seq<nat> {
    [w * h, (w / 2) * (h / 2), (w / 4) * (h / 4), (w / 8) * (h / 8)]
  }

  /** The mip offsets of a texture whose planes follow its header back to back. */
  function WriterOffsets(w: nat, h: nat): seq<nat> {
    var s := MipSizes(w, h);
    [MIPTEX_SIZE, MIPTEX_SIZE + s[0], MIPTEX_SIZE + s[0] + s[1], MIPTEX_SIZE + s[0] + s[1] + s[2]]
  }

  /**
    A texture as a writer stores it: header, level-0 plane, the planes
    of levels 1 to 3 (their contents do not matter to the decoder), then
    the palette count and the palette.
   */
  function TextureBytes(name: seq<Byte>, w: nat, h: nat, indices: seq<Byte>,
                        lower: seq<Byte>, count: nat, palette: seq<Byte>): (r: seq<Byte>)
    requires |name| == NAME_SIZE && w < TWO_32 && h < TWO_32
    requires MIPTEX_SIZE + w * h + (w / 2) * (h / 2) + (w / 4) * (h / 4) < TWO_32
    requires count < TWO_16
  {
    MipTexBytes(MipTex(name, w, h, WriterOffsets(w, h))) + indices + lower + U16Bytes(count) + palette
  }

  /**
    The palette seek of wad3xtract.c:125 lands where a writer puts the
    palette: the level-0 pixel count divided by 64 is the pixel count of
    the last mip level.
   */
  predicate LastLevelMatches(w: nat, h: nat) {
    (w * h) / 64 == (w / 8) * (h / 8)
  }

  /**
    The seek is right for dimensions that are multiples of 8 (those of
    real textures) and for textures smaller than 8 x 8, and wrong for
    instance for a 12 x 12 texture (144 / 64 == 2, but its last level
    has 1 pixel).
   */
  lemma LastLevelSize(w: nat, h: nat)
    ensures w % 8 == 0 && h % 8 == 0 ==> LastLevelMatches(w, h)
    ensures w < 8 && h < 8 ==> LastLevelMatches(w, h)
    ensures !LastLevelMatches(12, 12)
  {
    if w % 8 == 0 && h % 8 == 0 {
      var x, y := w / 8, h / 8;
      assert w == 8 * x && h == 8 * y;
      assert w * h == 64 * (x * y);
    }
    if w < 8 && h < 8 {
      assert w * h <= 7 * h <= 49 by {
        assert w * h <= 7 * h;
      }
    }
    assert (12 * 12) / 64 == 2;
  }

  /** Where the decoder looks inside a texture laid out by a writer. */
  lemma WriterPositions(off: nat, m: MipTex)
    requires LastLevelMatches(m.width, m.height)
    requires |m.offsets| == MIP_LEVELS && m.offsets == WriterOffsets(m.width, m.height)
    requires off + m.offsets[3] < TWO_32
    ensures IndexStart(off, m) == off + MIPTEX_SIZE
    ensures PlaneSize(m) == m.width * m.height
    ensures PaletteStart(off, m) == off + m.offsets[3] + (m.width / 8) * (m.height / 8)
  {
    var size := m.width * m.height;
    PlaneBelowLastOffset(m.width, m.height);
    BelowModulus(size);
    BelowModulus(off + MIPTEX_SIZE);
    BelowModulus(off + m.offsets[3]);
    assert PlaneSize(m) == size;
    assert Pow(4, MIP_LEVELS - 1) == 64;
  }

  /** In a writer's layout the level-0 plane lies before the last level. */
  lemma PlaneBelowLastOffset(w: nat, h: nat)
    ensures w * h <= WriterOffsets(w, h)[3]
  {
  }

  lemma BelowModulus(x: nat)
    requires x < TWO_32
    ensures x % TWO_32 == x
  {
  }

  /**
    Decoding a texture laid out by a writer, at any position of any
    archive, gives back its header, its level-0 plane and its palette,
    as long as the palette seek lands on the palette (LastLevelMatches)
    and no offset wraps around 2^32.
   */
  lemma TextureRoundTrip(pre: seq<Byte>, name: seq<Byte>, w: nat, h: nat,
                         indices: seq<Byte>, lower: seq<Byte>,
                         count: nat, palette: seq<Byte>, post: seq<Byte>, here: nat)
    requires |name| == NAME_SIZE && w < TWO_32 && h < TWO_32 && LastLevelMatches(w, h)
    requires |pre| + MIPTEX_SIZE + w * h + (w / 2) * (h / 2) + (w / 4) * (h / 4) < TWO_32
    requires |indices| == w * h
    requires |lower| == (w / 2) * (h / 2) + (w / 4) * (h / 4) + (w / 8) * (h / 8)
    requires count < TWO_16 && |palette| == 3 * count
    ensures DecodeTexture(pre + TextureBytes(name, w, h, indices, lower, count, palette) + post, |pre|, here)
            == Success(Texture(MipTex(name, w, h, WriterOffsets(w, h)), indices, count, palette))
  {
    var m := MipTex(name, w, h, WriterOffsets(w, h));
    var hd := MipTexBytes(m);
    var c := U16Bytes(count);
    var a := pre + TextureBytes(name, w, h, indices, lower, count, palette) + post;
    var off := |pre|;
    assert a == pre + hd + indices + lower + c + palette + post;
    LayoutReads(pre, hd, indices, lower, c, palette, post);
    MipTexRoundTrip(m);
    WriterPositions(off, m);
    assert a[off..off + MIPTEX_SIZE] == hd;
    assert FullRead(a, IndexStart(off, m), PlaneSize(m)) == Some(indices);
    var p := off + MIPTEX_SIZE + |indices| + |lower|;
    assert PaletteStart(off, m) == p;
    assert ReadPalette(a, p) == Some((count, palette));
    DecodeFromParts(a, off, here, m, indices, count, palette);
  }

  /** The reads of the decoder, on a texture laid out as header, plane, lower levels, count, palette. */
  lemma LayoutReads(pre: seq<Byte>, hd: seq<Byte>, indices: seq<Byte>, lower: seq<Byte>,
                    c: seq<Byte>, palette: seq<Byte>, post: seq<Byte>)
    ensures var a := pre + hd + indices + lower + c + palette + post;
            var p := |pre| + |hd| + |indices| + |lower|;
            && FullRead(a, |pre|, |hd|) == Some(hd)
            && FullRead(a, |pre| + |hd|, |indices|) == Some(indices)
            && FullRead(a, p, |c|) == Some(c)
            && FullRead(a, p + |c|, |palette|) == Some(palette)
  {
    var x1 := pre + hd;
    var x2 := x1 + indices;
    var x3 := x2 + lower;
    var x4 := x3 + c;
    var x5 := x4 + palette;
    FullReadEnd(pre, hd);
    FullReadPrefix(x1, indices, |pre|, |hd|);
    FullReadPrefix(x2, lower, |pre|, |hd|);
    FullReadPrefix(x3, c, |pre|, |hd|);
    FullReadPrefix(x4, palette, |pre|, |hd|);
    FullReadPrefix(x5, post, |pre|, |hd|);
    FullReadEnd(x1, indices);
    FullReadPrefix(x2, lower, |x1|, |indices|);
    FullReadPrefix(x3, c, |x1|, |indices|);
    FullReadPrefix(x4, palette, |x1|, |indices|);
    FullReadPrefix(x5, post, |x1|, |indices|);
    FullReadEnd(x3, c);
    FullReadPrefix(x4, palette, |x3|, |c|);
    FullReadPrefix(x5, post, |x3|, |c|);
    FullReadEnd(x4, palette);
    FullReadPrefix(x5, post, |x4|, |palette|);
  }

  /** The decoder's result once each of its reads is known. */
  lemma DecodeFromParts(a: seq<Byte>, off: nat, here: nat, m: MipTex, indices: seq<Byte>, count: nat, palette: seq<Byte>)
    ensures && off + MIPTEX_SIZE <= |a| && ParseMipTex(a[off..off + MIPTEX_SIZE]) == m
            && FullRead(a, IndexStart(off, m), PlaneSize(m)) == Some(indices)
            && ReadPalette(a, PaletteStart(off, m)) == Some((count, palette))
            ==> DecodeTexture(a, off, here) == Success(Texture(m, indices, count, palette))
  {
  }
}
