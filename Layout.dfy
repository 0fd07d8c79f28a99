/**
  The on-disk records of a WAD3 archive (wad3xtract.c:28-60): the 12-byte
  archive header, the 32-byte directory entry and the 40-byte texture
  header, each read field by field, and each with the encoding that a
  writer of the format produces, so that every parser has its inverse.
 */
module Layout {
  import opened Wrappers
  import opened Bytes
  import opened Stream

  const HEADER_SIZE: nat := 12
  const DIR_ENTRY_SIZE: nat := 32
  const MIPTEX_SIZE: nat := 40
  const NAME_SIZE: nat := 16
  const MIP_LEVELS: nat := 4

  /** The signature "WAD3". */
  const MAGIC: seq<Byte> := [0x57, 0x41, 0x44, 0x33]

  /** Directory entry types. Only TYPE_TEX is decoded into an image. */
  const TYPE_NONE: Byte := 0
  const TYPE_QPIC: Byte := 0x42
  const TYPE_TEX: Byte := 0x43
  const TYPE_MIPTEX: Byte := 0x44
  const TYPE_FONT: Byte := 0x45

  predicate IsInt32(i: int) {
    -TWO_31 <= i < TWO_31
  }

  /** The archive begins with the four bytes "WAD3". */
  predicate HasMagic(a: seq<Byte>) {
    |a| >= 4 && a[..4] == MAGIC
  }

  // ---------------------------------------------------------------- header

  datatype Header = Header(dirCount: int, dirOffset: int)

  datatype HeaderError = BadMagic | TruncatedHeader

  /**
    The header read at the start of the archive: the magic is compared
    first, on whatever bytes the read delivered, so an archive that does
    not begin with "WAD3" is refused as such even when it is shorter
    than a header.
   */
  function ParseHeader(a: seq<Byte>): (r: Result<Header, HeaderError>)
    ensures r == Failure(BadMagic) <==> !HasMagic(a)
    ensures r.Success? <==> HasMagic(a) && |a| >= HEADER_SIZE
    ensures r.Success? ==> r.value.dirCount == I32At(a, 4) && r.value.dirOffset == I32At(a, 8)
  {
    var got := ReadAt(a, 0, HEADER_SIZE);
    if |got| < 4 || got[..4] != MAGIC then Failure(BadMagic)
    else if |got| < HEADER_SIZE then Failure(TruncatedHeader)
    else Success(Header(I32At(got, 4), I32At(got, 8)))
  }

  function HeaderBytes(h: Header): (r: seq<Byte>)
    requires IsInt32(h.dirCount) && IsInt32(h.dirOffset)
    ensures |r| == HEADER_SIZE && HasMagic(r)
  {
    MAGIC + I32Bytes(h.dirCount) + I32Bytes(h.dirOffset)
  }

  /** An int32 field encoded at a position is read back at that position. */
  lemma I32AtEncoded(pre: seq<Byte>, i: int, post: seq<Byte>)
    requires IsInt32(i)
    ensures I32At(pre + I32Bytes(i) + post, |pre|) == i
  {
    var b := I32Bytes(i);
    var a := pre + b + post;
    assert a[|pre|..|pre| + 4] == b[0..4];
    U32AtShift(a, b, |pre|, 0);
  }

  /** Whatever follows it, an encoded header parses back to itself. */
  lemma HeaderRoundTrip(h: Header, rest: seq<Byte>)
    requires IsInt32(h.dirCount) && IsInt32(h.dirOffset)
    ensures ParseHeader(HeaderBytes(h) + rest) == Success(h)
  {
    var a := HeaderBytes(h) + rest;
    assert a == MAGIC + I32Bytes(h.dirCount) + (I32Bytes(h.dirOffset) + rest);
    I32AtEncoded(MAGIC, h.dirCount, I32Bytes(h.dirOffset) + rest);
    assert a == (MAGIC + I32Bytes(h.dirCount)) + I32Bytes(h.dirOffset) + rest;
    I32AtEncoded(MAGIC + I32Bytes(h.dirCount), h.dirOffset, rest);
  }

  // ------------------------------------------------------- directory entry

  /**
    One directory record. The two padding bytes are not kept; the name
    is the raw 16-byte field.
   */
  datatype DirEntry = DirEntry(
    fileOffset: int,
    storeSize: int,
    fileSize: int,
    typ: Byte,
    compressed: Byte,
    name: seq<Byte>)

  predicate ValidDirEntry(e: DirEntry) {
    IsInt32(e.fileOffset) && IsInt32(e.storeSize) && IsInt32(e.fileSize) && |e.name| == NAME_SIZE
  }

  /** A 32-byte directory record, field by field. */
  function ParseDirEntry(rec: seq<Byte>): (e: DirEntry)
    requires |rec| == DIR_ENTRY_SIZE
    ensures ValidDirEntry(e)
    ensures e.typ == rec[12] && e.compressed == rec[13] && e.name == rec[16..32]
    ensures e.fileOffset == I32At(rec, 0) && e.storeSize == I32At(rec, 4) && e.fileSize == I32At(rec, 8)
    ensures e.fileOffset % TWO_32 == U32At(rec, 0)
  {
    DirEntry(I32At(rec, 0), I32At(rec, 4), I32At(rec, 8), rec[12], rec[13], rec[16..32])
  }

  /** The record a writer stores for an entry, with zero padding. */
  function DirEntryBytes(e: DirEntry): (r: seq<Byte>)
    requires ValidDirEntry(e)
    ensures |r| == DIR_ENTRY_SIZE
  {
    I32Bytes(e.fileOffset) + I32Bytes(e.storeSize) + I32Bytes(e.fileSize)
      + [e.typ, e.compressed, 0, 0] + e.name
  }

  lemma DirEntryRoundTrip(e: DirEntry)
    requires ValidDirEntry(e)
    ensures ParseDirEntry(DirEntryBytes(e)) == e
  {
    var r := DirEntryBytes(e);
    var tail := [e.typ, e.compressed, 0, 0] + e.name;
    assert r == [] + I32Bytes(e.fileOffset) + (I32Bytes(e.storeSize) + I32Bytes(e.fileSize) + tail);
    I32AtEncoded([], e.fileOffset, I32Bytes(e.storeSize) + I32Bytes(e.fileSize) + tail);
    assert r == I32Bytes(e.fileOffset) + I32Bytes(e.storeSize) + (I32Bytes(e.fileSize) + tail);
    I32AtEncoded(I32Bytes(e.fileOffset), e.storeSize, I32Bytes(e.fileSize) + tail);
    assert r == (I32Bytes(e.fileOffset) + I32Bytes(e.storeSize)) + I32Bytes(e.fileSize) + tail;
    I32AtEncoded(I32Bytes(e.fileOffset) + I32Bytes(e.storeSize), e.fileSize, tail);
    assert r[16..32] == e.name;
  }

  // -------------------------------------------------------- texture header

  /** The BSPMipTex header: name, dimensions and four mip offsets. */
  datatype MipTex = MipTex(name: seq<Byte>, width: nat, height: nat, offsets: seq<nat>)

  predicate ValidMipTex(m: MipTex) {
    && |m.name| == NAME_SIZE
    && m.width < TWO_32 && m.height < TWO_32
    && |m.offsets| == MIP_LEVELS
    && forall k | 0 <= k < MIP_LEVELS :: m.offsets[k] < TWO_32
  }

  /** A 40-byte texture header, field by field. */
  function ParseMipTex(h: seq<Byte>): (m: MipTex)
    requires |h| == MIPTEX_SIZE
    ensures ValidMipTex(m)
    ensures m.name == h[..16] && m.width == U32At(h, 16) && m.height == U32At(h, 20)
    ensures forall k | 0 <= k < MIP_LEVELS :: m.offsets[k] == U32At(h, 24 + 4 * k)
  {
    MipTex(h[..16], U32At(h, 16), U32At(h, 20),
           [U32At(h, 24), U32At(h, 28), U32At(h, 32), U32At(h, 36)])
  }

  /** The six uint32_t fields of a texture header, in file order. */
  function MipTexFields(m: MipTex): (fs: seq<nat>)
    requires |m.offsets| == MIP_LEVELS
  {
    [m.width, m.height] + m.offsets
  }

  function MipTexBytes(m: MipTex): (r: seq<Byte>)
    requires ValidMipTex(m)
    ensures |r| == MIPTEX_SIZE
  {
    m.name + U32Seq(MipTexFields(m))
  }

  lemma MipTexRoundTrip(m: MipTex)
    requires ValidMipTex(m)
    ensures ParseMipTex(MipTexBytes(m)) == m
  {
    var f := MipTexFields(m);
    var r := MipTexBytes(m);
    forall k | 0 <= k < 6
      ensures U32At(r, 16 + 4 * k) == f[k]
    {
      U32SeqAt(f, k);
      assert r[16 + 4 * k..16 + 4 * k + 4] == U32Seq(f)[4 * k..4 * k + 4];
      U32AtShift(r, U32Seq(f), 16 + 4 * k, 4 * k);
    }
    assert f[0] == m.width && f[1] == m.height && f[2..] == m.offsets;
    assert U32At(r, 16) == f[0] && U32At(r, 20) == f[1];
    assert U32At(r, 24) == f[2] && U32At(r, 28) == f[3] && U32At(r, 32) == f[4] && U32At(r, 36) == f[5];
    assert r[..16] == (m.name + U32Seq(f))[..16] == m.name;
    assert ParseMipTex(r).offsets == m.offsets;
  }
}
