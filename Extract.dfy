/**
  The extractor's main loop (wad3xtract.c:76-150): the output directory,
  the header check, then one pass over the directory records, decoding
  every entry of type 0x43 into a .ppm file. The files are not written
  here; each directory entry yields a report of what the program does
  with it, and the whole run yields the list of reports and the reason
  the pass ended.
 */
module Extract {
  import opened Wrappers
  import opened Bytes
  import opened Stream
  import opened Layout
  import opened Texture
  import opened Ppm
  import opened Paths

  /** A file the extractor writes: its path and its bytes. */
  datatype OutFile = OutFile(path: string, contents: seq<Byte>)

  /** What becomes of one directory entry. */
  datatype Outcome =
    | Listed                   // only listed: not a texture of type 0x43
    | Written(file: OutFile)   // decoded and written out
    | Failed(error: DecodeError)

  datatype Report = Report(entry: DirEntry, outcome: Outcome)

  /** Why the pass over the archive ended. */
  datatype Status =
    | Completed                        // every one of the dircount records was handled
    | HeaderRefused(reason: HeaderError)
    | TruncatedDirectory(record: nat)  // record number `record` lies past the end of the archive

  datatype Extraction = Extraction(outputDir: string, reports: seq<Report>, status: Status)

  // ------------------------------------------------------------ one entry

  /**
    One directory entry whose record ends at position here: entries of
    any type but 0x43 are only listed; a texture is decoded, resolved
    through its palette and written as "<dir><name>.ppm", holding the
    PPM header and three bytes per pixel of the level-0 plane.
   */
  function Process(a: seq<Byte>, dir: string, e: DirEntry, here: nat): (o: Outcome)
    ensures o.Listed? <==> e.typ != TYPE_TEX
  {
    if e.typ != TYPE_TEX then Listed
    else match DecodeTexture(a, e.fileOffset, here)
      case Failure(err) => Failed(err)
      case Success(t) =>
        match Resolve(t.indices, t.palCount, t.palette)
        case Failure(err) => Failed(err)
        case Success(px) => Written(OutFile(TargetFile(dir, e.name), PpmHeader(t.mip.width, t.mip.height) + px))
  }

  /**
    What becomes of a texture entry: a decoding that comes up short
    leaves no file; an index past the end of the palette leaves none
    either, and is reported at the first pixel that has one; otherwise
    the file "<dir><name>.ppm" holds the PPM header, then for pixel n of
    the level-0 plane the palette entry its index names.
   */
  lemma ProcessOutcome(a: seq<Byte>, dir: string, e: DirEntry, here: nat)
    requires ValidDirEntry(e) && e.typ == TYPE_TEX
    ensures var o := Process(a, dir, e, here);
            var d := DecodeTexture(a, e.fileOffset, here);
            && (d.Failure? ==> o == Failed(Truncated))
            && (d.Success? ==>
                  var t := d.value;
                  && (o.Failed? <==> !InPalette(t.indices, t.palCount))
                  && (o.Failed? ==> o.error == PaletteIndexOutOfRange(FirstOutOfRange(t.indices, t.palCount)))
                  && (o.Written? ==>
                        var hdr := PpmHeader(t.mip.width, t.mip.height);
                        && o.file.path == TargetFile(dir, e.name)
                        && |o.file.contents| == |hdr| + 3 * |t.indices|
                        && o.file.contents[..|hdr|] == hdr
                        && forall n | 0 <= n < |t.indices| ::
                             Rgb(o.file.contents[|hdr|..], n) == Rgb(t.palette, t.indices[n])))
  {
    var d := DecodeTexture(a, e.fileOffset, here);
    if d.Success? {
      var t := d.value;
      if InPalette(t.indices, t.palCount) {
        var px := Pixels(t.indices, t.palCount, t.palette);
        PixelsAt(t.indices, t.palCount, t.palette);
        var hdr := PpmHeader(t.mip.width, t.mip.height);
        assert (hdr + px)[..|hdr|] == hdr && (hdr + px)[|hdr|..] == px;
      }
    }
  }

  /** The palette read at the stream's position: its uint16_t count, then three bytes per entry. */
  method ReadPaletteHere(cur: Cursor) returns (r: Option<(nat, seq<Byte>)>)
    modifies cur
    ensures r == ReadPalette(cur.data, old(cur.pos))
  {
    ghost var p := cur.pos;
    var c := cur.Read(2);
    if |c| < 2 {
      return None;
    }
    var palSize := U16At(c, 0);
    assert c == cur.data[p..p + 2];
    var palette := cur.Read(3 * palSize);
    if |palette| < 3 * palSize {
      return None;
    }
    r := Some((palSize, palette));
  }

  /**
    The reads of lines 118-128 for a texture whose fileOffset is off, on
    the stream standing where fseek(fp, off) left it: the texture header,
    a seek to the level-0 plane and its size*1 bytes, a seek past the
    last mip level and the palette.
   */
  method ReadTexture(cur: Cursor, off: int, ghost here: nat) returns (r: Result<Texture, DecodeError>)
    requires cur.pos == SeekResult(off, here)
    modifies cur
    ensures r == DecodeTexture(cur.data, off, here)
  {
    var hd := cur.Read(MIPTEX_SIZE);
    if |hd| < MIPTEX_SIZE {
      return Failure(Truncated);
    }
    r := ReadLevels(cur, off, ParseMipTex(hd));
  }

  /** The target of the palette seek, computed with ipow(4, 3), is where DecodeLevels looks for the palette. */
  lemma PaletteSeek(off: int, m: MipTex, scale: int)
    requires |m.offsets| == MIP_LEVELS && scale == Pow(4, MIP_LEVELS - 1)
    ensures scale == 64
    ensures (off + m.offsets[MIP_LEVELS - 1]) % TWO_32 + PlaneSize(m) / scale == PaletteStart(off, m)
  {
    assert Pow(4, 1) == 4 && Pow(4, 2) == 16;
  }

  /** The seek to the level-0 plane and its read, then the seek past the last level and the palette read. */
  method ReadLevels(cur: Cursor, off: int, m: MipTex) returns (r: Result<Texture, DecodeError>)
    requires ValidMipTex(m)
    modifies cur
    ensures r == DecodeLevels(cur.data, off, m)
  {
    var seeked := cur.Seek((off + m.offsets[0]) % TWO_32);
    var size := PlaneSize(m);
    var data := cur.Read(size);
    ghost var plane := FullRead(cur.data, IndexStart(off, m), PlaneSize(m));
    if |data| < size {
      assert plane.None?;
      return Failure(Truncated);
    }
    assert plane == Some(data);
    var scale := Ipow(4, MIP_LEVELS - 1);
    PaletteSeek(off, m, scale);
    seeked := cur.Seek((off + m.offsets[MIP_LEVELS - 1]) % TWO_32 + size / scale);
    var pal := ReadPaletteHere(cur);
    if pal.None? {
      return Failure(Truncated);
    }
    var (palSize, palette) := pal.value;
    r := Success(Texture(m, data, palSize, palette));
  }

  /**
    The body of the directory loop for one entry, on the shared stream
    standing just past the entry's record: seek to the entry, and for a
    texture decode it, resolve its pixels through its palette and make
    the file. The caller seeks back afterwards.
   */
  method DecodeEntry(cur: Cursor, dir: string, e: DirEntry) returns (o: Outcome)
    requires ValidDirEntry(e)
    modifies cur
    ensures o == Process(cur.data, dir, e, old(cur.pos))
  {
    ghost var here := cur.pos;
    var seeked := cur.Seek(e.fileOffset);
    if e.typ != TYPE_TEX {
      return Listed;
    }
    var t := ReadTexture(cur, e.fileOffset, here);
    if t.Failure? {
      return Failed(t.error);
    }
    var m := t.value.mip;
    var px := ResolvePixels(t.value.indices, t.value.palCount, t.value.palette);
    match px
    case Failure(err) =>
      o := Failed(err);
    case Success(pixels) =>
      o := Written(OutFile(TargetFile(dir, e.name), PpmHeader(m.width, m.height) + pixels));
  }

  // ------------------------------------------------------- the directory

  /** Directory record k of a directory starting at position start. */
  function EntryAt(a: seq<Byte>, start: nat, k: nat): (e: DirEntry)
    requires start + DIR_ENTRY_SIZE * (k + 1) <= |a|
    ensures ValidDirEntry(e)
  {
    var p := start + DIR_ENTRY_SIZE * k;
    ParseDirEntry(a[p..p + DIR_ENTRY_SIZE])
  }

  /**
    The number of records that n passes of the directory loop read: the
    loop reads record k at start + 32k and stops at the first record that
    does not lie wholly within the archive.
   */
  function RecordsRead(a: seq<Byte>, start: nat, n: nat): (m: nat)
    ensures m <= n
    ensures m == 0 || start + DIR_ENTRY_SIZE * m <= |a|
    ensures m < n ==> start + DIR_ENTRY_SIZE * (m + 1) > |a|
  {
    if start + DIR_ENTRY_SIZE * n <= |a| then n
    else if start > |a| then 0
    else (|a| - start) / DIR_ENTRY_SIZE
  }

  /** Record k and what becomes of its entry, handled with the stream just past the record. */
  function ReportAt(a: seq<Byte>, dir: string, start: nat, k: nat): Report
    requires start + DIR_ENTRY_SIZE * (k + 1) <= |a|
  {
    var e := EntryAt(a, start, k);
    Report(e, Process(a, dir, e, start + DIR_ENTRY_SIZE * (k + 1)))
  }

  /** The reports of the first n records of a directory starting at start. */
  function Reports(a: seq<Byte>, dir: string, start: nat, n: nat): (r: seq<Report>)
    requires n == 0 || start + DIR_ENTRY_SIZE * n <= |a|
    ensures |r| == n
  {
    seq(n, k requires 0 <= k < n => ReportAt(a, dir, start, k))
  }

  /** The number of passes of `for (int i=0; i < dircount; ++i)`. */
  function Passes(dirCount: int): nat
  {
    if dirCount > 0 then dirCount else 0
  }

  /** The exit status of the program: 100 for an archive that is not WAD3, 0 otherwise. */
  function ExitCode(x: Extraction): int {
    if x.status == HeaderRefused(BadMagic) then 100 else 0
  }

  /**
    The whole run on the archive at path (already resolved): the output
    directory is derived; an archive without the "WAD3" magic is refused
    with exit status 100 and nothing else happens; otherwise the records
    are read from the directory offset (from position 12, where the
    header read left the stream, when that offset is negative), one per
    pass, dircount of them, until one is cut short.
   */
  function Run(path: string, a: seq<Byte>): (x: Extraction)
    ensures x.outputDir == OutputDir(path)
    ensures x.status == HeaderRefused(BadMagic) <==> !HasMagic(a)
    ensures x.status == HeaderRefused(TruncatedHeader) <==> HasMagic(a) && |a| < HEADER_SIZE
    ensures x.status.HeaderRefused? ==> x.reports == []
    ensures ExitCode(x) == (if HasMagic(a) then 0 else 100)
    ensures !x.status.HeaderRefused? ==>
              && |a| >= HEADER_SIZE
              && var start, n := SeekResult(I32At(a, 8), HEADER_SIZE), Passes(I32At(a, 4));
                 && |x.reports| <= n
                 && (|x.reports| == 0 || start + DIR_ENTRY_SIZE * |x.reports| <= |a|)
                 && (x.status == Completed <==> |x.reports| == n)
                 && (x.status.TruncatedDirectory? ==>
                       x.status.record == |x.reports| && start + DIR_ENTRY_SIZE * (|x.reports| + 1) > |a|)
  {
    var dir := OutputDir(path);
    match ParseHeader(a)
    case Failure(err) => Extraction(dir, [], HeaderRefused(err))
    case Success(_) =>
      var start, n := SeekResult(I32At(a, 8), HEADER_SIZE), Passes(I32At(a, 4));
      var m := RecordsRead(a, start, n);
      Extraction(dir, Reports(a, dir, start, m), if m == n then Completed else TruncatedDirectory(m))
  }

  /**
    The reports of a run, one per record read: report k is record k of
    the directory, read at start + 32k, and what becomes of its entry
    with the stream just past the record; only entries of type 0x43 are
    more than listed.
   */
  lemma RunReports(path: string, a: seq<Byte>)
    ensures var x := Run(path, a);
            !x.status.HeaderRefused? ==>
              var start := SeekResult(I32At(a, 8), HEADER_SIZE);
              forall k | 0 <= k < |x.reports| ::
                && start + DIR_ENTRY_SIZE * (k + 1) <= |a|
                && x.reports[k].entry == EntryAt(a, start, k)
                && x.reports[k].outcome == Process(a, x.outputDir, EntryAt(a, start, k), start + DIR_ENTRY_SIZE * (k + 1))
                && (x.reports[k].outcome.Listed? <==> x.reports[k].entry.typ != TYPE_TEX)
  {
    var x := Run(path, a);
    if !x.status.HeaderRefused? {
      var dir := OutputDir(path);
      var start, n := SeekResult(I32At(a, 8), HEADER_SIZE), Passes(I32At(a, 4));
      assert ParseHeader(a).Success?;
      assert x.reports == Reports(a, dir, start, RecordsRead(a, start, n));
    }
  }

  /**
    One pass of the directory loop, on the stream standing at record i:
    read the record (none when it is cut short), save the position past
    it, handle the entry and seek back to that position.
   */
  method VisitRecord(cur: Cursor, dir: string, ghost start: nat, ghost i: nat) returns (r: Option<Report>)
    modifies cur
    requires cur.pos == start + DIR_ENTRY_SIZE * i
    ensures r.None? <==> start + DIR_ENTRY_SIZE * (i + 1) > |cur.data|
    ensures r.Some? ==>
              && start + DIR_ENTRY_SIZE * (i + 1) <= |cur.data|
              && cur.pos == start + DIR_ENTRY_SIZE * (i + 1)
              && r.value == ReportAt(cur.data, dir, start, i)
  {
    var rec := cur.Read(DIR_ENTRY_SIZE);
    if |rec| < DIR_ENTRY_SIZE {
      return None;
    }
    var e := ParseDirEntry(rec);
    var pos := cur.Tell();
    var o := DecodeEntry(cur, dir, e);
    var seeked := cur.Seek(pos);
    return Some(Report(e, o));
  }

  /** The reports of i + 1 records are those of i records and the report of record i. */
  lemma ReportsStep(a: seq<Byte>, dir: string, start: nat, i: nat)
    requires start + DIR_ENTRY_SIZE * (i + 1) <= |a|
    ensures Reports(a, dir, start, i) + [ReportAt(a, dir, start, i)] == Reports(a, dir, start, i + 1)
  {
    var init, all := Reports(a, dir, start, i), Reports(a, dir, start, i + 1);
    var last := ReportAt(a, dir, start, i);
    forall k | 0 <= k < i + 1
      ensures (init + [last])[k] == all[k]
    {
      if k < i {
        assert init[k] == ReportAt(a, dir, start, k);
      }
    }
  }

  /**
    The directory loop: dircount passes over the shared stream, from
    where it stands, stopping at the first record cut short.
   */
  method WalkDirectory(cur: Cursor, dir: string, dirCount: int) returns (reports: seq<Report>, status: Status)
    modifies cur
    ensures var n := Passes(dirCount);
            var m := RecordsRead(cur.data, old(cur.pos), n);
            && reports == Reports(cur.data, dir, old(cur.pos), m)
            && status == if m == n then Completed else TruncatedDirectory(m)
  {
    ghost var a, start := cur.data, cur.pos;
    reports := [];
    var i := 0;
    while i < dirCount
      invariant 0 <= i <= Passes(dirCount)
      invariant cur.data == a
      invariant cur.pos == start + DIR_ENTRY_SIZE * i
      invariant i == 0 || start + DIR_ENTRY_SIZE * i <= |a|
      invariant reports == Reports(a, dir, start, i)
    {
      var r := VisitRecord(cur, dir, start, i);
      if r.None? {
        assert RecordsRead(a, start, Passes(dirCount)) == i;
        return reports, TruncatedDirectory(i);
      }
      ReportsStep(a, dir, start, i);
      reports := reports + [r.value];
      i := i + 1;
    }
    status := Completed;
  }

  /**
    The program: resolve the output directory, open the archive, check
    its magic and walk the directory from its offset.
   */
  method ExtractArchive(path: string, archive: seq<Byte>) returns (x: Extraction)
    ensures x == Run(path, archive)
  {
    var dir := DeriveOutputDir(path);
    var cur := new Cursor(archive);
    var hdr := cur.Read(HEADER_SIZE);
    if |hdr| < 4 || hdr[..4] != MAGIC {
      return Extraction(dir, [], HeaderRefused(BadMagic));
    }
    if |hdr| < HEADER_SIZE {
      return Extraction(dir, [], HeaderRefused(TruncatedHeader));
    }
    var dirCount, dirOffset := I32At(hdr, 4), I32At(hdr, 8);
    assert hdr == archive[..HEADER_SIZE];
    assert ParseHeader(archive).Success?;
    var seeked := cur.Seek(dirOffset);
    var reports, status := WalkDirectory(cur, dir, dirCount);
    x := Extraction(dir, reports, status);
  }

  /**
    End to end: an archive holding one texture entry, laid out as a
    writer of the format lays it out (header, any gap, a one-record
    directory, the texture right after it), is extracted into one file
    "<dir><name>.ppm" holding the PPM header and the texture's pixels.
   */
  lemma SingleTextureArchive(path: string, gap: seq<Byte>, e: DirEntry, name: seq<Byte>, w: nat, h: nat,
                             indices: seq<Byte>, lower: seq<Byte>, count: nat, palette: seq<Byte>)
    requires ValidDirEntry(e) && e.typ == TYPE_TEX && e.fileOffset == HEADER_SIZE + |gap| + DIR_ENTRY_SIZE
    requires |name| == NAME_SIZE && w < TWO_32 && h < TWO_32 && LastLevelMatches(w, h)
    requires HEADER_SIZE + |gap| + DIR_ENTRY_SIZE + MIPTEX_SIZE + w * h + (w / 2) * (h / 2) + (w / 4) * (h / 4) < TWO_32
    requires |indices| == w * h
    requires |lower| == (w / 2) * (h / 2) + (w / 4) * (h / 4) + (w / 8) * (h / 8)
    requires count < TWO_16 && |palette| == 3 * count
    requires InPalette(indices, count)
    ensures var a := HeaderBytes(Header(1, HEADER_SIZE + |gap|)) + gap + DirEntryBytes(e)
                     + TextureBytes(name, w, h, indices, lower, count, palette);
            var dir := OutputDir(path);
            Run(path, a) == Extraction(dir, [Report(e, Written(OutFile(TargetFile(dir, e.name),
                                                                       PpmHeader(w, h) + Pixels(indices, count, palette))))],
                                       Completed)
  {
    var start := HEADER_SIZE + |gap|;
    var hb := HeaderBytes(Header(1, start));
    var db := DirEntryBytes(e);
    var tb := TextureBytes(name, w, h, indices, lower, count, palette);
    var a := hb + gap + db + tb;
    var dir := OutputDir(path);
    HeaderRoundTrip(Header(1, start), gap + db + tb);
    assert a == hb + (gap + db + tb);
    RecordAt(hb + gap, e, tb);
    TextureWritten(hb + gap + db, dir, e, name, w, h, indices, lower, count, palette);
    RunOfOneRecord(path, a, start, e);
  }

  /** A record a writer stores for an entry, wherever it lies, is read back as that entry. */
  lemma RecordAt(pre: seq<Byte>, e: DirEntry, post: seq<Byte>)
    requires ValidDirEntry(e)
    ensures EntryAt(pre + DirEntryBytes(e) + post, |pre|, 0) == e
  {
    var db := DirEntryBytes(e);
    FullReadEnd(pre, db);
    FullReadPrefix(pre + db, post, |pre|, DIR_ENTRY_SIZE);
    assert (pre + db + post)[|pre|..|pre| + DIR_ENTRY_SIZE] == db;
    DirEntryRoundTrip(e);
  }

  /** A run over an archive whose header announces one record, at start. */
  lemma RunOfOneRecord(path: string, a: seq<Byte>, start: nat, e: DirEntry)
    requires ParseHeader(a) == Success(Header(1, start))
    requires start + DIR_ENTRY_SIZE <= |a| && EntryAt(a, start, 0) == e
    ensures Run(path, a)
            == Extraction(OutputDir(path), [Report(e, Process(a, OutputDir(path), e, start + DIR_ENTRY_SIZE))], Completed)
  {
    assert RecordsRead(a, start, 1) == 1;
    assert Reports(a, OutputDir(path), start, 1)[0] == ReportAt(a, OutputDir(path), start, 0);
  }

  /** A texture entry whose texture a writer laid out right where the stream stands is written out whole. */
  lemma TextureWritten(pre: seq<Byte>, dir: string, e: DirEntry, name: seq<Byte>, w: nat, h: nat,
                       indices: seq<Byte>, lower: seq<Byte>, count: nat, palette: seq<Byte>)
    requires e.typ == TYPE_TEX && e.fileOffset == |pre|
    requires |name| == NAME_SIZE && w < TWO_32 && h < TWO_32 && LastLevelMatches(w, h)
    requires |pre| + MIPTEX_SIZE + w * h + (w / 2) * (h / 2) + (w / 4) * (h / 4) < TWO_32
    requires |indices| == w * h
    requires |lower| == (w / 2) * (h / 2) + (w / 4) * (h / 4) + (w / 8) * (h / 8)
    requires count < TWO_16 && |palette| == 3 * count
    requires InPalette(indices, count)
    ensures Process(pre + TextureBytes(name, w, h, indices, lower, count, palette), dir, e, |pre|)
            == Written(OutFile(TargetFile(dir, e.name), PpmHeader(w, h) + Pixels(indices, count, palette)))
  {
    var a := pre + TextureBytes(name, w, h, indices, lower, count, palette);
    TextureRoundTrip(pre, name, w, h, indices, lower, count, palette, [], |pre|);
    assert a + [] == a;
    var t := Texture(MipTex(name, w, h, WriterOffsets(w, h)), indices, count, palette);
    assert DecodeTexture(a, e.fileOffset, |pre|) == Success(t);
    assert Resolve(indices, count, palette) == Success(Pixels(indices, count, palette));
  }

  /**
    A 2 x 1 texture "TEST" with indices [0, 1] and the two-entry palette
    red, green, in an archive whose directory is at offset 20 (after 8
    bytes of any content), becomes one file, named TargetFile(dir, TEST_NAME),
    that is "<dir>TEST.ppm" (Ppm.TestFileName), holding the header "P6 2 1
    255\n" (Ppm.TwoByOneHeader) and the pixels FF 00 00 00 FF 00
    (Texture.TwoPixels).
   */
  lemma TwoPixelArchive(path: string, gap: seq<Byte>)
    requires |gap| == 8
    ensures var e := DirEntry(52, 50, 50, TYPE_TEX, 0, TEST_NAME);
            var a := HeaderBytes(Header(1, 20)) + gap + DirEntryBytes(e)
                     + TextureBytes(TEST_NAME, 2, 1, [0, 1], [], 2, [0xFF, 0, 0, 0, 0xFF, 0]);
            var dir := OutputDir(path);
            Run(path, a) == Extraction(dir, [Report(e, Written(OutFile(TargetFile(dir, e.name),
                                                                       PpmHeader(2, 1) + Pixels([0, 1], 2, [0xFF, 0, 0, 0, 0xFF, 0]))))],
                                       Completed)
  {
    var palette: seq<Byte> := [0xFF, 0, 0, 0, 0xFF, 0];
    var dir := OutputDir(path);
    LastLevelSize(2, 1);
    SingleTextureArchive(path, gap, DirEntry(52, 50, 50, TYPE_TEX, 0, TEST_NAME),
                         TEST_NAME, 2, 1, [0, 1], [], 2, palette);
  }
}
