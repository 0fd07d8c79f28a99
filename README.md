# WAD3xtract, modelled in Dafny

WAD3xtract turns the textures of a WAD3 archive (the texture container of
the GoldSrc engine) into PPM images. It first derives an output directory
from the archive's path. It then checks the "WAD3" magic and walks the
directory. For every entry of type 0x43 it:

- reads the texture header;
- reads the level-0 plane of palette indices;
- finds the palette past the last mip level;
- writes "<dir><name>.ppm" with a "P6 w h 255" header and one RGB triple per pixel.

This project models that program, `wad3xtract.c`, as Dafny and proves
properties of the model.

- **Wrappers, Bytes.** Option/Result values and little-endian field readers. Every
  reader has an encoder that is its inverse.
- **Stream.** The FILE stream is `Stream.Cursor`, a class with the archive's bytes
  and a mutable position.
  - `Read`, `Seek` and `Tell` model fread, fseek and ftell.
  - A short fread delivers fewer bytes.
  - fseek to a negative position fails and leaves the position unchanged.
- **Layout.** The 12-byte header, the 32-byte directory record and the 40-byte
  texture header. Each parser has a writer's encoding and a round-trip lemma.
- **Texture.**
  - `ipow` and the decoding of one texture. Decoding is both a function
    (`DecodeTexture`) and the stream-based methods that do it step by step.
  - The pixel loop (`ResolvePixels`).
  - The round trip "a texture laid out by a writer decodes back to its header,
    plane and palette".
- **Ppm.** The output file name and the text header. The header is proved to
  parse back into the magic, the two `%d` fields and "255".
- **Paths.** The backward scan that derives the output directory (`DeriveOutputDir`,
  proved against `OutputDir`).
- **Extract.** The main loop.
  - `ExtractArchive` runs over the cursor and is proved equal to the function `Run`.
  - `Run` yields the output directory, one report per directory record (the
    entry and what became of it: listed, written as a file, or failed), and
    why the walk ended.
  - `SingleTextureArchive` is an end-to-end lemma over a one-texture archive,
    and `TwoPixelArchive` applies it to a 2 x 1 texture named "TEST".

Arithmetic follows the C types on an LP64 target (x86-64), where `long`
holds every `uint32_t` value. `width * height` is a `uint32_t` product, so it
wraps modulo 2^32. `fileOffset + offsets[k]` is computed in `uint32_t`, and
`%d` prints a `uint32_t` as the `int32_t` with the same bits.

Where the code and the format's usual description differ, the model follows
the code. The palette is looked for at `offsets[3] + size / ipow(4, 3)`
(wad3xtract.c:125), that is at the level-0 pixel count divided by 64, not
at `(width >> 3) * (height >> 3)`. The two agree when both dimensions are
multiples of 8, and also when both are below 8, but not for instance for a
12 x 12 texture (`Texture.LastLevelSize`). `TextureRoundTrip` and the
end-to-end lemmas assume that they agree (`Texture.LastLevelMatches`).

## Model

| member | source | states |
|---|---|---|
| Bytes.U16At | wad3xtract.c:126 | the uint16_t palette count read from two little-endian bytes is below 2^16, and its low and high bytes are the stored ones |
| Bytes.U32At | wad3xtract.c:58-59 | a uint32_t field read from four little-endian bytes is below 2^32 |
| Bytes.Int32Of | wad3xtract.c:30-31 | a 32-bit pattern read as int32_t lies in [-2^31, 2^31) and is congruent to the pattern modulo 2^32 |
| Bytes.I32At | wad3xtract.c:37-39 | an int32_t field lies in the int32 range and has the stored bit pattern |
| Bytes.U16Bytes | wad3xtract.c:126 | encoding a uint16_t gives two bytes that read back as the value |
| Bytes.U32Bytes | wad3xtract.c:58-59 | encoding a uint32_t gives four bytes that read back as the value |
| Bytes.I32Bytes | wad3xtract.c:30-31 | encoding an int32_t gives four bytes that read back as the value |
| Bytes.U32BytesOfU32At | wad3xtract.c:58-59 | reading four bytes and encoding the value gives back the same four bytes |
| Bytes.CString | wad3xtract.c:43 | a name field as C string functions see it: a prefix of the field with no NUL, followed in the field by a NUL unless it is the whole field |
| Stream.ReadAt | wad3xtract.c:112 | fread delivers at most n bytes: all n exactly when they lie in the archive, else the bytes up to the end, none when reading starts at or past the end |
| Stream.FullRead | wad3xtract.c:118 | a read is accepted exactly when all n bytes lie in the archive, and then it is the n bytes at the position |
| Stream.Cursor.constructor | wad3xtract.c:95 | fopen gives a stream over the archive at position 0 |
| Stream.Cursor.Tell | wad3xtract.c:114 | ftell returns the current position |
| Stream.Cursor.Seek | wad3xtract.c:115 | fseek succeeds exactly for a non-negative target and moves there; otherwise the position stays |
| Stream.Cursor.Read | wad3xtract.c:100 | fread returns what ReadAt delivers from the current position and advances past those bytes |
| Layout.ParseHeader | wad3xtract.c:100-105 | an archive not starting with "WAD3" is refused as BadMagic (also when shorter than 4 bytes); with the magic, it parses exactly when 12 bytes are present, and the fields are the int32_t values at bytes 4 and 8 |
| Layout.HeaderRoundTrip | wad3xtract.c:28-32 | the header a writer produces, followed by anything, parses back to the same dircount and diroffset |
| Layout.ParseDirEntry | wad3xtract.c:36-44 | a 32-byte record gives the int32_t fileOffset, store size and file size at bytes 0, 4 and 8, type at byte 12, compressed flag at byte 13 and the 16-byte name at bytes 16-31 |
| Layout.DirEntryRoundTrip | wad3xtract.c:36-44 | parsing the record a writer produces for an entry gives back the entry |
| Layout.ParseMipTex | wad3xtract.c:56-60 | a 40-byte texture header gives the 16-byte name, width and height at bytes 16 and 20, and mip offset k at byte 24+4k |
| Layout.MipTexRoundTrip | wad3xtract.c:56-60 | parsing the texture header a writer produces gives back the header |
| Texture.Pow | wad3xtract.c:62-67 | the power of a positive base is positive |
| Texture.Ipow | wad3xtract.c:62-67 | the multiply loop returns x to the power n |
| Texture.LastLevelSize | wad3xtract.c:125 | size / 64 is exactly the pixel count of mip level 3 when both dimensions are multiples of 8 and when both are below 8, but not for a 12 x 12 texture |
| Texture.ReadPalette | wad3xtract.c:126-128 | the palette is found exactly when the uint16_t count and 3*count bytes after it lie in the archive, and it is that count and those bytes |
| Texture.DecodeTexture | wad3xtract.c:117-128 | when the 40 header bytes are present at fileOffset (at the cursor when fileOffset is negative), the result is exactly DecodeLevels of the parsed header, so decoding succeeds exactly when the plane and the palette are present too; when they are not, it is Truncated; decoding fails only as Truncated; on success the header is the 40 bytes at fileOffset (at the cursor when fileOffset is negative), the plane is the width*height mod 2^32 bytes at fileOffset+offsets[0] mod 2^32, and the palette is the one at fileOffset+offsets[3] mod 2^32 + size/64 |
| Texture.DecodeLevels | wad3xtract.c:119-128 | after a header, decoding succeeds exactly when the plane and the palette reads both come back whole, and returns those reads |
| Texture.DecodedHeader | wad3xtract.c:118 | a decoded texture's width, height and first and last mip offsets are the uint32_t fields stored at the texture's offset |
| Texture.FirstOutOfRange | wad3xtract.c:137-140 | the position of the first index outside the palette: all before it are inside, the one there is not |
| Texture.PixelsAt | wad3xtract.c:136-142 | the output has three bytes per pixel, and pixel n is palette entry indices[n] |
| Texture.Resolve | wad3xtract.c:137-142 | resolution succeeds exactly when every index is inside the palette; otherwise it reports a pixel whose index is outside and before which all are inside |
| Texture.TwoPixels | wad3xtract.c:136-142 | indices [0, 1] through the palette red, green give the bytes FF 00 00 00 FF 00 |
| Texture.ResolvePixels | wad3xtract.c:136-142 | the pixel loop computes Resolve, three bytes per pixel, each pixel's triple being its palette entry |
| Texture.WriterPositions | wad3xtract.c:119-125 | for a texture laid out by a writer whose size / 64 is its last level's pixel count, the decoder's plane starts right after the header and its palette seek lands right after mip level 3 |
| Texture.TextureRoundTrip | wad3xtract.c:117-128 | a texture laid out by a writer (size / 64 equal to the last level's pixel count, no wrap-around), anywhere in any archive, decodes back to its header, level-0 plane, palette count and palette |
| Ppm.Digits | wad3xtract.c:135 | the decimal digits of a number are non-empty digits, with a leading '0' only for zero, and then that '0' alone |
| Ppm.DigitsRoundTrip | wad3xtract.c:135 | the value of the printed digits of n is n |
| Ppm.DigitsUnique | wad3xtract.c:135 | conversely, any digit text without a superfluous leading '0' that denotes n is the digits of n |
| Ppm.Decimal | wad3xtract.c:135 | %d prints a '-' exactly for a negative number, followed by digits that do not start with '0' |
| Ppm.DecimalRoundTrip | wad3xtract.c:135 | the value of the %d text of i is i |
| Ppm.DecimalUnique | wad3xtract.c:135 | conversely, any text in %d's form (optional '-', digits, no superfluous leading '0', no "-0") that denotes i is the %d text of i |
| Ppm.PpmHeaderFields | wad3xtract.c:135 | a reader of the header recovers the int32_t values of width and height, and the dimensions themselves when below 2^31 |
| Ppm.TargetFile | wad3xtract.c:131-133 | the output path is the directory, then the entry name's bytes up to its first NUL, then ".ppm" |
| Ppm.TestFileName | wad3xtract.c:131-133 | the entry named "TEST" (NUL-padded) is written to "<dir>TEST.ppm" |
| Ppm.TwoByOneHeader | wad3xtract.c:135 | a 2 x 1 texture gets the header "P6 2 1 255\n" |
| Paths.LastMark | wad3xtract.c:78-91 | the last '/' or '.' before position k and after position 0, or 0 when there is none |
| Paths.OutputDir | wad3xtract.c:76-91 | a path whose last mark is '.' is cut there and ends in '/'; one whose last mark is '/' gets "_wad/" appended; one with no mark after its first character is kept |
| Paths.DeriveOutputDir | wad3xtract.c:78-91 | the backward scan over the path and its terminating NUL computes OutputDir |
| Paths.ExtensionReplaced | wad3xtract.c:86-89 | "/data/halflife.wad" gives the directory "/data/halflife/" |
| Paths.NoExtensionSuffixed | wad3xtract.c:79-84 | "/data.d/halflife" gives "/data.d/halflife_wad/": a dot in a parent directory is not an extension |
| Extract.Process | wad3xtract.c:117 | an entry is only listed exactly when its type is not 0x43 |
| Extract.ProcessOutcome | wad3xtract.c:117-143 | a texture that does not decode yields no file (Truncated); one with an index outside the palette yields none, naming the first such pixel; otherwise the file "<dir><name>.ppm" holds the PPM header, then pixel n's palette triple for every n |
| Extract.ReadPaletteHere | wad3xtract.c:126-128 | the two palette freads at the cursor give ReadPalette at its position |
| Extract.ReadTexture | wad3xtract.c:118-128 | the texture freads and fseeks on the stream give DecodeTexture |
| Extract.ReadLevels | wad3xtract.c:119-128 | the plane and palette seeks and reads, with ipow(4, 3), give DecodeLevels |
| Extract.DecodeEntry | wad3xtract.c:115-143 | the handling of one entry on the stream gives Process at the stream's position |
| Extract.RecordsRead | wad3xtract.c:109-113 | the number of records read in n passes is at most n; all of them lie in the archive, and when fewer than n, the next one does not |
| Extract.Run | wad3xtract.c:76-153 | exit status 100 exactly without the magic; a header cut short is refused; otherwise at most dircount reports, all dircount exactly when the walk completed, and a truncated walk names the first record that lies past the end |
| Extract.RunReports | wad3xtract.c:109-148 | report k is record k read at diroffset + 32k (12 + 32k for a negative diroffset), handled with the stream just past its record; only type 0x43 entries are more than listed |
| Extract.VisitRecord | wad3xtract.c:112-148 | one pass reads the record (none when it is cut short), handles its entry and seeks back just past the record |
| Extract.WalkDirectory | wad3xtract.c:109-149 | the directory loop produces the reports of the records read and the reason it stopped |
| Extract.ExtractArchive | wad3xtract.c:76-153 | the program, over the stream, computes Run |
| Extract.SingleTextureArchive | wad3xtract.c:100-148 | an archive of one texture entry laid out by a writer (directory at any offset from 12 on, texture right after it, size / 64 equal to the last level's pixel count) yields exactly one file "<dir><name>.ppm" holding the PPM header and the palette triple of every pixel, and the walk completes |
| Extract.TwoPixelArchive | wad3xtract.c:100-148 | the archive with header {"WAD3", 1, 20}, one directory entry "TEST" of type 0x43 and a 2 x 1 texture with indices [0, 1] and palette red, green yields exactly one file, TargetFile(dir, "TEST"), holding PpmHeader(2, 1) and the pixels of [0, 1], and the walk completes |

## Left out

- Output is not performed. The `mkdir` of the output directory (line 92) is represented by `Extraction.outputDir`, which `Run` sets for every archive, a bad magic included, because line 92 runs before the magic test at line 102. `fopen` of the output file, `fprintf` and `fwrite` are represented by the `OutFile` value (path and bytes) in each report. The console output (`printf`, `puts`) is not modelled.
- `realpath` is not modelled. The resolved path is an input of `Run`.
- `PATH_MAX` is not modelled: paths are unbounded. So the model reproduces neither the truncation by `snprintf` (line 83), nor a `tmptargetdir` that `strncpy` (line 82) leaves without its NUL, nor the writes past the `PATH_MAX+1` buffer by `strcat` (lines 132-133) for long paths.
- The usage message for a missing argument (exit 0) and the failure to open the archive (exit 1) are not modelled. The archive's bytes are an input.
- `malloc` and `free` are not modelled, nor a failed allocation.
- The `fileStoreSize` and `compressed` fields are never used, as in the source. `fileSize` is only printed (line 113), and console output is left out.
- Extract.Process: a read that comes back short makes the entry `Failed(Truncated)` and no file is written. The C code goes on with uninitialised buffer contents.
- Extract.ProcessOutcome: an index outside the palette makes the entry fail and no file is written. The C code reads past the palette and writes the file anyway.
- Extract.RecordsRead: the walk stops at the first directory record cut short, with status `TruncatedDirectory`. The C code keeps looping over an uninitialised record.
- Layout.ParseHeader: an archive shorter than the 12-byte header is refused (as BadMagic when the magic itself is missing). The C code compares and uses uninitialised header bytes.
- Texture.Ipow: requires n >= 0 and uses unbounded integers. The C loop never ends normally for a negative n and overflows `int` for large results. The program only calls ipow(4, 3).
- Bytes.CString: a name field without a NUL gives all 16 bytes. In C, `strcat` would read past the field.
- The model reads fields little-endian, like the x86 builds the program targets. A big-endian build is not modelled.
- The model assumes an LP64 target, where `long` is 64 bits wide. On a 32-bit target (ILP32), a seek target of 2^31 or more at lines 119 and 125 becomes a negative `long`, so `fseek` fails and the cursor stays where it is; the model instead seeks to that position (and, when it lies past the end, reports the texture as Truncated).
- The pixel loop counter is an `int` (line 137). For a plane of 2^31 pixels or more it overflows in C; the model resolves every pixel.
- A failed `fopen` of the output file (line 134) leaves a NULL stream that `fprintf` then dereferences, which ends the program. The model assumes every output file can be opened and records its contents.
