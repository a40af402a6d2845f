# diva_fontmap_tools core in Dafny

A model of the container and fontmap codecs of `diva_fontmap_tools` and the
integer arithmetic of its font-atlas generator, with proofs about them.

- **FARC archives** (`pyfarc`, `pyfarc_formats`, `pyfarc_ft_helpers`,
  `farc_load_helper`) come in four variants: `FArc`, `FArC`, `FARC` (DT) and
  `FARC_FT`.
  - The model covers the registry of types, the big-endian struct layouts, the
    `RepeatUntil` table reader and the writer's file preparation (compression,
    padding, encryption, pointer layout).
  - It also covers the FT-detection heuristic and the dictionary the reader
    returns.
  - The main result is that what the writer writes, `from_bytes` reads back as
    the same files, in order (`FarcProofs.ToBytesFromBytes`). The model's writer
    counts each name's UTF-8 bytes in `header_size`, where `to_bytes` counts its
    characters (see Findings). The two writers write the same bytes whenever
    every name is ASCII and every stored file is non-empty
    (`FarcAsWritten.AsciiToBytesAgrees`), so the round trip holds for `to_bytes`
    itself there (`FarcAsWritten.AsWrittenToBytesFromBytes`).
- **FMH3 fontmaps** (`pyfmh3`, `pyfmh3_formats`) are little-endian, with
  pointers relative to the `FMH3` signature.
  - The model covers the 28-byte font records and 8-byte glyph records, the
    32-bit and 64-bit forms of the structure, and the `FONM`, `POF1` and `EOFC`
    section headers.
  - It covers the writer's layout rules: the pointer array at 32 padded to 16,
    then 32-byte record slots, then glyph arrays each padded to 16.
  - The main results: `to_bytes` followed by `from_bytes` is the identity on
    every list the writer accepts (`Fmh3Proofs.ToBytesFromBytes`), and the
    writer refuses the rest.
- **The atlas generator** (`generate_font.py`) covers:
  - the BMP filter of the charlist;
  - `fits_in_tex` and the texture-growth loop;
  - the row-major grid walk;
  - the half-width test and the centring offset of each glyph;
  - the integer fields of the generated font record.

Foreign code is passed in as parameters:
- gzip, zlib and AES are fields of a `Primitives` value. The round-trip laws
  the proofs rely on are the predicate `Lawful`.
- The font rasteriser's glyph widths are the function `measure`.
- The crypto module's presence is a boolean `cryptoInstalled`.

Streams are byte sequences read from offset 0. Construct's exceptions become a
`Result` failure naming the exception.

The FT heuristic (`pyfarc_ft_helpers.py`, line 20) takes a `FARC` header for an
FT one needing decryption when its encrypted bit is set and either the
alignment's population count is not 1 or the first three bytes of the format
word are not all zero.

## Model

| member | source | states |
|---|---|---|
| Bytes.ReadU32BEOf | pydiva/pyfarc_formats.py:24 | an `Int32ub` field reads back as the number written |
| Bytes.ReadS32BEOf | pydiva/pyfarc_formats.py:25 | an `Int32sb` field stored as its two's-complement pattern reads back as the signed value |
| Bytes.Unsigned32 | pydiva/pyfarc_ft_helpers.py:14 | the four bytes of a signed alignment are its 32-bit two's-complement pattern, non-negative exactly below 2^31 |
| Bytes.U16LE | pydiva/pyfmh3.py:32 | an `Int16ul` codepoint is two bytes that decode to the value |
| Bytes.U32LE | pydiva/pyfmh3.py:13-14 | an `Int32ul` field is four bytes that decode to the value |
| Bytes.U32LEOfDecode | pydiva/pyfmh3.py:13-14 | re-encoding a decoded `Int32ul` gives the same four bytes |
| Bytes.U64LE | pydiva/pyfmh3.py:48-49 | an `Int64ul` field is eight bytes that decode to the value |
| Bytes.PopCountOfWord | pydiva/pyfarc_ft_helpers.py:14 | the popcount summed over the four alignment bytes is the popcount of the 32-bit word |
| Bytes.AsciiTextOfAscii | pydiva/pyfarc.py:227 | ASCII text encoded and decoded with `decode('ascii')` comes back unchanged |
| Align.RoundUp | pydiva/pyfarc.py:86 | `if pos % a: pos += a - pos % a` yields a multiple of `a` in `[pos, pos + a)` |
| Align.RoundUpIsLeast | pydiva/pyfarc.py:86 | the rounded-up position is the least multiple of the alignment at or above it |
| Align.Align16 | pydiva/pyfmh3.py:126 | the 16-byte padding rule gives a multiple of 16 less than 16 above its input |
| Align.PowerOfTwoPopCount | pydiva/pyfarc_ft_helpers.py:20 | a power-of-two alignment has exactly one set bit, so the heuristic's popcount test passes |
| FarcFormats.Info | pydiva/pyfarc_formats.py:103-152 | the registry's entries: forced compression implies support, per-file flags imply flags, an encryption type exists iff there are flags, FT iff per-file flags, writing iff no per-file flags |
| FarcFormats.LookupType | pydiva/pyfarc.py:25 | `t in _farc_types` succeeds with the type registered under that name and fails only for names no type has |
| FarcFormats.LookupTypeName | pydiva/pyfarc_formats.py:103-152 | every registered name resolves to its own type |
| FarcFormats.ParseFlagsBits | pydiva/pyfarc_formats.py:52-57 | the `encrypted` and `compressed` flags are bits 2 and 1 of the whole big-endian flags word |
| FarcFormats.ParseFlagsWord | pydiva/pyfarc_formats.py:52-57 | a built flags word parses back to the same flags |
| FarcFormats.ParseFlagsOf | pydiva/pyfarc_formats.py:52-57 | flags stored at any offset parse back there |
| FarcFormats.FixedHeaderBytes | pydiva/pyfarc_formats.py:49-61 | the fixed header a type writes is exactly `fixed_header_size` bytes long |
| FarcFormats.ParseFixedHeader | pydiva/pyfarc_formats.py:58-60 | a successful parse needs the whole fixed header in the stream and finds the format constant 0 for DT and 1 for FT |
| FarcFormats.FixedHeaderRoundTrip | pydiva/pyfarc_formats.py:49-85 | a written fixed header parses back, with the fields a type lacks read as their defaults |
| FarcFormats.FarcHeaderWords | pydiva/pyfarc_formats.py:49-61 | the DT header holds flags, padding, the signed alignment and the format word 0 at offsets 8, 16 and 20 |
| FarcFormats.FtHeaderWords | pydiva/pyfarc_formats.py:72-85 | the FT header holds flags, alignment, format 1 and the entry count at offsets 8, 16, 20 and 24 |
| FarcFormats.EntryFieldsBytes | pydiva/pyfarc_formats.py:62-66 | a record's fields take `files_header_fields_size` bytes |
| FarcFormats.ParseEntryFields | pydiva/pyfarc_formats.py:62-66 | the record fields parse exactly when `files_header_fields_size` bytes remain |
| FarcFormats.EntryFieldsRoundTrip | pydiva/pyfarc_formats.py:62-66 | written record fields parse back, `FArc`'s single size read into both sizes |
| FarcFormats.SizesAt | pydiva/pyfarc_formats.py:64-66 | the compressed and uncompressed sizes sit at offsets 4 and 8 of the fields |
| FarcFormats.FlagsAt | pydiva/pyfarc_formats.py:91-96 | an FT record's per-file flags sit at offset 12 of its fields |
| FarcFormats.PaddedSize | pydiva/pyfarc_formats.py:67 | the data of an encrypted file spans its compressed size rounded up to 16 bytes, otherwise the size itself |
| FarcFormats.DataSpan | pydiva/pyfarc_formats.py:98 | an FT record's data span is capped by the end of the stream and is the padded size whenever that fits |
| FarcFormats.DataSpanNormalized | pydiva/pyfarc_formats.py:29-30 | the data span does not depend on the fields the parse normalises away |
| FarcFormats.FindNul | pydiva/pyfarc_formats.py:27 | a `CString` ends at a NUL byte at or after its start |
| FarcFormats.FindNulFirst | pydiva/pyfarc_formats.py:27 | the NUL found is the first one, and none is found only when there is none |
| FarcFormats.TableSizeAppend | pydiva/pyfarc.py:37-41 | the table size of two lists of names is the sum of their sizes |
| FarcFormats.ParseRecord | pydiva/pyfarc_formats.py:62-68 | a record is its name up to the NUL, then its fields; the cursor moves by exactly the record's size |
| FarcFormats.ParseEntries | pydiva/pyfarc_formats.py:62 | `RepeatUntil` returns at least one record |
| FarcFormats.ParseEntriesStops | pydiva/pyfarc_formats.py:26 | the table parse stops at the first record after which `tell() - 7 > header_size` holds, and not before |
| FarcFormats.StopsEachLast | pydiva/pyfarc_formats.py:62 | the record-by-record stopping rule is the rule on prefix sums of record sizes |
| FarcFormats.ParseEntriesStopEach | pydiva/pyfarc_formats.py:62 | the table parse fails the stop predicate after every record but the last |
| FarcFormats.ParseEntriesShape | pydiva/pyfarc_formats.py:62-68 | a parsed table is its first record followed, unless the predicate held, by the table after it |
| FarcFormats.AsWrittenFtReadsOneRecord | pydiva/pyfarc_formats.py:86-97 | as written, the FT reader's stop test sees the end-of-stream position and stops after one record |
| FarcFormats.TableBytesLength | pydiva/pyfarc.py:34-41 | the written table is as long as the header size counts, when names are counted in bytes |
| FarcFormats.DataRegionHolds | pydiva/pyfarc_formats.py:30 | each file's data lies at its pointer in the data region written after the header |
| FarcFormats.CheckEntries | pydiva/pyfarc_formats.py:67 | building succeeds exactly when every field fits 32 bits and every data block has the length its size fields give |
| FarcFormats.BuildStopsAtLastEntry | pydiva/pyfarc_formats.py:26 | with the header size counting every record, the write-side stop predicate holds exactly after the last record |
| FarcFormats.BuildStruct | pydiva/pyfarc.py:139-152 | building succeeds iff there is a file, `header_size` fits 32 bits, the alignment fits a signed word and every entry checks; the image then starts with the signature and `header_size`, followed by the fixed header, the table and the data region |
| FarcFormats.ParseStruct | pydiva/pyfarc_formats.py:22-31 | a parsed struct starts with its signature, its `header_size` is the word at 4, and it has at least one record |
| FarcFormats.CursorRulesAgree | pydiva/pyfarc_formats.py:86-97 | outside FARC_FT, reading the table with the cursor left after each record's fields and with the cursor as the struct leaves it gives the same result |
| FarcLayoutProofs.FindNulAfterName | pydiva/pyfarc_formats.py:27 | a NUL-free name followed by a NUL is read as that name |
| FarcLayoutProofs.ParseRecordAt | pydiva/pyfarc_formats.py:62-68 | a record written at the cursor, with its data at its pointer, parses back |
| FarcLayoutProofs.EntriesSizeNames | pydiva/pyfarc.py:34-41 | the bytes the records occupy equal the table size of their names |
| FarcLayoutProofs.ParseTableRoundTrip | pydiva/pyfarc_formats.py:62-68 | a written table whose stop predicate holds only after the last record parses back to the records, in order |
| FarcLayoutProofs.DataSpanWritable | pydiva/pyfarc_formats.py:98 | for the writable types the data span does not depend on the stream's end |
| FarcLayoutProofs.RegionRead | pydiva/pyfarc_formats.py:30 | every file's data reads back at its pointer from a stored data region |
| FarcLayoutProofs.BuiltDataReadable | pydiva/pyfarc_formats.py:67 | every file's data is readable at its pointer in the built image, with the padded span |
| FarcLayoutProofs.StructImageRoundTrip | pydiva/pyfarc_formats.py:49-70 | a struct image parses back to its header size, normalised fixed fields and records |
| FarcLayoutProofs.StructImageHeader | pydiva/pyfarc_formats.py:49-61 | the image's signature, `header_size` and fixed fields read back |
| FarcLayoutProofs.StructImageEntries | pydiva/pyfarc_formats.py:62-68 | the image's record table parses back to its entries |
| FarcLayoutProofs.BuildParseRoundTrip | pydiva/pyfarc.py:139-152 | whatever the builder accepts with NUL-free names parses back as the same header size, normalised fixed fields and records |
| FarcFtHelpers.NeedsFtDecryption | pydiva/pyfarc_ft_helpers.py:5-25 | it reads byte 11 and so fails on streams shorter than 12 bytes; a true answer needs the encrypted bit |
| FarcFtHelpers.IsFtFarc | pydiva/pyfarc_ft_helpers.py:27-48 | only a stream starting with `FARC` is FT, and every such stream of 12 bytes or more gets an answer |
| FarcFtHelpers.MagicIsFarc | pydiva/pyfarc_ft_helpers.py:31-34 | a magic decoding to `FARC` means the stream starts with the FARC signature |
| FarcFtHelpers.DecryptFtFarc | pydiva/pyfarc_ft_helpers.py:50-70 | the stream comes back unchanged, except that an FT stream needing decryption raises NameError |
| FarcFtHelpers.NeedsFtDecryptionFields | pydiva/pyfarc_ft_helpers.py:8-25 | needs-decryption iff the encrypted bit is set and either the alignment's popcount is not 1 or the first three format bytes are not all zero |
| FarcFtHelpers.IsFtFarcFields | pydiva/pyfarc_ft_helpers.py:37-48 | a FARC stream is FT iff it needs decryption or its format word is 1 |
| FarcFtHelpers.DtHeaderClassified | pydiva/pyfarc_ft_helpers.py:20 | a DT header is taken for FT exactly when it is encrypted and its alignment's popcount is not 1 |
| FarcFtHelpers.PowerOfTwoAlignedIsDt | pydiva/pyfarc_ft_helpers.py:20 | a DT archive with a power-of-two alignment is never taken for FT, and "decryption" returns it unchanged |
| FarcFtHelpers.FtHeaderClassified | pydiva/pyfarc_ft_helpers.py:45-46 | an FT header is always recognised, and decryption fails exactly when it needs decryption |
| Farc.FileNames | pydiva/pyfarc.py:144-151 | the names handed to the builder are the dictionary's keys, in order |
| Farc.CheckFarcType | pydiva/pyfarc.py:22-31 | the remarks are returned iff the type is registered and, when it encrypts, the crypto module is installed; otherwise UnsupportedFarcTypeException names the type |
| FarcProofs.ResolvedRecoverable | pydiva/pyfarc.py:96-101 | a file with a flags dictionary of its own can be read back under the container's flags iff it does not ask for compression the container lacks, does not refuse compression the type forces, and does not opt out of the container's encryption |
| FarcProofs.UnflaggedRecoverable | pydiva/pyfarc.py:96-101 | a file without a flags dictionary takes the container's flags and can always be read back |
| FarcProofs.CompressRecovers | pydiva/pyfarc.py:46-58 | a file the stage leaves flagged compressed gunzips back to its data, any other file is stored as its data, and unless the type forces compression the stored bytes are never longer than the data |
| Farc.Pad16 | pydiva/pyfarc.py:70-71 | the data followed by zero bytes up to the next multiple of 16 |
| FarcProofs.EncryptRecovers | pydiva/pyfarc.py:60-80 | under the DT scheme, decrypting the stored bytes with the fixed key gives the data followed by zeros, and the stored length is the data's length rounded up to 16; a file the stage leaves alone is stored as its data |
| Farc.EntryOf | pydiva/pyfarc.py:93-94 | a prepared record keeps the file's name and uncompressed length, takes the pointer given, and leaves data alone for types without compression |
| Farc.LayoutAligned | pydiva/pyfarc.py:85-91 | every data pointer is a multiple of the alignment, lies after the previous file's data, and leaves a gap shorter than the alignment |
| Farc.LayoutNames | pydiva/pyfarc.py:85-91 | the prepared records keep the files' names in order |
| Farc.WriteStruct | pydiva/pyfarc.py:136-152 | the writer builds the laid-out records under the header it computes; success needs at least one file and yields the type's signature |
| Farc.ToBytes | pydiva/pyfarc.py:112-124 | an unregistered type raises UnsupportedFarcTypeException, FARC_FT is refused for writing, and success implies the type check passed |
| Farc.Gunzip | pydiva/pyfarc.py:200 | decompression succeeds exactly when zlib accepts the data, else it raises its error |
| Farc.DecodeEntry | pydiva/pyfarc.py:185-216 | types without compression return the data as stored; any failure is a decompression error |
| Farc.Keys | pydiva/pyfarc.py:202 | a dictionary's keys are its items' names in insertion order |
| Farc.Lookup | pydiva/pyfarc.py:202 | a lookup finds a value iff some item has the key, and then that item holds the value |
| Farc.Put | pydiva/pyfarc.py:202 | assignment keeps keys distinct, stores the value, leaves other keys alone, appends a new key and keeps the order of an old one |
| Farc.LookupAppend | pydiva/pyfarc.py:202 | appending a new key changes the lookup of that key only |
| Farc.LookupUnique | pydiva/pyfarc.py:202 | with distinct keys, every item is what its key looks up |
| Farc.LookupReplace | pydiva/pyfarc.py:202 | replacing one item's value leaves every other key's lookup unchanged |
| Farc.DecodeEntries | pydiva/pyfarc.py:188-202 | decoding the records in order yields a dictionary with distinct keys |
| Farc.SignatureText | pydiva/pyfarc.py:218 | the signature decodes as ASCII to the type's name |
| Farc.ParsedToDict | pydiva/pyfarc.py:180-221 | the result names the type by its signature, has distinct keys, and carries flags exactly for flagged types |
| Farc.FromBytes | pydiva/pyfarc.py:223-237 | an unregistered magic raises UnsupportedFarcTypeException; success means the stream starts with the ASCII type name; the table is read with the cursor rule the struct has, which `FarcFormats.CursorRulesAgree` shows makes no difference outside FARC_FT |
| FarcProofs.ExpectedFiles | pydiva/pyfarc.py:144-151 | the dictionary expected back has the written file names as keys, in order |
| FarcProofs.GunzipPadded | pydiva/pyfarc.py:199-200 | decompression ignores the zero padding encryption adds after a gzip stream |
| FarcProofs.DecryptPadded | pydiva/pyfarc.py:194-197 | decrypting with the DT key gives back the zero-padded data |
| FarcProofs.DecodeOne | pydiva/pyfarc.py:185-202 | one written record decodes to its file's data, zero-padded to 16 bytes when a FARC archive encrypted it without compressing it |
| FarcProofs.LayoutAt | pydiva/pyfarc.py:82-91 | the `i`-th laid-out record is the `i`-th file prepared for its pointer |
| FarcProofs.DecodeEntriesInOrder | pydiva/pyfarc.py:188-202 | records that each decode to their file's data give the files' dictionary, in order |
| FarcProofs.DecodeLayout | pydiva/pyfarc.py:188-202 | the records of a layout decode, in order, to the written files |
| FarcProofs.WrittenIsNotFt | pydiva/pyfarc.py:232-234 | a written image is never taken for FT when an encrypted DT archive has a power-of-two alignment |
| FarcProofs.FromBytesOf | pydiva/pyfarc.py:223-237 | a stream whose magic names a supported non-FT type is parsed as that type |
| FarcProofs.BuiltMagic | pydiva/pyfarc.py:227 | a built image's magic decodes to its type's name |
| FarcProofs.BuiltStructReads | pydiva/pyfarc.py:223-237 | a built struct is read back as its own type and parses to its records |
| FarcProofs.WriteStructReadsBack | pydiva/pyfarc.py:136-237 | a written archive reads back to the written files, in order |
| FarcProofs.ToBytesFromBytes | pydiva/pyfarc.py:168-243 | `from_bytes(to_bytes(a))` gives `a`'s type, its container flags for flagged types, and its files in order, whenever writing succeeds, names are distinct and NUL-free, every file's resolved flags can be read back under the container's, and encrypted FARC archives use a power-of-two alignment; a FARC file encrypted but left uncompressed comes back zero-padded to 16 bytes |
| FarcHeaderSize.CodePoints | pydiva/pyfarc.py:39 | the character count `len(fname)` of a UTF-8 name never exceeds its byte count |
| FarcHeaderSize.CodePointsExact | pydiva/pyfarc.py:39 | a name's character count equals its byte count iff it has no continuation byte |
| FarcHeaderSize.AsciiNamesAgree | pydiva/pyfarc.py:34-41 | with ASCII names, the written `header_size` is the header's byte size |
| FarcHeaderSize.AsWrittenNeverOver | pydiva/pyfarc.py:140 | the written `header_size` never exceeds the header's byte size |
| FarcHeaderSize.NonAsciiNameUndercounts | pydiva/pyfarc.py:39 | a FARC archive with one file named `é` is given `header_size` 34 for a 35-byte header |
| FarcHeaderSize.AsWrittenStopsEarly | pydiva/pyfarc_formats.py:62 | with the written `header_size`, the reader stops after the first of two files |
| FarcAsWritten.WriteAtReads | pydiva/pyfarc.py:136-152 | a non-empty write to the build stream reads back at its position, leaves the other bytes as they were and zero-fills any gap past the old end |
| FarcAsWritten.WriteAtEnd | pydiva/pyfarc.py:136-152 | a write at the end of the build stream appends |
| FarcAsWritten.AsWrittenDropsSecondFile | pydiva/pyfarc.py:39 | a FARC archive holding a file with a 14-character, 28-byte name and then a file `a` is written with `header_size` 61 and only the first record, and reads back as the first file alone |
| FarcAsWritten.BuildRecordsChecks | pydiva/pyfarc.py:136-152 | with `header_size` counting the table's bytes, the record-by-record build fails with the error the entry checks report, whichever entry fails them |
| FarcAsWritten.BuildRecordsExact | pydiva/pyfarc.py:136-152 | with `header_size` counting the table's bytes, writing each record at the cursor and its data at its pointer leaves the table followed by the data region |
| FarcAsWritten.BuildStructWithExact | pydiva/pyfarc.py:136-152 | given the `header_size` that counts the table's bytes and non-empty stored files, the builder writes exactly the struct image, and fails exactly as the struct builder does |
| FarcAsWritten.AsciiWriteStructAgrees | pydiva/pyfarc.py:136-152 | with ASCII names and non-empty stored files, the character-counting writer writes what the byte-counting writer writes |
| FarcAsWritten.AsciiToBytesAgrees | pydiva/pyfarc.py:112-152 | with ASCII names and non-empty stored files, `to_bytes` as it stands and the model's writer give the same result, refusals included |
| FarcAsWritten.AsWrittenToBytesFromBytes | pydiva/pyfarc.py:112-243 | under the conditions of `FarcProofs.ToBytesFromBytes`, plus ASCII names and non-empty stored files, what `to_bytes` as it stands writes reads back as the archive's type, container flags and files in order |
| FarcLoadHelper.Select | pydiva/farc_load_helper.py:20-23 | no more items than requests, each a name the archive holds together with its data |
| FarcLoadHelper.SelectAppend | pydiva/farc_load_helper.py:20-23 | requests are answered in request order |
| FarcLoadHelper.SelectOne | pydiva/farc_load_helper.py:21-22 | a single request yields its file when present, nothing otherwise |
| FarcLoadHelper.SelectComplete | pydiva/farc_load_helper.py:20-23 | every requested name the archive holds is in the result |
| FarcLoadHelper.SelectRequested | pydiva/farc_load_helper.py:20-23 | only requested names are in the result |
| FarcLoadHelper.LoadAsWritten | pydiva/farc_load_helper.py:14-25 | on an unsupported type it returns the stream after the four magic bytes, with no name; other reader errors propagate; otherwise it selects the requested files |
| FarcLoadHelper.Load | pydiva/farc_load_helper.py:7-13 | as documented: the fallback returns the original bytes, and otherwise it behaves as written |
| FarcLoadHelper.AsWrittenDropsMagic | pydiva/farc_load_helper.py:15-17 | for the stream `ABCDx` the helper as written returns `x`, not the original five bytes |
| FarcLoadHelper.AsWrittenAgreesOtherwise | pydiva/farc_load_helper.py:14-25 | apart from the fallback, the helper as written and as documented agree |
| FarcLoadHelper.LoadWritten | pydiva/farc_load_helper.py:14-25 | loading a written archive returns the requested files it holds, with the data written |
| Fmh3Formats.GlyphBytes | pydiva/pyfmh3.py:31-39 | a glyph record is 8 bytes |
| Fmh3Formats.DecodeGlyph | pydiva/pyfmh3.py:31-39 | a parsed glyph's fields fit their byte and 16-bit slots |
| Fmh3Formats.GlyphRoundTrip | pydiva/pyfmh3.py:31-39 | a written glyph parses back to itself |
| Fmh3Formats.GlyphBytesOfDecode | pydiva/pyfmh3.py:33-34 | a glyph record whose flag byte is 0 or 1 and whose pad byte is 0 is rebuilt exactly from its parse |
| Fmh3Formats.MetricBytes | pydiva/pyfmh3.py:19-26 | seven metric bytes and a pad byte make 8 bytes |
| Fmh3Formats.FontRecordBytes | pydiva/pyfmh3.py:17-30 | a font record is 28 bytes |
| Fmh3Formats.DecodeFontRecord | pydiva/pyfmh3.py:17-30 | a parsed record's fields fit their slots |
| Fmh3Formats.FontRecordRoundTrip | pydiva/pyfmh3.py:17-30 | a written font record parses back to itself |
| Fmh3Formats.FontRecordBytesOfDecode | pydiva/pyfmh3.py:26 | a record whose pad byte is 0 is rebuilt exactly from its parse |
| Fmh3Formats.WordOfDecode | pydiva/pyfmh3.py:27-30 | any four bytes of a record are the encoding of the word they decode to |
| Fmh3Formats.DecodeAddress | pydiva/pyfmh3.py:48-51 | an address read in width `w` is below `2^(8*size)` |
| Fmh3Formats.EncodeAddress | pydiva/pyfmh3.py:48-51 | an address written in width `w` takes `w`'s size and reads back |
| Fmh3Formats.AddressAtSlice | pydiva/pyfmh3.py:13-14 | reading an address in place equals decoding its slice |
| Fmh3Formats.AddressAtOf | pydiva/pyfmh3.py:13-14 | an address written at an offset reads back there |
| Fmh3Formats.InnerWidth | pydiva/pyfmh3_formats.py:134-147 | the address width is `address_size` bytes, and wide exactly for the type that nests its FMH3 data |
| Fmh3Formats.ReadField | pydiva/pyfmh3.py:13 | a field read succeeds with the bytes there iff they all lie in the stream, else it raises StreamError |
| Fmh3Formats.ReadConst | pydiva/pyfmh3.py:11 | a `Const` field succeeds iff the constant is there; a mismatch raises ConstError, a short read StreamError |
| Fmh3Formats.ParseGlyphs | pydiva/pyfmh3.py:31 | `RepeatUntil(_index >= chars_count - 1)` reads `max(count - index, 1)` glyphs or raises StreamError |
| Fmh3Formats.ParseFontAt | pydiva/pyfmh3.py:17-31 | a font is the 28-byte record at its pointer from the base, then as many glyphs as `RepeatUntil` reads for its count |
| Fmh3Formats.ParseFonts | pydiva/pyfmh3.py:15-17 | the fonts array yields as many fonts as `RepeatUntil` reads for `fonts_count` |
| Fmh3Formats.ParseFmh3 | pydiva/pyfmh3.py:9-16 | success means the signature and the two address fields are there; failures are stream or constant errors |
| Fmh3Formats.ParseFmh3Count | pydiva/pyfmh3.py:15 | the reader returns `fonts_count` fonts, and one font when the count is 0 |
| Fmh3Formats.ParseFonmSection | pydiva/pyfmh3_formats.py:116-124 | a `FONM` section needs its signature and constant flags, and its data pointer is the word at offset 8 |
| Fmh3Formats.Pof1Bytes | pydiva/pyfmh3_formats.py:92-103 | a `POF1` section is a 32-byte header followed by its payload |
| Fmh3Formats.ParsePof1 | pydiva/pyfmh3_formats.py:92-103 | a parsed `POF1` has the constant data pointer 32 and depth 0, and its payload is the `data_size` bytes at offset 32 |
| Fmh3Formats.Pof1RoundTrip | pydiva/pyfmh3_formats.py:92-103 | a written `POF1` section parses back to itself wherever it is placed |
| Fmh3Formats.EofcBytes | pydiva/pyfmh3_formats.py:105-114 | an `EOFC` block is 32 bytes: signature, size 0, pointer 32, flags, depth 0, data size 0 and 8 zero bytes |
| Fmh3Formats.EofcOnly | pydiva/pyfmh3_formats.py:105-114 | only bytes that begin with the first 24 bytes of the `EOFC` block parse as one |
| Fmh3Formats.EofcParses | pydiva/pyfmh3_formats.py:105-114 | a placed `EOFC` block parses |
| Fmh3Layout.FontsHeaderPointersSize | pydiva/pyfmh3.py:122-127 | the pointer array takes four bytes per font, rounded up to a multiple of 16 |
| Fmh3Layout.CharArraySize | pydiva/pyfmh3.py:134-139 | a glyph array takes eight bytes per glyph, rounded up to a multiple of 16 |
| Fmh3Layout.SetFontPointers | pydiva/pyfmh3.py:141-148 | the running position gives font `i` the offset `32 + pointer area + 32*i` |
| Fmh3Layout.SetCharPointers | pydiva/pyfmh3.py:150-157 | the running position gives font `i`'s glyphs the offset after the records and the padded arrays before it |
| Fmh3Layout.FontPointerPlaced | pydiva/pyfmh3.py:141-148 | font records are 16-aligned, follow the pointer array and end before the glyph arrays |
| Fmh3Layout.CharPointerAligned | pydiva/pyfmh3.py:150-157 | glyph arrays are 16-aligned |
| Fmh3Layout.CharArraysDisjoint | pydiva/pyfmh3.py:150-157 | a font's glyph array ends before any later font's begins |
| Fmh3Layout.OneFontOffsets | pydiva/pyfmh3.py:141-157 | a one-font map puts its record at 48 and its glyphs at 80 |
| Fmh3.FontBuildError | pydiva/pyfmh3.py:15-39 | a font builds with no error iff its pointer, record and glyphs fit their fields and it has a glyph |
| Fmh3.BuildErrorNone | pydiva/pyfmh3.py:176-180 | building raises nothing exactly for the font lists the writer accepts |
| Fmh3.EncodableParts | pydiva/pyfmh3.py:170-180 | an accepted list has fitting pointers and records, and every font has fitting glyphs, at least one |
| Fmh3.PointerArea | pydiva/pyfmh3.py:122-127 | the pointer array fills the padded pointer area |
| Fmh3.RecordSlots | pydiva/pyfmh3.py:129-132 | the record slots take `_fonts_header_size` bytes |
| Fmh3.GlyphsBytes | pydiva/pyfmh3.py:120 | a glyph array is 8 bytes per glyph |
| Fmh3.GlyphArrays | pydiva/pyfmh3.py:150-157 | the padded glyph arrays end where the next glyph pointer would be |
| Fmh3.Image | pydiva/pyfmh3.py:176-180 | what `to_bytes` writes ends with the last glyph array, with no padding after it |
| Fmh3.ToBytes | pydiva/pyfmh3.py:160-180 | writing succeeds iff the list is accepted, and otherwise raises RepeatError or FormatFieldError |
| Fmh3.ParseFonm | pydiva/pyfmh3.py:79-85 | a `FONM` stream is the 64-bit fontmap at `fmh3_pointer` |
| Fmh3.FromBytes | pydiva/pyfmh3.py:225-237 | a non-ASCII magic raises UnicodeDecodeError; an ASCII magic other than `FMH3` and `FONM` raises UnsupportedFileException naming it |
| Fmh3Proofs.ParseGlyphsOf | pydiva/pyfmh3.py:31-39 | a written glyph array is read back from any index |
| Fmh3Proofs.ParseFontAtOf | pydiva/pyfmh3.py:17-39 | a written record and its written glyphs read back as that font |
| Fmh3Proofs.ParseFontsOf | pydiva/pyfmh3.py:15-17 | the fonts array of a laid-out map reads back from any index on |
| Fmh3Proofs.ParseFmh3Of | pydiva/pyfmh3.py:9-42 | a laid-out map, at any base and in either width, reads back to its fonts |
| Fmh3Proofs.ParsedToDictOf | pydiva/pyfmh3.py:205-220 | `_parsed_to_dict` gives back the fonts, fields and glyphs in order |
| Fmh3Proofs.GlyphArrayAt | pydiva/pyfmh3.py:150-157 | font `i`'s glyphs lie in the padded arrays after the arrays before it |
| Fmh3Proofs.GlyphsEndInImage | pydiva/pyfmh3.py:150-157 | every glyph array ends by the end of the written stream |
| Fmh3Proofs.WholeToImage | pydiva/pyfmh3.py:176-180 | what the padded layout holds before the end of the last glyph array, the written stream holds |
| Fmh3Proofs.WholeParts | pydiva/pyfmh3.py:141-157 | the layout is header, pointer area, record slots and glyph arrays, with the pointer area at 32 and the records and glyphs at their computed starts |
| Fmh3Proofs.HeaderInImage | pydiva/pyfmh3.py:176-179 | the written stream starts with the signature, the font count and the pointer offset 32 |
| Fmh3Proofs.PointerInImage | pydiva/pyfmh3.py:141-148 | font `i`'s pointer word is at `32 + 4*i` of the written stream |
| Fmh3Proofs.RecordInImage | pydiva/pyfmh3.py:141-148 | font `i`'s record is at its assigned pointer in the written stream |
| Fmh3Proofs.GlyphsInImage | pydiva/pyfmh3.py:150-157 | font `i`'s glyphs are at its assigned glyph pointer in the written stream |
| Fmh3Proofs.ImageLaid | pydiva/pyfmh3.py:160-180 | what `to_bytes` writes, placed at any base, is laid out for the 32-bit reader |
| Fmh3Proofs.FromBytesFmh3 | pydiva/pyfmh3.py:230-231 | a stream the 32-bit reader accepts is decoded by `from_bytes` |
| Fmh3Proofs.FromBytesFonm | pydiva/pyfmh3.py:232-233 | a stream the `FONM` reader accepts is decoded by `from_bytes` |
| Fmh3Proofs.ToBytesFromBytes | pydiva/pyfmh3.py:160-237 | `from_bytes(to_bytes(fonts))` is `fonts` for every accepted list |
| Fmh3Proofs.EmbeddedImageParses | pydiva/pyfmh3.py:10 | a written map embedded after any prefix still reads back, since pointers are relative to the signature |
| Fmh3Proofs.FonmFromBytes | pydiva/pyfmh3.py:79-85 | a `FONM` stream whose 64-bit map is laid out at `fmh3_pointer` decodes to its fonts |
| Fmh3Proofs.FonmStep | pydiva/pyfmh3.py:79-85 | past its 24-byte header, the `FONM` container is the 64-bit map at `fmh3_pointer` |
| Fmh3Proofs.FonmReadersAgree | pydiva/pyfmh3_formats.py:116-124 | the section reader and the `FONM` reader find the same fonts |
| Fmh3Proofs.NoFontsRefused | pydiva/pyfmh3.py:15 | an empty font list raises RepeatError |
| Fmh3Proofs.NoGlyphsRefused | pydiva/pyfmh3.py:31 | a list whose first font has no glyphs raises RepeatError |
| Fmh3Proofs.WideGlyphRefused | pydiva/pyfmh3.py:35-38 | a list whose first font holds a glyph too wide for its fields raises FormatFieldError |
| Atlas.BmpOnlyAppend | generate_font.py:126-131 | filtering text piecewise gives the same charlist, so the charlist keeps the text's order |
| Atlas.BmpOnlyMembers | generate_font.py:126-131 | a code point is in the charlist iff it is in the text and at most 65535 |
| Atlas.BmpOnlyIdentity | generate_font.py:126-131 | the charlist is the whole text iff the text has no code point above 65535 |
| Atlas.CeilDiv | generate_font.py:191 | `needed_rows` is the least row count whose capacity covers the characters |
| Atlas.FitsIffCellsInside | generate_font.py:188-192 | `fits_in_tex` holds iff at least one box fits a row and every character's box, placed row-major, lies inside the texture |
| Atlas.Candidate | generate_font.py:194-199 | each size the loop tries is square or twice as wide as tall |
| Atlas.GrowStep | generate_font.py:196-199 | one turn of the loop moves from one candidate size to the next |
| Atlas.CandidatePowersOfTwo | generate_font.py:194-199 | every size the loop tries is a power of two on both sides |
| Atlas.LargeFits | generate_font.py:188-192 | a texture large enough on both sides always fits, so the growth loop terminates |
| Atlas.GrowWithin | generate_font.py:195-199 | each turn from a size that does not fit grows the texture and stays within twice a fixed bound |
| Atlas.TextureSize | generate_font.py:194-199 | the loop ends at the first candidate size that fits |
| Atlas.MaxHalfwidthWidth | generate_font.py:204 | `ceil(box_w / 2)`: the least `m` with `2m >= box_w` |
| Atlas.Place | generate_font.py:221-225 | half-width iff `2*width <= box_w + 1`; the glyph is centred in its slot, any odd pixel going right; a glyph that fits starts inside its slot and ends by its edge, and the slot is no wider than the box |
| Atlas.NextCell | generate_font.py:237-241 | stepping a column right, and wrapping to the next row at `chars_per_row`, keeps the cell `(k mod n, k div n)` |
| Atlas.Generate | generate_font.py:201-256 | the charlist's `k`-th character gets cell `(k mod n, k div n)` with `n = tex_size_chars = chars_per_row >= 1`; each cell lies inside the first texture that fits; the placement and width come from its measured width; pens sit at the cell corner plus the offset |

## Left out

- AES and gzip/zlib are parameters of a `Primitives` value. Their laws (decrypt
  inverts encrypt, gunzip inverts gzip and ignores trailing zeros) are the
  predicate `Lawful`, assumed by the round-trip lemmas.
- Stream positions, `BytesIO` and `seek`/`tell` are not modelled. Every
  reader works on a byte sequence from offset 0, or from an explicit base for
  FMH3.
- The `no_copy`/`deepcopy` choice is left out because it does not change the
  bytes written.
- `_decrypt_FT_farc` is modelled as the error it raises: `BytesIO` and `AES`
  are not imported in `pyfarc_ft_helpers.py`. The FT decryption itself (AES-CBC
  with the fixed key) is not modelled, so FT archives that need it are not read.
- FARC_FT writing is left out: the registry refuses it.
- `pyfmh3.to_stream` is left out. It refers to an undefined `fonts` and raises
  NameError before writing anything.
- Writing a `FONM` container (the `extra_sections` branch) is left out. It
  refers to the undefined `pof1_size`. Reading `FONM` is modelled.
- The `ENRS` section is left out because the reader ignores it.
- Invalid UTF-8 in archive names (construct's `CString("utf8")` decoding) is
  left out. Names are modelled as their bytes.
- Atlas.Generate: pixel rendering, the font metrics that choose the box and
  advance sizes, and `firstFontWithCharacter` come from the rasteriser. They
  appear only as the `measure` parameter and the given sizes.
- Atlas.Generate: the `force_baseline` float scaling of the first baseline is
  left out. The pen's row starts at the integer ascent.
- Atlas.FitsIffCellsInside: `ceil(num_chars / chars_per_row)` is computed in
  floating point in the source. The model uses exact integer ceiling, which
  agrees whenever the quotient is exactly representable.
- Atlas.TextureSize: box widths below 1 and negative custom metrics are
  excluded by `box.w >= 1` and natural-number sizes. A zero box width raises
  ZeroDivisionError in the source, and a negative one is never produced by
  automatic metrics.
- Command-line parsing, file I/O, JSON writing and printing are left out.
- Farc.WriteStruct / Farc.ToBytes / FarcFormats.BuildStruct: they count each
  name's UTF-8 bytes in `header_size` and the first pointer, the corrected
  rule of the Findings table. The source counts characters; the character
  count is `FarcAsWritten.ToBytesAsWritten`, which agrees with them only for
  ASCII names and non-empty stored files.
- FarcProofs.WriteStructReadsBack: proved for the byte-counting writer. The
  source's writer has this round trip only for ASCII names
  (`FarcAsWritten.AsWrittenToBytesFromBytes`); a long enough non-ASCII name
  loses later files (`FarcAsWritten.AsWrittenDropsSecondFile`).
- FarcProofs.ToBytesFromBytes: proved for the byte-counting writer, as above.
  For `to_bytes` as it stands the lemma is
  `FarcAsWritten.AsWrittenToBytesFromBytes`, which adds ASCII names and
  non-empty stored files.
- FarcLoadHelper.LoadWritten: builds on `FarcProofs.ToBytesFromBytes`, so it
  too speaks of the byte-counting writer.
- FarcAsWritten.AsciiToBytesAgrees: needs every stored file non-empty. The
  build stream is a `BytesIO`, and an empty write neither extends it nor
  zero-fills up to its position, so an empty last file can leave the stream
  shorter than the struct image.

## Findings

| source | as written | input that shows it | evidently intended | confidence | as-written member | corrected member |
|---|---|---|---|---|---|---|
| pydiva/pyfarc.py:39 | `header_size` and the first pointer count each name with `len(fname)`, its number of characters | one file named `é` in a FARC archive: `header_size` 34 for a 35-byte header; with a fourteen-character, 28-byte name then `a`, the build stops after the first record and the image reads back as one file | count the UTF-8 bytes the `CString` occupies | high (not executed) | FarcAsWritten.AsWrittenDropsSecondFile | FarcProofs.ToBytesFromBytes |
| pydiva/farc_load_helper.py:15-17 | after `from_stream` read the 4-byte magic and raised, the fallback returns `s.read()` without seeking back | the stream `ABCDx` returns `x` | return the original bytes, as the docstring says | high (not executed) | FarcLoadHelper.AsWrittenDropsMagic | FarcLoadHelper.Load |
| pydiva/pyfarc_formats.py:86-98 | `file_end` seeks to the end of the stream inside every FT record, so the `tell() - 7 > header_size` stop test sees the end-of-stream position | any FT archive longer than `header_size + 7` bytes yields only its first file | test the position after the record's fields | medium (not executed) | FarcFormats.AsWrittenFtReadsOneRecord | FarcLayoutProofs.ParseTableRoundTrip |
