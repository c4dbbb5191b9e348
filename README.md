# ico_rebuilder in Dafny

`ico_rebuilder.cpp` is a small Windows command-line tool. It takes an icon container (`.ico`) and rewrites it, or it takes a single PNG. For a container, it recolours every sub-image: pixels whose hue is "orange" (15 to 45 degrees) get hue 195. Each sub-image is stored back as a 32-bit PNG stream. The directory is rebuilt to match.

This project models the parts of that tool that are about bytes and integers, and proves properties of them:

- the `ICONDIR` / `ICONDIRENTRY` little-endian layout;
- the PNG signature test `IsPNG`;
- `ProcessICO`:
  - the header checks;
  - the per-entry loop, with the decode, tint and encode step as a parameter;
  - the field rewrite;
  - the DWORD offset pass;
  - the output layout;
- the extension dispatch in `wmain`;
- the pixel walk of `TintPixels`, with its floating-point colour maths left abstract.

Modules:

- `Wrappers`: `Option` and `Result`.
- `ByteCodec`: bytes, WORD and DWORD values, little-endian encoding, 32-bit wrap-around.
- `IcoLayout`: the `Header` and `Entry` records, their 6- and 16-byte encodings, and the encoded directory.
- `PngSniff`: `IsPng`, using the 8-byte signature from section 5.2 of the PNG specification (ISO/IEC 15948).
- `ExtensionDispatch`: the case-insensitive `.png` / `.ico` suffix test.
- `TintFilter`: the in-place walk over a BGRA buffer. It has an array `method` (`TintPixels`) and the pure functions that specify it (`TintAt`, `TintRow`, `TintRows`).
- `IcoRebuild` describes the container rebuild twice.
  - A pure specification: `ParseDirectory`, `NewImages`, `RewriteAll`, `AssignOffsets`, `Assemble` and `Rebuild`, with lemmas about each.
  - The step-by-step procedure `ProcessIco`. It decodes the directory into an `array<Entry>`, which `ConvertEntries` and `PlaceEntries` rewrite in place, and appends the blobs to a sequence. Its contract is that it computes `Rebuild`.

Besides what "Left out" lists, the model differs from the code in one way. The source checks neither that the directory lies inside the file nor that an entry's `[offset, offset + size)` range does; it reads past the end of the buffer. The model turns both cases into errors:

- `DirectoryTruncated`, checked right after the type test;
- `EntryOutOfBounds(i)`, checked when entry `i` is reached, before its transform runs.

A failure to decode sub-image `i` becomes `SubImageFailed(i)`. For a short file, a wrong type and a sub-image that fails to decode, the source returns `false` before it writes anything. In those cases, and in the two added above, the model returns `Failure` with no output.

## Model

| member | source | states |
|---|---|---|
| ByteCodec.WrapU32 | ico_rebuilder.cpp:265-268 | reducing to a DWORD leaves any value below 2^32 unchanged |
| ByteCodec.WrapAdd | ico_rebuilder.cpp:265-268 | adding into a DWORD accumulator step by step wraps the same as one addition of the exact total |
| ByteCodec.EncodeU16 | ico_rebuilder.cpp:82-84 | a WORD is two bytes, low byte first, and they weigh back to the value |
| ByteCodec.EncodeU32 | ico_rebuilder.cpp:94-95 | a DWORD is four bytes, least significant first, and they weigh back to the value |
| ByteCodec.DecodeU16 | ico_rebuilder.cpp:82-84 | reads a WORD little-endian; its round trips with EncodeU16 are U16RoundTrip and U16BytesRoundTrip |
| ByteCodec.DecodeU32 | ico_rebuilder.cpp:94-95 | reads a DWORD little-endian; its round trips with EncodeU32 are U32RoundTrip and U32BytesRoundTrip |
| ByteCodec.U16RoundTrip | ico_rebuilder.cpp:82-84 | decoding an encoded WORD gives back the value |
| ByteCodec.U16BytesRoundTrip | ico_rebuilder.cpp:82-84 | encoding a decoded pair of bytes gives back the bytes |
| ByteCodec.U32RoundTrip | ico_rebuilder.cpp:94-95 | decoding an encoded DWORD gives back the value |
| ByteCodec.U32BytesRoundTrip | ico_rebuilder.cpp:94-95 | encoding four decoded bytes gives back the bytes |
| IcoLayout.EncodeHeader | ico_rebuilder.cpp:81-85 | the ICONDIR header is exactly 6 bytes |
| IcoLayout.DecodeHeader | ico_rebuilder.cpp:147 | the ICONDIR overlay on the first 6 bytes; HeaderRoundTrip and HeaderBytesRoundTrip make it the inverse of EncodeHeader |
| IcoLayout.HeaderRoundTrip | ico_rebuilder.cpp:81-85 | reserved, type and count decode back from their 6-byte encoding |
| IcoLayout.HeaderBytesRoundTrip | ico_rebuilder.cpp:147 | any 6 bytes, viewed as a header and written back, are the same 6 bytes; this ties the parsed header to the input's first 6 bytes, which the output copies |
| IcoLayout.EncodeEntry | ico_rebuilder.cpp:87-96 | an ICONDIRENTRY is exactly 16 bytes, with width, height, colour count and reserved in bytes 0-3 |
| IcoLayout.DecodeEntry | ico_rebuilder.cpp:150 | the ICONDIRENTRY overlay on 16 bytes; EntryRoundTrip and EntryBytesRoundTrip make it the inverse of EncodeEntry |
| IcoLayout.EntryRoundTrip | ico_rebuilder.cpp:87-96 | all eight entry fields decode back from their 16-byte encoding |
| IcoLayout.EntryBytesRoundTrip | ico_rebuilder.cpp:150 | any 16 bytes, viewed as an entry and written back, are the same 16 bytes |
| IcoLayout.EncodeDirectory | ico_rebuilder.cpp:273-274 | the directory written out is 16 bytes per entry |
| IcoLayout.EncodeDirectoryAt | ico_rebuilder.cpp:273-274 | entry i of the written directory sits at bytes [16i, 16i+16), in the original order |
| PngSniff.MatchesFrom | ico_rebuilder.cpp:107 | the byte-by-byte `memcmp` against the signature; MatchesFromIff equates it with slice equality |
| PngSniff.MatchesFromIff | ico_rebuilder.cpp:107 | the byte-by-byte comparison succeeds exactly when the two slices are equal |
| PngSniff.IsPng | ico_rebuilder.cpp:104-108 | true exactly when the data has at least 8 bytes and its first 8 are 137,80,78,71,13,10,26,10 |
| PngSniff.SignaturePrefixIsPng | ico_rebuilder.cpp:104-108 | a stream starting with the signature is PNG whatever follows it |
| ExtensionDispatch.FoldAscii | ico_rebuilder.cpp:296 | the C-locale fold used by `_wcsicmp`: only A-Z map to a-z |
| ExtensionDispatch.EqualsIgnoringCase | ico_rebuilder.cpp:296 | `_wcsicmp(a, b) == 0`; EqualsIgnoringCaseIff gives its pointwise meaning |
| ExtensionDispatch.HasExtension | ico_rebuilder.cpp:296-298 | `in.size() >= 4` and the last four characters equal the extension up to case; RouteForPng and RouteForIco spell it out character by character |
| ExtensionDispatch.RouteFor | ico_rebuilder.cpp:296-301 | PNG first, then ICO, else unsupported; specified by RouteForPng, RouteForIco and RouteIgnoresCase |
| ExtensionDispatch.EqualsIgnoringCaseIff | ico_rebuilder.cpp:296 | the case-insensitive comparison holds exactly when the lengths agree and every pair of characters agrees after ASCII folding |
| ExtensionDispatch.RouteForPng | ico_rebuilder.cpp:296-297 | the PNG path is taken exactly when the last four characters are `.`, `p/P`, `n/N`, `g/G` |
| ExtensionDispatch.RouteForIco | ico_rebuilder.cpp:298-299 | the ICO path is taken exactly when the name ends in `.ico` in any letter case and does not end in `.png` |
| ExtensionDispatch.RouteIgnoresCase | ico_rebuilder.cpp:296-301 | two names that differ only in ASCII letter case are dispatched the same way |
| TintFilter.RowStartIsProduct | ico_rebuilder.cpp:25 | the running row offset equals y * stride |
| TintFilter.Hue | ico_rebuilder.cpp:39-52 | a grey pixel (all three channels equal) has hue 0 |
| TintFilter.Recolour | ico_rebuilder.cpp:54-57 | a pixel is recoloured exactly when its hue lies in the closed band [15, 45], and then takes the colour at the target hue |
| TintFilter.GreyNeverRecoloured | ico_rebuilder.cpp:44-56 | grey pixels fall outside the band and are never recoloured |
| TintFilter.TintedPixel | ico_rebuilder.cpp:28-75 | one pixel's four bytes after the filter; TintedPixelSpec states what it keeps and what it changes |
| TintFilter.TintedPixelSpec | ico_rebuilder.cpp:28-31 | alpha is never written; an alpha-0 pixel is unchanged; a pixel changes only when in band; a visible in-band pixel gets the target colour in B, G, R order |
| TintFilter.TintAt | ico_rebuilder.cpp:28-75 | the buffer after the loop body for the pixel at byte p; TintAtEffect says it changes only that pixel's colour bytes, to TintedPixel |
| TintFilter.TintRow | ico_rebuilder.cpp:27-76 | the buffer after the inner loop's first x turns; TintRowFrame and TintRowPixel state its effect |
| TintFilter.TintRows | ico_rebuilder.cpp:24-77 | the buffer after the outer loop's first y turns; TintRowsPixel, TintRowsPadding and TintRowsBeyondImage state its effect |
| TintFilter.TintBitmap | ico_rebuilder.cpp:219-231 | tinting keeps the locked bitmap's width, height, stride and buffer size |
| TintFilter.TintPixelAt | ico_rebuilder.cpp:28-75 | one turn of the inner loop updates the buffer to the one-pixel specification: skipped when transparent or out of band, otherwise R, G, B written at px+2, px+1, px |
| TintFilter.TintRowPass | ico_rebuilder.cpp:27-76 | the inner loop over a row leaves the array equal to the row specification applied to its old contents |
| TintFilter.TintPixels | ico_rebuilder.cpp:24-77 | the nested row and pixel loops leave the array equal to the row-by-row specification applied to its old contents |
| TintFilter.TintAtEffect | ico_rebuilder.cpp:72-75 | one pixel step changes only that pixel's colour bytes, and the pixel becomes its filtered value |
| TintFilter.TintRowFrame | ico_rebuilder.cpp:27-28 | a row pass writes only inside [start, start + 4*width) |
| TintFilter.TintRowPixel | ico_rebuilder.cpp:27-28 | pixel j of a row pass is the filtered value of that pixel's original bytes |
| TintFilter.TintRowsFrame | ico_rebuilder.cpp:24-25 | the first y rows write nothing at or beyond byte y*stride |
| TintFilter.TintRowsPixel | ico_rebuilder.cpp:24-31 | every pixel (x, y) of the image ends up as the filtered value of its own original four bytes |
| TintFilter.TintRowsPadding | ico_rebuilder.cpp:25-28 | the padding bytes [4*width, stride) of every row are never changed |
| TintFilter.TintRowsBeyondImage | ico_rebuilder.cpp:24-25 | bytes at or beyond height*stride are never changed |
| IcoRebuild.ParseDirectory | ico_rebuilder.cpp:145-150 | a parsed directory has `count` entries and lies inside the file; the result is NotAnIcon exactly when the type WORD is not 1 |
| IcoRebuild.DecodeEntries | ico_rebuilder.cpp:150 | the `count` entries decoded from their 16-byte slots after the header; ParseDirectoryOutcome states each one is the exact decoding |
| IcoRebuild.ParseDirectoryOutcome | ico_rebuilder.cpp:145-150 | fails with TooShort, NotAnIcon or DirectoryTruncated exactly in those cases; otherwise the header and every entry are the exact decodings of their bytes, reserved included |
| IcoRebuild.SubImage | ico_rebuilder.cpp:156-159 | the raw slice of an entry exists exactly when [offset, offset+size) lies inside the file |
| IcoRebuild.StreamBytes | ico_rebuilder.cpp:239-248 | the blob is a prefix of the encoder's stream: the whole stream when it is under 4 GiB, otherwise its length truncated to 32 bits |
| IcoRebuild.ConvertOne | ico_rebuilder.cpp:156-253 | one turn of the entry loop on values: out of bounds, rejected by the transform, or the new blob; specified by ConvertOneSpec |
| IcoRebuild.FirstFailureUnique | ico_rebuilder.cpp:154-216 | at most one error describes the first failing entry |
| IcoRebuild.ConvertOneSpec | ico_rebuilder.cpp:156-253 | one entry yields a blob exactly when its slice exists and its transform succeeds; otherwise its own index and the reason |
| IcoRebuild.NewImages | ico_rebuilder.cpp:154-261 | the newImages vector, or the first failure; on success it holds one blob per entry, and NewImagesSpec gives the rest |
| IcoRebuild.NewImagesSpec | ico_rebuilder.cpp:154-261 | all-or-nothing and in order: the loop succeeds exactly when every entry converts, blob i is entry i's converted sub-image, and otherwise the error names the first entry that fails |
| IcoRebuild.NewImagesAt | ico_rebuilder.cpp:154-253 | blob i of a successful loop is entry i's converted sub-image |
| IcoRebuild.NewImagesStep | ico_rebuilder.cpp:253 | one more converting entry appends its blob to newImages |
| IcoRebuild.NewImagesStopsAt | ico_rebuilder.cpp:186-215 | the first entry that fails ends the whole loop with that error |
| IcoRebuild.Rewritten | ico_rebuilder.cpp:256-260 | the field rewrite of one entry: size = new blob length, offset 0, colour count 0, planes 1, bit count 32; PlacedEntry states the result after placement |
| IcoRebuild.RewriteAll | ico_rebuilder.cpp:256-260 | every entry rewritten with its own blob's length, count kept; SumSizesRewritten and PlacedEntry state its effect |
| IcoRebuild.AssignOffsets | ico_rebuilder.cpp:264-269 | the offset pass keeps the count; OffsetsContiguous and OffsetsExact state its offsets |
| IcoRebuild.OffsetEntry | ico_rebuilder.cpp:267 | entry i with the DWORD running offset; OffsetStep relates it to the loop's accumulator |
| IcoRebuild.OffsetStep | ico_rebuilder.cpp:266-269 | one step of the offset pass: entry i gets the running offset, which then advances by its size |
| IcoRebuild.OffsetsContiguous | ico_rebuilder.cpp:264-269 | the first offset is the header size, and each next offset is the previous one plus its size, in DWORD arithmetic |
| IcoRebuild.SumSizesPrefix | ico_rebuilder.cpp:266-269 | the sizes of a prefix of entries never add up to more than the sizes of all of them |
| IcoRebuild.OffsetsExact | ico_rebuilder.cpp:264-269 | when the file fits in 32 bits the offsets do not wrap: each is base plus the sizes before it, and each region ends inside the file |
| IcoRebuild.SumSizesRewritten | ico_rebuilder.cpp:256 | after the rewrite the entries' sizes add up the same as the blob lengths |
| IcoRebuild.Concat | ico_rebuilder.cpp:276-278 | the concatenated blobs are as long as the blobs together |
| IcoRebuild.ConcatAt | ico_rebuilder.cpp:276-278 | blob i follows the blobs before it in the concatenation |
| IcoRebuild.Assemble | ico_rebuilder.cpp:271-278 | header, placed directory, blobs; AssembleSize, AssembleEntry, AssembleBlob and AssembleReparses state its layout |
| IcoRebuild.AssembleSize | ico_rebuilder.cpp:271-278 | the new file is 6 + 16*count + the sum of the blob lengths, and it starts with the original 6 header bytes |
| IcoRebuild.DirectoryEntryAt | ico_rebuilder.cpp:272-274 | entry i of the written directory is at file bytes [6+16i, 6+16i+16) |
| IcoRebuild.PlacedEntry | ico_rebuilder.cpp:256-269 | entry i after rewrite and placement: width, height and reserved kept, colour count 0, planes 1, bit count 32, size = blob length, offset = 6+16n+ the lengths before it |
| IcoRebuild.AssembleEntry | ico_rebuilder.cpp:256-274 | entry i read back from the new file has exactly those fields |
| IcoRebuild.AssembleBlob | ico_rebuilder.cpp:264-278 | blob i lies in the new file at 6+16n plus the lengths of the blobs before it |
| IcoRebuild.Rebuild | ico_rebuilder.cpp:145-148 | a file shorter than 6 bytes is TooShort, and one whose type WORD is not 1 is NotAnIcon |
| IcoRebuild.RebuildAllOrNothing | ico_rebuilder.cpp:154-280 | once the directory parses, output is produced exactly when every entry converts; otherwise the error names the first entry that fails |
| IcoRebuild.RebuildSize | ico_rebuilder.cpp:271-278 | a successful rebuild is the assembled file: the original header bytes, then 16 bytes per entry, then the blobs |
| IcoRebuild.RebuildBlob | ico_rebuilder.cpp:154-159 | blob i of the rebuilt file is the transform of input entry i's slice, placed directly after the directory and the blobs before it |
| IcoRebuild.RebuildBlobPlaced | ico_rebuilder.cpp:264-278 | blob i lies in the rebuilt file at 6+16n plus the lengths of the blobs before it |
| IcoRebuild.AssembleReparses | ico_rebuilder.cpp:264-278 | an assembled file under 4 GiB parses again, and each entry's offset and size select exactly its blob |
| IcoRebuild.RebuildReparses | ico_rebuilder.cpp:264-278 | a rebuilt file under 4 GiB parses again with the original header, and each entry's offset and size select exactly its blob |
| IcoRebuild.DecodeSubImage | ico_rebuilder.cpp:162-209 | PNG sub-images go to the stream decoder, all others to the icon-resource decoder; ProcessSubImage is proved against it |
| IcoRebuild.TransformSubImage | ico_rebuilder.cpp:162-236 | decode, tint, encode, or None when decoding fails; ProcessSubImage computes it |
| IcoRebuild.ProcessSubImage | ico_rebuilder.cpp:162-236 | the loop body's decode (stream decoder for PNG, icon-resource decoder otherwise), in-place tint and encode compute the sub-image transform |
| IcoRebuild.ConvertEntry | ico_rebuilder.cpp:155-253 | one turn of the entry loop: bounds test, transform and stream read-back agree with the one-entry specification |
| IcoRebuild.ConvertEntries | ico_rebuilder.cpp:154-261 | the entry loop returns the specification's result, and on success every array entry has been rewritten with its new blob's size |
| IcoRebuild.PlaceEntries | ico_rebuilder.cpp:264-269 | the offset loop over the array assigns exactly the running-sum offsets in DWORD arithmetic |
| IcoRebuild.WriteOutput | ico_rebuilder.cpp:271-278 | the writes produce the header, then the directory, then every blob in order |
| IcoRebuild.ProcessIco | ico_rebuilder.cpp:142-281 | the whole procedure returns exactly what the specification Rebuild returns for the program's transform |

## Left out

- The HSL arithmetic of `TintPixels` (ico_rebuilder.cpp:33-75) is floating point. It is abstracted into `ColourModel`: the hue of a non-grey pixel, and the colour at hue 195. What stays exact:
  - the alpha test;
  - the grey case, where d is 0, under the 1e-6 threshold, gives hue 0;
  - every other pixel takes the chromatic branch, since two distinct byte values differ by at least 1/255;
  - the inclusive band [15, 45];
  - the write-back of B, G and R only.
- The GDI+ and Win32 calls are parameters of a `Platform` value, because they are foreign code:
  - `Bitmap(IStream*)`, `CreateIconFromResourceEx`, `Bitmap::FromHICON`, `Clone`, `LockBits`;
  - `Save` and the `IStream`/`HGLOBAL` handling;
  - `GetEncoderClsid`.
  A decoder that fails yields `None`. The encoder is total, because the source ignores the status of `Save` (ico_rebuilder.cpp:236).
- A locked bitmap is modelled with a non-negative stride and rows inside the buffer. GDI+ can return a negative stride for bottom-up bitmaps; that case is not modelled.
- `y * stride` is unbounded in the model. The source computes it in 32-bit `UINT`/`INT` arithmetic, which does not overflow for bitmaps that fit in memory.
- File I/O is not modelled:
  - `ReadFileBytes` becomes the input sequence;
  - the `std::ofstream` writes become the returned sequence.
  A failing write is not modelled.
- `ProcessPNG`, the single-image path (ico_rebuilder.cpp:124-139), is left out. `ExtensionDispatch.RouteFor` only selects it.
- Process plumbing in `wmain` is left out: the usage message, GDI+ startup and shutdown, the error messages and the constant exit code 0.
- Sub-image bytes are taken from the original file. The source reads them from the buffer in which the directory entries before them have already been rewritten in place. The two differ only when an entry's image range overlaps the directory.
- The source ignores the status of `LockBits` (ico_rebuilder.cpp:221-224). The model folds `LockBits` into the decoders' `Option` result, so a decoded bitmap is always locked.
- The diagnostics that `ProcessICO` prints are dropped (ico_rebuilder.cpp:187, :197, :214). "Failed to create HICON" and both "Failed to load sub-image" messages become the same `SubImageFailed(i)`.
