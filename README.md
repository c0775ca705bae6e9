# gctoolsplusplus core in Dafny

A model of the byte-level core of gctoolsplusplus, a C++ library for
GameCube file formats, with proofs about it.

- **LZ codecs** (`lz_decode.dfy`, `lz_encode.dfy`, `bytes.dfy`).
  - The Yaz0 decoder, the Yay0 decoder and the Yay0 encoder of
    src/Compression.cpp, as methods over arrays.
  - Each is proved equal to a specification function, and the specification
    is proved to have its own properties: every back-reference repeats the
    bytes `dist` earlier, the output has exactly the size in the header, a
    parse consumes the whole input, and each token is one the format can
    encode.
- **Alignment** (`util.dfy`).
  - `AlignTo` and `PadTo32` of src/Util.cpp, on 32-bit words with
    wrap-around.
  - Proved against a reference "least multiple" definition.
- **RARC archives**.
  - `rarc_format.dfy`: the name hash, `CalculateArchiveSizes` and the
    string table.
  - `rarc_layout.dfy` and `rarc_save.dfy`: the record layout and `Save`.
  - `rarc_load.dfy`: `Load`.
  - `rarc_roundtrip.dfy` and `rarc_inverse.dfy`: the proof that `Load` inverts
    big-endian uncompressed `Save`.
  - `rarc_objects.dfy`, `rarc_paths.dfy` and `rarc_tree.dfy`: the folder
    objects and path lookup. They are modelled as one mutable arena (class
    `Heap`) whose `files`, `folders` and `archives` stand for every `File`,
    `Folder` and `Rarc` object alive.
- **GameCube disc images**.
  - `gcm_fst.dfy`: the FST writer `FstWriteFolder` and its back-patched
    "next index" words.
  - `gcm_fst_load.dfy`: the recursive `LoadDir` reader.
  - `gcm_fst_roundtrip.dfy`: the proof that the reader gives back what the
    writer wrote.
  - `gcm_disc.dfy`: the fixed-offset header and system-file reads of
    `Image::Load`, and the offsets of `SaveToFile`.
  - `gcm_tree.dfy`: the disc's folder objects (class `Disc`).
- **Textures**.
  - `texture_color.dfy`: the colour conversions and the CMPR sub-block
    decoder.
  - `texture_tiles.dfy`: the tile orders.
  - `texture_decode.dfy`: the seven tiled decoders, over the RGBA buffer
    array.
  - `texture_encode.dfy`: the six tiled encoders, with the round trip
    decode-after-encode.
  - `bti.dfy`: the BTI header, `Bti::Load`/`Save`/`SetData`, and the magic
    check of `Tpl::Load`.

Streams are byte sequences with an explicit cursor. The bStream classes
are not part of this model. A shared pointer becomes an index into an
arena. A path is a sequence of components.

## Model

| member | source | states |
|---|---|---|
| LzDecode.CopyBack | src/Compression.cpp:53-58 | a back-reference appends exactly `n` bytes and keeps the output written so far |
| LzDecode.CopyBackRepeats | src/Compression.cpp:53-58 | every byte a back-reference appends equals the byte `dist` positions earlier, so the copy may overlap its own output |
| LzDecode.Yaz0Distance | src/Compression.cpp:41-42 | the distance of a two-byte token is its low 12 bits plus one, between 1 and 4096 |
| LzDecode.Yaz0Length | src/Compression.cpp:40-51 | a token's length is its high nibble plus 2, or the third byte plus 0x12 when the nibble is 0: between 3 and 0x111 |
| LzDecode.Yaz0Step | src/Compression.cpp:25-63 | one successful pass of the loop appends at least one byte, stays within the output size and keeps what was written |
| LzDecode.Yaz0Literal | src/Compression.cpp:32-35 | a set flag appends the byte at the token position and advances the source cursor by exactly 1 |
| LzDecode.Yaz0Copy | src/Compression.cpp:37-59 | a clear flag appends a non-empty run within the output size, keeping the output written so far |
| LzDecode.Yaz0Run | src/Compression.cpp:25-64 | a successful decode produces exactly `size` bytes that extend the output it started from |
| LzDecode.Yaz0Decode | src/Compression.cpp:14-66 | a successful decode of a stream of at least 8 bytes yields exactly the big-endian size word at offset 4 |
| LzDecode.Yaz0StepSpec | src/Compression.cpp:26-63 | a control byte is loaded when the count is 0, flags are used MSB first and the register shifts left; a set flag copies one literal byte and advances both cursors by 1 |
| LzDecode.Yaz0StepCopy | src/Compression.cpp:38-58 | a clear flag reads a 2- or 3-byte token, appends `Yaz0Length` bytes, each equal to the byte `Yaz0Distance` earlier, and advances the source by the token size |
| LzDecode.Yaz0CopyRepeats | src/Compression.cpp:53-58 | the bytes a successful back-reference appends repeat those `Yaz0Distance` before them |
| LzDecode.Yaz0RunFails | src/Compression.cpp:25-64 | a pass that fails makes the whole decode fail with the same error |
| LzDecode.Yaz0RunSteps | src/Compression.cpp:25-64 | a pass that succeeds below the size leaves the rest of the decode unchanged |
| LzDecode.CopyWithin | src/Compression.cpp:53-58 | the in-place byte-by-byte copy inside the array leaves the array prefix equal to `CopyBack` of the old prefix |
| LzDecode.Yaz0Iterate | src/Compression.cpp:26-63 | one loop pass over the array fails exactly when `Yaz0Step` fails, and otherwise leaves the registers and output `Yaz0Step` computes |
| LzDecode.Yaz0LiteralInto | src/Compression.cpp:32-35 | the literal branch over the array agrees with `Yaz0Literal`, failure included |
| LzDecode.Yaz0ReadToken | src/Compression.cpp:38-51 | reading a token fails exactly when its 2 or 3 bytes run past the input, and otherwise returns `Yaz0Distance`, `Yaz0Length` and the position after the token |
| LzDecode.Yaz0CopyInto | src/Compression.cpp:37-59 | the back-reference branch over the array agrees with `Yaz0Copy`, failure included |
| LzDecode.Yaz0Decompress | src/Compression.cpp:7-70 | the decoder method over a `dst` array returns exactly `Yaz0Decode` of the stream |
| LzDecode.Yay0RunLength | src/Compression.cpp:140-141 | the length field of a link is its top 4 bits |
| LzDecode.Yay0Distance | src/Compression.cpp:140-160 | a link's distance is its low 12 bits plus one (the `ref_start - 1` read), between 1 and 4096 |
| LzDecode.Yay0Loaded | src/Compression.cpp:113-119 | loading a flag word leaves at least one flag and touches neither the output nor the link and chunk cursors |
| LzDecode.Yay0Step | src/Compression.cpp:112-177 | one successful pass keeps the output written so far, stays within the buffer and, below the limit, appends at least one byte and no more than the limit |
| LzDecode.Yay0Literal | src/Compression.cpp:121-135 | a set flag appends the next chunk byte, advances the chunk cursor by 1 and shifts the flags |
| LzDecode.Yay0LinkLength | src/Compression.cpp:146-151 | a link's length is the nibble plus 2, or a chunk byte plus 18: between 2 and 273 |
| LzDecode.Yay0Link | src/Compression.cpp:136-174 | a clear flag keeps the output written so far, stays within the buffer and, below the limit, appends at least one byte and no more than the limit |
| LzDecode.Yay0Loop | src/Compression.cpp:112-178 | the do-while loop ends with at least `expand_limit` bytes, within the buffer, extending the output it started from |
| LzDecode.Yay0Expand | src/Compression.cpp:97-180 | a successful expansion produces exactly the buffer size |
| LzDecode.Yay0DecompressAsWritten | src/Compression.cpp:81-94 | the decoder as written, which reads the stream from offset 8 on because it does not seek back; success yields exactly the size word at offset 4 |
| LzDecode.Yay0Decompress | src/Compression.cpp:81-99 | the decoder with the seek back to 0; success yields exactly the size word at offset 4 |
| LzDecode.Yay0StepSpec | src/Compression.cpp:113-177 | flag words are big-endian words from offset 16 used MSB first; a literal takes the next chunk byte; a link takes its length from the nibble plus 2 or a chunk byte plus 18, clamped to `expand_limit - expand_offset`, each byte repeating the one `Yay0Distance` earlier |
| LzDecode.Yay0LoopFails | src/Compression.cpp:112-178 | a pass that fails makes the whole decode fail with the same error |
| LzDecode.Yay0LoopSteps | src/Compression.cpp:112-178 | a pass that succeeds below the limit leaves the rest of the decode unchanged |
| LzDecode.Yay0LoopEnds | src/Compression.cpp:178 | decoding stops as soon as `expand_offset` reaches `expand_limit` |
| LzDecode.Yay0Iterate | src/Compression.cpp:112-177 | one pass over the array fails exactly when `Yay0Step` fails and otherwise leaves the state `Yay0Step` computes, with the array prefix as output |
| LzDecode.Yay0LiteralInto | src/Compression.cpp:121-135 | the literal branch over the array agrees with `Yay0Literal`, failure included |
| LzDecode.Yay0ReadLink | src/Compression.cpp:137-155 | reading a link agrees with `Yay0Link`: a distance of at least 1, a clamped length that fits the buffer, and the cursors after it |
| LzDecode.Yay0LinkInto | src/Compression.cpp:136-174 | the link branch over the array agrees with `Yay0Link`, failure included |
| LzDecode.Yay0ExpandInto | src/Compression.cpp:97-180 | the decoder method over a `dst` array returns exactly `Yay0Expand` |
| LzDecode.Yay0StepInBounds | src/Compression.cpp:153-155 | with a buffer of `expand_limit` bytes a pass never writes past the buffer and never leaves bytes unwritten |
| LzDecode.Yay0LoopInBounds | src/Compression.cpp:153-178 | with a buffer of `expand_limit` bytes the whole loop never overruns and never leaves bytes unwritten |
| LzDecode.Yay0DecompressSafe | src/Compression.cpp:87-155 | the corrected decoder never overruns its buffer and never hands out unwritten bytes |
| LzDecode.Yay0DecompressSeekMissing | src/Compression.cpp:87-94 | the decoder as written fails on a one-literal stream that the decoder with the seek expands to the byte it holds |
| LzEncode.MatchLenMatches | src/Compression.cpp:227-230 | the inner loop's length is a run of equal bytes that stops at the first mismatch or at the bound |
| LzEncode.Search | src/Compression.cpp:223-238 | the best match found is at most `maxCount` long, its offset lies inside the window and is at least its length, and no match gives offset 0 |
| LzEncode.SearchIsLongest | src/Compression.cpp:225-236 | the match kept is the longest, and the first of the longest ones in window order, because only a strictly longer match replaces it |
| LzEncode.SearchMatches | src/Compression.cpp:225-238 | the bytes at `decPtr` equal the bytes `linkOffset` earlier over the whole match length |
| LzEncode.ParseStep | src/Compression.cpp:213-259 | one pass of the outer loop consumes at least one input byte and keeps the window behind the cursor |
| LzEncode.ParseStepValid | src/Compression.cpp:213-247 | the search runs on a window below 4096 bytes with `maxCount <= min(273, remaining)`, so a link's distance fits 12 bits, is at least 1 and at least the length, and the cursor advances by the token's length |
| LzEncode.ParseValid | src/Compression.cpp:213-268 | every token of the walk is one the format can encode |
| LzEncode.TokensValid | src/Compression.cpp:213-268 | every token the encoder emits for an input is encodable |
| LzEncode.Expand | src/Compression.cpp:121-174 | expanding tokens only appends to the bytes already produced |
| LzEncode.ParseStepExpands | src/Compression.cpp:240-259 | each token stands for exactly the input bytes it consumes |
| LzEncode.ParseExpands | src/Compression.cpp:213-268 | expanding the tokens of the walk after the bytes already passed gives back the input |
| LzEncode.TokensExpand | src/Compression.cpp:213-268 | expanding all the encoder's tokens from nothing gives back the whole input |
| LzEncode.Flags | src/Compression.cpp:242-258 | one flag per token, set exactly for literals |
| LzEncode.MaskWordsSnoc | src/Compression.cpp:261-266 | a full group of 32 flags adds exactly one mask word after those already stored |
| LzEncode.TailAlign | src/Compression.cpp:270-273 | the last, partial group of flags is left-aligned in its word |
| LzEncode.LinkWord | src/Compression.cpp:244-247 | a link word holds `distance - 1` in its low 12 bits and `length - 2` above them when the length is below 18 |
| LzEncode.LinkWords | src/Compression.cpp:244-252 | one 16-bit link word per match and none per literal |
| LzEncode.ChunkOf | src/Compression.cpp:246-256 | a literal puts its byte in the chunk stream, a long match `length - 18`, a short match nothing |
| LzEncode.Header | src/Compression.cpp:276-283 | the header is 16 bytes |
| LzEncode.Yay0CompressAsWritten | src/Compression.cpp:276-290 | the stream as written, with the mask buffer copied again into the link and chunk sections, when the stored mask bytes cover both; it is at least the 16 header bytes |
| LzEncode.Yay0Compress | src/Compression.cpp:276-290 | the stream with each buffer written to its own section |
| LzEncode.MatchLength | src/Compression.cpp:227-230 | the inner `for` loop computes `MatchLen` |
| LzEncode.LongestMatch | src/Compression.cpp:223-238 | the search loop computes `Search`: the longest match and its offset |
| LzEncode.PushFlag | src/Compression.cpp:242-266 | shifting a flag into `mask` keeps every stored word equal to the mask words of the flags so far, and stores a word exactly after 32 flags |
| LzEncode.StoreWord | src/Compression.cpp:262-265 | a full mask register is stored as the next mask word |
| LzEncode.ChooseToken | src/Compression.cpp:213-243 | the window update, the clamp of `maxCount` and the search compute `ParseStep`, and keep `windowPtr + windowLen == decPtr` |
| LzEncode.EmitToken | src/Compression.cpp:243-259 | the link and chunk buffers hold exactly the link words and chunk bytes of the tokens so far |
| LzEncode.EmitLink | src/Compression.cpp:244-252 | a match appends its link word, and for a long match its length byte, to the buffers |
| LzEncode.FlushMask | src/Compression.cpp:270-274 | after the tail flush the mask buffer holds the mask words of every flag |
| LzEncode.ParseAdvance | src/Compression.cpp:213-268 | the tokens emitted so far followed by the rest of the walk are the encoder's tokens |
| LzEncode.EncodeStep | src/Compression.cpp:213-266 | one pass of the outer loop keeps the buffers equal to the mask words, link words and chunk bytes of the tokens so far, and advances `decPtr` |
| LzEncode.Yay0EncodeBuffers | src/Compression.cpp:187-274 | the loop leaves the mask, link and chunk buffers holding exactly the encoding of the encoder's tokens, all of which are encodable |
| LzEncode.Yay0CompressInto | src/Compression.cpp:187-290 | the encoder method returns exactly the stream as written |
| LzEncode.SectionSizes | src/Compression.cpp:197-208 | the link and chunk buffers never hold more entries than there are tokens |
| LzEncode.ParseLength | src/Compression.cpp:213-268 | the walk emits at most one token per remaining input byte |
| LzEncode.Yay0CompressLayout | src/Compression.cpp:276-290 | the corrected stream starts with "Yay0" and the input size, `linkSecOff = 0x10 + 4*maskPtr`, `chunkSecOff = linkSecOff + 2*linkPtr`, and each section holds its own buffer |
| LzEncode.Yay0CompressOneLiteral | src/Compression.cpp:276-290 | the corrected encoder turns the one-byte input "A" into a stream that decodes back to "A" |
| LzEncode.OneLiteralAsWrittenDecodes | src/Compression.cpp:286-290 | the stream the encoder as written produces for "A" decodes to the mask byte 0x80 |
| LzEncode.Yay0CompressReusesMask | src/Compression.cpp:286-290 | the encoder as written produces that stream for "A": its chunk section holds the mask byte 0x80 instead of "A" |
| Util.RoundUp32 | src/Util.cpp:9-11 | the reference rounding on unbounded naturals: the least multiple of 32 that is at least `n` |
| Util.AlignToPow2 | src/Util.cpp:5-7 | for `y = 2^k`, the mask `~(y-1)` rounds the 32-bit sum `x + y - 1` down to a multiple of `y` |
| Util.AlignToIsLeastMultiple | src/Util.cpp:5-7 | for `y` a power of two and no 32-bit overflow, `AlignTo(x, y)` is the least multiple of `y` that is at least `x` |
| Util.PadTo32IsAlignTo32 | src/Util.cpp:5-11 | `PadTo32(x)` equals `AlignTo(x, 32)` for every 32-bit `x` |
| Util.PadTo32Rounds | src/Util.cpp:9-11 | `PadTo32` rounds the wrapped sum `x + 31` down to a multiple of 32 |
| Util.PadTo32Value | src/Util.cpp:9-11 | without overflow `PadTo32` agrees with the reference `RoundUp32` |
| Util.PadTo32Multiple | src/Util.cpp:9-11 | the result is a multiple of 32 for every input, wrap-around included |
| Util.PadTo32Bounds | src/Util.cpp:9-11 | without overflow the result lies in `[x, x + 32)` |
| Util.PadTo32Idempotent | src/Util.cpp:9-11 | padding twice is padding once |
| Util.PadTo32FixedIff | src/Util.cpp:9-11 | `PadTo32(x) == x` exactly when `x` is a multiple of 32 |
| Bytes.U32BEOfBe32 | src/Compression.cpp:97-99 | reading back a big-endian 32-bit word gives the value written |
| Bytes.U16BEOfBe16 | src/Compression.cpp:140 | reading back a big-endian 16-bit half-word gives the value written |
| RarcFormat.CharCode | src/Archive.cpp:15 | `(uint16_t)str[i]` of a signed `char`: bytes below 0x80 keep their value, bytes from 0x80 become `0xFF00 + b` |
| RarcFormat.HashIsPolyMod | src/Archive.cpp:10-20 | truncating the hash to 16 bits after every step equals reading the character codes as a base-3 numeral and truncating once |
| RarcFormat.HashSnoc | src/Archive.cpp:13-17 | appending a character gives `(3 * Hash(s) + code) mod 2^16` |
| RarcFormat.Hash | src/Archive.cpp:10-20 | the loop computes the fold `HashOf`, a value below 2^16 |
| RarcFormat.Read16At | src/Archive.cpp:245-246 | a 16-bit field written in either byte order reads back as the value written, wherever it sits |
| RarcFormat.Read32At | src/Archive.cpp:244-247 | a 32-bit field written in either byte order reads back as the value written, wherever it sits |
| RarcFormat.ElemsOfMember | src/Archive.cpp:131 | the names recorded as seen are exactly the names visited |
| RarcFormat.NewBytesAntitone | src/Archive.cpp:141-156 | seeding the seen set with more names can only shrink the bytes the remaining names add |
| RarcFormat.NewBytesSnoc | src/Archive.cpp:141-156 | a name adds `len + 1` bytes exactly when it has not been seen before |
| RarcFormat.CountName | src/Archive.cpp:141-144 | a name adds `len + 1` to the 32-bit string counter and joins the seen set only the first time it is seen |
| RarcFormat.CountFile | src/Archive.cpp:152-160 | a file adds its name, 0x14 entry bytes and its size padded to 32 bytes |
| RarcFormat.CountFiles | src/Archive.cpp:152-160 | the files of a directory add their names, `0x14` bytes each and their padded sizes |
| RarcFormat.CountSubdirs | src/Archive.cpp:148-150 | each subfolder adds one 0x14-byte entry and nothing else |
| RarcFormat.CountDirectory | src/Archive.cpp:139-160 | a directory adds 0x10 record bytes, its name, two entries for `.` and `..`, its subfolder entries and its files |
| RarcFormat.CountDirectories | src/Archive.cpp:138-161 | the counters hold, wrapped to 32 bits, the sums over all directories |
| RarcFormat.CalculateArchiveSizes | src/Archive.cpp:128-166 | the method returns `SizesOf`: 0x10 per directory, 0x14 per entry, data padded per file, 5 plus each new name's bytes, each section padded to 32 and the total from the 0x40-byte header |
| RarcFormat.SeedHolds | src/Archive.cpp:396-401 | the seeded table holds "." at offset 0 and ".." at offset 2 in five bytes |
| RarcFormat.AddNameHolds | src/Archive.cpp:403-415 | appending a name keeps every name already in the table readable at its offset and makes the new one readable |
| RarcFormat.HoldsKept | src/Archive.cpp:403-415 | a name readable in the table stays readable once more bytes follow |
| RarcFormat.AddNameSize | src/Archive.cpp:404-408 | an unseen name is recorded and costs `len + 1` bytes, a seen one costs nothing |
| RarcFormat.AddNamesSize | src/Archive.cpp:403-416 | the table records exactly the names visited and grows by the new-name bytes the size pass counted |
| RarcFormat.AddNamesHolds | src/Archive.cpp:403-416 | after any sequence of names every recorded name is readable, NUL-terminated, at its offset |
| RarcFormat.TableOfHolds | src/Archive.cpp:394-416 | the table of an archive records "." at 0, ".." at 2 and every directory and file name, each readable at its offset, and fits the string-table size of `CalculateArchiveSizes` |
| RarcFormat.AddNamesKeepsOffsets | src/Archive.cpp:404-410 | a name already in the table keeps its first offset |
| RarcFormat.AddNamesSnoc | src/Archive.cpp:403-416 | interning one more name is one more `AddName` step |
| RarcFormat.BuildStringTable | src/Archive.cpp:394-416 | the loop builds exactly `TableOf` the directory list |
| RarcFormat.InternFiles | src/Archive.cpp:409-415 | the inner loop interns one directory's file names after those already interned |
| RarcLayout.FileCountValue | include/Archive.hpp:105 | `GetFileCount` sums the two 16-bit casts in 16 bits, which is the number of files and subfolders modulo 2^16 |
| RarcLayout.DirId | src/Archive.cpp:427-446 | a directory ID is four bytes: "ROOT" for the first directory, else the upper-cased name padded with spaces, reversed for a little-endian archive |
| RarcLayout.DirRecord | src/Archive.cpp:427-451 | a directory record is 16 bytes: ID, name offset, name hash, entry count and first entry index |
| RarcLayout.FileEntry | src/Archive.cpp:454-464 | a file entry is 20 bytes: index, hash, attribute 0x11, name offset, data offset, size, zero |
| RarcLayout.LinkEntry | src/Archive.cpp:477-490 | a subfolder entry is 20 bytes: 0xFFFF, hash, attribute 0x02, name offset, folder index, 0x10, zero |
| RarcLayout.DotEntry | src/Archive.cpp:494-503 | the "." entry is 20 bytes and names the directory itself |
| RarcLayout.DotDotEntry | src/Archive.cpp:505-518 | the ".." entry is 20 bytes and names the parent, or 0xFFFFFFFF without one |
| RarcLayout.LinkEntries | src/Archive.cpp:477-491 | one 20-byte entry per subfolder |
| RarcLayout.DirEntries | src/Archive.cpp:453-520 | a directory's entries take 20 bytes for each file, each subfolder, "." and ".." |
| RarcLayout.DirSection | src/Archive.cpp:421-452 | the directory section is 16 bytes per directory, the size `CalculateArchiveSizes` counts |
| RarcLayout.EntrySection | src/Archive.cpp:421-521 | the entry section is 20 bytes per entry, the size `CalculateArchiveSizes` counts |
| RarcLayout.Header | src/Archive.cpp:523-531 | the archive header is 0x20 bytes |
| RarcLayout.FsHeader | src/Archive.cpp:533-543 | the file-system header is 0x20 bytes |
| RarcLayout.FileBlockLength | src/Archive.cpp:466-471 | a file's data plus its `PadTo32(size) - size` zero bytes is its size rounded up to 32 |
| RarcLayout.BlocksLength | src/Archive.cpp:454-474 | a directory's data blocks take exactly the padded sizes `CalculateArchiveSizes` sums, a multiple of 32 |
| RarcLayout.DataSectionLength | src/Archive.cpp:421-521 | the data section is exactly the `fileData` size counted, a multiple of 32 |
| RarcLayout.SizesValue | src/Archive.cpp:128-166 | when the archive fits 32 bits the counted sections are the unbounded rounded-up sizes |
| RarcLayout.SizesTotal | src/Archive.cpp:163-165 | when the archive fits, the total is the header plus every padded section, rounded up to 32 |
| RarcLayout.SectionsFit | src/Archive.cpp:376-392 | every section `Save` writes fits the space reserved for it, and the reserved sections fit the total |
| RarcLayout.SaveImage | src/Archive.cpp:376-550 | the uncompressed buffer is exactly `total` bytes long |
| RarcSave.SectionStep | src/Archive.cpp:421-521 | one pass of the directory loop appends one record, that directory's entries and its files' data blocks, and advances the entry index by its files, subfolders and two |
| RarcSave.WriteFile | src/Archive.cpp:454-474 | one file appends its entry at the current index and data offset, then its data and zero padding |
| RarcSave.WriteFiles | src/Archive.cpp:454-474 | the file loop appends the files' entries with consecutive indices and data offsets that follow the blocks already written, and their padded data |
| RarcSave.WriteLinks | src/Archive.cpp:477-491 | the subfolder loop appends one link entry per subfolder and advances the index by their number |
| RarcSave.WriteDirectory | src/Archive.cpp:421-521 | after directory `i` the streams hold the sections of the first `i + 1` directories |
| RarcSave.WriteStructure | src/Archive.cpp:418-521 | the structure loop writes the directory, entry and data sections of the whole list, and `currentFileIndex` ends at the entry count |
| RarcSave.Save | src/Archive.cpp:375-580 | the buffer is the laid-out image of `total` bytes when uncompressed; Yay0 gives what `LzEncode.Yay0CompressAsWritten` gives (a stream only when the mask bytes cover the link and chunk sections), padded to 32 on request; Yaz0 gives the empty output of its stub compressor |
| RarcLoad.Unwrap | src/Archive.cpp:586-604 | a stream whose magic is neither "Yaz0" nor "Yay0" is read as it is |
| RarcLoad.ReadDirs | src/Archive.cpp:633-713 | a successful read yields one directory per record counted in the header |
| RarcLoad.LoadRejectsExactly | src/Archive.cpp:606-615 | `LoadSpec` gives `NotArchive` (the outcome where `Load` returns false at line 613) exactly when the decompressed stream begins with neither "RARC" nor "CRAR", and a loaded archive is little-endian exactly when it begins with "CRAR" |
| RarcLoad.LoadedCount | src/Archive.cpp:624-633 | a loaded archive has exactly `dirCount` directories |
| RarcLoad.EntriesLinksInRange | src/Archive.cpp:705-708 | every subfolder link an entry loop keeps names a directory below `dirCount` |
| RarcLoad.DirsLinksInRange | src/Archive.cpp:633-713 | every directory read links only to directories below `dirCount` |
| RarcLoad.LoadedClosed | src/Archive.cpp:705-708 | in a loaded archive every subfolder link names one of its directories |
| RarcLoad.EntriesFailStays | src/Archive.cpp:663-711 | once an entry cannot be read, no longer run of entries can be read |
| RarcLoad.DirsFailStays | src/Archive.cpp:636-713 | once a directory cannot be read, no longer run of directories can be read |
| RarcLoad.ReadName | src/Archive.cpp:650-654 | the name loop stops at NUL or at the end of the string table and returns `CStr` |
| RarcLoad.EntryStep | src/Archive.cpp:665-710 | reading one entry adds a file with its bytes, a subfolder link, or nothing for "." and "..", as `ReadEntries` says |
| RarcLoad.LoadEntries | src/Archive.cpp:661-711 | the entry loop computes `ReadEntries` |
| RarcLoad.LoadDir | src/Archive.cpp:638-712 | one directory's record, name and entries are read as `ReadDir` says |
| RarcLoad.LoadDirs | src/Archive.cpp:633-713 | the directory loop computes `ReadDirs` over `dirCount` records |
| RarcLoad.UnwrapStream | src/Archive.cpp:586-604 | the decompression step computes `Unwrap` |
| RarcLoad.LoadHeader | src/Archive.cpp:617-631 | the header words are read as `ReadHdr` says |
| RarcLoad.Load | src/Archive.cpp:583-715 | the method computes `LoadSpec` |
| RarcRoundTrip.HeaderReads | src/Archive.cpp:523-543 | the saved image reads back, in the order it was written, the "RARC" magic and the header fields `Load` needs: directory count, section offsets and string-table size |
| RarcRoundTrip.ImageDirSectionAt | src/Archive.cpp:376-392 | the directory section sits at offset 0x40 of the saved image |
| RarcRoundTrip.ImageEntrySectionAt | src/Archive.cpp:376-392 | the entry section sits right after the space reserved for the directory section |
| RarcRoundTrip.ImageTableAt | src/Archive.cpp:376-392 | the string table sits right after the space reserved for the entry section |
| RarcRoundTrip.ImageDataAt | src/Archive.cpp:376-392 | the file data sits right after the space reserved for the string table |
| RarcInverse.ExpectedDirsAt | src/Archive.cpp:617-713 | directory `i` that `Load` should rebuild has the saved directory's name, files and subfolder indices |
| RarcInverse.TableDots | src/Archive.cpp:396-401 | "." and ".." are readable at offsets 0 and 2 of every saved string table |
| RarcInverse.FileEntryRead | src/Archive.cpp:665-704 | a saved file entry reads back as that file: its name through the string table and its bytes through the data offset and size |
| RarcInverse.LinkEntryRead | src/Archive.cpp:705-708 | a saved subfolder entry reads back as a link to the index it was saved with |
| RarcInverse.DotEntryRead | src/Archive.cpp:665-710 | the saved "." entry is skipped by the reader |
| RarcInverse.DotDotEntryRead | src/Archive.cpp:665-710 | the saved ".." entry is skipped by the reader |
| RarcInverse.GatherDir | src/Archive.cpp:661-711 | reading a directory's saved entries, files first, then subfolders, then "." and "..", collects exactly its files and its subfolder links in order |
| RarcInverse.ReadGather | src/Archive.cpp:661-711 | when each entry of a run reads back as its item, the entry loop collects those items |
| RarcInverse.DirEntriesRead | src/Archive.cpp:661-711 | the entries saved for one directory read back as its files and subfolder links |
| RarcInverse.ReadDirFrom | src/Archive.cpp:638-712 | a saved directory record reads back as that directory: name, entry count, first entry, and then its entries |
| RarcInverse.ReadDirsAll | src/Archive.cpp:635-713 | the directory loop over a saved image rebuilds every saved directory, in order |
| RarcInverse.LoadInvertsSave | src/Archive.cpp:617-713 | loading a big-endian archive saved without compression gives back its directories with their names, files and subfolder links |
| RarcObjects.IndexIn | include/Archive.hpp:98 | the position `std::find` returns: the first index holding `x`, or the length when `x` is absent |
| RarcObjects.RemoveFirstSpec | include/Archive.hpp:98 | removing an absent file changes nothing; removing a present one drops its first occurrence only and keeps the order of the rest |
| RarcObjects.RankedDespiteCycle | src/Archive.cpp:74-86 | a copy needs no ranking of folders it does not reach: a folder can be copied although another folder of its archive is its own subfolder |
| RarcObjects.CopyDone | src/Archive.cpp:75-86 | once its subfolders are attached and its files shared, a copy has its source's shape at every depth |
| RarcTree.Find | include/Archive.hpp:98 | the search loop returns `IndexIn`: the first position of `x`, or the length |
| RarcTree.Heap.NewArchive | include/Archive.hpp:198-200 | a new archive is big-endian and has no directories; no other object changes |
| RarcTree.Heap.NewFile | include/Archive.hpp:56-68 | a new file has no name, no data and no mounted archive; no other object changes |
| RarcTree.Heap.SetData | include/Archive.hpp:32-41 | the file's contents, size included, become exactly the bytes given; nothing else changes |
| RarcTree.Heap.SetFileName | include/Archive.hpp:44 | only the file's name changes |
| RarcTree.Heap.NewFolder | include/Archive.hpp:115-117 | a new folder of archive `a` has no parent, no name, no subfolders and no files |
| RarcTree.Heap.SetFolderName | include/Archive.hpp:90 | only the folder's name changes |
| RarcTree.Heap.AddFile | include/Archive.hpp:97 | the file goes at the end of the folder's list; nothing else changes |
| RarcTree.Heap.DeleteFile | include/Archive.hpp:98 | the folder's list loses the first occurrence of the file, if any (see `RemoveFirstSpec`); nothing else changes |
| RarcTree.Heap.GetFileCount | include/Archive.hpp:105 | files plus subfolders, each cast to 16 bits and summed in 16 bits: the total modulo 2^16 |
| RarcTree.Heap.Attach | src/Archive.cpp:92-99 | the folder gets `d` as parent and goes at the end of `d`'s subfolders, and joins its archive's directory list only when it is not already in it |
| RarcTree.Heap.AddSubdirectory | src/Archive.cpp:88-101 | `d` gains exactly one last subfolder pointing back to it. From the same archive that is `dir` itself, only `dir`'s parent and `d`'s list change, and `dir` joins `mDirectories` unless it is there; otherwise it is a new copy with `dir`'s shape, the archive's list only grows, every new folder is registered in it, and no folder outside the archive changes |
| RarcTree.Heap.AddCopy | src/Archive.cpp:89-91 | a folder of another archive is copied into `d`'s archive and the copy, with `dir`'s shape, is attached |
| RarcTree.Heap.Copy | src/Archive.cpp:75-86 | the copy is a new folder of the target archive with the shape of `src` at every depth; folders that existed keep their contents |
| RarcTree.Heap.CopySubdirs | src/Archive.cpp:78-80 | the copy receives one subfolder per subfolder of `src`, in order, each with the shape of the one it stands for |
| RarcTree.Heap.CopyFiles | src/Archive.cpp:82-84 | the copy shares the file objects of `src`, in order |
| RarcTree.Heap.CreateDirs | src/Archive.cpp:633 | `dirCount` blank folders of the new archive are appended to the arena |
| RarcTree.Heap.LoadFiles | src/Archive.cpp:665-704 | one new file object per file read, with that name and those bytes, becomes the folder's file list |
| RarcTree.Heap.LinkSubdirs | src/Archive.cpp:705-708 | each link read appends the folder it names to the subfolders and gives that folder this parent |
| RarcTree.Heap.LoadDirs | src/Archive.cpp:635-713 | after the loop every directory read is in its folder with its name, files and subfolders, and earlier objects keep their contents |
| RarcTree.Heap.LoadInto | src/Archive.cpp:583-715 | `Load` succeeds exactly when `LoadSpec` gives an archive; on failure nothing changes; on success the archive's directories are new folders holding what was read |
| RarcTree.Heap.MountAsArchive | src/Archive.cpp:107-122 | mounting succeeds exactly when the file's bytes load as an archive, and then the file records the new archive |
| RarcTree.Heap.GetFolder | src/Archive.cpp:61-73 | the lookup returns `FindFolder`: the first subfolder named like the first component decides, and an empty path finds nothing |
| RarcTree.Heap.GetFile | src/Archive.cpp:30-59 | the lookup returns `FindFile`: a file named like a one-component path, a file mounted as an archive for longer paths, else the last subfolder with the name |
| RarcTree.Heap.FileLoop | src/Archive.cpp:34-46 | the file loop ends with a file exactly when `FileHit` finds one |
| RarcTree.Heap.SubLoop | src/Archive.cpp:48-58 | the subfolder loop keeps the result of the last subfolder with the component's name |
| RarcTree.Heap.RarcGetFile | include/Archive.hpp:177-185 | a leading "/" is dropped and the lookup starts at the first directory |
| RarcTree.Heap.RarcGetFolder | include/Archive.hpp:187-196 | a leading "/" is dropped and the folder lookup starts at the first directory |
| RarcTree.Heap.GetRoot | include/Archive.hpp:157 | the root is the first directory, and every archive lookup is the folder lookup from it |
| RarcTree.Heap.SetRoot | include/Archive.hpp:158-163 | the folder becomes the first directory; an old root is attached below it, as itself from the same archive or as a copy with its shape; files, every other folder's contents and the parents of other archives' folders stay; an archive other than `a` and the folder's own is unchanged, and the folder's archive's list only grows |
| RarcPaths.FirstMatch | src/Archive.cpp:62-70 | a match is the first subfolder with the name, and `None` means none has it |
| RarcPaths.LastMatch | src/Archive.cpp:50-56 | a match is a subfolder with the name, the last one, and `None` means none has it |
| RarcPaths.FirstFile | src/Archive.cpp:34-37 | a match is the first file with the name, and `None` means none has it |
| RarcPaths.FindFolderNamed | src/Archive.cpp:61-73 | a folder found carries the last component's name |
| RarcPaths.FindFolderCompose | src/Archive.cpp:65-68 | looking up `p + q` is looking up `q` from where `p` leads |
| RarcPaths.FindFileNamed | src/Archive.cpp:30-59 | a file found carries the last component's name |
| RarcPaths.ArchiveFileNamed | include/Archive.hpp:177-185 | an archive lookup finds only files named like the last component, and never with an empty path |
| RarcPaths.FindFileSingle | src/Archive.cpp:34-37 | a one-component path finds the first file of that name in the folder |
| RarcPaths.LastSubfolderWins | src/Archive.cpp:50-56 | with no file matching the first component, the result is the lookup in the last subfolder so named |
| RarcPaths.PlacedArchiveFile | src/Archive.cpp:633-713 | lookups give the same answer on the loaded objects as on the directories read |
| RarcPaths.GrownFind | src/Archive.cpp:39-42 | mounting archives along the way does not change the files a lookup finds |
| GcmFst.CalculateFstSize | src/GCM.cpp:92-105 | the FST body takes 12 bytes per file and per folder below the given one, and the string table grows by each of their names plus a NUL |
| GcmFst.WriteDir | src/GCM.cpp:107-158 | writing a folder adds one entry for it and one per file and folder below it, and only appends to the entry, name and image streams |
| GcmFst.TableAppend | src/GCM.cpp:110-142 | the FST bytes of one more entry are the old bytes followed by that entry's 12 bytes |
| GcmFst.TablePatch | src/GCM.cpp:154-157 | rewriting the second word of an entry changes the FST bytes at exactly that word |
| GcmFst.DirPatch | src/GCM.cpp:107-158 | after a folder is written, its entry's second word holds the index just past its last descendant |
| GcmFst.FstWriter.WriteFile | src/GCM.cpp:135-152 | a file adds its name and NUL to the string table, an entry (name offset, image position, size), then its data and zero padding up to a multiple of 32 in the image |
| GcmFst.FstWriter.OpenFolder | src/GCM.cpp:108-127 | a folder's entry has the directory flag with its name offset (none for the root) and its parent index, and the placeholder for its end index is remembered |
| GcmFst.FstWriter.Patch | src/GCM.cpp:154-157 | only the placeholder word of the folder's entry changes, to the current index |
| GcmFst.FstWriter.WriteFolder | src/GCM.cpp:107-158 | the recursive writer leaves the three streams exactly as `WriteDir` says |
| GcmFst.FstWriter.WriteSubfolders | src/GCM.cpp:131-133 | the subfolder loop writes each subfolder in order, as `WriteSubs` says |
| GcmFst.FstWriter.WriteFileList | src/GCM.cpp:135-152 | the file loop writes each file in order, as `WriteFiles` says |
| GcmFstLoad.ReadDir | src/GCM.cpp:235-284 | a successful read never moves the index backwards, only appends folders, and reads only within the disc |
| GcmFstLoad.FolderEntryStep | src/GCM.cpp:255-262 | a folder entry appends a folder with its name, its index as ID and its first word as parent ID, reads the entries up to its second word into it, then goes on |
| GcmFstLoad.FileEntryStep | src/GCM.cpp:263-282 | a file entry adds a file with its name and the `second` bytes at offset `first` to the current folder, then goes on with the next index |
| GcmFstLoad.EntryFails | src/GCM.cpp:243-251 | an entry whose name runs past the end of the disc makes the whole read fail |
| GcmFstLoad.FstReader.ReadName | src/GCM.cpp:246-251 | the name loop returns the bytes up to the first NUL, or fails at the end of the disc |
| GcmFstLoad.FstReader.LoadDir | src/GCM.cpp:235-284 | the loop over entries computes `ReadDir`, failure included |
| GcmFstLoad.FstReader.LoadFolder | src/GCM.cpp:255-262 | the folder branch computes the `ReadDir` step for a folder entry |
| GcmFstLoad.FstReader.LoadFile | src/GCM.cpp:263-282 | the file branch computes the `ReadDir` step for a file entry |
| GcmFstRoundTrip.DirRead | src/GCM.cpp:107-158 | the entries written for a folder read back as that folder followed by every folder below it in pre-order, with their files |
| GcmFstRoundTrip.SubsRead | src/GCM.cpp:131-133 | the entries written for a run of subfolders read back as those folders and their descendants in order |
| GcmFstRoundTrip.FilesRead | src/GCM.cpp:135-152 | the entries written for a run of files read back as those files, names and bytes, added to the current folder |
| GcmFstRoundTrip.FstRoundTrip | src/GCM.cpp:200-202 | reading back the FST written for `files`: the root entry holds the entry count, and the reader gives `files` its files and lists every folder below it in pre-order with its name, its index as ID and its parent's index as parent ID |
| GcmDisc.DolSumIsSum | src/GCM.cpp:391-398 | the DOL size is 0x100 plus the 18 section sizes, summed in 32 bits, and it can be read exactly when the section-size table lies within the disc |
| GcmDisc.ReadDolSize | src/GCM.cpp:391-398 | the loop over the section sizes computes `DolSum` |
| GcmDisc.ReadHeader | src/GCM.cpp:306-317 | the FST offset is the word at 0x424, and the entry count is the third word of the FST's root entry |
| GcmDisc.SysFiles | src/GCM.cpp:343-407 | the system files are five, boot.bin being the first 0x440 bytes and fst.bin the FST with its strings |
| GcmDisc.LoadImage | src/GCM.cpp:287-414 | a CISO or NKIT image is rejected and nothing else is; a loaded image lists "files" first with ID 0, and its system files include boot.bin |
| GcmDisc.ReadDirKeeps | src/GCM.cpp:235-284 | reading entries never changes the folders already listed, nor their names and IDs |
| GcmDisc.ReadDirTags | src/GCM.cpp:258-259 | every folder read has an ID and a parent ID that fit 32 bits |
| GcmDisc.ReadSys | src/GCM.cpp:343-407 | the reads of the system files compute `SysFiles` |
| GcmDisc.ReadImage | src/GCM.cpp:287-407 | the reads of `Load` compute `LoadImage`, and "files" comes first with ID and parent ID 0 |
| GcmDisc.PlanSave | src/GCM.cpp:163-189 | the FST is 12 bytes for the root plus `CalculateFstSize`; the DOL starts at the first multiple of 0x100 after the apploader, and the FST at the first one after the DOL |
| GcmDisc.WriteFst | src/GCM.cpp:191-207 | the entries written fill the FST buffer exactly and the names the string table exactly, and the image ends at a multiple of 2048 after its padding |
| GcmDisc.DirStrings | src/GCM.cpp:117-138 | the names written for a folder are its own name (none for the root) and every name below it, each with a NUL |
| GcmDisc.Put32Reads | src/GCM.cpp:211-217 | a patched word reads back as its value in 32 bits, and every other byte is kept |
| GcmDisc.PatchBootReads | src/GCM.cpp:209-218 | after the boot.bin patch, the DOL offset is at 0x420, the FST offset at 0x424 and the FST size with its strings at 0x428, and no other byte outside 0x420-0x42B changes |
| GcmTree.FindDiscFileNamed | src/GCM.cpp:18-47 | a file the disc lookup finds carries the last component's name |
| GcmTree.FindDiscFileSingle | src/GCM.cpp:22-34 | a one-component path finds the first file of that name |
| GcmTree.FindDiscFileCompose | src/GCM.cpp:36-46 | a deeper file is looked for only in the folder reached through the last subfolder of each name; files on the way are never mounted |
| GcmTree.ChildrenSpec | src/GCM.cpp:333-340 | the folders attached to a loaded folder are exactly those whose parent it is, in index order |
| GcmTree.ChildOfOne | src/GCM.cpp:333-340 | a loaded folder is attached below one folder only |
| GcmTree.LoadedSubs | src/GCM.cpp:333-340 | after `Load`, one loaded folder lies below another exactly when the second is the first folder whose ID is the first's parent ID, and it points back to it |
| GcmTree.Disc.NewImage | include/GCM.hpp:205-207 | a new image has no root; no other object changes |
| GcmTree.Disc.NewFile | include/GCM.hpp:51-53 | a new file has no name and no data; no other object changes |
| GcmTree.Disc.SetData | include/GCM.hpp:33-42 | the file's contents, size included, become exactly the bytes given; nothing else changes |
| GcmTree.Disc.SetFileName | include/GCM.hpp:45 | only the file's name changes |
| GcmTree.Disc.NewFolder | src/GCM.cpp:13-16 | a new folder of image `img` has no parent, no name, no contents, and ID and parent ID 0 |
| GcmTree.Disc.SetFolderName | include/GCM.hpp:84 | only the folder's name changes |
| GcmTree.Disc.SetID | include/GCM.hpp:95 | only the folder's ID changes |
| GcmTree.Disc.SetParentID | include/GCM.hpp:98 | only the folder's parent ID changes |
| GcmTree.Disc.AddFile | include/GCM.hpp:91 | the file goes at the end of the folder's list; nothing else changes |
| GcmTree.Disc.GetFileCount | include/GCM.hpp:104 | files plus subfolders, each cast to 16 bits and summed in 16 bits: the total modulo 2^16 |
| GcmTree.Disc.Attach | src/GCM.cpp:80-83 | the folder gets `d` as parent and goes at the end of `d`'s subfolders; nothing else changes |
| GcmTree.Disc.AddSubdirectory | src/GCM.cpp:76-84 | `d` gains exactly one last subfolder pointing back to it. From the same image that is `dir` itself, and only `dir`'s parent and `d`'s list change; otherwise it is a new copy with `dir`'s shape, and no other folder changes except by its parent |
| GcmTree.Disc.AddCopy | src/GCM.cpp:77-79 | a folder of another image is copied into `d`'s image and the copy, with `dir`'s shape, is attached |
| GcmTree.Disc.Copy | src/GCM.cpp:63-74 | the copy is a new folder of the target image with the shape of `src` at every depth; folders that existed keep their contents |
| GcmTree.Disc.CopySubdirs | src/GCM.cpp:66-68 | the copy receives one subfolder per subfolder of `src`, in order, each with the shape of the one it stands for |
| GcmTree.Disc.CopyFiles | src/GCM.cpp:70-72 | the copy shares the file objects of `src`, in order |
| GcmTree.Disc.SetParent | include/GCM.hpp:87 | the folder records `d` as its parent and `d` gains it as last subfolder, or a copy of it from another image while the original still names `d` as its parent |
| GcmTree.Disc.GetFolder | src/GCM.cpp:49-61 | the lookup returns `FindFolder`: the first subfolder named like the first component decides |
| GcmTree.Disc.GetFile | src/GCM.cpp:18-47 | the lookup returns `FindDiscFile` and changes nothing |
| GcmTree.Disc.FileLoop | src/GCM.cpp:22-34 | the file loop returns only for a one-component path, with the first file of that name |
| GcmTree.Disc.SubLoop | src/GCM.cpp:36-46 | the subfolder loop keeps the result of the last subfolder with the component's name |
| GcmTree.Disc.ImageGetFile | include/GCM.hpp:184-192 | a leading "/" is dropped and the lookup starts at the root |
| GcmTree.Disc.ImageGetFolder | include/GCM.hpp:194-202 | a leading "/" is dropped and the folder lookup starts at the root |
| GcmTree.Disc.Load | src/GCM.cpp:287-414 | `Load` succeeds exactly when `LoadImage` reads an image; on failure nothing changes; on success the root holds "sys" with the five system files and then "files", and each folder read keeps its IDs, name and files and is attached below its parent |
| GcmTree.Disc.Build | src/GCM.cpp:298-410 | the objects built from what was read are the root, "sys" and the folders read, linked as `Load` links them |
| GcmTree.Disc.MakeRoot | src/GCM.cpp:298-303 | "root" and "sys" are two new empty folders of the image, and the image's root is "root" |
| GcmTree.Disc.CreateLoaded | src/GCM.cpp:255-282 | one new folder per folder read, with its name, IDs and files, in order |
| GcmTree.Disc.LinkLoaded | src/GCM.cpp:333-340 | every loaded folder but "files" is attached below the first loaded folder whose ID is its parent ID |
| GcmTree.Disc.FindParent | src/GCM.cpp:334-338 | the inner loop finds `ParentOf`: the first folder whose ID is the parent ID, for every folder except those with ID 0 |
| GcmTree.Disc.Finish | src/GCM.cpp:343-411 | the system files go into "sys", then "sys" and "files" become the root's two subfolders |
| TextureColor.Gray | src/Bti.cpp:15-21 | the grey level lies between the smallest and the largest channel, and a grey pixel keeps its level |
| TextureColor.RGBA8toI4 | src/Bti.cpp:23-26 | the 4-bit intensity is the high nibble of the grey level |
| TextureColor.RGBA8toIA4 | src/Bti.cpp:28-34 | the high nibble holds alpha's high nibble and the low nibble the grey level's high nibble |
| TextureColor.RGBA8toI8 | src/Bti.cpp:36-39 | a grey pixel keeps its level |
| TextureColor.RGBA8toIA8 | src/Bti.cpp:41-47 | the two bytes, high first, are alpha and the grey level |
| TextureColor.RGBA8toRGB565 | src/Bti.cpp:49-55 | the word holds the top 5 bits of red, 6 of green and 5 of blue, in that order from the top |
| TextureColor.RGBA8toRGB5A3 | src/Bti.cpp:57-79 | the top bit is set exactly for an opaque pixel, which keeps 5 bits per colour; any other keeps 3 bits of alpha and 4 per colour |
| TextureColor.RGB565toRGBA8 | src/Bti.cpp:81-92 | the result is opaque, red comes from the `0xF100` mask and green from the next 6 bits |
| TextureColor.RGB5A3toRGBA8 | src/Bti.cpp:94-128 | with the top bit set, three 5-bit colours widened to 8 bits and alpha 255; otherwise 3 bits of alpha and three 4-bit colours, each widened |
| TextureColor.I4RoundTrip | src/Bti.cpp:23-26 | a widened 4-bit grey level encodes back to the same nibble |
| TextureColor.IA4RoundTrip | src/Bti.cpp:28-34 | a decoded IA4 pixel encodes back to the same byte |
| TextureColor.RGB565RoundTrip | src/Bti.cpp:49-92 | encoding to RGB565 and decoding keeps the top 4 bits of red, 6 of green and 5 of blue, and makes the pixel opaque |
| TextureColor.RGB565IgnoresRedLowBit | src/Bti.cpp:82 | the lowest of the five red bits does not reach the decoded pixel, because of the `0xF100` mask |
| TextureColor.RGB5A3RoundTrip | src/Bti.cpp:57-128 | a decoded RGB5A3 word encodes back to the same word |
| TextureColor.Palette | src/Bti.cpp:137-173 | colours 0 and 1 decode the two endpoints; colour 2 is 2:1 when `color0 > color1`, else the average; colour 3 is 1:2 |
| TextureColor.PaletteAlpha | src/Bti.cpp:152-173 | every palette colour is opaque, except colour 3 when `color0 <= color1` |
| TextureColor.DecodeCMPRSubBlock | src/Bti.cpp:130-190 | the 64 bytes are the 16 pixels in row order, pixel `i` being the palette colour the two bits at `30 - 2i` select, and the cursor advances by 8 |
| TextureTiles.IndexCoords | src/Bti.cpp:299-423 | the tile order's texel index of a pixel gives back its column and row |
| TextureTiles.CoordsIndex | src/Bti.cpp:299-423 | every texel index within the tiles is the index of one pixel |
| TextureTiles.IndexInjective | src/Bti.cpp:299-423 | two pixels never share a texel |
| TextureTiles.IndexBound | src/Bti.cpp:299-423 | the texel index of a pixel within the tiles lies below the number of texels |
| TextureTiles.CmprIndexInjective | src/Bti.cpp:205-223 | in the CMPR order of blocks, sub-blocks and pixels, two pixels never share a texel |
| TextureTiles.CmprIndexBound | src/Bti.cpp:205-223 | a CMPR texel index lies below the number of texels |
| TextureDecode.Decode84 | src/Bti.cpp:339-423 | I8, IA4 and IA8 decoding reads exactly the tiles' bytes, and each pixel inside the image gets its texel's colour while the rest keep their bytes |
| TextureDecode.DecodeI4 | src/Bti.cpp:299-337 | I4 decoding reads two texels per byte, high nibble first, over exactly the tiles' bytes, and each pixel inside the image gets its texel's colour |
| TextureDecode.Decode44 | src/Bti.cpp:233-297 | RGB565 and RGB5A3 decoding reads the whole 4x4 tiles only, and the pixels they cover get their texel's colour while the rest keep their bytes |
| TextureDecode.DecodeCMPR | src/Bti.cpp:197-231 | CMPR decoding reads 8 bytes per 4x4 sub-block over every block, and each pixel inside the image gets the palette colour of its sub-block |
| TextureDecode.DecodedPixel | src/Bti.cpp:197-423 | a decoded pixel inside the area decoded is its texel's colour, big-endian RGBA |
| TextureDecode.TexelIndexInjective | src/Bti.cpp:197-423 | in every format two pixels never read the same texel |
| TextureDecode.DecodedShift | src/Bti.cpp:844-910 | decoding at a cursor depends only on the bytes from the cursor on |
| TextureEncode.Encode84 | src/Bti.cpp:693-772 | the I8, IA4 and IA8 encoders emit one unit per pixel of the whole 8x4 tiles, in tile order: `Encoded` |
| TextureEncode.EncodeI4 | src/Bti.cpp:663-691 | the I4 encoder emits one byte per pair of pixels of the whole 8x8 tiles, left pixel in the high nibble: `Encoded` |
| TextureEncode.EncodeRGB565 | src/Bti.cpp:594-626 | the RGB565 encoder emits one big-endian word per pixel of the whole 4x4 tiles: `Encoded` |
| TextureEncode.EncodeRGB5A3 | src/Bti.cpp:628-661 | the RGB5A3 encoder emits one big-endian word per pixel of every 4x4 tile, edge tiles included: `Encoded` |
| TextureEncode.EmittedAt | src/Bti.cpp:594-772 | texel `t`'s unit sits at `t` times the unit size in the encoded stream |
| TextureEncode.RoundTrip | src/Bti.cpp:233-423 | on an image of whole tiles in any format but CMPR, decoding the encoding restores every pixel to `Restored`: the bits the format keeps |
| TextureEncode.RoundTripPixel | src/Bti.cpp:339-423 | `RoundTrip` for the formats with one unit per pixel |
| TextureEncode.RoundTripPair | src/Bti.cpp:299-337 | `RoundTrip` for I4, two pixels per byte |
| TextureEncode.GreyI8 | src/Bti.cpp:339-360 | a grey pixel keeps its level through I8 but gets it as alpha too |
| TextureEncode.IA8Swapped | src/Bti.cpp:41-47 | a black opaque pixel comes back through IA8 with level 3 and alpha 0 |
| BtiFile.FormatOf | src/Bti.cpp:870-906 | a format code is known exactly when it is 0 to 5 or 0x0E, and then it names that format |
| BtiFile.HeaderRoundTrip | src/Bti.cpp:788-862 | the 0x20 header bytes `Save` writes read back as the same fields and data offset wherever they sit |
| BtiFile.SaveOffset | src/Bti.cpp:812-815 | the data offset, `PadTo32` of the header's end, is a multiple of 32 no earlier than the header's end and less than 32 bytes after it |
| BtiFile.Bti.SetData | src/Bti.cpp:776-786 | the dimensions become the new ones, a buffer of `width * height * 4` bytes is reallocated and zeroed only when they change, and its start is the data given |
| BtiFile.Bti.Save | src/Bti.cpp:788-842 | the output is the old bytes, the header, zeros up to the data offset, then the pixels encoded in the header's format |
| BtiFile.Bti.Load | src/Bti.cpp:844-910 | the header is read at the cursor; loading succeeds exactly when width and height are non-zero, and then the buffer is the decoded pixels, else it is kept |
| BtiFile.SavedLayout | src/Bti.cpp:788-842 | the saved stream keeps the old bytes, holds the header at their end, zeros up to the 32-byte-aligned data offset and the pixel data from there on |
| BtiFile.SaveLoadRoundTrip | src/Bti.cpp:788-910 | loading what `Save` wrote restores the header, and every pixel comes back as `Restored` of the original |
| BtiFile.TplMagicOk | src/Bti.cpp:997-1003 | a TPL is read on only when it starts with the bytes 00 20 AF 30 |

## Left out

- The bStream stream classes, files on disk and `std::filesystem` are not modelled. A stream is a byte sequence with a cursor, and a path is a sequence of name components.
- Memory ownership is not modelled: `shared_ptr`/`weak_ptr`, `enable_shared_from_this`, and `delete` versus `delete[]`. Objects live in index arenas, and nothing is ever freed.
- Floating point is not modelled: the CMPR encoder (src/Bti.cpp:429-592) and `TplImage::Load`. `Bti::Save` never calls the CMPR encoder, because that call is commented out.
- `Tpl::Load` is modelled only as its magic check (`BtiFile.TplMagicOk`). The TPL image table is not part of this model.
- `Rarc::SaveToFile` is not modelled. It repeats `Save` with a file as the sink.
- `Image::SaveToFile` is modelled only as its layout: the offsets, the FST and string-table bytes, the boot.bin patch and the final padding. The writes of the apploader, DOL and bi2.bin data, and the `GetFile("sys/...")` lookups that find them, are not modelled; their sizes are parameters.
- `Yaz0::Compress` is an empty stub. `RarcSave.Save` with Yaz0 therefore gives the empty output, padded when asked. No Yaz0 encoder exists, and no Yaz0 round trip is claimed.
- The Yay0 decoder's `offset`/`length` path is not modelled. It returns before writing any output. Only `offset = 0, length = 0` is modelled, as `Rarc::Load` uses it.
- The Yay0 encoder's `swap16`/`swap32` host-order conversions are not modelled. The buffers hold big-endian values.
- LzEncode.Yay0CompressInto and LzEncode.Yay0EncodeBuffers require `|src| < 2^31`, and LzEncode.Yay0CompressLayout requires `|src| < 2^30`. The source takes any size and lets its `uint32_t` cursors and buffer sizes wrap, which the model does not capture.
- LzEncode.Yay0Compress: the corrected encoder has no general decode-after-encode lemma. The model proves three things about it:
  - its tokens expand back to the input (`TokensExpand`);
  - every token is encodable (`TokensValid`);
  - the stream is laid out as its header says (`Yay0CompressLayout`).
  It also proves that the one-byte input "A" decodes back.
- RarcSave.Save requires `Fits(flat)`: every size `CalculateArchiveSizes` computes, and the image, must fit 32 bits. The source computes them in `uint32_t` without a check and would write a wrapped layout, which the model does not capture.
- RarcInverse.LoadInvertsSave covers big-endian archives only. A little-endian archive writes the attribute and name offset of an entry as a byte, a byte and a 16-bit half-word (src/Archive.cpp:457-461). `Load` reads that word back as one little-endian 32-bit word (src/Archive.cpp:670-672), so the round trip does not hold.
- RarcInverse.LoadInvertsSave requires `Loadable(flat)`:
  - the image fits 32 bits;
  - the string table fits the 16-bit name offsets;
  - names hold no NUL byte;
  - each directory has fewer than 2^16 - 2 entries;
  - every subfolder link names a folder of the list, carries that folder's name, and is not "." or "..".
  Outside these conditions the source's layout truncates or its reader stops early, and no inverse is claimed.
- RarcLoad.LoadSpec gives the outcome `Corrupt` in four cases where `Rarc::Load` (src/Archive.cpp:583-715) returns true:
  - a read runs past the end of the stream;
  - a file's data lies past the end of the stream;
  - a subfolder entry names a directory index at or beyond the directory count, which src/Archive.cpp:705-708 uses to index `mDirectories` out of range;
  - the Yaz0 or Yay0 decoder fails (`RarcLoad.Unwrap` gives nothing).
  The source reads on with whatever the stream yields, which the model does not capture.
- RarcLoad.Load returns false on `Corrupt`, where `Rarc::Load` returns true.
- RarcLoad.ReadDirs gives nothing on a read past the end and on a subfolder index out of range, which makes `LoadSpec` give `Corrupt`.
- RarcLoad.Unwrap gives nothing when the Yaz0 or Yay0 decoder fails, which makes `LoadSpec` give `Corrupt`.
- RarcTree.Heap.LoadInto returns false on `Corrupt` and then changes nothing. It also requires that the archive has no directories yet. That holds at its only caller, `MountAsArchive`, which loads into a new archive, but `Rarc::Load` itself does not ask it.
- RarcTree.Heap.MountAsArchive fails on `Corrupt`, where the source mounts what it read.
- LzEncode.Yay0CompressAsWritten gives `Err(Uninitialised)` when the link section (`2 * linkPtr` bytes) or the chunk section (`chunkPtr` bytes) is longer than the mask words stored. For nearly every real input the chunk section is. The source then copies bytes of `maskBuffer` that were never stored, or lie past its allocation of `(size + 32) >> 5` words (src/Compression.cpp:192, 206, 290). Their values are not defined, so the model gives no stream there.
- RarcSave.Save with Yay0 compression gives the same `Err(Uninitialised)` as `LzEncode.Yay0CompressAsWritten`, so for nearly every archive it gives no Yay0 stream.
- RarcTree.Heap.RarcGetFile and RarcTree.Heap.RarcGetFolder return nothing for an archive with no directories. The source dereferences `mDirectories[0]` there, which is undefined behaviour. The same holds for `RarcPaths.ArchiveFile` and `RarcPaths.ArchiveFolder`.
- RarcTree.Heap.GetFolder returns nothing for an empty path. The source dereferences `path.begin()` of an empty path when the folder has subfolders. `GcmTree.Disc.GetFolder` behaves the same way.
- RarcTree.Heap.AddSubdirectory requires, when `dir` belongs to another archive, a rank map (`RarcObjects.Ranked`) over the folders the copy descends through: `dir` and, below it, every subfolder that belongs to an archive other than `d`'s. Such a rank exists whenever those folders form no cycle. With a cycle among them, `Folder::Copy` and `AddSubdirectory` call each other without end (src/Archive.cpp:74-91), and the model does not capture that case. Folders the copy does not reach are not constrained (`RarcObjects.RankedDespiteCycle`).
- RarcTree.Heap.AddCopy, RarcTree.Heap.Copy and RarcTree.Heap.CopySubdirs require the same rank for the folder they copy.
- RarcTree.Heap.SetRoot requires the same rank for an old root of another archive.
- GcmTree.Disc.AddSubdirectory requires the same rank when `dir` belongs to another image (src/GCM.cpp:63-84).
- GcmTree.Disc.AddCopy, GcmTree.Disc.Copy and GcmTree.Disc.CopySubdirs require the same rank for the folder they copy.
- GcmTree.Disc.SetParent requires the same rank when `dir` belongs to another image.
- AddSubdirectory (`RarcTree.Heap.AddSubdirectory`) does not state the order in which copied folders join the archive's `mDirectories`. For a folder of another archive, it states that every folder created is registered in the list, the list only grows, and nothing outside the archive changes.
- RarcTree.Heap.MountAsArchive loads the file's bytes as `Rarc::Load` loads a big-endian stream, whose magic then selects the byte order. The source opens the stream in the byte order of the file's owning archive (src/Archive.cpp:111), but no code in src/Archive.cpp sets `File::mArchive`, so that lookup has no archive to ask.
- GcmDisc.LoadImage has an `Unreadable` outcome, and `GcmFstLoad.ReadDir` returns `None`, when a read runs past the end of the disc. The source reads on unchecked, with whatever the stream yields, and `GcmTree.Disc.Load` then returns false, which the source never does for that reason.
- GcmDisc.PlanSave and GcmDisc.WriteFst require the offsets and the image to fit 32 bits, and the entry count to stay below `0xFFFFFFFF`. The source's `size_t` arithmetic and `uint32_t` FST words would wrap there.
- GcmFstRoundTrip.FstRoundTrip requires names without NUL bytes and a string table within the 24-bit name offsets. Other names do not read back whole.
- The multi-character literals `'CISO'` and `'NKIT'` are implementation-defined in C++. They are modelled as the big-endian words of their four characters.
- BtiFile.Bti.Load requires `Fits(s, pos)`: the header, and the pixel data at the offset it names, must lie within the stream. The source reads past the end of the stream unchecked.
- TextureDecode.Decode84, TextureDecode.DecodeI4, TextureDecode.Decode44 and TextureDecode.DecodeCMPR require `pos + InputSize(f, w, h) <= |s|`. The source reads past the end of the stream unchecked.
- TextureColor.DecodeCMPRSubBlock requires `pos + 8 <= |s|`. The source reads past the end of the stream unchecked.
- BtiFile.SaveOffset and BtiFile.Bti.Save require `start + 0x3F < 2^32`. Near the top of the 32-bit range, the source's `PadTo32` wraps to a small data offset, which the model does not capture.
- TextureEncode.RoundTrip holds only for images made of whole tiles. The encoders of I4, I8, IA4, IA8 and RGB565 skip the partial tiles at the right and bottom edges, so those pixels cannot come back.

## Findings

| source | as written | input that shows it | evidently intended | confidence | as-written member | corrected member |
|---|---|---|---|---|---|---|
| src/Compression.cpp:87-94 | `Yay0::Decompress` seeks to offset 4 to read the size word, and then fills `src` from the cursor, now at offset 8, without seeking back to 0. `src` then holds the stream from offset 8 on, so every header word and section offset the decoder reads from `src` lies 8 bytes further into the stream than intended. | a "Yay0" stream of one literal "A": size 1, link offset 0x14, chunk offset 0x14, mask word 0x80000000, chunk byte "A". The decoder as written fails on it (`LzDecode.Yay0DecompressSeekMissing`). | seek to 0 before reading `src`, as the Yaz0 decoder does at line 21, so that the stream decodes to "A" | not executed | LzDecode.Yay0DecompressAsWritten | LzDecode.Yay0Decompress |
| src/Compression.cpp:286-290 | `Yay0::Compress` writes `maskBuffer` again where the link section and the chunk section belong. The link words and chunk bytes never reach the output. | the one-byte input "A": the stream as written holds the mask byte 0x80 in its chunk section (`LzEncode.Yay0CompressReusesMask`) and decodes to [0x80] (`LzEncode.OneLiteralAsWrittenDecodes`) | write `linkBuffer` and `chunkBuffer` to their sections, so that "A" decodes back to "A" (`LzEncode.Yay0CompressOneLiteral`) | not executed | LzEncode.Yay0CompressAsWritten | LzEncode.Yay0Compress |

`RarcSave.Save` keeps the encoder as written, and `RarcLoad.LoadSpec` the decoder as written, because those are what `Rarc::Save` and `Rarc::Load` call.
