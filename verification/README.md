# A model of the emulator host's libraries and state code

The repository is a pair of 8-bit computer emulators (Apple II and Commodore 64) with their host side. This
project models the parts of it with closed, hard semantics, in Dafny 4.11, and proves what they are for:

- **The stb_ds hash map** (`Powers`, `Probe`, `HashPlacement`, `HashIndexes`, `HashMaps`, `HashRuns`,
  `HashLaws`). An
  open-addressing index of 8-slot buckets with triangular probing and tombstones beside a dense array with
  swap-delete. Over every run and for every hash function it answers like a finite map, every probe loop ends,
  and all index rebuilds together cost at most 23 slot visits per put or delete.
- **The zlib decoder of stb_image** (`Bits`, `BitStream`, `Canonical`, `HuffmanTable`, `InflateSpec`,
  `BitReader`, `ZOutputs`, `Inflate`, `DeflateEncode`, `DeflateTables`, `DeflateStream`). The specification reads RFC 1951 off an
  endless bit stream. The program's bit buffer, 9-bit reversed fast table, slow path, run-length header reader,
  overlapping copies and growing output buffer are proved to compute exactly that, and whole streams of stored,
  fixed and dynamic blocks, with any legal zlib header and any trailer, are decoded to what they stand for.
- **PNG reconstruction** (`PngFilter`, `PngFilterLaws`, `PngSamples`, `PngRows`, `PngRowLaws`, `Adam7`,
  `PngImage`, `PngInterlace`, `PngFile`).
  Row filters, the two row buffers, samples of every depth, the alpha channel, Adam7 interlacing into flat output
  and the size tests, up to: any image, any filters, any zlib encoding, loads back pixel by pixel, exactly when
  its sizes fit.
- **The tiny-regex-c matcher and compiler** (`Regex`, `RegexCompile`, `RegexLaws`). Matching is sound, complete, leftmost and
  greedy with respect to a semantics in which a match is a list of repetition counts.
- **Disk queues and slot cards** (`DiskSpec`, `DiskLaws`, `DiskOptions`), **paths and lists in the INI file** (`Paths`,
  `PathLaws`, `Blanks`, `MediaLists`, `MediaLaws`, `SavedMedia`), **the HOST trailer of snapshots** (`HostTrailer`) and **the INI parser**
  (`IniStream`, `IniParse`, `IniLaws`).

Reading order: each component starts with a specification (a value, a stream, a set of matches, a step
function), then the code in the source's own form (classes with fields and arrays, loops, or plain functions)
proved against it, then the theorems about the specification. Modules whose names end in `Laws` or `Tables` say
what the tables, character sets and constants are that specification and code share.

Conventions. A hash is any function of key and seed. C strings are sequences without NUL. Allocation succeeds.
`realpath` is lexical normalisation of a path all of whose places exist; the existing paths are a set that holds
the root and with every path its parent. A handler's answer may depend on all calls so far. Integers are unbounded except where the source's width matters: 32-bit lengths
in the HOST reader, bytes, the 2 GiB output limit, table sizes.

Where the code does not do what its comments or design promise, the code is modelled and the exact condition is
proved:

- The HOST reader truncates the room behind a chunk to 32 bits and wants a file of at least 32 bytes. What was
  appended is read back exactly when the sizes pass those tests (`AppendThenRead`), which all files from 32 bytes
  to below 4 GiB do; `HugeUnread` and `ShortHeaderUnread` are files where it is not.
- A stored path resolves to itself exactly when it and the INI directory exist or it lies below that directory;
  otherwise it comes back with its `..` components, still meaning the same path (`ResolvesBack`, and
  `MissingFileRespelled` for a failing input). A path with a backslash never comes back, because separators are
  rewritten on every platform (`BackslashLost`).
- A written list of paths is read back exactly when every path in it is non-empty, has no comma, no outer
  blank, no leading quote and fits the buffer (`ListRoundTrip`, in both directions; `CommaSplits` fails).
- The zlib header test skips the window size, so headers that RFC 1950 forbids are accepted
  (`LargeWindowAccepted`); an accepted header is legal exactly when its window is (`ParseZlibHeader`).
- Dynamic blocks may announce 287 or 288 literal and length codes, which section 3.2.7 of RFC 1951 forbids
  (`TooManyLiteralsAccepted`, with the exact condition in `CountsWithinRfc`).
- An image that passes the IHDR size test can still be refused for the size of what is stored (`AlphaRefused`);
  `LoadPlain` and `LoadInterlaced` succeed exactly when the sizes fit an int.
- `re_compile` ends every bracket in the class buffer without a bounds test. It writes past the buffer exactly when
  it meets a bracket with the buffer full (`InsideUntilFull`, `ThreeBracketsOverrun`).

## Model

| member | source | states |
|---|---|---|
| `Probe.OffsetsDistinct` | external/stb/stb_ds.h:1246-1277 | no two of the first 2^p probe rounds start in the same bucket of 2^p buckets |
| `Probe.SlotReached` | external/stb/stb_ds.h:863-872 | the first slot_count probes from any hash look at every slot, so a probe loop with a free slot ends |
| `HashPlacement.FullScanImpossible` | external/stb/stb_ds.h:976-1002 | with one empty slot left, no probe path is occupied for slot_count looks |
| `HashPlacement.InsertKeepsPlaced` | external/stb/stb_ds.h:1429-1456 | writing an entry into a free slot reached by its probe keeps in-use slots and entries in one-to-one, reachable correspondence |
| `HashPlacement.RemoveKeepsPlaced` | external/stb/stb_ds.h:1494-1500 | so does turning an entry's slot into a tombstone |
| `HashPlacement.RenameKeepsPlaced` | external/stb/stb_ds.h:1506-1521 | so does pointing the last entry's slot at the deleted entry's number |
| `HashIndexes.HashIndex.Rehash` | external/stb/stb_ds.h:966-1005 | the copy-out probe ends and places the entry at the first empty slot of its path |
| `HashIndexes.MakeHashIndex` | external/stb/stb_ds.h:884-1011 | the new index holds exactly the old one's entries, reusing stored hashes, without tombstones, and visits both slot counts once |
| `HashMaps.HashMap.FindSlot` | external/stb/stb_ds.h:1232-1279 | lookup ends and finds the key's slot, or none if no placed entry has the key, also in the middle of a deletion |
| `HashMaps.HashMap.GetIndex` | external/stb/stb_ds.h:1281-1310 | the index of the key in the dense array, or -1 |
| `HashMaps.HashMap.ProbeForPut` | external/stb/stb_ds.h:1371-1433 | the put probe finds the key, or the first free slot of its path: the first tombstone if one comes before the first empty slot, else that slot |
| `HashMaps.HashMap.Put` | external/stb/stb_ds.h:1337-1459 | the entry is replaced in place or appended, growth included; the amortised charge rises by at most 23 |
| `HashMaps.HashMap.MoveLast` | external/stb/stb_ds.h:1505-1521 | the relocation lookup lands on the slot of the last entry, which is redirected |
| `HashMaps.HashMap.Delete` | external/stb/stb_ds.h:1472-1538 | swap-delete of the key's entry or no change, shrink and tombstone rebuild included; the charge rises by at most 23 |
| `HashMaps.RoomLeft` | external/stb/stb_ds.h:903-935 | within the thresholds used plus tombstones is below slot_count |
| `HashLaws.ThresholdsAre` | external/stb/stb_ds.h:903-935 | grow at three quarters, shrink below one quarter, rebuild above three sixteenths; 6, 0 and 1 for one bucket |
| `HashLaws.StoredHashIs` | external/stb/stb_ds.h:1373-1381 | hashes 0 and 1 are stored as 2 and 3, all others as they are |
| `HashMaps.GrowStep` | external/stb/stb_ds.h:1357-1369 | the potential saved up pays for growing to twice the slots |
| `HashMaps.ShrinkStep` | external/stb/stb_ds.h:1523-1526 | it pays for shrinking to half the slots |
| `HashMaps.RebuildStep` | external/stb/stb_ds.h:1527-1531 | it pays for a rebuild that only clears tombstones |
| `HashRuns.GetRefines` | external/stb/stb_ds.h:1281-1310 | an index in the dense array means membership in the finite map, with its value |
| `HashRuns.PutRefines` | external/stb/stb_ds.h:1337-1459 | put on the dense array is update of the finite map |
| `HashRuns.DeleteRefines` | external/stb/stb_ds.h:1472-1538 | swap-delete on the dense array is removal from the finite map |
| `HashRuns.Run` | external/stb/stb_ds.h:318-323 | any run from an empty map with any hash gives the finite map's replies and contents, and rebuild work at most 23 per put or delete |
| `Bits.BitReverse16IsRev` | external/stb/stb_image.h:4107-4114 | the four mask exchanges reverse 16 bits |
| `Bits.BitReverseIsRev` | external/stb/stb_image.h:4116-4122 | the shifted result reverses any number of bits up to 16 |
| `Canonical.PrefixFree` | external/stb/stb_image.h:4139-4151 | canonical codes of section 3.2.2 of RFC 1951 are prefix free, for every length list |
| `Canonical.FitsIsKraft` | external/stb/stb_image.h:4136-4146 | the builder's tests all pass exactly when the Kraft sum is at most one |
| `HuffmanTable.ZHuffman.Build` | external/stb/stb_image.h:4124-4169 | accepts exactly the length lists with Kraft sum at most one, and then fast table, ranges and sorted symbols represent the canonical code |
| `BitReader.ZInput.FillBits` | external/stb/stb_image.h:4202-4212 | the bit buffer stays the unread part of the zero-extended input and the early-exit guard is dead |
| `BitReader.ZInput.Receive` | external/stb/stb_image.h:4214-4222 | the next n bits of the stream, first bit least significant |
| `BitReader.ZInput.DecodeSlow` | external/stb/stb_image.h:4224-4241 | the canonical symbol and its length consumed, or -1 exactly when no code is a prefix; the size check never fires |
| `BitReader.ZInput.Decode` | external/stb/stb_image.h:4243-4271 | fast table and slow path together return the spelled symbol and consume its length; with sixteen buffered bits, or before the padding is used up, -1 exactly when no code is a prefix |
| `BitReader.ZInput.ReadHeader` | external/stb/stb_image.h:4409-4427 | at any alignment the whole bytes still buffered, at most three, are drained, and the four header bytes are those after the boundary |
| `ZOutputs.CopyBackPeriodic` | external/stb/stb_image.h:4346-4353 | an overlapping copy repeats the last `dist` bytes |
| `ZOutputs.ZOutput.Expand` | external/stb/stb_image.h:4273-4293 | room for n bytes with the contents kept, or failure, exactly beyond what doubling the first size can reach |
| `ZOutputs.ZOutput.CopyMatch` | external/stb/stb_image.h:4344-4354 | the general copy and the dist==1 shortcut both write the LZ77 copy; failure exactly beyond the limit |
| `Inflate.ReadToken` | external/stb/stb_image.h:4309-4343 | one token of section 3.2.5 of RFC 1951, extra bits included |
| `Inflate.ParseHuffmanBlock` | external/stb/stb_image.h:4309-4357 | exactly the LZ77 expansion of the block across any number of buffer moves |
| `Inflate.ReadCodeLengths` | external/stb/stb_image.h:4379-4402 | exactly the run-length expansion of section 3.2.7 of RFC 1951, landing on ntot, across the alphabet boundary, inside the array |
| `Inflate.ComputeHuffmanCodes` | external/stb/stb_image.h:4359-4407 | the two code length lists of a dynamic block, and tables that represent them |
| `Inflate.ParseUncompressedBlock` | external/stb/stb_image.h:4409-4436 | a stored block at any bit alignment appends exactly its LEN bytes |
| `Inflate.ParseZlibHeader` | external/stb/stb_image.h:4438-4450 | every header of section 2.2 of RFC 1950 without preset dictionary is accepted when data follows, and what is accepted is such a header exactly when its window size is legal |
| `Inflate.LargeWindowAccepted` | external/stb/stb_image.h:4438-4450 | a header with an illegal 64K window that is accepted |
| `Inflate.CommonHeaders` | external/stb/stb_image.h:4438-4450 | the headers 78 01, 78 9C and 78 DA are legal |
| `Inflate.ParseBlocks` | external/stb/stb_image.h:4481-4508 | the block loop computes the meaning of the whole stream |
| `Inflate.DoZlib` | external/stb/stb_image.h:4510-4518 | success is exactly what the stream says; failure means it says nothing, needs bits past the data, or is longer than the buffer can grow |
| `DeflateEncode.TokenReadBack` | external/stb/stb_image.h:4309-4343 | a packed literal or match reads back as itself, for all usable codes |
| `DeflateEncode.BlockReadBack` | external/stb/stb_image.h:4309-4357 | a packed token list decodes to its expansion and ends where its bits end |
| `DeflateEncode.RunsReadBack` | external/stb/stb_image.h:4379-4402 | packed runs read back as their expansion |
| `DeflateEncode.FixedCodesUsable` | external/stb/stb_image.h:4452-4467 | the fixed code lengths satisfy the Kraft inequality |
| `DeflateTables.LengthExtraIs` | external/stb/stb_image.h:4300-4301 | four length symbols for each number of extra bits from 1 to 5, none for the short ones and the longest |
| `DeflateTables.LengthBaseIs` | external/stb/stb_image.h:4295-4298 | each length symbol takes up where the one before it ends, from 3; the last one is 258 alone |
| `DeflateTables.LengthHasSymbol` | external/stb/stb_image.h:4295-4301 | every length from 3 to 258 has a symbol and extra bits that mean it |
| `DeflateTables.LengthUnique` | external/stb/stb_image.h:4295-4301 | below 258 only one |
| `DeflateTables.DistExtraIs` | external/stb/stb_image.h:4306-4307 | two distance symbols for each number of extra bits from 1 to 13 |
| `DeflateTables.DistBaseIs` | external/stb/stb_image.h:4303-4304 | each distance symbol takes up where the one before it ends, from 1 |
| `DeflateTables.DistanceHasSymbol` | external/stb/stb_image.h:4303-4307 | every distance from 1 to 32768 has a symbol and extra bits that mean it |
| `DeflateTables.DistanceUnique` | external/stb/stb_image.h:4303-4307 | and only one |
| `DeflateTables.MatchHasToken` | external/stb/stb_image.h:4309-4343 | every match of DEFLATE can be written under the fixed codes and means itself |
| `DeflateTables.FixedLengths` | external/stb/stb_image.h:4452-4467 | the fixed lengths are 8, 9, 7 and 8 up to 143, 255, 279 and 287, and 5 for distances |
| `DeflateTables.FixedCodesStart` | external/stb/stb_image.h:4452-4467 | the four groups of fixed codes start at 00110000, 110010000, 0000000 and 11000000 |
| `DeflateTables.DezigzagIs` | external/stb/stb_image.h:4361 | the order of section 3.2.7 of RFC 1951: repeat codes, 0, then from 8 outwards |
| `DeflateStream.StoredReadBack` | external/stb/stb_image.h:4409-4436 | a stored block written at any bit position reads back as its bytes, whatever bits pad it to the boundary |
| `DeflateStream.DynamicReadBack` | external/stb/stb_image.h:4359-4407 | a written dynamic header reads back as its two length lists |
| `DeflateStream.CountsWithinRfc` | external/stb/stb_image.h:4359-4370 | an accepted dynamic header is within section 3.2.7 of RFC 1951 exactly when it announces at most 286 literal and length codes |
| `DeflateStream.TooManyLiteralsAccepted` | external/stb/stb_image.h:4359-4407 | a header with 288 of them that is accepted |
| `DeflateStream.StreamReadBack` | external/stb/stb_image.h:4481-4508 | any data that carries good blocks from some bit on decodes to their combined output and stops where they end |
| `DeflateStream.ZlibRoundTrip` | external/stb/stb_image.h:4481-4518 | every raw stream, and every zlib stream with any legal header and anything behind its blocks, decodes to what the blocks stand for, within the data |
| `DeflateStream.StreamCarried` | external/stb/stb_image.h:4481-4518 | packed blocks between any legal header and any trailer, such as the Adler-32, are such a stream |
| `DeflateStream.DecodeStream` | external/stb/stb_image.h:4541-4555 | the program's decoder undoes every such encoder, in a buffer that can grow far enough |
| `PngFilter.PaethIsSpec` | external/stb/stb_image.h:4657-4668 | the branch-free predictor equals the specification's Paeth predictor on all integers |
| `PngFilter.HeadIsPredictor` | external/stb/stb_image.h:4648-4655 | in a row's first pixel the rewritten filters add what the type says with nothing to the left |
| `PngFilter.TailIsPredictor` | external/stb/stb_image.h:4752-4785 | elsewhere too; in the first row the row above counts as zero and is not read |
| `PngFilterLaws.AverageIs` | external/stb/stb_image.h:4768-4773 | filter type 3 predicts the average of left and above rounded down, with no carry lost |
| `PngFilterLaws.PaethIsNearest` | external/stb/stb_image.h:4657-4668 | the Paeth predictor is the nearest of the three bytes, ties to left, then above |
| `PngFilterLaws.ReconIs` | external/stb/stb_image.h:4755-4785 | what each of the five types makes of a byte, modulo 256, from the finished row and the row above |
| `PngFilter.ReconOfFilter` | external/stb/stb_image.h:4737-4787 | reconstruction inverts filtering of a row for all five types |
| `PngFilter.DecodeOfEncode` | external/stb/stb_image.h:4696-4787 | it inverts filtering of an image for every per-row choice of types |
| `PngFilter.ReconImage` | external/stb/stb_image.h:4696-4787 | the row loop with two alternating buffers computes that reconstruction, and fails exactly on short data or a bad type |
| `PngSamples.UnpackedBack` | external/stb/stb_image.h:4789-4854 | unpacking undoes the packing of section 7.2 of the PNG specification for 1, 2, 4, 8 and 16 bits |
| `PngRows.AlphaExpand` | external/stb/stb_image.h:4675-4693 | 255 after every pixel, also when source and destination are the same array |
| `PngRows.ExpandBits` | external/stb/stb_image.h:4790-4817 | the bit loops store every sample of the row, scaled |
| `PngRows.ExpandWide` | external/stb/stb_image.h:4828-4851 | the 16-bit loops store every sample, alpha interleaved if wanted |
| `PngRows.DestRow` | external/stb/stb_image.h:4789-4853 | a reconstructed row becomes its stored samples, for every depth |
| `PngRows.OutRowOfPixels` | external/stb/stb_image.h:4789-4853 | storing a packed row is storing its pixels one by one |
| `PngRowLaws.RowBytesAre` | external/stb/stb_image.h:4718 | a row takes the fewest bytes that hold its bits |
| `PngRowLaws.FilterBytesAre` | external/stb/stb_image.h:4708-4734 | filters look back by the whole bytes of a pixel, but at least by one |
| `PngRowLaws.SamplesAre` | external/stb/stb_image.h:4797-4817 | samples have two to the depth values and fill a byte |
| `PngRowLaws.ChannelsAre` | external/stb/stb_image.h:4698-4708 | alpha adds a channel, and only 16-bit samples take two bytes |
| `PngRowLaws.ScaleIs` | external/stb/stb_image.h:4670 | the largest gray sample of a low depth is stored as 255, others unscaled |
| `PngRowLaws.TopIs` | external/stb/stb_image.h:4818-4851 | full alpha is the largest value of a stored sample |
| `PngImage.CreateImageRaw` | external/stb/stb_image.h:4696-4859 | the stored rows of an image of any depth one behind the other at their stride, or failure: exactly on a size test, short data or a bad filter |
| `PngInterlace.PlainRoundTrip` | external/stb/stb_image.h:4696-4859 | every filtered image that passes the size tests comes back row by row, whatever follows it |
| `Adam7.LandsOn` | external/stb/stb_image.h:4889-4895 | pass pixel (i, j) is written to (x, y) exactly when p is the pass of (x, y) and i, j its place there |
| `Adam7.ColumnInside` | external/stb/stb_image.h:4880-4881 | a pass column exists exactly when its pixel is inside the image |
| `Adam7.RowInside` | external/stb/stb_image.h:4880-4881 | a pass row exists exactly when its pixel is inside the image |
| `Adam7.PassSizesSum` | external/stb/stb_image.h:4874-4881 | the seven pass sizes add up to width times height |
| `PngImage.DoneStep` | external/stb/stb_image.h:4888-4895 | each copied pixel is one that was not written before |
| `PngImage.CopyPixel` | external/stb/stb_image.h:4890-4893 | one copied pixel changes its own place in the flat output and no other pixel's |
| `PngImage.Scatter` | external/stb/stb_image.h:4888-4895 | the copy loops write exactly the pass's pixels at their byte places, in bounds, and leave the others |
| `PngImage.OnePass` | external/stb/stb_image.h:4873-4899 | one pass shows its pixels and advances the input by exactly its bytes, for every depth |
| `PngImage.CreateInterlaced` | external/stb/stb_image.h:4870-4904 | after seven passes every pixel of the flat output shows what its pass says; failure exactly on the size test or a failed pass |
| `PngInterlace.InterlaceRoundTrip` | external/stb/stb_image.h:4870-4904 | decoding an interlaced image gives every pixel back as it is to be stored |
| `PngFile.RoomIs` | external/stb/stb_image.h:4712-4728 | for what passes IHDR the size tests mean that the stored bytes, and the rows with one more, fit an int |
| `PngFile.RawLengthIs` | external/stb/stb_image.h:5205-5206 | the guess is whole bytes for every row of every channel, and a filter byte for every row |
| `PngFile.PassesHaveRoom` | external/stb/stb_image.h:4882-4887 | no pass is refused when the stored image fits |
| `PngFile.EightBitsFit` | external/stb/stb_image.h:5109-5121 | up to 8 bits an image that passes IHDR is refused exactly when its stored bytes exceed an int |
| `PngFile.AlphaRefused` | external/stb/stb_image.h:4712-4713 | 2^30 gray pixels pass IHDR and are decoded, but refused when alpha is wanted |
| `PngFile.InterlaceFits` | external/stb/stb_image.h:5199-5208 | interlaced data never exceeds what the output buffer grows to from the guess |
| `PngFile.LoadInterlaced` | external/stb/stb_image.h:5199-5214 | any image, depth and filters, in any zlib stream with any legal header and trailer: inflate and de-interlacing give the stored pixels, exactly when the sizes fit an int |
| `PngFile.LoadPlain` | external/stb/stb_image.h:5199-5214 | the same without interlacing |
| `Regex.MatchCharClass` | external/tiny-regex-c/re.c:52-75 | membership in one of the class's escapes, ranges and characters |
| `Regex.MatchOne` | external/tiny-regex-c/re.c:77-92 | the characters an object stands for |
| `RegexLaws.AcceptsAre` | external/tiny-regex-c/re.c:77-92 | the ten digits, the word characters with the underscore, the six white space characters, their complements, and the rest of the objects |
| `RegexLaws.ItemsAre` | external/tiny-regex-c/re.c:52-75 | the characters of every escape, range and single entry of a class |
| `Regex.MatchRepeat` | external/tiny-regex-c/re.c:94-123 | the best match by greedy priority, or none exists; `*ml` right despite failed branches |
| `Regex.MatchQuestion` | external/tiny-regex-c/re.c:125-134 | the same for an optional atom |
| `Regex.MatchPattern` | external/tiny-regex-c/re.c:136-159 | the same for the rest of any pattern |
| `RegexLaws.ModifiersAre` | external/tiny-regex-c/re.c:136-159 | how often each modifier lets its atom repeat, and where the next atom stands |
| `Regex.BestIsUnique` | external/tiny-regex-c/re.c:94-159 | there is one best match, hence one length to report |
| `Regex.Search` | external/tiny-regex-c/re.c:240-259 | the least start with a match or -1 exactly when there is none, and the length greedy priority prefers |
| `RegexCompile.ReCompile` | external/tiny-regex-c/re.c:165-238 | what any pattern compiles to and which bytes go to the class buffer; a pattern that fits compiles to the objects it stands for; the class buffer is overrun exactly when a bracket is met with it full |
| `RegexLaws.PlainAre` | external/tiny-regex-c/re.c:177-183 | six special characters outside brackets; every other one stands for itself |
| `RegexLaws.EscapesAre` | external/tiny-regex-c/re.c:185-200 | six escapes for sets; every other escaped character stands for itself |
| `RegexLaws.ObjectLimit` | external/tiny-regex-c/re.c:176 | at most 63 objects are compiled |
| `RegexCompile.FittingIsUncut` | external/tiny-regex-c/re.c:165-238 | where neither array is exhausted nothing of the pattern is cut |
| `RegexCompile.InsideUntilFull` | external/tiny-regex-c/re.c:213-222 | the class bytes stay inside the buffer exactly as long as no bracket is met with 64 bytes written |
| `RegexCompile.ThreeBracketsOverrun` | external/tiny-regex-c/re.c:222 | a pattern of three brackets that writes byte 65 of the 64, and one of two that just fits |
| `RegexCompile.RoundTrip` | external/tiny-regex-c/re.c:165-238 | compiling the printed form of any printable object list gives the list back |
| `HostTrailer.WriteLe32` | src/apple2/main.c:1565-1571 | four bytes, low byte first, the others untouched |
| `HostTrailer.Le32Back` | src/apple2/main.c:1557-1571 | reading a written word gives it back at any place |
| `HostTrailer.Chosen` | src/apple2/main.c:1595-1607 | what is saved is always usable: the live joystick's state, or else the options', field by field, cut to a byte and reset when out of range |
| `HostTrailer.AppendHost` | src/apple2/main.c:1580-1630 | the file grows by exactly one HOST chunk of the chosen state |
| `HostTrailer.HostBytes` | src/apple2/main.c:1609-1618 | the sixteen bytes of a HOST chunk |
| `HostTrailer.MagicBytes` | src/apple2/machine/apple2_snapshot.h:10-12 | the magic bytes and the versions that are read |
| `HostTrailer.ReadHost` | src/apple2/main.c:1632-1712 | on every byte string: ends, in bounds, with the last usable HOST chunk or nothing |
| `HostTrailer.WalkTiled` | src/apple2/main.c:1683-1708 | on a tiled file the reader sees the chunks up to the first whose length fails the truncated test |
| `HostTrailer.AppendThenRead` | src/apple2/main.c:1580-1712 | every appended state is read back exactly when the sizes let the reader past every chunk |
| `HostTrailer.LastSaveWins` | src/apple2/main.c:1580-1712 | after any number of saves to a file below 4 GiB the last one is loaded |
| `HostTrailer.ShortHeaderUnread` | src/apple2/main.c:1656-1659 | a file with the shortest header where what was appended is not read |
| `HostTrailer.HugeUnread` | src/apple2/main.c:1688-1691 | a file above 4 GiB where what was appended is not read |
| `DiskSpec.ProjectWithout` | src/apple2/app_options.c:379-408 | taking entry k of a drive out of the mount list takes path k out of that drive's projection |
| `DiskSpec.OthersWithout` | src/apple2/app_options.c:379-408 | and changes no other drive's projection |
| `DiskSpec.NextKeeps` | src/apple2/app_options.c:162-235 | every step keeps queues equal to projections, current in range, unique cards and sound mounts |
| `DiskSpec.EveryRun` | src/apple2/app_options.c:2608-2616 | after every run from the initial state: queue equals projection, current in range, and each of Mockingboard and SSC sits in exactly the slot that is named, or nowhere when 0 is |
| `DiskSpec.EjectUndoesInsert` | src/apple2/main.c:3535-3552 | an eject right after an insert restores mounts, cards, units and every queue with its write flags, except that the drive then holds its first image |
| `DiskSpec.EjectShowsNext` | src/apple2/app_options.c:1491-1520 | after an eject the drive holds the next image of its queue with its write flag, or the first one again |
| `DiskSpec.SetUnitRefines` | src/apple2/app_options.c:328-358 | setting a SmartPort unit changes that unit's path and no other's |
| `DiskSpec.ClearUnitRefines` | src/apple2/app_options.c:416-434 | clearing a SmartPort unit empties that unit and no other |
| `DiskSpec.SwapBack` | src/apple2/main.c:3511-3521 | swapping forward and back, or a whole turn, changes nothing; absolute swap n selects image n |
| `DiskSpec.ReconciledIsSettled` | src/apple2/app_options.c:198-235 | after reconcile every mount sits on its controller, and reconciling again changes nothing |
| `DiskSpec.ReconcileByDrive` | src/apple2/app_options.c:198-235 | reconcile keeps a drive whole and in order, or empties it |
| `DiskLaws.ReconcileUnits` | src/apple2/app_options.c:219-232 | a SmartPort unit survives reconciling, with its path, exactly when its slot holds a SmartPort card |
| `DiskLaws.ReconcileKeeps` | src/apple2/app_options.c:205-232 | reconciling keeps exactly the matching mounts and units, each once and in order |
| `DiskLaws.InsertIs` | src/apple2/app_options.c:293-313 | an insert is taken for a known drive and fewer than sixteen mounts, and goes last in list and queue |
| `DiskLaws.Refused` | src/apple2/app_options.c:328-358 | when setting a unit or ejecting does nothing |
| `DiskLaws.SelectIs` | src/apple2/app_options.c:1564-1571 | selecting puts exactly the wanted image into the drive, if there is one |
| `DiskLaws.SwapIs` | src/apple2/main.c:3495-3524 | a swap changes only which image of that drive is current |
| `DiskLaws.SetWritableIs` | src/apple2/app_options.c:1582-1590 | only the current image's flag changes |
| `DiskLaws.SetCardIs` | src/apple2/app_options.c:162-196 | the slot gets the card, a unique card leaves its old slot empty, other slots keep theirs |
| `DiskLaws.InitialIs` | src/apple2/app_options.c:2608-2616 | the cards a machine starts with |
| `DiskOptions.KeepOnCard` | src/apple2/app_options.c:205-218 | the shifting loop keeps exactly the matching mounts, in order |
| `DiskOptions.RemIsMod` | src/apple2/main.c:3513-3519 | C's doubled remainder is the mathematical one, for negative swaps too |
| `DiskOptions.Options.constructor` | src/apple2/app_options.c:2608-2616 | the initial state |
| `DiskOptions.Options.AppendPath` | src/apple2/app_options.c:360-377 | mount list and queue grow together, or nothing changes |
| `DiskOptions.Options.MediaInserted` | src/apple2/main.c:3535-3548 | an insert event is the specified step |
| `DiskOptions.Options.EjectCurrent` | src/apple2/app_options.c:379-408 | an eject is the specified step and never returns false |
| `DiskOptions.Options.SwapDisk` | src/apple2/main.c:3495-3524 | a swap event is the specified step |
| `DiskOptions.Options.SelectImage` | src/apple2/app_options.c:1564-1571 | a selection is the specified step |
| `DiskOptions.Options.SetCurrentWritable` | src/apple2/app_options.c:1582-1590 | only the current image's write flag changes; refused exactly on an empty or unknown queue |
| `DiskOptions.Options.SetSlotCard` | src/apple2/app_options.c:162-196 | a card assignment is the specified step; refused exactly outside slots 1..7 or known cards |
| `DiskOptions.Options.SetSmartportPath` | src/apple2/app_options.c:328-358 | one entry per SmartPort unit, replaced or appended |
| `DiskOptions.Options.ClearSmartportPath` | src/apple2/app_options.c:416-434 | that unit's entry goes, the others keep their order |
| `DiskOptions.Options.RebuildQueues` | src/apple2/app_options.c:1448-1472 | every queue becomes the projection of the mount list, current 0 |
| `DiskOptions.Options.ReconcileCards` | src/apple2/app_options.c:198-235 | reconcile is the specified step |
| `DiskOptions.Options.PerformAll` | src/apple2/main.c:3495-3559 | a run of events in place is the run of the specification |
| `Paths.RelativeFromDir` | src/apple2/app_options.c:734-800 | writes the relative form whole, or fails exactly when it does not fit |
| `Paths.WayLeadsThere` | src/apple2/app_options.c:734-800 | walking the relative components from the base ends at the path |
| `Paths.RelativeOf` | src/apple2/app_options.c:734-800 | for normalised paths the string form is one `..` per unshared base component, then the unshared path components |
| `Paths.ToIni` | src/apple2/app_options.c:802-831 | the stored form of a path |
| `Paths.JoinedMeans` | src/apple2/app_options.c:681-703 | base joined with the relative form normalises to the path |
| `Paths.JoinedExists` | src/apple2/app_options.c:626-641 | the joined path can be resolved exactly when path and base exist, and then gives the path |
| `Paths.ResolvesBack` | src/apple2/app_options.c:681-703 | storing and resolving succeed exactly when the strings fit; the result means the same path, and is it exactly when path and INI directory exist or the path lies below the directory |
| `Paths.MissingFileRespelled` | src/apple2/app_options.c:681-703 | a missing file beside the INI directory comes back with its `..` spelled out |
| `Paths.BackslashLost` | src/apple2/app_options.c:50-62 | no path with a backslash is ever the result |
| `Paths.MovedInstall` | src/c64/app_options.c:283-290 | the stored form survives moving base and path together |
| `PathLaws.SlashedIs` | src/apple2/app_options.c:50-62 | backslashes become slashes and nothing else changes |
| `PathLaws.JoinPathIs` | src/apple2/app_options.c:608-624 | joining to the current directory, the root and any other directory |
| `PathLaws.RelativeKept` | src/c64/app_options.c:303-308 | relative strings are stored as they are |
| `PathLaws.MovedIs` | src/apple2/app_options.c:626-641 | what ".", ".." and a name do when a path is resolved |
| `Paths.CountLeadingDotDots` | src/c64/app_options.c:264-281 | the number of leading `..` components |
| `Paths.LeadingDotDots` | src/c64/app_options.c:264-281 | on relative forms it is the number of base components not shared |
| `Paths.PathForIniStorage` | src/c64/app_options.c:291-338 | near paths relative, far or overlong ones absolute |
| `Paths.StorageResolvesBack` | src/c64/app_options.c:283-338 | both forms resolve to the path, with the exact conditions for success and for the same spelling |
| `MediaLists.NextPath` | src/apple2/app_options.c:1197-1252 | the next list entry, quoted or not, and the rest; failure at the end or when too long |
| `MediaLists.ParseList` | src/apple2/app_options.c:1259-1296 | all entries in order |
| `MediaLists.ParseListC64` | src/c64/app_options.c:1170-1237 | all entries in order, or failure on an overlong one |
| `MediaLists.FormatList` | src/apple2/app_options.c:1326-1367 | a list of stored forms, whole, or failure exactly when it does not fit |
| `MediaLists.ListRoundTrip` | src/c64/app_options.c:1170-1275 | parsing the formatted list gives it back exactly when every path is safe, for both machines |
| `MediaLists.CommaSplits` | src/c64/app_options.c:1170-1275 | a path with a comma does not come back, on either machine |
| `MediaLaws.QuotedBack` | src/apple2/app_options.c:1215-1233 | an entry in either kind of quotes may hold commas and outer blanks and comes back without the quotes |
| `MediaLaws.FlagRead` | src/c64/app_options.c:1127-1130 | "1", "true" and "rw" make an image writable, every other word does not |
| `MediaLists.ParseFlags` | src/c64/app_options.c:1101-1136 | write flags set in place from the text, entries it does not reach kept |
| `MediaLists.FormatFlags` | src/c64/app_options.c:1138-1163 | a text that is read back as the flags, whatever they were before |
| `SavedMedia.FormatMounts` | src/apple2/app_options.c:1326-1367 | a drive's part of the mount list in stored form, or failure exactly when a path or the list does not fit |
| `SavedMedia.FormatSlot` | src/c64/app_options.c:1243-1275 | a slot's paths in stored form, or failure exactly when a path or the list does not fit |
| `SavedMedia.ParseResolved` | src/apple2/app_options.c:1259-1296 | every entry of a list resolved against the INI directory, or kept |
| `SavedMedia.ParseResolvedC64` | src/c64/app_options.c:1170-1237 | the same for the C64 list, which fails on an overlong entry |
| `SavedMedia.QueueComesBack` | src/c64/app_options.c:1170-1275 | on both machines images that exist, lie below the INI directory or are stored absolute come back in order under their own names, if a list can carry them |
| `SavedMedia.SaveAndLoad` | src/apple2/app_options.c:1259-1367 | writing a drive's storable images and reading the text gives them back in order, exactly when the text fits |
| `SavedMedia.SaveAndLoadC64` | src/c64/app_options.c:1170-1275 | the same for a C64 slot |
| `IniStream.Reader.Read` | external/inih/ini.c:294-317 | at most num-1 characters and not past a newline; nothing at the end or when num is below 2 |
| `IniStream.Reader.Discard` | external/inih/ini.c:168-177 | the rest of an overlong line is consumed, and nothing more |
| `IniStream.Reader.NextLine` | external/inih/ini.c:145-177 | one turn consumes exactly one physical line and shows its first max-1 characters |
| `IniParse.ParseLine` | external/inih/ini.c:179-257 | what a line does to section, previous name and calls, and whether it is an error |
| `IniParse.ParseStream` | external/inih/ini.c:97-270 | the loop is the fold over the physical lines |
| `IniParse.ErrorIsFirst` | external/inih/ini.c:145-270 | the result is 0 exactly when no line is wrong, else the number of the first wrong line |
| `IniParse.OnlyFrontsSeen` | external/inih/ini.c:145-177 | calls depend only on the first max-1 characters of each line |
| `IniLaws.WrittenReadBack` | external/inih/ini.c:187-257 | written files of sections, settings with either separator and blanks around it, inline notes, continued values and remarks are read back as the calls they stand for, without error unless the handler objects; names are held to 49 characters |
| `IniLaws.CommentMeans` | external/inih/ini.c:187-191 | blanks, then a semicolon or a number sign, then anything means nothing, on any line |
| `IniLaws.BlankMeans` | external/inih/ini.c:187-191 | and so does a blank line |
| `IniLaws.NoSeparatorIsWrong` | external/inih/ini.c:225-256 | text without a separator is wrong |
| `IniLaws.UnclosedIsWrong` | external/inih/ini.c:205-223 | a section that is not closed is wrong |
| `IniLaws.LineOutcome` | external/inih/ini.c:218-256 | a wrong line is an error and changes nothing; a comment is none |
| `IniLaws.OverlongIsWrong` | external/inih/ini.c:168-177 | a line that does not fit the buffer is an error |
| `IniLaws.MarkIgnored` | external/inih/ini.c:179-186 | a byte order mark at the start of a file makes no difference |

## Left out

- `HashMaps.HashMap.Put`: string-key modes, arenas, `shputs` and `hmput`'s default entry at index -1 are not modelled, only binary keys.
- The hash mixing functions of stb_ds; the model holds for every hash function.
- Growth of the dense array's allocation (`stbds_arrgrowf`): the dense array is a sequence.
- `BitReader.ZInput.Decode`: failure is also allowed once the data has run out, because the program pads with zeros before it notices; rejection of truncated streams is not promised.
- `Inflate.DoZlib`: the same; and an initial size of 0 is excluded, on which the doubling loop of `stbi__zexpand` would not end (the PNG loader never asks for it).
- PNG palettes, tRNS colour keys, iPhone PNGs, chunk framing and CRCs; every other image format of stb_image is not compiled.
- `PngImage.CreateImageRaw`: each row is converted in a row buffer of its own and then stored at its stride; output is counted in samples, so a 16-bit sample is one element and not two bytes.
- `RegexCompile.ReCompile`: once the class buffer has been overrun, what the overwritten memory does is not modelled; the bytes written are listed.
- `IniParse.ParseLine`: lines are edited as values, not by writing NULs into the buffer; heap line buffers and the other compile-time options of inih are not modelled, only the defaults.
- `DiskOptions.Options.SwapDisk`: overflow of `current + param` at the ends of the 32-bit range is not modelled.
- `DiskOptions.Options.ReconcileCards`: the convenience path strings that it also refreshes are not modelled.
- `DiskOptions.Options.EjectCurrent`: a queue's own paths and flags are sequences, so its shifting loop is not modelled in place; the power-on-only mark is not modelled.
- `remove_diskii_mounts_for` and the convenience replacement built on it, which swap-removes and so does not keep other drives' order.
- Paths: symbolic links, Windows branches, the working directory, and how the INI directory itself is found.
- `HostTrailer.AppendHost`: file opening and writing errors; the file is its bytes.
- The emulated machines, the runtime thread, the SDL loop, the debugger, the assembler, key-by-key INI load and save, argument parsing and logging.
