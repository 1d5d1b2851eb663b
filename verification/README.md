# Verified models of bundled codecs, containers and geometry

The repository bundles small single-purpose libraries whose cores are state machines. This project models the cores of
five of them in Dafny, in seven groups, and proves what each is for. Methods follow the code step by step, with the same
branches, tables, constants and error cases; each is tied to a reference definition, and the main theorems are about
those definitions. What both sides of a codec share, such as tables, hashes and filter steps, is tied down by laws stated
without it and by examples given byte by byte (the modules whose names end in `Laws`, and beside the definitions).

- **Hash map and binary search** (basisu containers). `HashMap` is the open-addressing table: multiplicative hashing,
  downward probing with wrap-around, deletion by back-shifting, growth to powers of two. The table refines a `map`;
  `pos` records where each key is, and the probe invariant says that every slot from a key's home down to the key is
  occupied. `FindSorted` is Knuth's uniform binary search.
- **Huffman decoding, twice** (basisu transcoder, stb_image). `Canonical` is the theory both share: the codes of section
  3.2.2 of RFC 1951 tile the code space, so a stream starts with at most one code, and with exactly one if the code is
  complete. `HuffmanTable` and `BitwiseDecoder` are basisu's lookup table with a tree packed into negative integers and
  its bit reader with the Rice, truncated-binary and chunked codes. `HuffmanTree` says what table and tree hold,
  `HuffmanConflicts` and `HuffmanCounting` how construction notices every list that is no prefix code, and
  `HuffmanLone` what is read with a single used symbol. `ZHuffman`, `Inflate` and `InflateBlock` are
  stb_image's fast table, slow path and block loop over a growing buffer, `InflateInverse` writes the blocks that this
  loop reads, `InflateEnd` is about blocks at the end of the input, and `InflateLaws` about the fixed codes. `BitReversal` ties the mask-and-shift reversal
  to its meaning, and `Bits` is the flat bit string both readers refine.
- **QOI** (`QoiFormat`, `QoiCodec`, `Qoi`, `QoiLaws`). A lossless codec whose two sides keep slightly different pixel indexes. The
  byte-level encoder and decoder refine chunk-level ones, and the round trip is proved through an invariant that allows
  the one slot in which the indexes can differ.
- **QOA** (`QoaSlice`, `QoaWords`, `QoaFrame`, `QoaDecoder`, `QoaFile`, `QoaLaws`). A lossy codec whose adaptive filter must evolve
  equally on both sides. The 16-way scale search with early exit equals the exhaustive one, and decoding an encoded file
  reproduces what the encoder reconstructed, sample for sample.
- **GIF** (`GifRows`, `GifRaster`, `GifColors`, `GifLzw`, `GifReference`, `GifLzwInverse`, `GifStreams`, `GifLaws`). The LZW decoder over prefix
  chains with its interlaced cursor, against a dictionary of strings, an order of rows, the decoder of GIF89a with its
  frozen table, and a compressor it inverts.
- **PNG** (`PngFilter`, `PngPixels`, `PngImage`, `PngInterlace`, `PngLaws`). Unfiltering with two alternating rows, unpacking of
  samples, alpha expansion in place and Adam7, against the definitions of the PNG specification (second edition).
- **msdfgen** (`GraphColoring`, `InkTrap`, `DistanceFinder`). Incremental three-colouring with bounded repair, the
  ink-trap edge colouring, and the cached nearest-edge search.

`Bytes`, `Options`, `Powers` and `StrideFill` hold what several modules need: bytes, an optional value, powers of two, and
filling every 2^n-th entry of a table.

Ghost parameters and results carry what the code does not store: the list of lengths behind a Huffman table, the graph a
matrix holds, the trail of seeds behind a colouring. Hashing, metrics and edge distances are parameters.

## Where the code falls short of its documentation or format

- `nonZeroSign` (msdfgen/msdfgen.h:81-85) is documented to return 1 for non-negative numbers; it returns -1 for 0, and
  the documented sign for all others (`DistanceFinder.NonZeroSignIs`).
- GIF89a's table holds 4096 codes and then stays as it is until it is cleared. The code learns on, never uses what it
  learns, and rejects a legal stream with more than 8191 - 2^cs ordinary codes between clear codes. Nor does it accept
  a stream that does not start with a clear code, although decoding can begin with the start-up table and a comment
  says that this is supported (stb_image/stb_image.h:6806, 6838-6840). Apart from these two it agrees with GIF89a
  (`GifReference.StreamsAgree`; `GifStreams` has rejected streams of both kinds).
- Where nothing is drawn in the first frame of a GIF, the background entry of the colour table is copied as it is stored,
  blue first, into a canvas that is red first (stb_image/stb_image.h:6988-6998): red and blue are exchanged
  (`GifColors.BackgroundIsSwapped`).
- In the GIF decoder the comparison of the code with the next free one is repeated after that number has been increased
  (stb_image/stb_image.h:6850) and then never holds; the entry is right all the same, because it reads its own first
  byte.
- The padding of 16 bits at the end of deflated input is meant to be noticed once any of it is consumed
  (stb_image/stb_image.h:4258-4262, 4337-4342). Refilling can fetch zeros behind the input before that padding is set
  up, and then it is not: `Accepted` says for every block and every state of the bit buffer whether it is accepted,
  blocks inside the input always are, an accepted block that starts inside it reaches at most 55 bits past its end, a
  bound that is attained, and one that starts behind it is a bare end-of-block symbol (`InflateEnd`).
- The checks of a QOA frame do not keep its decoding inside the frame: the size of its data wraps around when the size
  field is too small, and a partly filled last round needs one slice per channel. The channel count is not held against
  the eight filters, nor the samples of the frames against the announced total. `StaysInFrame`, `Inside` and
  `Decodable` are the exact conditions; witnesses are in `QoaDecoder` and `QoaFile`.
- With a basisu Huffman table of one used symbol, stream bits that are not its codeword are read as symbol 0. If its
  length exceeds the lookup bits and the list's length together, such bits can lead to an entry behind the tree
  (`HuffmanLone.LeavesTree`, `HuffmanLone.SixteenBitEscape`).
- `symmetricalTrichotomy` (msdfgen/msdfgen.cpp:1057-1064) is documented to add up to zero over all positions; the sum is
  one whenever 46 divides the last position, as in 47 edges (`InkTrap.TrichotomyTotal`).
- A QOA encoder writes files of 2^31 samples (all channels) and more, for which the decoder's buffer size wraps around
  (`QoaFile.EncodedIsDecodable`).

## Model

| member | source | states |
|---|---|---|
| `HashMap.HashMap.Erase` | basisu/basisu_containers.h:1500-1543 | Erasing `k` turns the map the table holds into that map without `k`, for every sound table, even a full one; the table keeps its size, soundness and fill limit, and the result says whether `k` was there |
| `HashMap.HashMap.BackShift` | basisu/basisu_containers.h:1517-1541 | The back-shift loop, started with one hole anywhere in an otherwise sound table, terminates because keys only move nearer to their homes, closes the hole for every remaining key and loses or changes no entry |
| `HashMap.CloseHole` | basisu/basisu_containers.h:1517-1541 | When every entry from the hole down to the next free slot, which may be the hole itself after a full turn, has its home outside the cyclic interval down to the hole, the hole harms no key: every walk from a home to its key is occupied again |
| `HashMap.EmptySlot` | basisu/basisu_containers.h:1753-1785 | A table that holds fewer keys than slots has a free slot, which is what ends every probe |
| `HashMap.HashKeyInTable` | basisu/basisu_containers.h:1709-1720 | Multiplicative hashing of a 32-bit hash, shifted by 32 minus the logarithm of the size, always falls inside the table |
| `HashMap.HashIsFibonacci` | basisu/basisu_containers.h:1709-1720 | The factor is the golden ratio's fraction of 2^32, and the home is the fraction of the product in units of the table size, rounded down |
| `HashMap.HashMap.FindIndex` | basisu/basisu_containers.h:1816-1856 | Returns the one slot that holds the key, or the table size exactly when the map does not contain it |
| `HashMap.HashMap.Probe` | basisu/basisu_containers.h:1858-1919 | The downward probe with wrap-around stops at the slot of the key if it is present, and otherwise at the first free slot of its walk |
| `HashMap.HashMap.InsertNoGrow` | basisu/basisu_containers.h:1858-1919 | Refuses exactly when the key is new and the table is at its threshold; otherwise the map gains the key, or keeps its value if the key was there, and the returned slot holds the entry |
| `HashMap.HashMap.MoveInto` | basisu/basisu_containers.h:1921-1957 | Placing a key that the new table lacks extends the map by exactly that entry |
| `HashMap.HashMap.CopyInto` | basisu/basisu_containers.h:1769-1783 | The copying loop, which stops early by counting, leaves the new table with exactly the map of the old one |
| `HashMap.HashMap.Rehash` | basisu/basisu_containers.h:1755-1791 | For every legal size, larger or smaller: if the keys fit, the map and the count are kept in a sound table of that size with half of it as the limit; otherwise nothing changes; up to half full the result is a legal table again |
| `HashMap.HashMap.Grow` | basisu/basisu_containers.h:1742-1753 | Growing keeps the map; the new size is a legal power of two |
| `HashMap.GrownSizeIs` | basisu/basisu_containers.h:1742-1753 | Three times the size rounded up to a power of two is four times the size, capped at 2^31 and at least the minimum |
| `HashMap.HashMap.Insert` | basisu/basisu_containers.h:1467-1483 | Inserting updates the map by that key and no other; the retry after growing succeeds always, and insertion fails exactly when a table of 2^31 slots is half full and the key is new; an existing value is kept |
| `HashMap.HashMap.Reserve` | basisu/basisu_containers.h:1294-1309 | Reserving keeps the map, never shrinks the table, and for capacities up to 2^30 leaves room for that many entries before the next growth |
| `HashMap.ReservedSizeIs` | basisu/basisu_containers.h:1294-1309 | The size computed for a capacity is a legal size: 4 up to two keys, at least twice and less than four times the capacity up to 2^30, and 2^31 beyond |
| `HashMap.HashMap.Reset` | basisu/basisu_containers.h:1225-1277 | Empties the map and keeps the table size |
| `FindSorted.FindSorted` | basisu/basisu_containers.h:902-945 | On every non-decreasing vector over a totally ordered type: an index that holds the key if it is present, and -1 otherwise; every read is inside the vector |
| `FindSorted.ProbeMisses` | basisu/basisu_containers.h:902-945 | Algorithm U's step after a miss: either the key is absent (step exhausted or index below 0) or it still lies in the window of the next step |
| `BitwiseDecoder.BitwiseDecoder.PeekBits` | basisu/basisu_transcoder_internal.h:319-338 | Returns the next bits of the zero-padded, lowest-bit-first stream without moving |
| `BitwiseDecoder.BitwiseDecoder.RemoveBits` | basisu/basisu_transcoder_internal.h:340-346 | Moves on by exactly that many bits; what is buffered is still the stream at the new place |
| `BitwiseDecoder.BitwiseDecoder.GetBits` | basisu/basisu_transcoder_internal.h:348-372 | Returns the next bits in stream order for every width up to 32, also where the read is split in two |
| `BitwiseDecoder.BitwiseDecoder.DecodeTruncatedBinary` | basisu/basisu_transcoder_internal.h:374-387 | Reads what the flat-stream definition of truncated binary reads, and moves by its length |
| `BitwiseDecoder.TruncatedBinaryInverse` | basisu/basisu_transcoder_internal.h:374-387 | Reading the codeword of `v` gives back `v` and its length: distinct values have distinct codewords |
| `BitwiseDecoder.TruncatedBinaryRead` | basisu/basisu_transcoder_internal.h:374-387 | Whatever the stream holds, the value read is below `n` and the bits read are its codeword: every value is reached by its own codeword only |
| `BitwiseDecoder.BitwiseDecoder.DecodeRice` | basisu/basisu_transcoder_internal.h:389-414 | Reads the unary part in pieces of 16 and the remainder as the flat-stream definition does, modulo 2^32 |
| `BitwiseDecoder.RiceInverse` | basisu/basisu_transcoder_internal.h:389-414 | The value read is `v` if and only if the stream holds unary-plus-remainder of `v`, and then its length is consumed |
| `BitwiseDecoder.BitwiseDecoder.DecodeVlc` | basisu/basisu_transcoder_internal.h:416-443 | Reads chunk by chunk as the flat-stream definition does |
| `BitwiseDecoder.VlcInverse` | basisu/basisu_transcoder_internal.h:416-443 | Reading the chunked code of a value that fits 32 bits gives the value and its length |
| `BitwiseDecoder.BitwiseDecoder.DecodeHuffman` | basisu/basisu_transcoder_internal.h:445-483 | With any table built: if a codeword comes next, which in a complete code is always so, returns its symbol, the only one, and consumes exactly its length, by lookup or through the packed tree; otherwise returns symbol 0 and consumes nothing, or, if the lookup entry refers to the tree, the zeros up to the first one and that one |
| `HuffmanLone.StrayStep` | basisu/basisu_transcoder_internal.h:470-477 | With one used symbol, a one leads off its path to an empty entry of the tree and a zero to the next node, both inside the tree, save at the last bit of a code for which the tree had to be lengthened |
| `HuffmanLone.LeavesTree` | basisu/basisu_transcoder_internal.h:470-477 | In that case, which `StaysInside` excludes for `DecodeHuffman`, the next entry lies behind the end of the tree |
| `HuffmanLone.SixteenBitEscape` | basisu/basisu_transcoder_internal.h:470-477 | So with ten lookup bits and one symbol of length 16, when fifteen zeros and a one come next |
| `HuffmanTable.HuffmanDecodingTable.Init` | basisu/basisu_transcoder_internal.h:127-264 | Among the lists of at most 2^14 lengths up to 16, succeeds exactly for the empty one, those with Kraft sum 1 and those with one used symbol of any length; then lookup and packed tree represent the canonical code. For longer lengths, success implies that all are at most 31 and that the sum is right modulo 2^32 or one symbol is used |
| `HuffmanTable.OnlyDecodable` | basisu/basisu_transcoder_internal.h:146-166 | If all stored codewords but that of symbol 0 exclude each other and the tests have been passed, the Kraft sum is 1 or one symbol is used |
| `HuffmanTable.SumTest` | basisu/basisu_transcoder_internal.h:156-166 | On 32-bit words the sum test accepts exactly the Kraft sums that are 1 modulo 2 |
| `HuffmanConflicts.FreshAtZero` | basisu/basisu_transcoder_internal.h:196-261 | Whatever the lengths, and also where a reference has been damaged by its conversion to 16 bits: a walk that comes to an empty entry has met no leaf of an earlier symbol but symbol 0 and follows the way of none |
| `HuffmanConflicts.LeafAdded` | basisu/basisu_transcoder_internal.h:246-260 | So a long codeword that has been stored excludes all earlier ones but that of symbol 0, whose leaf looks like an empty entry |
| `HuffmanConflicts.ShortAdded` | basisu/basisu_transcoder_internal.h:179-194 | The same for a short codeword, all of whose lookup entries were empty |
| `HuffmanConflicts.InnerAdded` | basisu/basisu_transcoder_internal.h:229-234 | A new node keeps every earlier entry, and its reference leads decoding to it or is stored as a positive number, which stops every later walk |
| `HuffmanCounting.ManyNodes` | basisu/basisu_transcoder_internal.h:196-251 | No list has more than 512 inner nodes more than symbols, since the codewords of each length are consecutive |
| `HuffmanCounting.DisjointWeigh` | basisu/basisu_transcoder_internal.h:158-166 | If all codewords but that of symbol 0 exclude each other, the Kraft sum is below 2 |
| `HuffmanTree.NodeBound` | basisu/basisu_transcoder_internal.h:200-251 | In a complete code the packed tree has fewer inner nodes than there are symbols, and with one used symbol at most fifteen, so references fit 16 bits |
| `HuffmanTable.DecodableSizes` | basisu/basisu_transcoder_internal.h:146-166 | Every list that shall be accepted passes the tests on single lengths and on the sum |
| `HuffmanTree.AddInner` | basisu/basisu_transcoder_internal.h:225-251 | Creating an inner node on the path of a symbol keeps every entry of lookup and tree correct |
| `HuffmanTree.AddLeaf` | basisu/basisu_transcoder_internal.h:253-264 | Storing the leaf at the end of the path completes the symbol and keeps every other entry correct |
| `HuffmanTree.AddShort` | basisu/basisu_transcoder_internal.h:180-198 | Filling all lookup entries that end in a short code completes that symbol and overwrites no other |
| `HuffmanTree.LeafIsFree` | basisu/basisu_transcoder_internal.h:253-264 | The place of a new leaf is still unused: no earlier code is a prefix |
| `Canonical.FirstIsStart` | stb_image/stb_image.h:4149-4160 | The running code of each length, scaled to 16 bits, is the total weight of all shorter codes |
| `Canonical.CoverExists` | stb_image/stb_image.h:4149-4160 | The canonical codes tile the code space from 0 without gaps: every position below the total weight lies in the span of some symbol |
| `Canonical.CoversUnique` | stb_image/stb_image.h:4149-4160 | No position lies in two spans |
| `Canonical.PrefixUnique` | stb_image/stb_image.h:4135-4180 | With a Kraft sum of at most 1, at most one symbol's bit-reversed code starts a given stream |
| `Canonical.PrefixExists` | basisu/basisu_transcoder_internal.h:127-178 | With a Kraft sum of exactly 1, every stream starts with some symbol's code |
| `Canonical.RevRev` | stb_image/stb_image.h:4118-4133 | Reversing the bits twice is the identity |
| `ZHuffman.ZHuffman.Build` | stb_image/stb_image.h:4135-4180 | Accepts a list of lengths up to 15 if and only if its Kraft sum is at most 1; on acceptance all tables, fast and slow, are those of the canonical code |
| `ZHuffman.PlaceInjective` | stb_image/stb_image.h:4161-4177 | Distinct used symbols occupy distinct places of the sorted symbol table |
| `BitReversal.BitReverseIsRev` | stb_image/stb_image.h:4127-4133 | The four mask-and-shift steps followed by the shift reverse the code's own bits |
| `BitReversal.BitReverse16IsRev` | stb_image/stb_image.h:4118-4125 | The four mask-and-shift steps compute the mathematical reversal of the 16 low bits, on which building and decoding rest |
| `BitReversal.ReversedDigit` | stb_image/stb_image.h:4118-4125 | They move every bit `j` to `15 - j` |
| `Inflate.BitReader.FillBits` | stb_image/stb_image.h:4213-4223 | Refilling changes neither the place in the stream nor the bits ahead |
| `Inflate.BitReader.Receive` | stb_image/stb_image.h:4225-4233 | Returns the next bits of the stream |
| `Inflate.BitReader.Decode` | stb_image/stb_image.h:4254-4282 | Fast and slow path together: the symbol whose canonical code is a prefix of the next bits, with exactly its length consumed, or -1 with nothing consumed when no code is a prefix or the input is exhausted |
| `Inflate.BitReader.DecodeSlow` | stb_image/stb_image.h:4235-4252 | The slow path alone does so whenever the fast table has no entry |
| `Inflate.FastDecodes` | stb_image/stb_image.h:4274-4280 | A fast-table hit is the symbol and the length of the canonical code that comes next |
| `Inflate.NotFast` | stb_image/stb_image.h:4235-4243 | A miss means that the next code, if any, is longer than the fast table, so starting the search at 10 bits loses nothing |
| `Inflate.SlowDecodes` | stb_image/stb_image.h:4240-4248 | The first length whose limit exceeds the reversed bits is the length of the code, and the computed place is that of its symbol |
| `InflateBlock.ZBuf.ParseHuffmanBlock` | stb_image/stb_image.h:4320-4368 | Success means that the bits read are a block consisting of one definite token sequence, that this block is acceptable from the bits fetched at the start, and that its expansion (section 3.2.3 of RFC 1951) has been appended; failure, that no acceptable block is there for which there is room. What has been fetched at the end is stated exactly |
| `InflateBlock.InsideAccepted` | stb_image/stb_image.h:4254-4282 | Every block that ends inside the input is acceptable, from every state of the bit buffer |
| `InflateEnd.OverrunBound` | stb_image/stb_image.h:4320-4345 | With any codes, a block that starts inside the input ends at most 55 bits behind it; one that starts behind the input has no tokens and is as long as its end-of-block symbol |
| `InflateEnd.FarBlockAccepted` | stb_image/stb_image.h:4254-4345 | The bound is sharp: a block of one match that starts at the last input bit is accepted and ends 55 bits behind it |
| `InflateEnd.FarReader` | stb_image/stb_image.h:4213-4233 | The state of the bit buffer from which that block is accepted is reached by taking the 15 bits before it |
| `InflateEnd.TruncatedBlock` | stb_image/stb_image.h:4213-4345 | The compressed data 03, with two bits of the end-of-block symbol cut off, is accepted at bit 10 of 8 |
| `InflateEnd.FixedIsUsable` | stb_image/stb_image.h:4483-4487 | The lengths of the fixed codes have Kraft sums of exactly 1 |
| `InflateInverse.BlockRead` | stb_image/stb_image.h:4320-4368 | The bits written for any sequence of literals and matches of lengths 3 to 258 and distances up to 32768, with any usable codes, are a block of exactly these tokens |
| `InflateInverse.ExpandWritten` | stb_image/stb_image.h:4320-4368 | Decoding such a block inside the input, with room for it, succeeds and appends exactly the expansion of its tokens |
| `InflateInverse.TokenRead` | stb_image/stb_image.h:4324-4354 | One written token is read as that token, with exactly its bits consumed |
| `InflateInverse.BlocksDiffer` | stb_image/stb_image.h:4320-4368 | Distinct token sequences never share their written block |
| `InflateInverse.LengthSlot` | stb_image/stb_image.h:4306-4312 | Every length from 3 to 258 has a symbol whose base and extra bits express it |
| `InflateInverse.DistSlot` | stb_image/stb_image.h:4314-4318 | Every distance from 1 to 32768 has a symbol whose base and extra bits express it |
| `InflateInverse.LengthTable` | stb_image/stb_image.h:4306-4312 | The table in closed form: (z - 4) / 4 extra bits from the fifth symbol on, each range begins where the one before ends, from 3 on, and the last symbol stands for 258 alone |
| `InflateInverse.DistTable` | stb_image/stb_image.h:4314-4318 | Likewise y / 2 - 1 extra bits, ranges that adjoin from 1 on and end at 32768 |
| `InflateInverse.OneSlotPerLength` | stb_image/stb_image.h:4306-4312 | No length but 258 can be expressed in two ways, and 258 only by the last two symbols |
| `InflateInverse.OneSlotPerDistance` | stb_image/stb_image.h:4314-4318 | No distance can be expressed in two ways |
| `InflateLaws.FixedCodes` | stb_image/stb_image.h:4483-4487 | Lengths and codewords of the fixed codes are those of the table in section 3.2.6 of RFC 1951 |
| `InflateLaws.ExampleBlock` | stb_image/stb_image.h:4320-4368 | Behind the header, the data 4b 84 03 00 are a literal, a match of length nine at distance one and the end of the block, and stand for ten letters |
| `InflateBlock.ZBuf.ReadMatch` | stb_image/stb_image.h:4346-4354 | Length and distance are base plus extra bits, read in that order; what is refused is malformed, reaches back too far or begins behind the input |
| `InflateBlock.ZBuf.AddMatch` | stb_image/stb_image.h:4354-4365 | The shortcut for distance 1 and the general copying loop give the same overlapping copy, also when the buffer has to grow first |
| `InflateBlock.CopyIsPeriodic` | stb_image/stb_image.h:4359-4365 | An overlapping copy keeps what was there and satisfies out[i] == out[i - dist] behind it |
| `InflateBlock.CopyOfLast` | stb_image/stb_image.h:4360-4362 | A copy at distance 1 is a run of the last byte |
| `InflateBlock.ZBuf.ZExpand` | stb_image/stb_image.h:4284-4304 | Doubling preserves everything written, makes the room asked for, and succeeds for every expandable buffer up to the size limit |
| `Qoi.RoundTrip` | qoi/qoi.h:356-590 | For every valid descriptor and pixel buffer and every requested channel count: decoding the encoded file returns the descriptor and exactly the pixels, alpha added or dropped as requested |
| `Qoi.Encode` | qoi/qoi.h:356-486 | Succeeds exactly for valid descriptors and writes the encoded file into a buffer of the documented size |
| `Qoi.Decode` | qoi/qoi.h:488-590 | Returns what the reference decoding of the bytes gives, for arbitrary input, or fails exactly when that is undefined |
| `Qoi.EncodedFits` | qoi/qoi.h:364-398 | The file is never longer than width * height * (channels + 1) + 22, which is below 2^31; all its chunks are legal and no two consecutive INDEX chunks name the same slot |
| `QoiLaws.HashPerChannel` | qoi/qoi.h:322 | The slot of a pixel moves by 3, 5, 7 and 11 for each step of red, green, blue and alpha, modulo 64, from 0 for the zero pixel |
| `QoiLaws.FileIsPixelByPixel` | qoi/qoi.h:403-486 | The file is the header, the bytes for one pixel after another, and the padding |
| `QoiLaws.KnownPixelIsOneByte` | qoi/qoi.h:424-435 | A pixel that differs from the one before, and has been seen with none but equal ones in its slot since, is written as the one byte s < 64 with 3r + 5g + 7b + 11a = s modulo 64 |
| `QoiLaws.ChunkIsShortest` | qoi/qoi.h:424-472 | No other chunk that gives the pixel is shorter, unless it names the slot of another pixel |
| `QoiLaws.RunsAreFull` | qoi/qoi.h:408-422 | Only a run of 62 is followed by another run |
| `QoiLaws.ValidDescIs` | qoi/qoi.h:364-372 | The test on the sizes is: with one more row there would still be no more than 400 million pixels |
| `QoiLaws.ExampleFile` | qoi/qoi.h:356-486 | The file for six given pixels, one for each kind of chunk, byte by byte |
| `QoiLaws.ForeignBytes` | qoi/qoi.h:528-580 | Bytes no encoder writes: the decoder stores the pixel of a run, finds it again, and repeats the last pixel when bytes run out |
| `QoiCodec.ChunksRoundTrip` | qoi/qoi.h:403-476 | Encoder and decoder stay in step over any image although the decoder also stores the pixel of a run: their indexes can differ in slot 53 alone, where the encoder still holds the zero pixel |
| `QoiCodec.NewPixelInStep` | qoi/qoi.h:424-472 | A chunk for a new pixel brings the decoder to that pixel and keeps both states in step |
| `QoiCodec.EncodedLegal` | qoi/qoi.h:403-476 | Every chunk fits its tag: runs stay in 1..62 and never collide with the RGB and RGBA tags, differences stay in range |
| `QoiCodec.EncodedNoRepeatedIndex` | qoi/qoi.h:116-119 | The encoder obeys the format's rule against consecutive INDEX chunks with the same slot |
| `QoiCodec.EncodedLength` | qoi/qoi.h:374-382 | At most channels + 1 bytes per pixel, counting a pending run as one byte owed |
| `QoiCodec.BytesAreChunks` | qoi/qoi.h:536-578 | Decoding the bytes of a chunk sequence is decoding the chunks: the tags are uniquely readable |
| `QoiFormat.ReadWritten` | qoi/qoi.h:540-575 | Each legal chunk is read back from its bytes, with its exact length |
| `QoiFormat.LiteralIsExact` | qoi/qoi.h:443-470 | The DIFF, LUMA, RGB and RGBA choice, with its signed 8-bit wrap-around, always reproduces the pixel |
| `QoiFormat.ReadHeaderWritten` | qoi/qoi.h:384-388 | The header is read back field by field |
| `QoiFormat.ReadBe32Written` | qoi/qoi.h:341-354 | Big-endian words are read back |
| `GifLzw.Gif.ProcessRaster` | stb_image/stb_image.h:6784-6867 | Status and drawing are those of a specification that keeps strings instead of chains and learns up to 8192 codes, on the bytes of the sub-blocks: all codes and all error cases. Unless there was an error, all sub-blocks have been passed at the end |
| `GifLzw.Gif.OrdinaryCode` | stb_image/stb_image.h:6837-6864 | One non-special code does what the specification's step does, including the code that is just being defined, the full dictionary and the growth of the code size |
| `GifLzw.Gif.OutGifCode` | stb_image/stb_image.h:6747-6782 | The recursion along prefixes terminates and draws exactly the string of the code in the reference dictionary |
| `GifLzw.ChainLearns` | stb_image/stb_image.h:6842-6850 | A new entry keeps the chain invariant: every prefix is smaller than its own index, `first` heads the chain, and suffix and chain spell the entry's string |
| `GifLzw.Gif.PutPixel` | stb_image/stb_image.h:6757-6781 | Drawing one more pixel advances canvas, history and cursor to those of the reference painting |
| `GifLzw.Gif.BeginImage` | stb_image/stb_image.h:6941-6972 | An image descriptor is accepted exactly when it lies inside the canvas, and the cursor starts at the first pixel |
| `GifLaws.LearnedFromOutput` | stb_image/stb_image.h:6837-6864 | Whatever the code, a new entry is the string before and the first symbol of the string put out |
| `GifLaws.CodesInOrder` | stb_image/stb_image.h:6799-6807 | Codes are the symbols, then the clear and the end code, then the entries in the order they were learned |
| `GifLaws.SizeKept` | stb_image/stb_image.h:6855-6858 | Codes are always as wide as the next free code needs, within the least width and twelve bits |
| `GifLaws.ExampleDecodes` | stb_image/stb_image.h:6784-6867 | The stream 02 02 8c 5f 00, whose codes are used while they are being defined, decodes to six ones |
| `GifReference.StreamsAgree` | stb_image/stb_image.h:6784-6867 | For code sizes up to 11, status and output are those of GIF89a's decoder, which starts with the start-up table and freezes its table at 4096 codes, if and only if the first code, if any, is the clear code, the end code or beyond the first free one, and no stretch between clear codes has more than 8191 - 2^cs ordinary codes; failing the first, the result is a missing clear code and no output, and failing the second, too many codes |
| `GifReference.RunsFromStart` | stb_image/stb_image.h:6806-6840 | The same for the data of a stream |
| `GifReference.RunsAgree` | stb_image/stb_image.h:6811-6866 | Behind a clear code, from any state both share; otherwise the decoder reports too many codes, and what it has put out is the beginning of what GIF89a's decoder puts out |
| `GifReference.StepsAgree` | stb_image/stb_image.h:6837-6864 | One step of both decoders does the same, up to codes that no longer fit 12 bits |
| `GifStreams.PlainStreamsDecode` | stb_image/stb_image.h:6842-6846 | For any symbols, the legal stream that writes each as its own code: GIF89a's decoder puts them out, and this decoder does so exactly up to 8191 - 2^cs of them and otherwise rejects the stream |
| `GifStreams.BareStreamsFail` | stb_image/stb_image.h:6806-6840 | For any symbols, the same stream without its clear code: GIF89a's decoder puts them out, and this decoder puts out nothing |
| `GifStreams.SmallestBareStream` | stb_image/stb_image.h:6806-6840 | Such a stream of four bytes: 02 01 28 00 |
| `GifStreams.AfterWritten` | stb_image/stb_image.h:6830-6835 | Behind data written in sub-blocks of 255 bytes and a rest the reader stands at their end |
| `GifLzwInverse.Decompresses` | stb_image/stb_image.h:6811-6866 | For every string, the reference decoder undoes the greedy compressor of Appendix F from any state both share, through code-size growth and codes just being defined |
| `GifLzwInverse.StreamDecompresses` | stb_image/stb_image.h:6784-6867 | A whole stream of code sizes 1 to 11 that starts with a clear code and holds a compressed string decodes to that string |
| `GifLzwInverse.LongestIsLongest` | stb_image/stb_image.h:6842-6850 | The compressor picks an entry at least as long as every other entry that matches |
| `GifRows.EveryRowOnce` | stb_image/stb_image.h:6770-6781 | For every height, interlaced or not, the row stepper visits every row exactly once (Appendix E of GIF89a) |
| `GifRows.AdvanceKeeps` | stb_image/stb_image.h:6772-6780 | One step of the stepper removes exactly the current row from those still to come, and lexicographically decreases pass and distance |
| `GifRaster.PaintedPixel` | stb_image/stb_image.h:6757-6781 | Each pixel of the image rectangle is decided by one definite code byte, counted row by row or in the order of the four passes: an opaque entry of its colour table is stored red first, and others leave the pixel |
| `GifRaster.PaintedOutside` | stb_image/stb_image.h:6757-6781 | Nothing outside the rectangle is touched |
| `GifRaster.PlacesDiffer` | stb_image/stb_image.h:6770-6781 | Distinct positions in the stream go to distinct places of the canvas |
| `GifRows.RowAtRank` | stb_image/stb_image.h:6770-6781 | Interlaced rows come in the order of Appendix E: every eighth from 0, every eighth from 4, every fourth from 2, every second from 1 |
| `GifColors.ParseColorTable` | stb_image/stb_image.h:6689-6698 | Stores the file's colours blue first, opaque but for the transparent index, and leaves other entries alone |
| `GifColors.GraphicControl` | stb_image/stb_image.h:7005-7023 | Keeps the colours and moves transparency from the old index to the new one, or takes it away |
| `GifColors.PixelColor` | stb_image/stb_image.h:6757-6768 | The pixel drawn has red, green and blue of the file's colour table and is opaque, and the transparent index leaves what was there |
| `GifColors.FillBackground` | stb_image/stb_image.h:6988-6998 | Pixels of the first frame that nothing was drawn to get the background entry as it is stored, unless its index is 0 |
| `GifColors.BackgroundIsSwapped` | stb_image/stb_image.h:6988-6998 | This is the colour of the file with red and blue exchanged, and the right one if and only if they are equal |
| `PngImage.CreateImageRaw` | stb_image/stb_image.h:4707-4869 | Succeeds exactly when all sizes fit, there are enough bytes and all filter types are legal, and then yields the image defined by sections 9.2 and 9.4 of the PNG specification, expanded to the output channels |
| `PngImage.SizesValidIs` | stb_image/stb_image.h:4722-4740 | The divided and nested size tests come to this: the output, the bits of a row rounded up and the data with one more row have sizes below 2^31 |
| `PngImage.Mul2SizesValidIs` | stb_image/stb_image.h:1021-1027 | Dividing instead of multiplying detects exactly the products that do not fit |
| `PngFilter.UnfilterRow` | stb_image/stb_image.h:4762-4796 | With the row above in the other half of the buffer, or the rewritten filter on the first row, the row becomes the defined reconstruction |
| `PngFilter.PaethAgrees` | stb_image/stb_image.h:4668-4679 | The branch-free predictor equals the Paeth predictor of section 9.4 |
| `PngFilter.FirstRow` | stb_image/stb_image.h:4659-4666 | The rewritten filters give what Up and Paeth give below a row of zeros |
| `PngLaws.RowRestored` | stb_image/stb_image.h:4762-4796 | Unfiltering undoes the filters of section 9.2 of the PNG specification, for every row, filter type and pixel size |
| `PngLaws.PaethIsClosest` | stb_image/stb_image.h:4668-4679 | The predictor is the neighbour closest to left plus above minus upper left, and of equally close ones the first in this order |
| `PngPixels.ExpandRow` | stb_image/stb_image.h:4800-4863 | A reconstructed row of depth 1, 2, 4, 8 or 16 becomes its samples, scaled for grey, with opaque alpha where a channel is added |
| `PngPixels.ExpandBits` | stb_image/stb_image.h:4808-4828 | The shifting byte register yields every packed sample |
| `PngPixels.AlphaExpand1` | stb_image/stb_image.h:4686-4696 | Writing backwards makes the expansion correct even when source and destination are the same array |
| `PngPixels.AlphaExpand3` | stb_image/stb_image.h:4695-4703 | The same for three channels |
| `PngPixels.FullRange` | stb_image/stb_image.h:4681 | The grey scale factors map the largest sample of each depth to 255 and exceed it never |
| `PngLaws.RowBytesIs` | stb_image/stb_image.h:4722-4730 | Rows are padded to whole bytes and no further |
| `PngLaws.FilterBytesIs` | stb_image/stb_image.h:4741-4750 | Filters look one pixel to the left, or one byte if pixels are smaller |
| `PngLaws.ExampleImage` | stb_image/stb_image.h:4707-4869 | An image of four pixels, with two filter types and alpha added, byte by byte |
| `PngLaws.ExampleSamples` | stb_image/stb_image.h:4800-4863 | Packed samples of two and four bits and a word with alpha, byte by byte |
| `PngInterlace.EveryPixelOnce` | stb_image/stb_image.h:4884-4905 | Of all passes and positions exactly one writes a given pixel, and it lies inside its pass (section 8.2 of the PNG specification) |
| `PngInterlace.EveryPlaceInside` | stb_image/stb_image.h:4891-4905 | Conversely every position of a pass lies inside the image |
| `PngLaws.PassIsPattern` | stb_image/stb_image.h:4884-4905 | The pass of every pixel is that of the eight by eight pattern in section 8.2 of the PNG specification |
| `PngLaws.EightByEight` | stb_image/stb_image.h:4884-4905 | Where the passes of an eight by eight image start in its data |
| `PngInterlace.CreateImage` | stb_image/stb_image.h:4872-4911 | Interlaced or not: succeeds exactly when the sizes fit and every pass is legal, and every pixel has all its values and is the one its pass defines |
| `QoaFile.FileLockstep` | qoa/qoa.h:486-680 | In every frame and channel of an encoded file at whose start the filter fits 16 bits, what decoding stores is exactly what the encoder reconstructed, and the sample count is the encoder's |
| `QoaFile.Encode` | qoa/qoa.h:486-540 | Refuses exactly the invalid descriptors and otherwise yields the file header and all frames, of the computed size, also where a filter no longer fits 16 bits |
| `QoaFile.Decode` | qoa/qoa.h:652-680 | Refuses exactly the bad headers; an access outside file, filters or sample buffer happens exactly when the announced frames do not fit (`Decodable`); and otherwise the buffer holds the decoded samples of all frames up to the first unacceptable one |
| `QoaFile.EncodedIsDecodable` | qoa/qoa.h:548-579 | Encoded files pass the checks, their frames are found where they were written, and decoding stays inside its buffer if and only if the number of samples over all channels is below 2^31 |
| `QoaFile.ExcessSamplesAccepted` | qoa/qoa.h:652-680 | A file of 40 bytes that announces one sample and whose accepted frame holds twenty, which are written behind the buffer |
| `QoaFile.NineChannelsAccepted` | qoa/qoa.h:566-579 | An accepted file of nine channels, one more than there are filters |
| `QoaFile.OneFrameFits` | qoa/qoa.h:503-518 | Inputs of up to 5120 samples per channel meet the fit hypothesis whatever their samples are |
| `QoaFile.FileSize` | qoa/qoa.h:495-501 | The size computed beforehand is the size of the file |
| `QoaDecoder.FrameLockstep` | qoa/qoa.h:581-650 | Decoding an encoded frame, short last slice included, gives the encoder's reconstruction and ends in its filter state, for every channel |
| `QoaDecoder.FrameFilterIs` | qoa/qoa.h:612-621 | The decoder starts a channel from the encoder's filter if and only if that fits 16 bits |
| `QoaDecoder.DecodeFrame` | qoa/qoa.h:581-650 | For every input: rejects a frame without effect exactly when its header fails the checks; makes an access outside an array exactly when channels, words or samples do not fit; and otherwise stores what its words define and nothing outside the frame |
| `QoaDecoder.StaysInFrame` | qoa/qoa.h:590-627 | Decoding reads no more than the size field says if and only if it leaves room for the filters and for one word per slice and channel |
| `QoaDecoder.CheckSuffices` | qoa/qoa.h:596-608 | The check suffices for frames with room for their filters that have one channel or no short slice |
| `QoaDecoder.WrappedSizeAccepted` | qoa/qoa.h:596-608 | A frame of 24 bytes with size field 0 passes, because the data size wraps around, and announces 65535 samples |
| `QoaDecoder.PartialRoundAccepted` | qoa/qoa.h:596-608 | A frame of 48 bytes with two channels of ten samples passes, although it lacks a slice |
| `QoaDecoder.HeaderRoundTrip` | qoa/qoa.h:361-366 | The frame header fields are read back |
| `QoaFrame.QoaDesc.EncodeFrame` | qoa/qoa.h:352-484 | Writes header, filter states (truncated to 16 bits) and the chosen slices in order, and leaves each channel's filter as after coding its samples |
| `QoaFrame.Lockstep` | qoa/qoa.h:384-481 | Over all slices of a channel, decoding the coded words keeps filter and samples equal to the encoder's |
| `QoaFrame.RunWithin` | qoa/qoa.h:275-286 | Each coded slice moves a weight by at most 896 per sample |
| `QoaSlice.SearchSlice` | qoa/qoa.h:396-474 | The search with early exit commits the slice, scale and filter that the exhaustive search over all 16 scales picks |
| `QoaSlice.TrySlice` | qoa/qoa.h:408-462 | One try is complete with its exact rank if it beats the best so far; an abandoned one could not have |
| `QoaSlice.BestScaleIsLeast` | qoa/qoa.h:396-474 | The chosen scale has the least rank of all 16 |
| `QoaSlice.BestOfIsFirstLeast` | qoa/qoa.h:396-402 | Among equal ranks the one tried first wins, starting from the previous slice's scale |
| `QoaSlice.SliceLockstep` | qoa/qoa.h:414-455 | On one slice, decoder outputs and filter equal the encoder's reconstruction and filter |
| `QoaSlice.ResidualSign` | qoa/qoa.h:288-299 | A decoded residual has the sign of the residual and is never zero, as the rounding division is made for |
| `QoaSlice.SliceWordRoundTrip` | qoa/qoa.h:455-479 | Scale and residuals are read back from a packed slice word, also of a short slice |
| `QoaSlice.RankBelowLimit` | qoa/qoa.h:396-440 | From bounded weights every rank stays below the initial best rank, so some slice is always chosen |
| `QoaSlice.DecodeSlice` | qoa/qoa.h:626-645 | Stores the outputs of a slice at its stride and nothing else |
| `QoaSlice.DequantIsRounded` | qoa/qoa.h:195-251 | Every entry of the dequantization table is the documented rounded product |
| `QoaSlice.ReciprocalIsRounded` | qoa/qoa.h:195-251 | Every reciprocal is the rounded-up quotient the comment gives |
| `QoaLaws.ScaleIsRoundedPower` | qoa/qoa.h:193-201 | Every scale factor is (s + 1)^2.75 to the nearest integer, as documented |
| `QoaLaws.QuantIsNearest` | qoa/qoa.h:180-190 | Quotients from -8 to 8 get the code of the nearest magnitude with their sign |
| `QoaLaws.DivRounds` | qoa/qoa.h:288-299 | The division rounds to the nearest integer up to the error of the reciprocal, and away from zero what would be rounded to it |
| `QoaLaws.SampleError` | qoa/qoa.h:414-450 | A sample predicted to within eight scale factors is reproduced to within two |
| `QoaLaws.PredictionIsScaledSum` | qoa/qoa.h:267-273 | The prediction is the weighted sum in units of 2^-13, rounded down |
| `QoaLaws.StartExtrapolates` | qoa/qoa.h:503-518 | The weights at the start continue the line through the last two samples |
| `QoaLaws.UpdateFollowsResidual` | qoa/qoa.h:275-286 | The update changes the weighted sum by a sixteenth of the residual, rounded down, times the sum of the absolute history, and moves the history on by the sample |
| `QoaLaws.PenaltyBeyondThree` | qoa/qoa.h:428-441 | Weights are penalized exactly from length 3.0 on, in units of 2^-13, by the excess of its square in units of 2^18, rounded up |
| `QoaLaws.CostIs` | qoa/qoa.h:422-444 | A sample costs its squared error and the squared penalty |
| `QoaLaws.TiesGoUpwards` | qoa/qoa.h:402-408 | Of several best scale factors the first one counting up cyclically from that of the slice before is taken |
| `QoaLaws.FirstSliceTies` | qoa/qoa.h:358-408 | In the first slice of a frame that is the smallest |
| `QoaLaws.FramesOf5120` | qoa/qoa.h:486-540 | All frames but the last hold 5120 samples per channel |
| `QoaLaws.SlicesOf20` | qoa/qoa.h:384-392 | All slices of a frame but the last hold twenty samples |
| `QoaLaws.HeaderInBytes` | qoa/qoa.h:548-579 | A file is accepted exactly if its first sixteen bytes hold the letters qoaf and a number of samples, of channels and a rate that are not zero |
| `QoaLaws.ExampleDecodes` | qoa/qoa.h:548-680 | A file of 40 bytes: its header fields, its filter, and the two samples 1536 and 4626 |
| `QoaWords.FilterRoundTrip` | qoa/qoa.h:370-379 | A filter state is read back from its two words if and only if its values fit 16 bits |
| `QoaWords.ReadSerialized` | qoa/qoa.h:319-341 | Each written 64-bit word is read back at its place |
| `GraphColoring.TryAddEdge` | msdfgen/msdfgen.cpp:1393-1432 | The outcome is the defined one; success means the edge is added and the colouring is proper and total, failure that matrix and colouring are as before; vertex A is never recoloured. Ends of different colours keep them; if no neighbour of B has another colour than A, B gets the next one cyclically; if one colour is left for B, it gets that one |
| `GraphColoring.Added` | msdfgen/msdfgen.cpp:1393-1432 | Adding an edge keeps the graph properly 3-coloured, and it fails only if the ends share a colour and B has no other free colour |
| `GraphColoring.AddedDirectly` | msdfgen/msdfgen.cpp:1393-1402 | These outcomes without repair, in terms of the neighbours' colours alone |
| `GraphColoring.ChosenColor` | msdfgen/msdfgen.cpp:1394-1401 | Of the free colours the one is chosen that follows the only excluded one cyclically, or the only one left, or 0 if all are free |
| `GraphColoring.RepairStart` | msdfgen/msdfgen.cpp:1403-1408 | Repair starts by giving B the colour behind that of A and uncolouring exactly its neighbours of that colour |
| `GraphColoring.ForcedColor` | msdfgen/msdfgen.cpp:1416-1420 | Vertices without a free colour are forced to 0, 1 and 2 in turn, skipping that of an adjacent A |
| `GraphColoring.SixteenSteps` | msdfgen/msdfgen.cpp:1409-1425 | Repair gives up only after sixteen forced or skipped colours, and makes at most seventeen |
| `GraphColoring.RoundKeeps` | msdfgen/msdfgen.cpp:1407-1420 | Every round of the repair keeps: properness among coloured vertices, the queue holds exactly the uncoloured ones, A keeps its colour; and (remaining steps, queue length) decreases |
| `GraphColoring.Repaired` | msdfgen/msdfgen.cpp:1405-1425 | The repair ends, with an empty queue or with all steps used, in a state that keeps the invariant |
| `GraphColoring.UncoloringKeeps` | msdfgen/msdfgen.cpp:1378-1391 | Uncolouring the conflicting neighbours of a vertex restores properness and queues each of them once |
| `GraphColoring.UncolorSameNeighbors` | msdfgen/msdfgen.cpp:1378-1391 | Uncolours exactly the conflicting neighbours and queues the later ones before the earlier ones |
| `GraphColoring.VertexPossibleColors` | msdfgen/msdfgen.cpp:1370-1376 | The mask holds exactly the colours no neighbour has |
| `GraphColoring.ColorSecondDegreeGraph` | msdfgen/msdfgen.cpp:1335-1368 | Every vertex gets the colour its seed picks from those its earlier neighbours leave; the result is total, proper if and only if no vertex sees all three colours before it, and proper for every seed if every vertex has at most two earlier neighbours |
| `GraphColoring.PickedColor` | msdfgen/msdfgen.cpp:1343-1366 | The colour a seed picks: the only free one; one of the two behind the excluded one by the low bit; or one of three by the remainder and the vertex; the seed is used up accordingly |
| `GraphColoring.TwoNeighborsLeaveAColor` | msdfgen/msdfgen.cpp:1335-1368 | A vertex with at most two earlier neighbours always has a colour left |
| `GraphColoring.FourCliqueIsNot3Colorable` | msdfgen/msdfgen.cpp:1335-1368 | In a graph with four mutually adjacent vertices no total colouring is proper, so success cannot be promised for all graphs |
| `InkTrap.ColorContour` | msdfgen/msdfgen.cpp:1257-1300 | For any two or more corners, any lengths and any seed: adjacent splines get distinct two-channel colours, also after deleting all minor splines; every edge is painted with its spline's colour, and colours follow the seed exactly |
| `InkTrap.ColorShape` | msdfgen/msdfgen.cpp:1195-1300 | Over all contours of a shape, with colour and seed handed on from one to the next exactly: smooth contours get one colour, those with one corner the teardrop colours, and the others adjacent splines of distinct colours, also without the minor ones, with every edge painted as its spline |
| `InkTrap.CornersDiffer` | msdfgen/msdfgen.cpp:1291-1300 | On a contour so painted the two edges at every corner have distinct two-channel colours |
| `InkTrap.ColorTeardrop` | msdfgen/msdfgen.cpp:1226-1254 | From the corner on, the edges get the first colour, white and the last colour; one or two edges are split in thirds, and the parts are coloured as if they had been there from the beginning |
| `InkTrap.TeardropAtCorner` | msdfgen/msdfgen.cpp:1226-1254 | The two edges at the corner have distinct two-channel colours, and the middle one is white |
| `InkTrap.TrichotomyIs` | msdfgen/msdfgen.cpp:1057-1064 | In whole numbers: the cuts are at 15/46 and 31/46 of the last position |
| `InkTrap.TrichotomyTotal` | msdfgen/msdfgen.cpp:1057-1064 | The sum over all positions is 1 if 46 divides the last one, and otherwise 0 as documented |
| `InkTrap.MarkMinor` | msdfgen/msdfgen.cpp:1259-1272 | Exactly the strict local minima are minor, no two of them adjacent, and at least two splines stay major |
| `InkTrap.ColorMajors` | msdfgen/msdfgen.cpp:1273-1283 | The first pass gives cyclically successive major splines distinct colours, the last and the first included |
| `InkTrap.ColorMinors` | msdfgen/msdfgen.cpp:1284-1290 | The second pass fills each minor spline with the colour that differs from both neighbours |
| `InkTrap.PaintEdges` | msdfgen/msdfgen.cpp:1291-1300 | Starting at the first corner and going round, every edge gets the colour of the spline it lies on |
| `InkTrap.MajorsWrapAround` | msdfgen/msdfgen.cpp:1273-1283 | The banned colour at the last major spline is what closes the cycle |
| `InkTrap.SwitchColorBanned` | msdfgen/msdfgen.cpp:1093-1107 | Switching from a two-channel colour gives another two-channel colour that is not the banned one |
| `InkTrap.SwitchesInACircle` | msdfgen/msdfgen.cpp:1075-1096 | The first colour and every switch in terms of the seed: one step forwards or backwards through cyan, magenta and yellow |
| `InkTrap.BannedLeavesOne` | msdfgen/msdfgen.cpp:1098-1104 | With another colour banned the third one is taken and the seed is left alone |
| `InkTrap.MinorIsShorter` | msdfgen/msdfgen.cpp:1262-1271 | A minor spline is strictly shorter than both its neighbours |
| `DistanceFinder.ShapeDistanceFinder.Distance` | msdfgen/msdfgen.h:1123-1145 | After any history of queries, the cached and pruned search ends with the same minimum as one from scratch, for every shape |
| `DistanceFinder.OneShotDistance` | msdfgen/msdfgen.h:1146-1168 | The search from scratch gives the first nearest edge's signed distance, or the initial one if there is no edge |
| `DistanceFinder.OneShotIsMinimum` | msdfgen/msdfgen.h:1146-1168 | That is the least absolute distance of all edges, and the initial one exactly for shapes without edges |
| `DistanceFinder.OneShotIsFirstNearest` | msdfgen/msdfgen.h:513-540 | Distance and alignment found are those of the edge that is least in absolute distance, then in alignment, then in order |
| `DistanceFinder.RotatedFromLast` | msdfgen/msdfgen.h:1150-1165 | The edges of a contour are visited from the last one on |
| `DistanceFinder.StaleStart` | msdfgen/msdfgen.cpp:1578-1582 | Starting from the inflated previous minimum changes nothing: some edge is strictly closer, or there is none |
| `DistanceFinder.SkippedIsFarther` | msdfgen/msdfgen.cpp:1584-1586 | An edge that the cache test skips could not have improved the minimum |
| `DistanceFinder.NearestIsFirstMinimum` | msdfgen/msdfgen.h:513-540 | The running comparison finds the first edge that no other undercuts in (absolute distance, dot) order |
| `DistanceFinder.TrueDistanceSelector.Reset` | msdfgen/msdfgen.cpp:1578-1582 | The minimum grows in absolute value by the inflated distance between the points and keeps its sign |
| `DistanceFinder.TrueDistanceSelector.AddEdge` | msdfgen/msdfgen.cpp:1584-1594 | Skipped or not, the minimum becomes the lesser of the old one and the edge's; the cache is renewed exactly when it does not rule the edge out, and stays truthful |
| `DistanceFinder.NonZeroSignIs` | msdfgen/msdfgen.h:81-85 | The sign is the documented one except at zero |

## Left out

Weaker than the source, or bounded:

- HuffmanTable.HuffmanDecodingTable.Init: for lists with a length above 16, which no list in a file has, only the necessary tests are stated; the tables are sequences.
- BitwiseDecoder.BitwiseDecoder.DecodeHuffman: streams that lead behind the end of the tree are excluded (`StaysInside`, which `HuffmanLone.LeavesTree` shows to be necessary); there the code fails an assertion or reads what is not its own.
- InflateBlock.ZBuf.ParseHuffmanBlock: room up to 2^31 bytes is guaranteed to suffice; what the code can still allocate between that and 2^32 is not stated. The initial capacity is above 0.
- Inflate.BitReader.FillBits: the guard against too large a code buffer is shown never to fire from legal states, so the branch it protects is not modelled further.
- BitwiseDecoder.BitwiseDecoder.DecodeTruncatedBinary: for `n` below 2^31, where the shifts are defined; `BitwiseDecoder.BitwiseDecoder.DecodeRice` and `DecodeVlc` for parameters 1 to 31. Assertions of the code are preconditions.
- GraphColoring.TryAddEdge: -1 contributes no bit to the mask of used colours, as the surrounding mask intends; arrays have exactly the length of the vertex count, and the graph handed over is undirected and loop-free.
- InkTrap.ColorShape: corner indices and lengths are inputs; flags and colours are separate sequences instead of fields of corner records; of edges that are split only the colours of the parts are modelled.
- InkTrap.Trichotomy: over exact reals; rounding next to the cuts is not captured.
- DistanceFinder.ShapeDistanceFinder.Distance: exact reals and an abstract metric in which absolute edge distances are 1-Lipschitz; rounding is not captured. The initial distance (-DBL_MAX) absorbs what is added to it, as it does in double precision for movements far below it.
- QoaFile.Encode: mathematical integers; that weights stay below three million in absolute value at the start of every frame is a hypothesis (`AlwaysModerate`), under which no rank reaches the search's limit; for `FileLockstep` those of the frame and channel have to fit 16 bits, since the format stores no more. Overflow of weights, predictions and file sizes in 32 bits is not captured. Sample counts are below 2^31, where the code's signed clamping works. Bytes are appended to a sequence instead of written to a buffer.
- QoaFile.Decode: an access outside an array ends decoding with its own result, where the code's behaviour is undefined; buffers whose size is negative in 32 bits count as holding nothing.
- QoaSlice.SearchSlice: the candidate filter and slice are uninitialised in the code before the first improvement and arbitrary initial values here; from bounded weights an improvement always happens.
- HashMap.HashMap.Erase: the table is a sequence, so aliasing of nodes and update in place are not captured; equality is `==`, and hash functions are without state.
- HashMap.NextPow2: rounding up to a power of two is modelled by its meaning, not by its bit-smearing steps.
- GifColors.FillBackground: the colour of undrawn pixels in later frames and the disposal of frames are not modelled.
- FindSorted.FindSorted: on vectors shorter than 2^31.
- GifLzw.Gif.ProcessRaster: positions behind the end of the input, where only zeros are read, count on; canvas and history have one entry per pixel instead of four bytes.
- GifLzwInverse.StreamDecompresses: code sizes 1 to 11; with 12 the format's 4096 codes are used up before the first string, and with 0 the initial codes cannot express the end code. The compressor clears the table when it is full.
- PngImage.CreateImageRaw: failing allocation and addresses in the output (rows are appended); widths are at least 1. One loop stands for the three unpacking loops of depths 1, 2 and 4.
- PngInterlace.CreateImage: the final image is a sequence of pixels instead of bytes.
- Qoi.Encode: null pointers and failing allocation.

Not modelled:

- zlib and gzip headers, stored blocks and the reading of dynamic code lengths; PNG chunks, palettes, transparency keys and the CgBI variant; GIF headers, other extensions and disposal between frames.
- JPEG, BMP, TGA, PSD, PIC, HDR, PNM and WebP; SIMD variants.
- msdfgen's curve geometry, root finding, scanlines, error correction, the perpendicular and multi-channel selectors, corner detection, splitting of edges, and the distance-based colouring around the graph core.
- Iterators, the other container operations and memory management of basisu's containers; its transcoder proper.
- QOI and QOA file input and output and error recording; all command-line tools and benchmarks.
- rpmalloc, xxHash, miniaudio, GLFW, LiquidFun and libwebp are not part of this model.
