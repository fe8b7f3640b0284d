# rpng encoder, modelled in Dafny

`rpng` turns an RGBA raster into a PNG file with its own `PngEncoder`
(`src/encoder.rs`). This project models that encoder with the `Custom`
compression method and proves what it promises. The encoder is built from
three parts:

- **Custom codec.** `compress_data` wraps the token stream of
  `simple_deflate` between the zlib header `0x78 0x9C` and a big-endian
  Adler-32 trailer. `simple_deflate` is a greedy LZ77 coder that gets its
  matches from the brute-force `find_longest_match`. The token grammar is
  the project's own, not DEFLATE:
  - a byte other than 0xFF stands for itself;
  - `0xFF 0xFF` is a literal 0xFF;
  - `0xFF lo hi n` copies `n` bytes from distance `lo + 256*hi`, and the
    copy may overlap itself.

  `decompress_data` and `simple_inflate` undo the coding and reject
  malformed input with six distinct errors.
- **Sub scanline filter.** `apply_filters` gives every row filter type 1
  with 4 bytes per pixel.
- **Chunk writer.** `write_chunk`, `write_ihdr`, `write_idat`, `write_iend`
  and `encode` append the signature and the IHDR, IDAT and IEND chunks to a
  writer.

Each loop of the source is a Dafny method with loop invariants. Each method
is proved equal to a recursive specification function, and the properties
are lemmas about those functions. The writer is a class whose byte sequence
only grows. `PngEncoder`'s fields are set once and never change, so it is a
datatype.

The specification of the coder, `Codec.DeflateFrom`, takes the search
result at each position from `Codec.Matches`, which holds what
`find_longest_match` returns at every position of the input.
`simple_deflate` calls the search only at the positions it reaches, and
`Codec.SimpleDeflate` is proved to produce the same stream.

Two reference definitions act as partners:

- `Crc32` is a bitwise CRC-32, following section 5.5 of the W3C PNG
  Specification (Second Edition).
- `PngReader` is a reader that checks CRCs, decompresses and unfilters. The
  writer is proved against it: reading an encoded image gives the image
  back.

Files:

| file | module | contents |
|---|---|---|
| `bytes.dfy` | `Bytes` | bytes, `u32`, `as u32`, big-endian conversion |
| `adler32.dfy` | `Adler32` | `adler32` |
| `crc32.dfy` | `Crc32` | reference CRC-32 |
| `lz_match.dfy` | `Match` | `find_longest_match` |
| `codec.dfy` | `Codec` | `simple_deflate`, `simple_inflate`, `compress_data`, `decompress_data`, `test_compression` |
| `filter.dfy` | `Filter` | `apply_filters` and its inverse |
| `png.dfy` | `Png` | the writer, `write_chunk`, `write_ihdr`, `write_idat`, `write_iend`, `encode` |
| `png_reader.dfy` | `PngReader` | the reference reader |

## Model

| member | source | states |
|---|---|---|
| Bytes.AsU32 | src/encoder.rs:86 | `n as u32` leaves every length below 2^32 unchanged |
| Bytes.FromBE32OfBE32 | src/encoder.rs:145 | `u32::from_be_bytes` reads back what `to_be_bytes` wrote |
| Bytes.BE32OfFromBE32 | src/encoder.rs:257-262 | every four bytes are the big-endian form of the number read from them, so two different numbers never share a trailer |
| Adler32.SumA | src/encoder.rs:229-230 | the running sum `a` is 1 on empty input and below 65521 after any byte |
| Adler32.SumB | src/encoder.rs:229-231 | the running sum `b` is always below 65521 |
| Adler32.SumsAreReducedRawSums | src/encoder.rs:224-235 | reducing after every byte, as the loop does, gives the unreduced sums of RFC 1950 taken modulo 65521 |
| Adler32.SumsAppend | src/encoder.rs:229-232 | one more byte updates `a` and then `b` exactly as the loop body does |
| Adler32.ComputeAdler32 | src/encoder.rs:224-235 | the loop keeps both sums below 65521 and returns `(b << 16) \| a` of the whole input |
| Adler32.KnownValues | src/encoder.rs:416-423 | the checksums of "", "a" and "abc" are 1, 0x00620062 and 0x024d0127 |
| Adler32.MessageDigestValue | src/encoder.rs:424 | the checksum of "message digest" is 0x29750586 |
| Adler32.MessageDigestSteps | src/encoder.rs:424 | the same value, one byte of the loop at a time |
| Crc32.UpdateAppend | src/encoder.rs:92-95 | feeding the chunk type and then the data gives the CRC of their concatenation |
| Crc32.IendValue | src/encoder.rs:75-78 | the CRC-32 of the type `IEND` is 0xAE426082 |
| Crc32.IendSteps | src/encoder.rs:75-78 | the same value, one byte of the register at a time |
| Match.WrapIsMod | src/encoder.rs:210 | the offset `length % distance` into the window is `length` with `distance` subtracted until it falls below `distance` |
| Match.MatchFromStopsAtMismatch | src/encoder.rs:207-213 | counting on from `k`, the inner loop ends between `k` and `min(258, len - pos)`, matches every byte it passes and stops at the first mismatch or at the cap |
| Match.MatchLengthIsLongest | src/encoder.rs:203-213 | a prefix repeats from `distance` back, modulo `distance`, if and only if it is no longer than the match length |
| Match.BestUpToBounds | src/encoder.rs:199-219 | the best pair has length 0 and distance 0, or a distance in range whose match length it is |
| Match.BestUpToIsBest | src/encoder.rs:215-218 | no distance scanned matches longer, and every smaller distance matches strictly shorter, so ties keep the smallest distance |
| Match.LongestMatchSpec | src/encoder.rs:198-222 | `(0,0)` at position 0; otherwise the length is within the cap, the bytes really repeat, no distance in the window repeats longer, and no smaller distance repeats as long |
| Match.FindLongestMatch | src/encoder.rs:198-222 | the nested loops return the best pair over distances `1..=min(pos, 32768)` |
| Codec.CopyRun | src/encoder.rs:310-317 | a back-reference appends exactly `length` bytes |
| Codec.RepeatIsCopyRun | src/encoder.rs:310-317 | when the input repeats at a distance, copying byte by byte from the growing output reproduces it, even when the copy overlaps itself |
| Codec.LongestMatchFits | src/encoder.rs:198-222 | the pair `find_longest_match` returns reaches back no further than the start of the input and forward no further than its end |
| Codec.Matches | src/encoder.rs:162 | the search result at every position fits that position, so the coder may ask at any position it reaches |
| Codec.Choose | src/encoder.rs:161-193 | given a search result that fits, a back-reference stands for at least 4 bytes, all inside the input, and reaches back only into bytes already coded |
| Codec.ChooseDiscipline | src/encoder.rs:161-193 | a literal is `data[i]`; a back-reference has a distance in `1..=min(i, 32768)` whose low byte is not 0xFF, a length in 4..=255, and stands for the bytes it copies |
| Codec.DeflateFromLength | src/encoder.rs:157-196 | the token stream is at most twice as long as the input |
| Codec.CompressLength | src/encoder.rs:129-148 | the compressed data is at most `2 * len + 6` bytes |
| Codec.Inflate | src/encoder.rs:275-329 | decoding only ever appends to the output produced so far |
| Codec.LiteralStream | src/encoder.rs:320-325 | a stream without 0xFF decodes to itself |
| Codec.InflateToken | src/encoder.rs:279-326 | the decoder reads back one token the coder can emit and appends what it stands for |
| Codec.InflateLiteral | src/encoder.rs:286-324 | a literal token, escaped or not, is decoded as its one byte, whatever follows |
| Codec.InflateBackRef | src/encoder.rs:291-318 | a back-reference token with a distance within the output appends the run it copies, whatever follows |
| Codec.ExpandToken | src/encoder.rs:161-193 | a literal of `data[i]`, or a back-reference whose run equals the next bytes, extends `data[..i]` to the bytes the coder advances over |
| Codec.ExpandChosen | src/encoder.rs:161-193 | the token chosen at `i` expands to exactly the input bytes it advances over |
| Codec.InflateDeflateFromThen | src/encoder.rs:157-196 | decoding the tokens emitted from `i` on, after `data[..i]`, reaches the output `data` and then decodes whatever follows exactly as it would after `data` |
| Codec.InflateDeflateFrom | src/encoder.rs:157-196 | decoding the tokens emitted from `i` on, after `data[..i]`, gives `data` |
| Codec.Compress | src/encoder.rs:129-148 | compression never fails; the result has at least 6 bytes, starts `0x78 0x9C` and ends with the Adler-32 of the input |
| Codec.Decompress | src/encoder.rs:237-273 | whatever is accepted has the header and a trailer equal to the Adler-32 of the output |
| Codec.RoundTrip | src/encoder.rs:332-340 | every input, empty or holding 0xFF included, decompresses to itself |
| Codec.TamperedTrailer | src/encoder.rs:257-270 | any other trailer makes decompression fail with a checksum mismatch |
| Codec.MalformedFrame | src/encoder.rs:238-250 | fewer than six bytes fail as too short; otherwise a first two bytes other than `0x78 0x9C` fail as an invalid header |
| Codec.FrameError | src/encoder.rs:253-255 | a token stream that fails to decode makes the whole input fail with the same error, whatever the trailer |
| Codec.DeflateThen | src/encoder.rs:157-196 | the token stream of `data` followed by more bytes decodes as `data` and then those bytes after `data` |
| Codec.TruncatedEscape | src/encoder.rs:280-286 | a stream that ends in a lone 0xFF fails with "Unexpected end of data" |
| Codec.TruncatedBackReference | src/encoder.rs:292-299 | a stream that ends one or two bytes after the 0xFF of a back-reference fails with "Incomplete back-reference" |
| Codec.InvalidBackReferenceAfter | src/encoder.rs:301-309 | a back-reference with distance 0, a distance beyond the output so far, or length 0 fails with "Invalid back-reference parameters", whatever follows it |
| Codec.EmitChosen | src/encoder.rs:161-193 | after the token chosen at `start` is emitted and the position advances, what was emitted plus the tokens from the new position is still the whole stream |
| Codec.SimpleDeflate | src/encoder.rs:157-196 | the loop emits the token stream of the whole input |
| Codec.SimpleInflate | src/encoder.rs:275-329 | the loop, copying out of the buffer it grows, decodes the stream or fails with the first error |
| Codec.CompressData | src/encoder.rs:129-148 | the Custom arm returns header, token stream and big-endian Adler-32 |
| Codec.DecompressData | src/encoder.rs:237-273 | checks length, header, token stream and checksum, in that order |
| Codec.TestCompression | src/encoder.rs:332-340 | returns true for every input |
| Filter.FilterRowsLength | src/encoder.rs:104-106 | the filtered stream has `height * (stride + 1)` bytes |
| Filter.FilterRowsRow | src/encoder.rs:110-125 | row `y` of the output is the filter byte 1 and then raw row `y` after the Sub filter, with no other row involved |
| Filter.UnSubSubRow | src/encoder.rs:119-123 | adding back, modulo 256, the byte 4 to the left undoes the Sub filter on a row |
| Filter.UnfilterFilterRows | src/encoder.rs:102-127 | reading the filtered rows back gives the raw image |
| Filter.ApplyFilters | src/encoder.rs:102-127 | the nested loops produce the filtered stream of every row |
| Png.Writer.WriteAll | src/encoder.rs:42 | `write_all` appends the bytes and changes nothing else |
| Png.EmptyChunk | src/encoder.rs:75-78 | a chunk without data is a zero length, the type and the CRC of the type |
| Png.IendChunk | src/encoder.rs:75-78 | IEND is `0 0 0 0`, `IEND`, `AE 42 60 82` in every file |
| Png.PngEncoder.WriteChunk | src/encoder.rs:80-100 | appends the length as `u32`, the type, the data and the CRC of type and data |
| Png.PngEncoder.WriteIhdr | src/encoder.rs:53-65 | appends an IHDR of width, height, bit depth, colour type and three zeros |
| Png.PngEncoder.WriteIdat | src/encoder.rs:67-73 | appends one IDAT holding the compressed filtered image |
| Png.PngEncoder.WriteIend | src/encoder.rs:75-78 | appends an empty IEND |
| Png.PngEncoder.Encode | src/encoder.rs:41-51 | appends the signature, IHDR, IDAT and IEND, in that order |
| PngReader.ParseChunkBytes | src/encoder.rs:80-100 | a written chunk is read back as its type and data, whatever follows |
| PngReader.ParsedChunkIsChunkBytes | src/encoder.rs:80-100 | conversely, every accepted chunk is exactly what the writer produces for its type and data |
| PngReader.CorruptedCrc | src/encoder.rs:92-97 | a chunk whose CRC field is not the CRC-32 of type and data is refused |
| PngReader.IhdrFields | src/encoder.rs:53-65 | the 13 IHDR bytes give back width, height, bit depth and colour type |
| PngReader.ReadThreeChunks | src/encoder.rs:41-51 | a signature followed by an IHDR, an IDAT and an empty IEND is read back as the IHDR and IDAT data, for any data that fits the length field |
| PngReader.ReadChunksOfFile | src/encoder.rs:41-51 | the chunks of an encoded file are found again, in order, with their data |
| PngReader.ParseIend | src/encoder.rs:75-78 | the IEND chunk the writer emits is read back as type IEND with no data and nothing after it |
| PngReader.ReadPixelsOfIdat | src/encoder.rs:67-73 | the IDAT data decompresses and unfilters to the image |
| PngReader.ReadEncoded | src/encoder.rs:31-127 | reading what `encode` writes gives back the width, the height and every pixel byte, whenever the IDAT data fits the 32-bit length field |
| PngReader.IdatFits | src/encoder.rs:67-73 | for an image with `2 * height * (4 * width + 1) + 6 < 2^32`, the IDAT data is shorter than 2^32 bytes whatever the pixels |
| PngReader.ReadEncodedWithinBound | src/encoder.rs:31-127 | every image below that size is read back, however badly it compresses |

## Left out

- The `Flate2` compression method (src/encoder.rs:149-153) and its tests. It calls the external `flate2` crate. `PngEncoder` is modelled without a `compression_method` field, and every operation is the `Custom` arm.
- `crc32fast::Hasher` (src/encoder.rs:92-95) is an external crate. The model uses a bitwise reference CRC-32 in its place. `WriteChunk` feeds it the type and the data in two calls, as the source does.
- Image decoding through `DynamicImage::to_rgba8` (src/encoder.rs:107-108) is an external library. The model takes the raw RGBA bytes, `height * (4 * width)` of them. `Filter.Mul` is the product, written as repeated addition (`Filter.MulIsProduct`).
- I/O errors. `Writer.WriteAll` always succeeds, so the `?` propagation of `std::io::Result` in `encode`, `write_*` and `compress_data` is not modelled.
- `save_to_png_with_compression` and `File::create` (src/encoder.rs:343-351) are file I/O.
- `src/main.rs` is command-line handling and file I/O, and is not part of this model.
- The compression-ratio assertions and `println!` calls in the tests (src/encoder.rs:428-441, 470-492) are measurements, not contracts.
- The filter types None, Up, Average and Paeth (src/encoder.rs:14-20) are never used.
- PngReader.ReadEncoded: requires the IDAT data to be shorter than 2^32 bytes. `PngReader.ReadEncodedWithinBound` shows this holds for every image with `2 * height * (4 * width + 1) + 6 < 2^32`. Larger images often compress below the limit too and are covered. Once the IDAT data reaches 2^32 bytes, `write_chunk` truncates its length through `as u32` (modelled by `Bytes.AsU32`), and the model promises nothing about reading that file back.
- PngReader.ParseChunkBytes: stated only for data shorter than 2^32 bytes, for the same reason.
- Integer widths other than the chunk length. The model's integers are unbounded. The `usize` products of the source, `height * (stride + 1)` and `y * stride` (src/encoder.rs:105, 113), do not overflow on a 64-bit target for any image whose RGBA buffer from `to_rgba8` exists in memory. The `u32` types of width and height alone would not prevent it: at width = height = 2^32 - 1 both products exceed 2^64. The wrap-around for sizes no buffer can have is not modelled. `Filter.ApplyFilters` requires `|raw| == Mul(height, width * 4)`, which as a mathematical condition also admits such sizes. The Adler-32 sums stay below 2^32.
