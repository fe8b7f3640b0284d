/** A reference reader for the files `PngEncoder` writes, the partner the
    writer is proved against: it splits chunks and checks their CRC-32 the
    way a PNG decoder does (section 5.3 of the W3C PNG Specification, Second
    Edition), accepts exactly the layout signature, IHDR, one IDAT, IEND,
    and undoes the compression and the Sub filter. */
module PngReader {
  import opened Bytes
  import Crc32
  import Filter
  import Codec
  import opened Png

  datatype Chunk = Chunk(chunkType: seq<byte>, data: seq<byte>)

  /** An RGBA image: `pixels` holds `height` rows of `4 * width` bytes. */
  datatype Image = Image(width: u32, height: u32, pixels: seq<byte>)

  /** Splits one chunk off the front of `s`: its length, type, data and a
      CRC that must match type and data. */
  function ParseChunk(s: seq<byte>): Option<(Chunk, seq<byte>)>
  {
    if |s| < 12 then None
    else
      var length := FromBE32(s[..4]);
      if |s| - 12 < length then None
      else
        var chunkType := s[4..8];
        var data := s[8..8 + length];
        if FromBE32(s[8 + length..12 + length]) != Crc32.Checksum(chunkType + data) then None
        else Some((Chunk(chunkType, data), s[12 + length..]))
  }

  /** The fields of a chunk, found again at their offsets. */
  lemma ChunkFields(length: seq<byte>, chunkType: seq<byte>, data: seq<byte>, crc: seq<byte>, rest: seq<byte>)
    requires |length| == 4 && |chunkType| == 4 && |crc| == 4
    ensures var s := length + chunkType + data + crc + rest; var n := |data|;
      && s[..4] == length && s[4..8] == chunkType && s[8..8 + n] == data
      && s[8 + n..12 + n] == crc && s[12 + n..] == rest
  {
  }

  /** A sequence is its fields at the chunk offsets, put back together. */
  lemma ChunkJoin(s: seq<byte>, n: nat)
    requires 12 + n <= |s|
    ensures s == s[..4] + s[4..8] + s[8..8 + n] + s[8 + n..12 + n] + s[12 + n..]
  {
  }

  /** A chunk the writer produced is read back as that chunk, whatever
      follows it, as long as its data fits the 32-bit length field. */
  lemma ParseChunkBytes(chunkType: seq<byte>, data: seq<byte>, rest: seq<byte>)
    requires |chunkType| == 4 && |data| < 0x1_0000_0000
    ensures ParseChunk(ChunkBytes(chunkType, data) + rest) == Some((Chunk(chunkType, data), rest))
  {
    var n := |data|;
    var crc := BE32(Crc32.Checksum(chunkType + data));
    var s := ChunkBytes(chunkType, data) + rest;
    assert s == BE32(n) + chunkType + data + crc + rest;
    ChunkFields(BE32(n), chunkType, data, crc, rest);
    FromBE32OfBE32(n);
    FromBE32OfBE32(Crc32.Checksum(chunkType + data));
    assert FromBE32(s[..4]) == n;
    assert FromBE32(s[8 + n..12 + n]) == Crc32.Checksum(s[4..8] + s[8..8 + n]);
  }

  /** Conversely, whatever `ParseChunk` accepts is a chunk the writer would
      produce for that type and data, followed by the rest. */
  lemma ParsedChunkIsChunkBytes(s: seq<byte>)
    requires ParseChunk(s).Some?
    ensures var (chunk, rest) := ParseChunk(s).value;
      |chunk.chunkType| == 4 && |chunk.data| < 0x1_0000_0000 &&
      s == ChunkBytes(chunk.chunkType, chunk.data) + rest
  {
    var n := FromBE32(s[..4]);
    BE32OfFromBE32(s[..4]);
    BE32OfFromBE32(s[8 + n..12 + n]);
    ChunkJoin(s, n);
  }

  /** A chunk whose CRC field differs from the CRC-32 of its type and data
      is refused. */
  lemma CorruptedCrc(chunkType: seq<byte>, data: seq<byte>, crc: seq<byte>, rest: seq<byte>)
    requires |chunkType| == 4 && |data| < 0x1_0000_0000 && |crc| == 4
    requires crc != BE32(Crc32.Checksum(chunkType + data))
    ensures ParseChunk(BE32(|data|) + chunkType + data + crc + rest) == None
  {
    ChunkFields(BE32(|data|), chunkType, data, crc, rest);
    FromBE32OfBE32(|data|);
    BE32OfFromBE32(crc);
  }

  /** The chunk layout of a file the encoder writes: the signature, an IHDR,
      one IDAT, an empty IEND and nothing after. Gives the IHDR and IDAT data. */
  function ReadChunks(file: seq<byte>): Option<(seq<byte>, seq<byte>)>
  {
    if |file| < 8 || file[..8] != PNG_SIGNATURE then None
    else
      match ParseChunk(file[8..])
      case None => None
      case Some((ihdr, afterIhdr)) =>
        match ParseChunk(afterIhdr)
        case None => None
        case Some((idat, afterIdat)) =>
          if ihdr.chunkType != IHDR || idat.chunkType != IDAT || ParseChunk(afterIdat) != Some((Chunk(IEND, []), [])) then None
          else Some((ihdr.data, idat.data))
  }

  /** The IHDR the encoder writes: width, height, 8-bit RGBA, compression,
      filter and interlace methods 0. Gives width and height. */
  function ReadHeader(ihdr: seq<byte>): Option<(u32, u32)>
  {
    if |ihdr| != 13 || ihdr[8..] != [8, 6, 0, 0, 0] then None
    else Some((FromBE32(ihdr[..4]), FromBE32(ihdr[4..8])))
  }

  /** The pixels of a `width` by `height` image from the IDAT data:
      decompressed, of the right size, and unfiltered row by row. */
  function ReadPixels(width: u32, height: u32, idat: seq<byte>): Option<seq<byte>>
  {
    match Codec.Decompress(idat)
    case Err(_) => None
    case Ok(filtered) =>
      var stride := width * Filter.BYTES_PER_PIXEL;
      if |filtered| != Filter.Mul(height, stride + 1) then None
      else Filter.UnfilterRows(filtered, stride, height)
  }

  /** Reads a file of the shape the encoder writes. */
  function ReadPng(file: seq<byte>): Option<Image>
  {
    match ReadChunks(file)
    case None => None
    case Some((ihdr, idat)) =>
      match ReadHeader(ihdr)
      case None => None
      case Some((width, height)) =>
        match ReadPixels(width, height, idat)
        case None => None
        case Some(pixels) => Some(Image(width, height, pixels))
  }

  /** The IHDR data, read back field by field. */
  lemma IhdrFields(encoder: PngEncoder)
    ensures var d := encoder.IhdrData();
      && |d| == 13 && d[8..] == [encoder.bitDepth, encoder.colorType, 0, 0, 0]
      && FromBE32(d[..4]) == encoder.width && FromBE32(d[4..8]) == encoder.height
  {
    var d := encoder.IhdrData();
    assert d[..4] == BE32(encoder.width) && d[4..8] == BE32(encoder.height);
    FromBE32OfBE32(encoder.width);
    FromBE32OfBE32(encoder.height);
  }

  lemma SplitFile(signature: seq<byte>, c1: seq<byte>, c2: seq<byte>, c3: seq<byte>)
    requires |signature| == 8
    ensures var file := signature + c1 + c2 + c3;
      file[..8] == signature && file[8..] == c1 + (c2 + c3)
  {
    var file := signature + c1 + c2 + c3;
    assert file == signature + (c1 + (c2 + c3));
  }

  /** The chunks of a written file are found again, with their data. */
  lemma ReadChunksOfFile(encoder: PngEncoder, image: seq<byte>)
    requires |image| == Filter.Mul(encoder.height, encoder.width * Filter.BYTES_PER_PIXEL)
    requires |encoder.IdatData(image)| < 0x1_0000_0000
    ensures ReadChunks(encoder.File(image)) == Some((encoder.IhdrData(), encoder.IdatData(image)))
  {
    IhdrFields(encoder);
    ReadThreeChunks(encoder.IhdrData(), encoder.IdatData(image));
  }

  /** A signature, an IHDR, an IDAT and an empty IEND are found again, with
      their data, whatever the IHDR and IDAT data are, as long as they fit
      the 32-bit length field. */
  lemma ReadThreeChunks(ihdr: seq<byte>, idat: seq<byte>)
    requires |ihdr| < 0x1_0000_0000 && |idat| < 0x1_0000_0000
    ensures ReadChunks(PNG_SIGNATURE + ChunkBytes(IHDR, ihdr) + ChunkBytes(IDAT, idat) + ChunkBytes(IEND, [])) == Some((ihdr, idat))
  {
    var c1 := ChunkBytes(IHDR, ihdr);
    var c2 := ChunkBytes(IDAT, idat);
    var c3 := ChunkBytes(IEND, []);
    SplitFile(PNG_SIGNATURE, c1, c2, c3);
    ParseChunkBytes(IHDR, ihdr, c2 + c3);
    ParseChunkBytes(IDAT, idat, c3);
    ParseIend();
  }

  /** The IEND chunk is read back as the last chunk. */
  lemma ParseIend()
    ensures ParseChunk(ChunkBytes(IEND, [])) == Some((Chunk(IEND, []), []))
  {
    ParseChunkBytes(IEND, [], []);
    assert ChunkBytes(IEND, []) + [] == ChunkBytes(IEND, []);
  }

  /** The pixels of an image are found again from the IDAT data. */
  lemma ReadPixelsOfIdat(encoder: PngEncoder, image: seq<byte>)
    requires |image| == Filter.Mul(encoder.height, encoder.width * Filter.BYTES_PER_PIXEL)
    ensures ReadPixels(encoder.width, encoder.height, encoder.IdatData(image)) == Some(image)
  {
    var stride := encoder.width * Filter.BYTES_PER_PIXEL;
    var filtered := Filter.FilterRows(image, stride, encoder.height);
    Filter.UnfilterFilterRows(image, stride, encoder.height);
    assert image[..Filter.Mul(encoder.height, stride)] == image;
    ReadCompressed(encoder.width, encoder.height, filtered, image);
  }

  /** Compressed rows of the right size, which unfilter to `pixels`, are
      read as `pixels`. */
  lemma ReadCompressed(width: u32, height: u32, filtered: seq<byte>, pixels: seq<byte>)
    requires |filtered| == Filter.Mul(height, width * Filter.BYTES_PER_PIXEL + 1)
    requires Filter.UnfilterRows(filtered, width * Filter.BYTES_PER_PIXEL, height) == Some(pixels)
    ensures ReadPixels(width, height, Codec.Compress(filtered)) == Some(pixels)
  {
    Codec.RoundTrip(filtered);
  }

  /** Reading what `encode` writes for an image gives the image back: its
      width, its height and every pixel byte, whenever the IDAT data fits
      the 32-bit length field. */
  lemma ReadEncoded(width: u32, height: u32, image: seq<byte>)
    requires |image| == Filter.Mul(height, width * Filter.BYTES_PER_PIXEL)
    requires |New(width, height).IdatData(image)| < 0x1_0000_0000
    ensures ReadPng(New(width, height).File(image)) == Some(Image(width, height, image))
  {
    var encoder := New(width, height);
    ReadChunksOfFile(encoder, image);
    IhdrFields(encoder);
    assert ReadHeader(encoder.IhdrData()) == Some((width, height));
    ReadPixelsOfIdat(encoder, image);
  }

  /** An image small enough that even data that does not compress at all
      fits the 32-bit length field is always read back. */
  lemma ReadEncodedWithinBound(width: u32, height: u32, image: seq<byte>)
    requires |image| == Filter.Mul(height, width * Filter.BYTES_PER_PIXEL)
    requires 2 * Filter.Mul(height, width * Filter.BYTES_PER_PIXEL + 1) + 6 < 0x1_0000_0000
    ensures ReadPng(New(width, height).File(image)) == Some(Image(width, height, image))
  {
    IdatFits(width, height, image);
    ReadEncoded(width, height, image);
  }

  /** Below that bound the IDAT data always fits the 32-bit length field. */
  lemma IdatFits(width: u32, height: u32, image: seq<byte>)
    requires |image| == Filter.Mul(height, width * Filter.BYTES_PER_PIXEL)
    requires 2 * Filter.Mul(height, width * Filter.BYTES_PER_PIXEL + 1) + 6 < 0x1_0000_0000
    ensures |New(width, height).IdatData(image)| < 0x1_0000_0000
  {
    var stride := width * Filter.BYTES_PER_PIXEL;
    Filter.FilterRowsLength(image, stride, height);
    Codec.CompressLength(Filter.FilterRows(image, stride, height));
  }
}
