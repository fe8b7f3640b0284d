/** The PNG writer of `PngEncoder`: the eight-byte signature, then the IHDR,
    IDAT and IEND chunks (sections 5.2, 5.3 and 11.2 of the W3C PNG
    Specification, Second Edition). Every chunk is its length, its type, its
    data and the CRC-32 of type and data, numbers big-endian. */
module Png {
  import opened Bytes
  import Crc32
  import Filter
  import Codec

  const PNG_SIGNATURE: seq<byte> := [137, 80, 78, 71, 13, 10, 26, 10]

  const IHDR: seq<byte> := [73, 72, 68, 82]
  const IDAT: seq<byte> := [73, 68, 65, 84]
  const IEND: seq<byte> := [73, 69, 78, 68]

  /** The `std::io::Write` sink the encoder writes to: everything written so
      far. `write_all` always succeeds here. */
  class Writer {
    var written: seq<byte>

    constructor ()
      ensures written == []
    {
      written := [];
    }

    /** `write_all`: appends the bytes. */
    method WriteAll(bytes: seq<byte>)
      modifies this
      ensures written == old(written) + bytes
    {
      written := written + bytes;
    }
  }

  /** The bytes of one chunk. The length field is `data.len() as u32`, so a
      length of 2^32 or more is written modulo 2^32. */
  function ChunkBytes(chunkType: seq<byte>, data: seq<byte>): seq<byte>
  {
    BE32(AsU32(|data|)) + chunkType + data + BE32(Crc32.Checksum(chunkType + data))
  }

  /** A chunk without data is its zero length, its type and the CRC of the
      type alone. */
  lemma EmptyChunk(chunkType: seq<byte>)
    ensures ChunkBytes(chunkType, []) == [0, 0, 0, 0] + chunkType + BE32(Crc32.Checksum(chunkType))
  {
    assert chunkType + [] == chunkType;
    assert BE32(0) == [0, 0, 0, 0];
  }

  /** The IEND chunk is the same twelve bytes in every file. */
  lemma IendChunk()
    ensures ChunkBytes(IEND, []) == [0, 0, 0, 0] + IEND + [0xAE, 0x42, 0x60, 0x82]
  {
    EmptyChunk(IEND);
    Crc32.IendValue();
    var crc := [0xAE, 0x42, 0x60, 0x82];
    BE32OfFromBE32(crc);
    assert FromBE32(crc) == 0xAE42_6082;
    assert BE32(Crc32.Checksum(IEND)) == crc;
  }

  /** An encoder for a `width` by `height` RGBA image with 8 bits per
      channel, compressing with the custom codec. */
  datatype PngEncoder = PngEncoder(width: u32, height: u32, bitDepth: byte, colorType: byte)
  {
    /** The thirteen data bytes of IHDR: width and height big-endian, bit
        depth, colour type, and compression, filter and interlace methods 0. */
    function IhdrData(): seq<byte>
    {
      BE32(width) + BE32(height) + [bitDepth, colorType, 0, 0, 0]
    }

    /** The data of IDAT: the filtered scanlines, compressed. */
    function IdatData(image: seq<byte>): seq<byte>
      requires |image| == Filter.Mul(height, width * Filter.BYTES_PER_PIXEL)
    {
      Codec.Compress(Filter.FilterRows(image, width * Filter.BYTES_PER_PIXEL, height))
    }

    /** The whole file `encode` writes for `image`. */
    function File(image: seq<byte>): seq<byte>
      requires |image| == Filter.Mul(height, width * Filter.BYTES_PER_PIXEL)
    {
      PNG_SIGNATURE + ChunkBytes(IHDR, IhdrData()) + ChunkBytes(IDAT, IdatData(image)) + ChunkBytes(IEND, [])
    }

    /** `write_chunk`: length, type, data, and the CRC that a hasher fed
        first the type and then the data finalises to. */
    method WriteChunk(writer: Writer, chunkType: seq<byte>, data: seq<byte>)
      modifies writer
      ensures writer.written == old(writer.written) + ChunkBytes(chunkType, data)
    {
      var crc := Crc32.Update(Crc32.INITIAL, chunkType);
      crc := Crc32.Update(crc, data);
      var crcValue := Crc32.Finalize(crc);
      Crc32.UpdateAppend(Crc32.INITIAL, chunkType, data);
      assert crcValue == Crc32.Checksum(chunkType + data);
      ghost var before := writer.written;
      var length := BE32(AsU32(|data|));
      writer.WriteAll(length);
      writer.WriteAll(chunkType);
      writer.WriteAll(data);
      writer.WriteAll(BE32(crcValue));
      Reassociate(before, length, chunkType, data, BE32(crcValue));
    }

    /** `write_ihdr`. */
    method WriteIhdr(writer: Writer)
      modifies writer
      ensures writer.written == old(writer.written) + ChunkBytes(IHDR, IhdrData())
    {
      var chunkData := BE32(width) + BE32(height);
      chunkData := chunkData + [bitDepth];
      chunkData := chunkData + [colorType];
      chunkData := chunkData + [0];
      chunkData := chunkData + [0];
      chunkData := chunkData + [0];
      PushedBytes(BE32(width) + BE32(height), bitDepth, colorType, 0, 0, 0);
      WriteChunk(writer, IHDR, chunkData);
    }

    /** `write_idat`: filter, compress, write one chunk. */
    method WriteIdat(image: seq<byte>, writer: Writer)
      requires |image| == Filter.Mul(height, width * Filter.BYTES_PER_PIXEL)
      modifies writer
      ensures writer.written == old(writer.written) + ChunkBytes(IDAT, IdatData(image))
    {
      var filteredData := Filter.ApplyFilters(width, height, image);
      var compressedData := Codec.CompressData(filteredData);
      WriteChunk(writer, IDAT, compressedData);
    }

    /** `write_iend`: a chunk with no data. */
    method WriteIend(writer: Writer)
      modifies writer
      ensures writer.written == old(writer.written) + ChunkBytes(IEND, [])
    {
      WriteChunk(writer, IEND, []);
    }

    /** `encode`: the signature and the three chunks, in order. */
    method Encode(image: seq<byte>, writer: Writer)
      requires |image| == Filter.Mul(height, width * Filter.BYTES_PER_PIXEL)
      modifies writer
      ensures writer.written == old(writer.written) + File(image)
    {
      ghost var before := writer.written;
      writer.WriteAll(PNG_SIGNATURE);
      WriteIhdr(writer);
      WriteIdat(image, writer);
      WriteIend(writer);
      Reassociate(before, PNG_SIGNATURE, ChunkBytes(IHDR, IhdrData()), ChunkBytes(IDAT, IdatData(image)), ChunkBytes(IEND, []));
    }
  }

  /** `PngEncoder::new`: 8 bits per channel, colour type 6 (RGBA). */
  function New(width: u32, height: u32): PngEncoder
  {
    PngEncoder(width, height, 8, 6)
  }
}
