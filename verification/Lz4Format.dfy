/**
  The bytes of an LZ4 legacy stream (native/src/boot/compress.rs), and what is made of streams that no encoder wrote.
 */
module Lz4Format {
  import opened Wrappers
  import opened Bytes
  import opened Lz4Block

  /** A stream of data that is written at once: the magic, blocks, and in LG form the length. */
  lemma {:induction false} StreamBytes(data: bytes, isLg: bool, codec: Codec)
    requires data != []
    ensures Encoded([0], data, isLg, codec)
         == [0x02, 0x21, 0x4c, 0x18] + Blocks(data, codec) + if isLg then LE32(|data| % 0x1_0000_0000) else []
  {
    hide Block, Blocks;
    LittleEndian(0x02, 0x21, 0x4c, 0x18);
    assert [0][1..] == [];
    OutMarked(0, [0], data, codec);
    OutIsBlocks(0, data, codec);
  }

  /** Each block has up to 8 MiB of the data, compressed, with the compressed length in front. */
  lemma BlockBytes(data: bytes, codec: Codec)
    requires codec.IsValid() && data != []
    ensures var n := if |data| < 8388608 then |data| else 8388608;
            var c := codec.compress(data[..n]);
            |c| < 0x1_0000_0000 && Blocks(data, codec) == LE32(|c|) + c + Blocks(data[n..], codec)
  {
    var n := FirstChunkIs(data);
    var c := codec.compress(data[..n]);
    assert |c| % U32 == |c|;
  }

  /** Whatever follows whole blocks is decoded as it is without them. */
  lemma {:induction false} DecodeBlocks(data: bytes, rest: bytes, codec: Codec)
    requires codec.IsValid()
    ensures Decode(Blocks(data, codec) + rest, codec)
         == Decoded(data + Decode(rest, codec).data, Decode(rest, codec).ok)
    decreases |data|
  {
    hide Codec.IsValid, Decode, Block, NextBlock, FirstChunk;
    if data == [] {
      assert Blocks(data, codec) + rest == rest;
    } else {
      var n := FirstChunkIs(data);
      var chunk, more := data[..n], data[n..];
      var tail := Blocks(more, codec) + rest;
      BlockComesBack(chunk, tail, codec);
      assert Blocks(data, codec) + rest == Block(chunk, codec) + tail;
      DecodeNext(Block(chunk, codec) + tail, codec);
      DecodeBlocks(more, rest, codec);
      assert chunk + more == data;
    }
  }

  /** A block that breaks off or cannot be decompressed is an error; a length of zero, or one that no block can have,
      ends the stream, and so do fewer than four bytes. */
  lemma {:induction false} OddBlocks(size: u32, s: bytes, codec: Codec)
    requires size != 0x184c2102
    ensures 0 < size <= 8421520 && 0 < |s| < size ==> Decode(LE32(size) + s, codec) == Decoded([], false)
    ensures 0 < size <= 8421520 && size <= |s| && codec.decompress(s[..size]).None? ==>
              Decode(LE32(size) + s, codec) == Decoded([], false)
    ensures size == 0 || size > 8421520 || s == [] ==> Decode(LE32(size) + s, codec) == Decoded([], true)
    ensures |s| < 4 ==> Decode(s, codec) == Decoded([], true)
  {
    hide LE32, Word;
    WordRoundTrip(size, s);
    DecodeNext(LE32(size) + s, codec);
    DecodeNext(s, codec);
  }
}
