/**
  The LZ4 block stream (native/src/boot/compress.rs), the chunker that feeds it
  (native/src/base/misc.rs) and the recognition of its LG variant (native/src/boot/bootimg.cpp).
 */
module Lz4Block {
  import opened Wrappers
  import opened Bytes

  const BLOCK_SIZE: nat := 0x800000
  const BOUND: nat := BLOCK_SIZE + BLOCK_SIZE / 255 + 16 // LZ4_compressBound
  const MAGIC: nat := 0x184c2102

  // ---- the block compressor ----

  datatype Codec = Codec(compress: bytes -> bytes, decompress: bytes -> Option<bytes>) {
    ghost predicate IsValid() {
      forall c: bytes | 0 < |c| <= BLOCK_SIZE ::
        0 < |compress(c)| <= BOUND && decompress(compress(c)) == Some(c)
    }
  }

  // ---- the chunker ----

  class Chunker {
    var chunk: array<byte>
    var chunkSize: nat
    var pos: nat

    ghost predicate Valid()
      reads this
    {
      pos < chunkSize <= chunk.Length
    }

    /** The bytes that do not fill a chunk yet. */
    ghost function Buffered(): bytes
      requires Valid()
      reads this, chunk
    {
      chunk[..pos]
    }

    constructor (size: nat)
      requires size > 0
      ensures Valid() && chunkSize == size && Buffered() == [] && fresh(chunk)
    {
      chunk := new byte[size](_ => 0);
      chunkSize := size;
      pos := 0;
    }

    /** Nothing is lost or reordered, chunks come out full, and either the input is used up or a
        chunk came out. */
    method AddData(buf: bytes) returns (rest: bytes, out: Option<bytes>)
      requires Valid()
      modifies this`pos, chunk
      ensures Valid()
      ensures old(Buffered()) + buf == out.GetOr([]) + Buffered() + rest
      ensures out.Some? ==> |out.value| == chunkSize && Buffered() == []
      ensures out.None? ==> rest == []
      ensures buf != [] ==> |rest| < |buf|
    {
      out := None;
      ghost var before := chunk[..pos];
      if pos > 0 {
        var len := if chunkSize - pos < |buf| then chunkSize - pos else |buf|;
        CopyIn(buf[..len]);
        rest := buf[len..];
        assert buf == buf[..len] + rest;
        if pos == chunkSize {
          out := Some(chunk[..chunkSize]);
          pos := 0;
        }
      } else if |buf| >= chunkSize {
        out := Some(buf[..chunkSize]);
        rest := buf[chunkSize..];
      } else {
        CopyIn(buf);
        rest := [];
      }
    }

    /** copy_from_slice at the current position */
    method CopyIn(data: bytes)
      requires pos + |data| <= chunkSize <= chunk.Length
      modifies this`pos, chunk
      ensures pos == old(pos) + |data| && chunk[..pos] == old(chunk[..pos]) + data
    {
      forall i | 0 <= i < |data| {
        chunk[pos + i] := data[i];
      }
      pos := pos + |data|;
    }

    method GetAvailable() returns (r: bytes)
      requires Valid()
      modifies this`pos
      ensures Valid() && r == old(Buffered()) && Buffered() == []
    {
      r := chunk[..pos];
      pos := 0;
    }
  }

  // ---- the stream ----

  /** One block: its compressed size, then its compressed bytes. */
  function Block(chunk: bytes, codec: Codec): bytes {
    var c := codec.compress(chunk);
    LE32(|c| % U32) + c
  }

  function FirstChunk(data: bytes): nat { if |data| < BLOCK_SIZE then |data| else BLOCK_SIZE }

  function Blocks(data: bytes, codec: Codec): bytes {
    if data == [] then [] else Block(data[..FirstChunk(data)], codec) + Blocks(data[FirstChunk(data)..], codec)
  }

  /** The stream from offset `at` of the data on: the magic at each mark that is reached, and the blocks. */
  function Out(at: nat, marks: seq<nat>, data: bytes, codec: Codec): bytes
    decreases |marks| + |data|
  {
    if marks != [] && marks[0] <= at then LE32(MAGIC) + Out(at, marks[1..], data, codec)
    else if data == [] then []
    else
      var n := FirstChunk(data);
      Block(data[..n], codec) + Out(at + n, marks, data[n..], codec)
  }

  /** The bytes behind the last block. */
  function Trailer(total: nat, isLg: bool): bytes { if isLg then LE32(total % U32) else [] }

  /** What the encoder has written in the end: the blocks, the magic where a write found the 32-bit counter at 0, and in
      LG form the size of the data. */
  function Encoded(marks: seq<nat>, data: bytes, isLg: bool, codec: Codec): bytes {
    Out(0, marks, data, codec) + Trailer(|data|, isLg)
  }

  /** Marks are in order, from one offset of the data to another, where the counter is 0. */
  predicate AreMarks(marks: seq<nat>, from: nat, to: nat) {
    && (forall i | 0 <= i < |marks| :: from <= marks[i] <= to && marks[i] % U32 == 0)
    && (forall i, j | 0 <= i < j < |marks| :: marks[i] <= marks[j])
  }

  lemma MarksAreWhole(n: nat)
    requires n % U32 == 0
    ensures n % BLOCK_SIZE == 0
  {
    assert U32 == 512 * BLOCK_SIZE;
    assert n == n / U32 * 512 * BLOCK_SIZE;
  }

  lemma WholeSums(a: nat, b: nat)
    requires a % BLOCK_SIZE == 0 && b % BLOCK_SIZE == 0
    ensures (a + b) % BLOCK_SIZE == 0 && (a > b ==> a - b >= BLOCK_SIZE)
  {
    var m, n := a / BLOCK_SIZE, b / BLOCK_SIZE;
    assert a == m * BLOCK_SIZE && b == n * BLOCK_SIZE;
    assert a + b == (m + n) * BLOCK_SIZE;
  }

  lemma {:induction false} OutMarked(at: nat, marks: seq<nat>, data: bytes, codec: Codec)
    requires marks != [] && marks[0] <= at
    ensures Out(at, marks, data, codec) == LE32(MAGIC) + Out(at, marks[1..], data, codec)
  {
    hide LE32, Block;
  }

  lemma OutUnmarked(at: nat, marks: seq<nat>, data: bytes, codec: Codec)
    requires marks == [] || at < marks[0]
    ensures Out(at, marks, data, codec) == if data == [] then []
              else Block(data[..FirstChunk(data)], codec)
                   + Out(at + FirstChunk(data), marks, data[FirstChunk(data)..], codec)
  {
    hide LE32, Block;
  }

  /** Behind whole blocks and the marks in them, a block is appended at the end of the stream. */
  lemma {:induction false} OutBlock(at: nat, marks: seq<nat>, data: bytes, chunk: bytes, codec: Codec)
    requires at % BLOCK_SIZE == 0 && |data| % BLOCK_SIZE == 0 && 0 < |chunk| <= BLOCK_SIZE
    requires AreMarks(marks, at, at + |data|)
    ensures Out(at, marks, data + chunk, codec) == Out(at, marks, data, codec) + Block(chunk, codec)
    decreases |marks| + |data|
  {
    hide LE32, Block, Out;
    var all := data + chunk;
    if marks != [] && marks[0] <= at {
      OutMarked(at, marks, data, codec);
      OutMarked(at, marks, all, codec);
      OutBlock(at, marks[1..], data, chunk, codec);
    } else if data == [] {
      assert marks == [];
      assert all == chunk && chunk[..|chunk|] == chunk && chunk[|chunk|..] == [];
      OutUnmarked(at, marks, chunk, codec);
      OutUnmarked(at, marks, data, codec);
      OutUnmarked(at + |chunk|, marks, [], codec);
    } else {
      assert |data| >= BLOCK_SIZE;
      OutUnmarked(at, marks, data, codec);
      OutUnmarked(at, marks, all, codec);
      assert all[..BLOCK_SIZE] == data[..BLOCK_SIZE] && all[BLOCK_SIZE..] == data[BLOCK_SIZE..] + chunk;
      MarksStayAhead(at, marks, data);
      WholeSums(at, BLOCK_SIZE);
      OutBlock(at + BLOCK_SIZE, marks, data[BLOCK_SIZE..], chunk, codec);
    }
  }

  /** A mark that is not reached yet is not reached within a whole block. */
  lemma MarksStayAhead(at: nat, marks: seq<nat>, data: bytes)
    requires AreMarks(marks, at, at + |data|) && (marks == [] || at < marks[0]) && data != []
    requires marks != [] ==> at % BLOCK_SIZE == 0
    ensures var n := FirstChunk(data); AreMarks(marks, at + n, at + |data|)
  {
    forall i | 0 <= i < |marks| ensures at + FirstChunk(data) <= marks[i] {
      assert marks[0] <= marks[i];
      MarksAreWhole(marks[0]);
      WholeSums(marks[0], at);
    }
  }

  lemma {:induction false} OutMark(at: nat, marks: seq<nat>, data: bytes, codec: Codec)
    requires at % BLOCK_SIZE == 0 && |data| % BLOCK_SIZE == 0 && AreMarks(marks, at, at + |data|)
    ensures Out(at, marks + [at + |data|], data, codec) == Out(at, marks, data, codec) + LE32(MAGIC)
    decreases |marks| + |data|
  {
    hide LE32, Block, Out;
    var more := marks + [at + |data|];
    if marks != [] && marks[0] <= at {
      OutMarked(at, marks, data, codec);
      OutMarked(at, more, data, codec);
      assert more[1..] == marks[1..] + [at + |data|];
      OutMark(at, marks[1..], data, codec);
    } else if data == [] {
      assert marks == [] && more[1..] == [];
      OutMarked(at, more, data, codec);
      OutUnmarked(at, [], data, codec);
    } else {
      OutUnmarked(at, marks, data, codec);
      OutUnmarked(at, more, data, codec);
      MarksStayAhead(at, marks, data);
      WholeSums(at, BLOCK_SIZE);
      OutMark(at + BLOCK_SIZE, marks, data[BLOCK_SIZE..], codec);
    }
  }

  lemma {:induction false} OutIsBlocks(at: nat, data: bytes, codec: Codec)
    ensures Out(at, [], data, codec) == Blocks(data, codec)
    decreases |data|
  {
    hide Block;
    if data != [] {
      OutIsBlocks(at + FirstChunk(data), data[FirstChunk(data)..], codec);
    }
  }

  class Encoder {
    var write: bytes            // the bytes written so far
    const chunker: Chunker
    var total: u32
    const isLg: bool
    const codec: Codec
    ghost var marks: seq<nat>   // where in the data the magic was written
    ghost var emitted: bytes    // the data that has left the chunker

    /** All data so far. */
    ghost function Input(): bytes
      requires chunker.Valid()
      reads this, chunker, chunker.chunk
    {
      emitted + chunker.Buffered()
    }

    /** The data that has left the chunker is in the stream. */
    ghost predicate IsWritten()
      reads `write, `marks, `emitted
    {
      |emitted| % BLOCK_SIZE == 0 && AreMarks(marks, 0, |emitted|) && write == Out(0, marks, emitted, codec)
    }

    ghost predicate Valid()
      reads this, chunker, chunker.chunk
    {
      chunker.Valid() && chunker.chunkSize == BLOCK_SIZE && total == |Input()| % U32 && IsWritten()
    }

    constructor (isLg: bool, codec: Codec)
      ensures Valid() && Input() == [] && marks == [] && this.isLg == isLg && this.codec == codec
      ensures fresh(chunker) && fresh(chunker.chunk)
    {
      this.write := [];
      this.chunker := new Chunker(BLOCK_SIZE);
      this.total := 0;
      this.isLg := isLg;
      this.codec := codec;
      this.marks := [];
      this.emitted := [];
    }

    method EncodeBlock(chunk: bytes)
      modifies this`write
      ensures write == old(write) + Block(chunk, codec)
    {
      var c := codec.compress(chunk);
      write := write + LE32(|c| % U32);
      write := write + c;
    }

    /** The magic goes out whenever the counter is 0, also when it has come round; then no data is held back. */
    method WriteHeader()
      requires Valid()
      modifies this`write, this`marks
      ensures Valid()
      ensures marks == if |Input()| % U32 == 0 then old(marks) + [|Input()|] else old(marks)
    {
      hide Out, LE32;
      if total == 0 {
        NothingHeld(|emitted|, |chunker.Buffered()|);
        OutMark(0, marks, emitted, codec);
        write := write + LE32(MAGIC);
        marks := marks + [|emitted|];
      }
    }

    /** One call of the chunker; a full chunk goes out as a block. */
    method Step(buf: bytes) returns (rest: bytes)
      requires chunker.Valid() && chunker.chunkSize == BLOCK_SIZE && buf != [] && IsWritten()
      modifies this`write, this`emitted, chunker`pos, chunker.chunk
      ensures chunker.Valid() && IsWritten()
      ensures Input() + rest == old(Input()) + buf && |rest| < |buf|
    {
      hide Out, Block;
      ghost var e := emitted;
      var chunk;
      rest, chunk := chunker.AddData(buf);
      assert e + (chunk.GetOr([]) + chunker.Buffered() + rest) == old(Input()) + buf;
      if chunk.Some? {
        EncodeBlock(chunk.value);
        OutBlock(0, marks, emitted, chunk.value, codec);
        WholeSums(|emitted|, |chunk.value|);
        emitted := emitted + chunk.value;
      }
    }

    /** Whatever the sizes of the writes, the data piles up and full blocks go out. */
    method WriteAll(data: bytes)
      requires Valid()
      modifies this, chunker`pos, chunker.chunk
      ensures Valid() && Input() == old(Input()) + data
      ensures marks == if |old(Input())| % U32 == 0 then old(marks) + [|old(Input())|] else old(marks)
    {
      hide Out, Block, AreMarks, IsWritten;
      WriteHeader();
      total := (total + |data|) % U32;
      Counted(|old(Input())|, |data|);
      var buf := data;
      while buf != []
        invariant chunker.Valid() && chunker.chunkSize == BLOCK_SIZE && chunker.chunk == old(chunker.chunk)
        invariant marks == if |old(Input())| % U32 == 0 then old(marks) + [|old(Input())|] else old(marks)
        invariant Input() + buf == old(Input()) + data && total == |old(Input()) + data| % U32 && IsWritten()
        decreases |buf|
      {
        buf := Step(buf);
      }
      assert Input() == old(Input()) + data;
    }

    method Finish() returns (r: bytes)
      requires Valid()
      modifies this, chunker`pos
      ensures r == Encoded(old(marks), old(Input()), isLg, codec)
    {
      hide Out, Block, LE32;
      ghost var data := Input();
      var chunk := chunker.GetAvailable();
      if chunk != [] {
        EncodeBlock(chunk);
        OutBlock(0, marks, emitted, chunk, codec);
      }
      assert emitted + [] == emitted;
      if isLg {
        write := write + LE32(total);
      }
      r := write;
    }
  }

  lemma NothingHeld(emitted: nat, held: nat)
    requires emitted % BLOCK_SIZE == 0 && held < BLOCK_SIZE && (emitted + held) % U32 == 0
    ensures held == 0
  {
    MarksAreWhole(emitted + held);
    WholeSums(emitted + held, emitted);
  }

  lemma Counted(a: nat, b: nat)
    ensures (a % U32 + b) % U32 == (a + b) % U32
  {
    assert a + b == a % U32 + b + a / U32 * U32;
  }

  // ---- decoding ----

  /** What the next block of a stream is. */
  datatype Next =
    | End                               // reported as end of file
    | Broken                            // an error
    | Data(bytes: bytes, rest: bytes)

  function NextBlock(s: bytes, codec: Codec): (r: Next)
    ensures r.Data? ==> |r.rest| < |s| && r.bytes != []
  {
    if |s| < 4 then End
    else if Word(s) != MAGIC then ReadBlock(Word(s), s[4..], codec)
    else if |s| < 8 then Broken
    else ReadBlock(Word(s[4..]), s[8..], codec)
  }

  function ReadBlock(size: nat, s: bytes, codec: Codec): (r: Next)
    ensures r.Data? ==> |r.rest| <= |s| && r.bytes != []
  {
    if size > BOUND then End      // this may be the LG trailer
    else if size == 0 || s == [] then End
    else if size > |s| then Broken
    else
      match codec.decompress(s[..size])
      case None => Broken
      case Some(d) => if d == [] then End else Data(d, s[size..])
  }

  /** All data of a stream, and whether it ended without an error. */
  datatype Decoded = Decoded(data: bytes, ok: bool)

  function Decode(s: bytes, codec: Codec): Decoded
    decreases |s|
  {
    match NextBlock(s, codec)
    case End => Decoded([], true)
    case Broken => Decoded([], false)
    case Data(bytes, rest) =>
      var d := Decode(rest, codec);
      Decoded(bytes + d.data, d.ok)
  }

  lemma {:induction false} DecodeNext(s: bytes, codec: Codec)
    ensures Decode(s, codec)
         == match NextBlock(s, codec)
            case End => Decoded([], true)
            case Broken => Decoded([], false)
            case Data(bytes, rest) => Decoded(bytes + Decode(rest, codec).data, Decode(rest, codec).ok)
  {
  }

  class Decoder {
    var read: bytes       // what the underlying reader still holds
    var outBuf: bytes     // the current block
    var outPos: nat
    const codec: Codec

    ghost predicate Valid()
      reads this
    {
      outPos <= |outBuf|
    }

    /** Everything that is still to come. */
    ghost function Pending(): Decoded
      requires Valid()
      reads this
    {
      var d := Decode(read, codec);
      Decoded(outBuf[outPos..] + d.data, d.ok)
    }

    constructor (stream: bytes, codec: Codec)
      ensures Valid() && Pending() == Decode(stream, codec) && this.codec == codec
    {
      this.read := stream;
      this.outBuf := [];
      this.outPos := 0;
      this.codec := codec;
    }

    /** read_pod */
    method ReadWord() returns (r: Option<nat>)
      modifies this`read
      ensures |old(read)| < 4 ==> r.None?
      ensures |old(read)| >= 4 ==> r == Some(Word(old(read))) && read == old(read)[4..]
    {
      if |read| < 4 {
        r, read := None, [];
      } else {
        r, read := Some(Word(read)), read[4..];
      }
    }

    /** A read may come up short; read_exact fetches the remainder. */
    method ReadCompressed(size: nat) returns (r: Option<bytes>)
      requires 0 < size && read != []
      modifies this`read
      ensures size <= |old(read)| ==> r == Some(old(read)[..size]) && read == old(read)[size..]
      ensures size > |old(read)| ==> r.None?
    {
      var available := if size < |read| then size else |read|;
      var len: nat :| 0 < len <= available;
      var first := read[..len];
      ghost var all := read;
      read := read[len..];
      if len == size {
        r := Some(first);
      } else if size - len > |read| {
        r := None;
      } else {
        r := Some(first + read[..size - len]);
        read := read[size - len..];
        assert r.value == all[..size];
      }
    }

    /** Fetch the next block when the current one is used up. */
    method Refill() returns (next: Next)
      requires Valid() && outPos == |outBuf|
      modifies this
      ensures next == NextBlock(old(read), codec)
      ensures next.Data? ==> Valid() && outBuf == next.bytes && outPos == 0 && read == next.rest
    {
      var size := ReadWord();
      if size.None? {
        return End;
      }
      if size.value == MAGIC {
        assert |old(read)| >= 8 ==> old(read)[4..][4..] == old(read)[8..];
        size := ReadWord();
        if size.None? {
          return Broken;
        }
      }
      if size.value > BOUND {
        return End;
      }
      if size.value == 0 || read == [] {
        return End;
      }
      var block := ReadCompressed(size.value);
      if block.None? {
        return Broken;
      }
      var d := codec.decompress(block.value);
      if d.None? {
        return Broken;
      }
      outBuf, outPos := d.value, 0;
      if outBuf == [] {
        return End;
      }
      next := Data(outBuf, read);
    }

    /** Each read delivers the next bytes, at most as many as asked for; no bytes mean the end. */
    method Read(n: nat) returns (r: Option<bytes>)
      requires Valid() && n > 0
      modifies this
      ensures r.None? ==> old(Pending()) == Decoded([], false)
      ensures r == Some([]) ==> old(Pending()) == Decoded([], true)
      ensures r.Some? && r.value != [] ==>
                && Valid() && |r.value| <= n
                && old(Pending()) == Decoded(r.value + Pending().data, Pending().ok)
    {
      hide Decode, NextBlock, Word;
      ghost var all := Pending();
      if outPos == |outBuf| {
        assert outBuf[outPos..] == [];
        DecodeNext(read, codec);
        var next := Refill();
        if next.End? {
          return Some([]);
        }
        if next.Broken? {
          return None;
        }
        assert all == Pending();
      }
      var len := if n < |outBuf| - outPos then n else |outBuf| - outPos;
      ghost var left, later := outBuf[outPos..], Decode(read, codec);
      r := Some(outBuf[outPos..outPos + len]);
      outPos := outPos + len;
      assert left == r.value + outBuf[outPos..];
      assert left + later.data == r.value + (outBuf[outPos..] + later.data);
    }

    /** Reading with buffers of any size until the end. */
    method ReadToEnd(sizes: nat -> nat) returns (data: bytes, ok: bool)
      requires Valid() && forall i :: sizes(i) > 0
      modifies this
      ensures Decoded(data, ok) == old(Pending())
    {
      hide Pending;
      data, ok := [], true;
      var i := 0;
      ghost var left := Pending();
      assert [] + left.data == left.data;
      while true
        invariant Valid() && left == Pending()
        invariant old(Pending()) == Decoded(data + left.data, left.ok)
        decreases |left.data|
      {
        var r := Read(sizes(i));
        i := i + 1;
        if r.None? {
          return data, false;
        }
        if r.value == [] {
          return data, true;
        }
        assert data + (r.value + Pending().data) == (data + r.value) + Pending().data;
        data := data + r.value;
        left := Pending();
      }
    }
  }

  // ---- decoding undoes encoding ----

  lemma BlockComesBack(chunk: bytes, rest: bytes, codec: Codec)
    requires codec.IsValid() && 0 < |chunk| <= BLOCK_SIZE
    ensures NextBlock(Block(chunk, codec) + rest, codec) == Data(chunk, rest)
  {
    hide LE32, Word;
    var c := codec.compress(chunk);
    assert Block(chunk, codec) + rest == LE32(|c|) + (c + rest);
    WordRoundTrip(|c|, c + rest);
    assert (c + rest)[..|c|] == c && (c + rest)[|c|..] == rest;
  }

  /** Behind the blocks there is no more data; an LG trailer that looks like the magic is an error. */
  lemma {:induction false} TrailerEnds(total: nat, isLg: bool, codec: Codec)
    ensures Decode(Trailer(total, isLg), codec) == Decoded([], !(isLg && total % U32 == MAGIC))
  {
    hide LE32, Word;
    if isLg {
      WordRoundTrip(total % U32, []);
      assert LE32(total % U32) + [] == LE32(total % U32);
    }
  }

  lemma {:induction false} OneMagicIsSkipped(s: bytes, codec: Codec)
    requires |s| >= 4 && Word(s) != MAGIC
    ensures Decode(LE32(MAGIC) + s, codec) == Decode(s, codec)
  {
    hide LE32, Word, ReadBlock;
    var t := LE32(MAGIC) + s;
    WordRoundTrip(MAGIC, s);
    assert t[8..] == s[4..];
  }

  lemma {:induction false} TwoMagicsEndTheStream(s: bytes, codec: Codec)
    ensures Decode(LE32(MAGIC) + (LE32(MAGIC) + s), codec) == Decoded([], true)
  {
    hide LE32, Word;
    WordRoundTrip(MAGIC, LE32(MAGIC) + s);
    WordRoundTrip(MAGIC, s);
  }

  /** A magic with no block behind it is an error, unless the LG trailer takes the place of a size. */
  lemma {:induction false} LastMagic(total: nat, isLg: bool, codec: Codec)
    ensures Decode(LE32(MAGIC) + Trailer(total, isLg), codec) == Decoded([], isLg)
  {
    hide LE32, Word;
    var t := Trailer(total, isLg);
    WordRoundTrip(MAGIC, t);
    if isLg {
      assert (LE32(MAGIC) + t)[4..] == LE32(total % U32) + [];
      WordRoundTrip(total % U32, []);
    }
  }

  lemma FirstWordIsSize(chunk: bytes, rest: bytes, codec: Codec)
    requires codec.IsValid() && 0 < |chunk| <= BLOCK_SIZE
    ensures |Block(chunk, codec) + rest| >= 4 && Word(Block(chunk, codec) + rest) != MAGIC
  {
    hide LE32, Word;
    var c := codec.compress(chunk);
    assert Block(chunk, codec) + rest == LE32(|c|) + (c + rest);
    WordRoundTrip(|c|, c + rest);
  }

  /** No two magics follow each other, except at the end. */
  predicate AreSpread(marks: seq<nat>, end: nat) {
    forall i | 0 <= i < |marks| - 1 && marks[i] == marks[i + 1] :: marks[i] == end
  }

  /** Exactly one magic is behind all data. */
  predicate EndsOnce(marks: seq<nat>, end: nat) {
    marks != [] && marks[|marks| - 1] == end && (|marks| == 1 || marks[|marks| - 2] != end)
  }

  predicate IsReadable(marks: seq<nat>, total: nat, isLg: bool) {
    AreSpread(marks, total) && if isLg then total % U32 != MAGIC else !EndsOnce(marks, total)
  }

  lemma OneMarkLess(marks: seq<nat>, total: nat, isLg: bool)
    requires marks != [] && marks[0] != total && (|marks| == 1 || marks[0] != marks[1])
    ensures IsReadable(marks, total, isLg) <==> IsReadable(marks[1..], total, isLg)
  {
    var rest := marks[1..];
    assert forall i | 0 <= i < |rest| :: rest[i] == marks[i + 1];
    if AreSpread(rest, total) {
      forall i | 0 <= i < |marks| - 1 && marks[i] == marks[i + 1] ensures marks[i] == total {
        assert rest[i - 1] == rest[i];
      }
    }
  }

  /** Decoding the stream from a block boundary on. */
  lemma {:induction false} DecodeOut(at: nat, marks: seq<nat>, data: bytes, isLg: bool, codec: Codec)
    requires codec.IsValid() && AreMarks(marks, at, at + |data|) && (marks != [] ==> at % BLOCK_SIZE == 0)
    ensures Decode(Out(at, marks, data, codec) + Trailer(at + |data|, isLg), codec) == Decoded(data, true)
            <==> IsReadable(marks, at + |data|, isLg)
    decreases |marks| + |data|
  {
    hide Codec.IsValid, Out, Decode, LE32, Word, Block, Trailer, IsReadable, FirstChunk;
    if marks != [] && marks[0] <= at {
      AtMark(at, marks, data, isLg, codec);
      if data != [] && (|marks| == 1 || marks[1] != at) {
        OneMarkLess(marks, at + |data|, isLg);
        DecodeOut(at, marks[1..], data, isLg, codec);
      }
    } else if data == [] {
      AtEnd(at, marks, isLg, codec);
    } else {
      AtBlock(at, marks, data, isLg, codec);
      var n := FirstChunkIs(data);
      MarksStayAhead(at, marks, data);
      if marks != [] {
        AheadIsWhole(at, marks, data);
      }
      DecodeOut(at + n, marks, data[n..], isLg, codec);
    }
  }

  lemma FirstChunkIs(data: bytes) returns (n: nat)
    requires data != []
    ensures n == FirstChunk(data) && 0 < n <= |data| && n <= BLOCK_SIZE
  {
    n := FirstChunk(data);
  }

  lemma AheadIsWhole(at: nat, marks: seq<nat>, data: bytes)
    requires AreMarks(marks, at, at + |data|) && marks != [] && at < marks[0] && at % BLOCK_SIZE == 0
    ensures FirstChunk(data) == BLOCK_SIZE && (at + FirstChunk(data)) % BLOCK_SIZE == 0
  {
    MarksAreWhole(marks[0]);
    WholeSums(marks[0], at);
    WholeSums(at, BLOCK_SIZE);
  }

  /** At a mark: a second one ends the stream, no data behind it is an error in legacy form, and otherwise it is
      skipped. */
  lemma {:induction false} AtMark(at: nat, marks: seq<nat>, data: bytes, isLg: bool, codec: Codec)
    requires codec.IsValid() && AreMarks(marks, at, at + |data|) && marks != [] && marks[0] <= at
    ensures var s := Out(at, marks, data, codec) + Trailer(at + |data|, isLg);
            var t := Out(at, marks[1..], data, codec) + Trailer(at + |data|, isLg);
            if data != [] && (|marks| == 1 || marks[1] != at) then Decode(s, codec) == Decode(t, codec)
            else Decode(s, codec) == Decoded(data, true) <==> IsReadable(marks, at + |data|, isLg)
  {
    hide Codec.IsValid, Out, Decode, LE32, Word, Block, Trailer;
    var t := Trailer(at + |data|, isLg);
    var rest := marks[1..];
    OutMarked(at, marks, data, codec);
    assert Out(at, marks, data, codec) + t == LE32(MAGIC) + (Out(at, rest, data, codec) + t);
    if |marks| > 1 && marks[1] == at {
      OutMarked(at, rest, data, codec);
      var more := Out(at, rest[1..], data, codec);
      assert Out(at, rest, data, codec) + t == LE32(MAGIC) + (more + t);
      TwoMagicsEndTheStream(more + t, codec);
      if data == [] {
        assert forall i | 0 <= i < |marks| :: marks[i] == at;
      }
    } else if data == [] {
      assert marks == [at];
      OutUnmarked(at, rest, data, codec);
      assert [] + t == t;
      LastMagic(at, isLg, codec);
    } else {
      OutUnmarked(at, rest, data, codec);
      var n := FirstChunkIs(data);
      var more := Out(at + n, rest, data[n..], codec);
      assert Out(at, rest, data, codec) + t == Block(data[..n], codec) + (more + t);
      FirstWordIsSize(data[..n], more + t, codec);
      OneMagicIsSkipped(Out(at, rest, data, codec) + t, codec);
    }
  }

  lemma {:induction false} AtEnd(at: nat, marks: seq<nat>, isLg: bool, codec: Codec)
    requires AreMarks(marks, at, at) && (marks == [] || at < marks[0])
    ensures Decode(Out(at, marks, [], codec) + Trailer(at, isLg), codec) == Decoded([], true)
            <==> IsReadable(marks, at, isLg)
  {
    hide Decode, LE32, Word, Block, Trailer, Out;
    assert marks == [];
    OutUnmarked(at, marks, [], codec);
    assert [] + Trailer(at, isLg) == Trailer(at, isLg);
    TrailerEnds(at, isLg, codec);
  }

  lemma AtBlock(at: nat, marks: seq<nat>, data: bytes, isLg: bool, codec: Codec)
    requires codec.IsValid() && data != [] && (marks == [] || at < marks[0])
    ensures var n, t := FirstChunk(data), Trailer(at + |data|, isLg);
            Decode(Out(at, marks, data, codec) + t, codec) == Decoded(data, true)
            <==> Decode(Out(at + n, marks, data[n..], codec) + t, codec) == Decoded(data[n..], true)
  {
    hide Codec.IsValid, Out, Decode, LE32, Word, Block, Trailer, NextBlock;
    var t := Trailer(at + |data|, isLg);
    var n := FirstChunkIs(data);
    OutUnmarked(at, marks, data, codec);
    var chunk, more := data[..n], Out(at + n, marks, data[n..], codec) + t;
    assert Out(at, marks, data, codec) + t == Block(chunk, codec) + more;
    BlockComesBack(chunk, more, codec);
    DecodeNext(Block(chunk, codec) + more, codec);
    assert data == chunk + data[n..];
    SameTail(chunk, Decode(more, codec).data, data[n..]);
  }

  lemma SameTail(a: bytes, b: bytes, c: bytes)
    ensures a + b == a + c <==> b == c
  {
    if a + b == a + c {
      assert (a + b)[|a|..] == b && (a + c)[|a|..] == c;
    }
  }

  /** Decoding returns everything that was encoded, without an error, exactly when no two magics follow each other
      before the end, and: in LG form, the size is not the magic; in legacy form, not just one magic is at the end. */
  lemma {:induction false} DecodeAfterEncode(marks: seq<nat>, data: bytes, isLg: bool, codec: Codec)
    requires codec.IsValid() && AreMarks(marks, 0, |data|)
    ensures Decode(Encoded(marks, data, isLg, codec), codec) == Decoded(data, true)
            <==> IsReadable(marks, |data|, isLg)
  {
    hide Codec.IsValid, Out, Decode, IsReadable, Trailer;
    DecodeOut(0, marks, data, isLg, codec);
  }

  function Flat(parts: seq<bytes>): bytes {
    if parts == [] then [] else Flat(parts[..|parts| - 1]) + parts[|parts| - 1]
  }

  lemma {:induction false} FlatGrows(parts: seq<bytes>, i: nat)
    requires i <= |parts|
    ensures |Flat(parts[..i])| <= |Flat(parts)|
    ensures i < |parts| ==> Flat(parts[..i + 1]) == Flat(parts[..i]) + parts[i]
    decreases |parts| - i
  {
    if i == |parts| {
      assert parts[..i] == parts;
    } else {
      assert parts[..i + 1][..i] == parts[..i];
      FlatGrows(parts, i + 1);
    }
  }

  function LengthBefore(writes: seq<bytes>, i: nat): nat
    requires i <= |writes|
  {
    |Flat(writes[..i])|
  }

  /** Where in the data a run of writes emits the magic: wherever one of them finds the counter at 0. */
  function Marks(writes: seq<bytes>): seq<nat> {
    if writes == [] then []
    else
      var at := |Flat(writes[..|writes| - 1])|;
      Marks(writes[..|writes| - 1]) + if at % U32 == 0 then [at] else []
  }

  lemma MarksNext(writes: seq<bytes>, i: nat)
    requires i < |writes|
    ensures var at := LengthBefore(writes, i);
            Marks(writes[..i + 1]) == if at % U32 == 0 then Marks(writes[..i]) + [at] else Marks(writes[..i])
  {
    assert writes[..i + 1][..i] == writes[..i];
  }

  lemma {:induction false} MarksAreMarks(writes: seq<bytes>, n: nat)
    requires n <= |writes|
    ensures AreMarks(Marks(writes[..n]), 0, LengthBefore(writes, n))
  {
    hide Marks, Flat, AreMarks;
    if n == 0 {
      NoMarks(writes);
      MarksEnd([], 0, LengthBefore(writes, 0));
    } else {
      MarksAreMarks(writes, n - 1);
      MarksNext(writes, n - 1);
      FlatGrows(writes, n - 1);
      MarksEnd(Marks(writes[..n - 1]), LengthBefore(writes, n - 1), LengthBefore(writes, n));
    }
  }

  lemma MarksEnd(marks: seq<nat>, at: nat, end: nat)
    requires AreMarks(marks, 0, at) && at <= end
    ensures AreMarks(marks, 0, end) && (at % U32 == 0 ==> AreMarks(marks + [at], 0, end))
  {
  }

  /** An empty write when the counter is 0. */
  predicate IsIdle(writes: seq<bytes>, i: nat)
    requires i < |writes|
  {
    writes[i] == [] && LengthBefore(writes, i) % U32 == 0
  }

  /** The last mark is at the end of the data so far exactly after an idle write. */
  lemma LastMark(writes: seq<bytes>, n: nat)
    requires n <= |writes|
    ensures var ms, at := Marks(writes[..n]), LengthBefore(writes, n);
            ms != [] && ms[|ms| - 1] == at <==> n > 0 && IsIdle(writes, n - 1)
  {
    hide Marks, Flat;
    if n == 0 {
      NoMarks(writes);
    } else {
      MarksAreMarks(writes, n - 1);
      MarksNext(writes, n - 1);
      FlatGrows(writes, n - 1);
    }
  }

  lemma NoMarks(writes: seq<bytes>)
    ensures Marks(writes[..0]) == []
  {
  }

  /** The first n writes are idle only at the end of the data. */
  predicate IdleAtEnd(writes: seq<bytes>, n: int, end: nat)
    requires n <= |writes|
  {
    forall i | 0 <= i < n && IsIdle(writes, i) :: LengthBefore(writes, i) == end
  }

  /** Two marks in one place before the end come from an idle write that is followed by another write. */
  lemma {:induction false} SpreadSoFar(writes: seq<bytes>, n: nat, end: nat)
    requires n <= |writes| && LengthBefore(writes, n) <= end
    ensures AreSpread(Marks(writes[..n]), end)
            <==> IdleAtEnd(writes, n - 1, end)
  {
    hide Marks, Flat;
    if n == 0 {
      NoMarks(writes);
    } else {
      FlatGrows(writes, n - 1);
      SpreadSoFar(writes, n - 1, end);
      MarksNext(writes, n - 1);
      LastMark(writes, n - 1);
      var before, ms := Marks(writes[..n - 1]), Marks(writes[..n]);
      MarkAdded(before, LengthBefore(writes, n - 1), end);
      if n > 1 {
        FlatGrows(writes, n - 2);
      }
    }
  }

  lemma MarkAdded(marks: seq<nat>, at: nat, end: nat)
    ensures AreSpread(marks + [at], end)
            <==> AreSpread(marks, end) && (marks != [] && marks[|marks| - 1] == at ==> at == end)
  {
    var more := marks + [at];
    if AreSpread(more, end) {
      forall i | 0 <= i < |marks| - 1 && marks[i] == marks[i + 1] ensures marks[i] == end {
        assert more[i] == more[i + 1];
      }
      if marks != [] && marks[|marks| - 1] == at {
        assert more[|marks| - 1] == more[|marks| - 1 + 1];
      }
    }
  }

  /** The last write is empty and the one before it is not. */
  predicate EndsIdle(writes: seq<bytes>) {
    && writes != [] && IsIdle(writes, |writes| - 1)
    && (|writes| == 1 || writes[|writes| - 2] != [])
  }

  lemma {:induction false} EndsOnceExactly(writes: seq<bytes>)
    ensures EndsOnce(Marks(writes), |Flat(writes)|) <==> EndsIdle(writes)
  {
    hide Marks, Flat;
    var n := |writes|;
    assert writes[..n] == writes;
    LastMark(writes, n);
    if n > 0 && IsIdle(writes, n - 1) {
      MarksNext(writes, n - 1);
      LastMark(writes, n - 1);
      FlatGrows(writes, n - 1);
      if n > 1 {
        FlatGrows(writes, n - 2);
      }
    }
  }

  /** What can be known of the writes: an empty one that finds the counter at 0 is harmless only behind all data, and
      there not alone in legacy form; and an LG stream is not as long as the magic says. */
  predicate AreReadable(writes: seq<bytes>, isLg: bool) {
    && IdleAtEnd(writes, |writes|, |Flat(writes)|)
    && if isLg then |Flat(writes)| % U32 != MAGIC else !EndsIdle(writes)
  }

  lemma {:induction false} LastIsIdleAtEnd(writes: seq<bytes>)
    ensures var n := |writes|; IdleAtEnd(writes, n - 1, |Flat(writes)|) <==> IdleAtEnd(writes, n, |Flat(writes)|)
  {
    hide Flat;
    var n := |writes|;
    if n > 0 {
      FlatGrows(writes, n - 1);
      assert writes[..n] == writes;
      assert IsIdle(writes, n - 1) ==> LengthBefore(writes, n - 1) == |Flat(writes)|;
    }
  }

  lemma {:induction false} ReadableExactly(writes: seq<bytes>, isLg: bool)
    ensures IsReadable(Marks(writes), |Flat(writes)|, isLg) <==> AreReadable(writes, isLg)
  {
    hide Marks, Flat, IsIdle, IdleAtEnd, EndsIdle, EndsOnce, AreSpread;
    assert writes[..|writes|] == writes;
    SpreadSoFar(writes, |writes|, |Flat(writes)|);
    LastIsIdleAtEnd(writes);
    EndsOnceExactly(writes);
  }

  /** From any writes through the stream to reads of any size: when the data arrives whole and without an error. */
  method CopyThrough(writes: seq<bytes>, isLg: bool, codec: Codec, sizes: nat -> nat) returns (data: bytes, ok: bool)
    requires codec.IsValid() && (forall i :: sizes(i) > 0)
    ensures data == Flat(writes) && ok <==> AreReadable(writes, isLg)
  {
    hide Codec.IsValid, Encoded, Decode, Flat, Marks, AreReadable, IsReadable, AreMarks, Out;
    var enc := new Encoder(isLg, codec);
    FlatNone(writes);
    for i := 0 to |writes|
      invariant enc.Valid() && fresh(enc) && fresh(enc.chunker) && fresh(enc.chunker.chunk)
      invariant enc.Input() == Flat(writes[..i]) && enc.marks == Marks(writes[..i])
    {
      FlatGrows(writes, i);
      MarksNext(writes, i);
      enc.WriteAll(writes[i]);
    }
    assert writes[..|writes|] == writes;
    var stream := enc.Finish();
    MarksAreMarks(writes, |writes|);
    DecodeAfterEncode(Marks(writes), Flat(writes), isLg, codec);
    ReadableExactly(writes, isLg);
    var dec := new Decoder(stream, codec);
    data, ok := dec.ReadToEnd(sizes);
  }

  lemma FlatNone(writes: seq<bytes>)
    ensures Flat(writes[..0]) == [] && Marks(writes[..0]) == []
  {
  }

  /** Below 4 GiB that is: the first write is not empty and an LG stream is not as long as the magic says -- or, if
      there is no data, there is not just one write to a legacy stream. */
  lemma {:induction false} BelowFourGiB(writes: seq<bytes>, isLg: bool)
    requires |Flat(writes)| < U32
    ensures AreReadable(writes, isLg) <==>
            if Flat(writes) == [] then isLg || |writes| != 1 else writes[0] != [] && !(isLg && |Flat(writes)| == MAGIC)
  {
    hide Flat, IsIdle, IdleAtEnd;
    if Flat(writes) == [] {
      NothingWritten(writes);
    } else {
      SomethingWritten(writes);
    }
  }

  lemma {:induction false} NothingWritten(writes: seq<bytes>)
    requires Flat(writes) == []
    ensures IdleAtEnd(writes, |writes|, 0) && (EndsIdle(writes) <==> |writes| == 1)
  {
    hide Flat;
    forall i | 0 <= i < |writes| ensures writes[i] == [] && LengthBefore(writes, i) == 0 {
      FlatGrows(writes, i);
      FlatGrows(writes, i + 1);
    }
  }

  lemma {:induction false} SomethingWritten(writes: seq<bytes>)
    requires 0 < |Flat(writes)| < U32
    ensures writes != [] && (IdleAtEnd(writes, |writes|, |Flat(writes)|) <==> writes[0] != []) && !EndsIdle(writes)
  {
    hide Flat;
    FlatStart(writes);
    assert writes[..|writes|] == writes;
    forall i | 0 <= i < |writes| && IsIdle(writes, i) ensures LengthBefore(writes, i) == 0 {
      FlatGrows(writes, i);
    }
    if writes[0] == [] {
      assert IsIdle(writes, 0);
    } else {
      forall i | 0 < i < |writes| ensures LengthBefore(writes, i) > 0 { FlatFrom(writes, i); }
    }
    if EndsIdle(writes) {
      FlatGrows(writes, |writes| - 1);
    }
  }

  lemma {:induction false} FlatStart(writes: seq<bytes>)
    ensures Flat(writes[..0]) == [] && (writes == [] ==> Flat(writes) == [])
  {
  }

  lemma {:induction false} FlatFrom(writes: seq<bytes>, i: nat)
    requires 0 < i <= |writes|
    ensures LengthBefore(writes, i) >= |writes[0]|
  {
    FlatGrows(writes, i - 1);
    if i > 1 {
      FlatFrom(writes, i - 1);
    }
  }

  // ---- recognising the LG variant ----

  datatype Format = Lz4Legacy | Lz4Lg | Other

  /** Where the block that starts at off ends. */
  function BlockEnd(buf: bytes, off: nat): nat
    requires off + 4 <= |buf|
  {
    off + 4 + Word(buf[off..])
  }

  /** Some block claims more bytes than there are. */
  predicate OverrunsFrom(buf: bytes, off: nat)
    decreases |buf| - off
  {
    off + 4 <= |buf| && (BlockEnd(buf, off) > |buf| || OverrunsFrom(buf, BlockEnd(buf, off)))
  }

  /** No end of a block that is looked at exceeds 32 bits. */
  predicate SumsFit(buf: bytes, off: nat)
    decreases |buf| - off
  {
    off + 4 <= |buf| ==>
      BlockEnd(buf, off) < U32 && (BlockEnd(buf, off) <= |buf| ==> SumsFit(buf, BlockEnd(buf, off)))
  }

  /** Where check_fmt_lg stands: at an offset of 32 bits, or done. */
  datatype Scan = At(off: nat) | Done(fmt: Format)

  function ScanStep(buf: bytes, s: Scan): Scan {
    if s.Done? then s
    else if s.off + 4 > |buf| then Done(Lz4Legacy)
    else if BlockEnd(buf, s.off) % U32 > |buf| then Done(Lz4Lg)
    else At(BlockEnd(buf, s.off) % U32)
  }

  function ScanAfter(buf: bytes, n: nat): Scan {
    if n == 0 then At(4) else ScanStep(buf, ScanAfter(buf, n - 1))
  }

  ghost predicate Ends(buf: bytes) { exists n :: ScanAfter(buf, n).Done? }

  lemma {:induction false} DoneStays(buf: bytes, m: nat, n: nat)
    requires m <= n && ScanAfter(buf, m).Done?
    ensures ScanAfter(buf, n) == ScanAfter(buf, m)
  {
    hide Word;
    if m < n {
      DoneStays(buf, m, n - 1);
    }
  }

  lemma {:induction false} OffsetsAreInside(buf: bytes, n: nat)
    requires |buf| >= 4
    ensures ScanAfter(buf, n).At? ==> ScanAfter(buf, n).off <= |buf|
  {
    if n > 0 {
      OffsetsAreInside(buf, n - 1);
    }
  }

  /** So many different numbers below a bound cannot be more than the bound. */
  lemma {:induction false} Pigeonhole(s: seq<nat>, bound: nat)
    requires (forall i | 0 <= i < |s| :: s[i] < bound) && forall i, j | 0 <= i < j < |s| :: s[i] != s[j]
    ensures |s| <= bound
  {
    if s != [] {
      assert s[0] < bound;
      if k :| 0 <= k < |s| && s[k] == bound - 1 {
        Pigeonhole(s[..k] + s[k + 1..], bound - 1);
      } else {
        Pigeonhole(s, bound - 1);
      }
    }
  }

  /** An offset that comes back comes back for ever. */
  lemma {:induction false} CycleNeverEnds(buf: bytes, i: nat, j: nat, n: nat)
    requires i < j && ScanAfter(buf, j).At? && ScanAfter(buf, i) == ScanAfter(buf, j)
    ensures ScanAfter(buf, n).At?
    ensures n >= j ==> ScanAfter(buf, n) == ScanAfter(buf, n - (j - i))
    decreases n
  {
    hide ScanAfter, ScanStep;
    if n > j {
      ScanGoesOn(buf, n - 1);
      ScanGoesOn(buf, n - 1 - (j - i));
      CycleNeverEnds(buf, i, j, n - 1);
      CycleNeverEnds(buf, i, j, n - (j - i));
    } else if ScanAfter(buf, n).Done? {
      DoneStays(buf, n, j);
    }
  }

  /** The scan ends exactly when it ends within as many steps as there are offsets. */
  lemma {:induction false} EndsInTime(buf: bytes)
    requires |buf| >= 4
    ensures Ends(buf) <==> ScanAfter(buf, |buf| + 1).Done?
  {
    var m := |buf| + 1;
    if ScanAfter(buf, m).At? {
      forall n: nat | n <= m ensures ScanAfter(buf, n).At? && ScanAfter(buf, n).off <= |buf| {
        if ScanAfter(buf, n).Done? {
          DoneStays(buf, n, m);
        }
        OffsetsAreInside(buf, n);
      }
      var offs := seq(m + 1, n requires 0 <= n < m + 1 => ScanAfter(buf, n).off);
      if forall i, j | 0 <= i < j < |offs| :: offs[i] != offs[j] {
        Pigeonhole(offs, m);
      }
      var i, j :| 0 <= i < j < |offs| && offs[i] == offs[j];
      forall n: nat ensures ScanAfter(buf, n).At? {
        CycleNeverEnds(buf, i, j, n);
      }
    }
  }

  /** check_fmt_lg, in 32-bit arithmetic, whenever it ends: the LG form is seen by a block whose end, cut off at
      32 bits, is beyond the buffer. */
  method CheckFmtLg(buf: bytes) returns (fmt: Format)
    requires |buf| < U32 && (|buf| >= 4 && Word(buf) == MAGIC ==> Ends(buf))
    ensures |buf| < 4 || Word(buf) != MAGIC ==> fmt == Other
    ensures |buf| >= 4 && Word(buf) == MAGIC ==> ScanAfter(buf, |buf| + 1) == Done(fmt)
  {
    hide Word, ScanAfter, Ends;
    if |buf| < 4 || Word(buf) != MAGIC {
      return Other;
    }
    EndsInTime(buf);
    ScanStarts(buf);
    ghost var n := 0;
    var off: nat := 4;
    while off + 4 <= |buf|
      invariant n <= |buf| && ScanAfter(buf, n) == At(off)
      decreases |buf| - n
    {
      var size := Word(buf[off..]);
      ScanGoesOn(buf, n);
      n := n + 1;
      off := (off + 4) % U32;
      if (off + size) % U32 > |buf| {
        DoneStays(buf, n, |buf| + 1);
        return Lz4Lg;
      }
      off := (off + size) % U32;
    }
    ScanGoesOn(buf, n);
    DoneStays(buf, n + 1, |buf| + 1);
    fmt := Lz4Legacy;
  }

  lemma {:induction false} ScanStarts(buf: bytes)
    ensures ScanAfter(buf, 0) == At(4)
  {
  }

  lemma ScanGoesOn(buf: bytes, n: nat)
    ensures ScanAfter(buf, n + 1) == ScanStep(buf, ScanAfter(buf, n))
  {
  }

  /** One step while the sums stay within 32 bits. */
  lemma {:induction false} StepFits(buf: bytes, off: nat)
    requires |buf| < U32 && SumsFit(buf, off)
    ensures var s := ScanStep(buf, At(off));
            if s.Done? then s.fmt == if OverrunsFrom(buf, off) then Lz4Lg else Lz4Legacy
            else off < s.off <= |buf| && SumsFit(buf, s.off) && OverrunsFrom(buf, s.off) == OverrunsFrom(buf, off)
  {
    hide Word;
  }

  /** While the sums stay within 32 bits the scan ends, and tells whether a block overruns the buffer. */
  lemma {:induction false} ScanFits(buf: bytes, n: nat)
    requires 4 <= |buf| < U32 && ScanAfter(buf, n).At? && SumsFit(buf, ScanAfter(buf, n).off)
    ensures Ends(buf)
    ensures var fmt := if OverrunsFrom(buf, ScanAfter(buf, n).off) then Lz4Lg else Lz4Legacy;
            ScanAfter(buf, |buf| + 1) == Done(fmt)
    decreases |buf| - ScanAfter(buf, n).off
  {
    hide ScanAfter, ScanStep, SumsFit, OverrunsFrom;
    ScanGoesOn(buf, n);
    StepFits(buf, ScanAfter(buf, n).off);
    if ScanAfter(buf, n + 1).At? {
      ScanFits(buf, n + 1);
    } else {
      EndsInTime(buf);
      if n <= |buf| {
        DoneStays(buf, n + 1, |buf| + 1);
      } else {
        DoneStays(buf, |buf| + 1, n + 1);
      }
    }
  }

  /** A block that takes the offset back to itself. */
  lemma StallExample(n: nat)
    ensures var buf := LE32(MAGIC) + LE32(U32 - 4);
            Word(buf) == MAGIC && ScanAfter(buf, n) == At(4) && !Ends(buf)
  {
    hide LE32, Word, ScanAfter;
    var buf := LE32(MAGIC) + LE32(U32 - 4);
    WordRoundTrip(MAGIC, LE32(U32 - 4));
    assert buf[4..] == LE32(U32 - 4) + [];
    WordRoundTrip(U32 - 4, []);
    forall k: nat ensures ScanAfter(buf, k) == At(4) {
      Stalls(buf, k);
    }
  }

  lemma {:induction false} Stalls(buf: bytes, n: nat)
    requires |buf| == 8 && Word(buf[4..]) == U32 - 4
    ensures ScanAfter(buf, n) == At(4)
  {
    hide Word;
    if n > 0 {
      Stalls(buf, n - 1);
    }
  }

  /** The 32-bit offset fails to advance exactly for the sizes that carry it past 2^32 but not past its old value. */
  lemma ScanAdvances(buf: bytes, off: nat)
    requires |buf| < U32 && off + 4 <= |buf|
    ensures BlockEnd(buf, off) % U32 > off <==> !(U32 - 4 - off <= Word(buf[off..]) <= U32 - 4)
  {
    hide Word;
    var e := BlockEnd(buf, off);
    if e >= U32 {
      assert e % U32 == e - U32;
    }
  }

  lemma {:induction false} BlocksDoNotOverrun(pre: bytes, data: bytes, rest: bytes, codec: Codec)
    requires codec.IsValid() && |pre + Blocks(data, codec) + rest| < U32
    ensures var buf, end := pre + Blocks(data, codec) + rest, |pre + Blocks(data, codec)|;
            && OverrunsFrom(buf, |pre|) == OverrunsFrom(buf, end)
            && SumsFit(buf, |pre|) == SumsFit(buf, end)
    decreases |data|
  {
    hide LE32, Word, Codec.IsValid;
    var buf := pre + Blocks(data, codec) + rest;
    if data == [] {
      assert pre + Blocks(data, codec) == pre;
    } else {
      var chunk, tail := data[..FirstChunk(data)], data[FirstChunk(data)..];
      var pre' := pre + Block(chunk, codec);
      assert pre + Blocks(data, codec) == pre' + Blocks(tail, codec);
      BlockIsMeasured(pre, chunk, Blocks(tail, codec) + rest, codec);
      assert buf == pre + Block(chunk, codec) + (Blocks(tail, codec) + rest);
      BlocksDoNotOverrun(pre', tail, rest, codec);
    }
  }

  lemma BlockIsMeasured(pre: bytes, chunk: bytes, rest: bytes, codec: Codec)
    requires codec.IsValid() && 0 < |chunk| <= BLOCK_SIZE
    ensures var buf := pre + Block(chunk, codec) + rest;
            |pre| + 4 <= |buf| && BlockEnd(buf, |pre|) == |pre + Block(chunk, codec)|
  {
    hide LE32, Word;
    var buf := pre + Block(chunk, codec) + rest;
    var c := codec.compress(chunk);
    assert buf[|pre|..] == LE32(|c|) + (c + rest);
    WordRoundTrip(|c|, c + rest);
  }

  /** Every nonempty output of the encoder is recognised for what it is: legacy always, LG as long as file size and
      data size together stay below 2^32.  Beyond that the test at the trailer, in 32 bits, does not see the overrun
      and the scan goes back into the file. */
  lemma EncodedIsRecognised(data: bytes, isLg: bool, codec: Codec)
    requires codec.IsValid() && 0 < |data| < U32 && |Encoded([0], data, isLg, codec)| < U32
    ensures var buf := Encoded([0], data, isLg, codec);
            && |buf| >= 4 && Word(buf) == MAGIC
            && (SumsFit(buf, 4) <==> !isLg || |buf| + |data| < U32)
            && OverrunsFrom(buf, 4) == isLg
            && (isLg ==> (BlockEnd(buf, |buf| - 4) % U32 > |buf| <==> |buf| + |data| < U32))
  {
    hide LE32, Word, Codec.IsValid, Blocks, Out, SumsFit, OverrunsFrom;
    var t := Trailer(|data|, isLg);
    var buf := Encoded([0], data, isLg, codec);
    OutMarked(0, [0], data, codec);
    assert [0][1..] == [];
    OutIsBlocks(0, data, codec);
    assert buf == LE32(MAGIC) + (Blocks(data, codec) + t);
    WordRoundTrip(MAGIC, Blocks(data, codec) + t);
    BlocksDoNotOverrun(LE32(MAGIC), data, t, codec);
    var end := |LE32(MAGIC) + Blocks(data, codec)|;
    if isLg {
      assert buf[end..] == LE32(|data|) + [];
      WordRoundTrip(|data|, []);
    }
    AtTrailer(buf, end);
  }

  /** What the scan sees behind the blocks. */
  lemma {:induction false} AtTrailer(buf: bytes, end: nat)
    requires |buf| < U32 && (|buf| == end || |buf| == end + 4)
    ensures SumsFit(buf, end) <==> (|buf| == end + 4 ==> BlockEnd(buf, end) < U32)
    ensures OverrunsFrom(buf, end) <==> |buf| == end + 4 && BlockEnd(buf, end) > |buf|
  {
    hide Word;
    if |buf| == end + 4 && BlockEnd(buf, end) == |buf| {
      assert !OverrunsFrom(buf, |buf|) && SumsFit(buf, |buf|);
    }
  }
}
