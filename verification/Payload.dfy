/**
  Extracting a partition from an OTA payload (native/src/boot/payload.rs): the install operations
  are sorted so that the input is only ever read forward.  A byte is a char.
 */
module Payload {
  import opened Wrappers

  datatype Kind = Replace | Zero | ReplaceBz | ReplaceXz | Unsupported

  datatype Extent = Extent(startBlock: Option<nat>, numBlocks: Option<nat>)

  datatype Operation = Operation(kind: Kind, dataOffset: Option<nat>, dataLength: Option<nat>, dst: seq<Extent>)

  datatype Error =
    | NoDataLength | NoDataOffset | NoExtent | NoStartBlock | NoNumBlocks
    | UnexpectedEof | DecompressionFailed | UnsupportedOperation

  /** The decompressors; None when the data is not well formed. */
  type Decoder = string -> Option<string>

  const U64: nat := 0x1_0000_0000_0000_0000
  const I64: nat := 0x8000_0000_0000_0000

  // ---- the output file ----

  datatype Write = Write(offset: nat, bytes: string)

  /** seek and write_all: a gap reads as zeros, writing nothing does not even make a gap. */
  function WriteAt(file: string, w: Write): string {
    if w.bytes == "" then file
    else
      var f := if |file| < w.offset then file + Repeat('\0', w.offset - |file|) else file;
      f[..w.offset] + w.bytes + (if w.offset + |w.bytes| < |f| then f[w.offset + |w.bytes|..] else "")
  }

  function WriteAll(file: string, ws: seq<Write>): string
    decreases |ws|
  {
    if ws == [] then file else WriteAll(WriteAt(file, ws[0]), ws[1..])
  }

  // ---- one operation ----

  /** The zeros of a ZERO operation: num_blocks bytes for every extent. */
  function ZeroWrites(dst: seq<Extent>, blockSize: nat): Result<seq<Write>, Error> {
    if dst == [] then Ok([])
    else if dst[0].startBlock.None? then Err(NoStartBlock)
    else if dst[0].numBlocks.None? then Err(NoNumBlocks)
    else
      match ZeroWrites(dst[1..], blockSize)
      case Ok(ws) => Ok([Write(dst[0].startBlock.value * blockSize, Repeat('\0', dst[0].numBlocks.value))] + ws)
      case Err(e) => Err(e)
  }

  /** What an operation with its data writes. */
  function Writes(op: Operation, data: string, blockSize: nat, decode: Decoder): Result<seq<Write>, Error> {
    if op.dst == [] then Err(NoExtent)
    else if op.dst[0].startBlock.None? then Err(NoStartBlock)
    else
      var out := op.dst[0].startBlock.value * blockSize;
      match op.kind
      case Replace => Ok([Write(out, data)])
      case Zero => ZeroWrites(op.dst, blockSize)
      case ReplaceBz | ReplaceXz =>
        (match decode(data)
         case Some(d) => Ok([Write(out, d)])
         case None => Err(DecompressionFailed))
      case Unsupported => Err(UnsupportedOperation)
  }

  /** The data of an operation, by random access. */
  function Fetch(op: Operation, blob: string): Result<string, Error> {
    if op.dataLength.None? then Err(NoDataLength)
    else if op.dataOffset.None? then Err(NoDataOffset)
    else if op.dataLength.value == 0 then Ok("")
    else if op.dataOffset.value + op.dataLength.value > |blob| then Err(UnexpectedEof)
    else Ok(blob[op.dataOffset.value..op.dataOffset.value + op.dataLength.value])
  }

  function OpWrites(op: Operation, blob: string, blockSize: nat, decode: Decoder): Result<seq<Write>, Error> {
    match Fetch(op, blob)
    case Ok(data) => Writes(op, data, blockSize, decode)
    case Err(e) => Err(e)
  }

  /** All operations in the given order, each by random access. */
  function RunRandom(ops: seq<Operation>, blob: string, blockSize: nat, decode: Decoder, file: string)
    : Result<string, Error>
    decreases |ops|
  {
    if ops == [] then Ok(file)
    else
      match OpWrites(ops[0], blob, blockSize, decode)
      case Ok(ws) => RunRandom(ops[1..], blob, blockSize, decode, WriteAll(file, ws))
      case Err(e) => Err(e)
  }

  // ---- sorting ----

  function Key(op: Operation): nat { op.dataOffset.GetOr(0) }

  function Insert(op: Operation, ops: seq<Operation>): seq<Operation> {
    if ops == [] then [op]
    else if Key(op) <= Key(ops[0]) then [op] + ops
    else [ops[0]] + Insert(op, ops[1..])
  }

  /** sort_by_key: stable */
  function SortByOffset(ops: seq<Operation>): seq<Operation> {
    if ops == [] then [] else Insert(ops[0], SortByOffset(ops[1..]))
  }

  lemma {:induction false} InsertPermutes(op: Operation, ops: seq<Operation>)
    ensures multiset(Insert(op, ops)) == multiset{op} + multiset(ops)
  {
    if ops != [] && Key(op) > Key(ops[0]) {
      InsertPermutes(op, ops[1..]);
      assert ops == [ops[0]] + ops[1..];
    }
  }

  lemma {:induction false} SortPermutes(ops: seq<Operation>)
    ensures multiset(SortByOffset(ops)) == multiset(ops)
  {
    if ops != [] {
      SortPermutes(ops[1..]);
      InsertPermutes(ops[0], SortByOffset(ops[1..]));
      assert ops == [ops[0]] + ops[1..];
    }
  }

  ghost predicate IsSorted(ops: seq<Operation>) {
    forall i, j | 0 <= i < j < |ops| :: Key(ops[i]) <= Key(ops[j])
  }

  lemma {:induction false} InsertSorts(op: Operation, ops: seq<Operation>)
    requires IsSorted(ops)
    ensures IsSorted(Insert(op, ops))
  {
    if ops != [] && Key(op) > Key(ops[0]) {
      InsertSorts(op, ops[1..]);
      InsertPermutes(op, ops[1..]);
      var r := Insert(op, ops[1..]);
      forall j | 0 <= j < |r| ensures Key(ops[0]) <= Key(r[j]) {
        assert r[j] in multiset(r);
        assert r[j] == op || r[j] in ops[1..];
      }
    }
  }

  lemma {:induction false} SortSorts(ops: seq<Operation>)
    ensures IsSorted(SortByOffset(ops))
  {
    if ops != [] {
      SortSorts(ops[1..]);
      InsertSorts(ops[0], SortByOffset(ops[1..]));
    }
  }

  // ---- reading forward ----

  /** The distance to skip is computed modulo 2^64 and handed to seek as a signed number. */
  function Distance(from: nat, to: nat): nat { (to - from) % U64 }

  function AsI64(n: nat): int { if n < I64 then n else n - U64 }

  lemma SignedDistance(from: nat, to: nat)
    requires from < I64 && to < I64
    ensures AsI64(Distance(from, to)) == to - from
    ensures Distance(from, to) < I64 <==> from <= to
  {
    if from <= to {
      assert (to - from) % U64 == to - from;
    } else {
      assert (to - from) % U64 == to - from + U64;
    }
  }

  /** Offsets and lengths are those of a file. */
  predicate FitsI64(ops: seq<Operation>) {
    forall i | 0 <= i < |ops| :: ops[i].dataOffset.GetOr(0) + ops[i].dataLength.GetOr(0) < I64
  }

  /** No operation starts before the end of the one before it. */
  predicate IsForward(ops: seq<Operation>, curr: nat, blob: string) {
    ops == [] ||
    (ops[0].dataOffset.Some? && ops[0].dataLength.Some? ==>
       && curr <= ops[0].dataOffset.value <= |blob|
       && IsForward(ops[1..], ops[0].dataOffset.value + ops[0].dataLength.value, blob))
  }

  /** An operation that says where its data is. */
  predicate HasRange(op: Operation) { op.dataOffset.Some? && op.dataLength.Some? }

  function End(op: Operation): nat
    requires HasRange(op)
  {
    op.dataOffset.value + op.dataLength.value
  }

  /** Byte i of the payload is data of the operation. */
  predicate UsesByte(op: Operation, i: nat)
    requires HasRange(op)
  {
    Key(op) <= i < End(op)
  }

  /** The data of two operations has bytes in common. */
  ghost predicate Overlap(a: Operation, b: Operation)
    requires HasRange(a) && HasRange(b)
  {
    exists i :: UsesByte(a, i) && UsesByte(b, i)
  }

  /** For operations in order, one reaches into the next exactly when they overlap -- or the next has no data and starts
      before the end of the first. */
  lemma ReachIsOverlap(a: Operation, b: Operation)
    requires HasRange(a) && HasRange(b) && Key(a) <= Key(b)
    ensures Key(b) < End(a) <==> Overlap(a, b) || (b.dataLength.value == 0 && Key(b) < End(a))
  {
    if Key(b) < End(a) && b.dataLength.value > 0 {
      assert UsesByte(a, Key(b)) && UsesByte(b, Key(b));
    }
  }

  /** After sorting, reading forward is possible exactly when every operation starts within the payload and none starts
      before the end of an earlier one. */
  lemma {:induction false} ForwardIffNoOverlap(ops: seq<Operation>, curr: nat, blob: string)
    requires IsSorted(ops) && forall i | 0 <= i < |ops| :: HasRange(ops[i])
    ensures IsForward(ops, curr, blob)
            <==> && (ops != [] ==> curr <= Key(ops[0]))
                 && (forall i | 0 <= i < |ops| :: Key(ops[i]) <= |blob|)
                 && (forall i, j | 0 <= i < j < |ops| :: End(ops[i]) <= Key(ops[j]))
  {
    if ops != [] {
      var rest := ops[1..];
      ForwardIffNoOverlap(rest, End(ops[0]), blob);
      assert forall i | 0 <= i < |rest| :: rest[i] == ops[i + 1];
      assert forall i | 0 < i < |ops| :: ops[i] == rest[i - 1];
      if rest != [] {
        assert rest[0] == ops[1];
      }
      forall j | 0 < j < |ops| ensures rest != [] && Key(rest[0]) <= Key(ops[j]) {
        assert ops[j] == rest[j - 1];
      }
    }
  }

  /** reader.skip: seek if the input can, else read and discard. */
  method SkipTo(pos: nat, curr: nat, to: nat, seekable: bool, blob: string) returns (r: Option<nat>)
    requires curr < I64 && to < I64 && |blob| < I64 && pos == curr
    ensures r.Some? ==> r.value == to
    ensures r.None? <==> !seekable && !(curr <= to <= |blob|) && curr != to
  {
    SignedDistance(curr, to);
    var skip := Distance(curr, to);
    if seekable {
      r := Some(pos + AsI64(skip));
    } else if skip == 0 || pos + skip <= |blob| {
      r := Some(pos + skip);
    } else {
      r := None;
    }
  }

  /** An input that only reads forward can get at the data. */
  predicate IsAhead(op: Operation, curr: nat, blob: string) {
    HasRange(op) ==> curr <= Key(op) <= |blob|
  }

  /** One turn of the pass: skip to the data and read it. */
  method ReadData(pos: nat, curr: nat, op: Operation, seekable: bool, blob: string)
    returns (r: Result<string, Error>, next: nat)
    requires pos == curr < I64 && |blob| < I64 && Key(op) < I64 && (seekable || curr <= |blob|)
    ensures seekable || IsAhead(op, curr, blob) ==> r == Fetch(op, blob)
    ensures !seekable && !IsAhead(op, curr, blob) ==> r.Err?
    ensures r.Ok? ==> HasRange(op) && next == End(op) && (seekable || next <= |blob|)
  {
    next := pos;
    if op.dataLength.None? {
      return Err(NoDataLength), next;
    }
    if op.dataOffset.None? {
      return Err(NoDataOffset), next;
    }
    var len, off := op.dataLength.value, op.dataOffset.value;
    var p := SkipTo(pos, curr, off, seekable, blob);
    if p.None? {
      return Err(UnexpectedEof), next;
    }
    next := p.value;
    if len > 0 && next + len > |blob| {
      return Err(UnexpectedEof), next;
    }
    r := Ok(if len == 0 then "" else blob[next..next + len]);
    next := next + len;
  }

  lemma {:induction false} RunNext(ops: seq<Operation>, i: nat, blob: string, blockSize: nat, decode: Decoder,
                                   file: string)
    requires i < |ops|
    ensures var w := OpWrites(ops[i], blob, blockSize, decode);
            RunRandom(ops[i..], blob, blockSize, decode, file)
            == if w.Err? then Err(w.error)
               else RunRandom(ops[i + 1..], blob, blockSize, decode, WriteAll(file, w.value))
  {
    hide OpWrites, WriteAll;
    assert ops[i..][0] == ops[i] && ops[i..][1..] == ops[i + 1..];
  }

  lemma {:induction false} RunNothing(ops: seq<Operation>, blob: string, blockSize: nat, decode: Decoder, file: string)
    ensures RunRandom(ops[|ops|..], blob, blockSize, decode, file) == Ok(file)
  {
  }

  lemma {:induction false} ForwardNext(ops: seq<Operation>, i: nat, curr: nat, blob: string)
    requires i < |ops|
    ensures IsForward(ops[i..], curr, blob)
            <==> IsAhead(ops[i], curr, blob) && (HasRange(ops[i]) ==> IsForward(ops[i + 1..], End(ops[i]), blob))
  {
    assert ops[i..][0] == ops[i] && ops[i..][1..] == ops[i + 1..];
  }

  lemma {:induction false} ForwardNothing(ops: seq<Operation>, curr: nat, blob: string)
    ensures IsForward(ops[|ops|..], curr, blob)
  {
  }

  // ---- what the file holds, byte by byte ----

  /** A piece of data that lies at an offset has the character at a place of the file. */
  predicate LiesAt(start: nat, data: string, at: nat, c: char) {
    start <= at < start + |data| && data[at - start] == c
  }

  /** As many bytes are cleared as the extent has blocks. */
  predicate IsClearedBy(e: Extent, blockSize: nat, at: nat) {
    && e.startBlock.Some? && e.numBlocks.Some?
    && e.startBlock.value * blockSize <= at < e.startBlock.value * blockSize + e.numBlocks.value
  }

  ghost predicate IsCleared(dst: seq<Extent>, blockSize: nat, at: nat) {
    exists e | e in dst :: IsClearedBy(e, blockSize, at)
  }

  /** The operation can be carried out. */
  ghost predicate IsExecutable(op: Operation, blob: string, decode: Decoder) {
    && HasRange(op) && (op.dataLength.value > 0 ==> End(op) <= |blob|)
    && op.dst != [] && op.dst[0].startBlock.Some?
    && match op.kind
       case Replace => true
       case Zero => forall e | e in op.dst :: e.startBlock.Some? && e.numBlocks.Some?
       case ReplaceBz | ReplaceXz => decode(DataOf(op, blob)).Some?
       case Unsupported => false
  }

  function DataOf(op: Operation, blob: string): string
    requires HasRange(op) && (op.dataLength.value > 0 ==> End(op) <= |blob|)
  {
    if op.dataLength.value == 0 then "" else blob[op.dataOffset.value..End(op)]
  }

  /** The operation asks for the character at a place of the file: its data, plain or decompressed, starts at the first
      block of its first extent; or zeros are in any of its extents. */
  ghost predicate Puts(op: Operation, blob: string, blockSize: nat, decode: Decoder, at: nat, c: char)
    requires IsExecutable(op, blob, decode)
  {
    match op.kind
    case Replace => LiesAt(op.dst[0].startBlock.value * blockSize, DataOf(op, blob), at, c)
    case Zero => c == '\0' && IsCleared(op.dst, blockSize, at)
    case _ => LiesAt(op.dst[0].startBlock.value * blockSize, decode(DataOf(op, blob)).value, at, c)
  }

  ghost predicate Touches(op: Operation, blob: string, blockSize: nat, decode: Decoder, at: nat)
    requires IsExecutable(op, blob, decode)
  {
    exists c :: Puts(op, blob, blockSize, decode, at, c)
  }

  lemma {:induction false} ZerosAre(dst: seq<Extent>, blockSize: nat)
    ensures ZeroWrites(dst, blockSize).Ok? <==> forall e | e in dst :: e.startBlock.Some? && e.numBlocks.Some?
    ensures ZeroWrites(dst, blockSize).Ok? ==>
              forall w, i | w in ZeroWrites(dst, blockSize).value && 0 <= i < |w.bytes| :: w.bytes[i] == '\0'
    ensures ZeroWrites(dst, blockSize).Ok? ==>
              forall at: nat ::
                (exists w | w in ZeroWrites(dst, blockSize).value :: Covers(w, at)) <==> IsCleared(dst, blockSize, at)
  {
    if dst != [] {
      ZerosAre(dst[1..], blockSize);
      assert forall e :: e in dst <==> e == dst[0] || e in dst[1..];
      if ZeroWrites(dst, blockSize).Ok? {
        FirstZeros(dst, blockSize, 0);
        var ws, rest := ZeroWrites(dst, blockSize).value, ZeroWrites(dst[1..], blockSize).value;
        hide ZeroWrites, IsCleared;
        assert forall w :: w in ws <==> w == ws[0] || w in rest;
        forall at: nat ensures (exists w | w in ws :: Covers(w, at)) <==> IsCleared(dst, blockSize, at) {
          ZerosNext(dst, blockSize, at);
        }
      }
    }
  }

  lemma {:induction false} ZerosNext(dst: seq<Extent>, blockSize: nat, at: nat)
    requires dst != [] && ZeroWrites(dst, blockSize).Ok?
    requires (exists w | w in ZeroWrites(dst[1..], blockSize).value :: Covers(w, at)) <==>
             IsCleared(dst[1..], blockSize, at)
    ensures (exists w | w in ZeroWrites(dst, blockSize).value :: Covers(w, at)) <==> IsCleared(dst, blockSize, at)
  {
    var ws, rest := ZeroWrites(dst, blockSize).value, ZeroWrites(dst[1..], blockSize).value;
    FirstZeros(dst, blockSize, at);
    hide IsClearedBy, Covers, ZeroWrites;
    if w :| w in ws && Covers(w, at) {
      if w in rest {
        var e :| e in dst[1..] && IsClearedBy(e, blockSize, at);
        assert e in dst;
      } else {
        assert w == ws[0] && dst[0] in dst;
      }
    }
    if e :| e in dst && IsClearedBy(e, blockSize, at) {
      if e == dst[0] {
        assert ws[0] in ws;
      } else {
        assert e in dst[1..];
        var w :| w in rest && Covers(w, at);
        assert w in ws;
      }
    }
  }

  lemma {:induction false} FirstZeros(dst: seq<Extent>, blockSize: nat, at: nat)
    requires dst != [] && ZeroWrites(dst, blockSize).Ok?
    ensures ZeroWrites(dst[1..], blockSize).Ok?
    ensures var ws := ZeroWrites(dst, blockSize).value;
            && ws != [] && ws[1..] == ZeroWrites(dst[1..], blockSize).value
            && (Covers(ws[0], at) <==> IsClearedBy(dst[0], blockSize, at))
            && forall i | 0 <= i < |ws[0].bytes| :: ws[0].bytes[i] == '\0'
  {
  }

  lemma ExecutableExactly(op: Operation, blob: string, blockSize: nat, decode: Decoder)
    ensures OpWrites(op, blob, blockSize, decode).Ok? <==> IsExecutable(op, blob, decode)
  {
    if op.kind.Zero? {
      ZerosAre(op.dst, blockSize);
    }
  }

  /** One operation puts its characters into the file and leaves the others alone; a gap is filled with zeros. */
  lemma {:induction false} OneOperation(op: Operation, blob: string, blockSize: nat, decode: Decoder, file: string,
                                        at: nat)
    requires IsExecutable(op, blob, decode)
    ensures OpWrites(op, blob, blockSize, decode).Ok?
    ensures var after := WriteAll(file, OpWrites(op, blob, blockSize, decode).value);
            && |file| <= |after|
            && (Touches(op, blob, blockSize, decode, at) ==>
                  at < |after| && Puts(op, blob, blockSize, decode, at, after[at]))
            && (!Touches(op, blob, blockSize, decode, at) && at < |after| ==>
                  after[at] == if at < |file| then file[at] else '\0')
  {
    hide WriteAt;
    ExecutableExactly(op, blob, blockSize, decode);
    var ws := OpWrites(op, blob, blockSize, decode).value;
    if op.kind.Zero? {
      ZerosAre(op.dst, blockSize);
      ZeroedByte(file, ws, at);
      assert Touches(op, blob, blockSize, decode, at) <==> Puts(op, blob, blockSize, decode, at, '\0');
    } else {
      assert ws == [ws[0]] && ws[1..] == [];
      WriteAtByte(file, ws[0], at);
      if Covers(ws[0], at) {
        assert Puts(op, blob, blockSize, decode, at, ws[0].bytes[at - ws[0].offset]);
      }
    }
  }

  lemma {:induction false} ZeroedByte(file: string, ws: seq<Write>, at: nat)
    requires forall w, i | w in ws && 0 <= i < |w.bytes| :: w.bytes[i] == '\0'
    ensures var after := WriteAll(file, ws);
            && |file| <= |after|
            && ((exists w | w in ws :: Covers(w, at)) ==> at < |after| && after[at] == '\0')
            && (!(exists w | w in ws :: Covers(w, at)) && at < |after| ==>
                  after[at] == if at < |file| then file[at] else '\0')
    decreases |ws|
  {
    hide WriteAt;
    if ws != [] {
      WriteAtByte(file, ws[0], at);
      ZeroedByte(WriteAt(file, ws[0]), ws[1..], at);
      assert forall w :: w in ws <==> w == ws[0] || w in ws[1..];
    }
  }

  /** No operation from i on has anything at the place. */
  ghost predicate IsLast(ops: seq<Operation>, i: nat, blob: string, blockSize: nat, decode: Decoder, at: nat)
    requires forall op | op in ops :: IsExecutable(op, blob, decode)
  {
    forall j | i <= j < |ops| :: !Touches(ops[j], blob, blockSize, decode, at)
  }

  ghost predicate HoldsAt(file: string, ops: seq<Operation>, i: nat, blob: string, blockSize: nat, decode: Decoder,
                          at: nat)
    requires i < |ops| && forall op | op in ops :: IsExecutable(op, blob, decode)
  {
    Touches(ops[i], blob, blockSize, decode, at) && IsLast(ops, i + 1, blob, blockSize, decode, at) ==>
      at < |file| && Puts(ops[i], blob, blockSize, decode, at, file[at])
  }

  /** The file holds what the operations ask for: at each place the character of the last one that has any there, and
      else what was there before, or zero. */
  ghost predicate Holds(file: string, before: string, ops: seq<Operation>, blob: string, blockSize: nat,
                        decode: Decoder)
    requires forall op | op in ops :: IsExecutable(op, blob, decode)
  {
    && |before| <= |file|
    && (forall i: nat, at: nat | i < |ops| :: HoldsAt(file, ops, i, blob, blockSize, decode, at))
    && (forall at: nat | at < |file| && IsLast(ops, 0, blob, blockSize, decode, at) ::
          file[at] == if at < |before| then before[at] else '\0')
  }

  /** A run succeeds exactly when every operation can be carried out, and then the file holds what they ask for. */
  lemma {:induction false} RunHolds(ops: seq<Operation>, blob: string, blockSize: nat, decode: Decoder, file: string)
    ensures RunRandom(ops, blob, blockSize, decode, file).Ok? <==>
            forall op | op in ops :: IsExecutable(op, blob, decode)
    ensures RunRandom(ops, blob, blockSize, decode, file).Ok? ==>
              Holds(RunRandom(ops, blob, blockSize, decode, file).value, file, ops, blob, blockSize, decode)
    decreases |ops|
  {
    hide OpWrites, WriteAll, IsExecutable, Puts, Touches, Holds;
    if ops == [] {
      HoldsNothing(file, blob, blockSize, decode);
    } else {
      var rest := ops[1..];
      assert forall op :: op in ops <==> op == ops[0] || op in rest;
      ExecutableExactly(ops[0], blob, blockSize, decode);
      if IsExecutable(ops[0], blob, decode) {
        var so := WriteAll(file, OpWrites(ops[0], blob, blockSize, decode).value);
        RunHolds(rest, blob, blockSize, decode, so);
        if RunRandom(ops, blob, blockSize, decode, file).Ok? {
          HoldsNext(RunRandom(rest, blob, blockSize, decode, so).value, so, file, ops, blob, blockSize, decode);
        }
      }
    }
  }

  lemma HoldsNothing(file: string, blob: string, blockSize: nat, decode: Decoder)
    ensures Holds(file, file, [], blob, blockSize, decode)
  {
  }

  lemma {:induction false} HoldsNext(file: string, so: string, before: string, ops: seq<Operation>, blob: string,
                                     blockSize: nat, decode: Decoder)
    requires ops != [] && forall op | op in ops :: IsExecutable(op, blob, decode)
    requires OpWrites(ops[0], blob, blockSize, decode).Ok?
    requires so == WriteAll(before, OpWrites(ops[0], blob, blockSize, decode).value)
    requires Holds(file, so, ops[1..], blob, blockSize, decode)
    ensures Holds(file, before, ops, blob, blockSize, decode)
  {
    hide OpWrites, WriteAll, IsExecutable, Puts, Touches;
    var rest := ops[1..];
    assert ops[0] in ops;
    forall at: nat, i: nat | i <= |rest|
      ensures IsLast(rest, i, blob, blockSize, decode, at) <==> IsLast(ops, i + 1, blob, blockSize, decode, at)
    {
      LastShifts(ops, i, blob, blockSize, decode, at);
    }
    OneOperation(ops[0], blob, blockSize, decode, before, 0);
    forall i: nat, at: nat | i < |ops| ensures HoldsAt(file, ops, i, blob, blockSize, decode, at) {
      OneOperation(ops[0], blob, blockSize, decode, before, at);
      if i > 0 {
        var k: nat := i - 1;
        assert HoldsAt(file, rest, k, blob, blockSize, decode, at);
        assert IsLast(rest, k + 1, blob, blockSize, decode, at) <==> IsLast(ops, i + 1, blob, blockSize, decode, at);
      } else {
        assert IsLast(rest, 0, blob, blockSize, decode, at) <==> IsLast(ops, 1, blob, blockSize, decode, at);
      }
    }
    forall at: nat | at < |file| && IsLast(ops, 0, blob, blockSize, decode, at)
      ensures file[at] == if at < |before| then before[at] else '\0'
    {
      OneOperation(ops[0], blob, blockSize, decode, before, at);
      assert IsLast(rest, 0, blob, blockSize, decode, at) <==> IsLast(ops, 1, blob, blockSize, decode, at);
    }
  }

  lemma LastShifts(ops: seq<Operation>, i: nat, blob: string, blockSize: nat, decode: Decoder, at: nat)
    requires ops != [] && i < |ops| && forall op | op in ops :: IsExecutable(op, blob, decode)
    ensures IsLast(ops[1..], i, blob, blockSize, decode, at) <==> IsLast(ops, i + 1, blob, blockSize, decode, at)
  {
    hide IsExecutable, Touches;
    var rest := ops[1..];
    if IsLast(rest, i, blob, blockSize, decode, at) {
      forall j | i + 1 <= j < |ops| ensures !Touches(ops[j], blob, blockSize, decode, at) {
        assert rest[j - 1] == ops[j];
      }
    }
    if IsLast(ops, i + 1, blob, blockSize, decode, at) {
      forall j | i <= j < |rest| ensures !Touches(rest[j], blob, blockSize, decode, at) {
        assert rest[j] == ops[j + 1];
      }
    }
  }

  /** Said of the operations in any order: a place that one of them has to itself holds its character. */
  ghost predicate HoldsOwn(file: string, ops: seq<Operation>, blob: string, blockSize: nat, decode: Decoder)
    requires forall op | op in ops :: IsExecutable(op, blob, decode)
  {
    && (forall op, at: nat | op in ops && Touches(op, blob, blockSize, decode, at)
                             && IsAlone(op, ops, blob, blockSize, decode, at) ::
          at < |file| && Puts(op, blob, blockSize, decode, at, file[at]))
    && (forall at: nat | at < |file| && (forall op | op in ops :: !Touches(op, blob, blockSize, decode, at)) ::
          file[at] == '\0')
  }

  ghost predicate IsAlone(op: Operation, ops: seq<Operation>, blob: string, blockSize: nat, decode: Decoder, at: nat)
    requires forall o | o in ops :: IsExecutable(o, blob, decode)
  {
    forall o | o in ops && Touches(o, blob, blockSize, decode, at) :: o == op
  }

  /** The bytes of a REPLACE operation, or what its bytes decompress to, are found at the first block of its first
      extent, if no other operation has anything there. */
  lemma ReplacedBytes(file: string, ops: seq<Operation>, op: Operation, blob: string, blockSize: nat, decode: Decoder)
    requires (forall o | o in ops :: IsExecutable(o, blob, decode)) && HoldsOwn(file, ops, blob, blockSize, decode)
    requires op in ops && op.dataLength.value > 0 && !op.kind.Zero?
    requires forall at: nat :: IsAlone(op, ops, blob, blockSize, decode, at)
    ensures var start, data := op.dst[0].startBlock.value * blockSize,
                               blob[op.dataOffset.value..op.dataOffset.value + op.dataLength.value];
            && (op.kind.Replace? ==> start + |data| <= |file| && file[start..start + |data|] == data)
            && (op.kind.ReplaceXz? || op.kind.ReplaceBz? ==>
                  && decode(data).Some?
                  && var plain := decode(data).value;
                     plain != "" ==> start + |plain| <= |file| && file[start..start + |plain|] == plain)
  {
    hide IsAlone, HoldsOwn;
    var start := op.dst[0].startBlock.value * blockSize;
    var data := if op.kind.Replace? then DataOf(op, blob) else decode(DataOf(op, blob)).value;
    forall i | 0 <= i < |data| ensures IsAt(file, start, data, i) {
      assert Puts(op, blob, blockSize, decode, start + i, data[i]);
      OwnByte(file, ops, op, blob, blockSize, decode, start + i);
    }
    if data != "" {
      assert IsAt(file, start, data, |data| - 1);
      forall i | 0 <= i < |data| ensures file[start..start + |data|][i] == data[i] {
        assert IsAt(file, start, data, i);
      }
      assert file[start..start + |data|] == data;
    }
  }

  predicate IsAt(file: string, start: nat, data: string, i: nat)
    requires i < |data|
  {
    start + i < |file| && file[start + i] == data[i]
  }

  lemma OwnByte(file: string, ops: seq<Operation>, op: Operation, blob: string, blockSize: nat, decode: Decoder,
                at: nat)
    requires (forall o | o in ops :: IsExecutable(o, blob, decode)) && HoldsOwn(file, ops, blob, blockSize, decode)
    requires op in ops && Touches(op, blob, blockSize, decode, at) && IsAlone(op, ops, blob, blockSize, decode, at)
    ensures at < |file| && Puts(op, blob, blockSize, decode, at, file[at])
  {
    hide IsExecutable, Touches, Puts, IsAlone;
  }

  lemma HeldIsOwn(file: string, ops: seq<Operation>, sorted: seq<Operation>, blob: string, blockSize: nat,
                  decode: Decoder)
    requires (forall op | op in ops :: IsExecutable(op, blob, decode)) && forall op :: op in sorted <==> op in ops
    requires Holds(file, "", sorted, blob, blockSize, decode)
    ensures HoldsOwn(file, ops, blob, blockSize, decode)
  {
    hide IsExecutable, Puts, Touches;
    forall op, at: nat | op in ops && Touches(op, blob, blockSize, decode, at)
                         && IsAlone(op, ops, blob, blockSize, decode, at)
      ensures at < |file| && Puts(op, blob, blockSize, decode, at, file[at])
    {
      assert op in sorted;
      var i := LastOf(sorted, blob, blockSize, decode, at, op);
      assert sorted[i] in ops;
      assert HoldsAt(file, sorted, i, blob, blockSize, decode, at);
    }
    forall at: nat | at < |file| && (forall op | op in ops :: !Touches(op, blob, blockSize, decode, at))
      ensures file[at] == '\0'
    {
      assert forall j | 0 <= j < |sorted| :: sorted[j] in ops;
      assert IsLast(sorted, 0, blob, blockSize, decode, at);
    }
  }

  lemma {:induction false} LastOf(ops: seq<Operation>, blob: string, blockSize: nat, decode: Decoder, at: nat,
                                  op: Operation) returns (i: nat)
    requires (forall o | o in ops :: IsExecutable(o, blob, decode)) && op in ops
    requires Touches(op, blob, blockSize, decode, at)
    ensures i < |ops| && Touches(ops[i], blob, blockSize, decode, at)
    ensures IsLast(ops, i + 1, blob, blockSize, decode, at)
  {
    hide IsExecutable, Puts, Touches;
    i := |ops| - 1;
    while !Touches(ops[i], blob, blockSize, decode, at)
      invariant 0 <= i < |ops| && IsLast(ops, i + 1, blob, blockSize, decode, at)
      invariant op in ops[..i + 1]
      decreases i
    {
      assert ops[..i + 1] == ops[..i] + [ops[i]];
      i := i - 1;
    }
  }

  /** Skip and read in one pass over the sorted operations. */
  method ExtractOperations(ops: seq<Operation>, blob: string, blockSize: nat, decode: Decoder, seekable: bool)
    returns (r: Result<string, Error>)
    requires FitsI64(ops) && |blob| < I64
    ensures seekable || IsForward(SortByOffset(ops), 0, blob) ==>
              r == RunRandom(SortByOffset(ops), blob, blockSize, decode, "")
    ensures !seekable && !IsForward(SortByOffset(ops), 0, blob) ==> r.Err?
    ensures r.Ok? ==> forall op | op in ops :: IsExecutable(op, blob, decode)
    ensures seekable || IsForward(SortByOffset(ops), 0, blob) ==>
              (r.Ok? <==> forall op | op in ops :: IsExecutable(op, blob, decode))
    ensures r.Ok? ==> HoldsOwn(r.value, ops, blob, blockSize, decode)
  {
    hide Writes, WriteAll, SortByOffset, RunRandom, IsForward, Fetch, IsExecutable, HoldsOwn, Holds;
    SortedHas(ops);
    RunHolds(SortByOffset(ops), blob, blockSize, decode, "");
    if forall op | op in ops :: IsExecutable(op, blob, decode) {
      var file := RunRandom(SortByOffset(ops), blob, blockSize, decode, "").value;
      HeldIsOwn(file, ops, SortByOffset(ops), blob, blockSize, decode);
    }
    var sorted := SortByOffset(ops);
    SortKeepsFit(ops);
    assert sorted[0..] == sorted;
    var file := "";
    var pos: nat, curr: nat := 0, 0;
    var i := 0;
    while i < |sorted|
      invariant 0 <= i <= |sorted| && pos == curr < I64 && (seekable || curr <= |blob|)
      invariant RunRandom(sorted[i..], blob, blockSize, decode, file) == RunRandom(sorted, blob, blockSize, decode, "")
      invariant seekable || IsForward(sorted[i..], curr, blob) == IsForward(sorted, 0, blob)
    {
      var op := sorted[i];
      RunNext(sorted, i, blob, blockSize, decode, file);
      ForwardNext(sorted, i, curr, blob);
      var data;
      data, pos := ReadData(pos, curr, op, seekable, blob);
      if data.Err? {
        return Err(data.error);
      }
      curr := op.dataOffset.value + op.dataLength.value;
      match Writes(op, data.value, blockSize, decode)
      case Err(e) => return Err(e);
      case Ok(ws) => file := WriteAll(file, ws);
      i := i + 1;
    }
    RunNothing(sorted, blob, blockSize, decode, file);
    ForwardNothing(sorted, curr, blob);
    r := Ok(file);
  }

  lemma {:induction false} SortedHas(ops: seq<Operation>)
    ensures forall op :: op in SortByOffset(ops) <==> op in ops
  {
    hide SortByOffset;
    SortPermutes(ops);
    forall op ensures op in SortByOffset(ops) <==> op in ops {
      assert op in SortByOffset(ops) <==> op in multiset(SortByOffset(ops));
      assert op in ops <==> op in multiset(ops);
    }
  }

  lemma {:induction false} SortKeepsFit(ops: seq<Operation>)
    requires FitsI64(ops)
    ensures FitsI64(SortByOffset(ops))
  {
    SortPermutes(ops);
    var s := SortByOffset(ops);
    forall i | 0 <= i < |s| ensures s[i].dataOffset.GetOr(0) + s[i].dataLength.GetOr(0) < I64 {
      assert s[i] in multiset(s);
      assert s[i] in ops;
    }
  }

  // ---- the order of the operations does not show ----

  predicate Covers(w: Write, i: nat) { w.offset <= i < w.offset + |w.bytes| }

  /** Different writes do not touch the same byte. */
  ghost predicate AreDisjoint(ws: seq<Write>) {
    forall v, w, i: nat | v in ws && w in ws && Covers(v, i) && Covers(w, i) :: v == w
  }

  lemma WriteAtByte(file: string, w: Write, i: nat)
    ensures |WriteAt(file, w)| >= |file|
    ensures i < |WriteAt(file, w)| <==> i < |file| || (w.bytes != "" && i < w.offset + |w.bytes|)
    ensures i < |WriteAt(file, w)| ==>
              WriteAt(file, w)[i] ==
              if Covers(w, i) then w.bytes[i - w.offset] else if i < |file| then file[i] else '\0'
  {
  }

  /** The file that disjoint writes leave behind, byte by byte and in any order. */
  lemma {:induction false} WriteAllByte(file: string, ws: seq<Write>, i: nat)
    requires AreDisjoint(ws)
    ensures i < |WriteAll(file, ws)| <==>
              i < |file| || exists w | w in ws :: w.bytes != "" && i < w.offset + |w.bytes|
    ensures forall w | w in ws && Covers(w, i) ::
              i < |WriteAll(file, ws)| && WriteAll(file, ws)[i] == w.bytes[i - w.offset]
    ensures i < |WriteAll(file, ws)| && (forall w | w in ws :: !Covers(w, i)) ==>
              WriteAll(file, ws)[i] == if i < |file| then file[i] else '\0'
    decreases |ws|
  {
    if ws != [] {
      WriteAtByte(file, ws[0], i);
      WriteAllByte(WriteAt(file, ws[0]), ws[1..], i);
      assert forall w :: w in ws <==> w == ws[0] || w in ws[1..];
      forall w | w in ws && Covers(w, i)
        ensures i < |WriteAll(file, ws)| && WriteAll(file, ws)[i] == w.bytes[i - w.offset]
      {
        if w !in ws[1..] {
          assert forall v | v in ws[1..] :: Covers(v, i) ==> v == w;
        }
      }
    }
  }

  lemma {:induction false} SameWritesSameFile(ws: seq<Write>, vs: seq<Write>)
    requires AreDisjoint(ws) && AreDisjoint(vs) && forall w :: w in ws <==> w in vs
    ensures WriteAll("", ws) == WriteAll("", vs)
  {
    var a, b := WriteAll("", ws), WriteAll("", vs);
    WriteAllByte("", ws, |a|);
    WriteAllByte("", vs, |a|);
    WriteAllByte("", ws, |b|);
    WriteAllByte("", vs, |b|);
    assert |a| == |b|;
    forall i | 0 <= i < |a| ensures a[i] == b[i] {
      WriteAllByte("", ws, i);
      WriteAllByte("", vs, i);
      if w :| w in ws && Covers(w, i) {
        assert w in vs;
      }
    }
  }

  /** All writes of all operations, in order; the operations are well formed. */
  ghost function AllWrites(ops: seq<Operation>, blob: string, blockSize: nat, decode: Decoder): seq<Write>
    requires forall op | op in ops :: OpWrites(op, blob, blockSize, decode).Ok?
  {
    if ops == [] then []
    else
      assert ops[0] in ops;
      OpWrites(ops[0], blob, blockSize, decode).value + AllWrites(ops[1..], blob, blockSize, decode)
  }

  lemma {:induction false} WriteAllConcat(file: string, ws: seq<Write>, vs: seq<Write>)
    ensures WriteAll(file, ws + vs) == WriteAll(WriteAll(file, ws), vs)
    decreases |ws|
  {
    if ws == [] {
      assert ws + vs == vs;
    } else {
      assert (ws + vs)[1..] == ws[1..] + vs;
      WriteAllConcat(WriteAt(file, ws[0]), ws[1..], vs);
    }
  }

  lemma {:induction false} RunIsWriteAll(ops: seq<Operation>, blob: string, blockSize: nat, decode: Decoder,
                                         file: string)
    requires forall op | op in ops :: OpWrites(op, blob, blockSize, decode).Ok?
    ensures RunRandom(ops, blob, blockSize, decode, file) == Ok(WriteAll(file, AllWrites(ops, blob, blockSize, decode)))
    decreases |ops|
  {
    hide OpWrites;
    if ops != [] {
      assert ops[0] in ops;
      var ws := OpWrites(ops[0], blob, blockSize, decode).value;
      RunIsWriteAll(ops[1..], blob, blockSize, decode, WriteAll(file, ws));
      WriteAllConcat(file, ws, AllWrites(ops[1..], blob, blockSize, decode));
    }
  }

  lemma {:induction false} AllWritesOf(ops: seq<Operation>, blob: string, blockSize: nat, decode: Decoder, w: Write)
    requires forall op | op in ops :: OpWrites(op, blob, blockSize, decode).Ok?
    ensures w in AllWrites(ops, blob, blockSize, decode)
            <==> exists op | op in ops :: w in OpWrites(op, blob, blockSize, decode).value
  {
    hide OpWrites;
    if ops != [] {
      AllWritesOf(ops[1..], blob, blockSize, decode, w);
      assert forall op :: op in ops <==> op == ops[0] || op in ops[1..];
    }
  }

  /** Sorting the operations does not change the image: with well-formed operations whose writes
      do not overlap, the sorted run leaves the file that manifest order leaves. */
  lemma {:induction false} SortedRunIsManifestRun(ops: seq<Operation>, blob: string, blockSize: nat, decode: Decoder)
    requires forall op | op in ops :: OpWrites(op, blob, blockSize, decode).Ok?
    requires AreDisjoint(AllWrites(ops, blob, blockSize, decode))
    ensures RunRandom(SortByOffset(ops), blob, blockSize, decode, "") == RunRandom(ops, blob, blockSize, decode, "")
    ensures RunRandom(ops, blob, blockSize, decode, "").Ok?
  {
    hide OpWrites, SortByOffset;
    var sorted := SortByOffset(ops);
    SortedHas(ops);
    RunIsWriteAll(ops, blob, blockSize, decode, "");
    RunIsWriteAll(sorted, blob, blockSize, decode, "");
    var ws, vs := AllWrites(ops, blob, blockSize, decode), AllWrites(sorted, blob, blockSize, decode);
    forall w ensures w in ws <==> w in vs {
      AllWritesOf(ops, blob, blockSize, decode, w);
      AllWritesOf(sorted, blob, blockSize, decode, w);
    }
    SameWritesSameFile(ws, vs);
  }

  /** A ZERO operation clears num_blocks bytes of an extent, not num_blocks blocks: it reaches the
      end of the extent exactly when there is nothing to clear or blocks are single bytes. */
  lemma {:induction false} ZeroClearsBytes(start: nat, num: nat, blockSize: nat)
    requires blockSize > 0
    ensures var r := ZeroWrites([Extent(Some(start), Some(num))], blockSize);
            && r.Ok? && |r.value| == 1 && r.value[0].offset == start * blockSize
            && (r.value[0].offset + |r.value[0].bytes| == (start + num) * blockSize <==> num == 0 || blockSize == 1)
  {
    var ext := Extent(Some(start), Some(num));
    assert [ext][1..] == [];
    assert (start + num) * blockSize == start * blockSize + num * blockSize;
    if num > 0 && blockSize > 1 {
      assert num * blockSize >= num * 2;
    }
  }
}
