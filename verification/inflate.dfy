/** The DEFLATE decoder: loops over a bit stream and an output buffer that write
    exactly the bytes RFC 1951 assigns to a well-formed stream. */
module Inflate {
  import opened Gates
  import opened Words
  import opened Options
  import opened Bits
  import opened BitReader
  import opened CanonicalCode
  import opened HuffmanSize
  import opened Arenas
  import opened Huffman
  import opened OutBuffer
  import opened Rfc1951

  // --- the fixed codes ---

  lemma {:induction false} KraftRun(lens: seq<nat>, a: nat, n: nat, len: nat, w: nat)
    requires a + n <= |lens| && 1 <= len <= MAX_BITS && w == Pow2(MAX_BITS - len)
    requires forall i | a <= i < a + n :: lens[i] == len
    ensures KraftSum(lens, a + n) == KraftSum(lens, a) + n * w
    decreases n
  {
    if n > 0 {
      KraftRun(lens, a, n - 1, len, w);
      OneMore(n, w);
    }
  }

  lemma OneMore(n: nat, w: nat)
    requires n > 0
    ensures n * w == (n - 1) * w + w
  {
  }

  /** How many symbols of a length there are, over a run of symbols of one length. */
  lemma {:induction false} CountRun(lens: seq<nat>, a: nat, b: nat, one: nat, len: nat)
    requires a <= b <= |lens| && forall i | a <= i < b :: lens[i] == one
    ensures CountIn(lens, b, len) == CountIn(lens, a, len) + if len == one then b - a else 0
    decreases b
  {
    if a < b { CountRun(lens, a, b - 1, one, len); }
  }

  lemma FixedCounts(lens: seq<nat>, s: nat, len: nat)
    requires lens == FixedLengths() && s <= 288
    ensures CountIn(lens, s, len) == if len == 7 then Between(s, 256, 280)
                                     else if len == 8 then Between(s, 0, 144) + Between(s, 280, 288)
                                     else if len == 9 then Between(s, 144, 256) else 0
  {
    CountRun(lens, 0, if s < 144 then s else 144, 8, len);
    if s > 144 { CountRun(lens, 144, if s < 256 then s else 256, 9, len); }
    if s > 256 { CountRun(lens, 256, if s < 280 then s else 280, 7, len); }
    if s > 280 { CountRun(lens, 280, s, 8, len); }
  }

  /** How many numbers from `a` up to `b` are below `s`. */
  function Between(s: nat, a: nat, b: nat): nat
    requires a <= b
  {
    if s <= a then 0 else if s <= b then s - a else b - a
  }

  /** The fixed literal codes are those section 3.2.6 of RFC 1951 lists. */
  lemma FixedCodes(s: nat)
    requires s < 288
    ensures Code(FixedLengths(), s) ==
      if s <= 143 then 0x30 + s else if s <= 255 then 0x190 + (s - 144)
      else if s <= 279 then s - 256 else 0xc0 + (s - 280)
  {
    var lens := FixedLengths();
    FixedCounts(lens, s, lens[s]);
    FixedFirsts(lens);
  }

  lemma {:induction false} FixedStart(lens: seq<nat>, len: nat)
    requires lens == FixedLengths() && len <= 7
    ensures FirstCode(lens, len) == 0
  {
    if len > 0 {
      FixedStart(lens, len - 1);
      FixedCounts(lens, 288, len - 1);
    }
  }

  lemma FixedFirsts(lens: seq<nat>)
    requires lens == FixedLengths()
    ensures FirstCode(lens, 7) == 0 && FirstCode(lens, 8) == 0x30 && FirstCode(lens, 9) == 0x190
  {
    FixedStart(lens, 7);
    FixedCounts(lens, 288, 7);
    FixedCounts(lens, 288, 8);
  }

  lemma FixedComplete()
    ensures NotOverSubscribed(FixedLengths()) && Complete(FixedLengths())
  {
    assert Pow2(15) == 32768;
    FourRuns(FixedLengths(), 144, 112, 24, 8);
  }

  /** Runs of codes of 8, 9, 7 and 8 bits. */
  lemma FourRuns(lens: seq<nat>, k: nat, l: nat, m: nat, n: nat)
    requires |lens| == k + l + m + n && forall i | 0 <= i < |lens| ::
      lens[i] == if i < k then 8 else if i < k + l then 9 else if i < k + l + m then 7 else 8
    ensures KraftSum(lens, |lens|) == k * 128 + l * 64 + m * 256 + n * 128
  {
    Pow2Values();
    KraftRun(lens, 0, k, 8, 128);
    KraftRun(lens, k, l, 9, 64);
    KraftRun(lens, k + l, m, 7, 256);
    KraftRun(lens, k + l + m, n, 8, 128);
  }

  lemma {:induction false} FixedCount(n: nat, len: nat)
    requires n <= 32
    ensures CountIn(FixedDistances(), n, len) == if len == 5 then n else 0
  {
    if n > 0 { FixedCount(n - 1, len); }
  }

  lemma {:induction false} FixedFirst(len: nat)
    requires len <= 5
    ensures FirstCode(FixedDistances(), len) == 0
  {
    if len > 0 {
      FixedFirst(len - 1);
      FixedCount(32, len - 1);
    }
  }

  /** A fixed distance code is the five-bit number of its symbol. */
  lemma FixedDistanceAt(data: seq<Byte>, pos: nat)
    requires pos + 5 <= 8 * |data|
    ensures SymbolAt(FixedDistances(), data, pos) == Some(TakeMsb(data, pos, 5))
  {
    var lens, s := FixedDistances(), TakeMsb(data, pos, 5);
    Pow2Values();
    TakeMsbBound(data, pos, 5);
    FixedFirst(5);
    FixedCount(s, 5);
    assert CodeAt(lens, data, pos, s);
    CodeAtUnique(lens, data, pos, s, SymbolAt(lens, data, pos).value);
  }

  // --- the decoder ---

  /** Reads the next symbol of a code that stands at the stream's position. */
  method NextSymbol(tree: HuffmanTree, stream: BitStream) returns (ok: bool, symbol: nat)
    requires tree.Valid() && stream.Valid() && SymbolAt(tree.lens, stream.data, stream.Pos()).Some?
    modifies stream`currentByte, stream`currentBit, stream`bitBuffer, stream`bitsInBuffer
    ensures ok && SymbolAt(tree.lens, stream.data, old(stream.Pos())) == Some(symbol)
    ensures symbol < |tree.lens| && stream.Valid() && stream.Pos() == old(stream.Pos()) + tree.lens[symbol]
  {
    ghost var s := SymbolAt(tree.lens, stream.data, stream.Pos()).value;
    ok, symbol := Lookup(tree, stream);
  }

  /** Five bits whose reverse is the distance symbol, as fixed blocks send it. */
  method FixedDistance(stream: BitStream) returns (symbol: nat)
    requires stream.Valid() && stream.Pos() + 5 <= 8 * |stream.data|
    modifies stream`currentByte, stream`currentBit, stream`bitBuffer, stream`bitsInBuffer
    ensures SymbolAt(FixedDistances(), stream.data, old(stream.Pos())) == Some(symbol)
    ensures symbol < 32 && stream.Valid() && stream.Pos() == old(stream.Pos()) + 5
  {
    ghost var pos := stream.Pos();
    var sent := stream.GetBits(5);
    TakeBound(stream.data, pos, 5);
    symbol := BitReverse(sent, 5);
    ReverseTake(stream.data, pos, 5, 5);
    FixedDistanceAt(stream.data, pos);
  }

  /** The distance vector in force: the dynamic one or the fixed one. */
  ghost function Distances(dtree: HuffmanTree?): seq<nat>
    reads dtree
  {
    if dtree == null then FixedDistances() else dtree.lens
  }

  const LENGTH_BASE: seq<nat> :=
    [3, 4, 5, 6, 7, 8, 9, 10, 11, 13, 15, 17, 19, 23, 27, 31, 35, 43, 51, 59, 67, 83, 99, 115, 131, 163, 195, 227, 258]
  const LENGTH_EXTRA: seq<nat> :=
    [0, 0, 0, 0, 0, 0, 0, 0, 1, 1, 1, 1, 2, 2, 2, 2, 3, 3, 3, 3, 4, 4, 4, 4, 5, 5, 5, 5, 0]
  const DIST_BASE: seq<nat> :=
    [1, 2, 3, 4, 5, 7, 9, 13, 17, 25, 33, 49, 65, 97, 129, 193, 257, 385, 513, 769, 1025, 1537, 2049, 3073, 4097,
     6145, 8193, 12289, 16385, 24577]
  const DIST_EXTRA: seq<nat> :=
    [0, 0, 0, 0, 1, 1, 2, 2, 3, 3, 4, 4, 5, 5, 6, 6, 7, 7, 8, 8, 9, 9, 10, 10, 11, 11, 12, 12, 13, 13]

  /** The decoder's tables list the ranges of the standard. */
  lemma LengthTable(i: nat)
    requires i < 29
    ensures LENGTH_EXTRA[i] == LengthExtra(i) <= 5 && LENGTH_BASE[i] == LengthBase(i) <= 258
  {
  }

  lemma DistTable(i: nat)
    requires i < 30
    ensures DIST_EXTRA[i] == DistExtra(i) <= 13 && DIST_BASE[i] == DistBase(i) <= 24577
  {
  }

  lemma ExtraBound(data: seq<Byte>, pos: nat, n: nat)
    requires n <= 13
    ensures Take(data, pos, n) < 8192
  {
    TakeBound(data, pos, n);
    Pow2Mono(n, 13);
    Pow2Values();
  }

  /** Reads the extra bits of a length symbol; 16-bit arithmetic suffices. */
  method ReadLength(stream: BitStream, i: nat) returns (length: nat)
    requires stream.Valid() && i < 29 && stream.Pos() + LengthExtra(i) <= 8 * |stream.data|
    modifies stream`currentByte, stream`currentBit, stream`bitBuffer, stream`bitsInBuffer
    ensures stream.Valid() && stream.Pos() == old(stream.Pos()) + LengthExtra(i)
    ensures length == LengthBase(i) + Take(stream.data, old(stream.Pos()), LengthExtra(i))
  {
    LengthTable(i);
    var bits := LENGTH_EXTRA[i];
    var extra := stream.GetBits(bits);
    ExtraBound(stream.data, old(stream.Pos()), bits);
    length := (LENGTH_BASE[i] + extra) % 0x1_0000;
  }

  method ReadDistance(stream: BitStream, i: nat) returns (distance: nat)
    requires stream.Valid() && i < 30 && stream.Pos() + DistExtra(i) <= 8 * |stream.data|
    modifies stream`currentByte, stream`currentBit, stream`bitBuffer, stream`bitsInBuffer
    ensures stream.Valid() && stream.Pos() == old(stream.Pos()) + DistExtra(i)
    ensures distance == DistBase(i) + Take(stream.data, old(stream.Pos()), DistExtra(i))
  {
    DistTable(i);
    var bits := DIST_EXTRA[i];
    var extra := stream.GetBits(bits);
    ExtraBound(stream.data, old(stream.Pos()), bits);
    distance := (DIST_BASE[i] + extra) % 0x1_0000;
  }

  /** Reads a distance symbol in the code in force. */
  method ReadDistanceSymbol(stream: BitStream, dtree: HuffmanTree?) returns (symbol: nat)
    requires stream.Valid() && (dtree != null ==> dtree.Valid())
    requires SymbolAt(Distances(dtree), stream.data, stream.Pos()).Some?
    modifies stream`currentByte, stream`currentBit, stream`bitBuffer, stream`bitsInBuffer
    ensures SymbolAt(Distances(dtree), stream.data, old(stream.Pos())) == Some(symbol)
    ensures stream.Valid() && stream.Pos() == old(stream.Pos()) + Distances(dtree)[symbol]
  {
    if dtree != null {
      var ok;
      ok, symbol := NextSymbol(dtree, stream);
    } else {
      symbol := FixedDistance(stream);
    }
  }

  /** Reads the rest of a length and distance pair. */
  method ReadReference(stream: BitStream, dtree: HuffmanTree?, symbol: nat) returns (length: nat, distance: nat)
    requires stream.Valid() && (dtree != null ==> dtree.Valid()) && 257 <= symbol
    requires ReferenceAt(Distances(dtree), stream.data, stream.Pos(), symbol).Reference?
    modifies stream`currentByte, stream`currentBit, stream`bitBuffer, stream`bitsInBuffer
    ensures stream.Valid()
    ensures old(ReferenceAt(Distances(dtree), stream.data, stream.Pos(), symbol))
         == Reference(length, distance, stream.Pos())
  {
    length := ReadLength(stream, symbol - 257);
    var d := ReadDistanceSymbol(stream, dtree);
    distance := ReadDistance(stream, d);
  }

  /** A step, given its symbol. */
  lemma StepCases(lit: seq<nat>, dist: seq<nat>, data: seq<Byte>, pos: nat, out: seq<Byte>, step: Step, s: nat)
    requires StepIs(lit, dist, data, pos, out, step) && !step.BadStep? && SymbolAt(lit, data, pos) == Some(s)
    ensures var p := pos + lit[s];
            && (s < 256 ==> step == Go(p, out + [s]))
            && (s == 256 ==> step == Finish(p))
            && (s > 256 ==> CopyIs(dist, data, p, s, out, step))
  {
    assert Open(Meaning, 0);
  }

  lemma StepHasSymbol(lit: seq<nat>, dist: seq<nat>, data: seq<Byte>, pos: nat, out: seq<Byte>, step: Step)
    requires StepIs(lit, dist, data, pos, out, step) && !step.BadStep?
    ensures SymbolAt(lit, data, pos).Some? && pos < 8 * |data|
  {
    assert Open(Meaning, 0);
  }

  datatype Outcome = Ended | Continued | Overflowed

  /** The reader and the buffer stand where the step says, or the buffer is too small. */
  ghost predicate Did(r: Outcome, step: Step, before: seq<Byte>, pos: nat, out: seq<Byte>, room: nat) {
    match r
    case Ended => step == Finish(pos) && out == before
    case Continued => step == Go(pos, out)
    case Overflowed => step.Go? && |step.out| > room
  }

  /** One turn of the block loop: a literal, a back reference or the end. */
  method HandleSymbol(stream: BitStream, buffer: Buffer, ltree: HuffmanTree, dtree: HuffmanTree?,
                      ghost lit: seq<nat>, ghost dist: seq<nat>, ghost pos: nat, ghost out: seq<Byte>, ghost step: Step)
    returns (r: Outcome)
    requires stream.Valid() && buffer.Valid() && ltree.Valid() && (dtree != null ==> dtree.Valid())
    requires lit == ltree.lens && dist == Distances(dtree) && pos == stream.Pos() && out == buffer.Contents()
    requires !step.BadStep? && StepIs(lit, dist, stream.data, pos, out, step)
    modifies stream`currentByte, stream`currentBit, stream`bitBuffer, stream`bitsInBuffer
    modifies buffer`size, buffer.data
    ensures stream.Valid() && buffer.Valid()
    ensures Did(r, step, out, stream.Pos(), buffer.Contents(), buffer.data.Length)
  {
    StepHasSymbol(lit, dist, stream.data, pos, out, step);
    if stream.currentByte >= |stream.data| { return Ended; }
    var v, symbol := NextSymbol(ltree, stream);
    if !v { return Ended; }
    StepCases(lit, dist, stream.data, pos, out, step, symbol);
    r := ApplySymbol(stream, buffer, dtree, symbol, dist, pos + lit[symbol], out, step);
  }

  /** What a symbol that has been read does. */
  method ApplySymbol(stream: BitStream, buffer: Buffer, dtree: HuffmanTree?, symbol: nat,
                     ghost dist: seq<nat>, ghost pos: nat, ghost out: seq<Byte>, ghost step: Step)
    returns (r: Outcome)
    requires stream.Valid() && buffer.Valid() && (dtree != null ==> dtree.Valid())
    requires dist == Distances(dtree) && pos == stream.Pos() && out == buffer.Contents()
    requires symbol < 256 ==> step == Go(pos, out + [symbol])
    requires symbol == 256 ==> step == Finish(pos)
    requires symbol > 256 ==> CopyIs(dist, stream.data, pos, symbol, out, step)
    modifies stream`currentByte, stream`currentBit, stream`bitBuffer, stream`bitsInBuffer
    modifies buffer`size, buffer.data
    ensures stream.Valid() && buffer.Valid()
    ensures Did(r, step, out, stream.Pos(), buffer.Contents(), buffer.data.Length)
  {
    if symbol < 256 {
      var inserted := buffer.Insert(symbol);
      return if inserted then Continued else Overflowed;
    }
    if symbol == 256 { return Ended; }
    r := HandleReference(stream, buffer, dtree, symbol, dist, pos, out, step);
  }

  /** A back reference, copied when it fits. */
  method HandleReference(stream: BitStream, buffer: Buffer, dtree: HuffmanTree?, symbol: nat,
                         ghost dist: seq<nat>, ghost pos: nat, ghost out: seq<Byte>, ghost step: Step)
    returns (r: Outcome)
    requires stream.Valid() && buffer.Valid() && (dtree != null ==> dtree.Valid()) && 257 <= symbol
    requires dist == Distances(dtree) && pos == stream.Pos() && out == buffer.Contents()
    requires CopyIs(dist, stream.data, pos, symbol, out, step)
    modifies stream`currentByte, stream`currentBit, stream`bitBuffer, stream`bitsInBuffer
    modifies buffer`size, buffer.data
    ensures stream.Valid() && buffer.Valid() && !r.Ended? && step.Go?
    ensures if r.Continued? then step == Go(stream.Pos(), buffer.Contents()) else |step.out| > buffer.data.Length
  {
    assert Open(Meaning, 0);
    var length, distance := ReadReference(stream, dtree, symbol);
    var copied := buffer.Lz77Copy(distance, length);
    return if copied then Continued else Overflowed;
  }

  /** The rest of a block's symbols, given the next step. */
  lemma SymbolsStep(lit: seq<nat>, dist: seq<nat>, data: seq<Byte>, pos: nat, out: seq<Byte>, r: Progress)
    returns (step: Step)
    requires r.At? && SymbolsAre(lit, dist, data, pos, out, r)
    ensures !step.BadStep? && pos < step.pos <= 8 * |data| && StepIs(lit, dist, data, pos, out, step)
    ensures step.Finish? ==> r == At(step.pos, out)
    ensures step.Go? ==> step.out <= r.out && SymbolsAre(lit, dist, data, step.pos, step.out, r)
  {
    assert Open(Meaning, 0);
    step := StepAt(lit, dist, data, pos, out);
  }

  /** The compressed data of one block. */
  method HandleSymbols(stream: BitStream, buffer: Buffer, ltree: HuffmanTree, dtree: HuffmanTree?,
                       ghost lit: seq<nat>, ghost dist: seq<nat>, ghost start: nat, ghost before: seq<Byte>,
                       ghost r: Progress)
    returns (success: bool)
    requires stream.Valid() && buffer.Valid() && ltree.Valid() && (dtree != null ==> dtree.Valid())
    requires lit == ltree.lens && dist == Distances(dtree) && start == stream.Pos() && before == buffer.Contents()
    requires r.At? && SymbolsAre(lit, dist, stream.data, start, before, r)
    modifies stream`currentByte, stream`currentBit, stream`bitBuffer, stream`bitsInBuffer
    modifies buffer`size, buffer.data
    ensures stream.Valid() && buffer.Valid()
    ensures success <==> |r.out| <= buffer.data.Length
    ensures success ==> r == At(stream.Pos(), buffer.Contents())
  {
    ghost var pos, out := start, before;
    while true
      invariant stream.Valid() && buffer.Valid()
      invariant pos == stream.Pos() && out == buffer.Contents() && SymbolsAre(lit, dist, stream.data, pos, out, r)
      decreases 8 * |stream.data| - pos
    {
      ghost var step := SymbolsStep(lit, dist, stream.data, pos, out, r);
      var outcome := HandleSymbol(stream, buffer, ltree, dtree, lit, dist, pos, out, step);
      match outcome {
        case Ended => return true;
        case Overflowed => return false;
        case Continued => pos, out := step.pos, step.out;
      }
    }
  }

  // --- stored blocks ---

  /** Aligns and reads the two length words with the unbuffered fast path. */
  method ReadStoredHeader(stream: BitStream) returns (len: nat, nlen: nat)
    requires stream.Valid() && AlignUp8(stream.Pos()) + 32 <= 8 * |stream.data|
    modifies stream`currentByte, stream`currentBit, stream`bitBuffer, stream`bitsInBuffer
    ensures stream.Valid() && stream.bitsInBuffer == 0 && stream.currentBit == 0
    ensures stream.Pos() == AlignUp8(old(stream.Pos())) + 32
    ensures StoredHeaderIs(stream.data, AlignUp8(old(stream.Pos())), len, nlen)
  {
    stream.Align();
    len := stream.ReadU16();
    nlen := stream.ReadU16();
  }

  lemma StoredLong(data: seq<Byte>, pos: nat, out: seq<Byte>, r: Progress)
    requires StoredIs(data, pos, out, r) && r.At?
    ensures AlignUp8(pos) + 32 <= 8 * |data|
  {
    assert Open(Meaning, 0);
  }

  lemma StoredParts(data: seq<Byte>, pos: nat, out: seq<Byte>, r: Progress, p: nat, len: nat, nlen: nat, k: nat)
    requires StoredIs(data, pos, out, r) && r.At? && StoredHeaderIs(data, p, len, nlen)
    requires p == AlignUp8(pos) && k == p / 8 + 4
    ensures k + len <= |data| && nlen == 0xffff - len
    ensures r == At(8 * (k + len), out + data[k..k + len])
  {
    assert Open(Meaning, 0);
    assert r == StoredBytes(data, k, out, len, nlen);
  }

  /** A stored block: its bytes, copied from the stream past the bit buffer. */
  method HandleStored(stream: BitStream, buffer: Buffer, ghost pos: nat, ghost out: seq<Byte>, ghost r: Progress)
    returns (success: bool)
    requires stream.Valid() && buffer.Valid() && pos == stream.Pos() && out == buffer.Contents()
    requires r.At? && StoredIs(stream.data, pos, out, r)
    modifies stream`currentByte, stream`currentBit, stream`bitBuffer, stream`bitsInBuffer
    modifies buffer`size, buffer.data
    ensures stream.Valid() && buffer.Valid()
    ensures success <==> |r.out| <= buffer.data.Length
    ensures success ==> r == At(stream.Pos(), buffer.Contents())
  {
    ghost var p := AlignUp8(pos);
    StoredLong(stream.data, pos, out, r);
    var len, nlen := ReadStoredHeader(stream);
    StoredParts(stream.data, pos, out, r, p, len, nlen, p / 8 + 4);
    assert stream.currentByte == p / 8 + 4;
    if len != 0xffff - nlen { return false; }
    success := CopyStored(stream, buffer, len);
  }

  /** Copies bytes from the stream, at most as many as are left. */
  method CopyStored(stream: BitStream, buffer: Buffer, count: nat) returns (success: bool)
    requires stream.Valid() && buffer.Valid() && stream.bitsInBuffer == 0 && stream.currentBit == 0
    modifies stream`currentByte, stream`currentBit, stream`bitBuffer, stream`bitsInBuffer
    modifies buffer`size, buffer.data
    ensures stream.Valid() && buffer.Valid()
    ensures var k := old(stream.currentByte);
      k + count <= |stream.data| ==>
        && (success <==> |old(buffer.Contents())| + count <= buffer.data.Length)
        && (success ==> buffer.Contents() == old(buffer.Contents()) + stream.data[k..k + count])
        && (success ==> stream.Pos() == 8 * (k + count))
  {
    var len := count;
    var avail := |stream.data| - stream.currentByte;
    if len > avail { len := avail; }
    var src := stream.data[stream.currentByte..stream.currentByte + len];
    success := buffer.InsertBulk(src);
    if !success { return; }
    stream.SkipBytes(len);
  }

  // --- dynamic tables ---

  /** The three counts at the head of a dynamic block, from one 14-bit peek. */
  method ReadCounts(stream: BitStream) returns (hlit: nat, hdist: nat, hclen: nat)
    requires stream.Valid() && stream.Pos() + 14 <= 8 * |stream.data|
    modifies stream`currentByte, stream`currentBit, stream`bitBuffer, stream`bitsInBuffer
    ensures stream.Valid() && stream.Pos() == old(stream.Pos()) + 14
    ensures hlit < 32 && hdist < 32 && hclen < 16 && CountsAre(stream.data, old(stream.Pos()), hlit, hdist, hclen)
  {
    var data := stream.Peek(14);
    CountsOf(stream.data, old(stream.Pos()), data);
    stream.Consume(14);
    hlit := And(data, 0x1f);
    hdist := And(Shr(data, 5), 0x1f);
    hclen := And(Shr(data, 10), 0xf);
  }

  lemma CountsOf(data: seq<Byte>, pos: nat, d: nat)
    requires d == Take(data, pos, 14)
    ensures And(d, 0x1f) < 32 && And(Shr(d, 5), 0x1f) < 32 && And(Shr(d, 10), 0xf) < 16
    ensures CountsAre(data, pos, And(d, 0x1f), And(Shr(d, 5), 0x1f), And(Shr(d, 10), 0xf))
  {
    Pow2Values();
    FieldOf(data, pos, 0, 5, 14);
    FieldOf(data, pos, 5, 5, 14);
    FieldOf(data, pos, 10, 4, 14);
  }

  /** A field of `n` bits, `skip` bits into a window, by shift and mask. */
  lemma FieldOf(data: seq<Byte>, pos: nat, skip: nat, n: nat, window: nat)
    requires skip + n <= window
    ensures And(Shr(Take(data, pos, window), skip), Pow2(n) - 1) == Take(data, pos + skip, n) < Pow2(n)
  {
    AndMask(Shr(Take(data, pos, window), skip), n);
    TakeLow(data, pos, skip, window);
    TakeLow(data, pos + skip, n, window - skip);
    TakeBound(data, pos + skip, n);
  }

  const CLEN_ORDER: seq<nat> := [16, 17, 18, 0, 8, 7, 9, 6, 10, 5, 11, 4, 12, 3, 13, 2, 14, 1, 15]

  lemma ClenOrder(i: nat)
    requires i < 19
    ensures CLEN_ORDER[i] == FieldSymbol(i)
  {
  }

  /** The lengths of the code length code: fields 0 to 2 are those of symbols 16 to 18,
      field 3 that of 0, field 4 + 2k that of 8 + k and field 5 + 2k that of 7 - k. */
  method ReadCodeLengthCode(stream: BitStream, n: nat) returns (lens: seq<nat>)
    requires stream.Valid() && n <= 19 && stream.Pos() + 3 * n <= 8 * |stream.data|
    modifies stream`currentByte, stream`currentBit, stream`bitBuffer, stream`bitsInBuffer
    ensures stream.Valid() && stream.Pos() == old(stream.Pos()) + 3 * n
    ensures CodeLengthsAre(stream.data, old(stream.Pos()), n, lens)
    ensures FieldsAre(lens, Fields(stream.data, old(stream.Pos()), n))
  {
    lens := ReadFields(stream, n);
    FieldsFound(lens, stream.data, old(stream.Pos()), n);
  }

  lemma FieldStep(data: seq<Byte>, pos: nat, i: nat, lens: seq<nat>, l: nat)
    requires i < 19 && lens == CodeLengthCode(data, pos, i) && l == Take(data, pos + 3 * i, 3)
    ensures CLEN_ORDER[i] < 19 && lens[CLEN_ORDER[i] := l] == CodeLengthCode(data, pos, i + 1)
  {
    ClenOrder(i);
  }

  method ReadFields(stream: BitStream, n: nat) returns (lens: seq<nat>)
    requires stream.Valid() && n <= 19 && stream.Pos() + 3 * n <= 8 * |stream.data|
    modifies stream`currentByte, stream`currentBit, stream`bitBuffer, stream`bitsInBuffer
    ensures stream.Valid() && stream.Pos() == old(stream.Pos()) + 3 * n
    ensures lens == CodeLengthCode(stream.data, old(stream.Pos()), n)
  {
    var hsym: seq<nat> := seq(19, _ => 0);
    for i := 0 to n
      invariant stream.Valid() && stream.Pos() == old(stream.Pos()) + 3 * i
      invariant hsym == CodeLengthCode(stream.data, old(stream.Pos()), i)
    {
      var l := stream.GetBits(3);
      FieldStep(stream.data, old(stream.Pos()), i, hsym, l);
      hsym := hsym[CLEN_ORDER[i] := l];
    }
    lens := hsym;
  }

  /** `n` three-bit numbers. */
  ghost function Fields(data: seq<Byte>, pos: nat, n: nat): (r: seq<nat>)
    ensures |r| == n && forall i | 0 <= i < n :: r[i] == Take(data, pos + 3 * i, 3)
  {
    seq(n, i requires 0 <= i => Take(data, pos + 3 * i, 3))
  }

  /** Which length each field is. */
  ghost predicate FieldsAre(lens: seq<nat>, fields: seq<nat>) {
    && |lens| == 19 && |fields| <= 19
    && (forall i | 0 <= i < 3 && i < |fields| :: lens[16 + i] == fields[i])
    && (|fields| > 3 ==> lens[0] == fields[3])
    && (forall k | 0 <= k < 8 && 4 + 2 * k < |fields| :: lens[8 + k] == fields[4 + 2 * k])
    && (forall k | 0 <= k < 7 && 5 + 2 * k < |fields| :: lens[7 - k] == fields[5 + 2 * k])
  }

  lemma FieldsFound(lens: seq<nat>, data: seq<Byte>, pos: nat, n: nat)
    requires n <= 19 && lens == CodeLengthCode(data, pos, n)
    ensures FieldsAre(lens, Fields(data, pos, n))
  {
    var fields := Fields(data, pos, n);
    forall i | 0 <= i < n ensures lens[FieldSymbol(i)] == fields[i] {
      FieldsRead(data, pos, n, i);
    }
    FieldNumbers(lens, fields);
  }

  lemma FieldNumbers(lens: seq<nat>, fields: seq<nat>)
    requires |lens| == 19 && |fields| <= 19 && forall i | 0 <= i < |fields| :: lens[FieldSymbol(i)] == fields[i]
    ensures FieldsAre(lens, fields)
  {
    forall k | 0 <= k < 8 && 4 + 2 * k < |fields| ensures lens[8 + k] == fields[4 + 2 * k] {
      assert FieldSymbol(4 + 2 * k) == 8 + k;
    }
    forall k | 0 <= k < 7 && 5 + 2 * k < |fields| ensures lens[7 - k] == fields[5 + 2 * k] {
      assert FieldSymbol(5 + 2 * k) == 7 - k;
    }
  }

  /** The next code length symbol and its repeat count, if it has one. */
  method ReadRepeat(stream: BitStream, symbol: nat) returns (times: nat)
    requires stream.Valid() && 16 <= symbol <= 18 && stream.Pos() + RepeatBits(symbol) <= 8 * |stream.data|
    modifies stream`currentByte, stream`currentBit, stream`bitBuffer, stream`bitsInBuffer
    ensures stream.Valid() && stream.Pos() == old(stream.Pos()) + RepeatBits(symbol)
    ensures times == RepeatBase(symbol) + Take(stream.data, old(stream.Pos()), RepeatBits(symbol)) < 256
  {
    ghost var pos := stream.Pos();
    TakeBound(stream.data, pos, RepeatBits(symbol));
    Pow2Values();
    if symbol == 16 {
      times := stream.GetBits(2);
      times := times + 3;
    } else if symbol == 17 {
      times := stream.GetBits(3);
      times := times + 3;
    } else {
      times := stream.GetBits(7);
      times := times + 11;
    }
  }

  /** Writes `value` from `i` on, at most `times` times and not past `limit`. */
  method FillLengths(lens: array<nat>, i: nat, value: nat, times: nat, limit: nat) returns (next: nat)
    requires i <= limit <= lens.Length && i + times <= limit
    modifies lens
    ensures next == i + times && lens[..next] == old(lens[..i]) + Repeat(value, times)
  {
    next := i;
    var j := 0;
    while j < times && next < limit
      invariant j <= times && next == i + j
      invariant lens[..next] == old(lens[..i]) + Repeat(value, j)
    {
      lens[next] := value;
      j, next := j + 1, next + 1;
    }
  }

  /** One code length symbol, given what stands at `pos`. */
  lemma LengthsStep(clen: seq<nat>, data: seq<Byte>, pos: nat, total: nat, acc: seq<nat>, r: Vector, s: nat)
    returns (pos': nat, acc': seq<nat>)
    requires |clen| == 19 && Lengths(acc) && |acc| < total && VectorIs(clen, data, pos, total, acc, r) && r.Vector?
    requires SymbolAt(clen, data, pos) == Some(s)
    ensures s <= 18 && Lengths(acc') && |acc'| <= total && VectorIs(clen, data, pos', total, acc', r)
    ensures s <= 15 ==> pos' == pos + clen[s] && acc' == acc + [s]
    ensures s > 15 ==>
      && pos' == pos + clen[s] + RepeatBits(s) <= 8 * |data| && (s == 16 ==> acc != [])
      && acc' == acc + Repeat(if s == 16 then acc[|acc| - 1] else 0,
                              RepeatBase(s) + Take(data, pos + clen[s], RepeatBits(s)))
  {
    assert Open(Meaning, 0);
    var p := pos + clen[s];
    if s <= 15 {
      pos', acc' := p, acc + [s];
    } else {
      pos' := p + RepeatBits(s);
      acc' := acc + Repeat(if s == 16 then acc[|acc| - 1] else 0, RepeatBase(s) + Take(data, p, RepeatBits(s)));
    }
    assert r == LengthsAt(clen, data, pos', total, acc');
  }

  lemma LengthsHasSymbol(clen: seq<nat>, data: seq<Byte>, pos: nat, total: nat, acc: seq<nat>, r: Vector)
    requires |clen| == 19 && Lengths(acc) && |acc| < total && VectorIs(clen, data, pos, total, acc, r) && r.Vector?
    ensures SymbolAt(clen, data, pos).Some?
  {
    assert Open(Meaning, 0);
  }

  lemma LengthsDone(clen: seq<nat>, data: seq<Byte>, pos: nat, acc: seq<nat>, r: Vector)
    requires |clen| == 19 && Lengths(acc) && VectorIs(clen, data, pos, |acc|, acc, r)
    ensures r == Vector(acc, pos)
  {
    assert Open(Meaning, 0);
  }

  /** Applies one code length symbol to the lengths read so far. */
  method ApplyLength(stream: BitStream, lens: array<nat>, i: nat, symbol: nat, total: nat)
    returns (ok: bool, next: nat)
    requires stream.Valid() && i < total <= lens.Length && symbol <= 18
    requires Lengths(lens[..i])
    requires symbol > 15 ==>
      && stream.Pos() + RepeatBits(symbol) <= 8 * |stream.data| && (symbol == 16 ==> i > 0)
      && i + RepeatBase(symbol) + Take(stream.data, stream.Pos(), RepeatBits(symbol)) <= total
    modifies stream`currentByte, stream`currentBit, stream`bitBuffer, stream`bitsInBuffer, lens
    ensures ok && stream.Valid() && i < next <= total
    ensures symbol <= 15 ==> stream.Pos() == old(stream.Pos()) && lens[..next] == old(lens[..i]) + [symbol]
    ensures symbol > 15 ==>
      && stream.Pos() == old(stream.Pos()) + RepeatBits(symbol)
      && lens[..next] == old(lens[..i])
           + Repeat(if symbol == 16 then old(lens[i - 1]) else 0,
                    RepeatBase(symbol) + Take(stream.data, old(stream.Pos()), RepeatBits(symbol)))
  {
    if symbol <= 15 {
      lens[i] := symbol;
      return true, i + 1;
    }
    var times := ReadRepeat(stream, symbol);
    var value := 0;
    if symbol == 16 {
      if i <= 0 { return false, i; }
      value := lens[i - 1];
    }
    next := FillLengths(lens, i, value, times, total);
    ok := true;
  }

  /** Reads one code length symbol; the vector being read stays the same. */
  method ReadOneLength(stream: BitStream, htree: HuffmanTree, lens: array<nat>, i: nat, total: nat,
                     ghost clen: seq<nat>, ghost pos: nat, ghost acc: seq<nat>, ghost r: Vector)
    returns (ok: bool, next: nat, ghost pos': nat, ghost acc': seq<nat>)
    requires stream.Valid() && htree.Valid() && clen == htree.lens && |clen| == 19 && i < total <= lens.Length
    requires pos == stream.Pos() && acc == lens[..i] && Lengths(acc)
    requires r.Vector? && VectorIs(clen, stream.data, pos, total, acc, r)
    modifies stream`currentByte, stream`currentBit, stream`bitBuffer, stream`bitsInBuffer, lens
    ensures ok && stream.Valid() && i < next <= total
    ensures pos' == stream.Pos() && acc' == lens[..next] && Lengths(acc')
    ensures VectorIs(clen, stream.data, pos', total, acc', r)
  {
    LengthsHasSymbol(clen, stream.data, pos, total, acc, r);
    var found, symbol := NextSymbol(htree, stream);
    pos', acc' := pos, acc;
    if !found { return false, i, pos', acc'; }
    pos', acc' := LengthsStep(clen, stream.data, pos, total, acc, r, symbol);
    ok, next := ApplyLength(stream, lens, i, symbol, total);
  }

  /** Reads `total` code lengths with the code length code. */
  method ReadLengths(stream: BitStream, htree: HuffmanTree, total: nat, ghost clen: seq<nat>, ghost start: nat,
                     ghost r: Vector)
    returns (ok: bool, lens: seq<nat>)
    requires stream.Valid() && htree.Valid() && clen == htree.lens && start == stream.Pos()
    requires |clen| == 19 && total <= 320 && r.Vector? && VectorIs(clen, stream.data, start, total, [], r)
    modifies stream`currentByte, stream`currentBit, stream`bitBuffer, stream`bitsInBuffer
    ensures ok && stream.Valid() && r == Vector(lens, stream.Pos())
  {
    var symLengths := new nat[320](_ => 0);
    var i: nat := 0;
    ghost var pos: nat, acc: seq<nat> := start, [];
    while i < total
      invariant i <= total && stream.Valid() && fresh(symLengths)
      invariant pos == stream.Pos() && acc == symLengths[..i] && Lengths(acc)
      invariant VectorIs(clen, stream.data, pos, total, acc, r)
      decreases total - i
    {
      ok, i, pos, acc := ReadOneLength(stream, htree, symLengths, i, total, clen, pos, acc, r);
      if !ok { return false, []; }
    }
    ok, lens := true, symLengths[..total];
    LengthsDone(clen, stream.data, pos, acc, r);
  }

  lemma CountsOnce(data: seq<Byte>, pos: nat, hlit: nat, hdist: nat, hclen: nat, hlit': nat, hdist': nat, hclen': nat)
    requires CountsAre(data, pos, hlit, hdist, hclen) && CountsAre(data, pos, hlit', hdist', hclen')
    ensures hlit == hlit' && hdist == hdist' && hclen == hclen'
  {
    assert Open(BlockHeader, 0);
  }

  /** The code length code of a well-formed dynamic header. */
  lemma TablesHead(data: seq<Byte>, pos: nat, lits: nat, dists: nat, clens: nat, t: Tables)
    requires clens <= 19 && TablesRest(data, pos, lits, dists, clens, t) && t.Tables?
    ensures pos + 3 * clens <= 8 * |data|
  {
    assert Open(Meaning, 0);
  }

  /** It is no over-subscribed code, and the vector follows it. */
  lemma TablesVector(data: seq<Byte>, pos: nat, lits: nat, dists: nat, clens: nat, t: Tables,
                     clen: seq<nat>, end: nat)
    returns (v: Vector)
    requires clens <= 19 && TablesRest(data, pos, lits, dists, clens, t) && t.Tables?
    requires end == pos + 3 * clens && CodeLengthsAre(data, pos, clens, clen)
    ensures Lengths(clen) && NotOverSubscribed(clen)
    ensures v.Vector? && lits <= |v.lens| <= lits + dists && t == Tables(v.lens[..lits], v.lens[lits..], v.pos)
    ensures VectorIs(clen, data, end, lits + dists, [], v)
  {
    assert Open(Meaning, 0);
    v := LengthsAt(clen, data, end, lits + dists, []);
    assert t == SplitTables(v, lits);
  }

  // --- the memory for the trees of one block ---

  /** 32 KiB and three caches, as the decoder sets its arena up. */
  const ARENA_BYTES := 1024 * 32 + 4 * 3 * 1024

  lemma {:induction false} LeavesBelow(lens: seq<nat>, n: nat)
    requires n <= |lens|
    ensures LeafCount(lens, n) <= n
  {
    if n > 0 { LeavesBelow(lens, n - 1); }
  }

  /** A tree of a vector of at most `n` lengths needs no more than one of `n` leaves. */
  lemma NeedsBelow(lens: seq<nat>, n: nat)
    requires |lens| <= n
    ensures TreeNeeds(LeafCount(lens, |lens|)) <= TreeNeeds(n)
  {
    LeavesBelow(lens, |lens|);
    TreeNeedsMono(LeafCount(lens, |lens|), n);
  }

  /** The three trees of a dynamic block fit in the arena, whatever its codes are. */
  lemma TreesFit()
    ensures TreeNeeds(19) + TreeNeeds(32) + TreeNeeds(288) <= ARENA_BYTES
  {
  }

  /** Builds a tree of a vector of at most `n` lengths. */
  method CreateUpTo(lens: seq<nat>, n: nat, arena: Arena) returns (tree: HuffmanTree?)
    requires NotOverSubscribed(lens) && |lens| <= n
    modifies arena`offset
    ensures tree == null ==> old(arena.offset) + TreeNeeds(n) > arena.capacity
    ensures tree != null ==> fresh(tree) && fresh(tree.table) && tree.Valid() && tree.lens == lens
    ensures tree != null ==> arena.offset <= old(arena.offset) + TreeNeeds(n)
  {
    NeedsBelow(lens, n);
    tree := Create(lens, arena);
  }

  /** Reads the code length code and the vector of lengths written with it. */
  method ReadVector(stream: BitStream, arena: Arena, lits: nat, dists: nat, clens: nat, ghost pos: nat, ghost t: Tables)
    returns (ok: bool, lens: seq<nat>)
    requires stream.Valid() && pos == stream.Pos() && lits <= 288 && dists <= 32 && clens <= 19 && t.Tables?
    requires TablesRest(stream.data, pos, lits, dists, clens, t)
    modifies stream`currentByte, stream`currentBit, stream`bitBuffer, stream`bitsInBuffer, arena`offset
    ensures stream.Valid()
    ensures !ok ==> old(arena.offset) + TreeNeeds(19) > arena.capacity
    ensures ok ==> lits <= |lens| <= lits + dists && arena.offset <= old(arena.offset) + TreeNeeds(19)
    ensures ok ==> t == Tables(lens[..lits], lens[lits..], stream.Pos())
  {
    TablesHead(stream.data, pos, lits, dists, clens, t);
    var clen := ReadCodeLengthCode(stream, clens);
    ghost var end := stream.Pos();
    ghost var v := TablesVector(stream.data, pos, lits, dists, clens, t, clen, end);
    var htree := CreateUpTo(clen, 19, arena);
    if htree == null { return false, []; }
    ok, lens := ReadLengths(stream, htree, lits + dists, clen, end, v);
  }

  /** The code of every length and of every distance of a dynamic block, as trees. */
  ghost predicate TreesOf(t: Tables, ltree: HuffmanTree?, dtree: HuffmanTree?, pos: nat)
    reads ltree, dtree, if ltree != null then {ltree.table} else {}, if dtree != null then {dtree.table} else {}
  {
    && ltree != null && ltree.Valid()
    && dtree != null && dtree.Valid()
    && t == Tables(ltree.lens, dtree.lens, pos)
  }

  /** Reads the header of a dynamic block and builds its two trees; in an arena of
      the decoder's size this cannot fail for want of memory. */
  method CreateDynamicTables(stream: BitStream, arena: Arena, ghost pos: nat, ghost t: Tables,
                             ghost hl: nat, ghost hd: nat, ghost hc: nat)
    returns (ok: bool, ltree: HuffmanTree?, dtree: HuffmanTree?)
    requires stream.Valid() && pos == stream.Pos() && t.Tables? && hc <= 15 && CountsAre(stream.data, pos, hl, hd, hc)
    requires TablesRest(stream.data, pos + 14, hl + 257, hd + 1, hc + 4, t)
    requires NotOverSubscribed(t.lit) && NotOverSubscribed(t.dist) && arena.offset == 0
    modifies stream`currentByte, stream`currentBit, stream`bitBuffer, stream`bitsInBuffer, arena`offset
    ensures stream.Valid()
    ensures arena.capacity >= ARENA_BYTES ==> ok
    ensures ok ==> TreesOf(t, ltree, dtree, stream.Pos())
    ensures ok ==> fresh(ltree) && fresh(ltree.table) && fresh(dtree) && fresh(dtree.table)
  {
    TablesHead(stream.data, pos + 14, hl + 257, hd + 1, hc + 4, t);
    var lits, dists, clens := ReadHeader(stream, pos, hl, hd, hc);
    TreesFit();
    var lens;
    ok, lens := ReadVector(stream, arena, lits, dists, clens, pos + 14, t);
    if !ok { return false, null, null; }
    ok, ltree, dtree := CreatePair(arena, lens, lits);
  }

  /** How many lengths of each kind follow. */
  method ReadHeader(stream: BitStream, ghost pos: nat, ghost hl: nat, ghost hd: nat, ghost hc: nat)
    returns (lits: nat, dists: nat, clens: nat)
    requires stream.Valid() && pos == stream.Pos() && pos + 14 <= 8 * |stream.data|
    requires CountsAre(stream.data, pos, hl, hd, hc)
    modifies stream`currentByte, stream`currentBit, stream`bitBuffer, stream`bitsInBuffer
    ensures stream.Valid() && stream.Pos() == pos + 14
    ensures lits == hl + 257 <= 288 && dists == hd + 1 <= 32 && clens == hc + 4 <= 19
  {
    var hlit, hdist, hclen := ReadCounts(stream);
    CountsOnce(stream.data, pos, hl, hd, hc, hlit, hdist, hclen);
    lits, dists, clens := hlit + 257, hdist + 1, hclen + 4;
  }

  method CreatePair(arena: Arena, lens: seq<nat>, lits: nat)
    returns (ok: bool, ltree: HuffmanTree?, dtree: HuffmanTree?)
    requires lits <= 288 && lits <= |lens| <= lits + 32
    requires NotOverSubscribed(lens[..lits]) && NotOverSubscribed(lens[lits..])
    modifies arena`offset
    ensures !ok ==> old(arena.offset) + TreeNeeds(32) + TreeNeeds(288) > arena.capacity
    ensures ok ==> ltree != null && fresh(ltree) && fresh(ltree.table) && ltree.Valid() && ltree.lens == lens[..lits]
    ensures ok ==> dtree != null && fresh(dtree) && fresh(dtree.table) && dtree.Valid() && dtree.lens == lens[lits..]
  {
    dtree := CreateUpTo(lens[lits..], 32, arena);
    ltree := CreateUpTo(lens[..lits], 288, arena);
    if dtree == null { return false, ltree, dtree; }
    if ltree == null { return false, ltree, dtree; }
    ok := true;
  }

  // --- whole streams ---

  /** A block with Huffman codes, fixed or dynamic. */
  method HandleHuffman(stream: BitStream, buffer: Buffer, arena: Arena, fixedTree: HuffmanTree, dynamic: bool,
                       ghost pos: nat, ghost out: seq<Byte>, ghost r: Progress)
    returns (success: bool)
    requires stream.Valid() && buffer.Valid() && fixedTree.Valid() && fixedTree.lens == FixedLengths()
    requires arena.offset == 0
    requires pos == stream.Pos() && out == buffer.Contents()
    requires r.At? && BlockIs(if dynamic then 2 else 1, stream.data, pos, out, r)
    modifies stream`currentByte, stream`currentBit, stream`bitBuffer, stream`bitsInBuffer
    modifies buffer`size, buffer.data, arena`offset
    ensures stream.Valid() && buffer.Valid()
    ensures success ==> r == At(stream.Pos(), buffer.Contents())
    ensures arena.capacity >= ARENA_BYTES && |r.out| <= buffer.data.Length ==> success
  {
    if dynamic {
      ghost var t, hl, hd, hc := DynamicParts(stream.data, pos, out, r);
      var ok, ltree, dtree := CreateDynamicTables(stream, arena, pos, t, hl, hd, hc);
      if !ok { return false; }
      success := HandleSymbols(stream, buffer, ltree, dtree, t.lit, t.dist, t.pos, out, r);
    } else {
      FixedParts(stream.data, pos, out, r);
      success := HandleSymbols(stream, buffer, fixedTree, null, FixedLengths(), FixedDistances(), pos, out, r);
    }
  }

  lemma DynamicParts(data: seq<Byte>, pos: nat, out: seq<Byte>, r: Progress)
    returns (t: Tables, hl: nat, hd: nat, hc: nat)
    requires r.At? && BlockIs(2, data, pos, out, r)
    ensures t.Tables? && NotOverSubscribed(t.lit) && NotOverSubscribed(t.dist)
    ensures hc <= 15 && CountsAre(data, pos, hl, hd, hc) && TablesRest(data, pos + 14, hl + 257, hd + 1, hc + 4, t)
    ensures SymbolsAre(t.lit, t.dist, data, t.pos, out, r)
  {
    t := DynamicTables(data, pos, out, r);
    hl, hd, hc := CountsThere(data, pos);
    TablesThere(data, pos, t, hl, hd, hc);
    RestIs(data, pos + 14, hl + 257, hd + 1, hc + 4, t);
  }

  lemma TablesThere(data: seq<Byte>, pos: nat, t: Tables, hl: nat, hd: nat, hc: nat)
    requires TablesAre(data, pos, t) && hc <= 15 && CountsAre(data, pos, hl, hd, hc)
    ensures t == TablesFrom(data, pos + 14, hl + 257, hd + 1, hc + 4)
  {
    assert Open(BlockHeader, 0);
  }

  lemma CountsThere(data: seq<Byte>, pos: nat) returns (hl: nat, hd: nat, hc: nat)
    ensures hc <= 15 && CountsAre(data, pos, hl, hd, hc)
  {
    hl, hd, hc := Take(data, pos, 5), Take(data, pos + 5, 5), Take(data, pos + 10, 4);
    FourBits(data, pos + 10);
  }

  lemma RestIs(data: seq<Byte>, pos: nat, lits: nat, dists: nat, clens: nat, t: Tables)
    requires clens <= 19 && t == TablesFrom(data, pos, lits, dists, clens)
    ensures TablesRest(data, pos, lits, dists, clens, t)
  {
  }

  lemma FourBits(data: seq<Byte>, pos: nat)
    ensures Take(data, pos, 4) <= 15
  {
    Pow2Values();
    TakeBound(data, pos, 4);
  }

  lemma DynamicTables(data: seq<Byte>, pos: nat, out: seq<Byte>, r: Progress) returns (t: Tables)
    requires r.At? && BlockIs(2, data, pos, out, r)
    ensures TablesAre(data, pos, t) && t.Tables? && NotOverSubscribed(t.lit) && NotOverSubscribed(t.dist)
    ensures SymbolsAre(t.lit, t.dist, data, t.pos, out, r)
  {
    assert Open(Meaning, 0);
    t := TablesAt(data, pos);
  }

  lemma FixedParts(data: seq<Byte>, pos: nat, out: seq<Byte>, r: Progress)
    requires r.At? && BlockIs(1, data, pos, out, r)
    ensures SymbolsAre(FixedLengths(), FixedDistances(), data, pos, out, r)
  {
    assert Open(Meaning, 0);
  }

  /** One block with its header. */
  method HandleBlock(stream: BitStream, buffer: Buffer, arena: Arena, fixedTree: HuffmanTree, ghost k: nat,
                     ghost pos: nat, ghost out: seq<Byte>, ghost r: Progress)
    returns (last: bool, success: bool)
    requires stream.Valid() && buffer.Valid() && fixedTree.Valid() && fixedTree.lens == FixedLengths()
    requires arena.offset == 0
    requires pos == stream.Pos() && out == buffer.Contents() && pos + 3 <= 8 * |stream.data| && r.At?
    requires k == Take(stream.data, pos + 1, 2) && BlockIs(k, stream.data, pos + 3, out, r)
    modifies stream`currentByte, stream`currentBit, stream`bitBuffer, stream`bitsInBuffer
    modifies buffer`size, buffer.data, arena`offset
    ensures stream.Valid() && buffer.Valid()
    ensures last <==> Take(stream.data, old(stream.Pos()), 1) == 1
    ensures success ==> r == At(stream.Pos(), buffer.Contents())
    ensures arena.capacity >= ARENA_BYTES && |r.out| <= buffer.data.Length ==> success
  {
    var kind;
    last, kind := ReadBlockHeader(stream);
    SameBlock(k, kind, stream.data, pos + 3, out, r);
    success := Dispatch(stream, buffer, arena, fixedTree, kind, pos + 3, out, r);
  }

  /** The rest of a block, by its kind. */
  method Dispatch(stream: BitStream, buffer: Buffer, arena: Arena, fixedTree: HuffmanTree, kind: nat,
                  ghost pos: nat, ghost out: seq<Byte>, ghost r: Progress)
    returns (success: bool)
    requires stream.Valid() && buffer.Valid() && fixedTree.Valid() && fixedTree.lens == FixedLengths()
    requires arena.offset == 0 && pos == stream.Pos() && out == buffer.Contents() && r.At?
    requires BlockIs(kind, stream.data, pos, out, r)
    modifies stream`currentByte, stream`currentBit, stream`bitBuffer, stream`bitsInBuffer
    modifies buffer`size, buffer.data, arena`offset
    ensures stream.Valid() && buffer.Valid()
    ensures success ==> r == At(stream.Pos(), buffer.Contents())
    ensures arena.capacity >= ARENA_BYTES && |r.out| <= buffer.data.Length ==> success
  {
    BlockKinds(kind, stream.data, pos, out, r);
    if kind == 0 {
      success := HandleStored(stream, buffer, pos, out, r);
    } else if kind == 1 {
      SameBlock(kind, 1, stream.data, pos, out, r);
      success := HandleHuffman(stream, buffer, arena, fixedTree, false, pos, out, r);
    } else if kind == 2 {
      SameBlock(kind, 2, stream.data, pos, out, r);
      success := HandleHuffman(stream, buffer, arena, fixedTree, true, pos, out, r);
    } else {
      success := false;
    }
  }

  /** Whether this is the last block, and its kind. */
  method ReadBlockHeader(stream: BitStream) returns (last: bool, kind: nat)
    requires stream.Valid() && stream.Pos() + 3 <= 8 * |stream.data|
    modifies stream`currentByte, stream`currentBit, stream`bitBuffer, stream`bitsInBuffer
    ensures stream.Valid() && stream.Pos() == old(stream.Pos()) + 3
    ensures last <==> Take(stream.data, old(stream.Pos()), 1) == 1
    ensures kind == Take(stream.data, old(stream.Pos()) + 1, 2)
  {
    var final := stream.GetBits(1);
    last := final == 1;
    kind := stream.GetBits(2);
  }

  lemma SameBlock(k: nat, kind: nat, data: seq<Byte>, pos: nat, out: seq<Byte>, r: Progress)
    requires k == kind && BlockIs(k, data, pos, out, r)
    ensures BlockIs(kind, data, pos, out, r)
  {
  }

  lemma BlockKinds(kind: nat, data: seq<Byte>, pos: nat, out: seq<Byte>, r: Progress)
    requires r.At? && BlockIs(kind, data, pos, out, r)
    ensures kind <= 2 && (kind == 0 ==> StoredIs(data, pos, out, r))
  {
    assert Open(Meaning, 0);
  }

  /** The first block of a stream and what follows it. */
  lemma BlocksStep(data: seq<Byte>, pos: nat, out: seq<Byte>, r: Progress) returns (b: Progress)
    requires r.At? && BlocksAre(data, pos, out, r)
    ensures pos + 3 <= 8 * |data| && b.At? && pos < b.pos <= 8 * |data| && b.out <= r.out
    ensures BlockIs(Take(data, pos + 1, 2), data, pos + 3, out, b)
    ensures if Take(data, pos, 1) == 1 then r == b else BlocksAre(data, b.pos, b.out, r)
  {
    assert Open(Meaning, 0);
    b := Block(Take(data, pos + 1, 2), data, pos + 3, out);
  }

  /** The block loop. */
  method DecompressBlocks(stream: BitStream, buffer: Buffer, arena: Arena, fixedTree: HuffmanTree, ghost r: Progress)
    returns (success: bool)
    requires stream.Valid() && buffer.Valid() && fixedTree.Valid() && fixedTree.lens == FixedLengths()
    requires arena.offset == 0
    requires r.At? && BlocksAre(stream.data, stream.Pos(), buffer.Contents(), r)
    modifies stream`currentByte, stream`currentBit, stream`bitBuffer, stream`bitsInBuffer
    modifies buffer`size, buffer.data, arena`offset
    ensures stream.Valid() && buffer.Valid()
    ensures success ==> r == At(stream.Pos(), buffer.Contents())
    ensures arena.capacity >= ARENA_BYTES && |r.out| <= buffer.data.Length ==> success
  {
    var lastBlock := false;
    success := true;
    ghost var pos, out := stream.Pos(), buffer.Contents();
    while !lastBlock
      invariant stream.Valid() && buffer.Valid() && success && arena.offset == 0
      invariant pos == stream.Pos() && out == buffer.Contents()
      invariant if lastBlock then r == At(pos, out) else BlocksAre(stream.data, pos, out, r)
      decreases !lastBlock, 8 * |stream.data| - stream.Pos()
    {
      ghost var b := BlocksStep(stream.data, pos, out, r);
      lastBlock, success := HandleBlock(stream, buffer, arena, fixedTree, Take(stream.data, pos + 1, 2),
                                          pos, out, b);
      arena.Reset();
      if !success { break; }
      pos, out := b.pos, b.out;
    }
  }

  lemma BlocksThemselves(data: seq<Byte>, pos: nat, out: seq<Byte>)
    ensures BlocksAre(data, pos, out, Blocks(data, pos, out))
  {
  }

  /** Decodes a stream: on every well-formed stream the decoder stops, writes what
      RFC 1951 assigns if it succeeds, and does succeed if that fits. */
  method Decompress(stream: BitStream, buffer: Buffer, arena: Arena, fixedTree: HuffmanTree) returns (success: bool)
    requires stream.Valid() && buffer.Valid() && fixedTree.Valid() && fixedTree.lens == FixedLengths()
    requires arena.offset == 0
    requires Blocks(stream.data, stream.Pos(), buffer.Contents()).At?
    modifies stream`currentByte, stream`currentBit, stream`bitBuffer, stream`bitsInBuffer
    modifies buffer`size, buffer.data, arena`offset
    ensures stream.Valid() && buffer.Valid()
    ensures var r := old(Blocks(stream.data, stream.Pos(), buffer.Contents()));
            && (success ==> r == At(stream.Pos(), buffer.Contents()))
            && (arena.capacity >= ARENA_BYTES && |r.out| <= buffer.data.Length ==> success)
  {
    ghost var r := Blocks(stream.data, stream.Pos(), buffer.Contents());
    BlocksThemselves(stream.data, stream.Pos(), buffer.Contents());
    success := DecompressBlocks(stream, buffer, arena, fixedTree, r);
  }

  const FIXED_ARENA_BYTES := 1024 * 24 + 4 * 1024

  lemma FixedTreeFits()
    ensures TreeNeeds(288) <= FIXED_ARENA_BYTES
  {
  }

  /** The decoder with all it sets up: two arenas, the tree of the fixed code, a bit
      reader at the start and an empty buffer.  A well-formed stream gives exactly
      the bytes RFC 1951 assigns, unless they exceed the buffer. */
  method Unpack(data: seq<Byte>, capacity: nat, arenaAt: nat, fixedAt: nat) returns (out: Option<seq<Byte>>)
    requires Blocks(data, 0, []).At?
    ensures var bytes := Blocks(data, 0, []).out;
            out == if |bytes| <= capacity then Some(bytes) else None
  {
    var stream := new BitStream(data);
    var buffer := new Buffer(capacity);
    var arena := new Arena(arenaAt, ARENA_BYTES);
    var fixedArena := new Arena(fixedAt, FIXED_ARENA_BYTES);
    FixedComplete();
    FixedTreeFits();
    var fixedTree := CreateUpTo(FixedLengths(), 288, fixedArena);
    if fixedTree == null { return None; }
    var success := Decompress(stream, buffer, arena, fixedTree);
    if !success { return None; }
    out := Some(buffer.data[..buffer.size]);
  }
}
