/** The prefetching bit reader: up to 64 bits of the stream are held in a word,
    and every operation is exact against the plain bit positions of `Bits`. */
module BitReader {
  import opened Gates
  import opened Words
  import opened Bits

  /** One more byte on top of a buffer that already holds `bits` bits. */
  lemma AppendByte(data: seq<Byte>, pos: nat, bits: nat, k: nat, width: nat)
    requires bits + 8 <= width && k < |data| && pos + bits == 8 * k
    ensures Or(Take(data, pos, bits), Low(Shl(data[k], bits), width)) == Take(data, pos, bits + 8)
  {
    TakeBound(data, pos, bits);
    OrShifted(Take(data, pos, bits), data[k], bits, width);
    TakeSplit(data, pos, bits, 8);
    TakeByte(data, k);
  }

  lemma OrShifted(x: nat, b: Byte, bits: nat, width: nat)
    requires x < Pow2(bits) && bits + 8 <= width
    ensures Or(x, Low(Shl(b, bits), width)) == x + Shl(b, bits)
  {
    ByteShift(b, bits, width);
    OrDisjoint(x, b, bits);
  }

  lemma ByteShift(b: Byte, bits: nat, width: nat)
    requires bits + 8 <= width
    ensures Low(Shl(b, bits), width) == Shl(b, bits)
  {
    assert Pow2(8) == 256;
    ShlBound(b, 8, bits);
    Pow2Mono(8 + bits, width);
    LowSmall(Shl(b, bits), width);
  }

  class BitStream {
    const data: seq<Byte>
    var currentByte: nat
    var currentBit: nat
    var bitBuffer: nat
    var bitsInBuffer: nat

    ghost function Pos(): nat
      reads this
    {
      8 * currentByte + currentBit
    }

    /** The buffer holds exactly the next bits of the stream, and ends on a byte
        boundary. */
    ghost predicate Valid()
      reads this
    {
      && currentBit < 8
      && Pos() + bitsInBuffer <= 8 * |data|
      && forall k {:trigger Open(Prefetch, k)} | Open(Prefetch, k) ::
           && bitsInBuffer <= 64
           && (currentBit + bitsInBuffer) % 8 == 0
           && bitBuffer == Take(data, Pos(), bitsInBuffer)
    }

    constructor (bytes: seq<Byte>)
      ensures data == bytes && Valid() && Pos() == 0
    {
      data, currentByte, currentBit, bitBuffer, bitsInBuffer := bytes, 0, 0, 0, 0;
    }

    /** Prefetches bytes until more than 56 bits are buffered or the data ends. */
    method Fill()
      requires Valid()
      modifies `bitBuffer, `bitsInBuffer
      ensures Valid()
      ensures bitsInBuffer >= old(bitsInBuffer)
      ensures bitsInBuffer > 56 || Pos() + bitsInBuffer == 8 * |data|
    {
      assert Open(Prefetch, 0);
      ghost var pos := Pos();
      var bits := bitsInBuffer;
      var curByte := currentByte + (currentBit + bits) / 8;
      FillStart(currentByte, currentBit, bits);
      var buffer := bitBuffer;
      while bits <= 56 && curByte < |data|
        invariant bitsInBuffer <= bits <= 64
        invariant 8 * curByte == pos + bits <= 8 * |data|
        invariant buffer == Take(data, pos, bits)
        decreases |data| - curByte
      {
        AppendByte(data, pos, bits, curByte, 64);
        buffer := Or(buffer, Low(Shl(data[curByte], bits), 64));
        bits := bits + 8;
        curByte := curByte + 1;
      }
      FillEnd(currentByte, currentBit, bits, curByte);
      bitsInBuffer := bits;
      bitBuffer := buffer;
    }

    /** The next `bits` bits without moving; past the end they are zero. */
    method Peek(bits: nat) returns (r: nat)
      requires Valid() && bits <= 32
      modifies `bitBuffer, `bitsInBuffer
      ensures Valid()
      ensures r == Take(data, Pos(), bits)
      ensures bitsInBuffer >= bits || Pos() + bitsInBuffer == 8 * |data|
    {
      assert Open(Prefetch, 0);
      if bits == 0 { return 0; }
      if bitsInBuffer < bits { Fill(); }
      r := And(bitBuffer, Pow2(bits) - 1);
      AndMask(bitBuffer, bits);
      PeekIsTake(data, Pos(), bitsInBuffer, bits);
    }

    /** Drops `bits` buffered bits.  The two 8-bit counters wrap like the code's. */
    method Consume(bits: nat)
      requires Valid() && bits <= 32
      modifies `currentByte, `currentBit, `bitBuffer, `bitsInBuffer
      ensures bits <= old(bitsInBuffer) ==> Valid() && Pos() == old(Pos()) + bits
    {
      assert Open(Prefetch, 0);
      if bits == 0 { return; }
      if bits <= bitsInBuffer { Dropped(data, currentByte, currentBit, bitsInBuffer, bits, bitBuffer); }
      var moved := (currentBit + bits) % 256;
      bitBuffer := Shr(bitBuffer, bits);
      bitsInBuffer := (bitsInBuffer - bits) % 256;
      currentByte := currentByte + moved / 8;
      currentBit := moved % 8;
    }

    /** Reads `bits` bits.  Inside the data the position moves by exactly that. */
    method GetBits(bits: nat) returns (r: nat)
      requires Valid() && bits <= 32
      modifies `currentByte, `currentBit, `bitBuffer, `bitsInBuffer
      ensures r == Take(data, old(Pos()), bits)
      ensures old(Pos()) + bits <= 8 * |data| ==> Valid() && Pos() == old(Pos()) + bits
    {
      assert Open(Prefetch, 0);
      if bits == 0 { return 0; }
      if bitsInBuffer < bits { Fill(); }
      r := And(bitBuffer, Pow2(bits) - 1);
      AndMask(bitBuffer, bits);
      PeekIsTake(data, Pos(), bitsInBuffer, bits);
      Consume(bits);
    }

    /** Skips to the next byte boundary and throws the prefetched bits away. */
    method Align()
      requires Valid()
      modifies `currentByte, `currentBit, `bitBuffer, `bitsInBuffer
      ensures Valid() && bitsInBuffer == 0 && currentBit == 0
      ensures Pos() == AlignUp8(old(Pos()))
    {
      if currentBit != 0 {
        currentByte := currentByte + 1;
        currentBit := 0;
      }
      bitBuffer := 0;
      bitsInBuffer := 0;
    }

    /** Steps over whole bytes; exact when nothing is prefetched. */
    method SkipBytes(n: nat)
      requires Valid() && bitsInBuffer == 0 && Pos() + 8 * n <= 8 * |data|
      modifies `currentByte
      ensures Valid() && Pos() == old(Pos()) + 8 * n
    {
      assert Open(Prefetch, 0);
      currentByte := currentByte + n;
    }

    /** Two bytes, little end first.  The fast path reads around the prefetch
        buffer, so it agrees with a 16-bit read when that buffer is empty. */
    method ReadU16() returns (r: nat)
      requires Valid()
      modifies `currentByte, `currentBit, `bitBuffer, `bitsInBuffer
      ensures r == Take(data, old(Pos()), 16)
      ensures old(bitsInBuffer) == 0 && old(currentBit) == 0 && old(Pos()) + 16 <= 8 * |data|
        ==> Valid() && Pos() == old(Pos()) + 16 && bitsInBuffer == 0 && currentBit == 0
      ensures old(bitsInBuffer) > 0 && old(currentBit) == 0 && old(currentByte) + 1 < |data|
        ==> Pos() == old(Pos()) + 16 && bitBuffer == Take(data, old(Pos()), bitsInBuffer)
            && bitsInBuffer == old(bitsInBuffer)
    {
      assert Open(Prefetch, 0);
      if currentBit == 0 && currentByte + 1 < |data| {
        var lo, hi := data[currentByte], data[currentByte + 1];
        TwoBytes(data, currentByte);
        var word := Or(lo, Low(Shl(hi, 8), 16));
        currentByte := currentByte + 2;
        return word;
      }
      r := GetBits(16);
    }
  }

  function AlignUp8(pos: nat): nat {
    8 * ((pos + 7) / 8)
  }

  lemma FillStart(byte: nat, bit: nat, held: nat)
    requires (bit + held) % 8 == 0
    ensures 8 * (byte + (bit + held) / 8) == 8 * byte + bit + held
  {
  }

  lemma FillEnd(byte: nat, bit: nat, held: nat, next: nat)
    requires 8 * next == 8 * byte + bit + held
    ensures (bit + held) % 8 == 0
  {
  }

  lemma MoveBy(byte: nat, bit: nat, held: nat, bits: nat)
    requires bit < 8 && bits <= held <= 64 && bits <= 32 && (bit + held) % 8 == 0
    ensures (held - bits) % 256 == held - bits && (bit + bits) % 256 == bit + bits
    ensures 8 * (byte + (bit + bits) / 8) + (bit + bits) % 8 == 8 * byte + bit + bits
    ensures ((bit + bits) % 8 + (held - bits)) % 8 == 0
  {
  }

  /** What is left of the buffer are the bits behind the dropped ones. */
  lemma Dropped(data: seq<Byte>, byte: nat, bit: nat, held: nat, bits: nat, buffer: nat)
    requires bit < 8 && bits <= held <= 64 && bits <= 32 && (bit + held) % 8 == 0
    requires buffer == Take(data, 8 * byte + bit, held)
    ensures var moved := (bit + bits) % 256;
      && (held - bits) % 256 == held - bits && 8 * (byte + moved / 8) + moved % 8 == 8 * byte + bit + bits
      && (moved % 8 + (held - bits)) % 8 == 0
      && Shr(buffer, bits) == Take(data, 8 * (byte + moved / 8) + moved % 8, held - bits)
  {
    TakeLow(data, 8 * byte + bit, bits, held);
    MoveBy(byte, bit, held, bits);
  }

  lemma PeekIsTake(data: seq<Byte>, pos: nat, held: nat, bits: nat)
    requires bits <= held || pos + held == 8 * |data|
    ensures Low(Take(data, pos, held), bits) == Take(data, pos, bits)
  {
    if bits <= held {
      TakeLow(data, pos, bits, held);
    } else {
      TakeSplit(data, pos, held, bits - held);
      TakePastEnd(data, pos + held, bits - held);
      ShlZero(held);
      TakeBound(data, pos, bits);
      LowSmall(Take(data, pos, bits), bits);
    }
  }

  lemma TwoBytes(data: seq<Byte>, k: nat)
    requires k + 1 < |data|
    ensures Or(data[k], Low(Shl(data[k + 1], 8), 16)) == Take(data, 8 * k, 16)
  {
    TakeByte(data, k);
    AppendByte(data, 8 * k, 8, k + 1, 16);
  }
}
