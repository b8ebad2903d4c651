/** Registers in debugger packets: byte-swapped, in a fixed number of hexadecimal digits. */
module Registers {
  import opened Words
  import opened Machine
  import opened PhysMem
  import opened Numbers

  /** The byte swap of a word truncated to `n` bytes. */
  function Swap(v: nat, n: nat): nat {
    Little(Reversed(ToBytes(v, n)))
  }

  lemma {:induction false} BytesBack(b: seq<Byte>)
    ensures ToBytes(Little(b), |b|) == b && Little(b) < Pow256(|b|)
    decreases |b|
  {
    if b != [] {
      BytesBack(b[1..]);
      assert Little(b) % 256 == b[0] && Little(b) / 256 == Little(b[1..]);
    }
  }

  lemma SwapTwice(v: nat, n: nat)
    ensures Swap(Swap(v, n), n) == Little(ToBytes(v, n)) && Swap(v, n) < Pow256(n)
  {
    var b := ToBytes(v, n);
    BytesBack(Reversed(b));
    assert Reversed(Reversed(b)) == b;
  }

  /** Exactly `n` hexadecimal digits, most significant first. */
  function HexFixed(v: nat, n: nat): (r: seq<Byte>)
    ensures |r| == n
    decreases n, v
  {
    if n == 0 then [] else HexFixed(v / 16, n - 1) + [DigitChar(v % 16, 32)]
  }

  lemma {:induction false} HexBack(v: nat, n: nat)
    requires v < Power(16, n) && v < WORD
    ensures AllDigits(HexFixed(v, n), 16) && Horner(0, HexFixed(v, n), 16) == v
    decreases n
  {
    if n > 0 {
      HexBack(v / 16, n - 1);
      DigitBack(v % 16, 32);
      HornerAppend(0, HexFixed(v / 16, n - 1), [DigitChar(v % 16, 32)], 16);
      Recombine(v, 16);
      LastDigit(v, 16, 32);
    }
  }

  lemma {:induction false} HexRoom(n: nat)
    ensures Power(16, 2 * n) == Pow256(n)
  {
    if n > 0 {
      HexRoom(n - 1);
      assert Power(16, 2 * n - 1) == 16 * Power(16, 2 * n - 2);
    }
  }

  /** A register of `n` bytes as digits, and back. */
  function Pack(v: nat, n: nat): (r: seq<Byte>)
    ensures |r| == 2 * n
  {
    HexFixed(Swap(v, n), 2 * n)
  }

  function Unpack(text: seq<Byte>, n: nat): nat {
    Swap(StrToUll(text, 16), n)
  }

  /** Digits `2 * k` and `2 * k + 1` of a packed register are those of its byte `k`,
      lowest byte first. */
  lemma PackDigits(v: nat, n: nat, k: nat)
    requires k < n
    ensures var b := v / Pow256(k) % 256;
            Pack(v, n)[2 * k] == DigitChar(b / 16, 32) && Pack(v, n)[2 * k + 1] == DigitChar(b % 16, 32)
  {
    var b := ToBytes(v, n);
    ByteOf(v, n, k);
    SwapTwice(v, n);
    BytesBack(Reversed(b));
    HexPair(Swap(v, n), n, k);
    ByteOf(Swap(v, n), n, n - 1 - k);
  }

  /** The digits of a number, two for each of its bytes, highest byte first. */
  lemma {:induction false} HexPair(v: nat, n: nat, k: nat)
    requires k < n
    ensures var b := v / Pow256(n - 1 - k) % 256;
            && HexFixed(v, 2 * n)[2 * k] == DigitChar(b / 16, 32)
            && HexFixed(v, 2 * n)[2 * k + 1] == DigitChar(b % 16, 32)
    decreases n
  {
    var low := v % 256;
    assert v / 16 / 16 == v / 256 && v % 16 == low % 16 && v / 16 % 16 == low / 16;
    assert HexFixed(v, 2 * n) == HexFixed(v / 16, 2 * n - 1) + [DigitChar(low % 16, 32)];
    assert HexFixed(v / 16, 2 * n - 1) == HexFixed(v / 256, 2 * (n - 1)) + [DigitChar(low / 16, 32)];
    if k < n - 1 {
      HexPair(v / 256, n - 1, k);
      DivPow256(v, n - 2 - k);
    }
  }

  /** What is packed is unpacked, up to the bytes that were packed. */
  lemma PackUnpack(v: nat, n: nat)
    requires Pow256(n) <= WORD
    ensures Unpack(Pack(v, n), n) == Little(ToBytes(v, n))
    ensures v < Pow256(n) ==> Unpack(Pack(v, n), n) == v
  {
    SwapTwice(v, n);
    HexRoom(n);
    HexBack(Swap(v, n), 2 * n);
    assert Pack(v, n)[0..] == Pack(v, n);
    if v < Pow256(n) { StoredWord(v, n); }
  }

  /** Writes a register: 8 bytes as 16 digits, or the low 4 bytes as 8 digits. */
  method PackReg(reg: nat, width: nat, buf: array<Byte>, at: nat)
    requires at + width <= buf.Length && (width == 16 || width == 8)
    modifies buf
    ensures buf[at..at + width] == Pack(reg, width / 2)
    ensures forall k | 0 <= k < buf.Length && !(at <= k < at + width) :: buf[k] == old(buf[k])
  {
    var v: nat := if width == 16 then Swap(reg, 8) else Swap(reg, 4);
    ghost var v0 := v;
    var i := width;
    while i > 0
      invariant 0 <= i <= width && HexFixed(v0, width) == HexFixed(v, i) + buf[at + i..at + width]
      invariant forall k | 0 <= k < buf.Length && !(at <= k < at + width) :: buf[k] == old(buf[k])
    {
      i := i - 1;
      ghost var was := buf[at + i + 1..at + width];
      buf[at + i] := DigitChar(v % 16, 32);
      assert buf[at + i..at + width] == [DigitChar(v % 16, 32)] + was;
      v := v / 16;
    }
  }

  /** Reads a register back from its digits. */
  method UnpackReg(text: seq<Byte>) returns (reg: nat)
    requires |text| == 16 || |text| == 8
    ensures reg == Unpack(text, |text| / 2)
  {
    var val := Strtoull(text, 16);
    reg := Swap(val, |text| / 2);
  }
}
