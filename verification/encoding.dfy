/** The other direction: how literals and back references are spelled in bits, and
    that decoding the spelling gives them back. */
module Encoding {
  import opened Gates
  import opened Words
  import opened Options
  import opened Bits
  import opened CanonicalCode
  import opened Huffman
  import opened OutBuffer
  import opened Rfc1951
  import opened Inflate
  import BitReader

  /** A literal byte, or a back reference by its two symbols and their extra bits. */
  datatype Token = Literal(byte: Byte) | Copy(l: nat, lextra: nat, d: nat, dextra: nat)

  function LengthOf(t: Token): nat
    requires t.Copy?
  {
    LengthBase(t.l) + t.lextra
  }

  function DistanceOf(t: Token): (r: nat)
    requires t.Copy?
    ensures r >= 1
  {
    DistBase(t.d) + t.dextra
  }

  /** The token's symbols have codes, and its extra bits fit. */
  ghost predicate Codable(lit: seq<nat>, dist: seq<nat>, t: Token) {
    match t
    case Literal(b) => Coded(lit, b)
    case Copy(l, lextra, d, dextra) =>
      && l <= 28 && Coded(lit, 257 + l) && lextra < Pow2(LengthExtra(l))
      && d <= 29 && Coded(dist, d) && dextra < Pow2(DistExtra(d))
  }

  /** What a token means: one more byte, or a copy of bytes that have been written. */
  ghost predicate Means(t: Token, out: seq<Byte>, next: seq<Byte>) {
    forall k {:trigger Open(Tokens, k)} | Open(Tokens, k) ::
      if t.Literal? then next == out + [t.byte]
      else DistanceOf(t) <= |out| && next == CopyBack(out, DistanceOf(t), LengthOf(t))
  }

  ghost predicate AllBits(bits: seq<nat>) {
    forall k | 0 <= k < |bits| :: bits[k] < 2
  }

  /** A code, most significant bit first; a number, least significant bit first. */
  function CodeBits(c: nat, n: nat): (r: seq<nat>)
    ensures |r| == n && AllBits(r)
    decreases n, c
  {
    if n == 0 then [] else CodeBits(c / 2, n - 1) + [c % 2]
  }

  function NumberBits(v: nat, n: nat): (r: seq<nat>)
    ensures |r| == n && AllBits(r)
    decreases n, v
  {
    if n == 0 then [] else [v % 2] + NumberBits(v / 2, n - 1)
  }

  function SymbolBits(lens: seq<nat>, s: nat): seq<nat>
    requires s < |lens|
  {
    CodeBits(Code(lens, s), lens[s])
  }

  ghost function TokenBits(lit: seq<nat>, dist: seq<nat>, t: Token): seq<nat>
    requires Codable(lit, dist, t)
  {
    if t.Literal? then SymbolBits(lit, t.byte)
    else
      SymbolBits(lit, 257 + t.l) + NumberBits(t.lextra, LengthExtra(t.l))
      + (SymbolBits(dist, t.d) + NumberBits(t.dextra, DistExtra(t.d)))
  }

  /** Pieces of a stream in a row. */
  function Concat(parts: seq<seq<nat>>): seq<nat> {
    if parts == [] then [] else parts[0] + Concat(parts[1..])
  }

  /** The tokens of a block, the bits of each, then the end of the block; and what has
      been written before and after each token. */
  ghost predicate Spells(lit: seq<nat>, dist: seq<nat>, ts: seq<Token>, parts: seq<seq<nat>>, outs: seq<seq<Byte>>)
    requires 256 < |lit|
  {
    && |parts| == |outs| == |ts| + 1 && parts[|ts|] == SymbolBits(lit, 256)
    && forall i | 0 <= i < |ts| ::
         Codable(lit, dist, ts[i]) && parts[i] == TokenBits(lit, dist, ts[i]) && Means(ts[i], outs[i], outs[i + 1])
  }

  /** The stream holds these bits at `pos`. */
  ghost predicate Spelled(data: seq<Byte>, pos: nat, bits: seq<nat>) {
    && pos + |bits| <= 8 * |data|
    && forall k {:trigger Open(Spelling, k)} | Open(Spelling, k) ::
      forall i | 0 <= i < |bits| :: BitAt(data, pos + i) == bits[i]
  }

  lemma SpelledSplit(data: seq<Byte>, pos: nat, a: seq<nat>, b: seq<nat>)
    ensures Spelled(data, pos, a + b) <==> Spelled(data, pos, a) && Spelled(data, pos + |a|, b)
  {
    assert Open(Spelling, 0);
    var ab := a + b;
    if Spelled(data, pos, ab) {
      forall i | 0 <= i < |a| ensures BitAt(data, pos + i) == a[i] { assert ab[i] == a[i]; }
      forall i | 0 <= i < |b|
        ensures BitAt(data, pos + |a| + i) == b[i]
      {
        assert ab[|a| + i] == b[i] && pos + (|a| + i) == pos + |a| + i;
      }
    }
    if Spelled(data, pos, a) && Spelled(data, pos + |a|, b) {
      forall i | 0 <= i < |ab| ensures BitAt(data, pos + i) == ab[i] {
        if i >= |a| { assert BitAt(data, pos + |a| + (i - |a|)) == b[i - |a|] && pos + |a| + (i - |a|) == pos + i; }
      }
    }
  }

  lemma {:induction false} CodeRead(data: seq<Byte>, pos: nat, c: nat, n: nat)
    requires c < Pow2(n) && Spelled(data, pos, CodeBits(c, n))
    ensures TakeMsb(data, pos, n) == c
    decreases n
  {
    if n > 0 {
      assert Open(Spelling, 0);
      SpelledSplit(data, pos, CodeBits(c / 2, n - 1), [c % 2]);
      CodeRead(data, pos, c / 2, n - 1);
      assert BitAt(data, pos + (n - 1) + 0) == [c % 2][0];
    }
  }

  lemma {:induction false} NumberRead(data: seq<Byte>, pos: nat, v: nat, n: nat)
    requires v < Pow2(n) && Spelled(data, pos, NumberBits(v, n))
    ensures Take(data, pos, n) == v
    decreases n
  {
    if n > 0 {
      assert Open(Spelling, 0);
      SpelledSplit(data, pos, [v % 2], NumberBits(v / 2, n - 1));
      NumberRead(data, pos + 1, v / 2, n - 1);
      assert BitAt(data, pos + 0) == [v % 2][0];
    }
  }

  /** A spelled symbol is the one the decoder sees. */
  lemma SymbolRead(lens: seq<nat>, data: seq<Byte>, pos: nat, s: nat)
    requires NotOverSubscribed(lens) && Coded(lens, s) && Spelled(data, pos, SymbolBits(lens, s))
    ensures SymbolAt(lens, data, pos) == Some(s)
  {
    CodeFits(lens, s);
    CodeRead(data, pos, Code(lens, s), lens[s]);
    assert CodeAt(lens, data, pos, s);
    var r := SymbolAt(lens, data, pos);
    CodeAtUnique(lens, data, pos, s, r.value);
  }

  /** One token is one step of the decoder. */
  lemma TokenRead(lit: seq<nat>, dist: seq<nat>, data: seq<Byte>, pos: nat, t: Token, out: seq<Byte>, step: Step)
    requires NotOverSubscribed(lit) && NotOverSubscribed(dist) && Codable(lit, dist, t)
    requires Spelled(data, pos, TokenBits(lit, dist, t))
    requires step.Go? && step.pos == pos + |TokenBits(lit, dist, t)| && Means(t, out, step.out)
    ensures StepIs(lit, dist, data, pos, out, step)
  {
    if t.Literal? {
      SymbolRead(lit, data, pos, t.byte);
      LiteralStep(lit, dist, data, pos, t, out, step);
    } else {
      CopySpelled(lit, dist, data, pos, t);
      CopyToken(lit, dist, data, pos, t, out, pos + lit[257 + t.l], step);
    }
  }

  lemma CopyToken(lit: seq<nat>, dist: seq<nat>, data: seq<Byte>, pos: nat, t: Token, out: seq<Byte>, p: nat,
                  step: Step)
    requires NotOverSubscribed(lit) && NotOverSubscribed(dist) && Codable(lit, dist, t) && t.Copy?
    requires p == pos + lit[257 + t.l]
    requires Spelled(data, pos, SymbolBits(lit, 257 + t.l)) && Spelled(data, p, NumberBits(t.lextra, LengthExtra(t.l)))
    requires Spelled(data, p + LengthExtra(t.l), SymbolBits(dist, t.d))
    requires Spelled(data, p + LengthExtra(t.l) + dist[t.d], NumberBits(t.dextra, DistExtra(t.d)))
    requires step.Go? && step.pos == p + LengthExtra(t.l) + dist[t.d] + DistExtra(t.d) && Means(t, out, step.out)
    ensures StepIs(lit, dist, data, pos, out, step)
  {
    SymbolRead(lit, data, pos, 257 + t.l);
    ReferenceRead(dist, data, p, t);
    Resolved(t, out, Reference(LengthOf(t), DistanceOf(t), step.pos), step);
    CopyStep(lit, dist, data, pos, 257 + t.l, out, Reference(LengthOf(t), DistanceOf(t), step.pos), step);
  }

  lemma Resolved(t: Token, out: seq<Byte>, ref: Reference, step: Step)
    requires t.Copy? && step.Go? && Means(t, out, step.out) && ref == Reference(LengthOf(t), DistanceOf(t), step.pos)
    ensures Resolve(ref, out) == step
  {
    assert Open(Tokens, 0);
  }

  lemma LiteralStep(lit: seq<nat>, dist: seq<nat>, data: seq<Byte>, pos: nat, t: Token, out: seq<Byte>, step: Step)
    requires t.Literal? && t.byte < |lit| && SymbolAt(lit, data, pos) == Some(t.byte)
    requires step.Go? && step.pos == pos + lit[t.byte] && Means(t, out, step.out)
    ensures StepIs(lit, dist, data, pos, out, step)
  {
    assert Open(Tokens, 0);
  }

  lemma CopySpelled(lit: seq<nat>, dist: seq<nat>, data: seq<Byte>, pos: nat, t: Token)
    requires t.Copy? && Codable(lit, dist, t) && Spelled(data, pos, TokenBits(lit, dist, t))
    ensures Spelled(data, pos, SymbolBits(lit, 257 + t.l))
    ensures var p := pos + lit[257 + t.l];
      && Spelled(data, p, NumberBits(t.lextra, LengthExtra(t.l)))
      && Spelled(data, p + LengthExtra(t.l), SymbolBits(dist, t.d))
      && Spelled(data, p + LengthExtra(t.l) + dist[t.d], NumberBits(t.dextra, DistExtra(t.d)))
      && pos + |TokenBits(lit, dist, t)| == p + LengthExtra(t.l) + dist[t.d] + DistExtra(t.d)
  {
    var a, b := SymbolBits(lit, 257 + t.l), NumberBits(t.lextra, LengthExtra(t.l));
    var c, d := SymbolBits(dist, t.d), NumberBits(t.dextra, DistExtra(t.d));
    SpelledSplit(data, pos, a + b, c + d);
    SpelledSplit(data, pos, a, b);
    SpelledSplit(data, pos + |a + b|, c, d);
  }

  lemma CopyStep(lit: seq<nat>, dist: seq<nat>, data: seq<Byte>, pos: nat, symbol: nat, out: seq<Byte>, ref: Reference,
                 step: Step)
    requires 257 <= symbol < |lit| && SymbolAt(lit, data, pos) == Some(symbol) && ref.Reference? && 1 <= ref.distance
    requires ReferenceAt(dist, data, pos + lit[symbol], symbol) == ref && Resolve(ref, out) == step
    ensures StepIs(lit, dist, data, pos, out, step)
  {
  }

  lemma ReferenceRead(dist: seq<nat>, data: seq<Byte>, pos: nat, t: Token)
    requires NotOverSubscribed(dist) && t.Copy? && t.l <= 28 && t.d <= 29 && Coded(dist, t.d)
    requires t.lextra < Pow2(LengthExtra(t.l)) && t.dextra < Pow2(DistExtra(t.d))
    requires Spelled(data, pos, NumberBits(t.lextra, LengthExtra(t.l)))
    requires Spelled(data, pos + LengthExtra(t.l), SymbolBits(dist, t.d))
    requires Spelled(data, pos + LengthExtra(t.l) + dist[t.d], NumberBits(t.dextra, DistExtra(t.d)))
    ensures ReferenceAt(dist, data, pos, 257 + t.l)
      == Reference(LengthOf(t), DistanceOf(t), pos + LengthExtra(t.l) + dist[t.d] + DistExtra(t.d))
  {
    NumberRead(data, pos, t.lextra, LengthExtra(t.l));
    SymbolRead(dist, data, pos + LengthExtra(t.l), t.d);
    NumberRead(data, pos + LengthExtra(t.l) + dist[t.d], t.dextra, DistExtra(t.d));
  }

  /** Every block of tokens, in any code, decodes to what the tokens mean. */
  lemma {:induction false} BlockRead(lit: seq<nat>, dist: seq<nat>, data: seq<Byte>, pos: nat,
                                     ts: seq<Token>, parts: seq<seq<nat>>, outs: seq<seq<Byte>>, r: Progress)
    requires NotOverSubscribed(lit) && NotOverSubscribed(dist) && Coded(lit, 256) && Spells(lit, dist, ts, parts, outs)
    requires Spelled(data, pos, Concat(parts)) && r == At(pos + |Concat(parts)|, outs[|ts|])
    ensures SymbolsAre(lit, dist, data, pos, outs[0], r)
    decreases |ts|
  {
    var p := FirstPart(data, pos, parts);
    if ts == [] {
      EndRead(lit, dist, data, pos, outs[0], r);
    } else {
      SpellsRest(lit, dist, ts, parts, outs);
      var step := Go(p, outs[1]);
      TokenRead(lit, dist, data, pos, ts[0], outs[0], step);
      BlockRead(lit, dist, data, p, ts[1..], parts[1..], outs[1..], r);
      SymbolsStep(lit, dist, data, pos, outs[0], step, r);
    }
  }

  lemma FirstPart(data: seq<Byte>, pos: nat, parts: seq<seq<nat>>) returns (p: nat)
    requires parts != [] && Spelled(data, pos, Concat(parts))
    ensures p == pos + |parts[0]| && Spelled(data, pos, parts[0]) && Spelled(data, p, Concat(parts[1..]))
    ensures pos + |Concat(parts)| == p + |Concat(parts[1..])| && (|parts| == 1 ==> pos + |Concat(parts)| == p)
  {
    SpelledSplit(data, pos, parts[0], Concat(parts[1..]));
    p := pos + |parts[0]|;
  }

  lemma SpellsRest(lit: seq<nat>, dist: seq<nat>, ts: seq<Token>, parts: seq<seq<nat>>, outs: seq<seq<Byte>>)
    requires 256 < |lit| && Spells(lit, dist, ts, parts, outs) && ts != []
    ensures Codable(lit, dist, ts[0]) && parts[0] == TokenBits(lit, dist, ts[0]) && Means(ts[0], outs[0], outs[1])
    ensures Spells(lit, dist, ts[1..], parts[1..], outs[1..]) && outs[1..][|ts| - 1] == outs[|ts|]
  {
    forall i | 0 <= i < |ts| - 1
      ensures Codable(lit, dist, ts[1..][i]) && parts[1..][i] == TokenBits(lit, dist, ts[1..][i])
      ensures Means(ts[1..][i], outs[1..][i], outs[1..][i + 1])
    {
      assert ts[1..][i] == ts[i + 1] && outs[1..][i] == outs[i + 1] && outs[1..][i + 1] == outs[i + 2];
    }
  }

  lemma EndRead(lit: seq<nat>, dist: seq<nat>, data: seq<Byte>, pos: nat, out: seq<Byte>, r: Progress)
    requires NotOverSubscribed(lit) && Coded(lit, 256) && Spelled(data, pos, SymbolBits(lit, 256))
    requires r == At(pos + lit[256], out)
    ensures SymbolsAre(lit, dist, data, pos, out, r)
  {
    SymbolRead(lit, data, pos, 256);
    assert Symbols(lit, dist, data, pos, out) == r;
  }

  lemma SymbolsStep(lit: seq<nat>, dist: seq<nat>, data: seq<Byte>, pos: nat, out: seq<Byte>, step: Step, r: Progress)
    requires step.Go? && StepIs(lit, dist, data, pos, out, step) && SymbolsAre(lit, dist, data, step.pos, step.out, r)
    ensures SymbolsAre(lit, dist, data, pos, out, r)
  {
    assert Open(Meaning, 0);
  }

  /** Bits packed into bytes, the first bit least significant. */
  function Number(bits: seq<nat>): nat {
    if bits == [] then 0 else bits[0] % 2 + 2 * Number(bits[1..])
  }

  lemma {:induction false} NumberBit(bits: seq<nat>, i: nat)
    requires i < |bits| && forall k | 0 <= k < |bits| :: bits[k] < 2
    ensures WordBit(Number(bits), i) == bits[i]
    decreases i
  {
    assert Number(bits) % 2 == bits[0] && Number(bits) / 2 == Number(bits[1..]);
    if i > 0 { NumberBit(bits[1..], i - 1); }
  }

  lemma {:induction false} NumberBound(bits: seq<nat>)
    ensures Number(bits) < Pow2(|bits|)
  {
    if bits != [] { NumberBound(bits[1..]); }
  }

  function PackBits(bits: seq<nat>): (data: seq<Byte>)
    ensures |bits| <= 8 * |data|
    decreases |bits|
  {
    if bits == [] then []
    else
      var n := if |bits| < 8 then |bits| else 8;
      ByteBound(bits[..n]);
      [Number(bits[..n])] + PackBits(bits[n..])
  }

  lemma ByteBound(bits: seq<nat>)
    requires |bits| <= 8
    ensures Number(bits) < 256
  {
    NumberBound(bits);
    Pow2Mono(|bits|, 8);
    Pow2Values();
  }

  lemma {:induction false} PackedBit(bits: seq<nat>, i: nat)
    requires i < |bits| && forall k | 0 <= k < |bits| :: bits[k] < 2
    ensures BitAt(PackBits(bits), i) == bits[i]
    decreases |bits|
  {
    var n := if |bits| < 8 then |bits| else 8;
    PackStep(bits, n);
    var b: Byte, rest := Number(bits[..n]), PackBits(bits[n..]);
    if i < 8 {
      NumberBit(bits[..n], i);
      FirstByte(b, rest, i);
    } else {
      PackedBit(bits[n..], i - 8);
      BitShift(b, rest, i);
    }
  }

  lemma FirstByte(b: Byte, data: seq<Byte>, i: nat)
    requires i < 8
    ensures BitAt([b] + data, i) == WordBit(b, i)
  {
  }

  lemma PackStep(bits: seq<nat>, n: nat)
    requires bits != [] && n == if |bits| < 8 then |bits| else 8
    ensures Number(bits[..n]) < 256 && PackBits(bits) == [Number(bits[..n])] + PackBits(bits[n..])
  {
    ByteBound(bits[..n]);
  }

  lemma BitShift(b: Byte, data: seq<Byte>, i: nat)
    requires i >= 8
    ensures BitAt([b] + data, i) == BitAt(data, i - 8)
  {
    assert (i - 8) / 8 == i / 8 - 1;
  }

  lemma PackedIsSpelled(bits: seq<nat>)
    requires AllBits(bits)
    ensures Spelled(PackBits(bits), 0, bits)
  {
    forall i | 0 <= i < |bits| ensures BitAt(PackBits(bits), 0 + i) == bits[i] { PackedBit(bits, i); }
  }

  lemma FixedDistancesFit()
    ensures NotOverSubscribed(FixedDistances())
  {
    Pow2Values();
    assert Pow2(15) == 32768;
    KraftRun(FixedDistances(), 0, 32, 5, 1024);
  }

  /** The last block of a stream, with the fixed codes. */
  lemma LastBlock(data: seq<Byte>, pos: nat, lit: seq<nat>, dist: seq<nat>, out: seq<Byte>, r: Progress)
    requires pos + 3 <= 8 * |data| && Take(data, pos, 1) == 1 && Take(data, pos + 1, 2) == 1 && r.At?
    requires lit == FixedLengths() && dist == FixedDistances() && SymbolsAre(lit, dist, data, pos + 3, out, r)
    ensures BlocksAre(data, pos, out, r)
  {
    assert Open(Meaning, 0);
    assert Block(1, data, pos + 3, out) == r;
  }

  lemma BlocksIs(data: seq<Byte>, pos: nat, out: seq<Byte>, r: Progress)
    requires BlocksAre(data, pos, out, r)
    ensures Blocks(data, pos, out) == r
  {
    assert Open(Meaning, 0);
  }

  /** A stream of one fixed block. */
  function FixedStream(parts: seq<seq<nat>>): seq<nat> {
    [1] + ([1, 0] + Concat(parts))
  }

  lemma SpelledThree(data: seq<Byte>, pos: nat, a: seq<nat>, b: seq<nat>, c: seq<nat>, p: nat, q: nat)
    requires Spelled(data, pos, a + (b + c)) && p == pos + |a| && q == p + |b|
    ensures Spelled(data, pos, a) && Spelled(data, p, b) && Spelled(data, q, c)
    ensures pos + |a + (b + c)| == q + |c| <= 8 * |data|
  {
    SpelledSplit(data, pos, a, b + c);
    SpelledSplit(data, p, b, c);
  }

  /** The three bits in front of a final fixed block. */
  lemma FinalFixed(data: seq<Byte>, pos: nat, final: seq<nat>, kind: seq<nat>)
    requires final == [1] && kind == [1, 0] && Spelled(data, pos, final) && Spelled(data, pos + 1, kind)
    ensures Take(data, pos, 1) == 1 && Take(data, pos + 1, 2) == 1
  {
    Pow2Values();
    assert NumberBits(0, 1) == [0] + NumberBits(0, 0);
    assert NumberBits(1, 1) == [1] + NumberBits(0, 0) == [1];
    assert NumberBits(1, 2) == [1] + NumberBits(0, 1) == [1, 0];
    NumberRead(data, pos, 1, 1);
    NumberRead(data, pos + 1, 1, 2);
  }

  lemma HeaderRead(data: seq<Byte>, pos: nat, parts: seq<seq<nat>>)
    requires Spelled(data, pos, FixedStream(parts))
    ensures Take(data, pos, 1) == 1 && Take(data, pos + 1, 2) == 1 && Spelled(data, pos + 3, Concat(parts))
    ensures pos + |FixedStream(parts)| == pos + 3 + |Concat(parts)| <= 8 * |data|
  {
    var final, kind := [1], [1, 0];
    SpelledThree(data, pos, final, kind, Concat(parts), pos + 1, pos + 3);
    FinalFixed(data, pos, final, kind);
  }

  lemma {:induction false} ConcatBits(parts: seq<seq<nat>>)
    requires forall i | 0 <= i < |parts| :: AllBits(parts[i])
    ensures AllBits(Concat(parts))
    decreases |parts|
  {
    if parts != [] { ConcatBits(parts[1..]); }
  }

  lemma SpellsBits(lit: seq<nat>, dist: seq<nat>, ts: seq<Token>, parts: seq<seq<nat>>, outs: seq<seq<Byte>>)
    requires 256 < |lit| && Spells(lit, dist, ts, parts, outs)
    ensures AllBits(FixedStream(parts))
  {
    forall i | 0 <= i < |parts| ensures AllBits(parts[i]) {
      if i < |ts| { TokenIsBits(lit, dist, ts[i]); }
    }
    ConcatBits(parts);
    HeaderBits(Concat(parts));
  }

  lemma TokenIsBits(lit: seq<nat>, dist: seq<nat>, t: Token)
    requires Codable(lit, dist, t)
    ensures AllBits(TokenBits(lit, dist, t))
  {
  }

  lemma HeaderBits(bits: seq<nat>)
    requires AllBits(bits)
    ensures AllBits([1] + ([1, 0] + bits))
  {
  }

  /** Round trip: tokens spelled with the fixed codes and packed into bytes decode to
      exactly what the tokens mean. */
  lemma FixedRoundTrip(ts: seq<Token>, parts: seq<seq<nat>>, outs: seq<seq<Byte>>)
    requires Spells(FixedLengths(), FixedDistances(), ts, parts, outs) && outs[0] == []
    ensures Blocks(PackBits(FixedStream(parts)), 0, []) == At(|FixedStream(parts)|, outs[|ts|])
  {
    SpellsBits(FixedLengths(), FixedDistances(), ts, parts, outs);
    PackedIsSpelled(FixedStream(parts));
    FixedDecoded(PackBits(FixedStream(parts)), 0, ts, parts, outs);
  }

  lemma FixedDecoded(data: seq<Byte>, pos: nat, ts: seq<Token>, parts: seq<seq<nat>>, outs: seq<seq<Byte>>)
    requires Spells(FixedLengths(), FixedDistances(), ts, parts, outs) && Spelled(data, pos, FixedStream(parts))
    ensures Blocks(data, pos, outs[0]) == At(pos + |FixedStream(parts)|, outs[|ts|])
  {
    var r := At(pos + |FixedStream(parts)|, outs[|ts|]);
    FixedComplete();
    FixedDistancesFit();
    FixedRead(data, pos, FixedLengths(), FixedDistances(), ts, parts, outs, r);
    BlocksIs(data, pos, outs[0], r);
  }

  /** A spelled block with the fixed codes, anywhere in a stream. */
  lemma FixedRead(data: seq<Byte>, pos: nat, lit: seq<nat>, dist: seq<nat>, ts: seq<Token>, parts: seq<seq<nat>>,
                  outs: seq<seq<Byte>>, r: Progress)
    requires lit == FixedLengths() && dist == FixedDistances() && Coded(lit, 256)
    requires NotOverSubscribed(lit) && NotOverSubscribed(dist)
    requires Spells(lit, dist, ts, parts, outs) && Spelled(data, pos, FixedStream(parts))
    requires r == At(pos + |FixedStream(parts)|, outs[|ts|])
    ensures BlocksAre(data, pos, outs[0], r)
  {
    HeaderRead(data, pos, parts);
    BlockRead(lit, dist, data, pos + 3, ts, parts, outs, r);
    LastBlock(data, pos, lit, dist, outs[0], r);
  }

  function Prefixes(bytes: seq<Byte>): (r: seq<seq<Byte>>)
    ensures |r| == |bytes| + 1 && forall i | 0 <= i <= |bytes| :: r[i] == bytes[..i]
  {
    seq(|bytes| + 1, i requires 0 <= i <= |bytes| => bytes[..i])
  }

  /** Every byte string has a stream that decodes to it. */
  lemma LiteralRoundTrip(bytes: seq<Byte>, parts: seq<seq<nat>>)
    requires |parts| == |bytes| + 1 && parts[|bytes|] == SymbolBits(FixedLengths(), 256)
    requires forall i | 0 <= i < |bytes| :: parts[i] == SymbolBits(FixedLengths(), bytes[i])
    ensures Blocks(PackBits(FixedStream(parts)), 0, []) == At(|FixedStream(parts)|, bytes)
  {
    var ts := Literals(bytes);
    var outs := Prefixes(bytes);
    LiteralsSpell(bytes, parts);
    FixedRoundTrip(ts, parts, outs);
    assert bytes[..|bytes|] == bytes;
  }

  function Literals(bytes: seq<Byte>): (r: seq<Token>)
    ensures |r| == |bytes| && forall i | 0 <= i < |bytes| :: r[i] == Literal(bytes[i])
  {
    seq(|bytes|, i requires 0 <= i < |bytes| => Literal(bytes[i]))
  }

  lemma LiteralsSpell(bytes: seq<Byte>, parts: seq<seq<nat>>)
    requires |parts| == |bytes| + 1 && parts[|bytes|] == SymbolBits(FixedLengths(), 256)
    requires forall i | 0 <= i < |bytes| :: parts[i] == SymbolBits(FixedLengths(), bytes[i])
    ensures Spells(FixedLengths(), FixedDistances(), Literals(bytes), parts, Prefixes(bytes))
  {
    var ts, outs := Literals(bytes), Prefixes(bytes);
    forall i | 0 <= i < |ts|
      ensures Codable(FixedLengths(), FixedDistances(), ts[i])
      ensures parts[i] == TokenBits(FixedLengths(), FixedDistances(), ts[i])
      ensures Means(ts[i], outs[i], outs[i + 1])
    {
      assert bytes[..i + 1] == bytes[..i] + [bytes[i]];
      OneLiteral(bytes[i], outs[i], outs[i + 1]);
    }
  }

  lemma OneLiteral(b: Byte, out: seq<Byte>, next: seq<Byte>)
    requires next == out + [b]
    ensures Codable(FixedLengths(), FixedDistances(), Literal(b)) && Means(Literal(b), out, next)
    ensures TokenBits(FixedLengths(), FixedDistances(), Literal(b)) == SymbolBits(FixedLengths(), b)
  {
  }

  // --- stored blocks ---

  /** A stored block, byte by byte: the length, low byte first, the same two bytes
      complemented, and the bytes themselves, from the next byte boundary on. */
  lemma StoredRead(data: seq<Byte>, pos: nat, k: nat, bytes: seq<Byte>, out: seq<Byte>)
    requires pos <= 8 * k < pos + 8 && k + 4 + |bytes| <= |data| && |bytes| < 0x1_0000
    requires data[k] == |bytes| % 256 && data[k + 1] == |bytes| / 256
    requires data[k + 2] == 255 - |bytes| % 256 && data[k + 3] == 255 - |bytes| / 256
    requires data[k + 4..k + 4 + |bytes|] == bytes
    ensures Stored(data, pos, out) == At(8 * (k + 4 + |bytes|), out + bytes)
  {
    TakeTwo(data, k, |bytes| % 256, |bytes| / 256);
    TakeTwo(data, k + 2, 255 - |bytes| % 256, 255 - |bytes| / 256);
    NextByte(pos, k);
    StoredAt(data, pos, 8 * k, 8 * (k + 2), out, |bytes|, 0xffff - |bytes|);
  }

  lemma StoredAt(data: seq<Byte>, pos: nat, p: nat, q: nat, out: seq<Byte>, len: nat, nlen: nat)
    requires p == BitReader.AlignUp8(pos) && q == p + 16
    requires Take(data, p, 16) == len && Take(data, q, 16) == nlen
    ensures Stored(data, pos, out) == StoredBytes(data, p / 8 + 4, out, len, nlen)
  {
  }

  lemma NextByte(pos: nat, k: nat)
    requires pos <= 8 * k < pos + 8
    ensures BitReader.AlignUp8(pos) == 8 * k
  {
  }

  /** Sixteen bits at a byte boundary. */
  lemma TakeTwo(data: seq<Byte>, k: nat, lo: nat, hi: nat)
    requires k + 2 <= |data| && data[k] == lo && data[k + 1] == hi
    ensures Take(data, 8 * k, 16) == lo + 256 * hi
  {
    TakeByte(data, k);
    TakeByte(data, k + 1);
    TakePair(data, 8 * k, 8, lo, hi);
    ShlIs(hi, 8);
    Pow2Values();
  }

  lemma TakePair(data: seq<Byte>, pos: nat, n: nat, lo: nat, hi: nat)
    requires Take(data, pos, n) == lo && Take(data, pos + n, n) == hi
    ensures Take(data, pos, n + n) == lo + Shl(hi, n)
  {
    TakeSplit(data, pos, n, n);
  }
}
