/** What a DEFLATE stream means (RFC 1951, sections 3.2.3 to 3.2.7), as functions
    of the stream's bits: no buffers, no trees, no tables. */
module Rfc1951 {
  import opened Gates
  import opened Words
  import opened Options
  import opened Bits
  import opened CanonicalCode
  import opened OutBuffer
  import BitReader

  // The ranges of lengths and distances (section 3.2.5).  Symbols come in groups
  // with the same number of extra bits, and each covers the values after the last.

  function LengthExtra(i: nat): nat {
    if i < 8 || i >= 28 then 0
    else if i < 12 then 1 else if i < 16 then 2 else if i < 20 then 3 else if i < 24 then 4 else 5
  }

  function LengthBase(i: nat): nat {
    if i < 8 then i + 3
    else if i < 12 then 2 * i - 5
    else if i < 16 then 4 * i - 29
    else if i < 20 then 8 * i - 93
    else if i < 24 then 16 * i - 253
    else if i < 28 then 32 * i - 637
    else 258
  }

  function DistExtra(i: nat): nat {
    if i < 4 then 0 else (i - 2) / 2
  }

  function DistBase(i: nat): (r: nat)
    ensures r >= 1
  {
    if i < 4 then i + 1
    else if i < 6 then 2 * i - 3
    else if i < 8 then 4 * i - 15
    else if i < 10 then 8 * i - 47
    else if i < 12 then 16 * i - 127
    else if i < 14 then 32 * i - 319
    else if i < 16 then 64 * i - 767
    else if i < 18 then 128 * i - 1791
    else if i < 20 then 256 * i - 4095
    else if i < 22 then 512 * i - 9215
    else if i < 24 then 1024 * i - 20479
    else if i < 26 then 2048 * i - 45055
    else if i < 28 then 4096 * i - 98303
    else 8192 * i - 212991
  }

  /** The ranges of consecutive symbols meet without a gap; length 258, the last
      value of symbol 284's range, has a symbol of its own. */
  lemma RangesMeet(i: nat)
    ensures i < 27 ==> LengthBase(i + 1) == LengthBase(i) + Pow2(LengthExtra(i))
    ensures i == 27 ==> LengthBase(i + 1) == LengthBase(i) + Pow2(LengthExtra(i)) - 1
    ensures i < 29 ==> DistBase(i + 1) == DistBase(i) + Pow2(DistExtra(i))
  {
    Pow2Values();
  }

  /** Both tables start and end where section 3.2.5 says. */
  lemma RangesStart()
    ensures LengthBase(0) == 3 && LengthBase(27) + Pow2(LengthExtra(27)) == 259 && LengthBase(28) == 258
    ensures DistBase(0) == 1 && DistBase(29) + Pow2(DistExtra(29)) == 32769
  {
    Pow2Values();
  }

  /** After the first few symbols, every four lengths and every two distances take one
      more extra bit. */
  lemma ExtrasGrow(i: nat)
    ensures i < 4 || i == 28 ==> LengthExtra(i) == 0
    ensures 4 <= i < 28 ==> LengthExtra(i) == (i - 4) / 4
    ensures i < 2 ==> DistExtra(i) == 0
    ensures 2 <= i < 30 ==> DistExtra(i) == (i - 2) / 2
  {
  }

  /** The symbol of the code length code whose length field `i` holds (section 3.2.7): the
      three repeat symbols, 0, and then outwards from 8, upper and lower in turn. */
  function FieldSymbol(i: nat): (s: nat)
    requires i < 19
    ensures s < 19
  {
    if i < 3 then 16 + i
    else if i == 3 then 0
    else if i % 2 == 0 then 8 + (i - 4) / 2
    else 7 - (i - 5) / 2
  }

  /** Where decoding stands and what has been written, or not a DEFLATE stream. */
  datatype Progress = Malformed | At(pos: nat, out: seq<Byte>)

  /** The symbol whose code stands at `pos`. */
  ghost function SymbolAt(lens: seq<nat>, data: seq<Byte>, pos: nat): (r: Option<nat>)
    ensures r.Some? ==> CodeAt(lens, data, pos, r.value)
    ensures r.None? ==> forall s: nat :: !CodeAt(lens, data, pos, s)
  {
    if exists s: nat :: CodeAt(lens, data, pos, s) then
      var s: nat :| CodeAt(lens, data, pos, s);
      Some(s)
    else None
  }

  /** A length and distance pair, given its length symbol (section 3.2.5). */
  datatype Reference = BadReference | Reference(length: nat, distance: nat, pos: nat)

  ghost function ReferenceAt(dist: seq<nat>, data: seq<Byte>, pos: nat, symbol: nat): (r: Reference)
    requires 257 <= symbol
    ensures r.Reference? ==> pos <= r.pos <= 8 * |data| && 1 <= r.distance
  {
    if symbol > 285 then BadReference
    else
      var length := LengthBase(symbol - 257) + Take(data, pos, LengthExtra(symbol - 257));
      var p := pos + LengthExtra(symbol - 257);
      var d := SymbolAt(dist, data, p);
      if d.None? || d.value > 29 then BadReference
      else
        var q := p + dist[d.value];
        if q + DistExtra(d.value) > 8 * |data| then BadReference
        else Reference(length, DistBase(d.value) + Take(data, q, DistExtra(d.value)), q + DistExtra(d.value))
  }

  /** One literal or one back reference, or the end of the block. */
  datatype Step = BadStep | Finish(pos: nat) | Go(pos: nat, out: seq<Byte>)

  ghost function StepAt(lit: seq<nat>, dist: seq<nat>, data: seq<Byte>, pos: nat, out: seq<Byte>): (r: Step)
    ensures !r.BadStep? ==> pos < r.pos <= 8 * |data|
    ensures r.Go? ==> out <= r.out
  {
    var s := SymbolAt(lit, data, pos);
    if s.None? then BadStep
    else
      var p := pos + lit[s.value];
      if s.value < 256 then Go(p, out + [s.value])
      else if s.value == 256 then Finish(p)
      else Resolve(ReferenceAt(dist, data, p, s.value), out)
  }

  /** A back reference copies bytes that have been written. */
  function Resolve(ref: Reference, out: seq<Byte>): (r: Step)
    requires ref.Reference? ==> 1 <= ref.distance
    ensures !r.BadStep? ==> ref.Reference? && r.Go? && r.pos == ref.pos && out <= r.out
  {
    if ref.BadReference? || ref.distance > |out| then BadStep
    else Go(ref.pos, CopyBack(out, ref.distance, ref.length))
  }

  /** The compressed data of one block, up to its end-of-block symbol. */
  ghost function Symbols(lit: seq<nat>, dist: seq<nat>, data: seq<Byte>, pos: nat, out: seq<Byte>): (r: Progress)
    ensures r.At? ==> pos < r.pos <= 8 * |data| && out <= r.out
    decreases 8 * |data| - pos
  {
    match StepAt(lit, dist, data, pos, out)
    case BadStep => Malformed
    case Finish(p) => At(p, out)
    case Go(p, o) => Symbols(lit, dist, data, p, o)
  }

  /** A stored block (section 3.2.4), after its three header bits. */
  ghost function Stored(data: seq<Byte>, pos: nat, out: seq<Byte>): (r: Progress)
    ensures r.At? ==> pos < r.pos <= 8 * |data| && out <= r.out
  {
    var p := BitReader.AlignUp8(pos);
    StoredBytes(data, p / 8 + 4, out, Take(data, p, 16), Take(data, p + 16, 16))
  }

  /** The bytes of a stored block, from byte `k` on, if its two length words agree. */
  ghost function StoredBytes(data: seq<Byte>, k: nat, out: seq<Byte>, len: nat, nlen: nat): (r: Progress)
    ensures r.At? ==> 8 * k <= r.pos <= 8 * |data| && out <= r.out
  {
    if k + len > |data| || nlen != 0xffff - len then Malformed
    else At(8 * (k + len), out + data[k..k + len])
  }

  /** The fixed codes (section 3.2.6). */
  function FixedLengths(): (r: seq<nat>)
    ensures |r| == 288
    ensures forall i | 0 <= i < 288 ::
      r[i] == if i <= 143 then 8 else if i <= 255 then 9 else if i <= 279 then 7 else 8
  {
    seq(288, i => if i <= 143 then 8 else if i <= 255 then 9 else if i <= 279 then 7 else 8)
  }

  function FixedDistances(): (r: seq<nat>)
    ensures |r| == 32
    ensures forall i | 0 <= i < 32 :: r[i] == 5
  {
    seq(32, _ => 5)
  }

  // --- dynamic codes (section 3.2.7) ---

  /** The code length code's own lengths: `n` three-bit numbers in a fixed order. */
  ghost function CodeLengthCode(data: seq<Byte>, pos: nat, n: nat): (r: seq<nat>)
    requires n <= 19
    ensures |r| == 19 && forall i | 0 <= i < 19 :: r[i] <= 7
  {
    if n == 0 then seq(19, _ => 0)
    else
      Pow2Values();
      TakeBound(data, pos + 3 * (n - 1), 3);
      CodeLengthCode(data, pos, n - 1)[FieldSymbol(n - 1) := Take(data, pos + 3 * (n - 1), 3)]
  }

  /** Each field gives the length of its own symbol, and all other lengths are 0. */
  lemma {:induction false} FieldsRead(data: seq<Byte>, pos: nat, n: nat, i: nat)
    requires i < 19 && n <= 19
    ensures CodeLengthCode(data, pos, n)[FieldSymbol(i)] == if i < n then Take(data, pos + 3 * i, 3) else 0
    decreases n
  {
    if n > 0 {
      FieldsRead(data, pos, n - 1, i);
      if FieldSymbol(n - 1) == FieldSymbol(i) { FieldOnce(n - 1, i); }
    }
  }

  lemma FieldOnce(i: nat, j: nat)
    requires i < 19 && j < 19 && FieldSymbol(i) == FieldSymbol(j)
    ensures i == j
  {
  }

  datatype Vector = BadVector | Vector(lens: seq<nat>, pos: nat)

  /** `total` code lengths, of which `acc` are already read. */
  ghost function LengthsAt(clen: seq<nat>, data: seq<Byte>, pos: nat, total: nat, acc: seq<nat>): (r: Vector)
    requires |clen| == 19 && Lengths(acc)
    ensures r.Vector? && pos <= 8 * |data| ==> |r.lens| == total && Lengths(r.lens) && pos <= r.pos <= 8 * |data|
    decreases 8 * |data| - pos
  {
    if |acc| > total then BadVector
    else if |acc| == total then Vector(acc, pos)
    else
      var s := SymbolAt(clen, data, pos);
      if s.None? then BadVector
      else
        var p := pos + clen[s.value];
        if s.value <= 15 then LengthsAt(clen, data, p, total, acc + [s.value])
        else
          var extra := RepeatBits(s.value);
          if p + extra > 8 * |data| || (s.value == 16 && acc == []) then BadVector
          else
            var value := if s.value == 16 then acc[|acc| - 1] else 0;
            var times := RepeatBase(s.value) + Take(data, p, extra);
            LengthsAt(clen, data, p + extra, total, acc + Repeat(value, times))
  }

  function RepeatBits(symbol: nat): nat {
    if symbol == 16 then 2 else if symbol == 17 then 3 else 7
  }

  function RepeatBase(symbol: nat): nat {
    if symbol == 18 then 11 else 3
  }

  /** Symbol 16 repeats 3 to 6 times, 17 repeats 3 to 10 times, 18 repeats 11 to 138 times. */
  lemma RepeatCounts()
    ensures RepeatBase(16) == 3 && RepeatBase(16) + Pow2(RepeatBits(16)) - 1 == 6
    ensures RepeatBase(17) == 3 && RepeatBase(17) + Pow2(RepeatBits(17)) - 1 == 10
    ensures RepeatBase(18) == 11 && RepeatBase(18) + Pow2(RepeatBits(18)) - 1 == 138
  {
    Pow2Values();
  }

  function Repeat(value: nat, times: nat): (r: seq<nat>)
    ensures |r| == times && forall i | 0 <= i < times :: r[i] == value
  {
    seq(times, _ => value)
  }

  datatype Tables = BadTables | Tables(lit: seq<nat>, dist: seq<nat>, pos: nat)

  /** The two code length vectors at the head of a dynamic block. */
  ghost function TablesAt(data: seq<Byte>, pos: nat): (r: Tables)
    ensures r.Tables? ==> pos < r.pos <= 8 * |data|
    ensures r.Tables? ==> NotOverSubscribed(r.lit) && NotOverSubscribed(r.dist)
  {
    Pow2Values();
    TakeBound(data, pos + 10, 4);
    TablesFrom(data, pos + 14, Take(data, pos, 5) + 257, Take(data, pos + 5, 5) + 1, Take(data, pos + 10, 4) + 4)
  }

  /** The same after the three counts. */
  ghost function TablesFrom(data: seq<Byte>, pos: nat, lits: nat, dists: nat, clens: nat): (r: Tables)
    requires clens <= 19
    ensures r.Tables? ==> pos + 3 * clens <= r.pos <= 8 * |data|
    ensures r.Tables? ==> NotOverSubscribed(r.lit) && NotOverSubscribed(r.dist)
  {
    if pos + 3 * clens > 8 * |data| then BadTables
    else
      var clen := CodeLengthCode(data, pos, clens);
      if !NotOverSubscribed(clen) then BadTables
      else SplitTables(LengthsAt(clen, data, pos + 3 * clens, lits + dists, []), lits)
  }

  ghost function SplitTables(v: Vector, lits: nat): (r: Tables)
    ensures r.Tables? ==> v.Vector? && r.pos == v.pos && NotOverSubscribed(r.lit) && NotOverSubscribed(r.dist)
  {
    if v.BadVector? || lits > |v.lens| then BadTables
    else if NotOverSubscribed(v.lens[..lits]) && NotOverSubscribed(v.lens[lits..]) then
      Tables(v.lens[..lits], v.lens[lits..], v.pos)
    else BadTables
  }

  /** One block, after its three header bits. */
  ghost function Block(kind: nat, data: seq<Byte>, pos: nat, out: seq<Byte>): (r: Progress)
    ensures r.At? ==> pos < r.pos <= 8 * |data| && out <= r.out
  {
    if kind == 0 then Stored(data, pos, out)
    else if kind == 1 then Symbols(FixedLengths(), FixedDistances(), data, pos, out)
    else if kind == 2 then
      var t := TablesAt(data, pos);
      if t.BadTables? then Malformed else Symbols(t.lit, t.dist, data, t.pos, out)
    else Malformed
  }

  /** A whole stream: blocks up to the one marked final (section 3.2.3). */
  ghost function Blocks(data: seq<Byte>, pos: nat, out: seq<Byte>): (r: Progress)
    ensures r.At? ==> pos < r.pos <= 8 * |data| && out <= r.out
    decreases 8 * |data| - pos
  {
    if pos + 3 > 8 * |data| then Malformed
    else
      var r := Block(Take(data, pos + 1, 2), data, pos + 3, out);
      if r.Malformed? then Malformed
      else if Take(data, pos, 1) == 1 then r
      else Blocks(data, r.pos, r.out)
  }

  // The meanings above, as relations that a caller can pass on unopened.

  ghost predicate StepIs(lit: seq<nat>, dist: seq<nat>, data: seq<Byte>, pos: nat, out: seq<Byte>, r: Step) {
    forall k {:trigger Open(Meaning, k)} | Open(Meaning, k) :: r == StepAt(lit, dist, data, pos, out)
  }

  /** A step that is a back reference with this length symbol. */
  ghost predicate CopyIs(dist: seq<nat>, data: seq<Byte>, pos: nat, symbol: nat, out: seq<Byte>, r: Step) {
    forall k {:trigger Open(Meaning, k)} | Open(Meaning, k) ::
      && 257 <= symbol
      && var ref := ReferenceAt(dist, data, pos, symbol);
         && ref.Reference? && ref.distance <= |out|
         && r == Go(ref.pos, CopyBack(out, ref.distance, ref.length))
  }

  ghost predicate SymbolsAre(lit: seq<nat>, dist: seq<nat>, data: seq<Byte>, pos: nat, out: seq<Byte>, r: Progress) {
    forall k {:trigger Open(Meaning, k)} | Open(Meaning, k) :: r == Symbols(lit, dist, data, pos, out)
  }

  ghost predicate BlocksAre(data: seq<Byte>, pos: nat, out: seq<Byte>, r: Progress) {
    forall k {:trigger Open(Meaning, k)} | Open(Meaning, k) :: r == Blocks(data, pos, out)
  }

  ghost predicate VectorIs(clen: seq<nat>, data: seq<Byte>, pos: nat, total: nat, acc: seq<nat>, r: Vector)
    requires |clen| == 19 && Lengths(acc)
  {
    forall k {:trigger Open(Meaning, k)} | Open(Meaning, k) :: r == LengthsAt(clen, data, pos, total, acc)
  }

  ghost predicate StoredIs(data: seq<Byte>, pos: nat, out: seq<Byte>, r: Progress) {
    forall k {:trigger Open(Meaning, k)} | Open(Meaning, k) :: r == Stored(data, pos, out)
  }

  /** The two length words of a stored block. */
  ghost predicate StoredHeaderIs(data: seq<Byte>, p: nat, len: nat, nlen: nat) {
    forall k {:trigger Open(Meaning, k)} | Open(Meaning, k) ::
      len == Take(data, p, 16) && nlen == Take(data, p + 16, 16)
  }

  /** The three counts at the head of a dynamic block. */
  ghost predicate CountsAre(data: seq<Byte>, pos: nat, hlit: nat, hdist: nat, hclen: nat) {
    forall k {:trigger Open(BlockHeader, k)} | Open(BlockHeader, k) ::
      hlit == Take(data, pos, 5) && hdist == Take(data, pos + 5, 5) && hclen == Take(data, pos + 10, 4)
  }

  ghost predicate CodeLengthsAre(data: seq<Byte>, pos: nat, n: nat, r: seq<nat>)
    requires n <= 19
  {
    |r| == 19 && forall k {:trigger Open(Meaning, k)} | Open(Meaning, k) :: r == CodeLengthCode(data, pos, n)
  }

  ghost predicate TablesAre(data: seq<Byte>, pos: nat, r: Tables) {
    forall k {:trigger Open(BlockHeader, k)} | Open(BlockHeader, k) :: r == TablesAt(data, pos)
  }

  ghost predicate TablesRest(data: seq<Byte>, pos: nat, lits: nat, dists: nat, clens: nat, r: Tables)
    requires clens <= 19
  {
    forall k {:trigger Open(Meaning, k)} | Open(Meaning, k) :: r == TablesFrom(data, pos, lits, dists, clens)
  }

  ghost predicate BlockIs(kind: nat, data: seq<Byte>, pos: nat, out: seq<Byte>, r: Progress) {
    forall k {:trigger Open(Meaning, k)} | Open(Meaning, k) :: r == Block(kind, data, pos, out)
  }
}
