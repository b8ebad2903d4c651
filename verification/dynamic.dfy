/** How the header of a dynamic block is spelled (RFC 1951, section 3.2.7), and that the
    decoder reads the spelled code length vectors back. */
module Dynamic {
  import opened Gates
  import opened Words
  import opened Options
  import opened Bits
  import opened CanonicalCode
  import opened Rfc1951
  import opened Inflate
  import opened Encoding

  /** A code length, the last one again, or a run of zeros. */
  datatype LenToken = One(len: nat) | Again(times: nat) | Zeros(times: nat)

  /** The lengths after a token, given those before it. */
  ghost predicate Extends(t: LenToken, acc: seq<nat>, next: seq<nat>) {
    match t
    case One(len) => next == acc + [len]
    case Again(times) => acc != [] && next == acc + Repeat(acc[|acc| - 1], times)
    case Zeros(times) => next == acc + Repeat(0, times)
  }

  /** Lengths go up to 15; the last is repeated 3 to 6 times, zero 3 to 138 times. */
  predicate InRange(t: LenToken) {
    match t
    case One(len) => len <= 15
    case Again(times) => 3 <= times <= 6
    case Zeros(times) => 3 <= times <= 138
  }

  function SymbolOf(t: LenToken): (s: nat)
    requires InRange(t)
    ensures s < 19
  {
    match t
    case One(len) => len
    case Again(_) => 16
    case Zeros(times) => if times <= 10 then 17 else 18
  }

  function ExtraBits(t: LenToken): (r: seq<nat>)
    requires InRange(t)
    ensures AllBits(r)
  {
    match t
    case One(_) => []
    case Again(times) => NumberBits(times - 3, 2)
    case Zeros(times) => if times <= 10 then NumberBits(times - 3, 3) else NumberBits(times - 11, 7)
  }

  ghost predicate Sendable(clen: seq<nat>, t: LenToken) {
    |clen| == 19 && InRange(t) && Coded(clen, SymbolOf(t))
  }

  function LenBits(clen: seq<nat>, t: LenToken): seq<nat>
    requires |clen| == 19 && InRange(t)
  {
    SymbolBits(clen, SymbolOf(t)) + ExtraBits(t)
  }

  /** Tokens, the bits of each, and the lengths before and after each. */
  ghost predicate Lists(clen: seq<nat>, ts: seq<LenToken>, parts: seq<seq<nat>>, accs: seq<seq<nat>>) {
    && |parts| == |ts| && |accs| == |ts| + 1
    && forall i | 0 <= i < |ts| ::
         Sendable(clen, ts[i]) && parts[i] == LenBits(clen, ts[i]) && Extends(ts[i], accs[i], accs[i + 1])
  }

  lemma ListsRest(clen: seq<nat>, ts: seq<LenToken>, parts: seq<seq<nat>>, accs: seq<seq<nat>>)
    requires Lists(clen, ts, parts, accs) && ts != []
    ensures Lists(clen, ts[1..], parts[1..], accs[1..]) && accs[1..][|ts| - 1] == accs[|ts|] && accs[1..][0] == accs[1]
  {
    forall i | 0 <= i < |ts| - 1
      ensures Sendable(clen, ts[1..][i]) && parts[1..][i] == LenBits(clen, ts[1..][i])
      ensures Extends(ts[1..][i], accs[1..][i], accs[1..][i + 1])
    {
      assert ts[1..][i] == ts[i + 1] && accs[1..][i] == accs[i + 1] && accs[1..][i + 1] == accs[i + 2];
    }
  }

  /** Every token adds to the lengths. */
  lemma {:induction false} ListsGrow(clen: seq<nat>, ts: seq<LenToken>, parts: seq<seq<nat>>, accs: seq<seq<nat>>)
    requires Lists(clen, ts, parts, accs) && Lengths(accs[0])
    ensures |accs[0]| + |ts| <= |accs[|ts|]| && Lengths(accs[|ts|])
    decreases |ts|
  {
    if ts != [] {
      ListsRest(clen, ts, parts, accs);
      assert Extends(ts[0], accs[0], accs[1]) && InRange(ts[0]);
      ListsGrow(clen, ts[1..], parts[1..], accs[1..]);
    }
  }

  /** A spelled token is one step of reading the vector. */
  lemma TokenStep(clen: seq<nat>, data: seq<Byte>, pos: nat, p: nat, t: LenToken, acc: seq<nat>, next: seq<nat>,
                  total: nat, r: Vector)
    requires NotOverSubscribed(clen) && Sendable(clen, t) && Lengths(acc) && Extends(t, acc, next) && |acc| < total
    requires Spelled(data, pos, LenBits(clen, t)) && Lengths(next) && p == pos + |LenBits(clen, t)|
    requires VectorIs(clen, data, p, total, next, r)
    ensures VectorIs(clen, data, pos, total, acc, r)
  {
    var s, extra := SymbolOf(t), ExtraBits(t);
    SpelledSplit(data, pos, SymbolBits(clen, s), extra);
    SymbolRead(clen, data, pos, s);
    if s <= 15 {
      PlainStep(clen, data, pos, s, acc, total, r);
    } else {
      RepeatRead(data, pos + clen[s], t);
      RepeatStep(clen, data, pos, s, acc, next, total, r);
    }
  }

  lemma PlainStep(clen: seq<nat>, data: seq<Byte>, pos: nat, s: nat, acc: seq<nat>, total: nat, r: Vector)
    requires |clen| == 19 && Lengths(acc) && |acc| < total && s <= 15 && SymbolAt(clen, data, pos) == Some(s)
    requires VectorIs(clen, data, pos + clen[s], total, acc + [s], r)
    ensures VectorIs(clen, data, pos, total, acc, r)
  {
    assert Open(Meaning, 0);
  }

  /** The extra bits are the count above the least one. */
  lemma RepeatRead(data: seq<Byte>, pos: nat, t: LenToken)
    requires InRange(t) && !t.One? && Spelled(data, pos, ExtraBits(t))
    ensures |ExtraBits(t)| == RepeatBits(SymbolOf(t)) && pos + RepeatBits(SymbolOf(t)) <= 8 * |data|
    ensures RepeatBase(SymbolOf(t)) + Take(data, pos, RepeatBits(SymbolOf(t))) == t.times
  {
    Pow2Values();
    match t {
      case Again(times) => NumberRead(data, pos, times - 3, 2);
      case Zeros(times) =>
        if times <= 10 { NumberRead(data, pos, times - 3, 3); } else { NumberRead(data, pos, times - 11, 7); }
    }
  }

  lemma RepeatStep(clen: seq<nat>, data: seq<Byte>, pos: nat, s: nat, acc: seq<nat>, next: seq<nat>, total: nat,
                   r: Vector)
    requires |clen| == 19 && Lengths(acc) && |acc| < total && 16 <= s <= 18 && SymbolAt(clen, data, pos) == Some(s)
    requires pos + clen[s] + RepeatBits(s) <= 8 * |data| && (s == 16 ==> acc != []) && Lengths(next)
    requires next == acc + Repeat(if s == 16 then acc[|acc| - 1] else 0,
                                  RepeatBase(s) + Take(data, pos + clen[s], RepeatBits(s)))
    requires VectorIs(clen, data, pos + clen[s] + RepeatBits(s), total, next, r)
    ensures VectorIs(clen, data, pos, total, acc, r)
  {
    assert Open(Meaning, 0);
  }

  lemma VectorEnd(clen: seq<nat>, data: seq<Byte>, pos: nat, acc: seq<nat>)
    requires |clen| == 19 && Lengths(acc)
    ensures VectorIs(clen, data, pos, |acc|, acc, Vector(acc, pos))
  {
  }

  /** A spelled vector is read back, whatever tokens spell it. */
  lemma {:induction false} VectorRead(clen: seq<nat>, data: seq<Byte>, pos: nat, ts: seq<LenToken>,
                                      parts: seq<seq<nat>>, accs: seq<seq<nat>>, total: nat, r: Vector)
    requires NotOverSubscribed(clen) && |clen| == 19 && Lists(clen, ts, parts, accs) && Lengths(accs[0])
    requires Spelled(data, pos, Concat(parts))
    requires total == |accs[|ts|]| && r == Vector(accs[|ts|], pos + |Concat(parts)|)
    ensures VectorIs(clen, data, pos, total, accs[0], r)
    decreases |ts|
  {
    if ts == [] {
      VectorEnd(clen, data, pos, accs[0]);
    } else {
      ListsRest(clen, ts, parts, accs);
      ListsGrow(clen, ts, parts, accs);
      var p := FirstPart(data, pos, parts);
      NextLengths(clen, ts, parts, accs);
      VectorRead(clen, data, p, ts[1..], parts[1..], accs[1..], total, r);
      TokenStep(clen, data, pos, p, ts[0], accs[0], accs[1], total, r);
    }
  }

  lemma NextLengths(clen: seq<nat>, ts: seq<LenToken>, parts: seq<seq<nat>>, accs: seq<seq<nat>>)
    requires Lists(clen, ts, parts, accs) && ts != [] && Lengths(accs[0])
    ensures Sendable(clen, ts[0]) && parts[0] == LenBits(clen, ts[0]) && Extends(ts[0], accs[0], accs[1])
    ensures Lengths(accs[1])
  {
  }

  // --- the code length code ---

  function FieldBits(clen: seq<nat>, n: nat): (r: seq<nat>)
    requires |clen| == 19 && n <= 19
    ensures |r| == 3 * n && AllBits(r)
  {
    if n == 0 then [] else FieldBits(clen, n - 1) + NumberBits(clen[FieldSymbol(n - 1)], 3)
  }

  /** The lengths that are not sent are 0. */
  ghost predicate ClenOk(clen: seq<nat>, n: nat) {
    && |clen| == 19 && 4 <= n <= 19 && NotOverSubscribed(clen)
    && (forall s | 0 <= s < 19 :: clen[s] <= 7)
    && forall i | n <= i < 19 :: clen[FieldSymbol(i)] == 0
  }

  lemma {:induction false} FieldSpelled(clen: seq<nat>, data: seq<Byte>, pos: nat, n: nat, i: nat)
    requires |clen| == 19 && i < n <= 19 && clen[FieldSymbol(i)] <= 7 && Spelled(data, pos, FieldBits(clen, n))
    ensures Take(data, pos + 3 * i, 3) == clen[FieldSymbol(i)]
    decreases n
  {
    var v := clen[FieldSymbol(n - 1)];
    SpelledSplit(data, pos, FieldBits(clen, n - 1), NumberBits(v, 3));
    if i == n - 1 {
      Pow2Values();
      NumberRead(data, pos + 3 * i, v, 3);
    } else {
      FieldSpelled(clen, data, pos, n - 1, i);
    }
  }

  /** Every symbol has its field. */
  lemma FieldFor(s: nat) returns (i: nat)
    requires s < 19
    ensures i < 19 && FieldSymbol(i) == s
  {
    i := if s >= 16 then s - 16 else if s == 0 then 3 else if s >= 8 then 4 + 2 * (s - 8) else 5 + 2 * (7 - s);
  }

  lemma FieldsBack(clen: seq<nat>, data: seq<Byte>, pos: nat, n: nat)
    requires ClenOk(clen, n) && Spelled(data, pos, FieldBits(clen, n))
    ensures CodeLengthCode(data, pos, n) == clen
  {
    var r := CodeLengthCode(data, pos, n);
    forall s | 0 <= s < 19 ensures r[s] == clen[s] {
      var i := FieldFor(s);
      FieldsRead(data, pos, n, i);
      if i < n { FieldSpelled(clen, data, pos, n, i); }
    }
  }

  // --- the whole header ---

  function CountBits(lits: nat, dists: nat, n: nat): (r: seq<nat>)
    requires 257 <= lits <= 288 && 1 <= dists <= 32 && 4 <= n <= 19
    ensures |r| == 14 && AllBits(r)
  {
    NumberBits(lits - 257, 5) + NumberBits(dists - 1, 5) + NumberBits(n - 4, 4)
  }

  function Header(lits: nat, dists: nat, clen: seq<nat>, n: nat, parts: seq<seq<nat>>): seq<nat>
    requires 257 <= lits <= 288 && 1 <= dists <= 32 && 4 <= n <= 19 && |clen| == 19
  {
    CountBits(lits, dists, n) + (FieldBits(clen, n) + Concat(parts))
  }

  lemma ThreeNumbers(data: seq<Byte>, pos: nat, x: nat, k: nat, y: nat, l: nat, z: nat, m: nat)
    requires x < Pow2(k) && y < Pow2(l) && z < Pow2(m)
    requires Spelled(data, pos, NumberBits(x, k) + NumberBits(y, l) + NumberBits(z, m))
    ensures Take(data, pos, k) == x && Take(data, pos + k, l) == y && Take(data, pos + k + l, m) == z
  {
    SpelledSplit(data, pos, NumberBits(x, k) + NumberBits(y, l), NumberBits(z, m));
    SpelledSplit(data, pos, NumberBits(x, k), NumberBits(y, l));
    NumberRead(data, pos, x, k);
    NumberRead(data, pos + k, y, l);
    NumberRead(data, pos + k + l, z, m);
  }

  lemma CountsRead(data: seq<Byte>, pos: nat, lits: nat, dists: nat, n: nat)
    requires 257 <= lits <= 288 && 1 <= dists <= 32 && 4 <= n <= 19 && Spelled(data, pos, CountBits(lits, dists, n))
    ensures CountsAre(data, pos, lits - 257, dists - 1, n - 4)
  {
    Pow2Values();
    ThreeNumbers(data, pos, lits - 257, 5, dists - 1, 5, n - 4, 4);
  }

  /** What a header is made of: two vectors that are codes, and tokens that spell them. */
  ghost predicate HeaderOk(lit: seq<nat>, dist: seq<nat>, clen: seq<nat>, n: nat, ts: seq<LenToken>,
                           parts: seq<seq<nat>>, accs: seq<seq<nat>>) {
    && 257 <= |lit| <= 288 && 1 <= |dist| <= 32 && NotOverSubscribed(lit) && NotOverSubscribed(dist)
    && ClenOk(clen, n) && Lists(clen, ts, parts, accs) && accs[0] == [] && accs[|ts|] == lit + dist
  }

  /** Every header decodes to exactly the two vectors it was spelled from, and the
      position behind it. */
  lemma HeaderBack(data: seq<Byte>, pos: nat, lit: seq<nat>, dist: seq<nat>, clen: seq<nat>, n: nat, ts: seq<LenToken>,
                   parts: seq<seq<nat>>, accs: seq<seq<nat>>, bits: seq<nat>)
    requires HeaderOk(lit, dist, clen, n, ts, parts, accs)
    requires bits == Header(|lit|, |dist|, clen, n, parts) && Spelled(data, pos, bits)
    ensures TablesAre(data, pos, Tables(lit, dist, pos + |bits|))
  {
    var p, q := HeaderParts(data, pos, |lit|, |dist|, clen, n, parts, bits);
    var v := Vector(lit + dist, pos + |bits|);
    CountsRead(data, pos, |lit|, |dist|, n);
    FieldsBack(clen, data, p, n);
    VectorRead(clen, data, q, ts, parts, accs, |lit + dist|, v);
    RestBack(data, p, q, lit, dist, clen, n, v);
    TablesWhole(data, pos, p, |lit|, |dist|, n, Tables(lit, dist, pos + |bits|));
  }

  lemma HeaderParts(data: seq<Byte>, pos: nat, lits: nat, dists: nat, clen: seq<nat>, n: nat, parts: seq<seq<nat>>,
                    bits: seq<nat>) returns (p: nat, q: nat)
    requires 257 <= lits <= 288 && 1 <= dists <= 32 && 4 <= n <= 19 && |clen| == 19
    requires bits == Header(lits, dists, clen, n, parts) && Spelled(data, pos, bits)
    ensures p == pos + 14 && q == p + 3 * n && pos + |bits| == q + |Concat(parts)| <= 8 * |data|
    ensures Spelled(data, pos, CountBits(lits, dists, n)) && Spelled(data, p, FieldBits(clen, n))
    ensures Spelled(data, q, Concat(parts))
  {
    p, q := pos + 14, pos + 14 + 3 * n;
    SpelledThree(data, pos, CountBits(lits, dists, n), FieldBits(clen, n), Concat(parts), p, q);
  }

  lemma RestBack(data: seq<Byte>, pos: nat, q: nat, lit: seq<nat>, dist: seq<nat>, clen: seq<nat>, n: nat, v: Vector)
    requires NotOverSubscribed(lit) && NotOverSubscribed(dist) && n <= 19 && pos + 3 * n <= 8 * |data|
    requires NotOverSubscribed(clen) && |clen| == 19 && CodeLengthCode(data, pos, n) == clen
    requires q == pos + 3 * n && v.Vector? && v.lens == lit + dist && VectorIs(clen, data, q, |lit + dist|, [], v)
    ensures TablesRest(data, pos, |lit|, |dist|, n, Tables(lit, dist, v.pos))
  {
    assert Open(Meaning, 0);
    assert (lit + dist)[..|lit|] == lit && (lit + dist)[|lit|..] == dist;
    assert SplitTables(v, |lit|) == Tables(lit, dist, v.pos);
  }

  lemma TablesWhole(data: seq<Byte>, pos: nat, p: nat, lits: nat, dists: nat, n: nat, t: Tables)
    requires 257 <= lits && 1 <= dists && 4 <= n <= 19 && CountsAre(data, pos, lits - 257, dists - 1, n - 4)
    requires p == pos + 14 && TablesRest(data, p, lits, dists, n, t)
    ensures TablesAre(data, pos, t)
  {
    assert Open(BlockHeader, 0) && Open(Meaning, 0);
  }

  // --- whole streams ---

  /** A stream of one dynamic block. */
  function DynamicStream(header: seq<nat>, parts: seq<seq<nat>>): seq<nat> {
    [1] + ([0, 1] + (header + Concat(parts)))
  }

  /** The three bits in front of a final dynamic block. */
  lemma FinalDynamic(data: seq<Byte>, pos: nat, final: seq<nat>, kind: seq<nat>)
    requires final == [1] && kind == [0, 1] && Spelled(data, pos, final) && Spelled(data, pos + 1, kind)
    ensures Take(data, pos, 1) == 1 && Take(data, pos + 1, 2) == 2
  {
    Pow2Values();
    assert NumberBits(1, 1) == [1] + NumberBits(0, 0) == [1];
    assert NumberBits(2, 2) == [0] + NumberBits(1, 1) == [0, 1];
    NumberRead(data, pos, 1, 1);
    NumberRead(data, pos + 1, 2, 2);
  }

  lemma StreamParts(data: seq<Byte>, pos: nat, header: seq<nat>, parts: seq<seq<nat>>, p: nat, q: nat)
    requires Spelled(data, pos, DynamicStream(header, parts)) && p == pos + 3 && q == p + |header|
    ensures Take(data, pos, 1) == 1 && Take(data, pos + 1, 2) == 2 && pos + 3 <= 8 * |data|
    ensures Spelled(data, p, header) && Spelled(data, q, Concat(parts))
    ensures pos + |DynamicStream(header, parts)| == q + |Concat(parts)|
  {
    var final, kind, bits := [1], [0, 1], Concat(parts);
    SpelledThree(data, pos, final, kind, header + bits, pos + 1, p);
    SpelledSplit(data, p, header, bits);
    FinalDynamic(data, pos, final, kind);
  }

  /** The last block of a stream, with codes of its own. */
  lemma LastDynamic(data: seq<Byte>, pos: nat, out: seq<Byte>, t: Tables, p: nat, r: Progress)
    requires p == pos + 3 <= 8 * |data| && Take(data, pos, 1) == 1 && Take(data, pos + 1, 2) == 2 && r.At? && t.Tables?
    requires TablesAre(data, p, t) && SymbolsAre(t.lit, t.dist, data, t.pos, out, r)
    ensures BlocksAre(data, pos, out, r)
  {
    assert Open(Meaning, 0) && Open(BlockHeader, 0);
    assert Block(2, data, p, out) == r;
  }

  lemma BothBits(a: seq<nat>, b: seq<nat>)
    requires AllBits(a) && AllBits(b)
    ensures AllBits(a + b)
  {
  }

  lemma DynamicBits(lit: seq<nat>, dist: seq<nat>, header: seq<nat>, ts: seq<Token>, parts: seq<seq<nat>>,
                    outs: seq<seq<Byte>>)
    requires 256 < |lit| && Spells(lit, dist, ts, parts, outs) && AllBits(header)
    ensures AllBits(DynamicStream(header, parts))
  {
    forall i | 0 <= i < |parts| ensures AllBits(parts[i]) {
      if i < |ts| { TokenIsBits(lit, dist, ts[i]); }
    }
    ConcatBits(parts);
    BothBits(header, Concat(parts));
    BothBits([0, 1], header + Concat(parts));
    BothBits([1], [0, 1] + (header + Concat(parts)));
  }

  lemma HeaderIsBits(lits: nat, dists: nat, clen: seq<nat>, n: nat, ts: seq<LenToken>, parts: seq<seq<nat>>,
                     accs: seq<seq<nat>>)
    requires 257 <= lits <= 288 && 1 <= dists <= 32 && 4 <= n <= 19 && |clen| == 19 && Lists(clen, ts, parts, accs)
    ensures AllBits(Header(lits, dists, clen, n, parts))
  {
    forall i | 0 <= i < |parts| ensures AllBits(parts[i]) { assert Sendable(clen, ts[i]); }
    ConcatBits(parts);
    BothBits(FieldBits(clen, n), Concat(parts));
    BothBits(CountBits(lits, dists, n), FieldBits(clen, n) + Concat(parts));
  }

  /** A spelled block, anywhere in a stream: tokens in any two codes, behind any header
      that spells those codes, decode to exactly what the tokens mean. */
  lemma DynamicRead(data: seq<Byte>, pos: nat, lit: seq<nat>, dist: seq<nat>, clen: seq<nat>, n: nat,
                    lts: seq<LenToken>, lparts: seq<seq<nat>>, accs: seq<seq<nat>>, header: seq<nat>,
                    ts: seq<Token>, parts: seq<seq<nat>>, outs: seq<seq<Byte>>, r: Progress)
    requires HeaderOk(lit, dist, clen, n, lts, lparts, accs) && header == Header(|lit|, |dist|, clen, n, lparts)
    requires Coded(lit, 256) && Spells(lit, dist, ts, parts, outs)
    requires Spelled(data, pos, DynamicStream(header, parts))
    requires r == At(pos + |DynamicStream(header, parts)|, outs[|ts|])
    ensures BlocksAre(data, pos, outs[0], r)
  {
    var p, q := pos + 3, pos + 3 + |header|;
    StreamParts(data, pos, header, parts, p, q);
    HeaderBack(data, p, lit, dist, clen, n, lts, lparts, accs, header);
    BlockRead(lit, dist, data, q, ts, parts, outs, r);
    LastDynamic(data, pos, outs[0], Tables(lit, dist, q), p, r);
  }

  /** Round trip: such a block packed into bytes. */
  lemma DynamicRoundTrip(lit: seq<nat>, dist: seq<nat>, clen: seq<nat>, n: nat, lts: seq<LenToken>,
                         lparts: seq<seq<nat>>, accs: seq<seq<nat>>, header: seq<nat>,
                         ts: seq<Token>, parts: seq<seq<nat>>, outs: seq<seq<Byte>>, bits: seq<nat>)
    requires HeaderOk(lit, dist, clen, n, lts, lparts, accs) && header == Header(|lit|, |dist|, clen, n, lparts)
    requires Coded(lit, 256) && Spells(lit, dist, ts, parts, outs) && outs[0] == []
    requires bits == DynamicStream(header, parts)
    ensures Blocks(PackBits(bits), 0, []) == At(|bits|, outs[|ts|])
  {
    PackedSpelled(lit, dist, clen, n, lts, lparts, accs, header, ts, parts, outs, bits);
    PackedRead(PackBits(bits), 0, lit, dist, clen, n, lts, lparts, accs, header, ts, parts, outs, bits);
  }

  lemma PackedSpelled(lit: seq<nat>, dist: seq<nat>, clen: seq<nat>, n: nat, lts: seq<LenToken>,
                      lparts: seq<seq<nat>>, accs: seq<seq<nat>>, header: seq<nat>,
                      ts: seq<Token>, parts: seq<seq<nat>>, outs: seq<seq<Byte>>, bits: seq<nat>)
    requires HeaderOk(lit, dist, clen, n, lts, lparts, accs) && header == Header(|lit|, |dist|, clen, n, lparts)
    requires Spells(lit, dist, ts, parts, outs) && bits == DynamicStream(header, parts)
    ensures Spelled(PackBits(bits), 0, bits)
  {
    HeaderIsBits(|lit|, |dist|, clen, n, lts, lparts, accs);
    DynamicBits(lit, dist, header, ts, parts, outs);
    PackedIsSpelled(bits);
  }

  lemma PackedRead(data: seq<Byte>, pos: nat, lit: seq<nat>, dist: seq<nat>, clen: seq<nat>, n: nat,
                   lts: seq<LenToken>, lparts: seq<seq<nat>>, accs: seq<seq<nat>>, header: seq<nat>,
                   ts: seq<Token>, parts: seq<seq<nat>>, outs: seq<seq<Byte>>, bits: seq<nat>)
    requires HeaderOk(lit, dist, clen, n, lts, lparts, accs) && header == Header(|lit|, |dist|, clen, n, lparts)
    requires Coded(lit, 256) && Spells(lit, dist, ts, parts, outs)
    requires bits == DynamicStream(header, parts) && Spelled(data, pos, bits)
    ensures Blocks(data, pos, outs[0]) == At(pos + |bits|, outs[|ts|])
  {
    var r := At(pos + |bits|, outs[|ts|]);
    DynamicRead(data, pos, lit, dist, clen, n, lts, lparts, accs, header, ts, parts, outs, r);
    BlocksIs(data, pos, outs[0], r);
  }

  // --- every pair of codes has a header ---

  /** Four bits for each of the sixteen lengths, and no repeat symbols. */
  function Flat(): (r: seq<nat>)
    ensures |r| == 19 && forall s | 0 <= s < 19 :: r[s] == if s < 16 then 4 else 0
  {
    seq(19, s => if s < 16 then 4 else 0)
  }

  lemma FlatOk()
    ensures ClenOk(Flat(), 19)
  {
    Pow2Values();
    KraftRun(Flat(), 0, 16, 4, 2048);
    assert KraftSum(Flat(), 17) == KraftSum(Flat(), 16) == 32768;
    assert KraftSum(Flat(), 18) == 32768 && KraftSum(Flat(), 19) == 32768;
  }

  function Ones(v: seq<nat>): (r: seq<LenToken>)
    ensures |r| == |v| && forall i | 0 <= i < |v| :: r[i] == One(v[i])
  {
    seq(|v|, i requires 0 <= i < |v| => One(v[i]))
  }

  function FlatParts(v: seq<nat>): (r: seq<seq<nat>>)
    requires Lengths(v)
    ensures |r| == |v| && forall i | 0 <= i < |v| :: r[i] == LenBits(Flat(), One(v[i]))
  {
    seq(|v|, i requires 0 <= i < |v| => LenBits(Flat(), One(v[i])))
  }

  function Firsts(v: seq<nat>): (r: seq<seq<nat>>)
    ensures |r| == |v| + 1 && forall i | 0 <= i <= |v| :: r[i] == v[..i]
  {
    seq(|v| + 1, i requires 0 <= i <= |v| => v[..i])
  }

  /** Any two codes of the right sizes can be spelled, length by length. */
  lemma FlatHeader(lit: seq<nat>, dist: seq<nat>)
    requires 257 <= |lit| <= 288 && 1 <= |dist| <= 32 && NotOverSubscribed(lit) && NotOverSubscribed(dist)
    ensures Lengths(lit + dist)
    ensures HeaderOk(lit, dist, Flat(), 19, Ones(lit + dist), FlatParts(lit + dist), Firsts(lit + dist))
  {
    FlatOk();
    var v := lit + dist;
    forall i | 0 <= i < |v| ensures Extends(Ones(v)[i], Firsts(v)[i], Firsts(v)[i + 1]) {
      assert v[..i + 1] == v[..i] + [v[i]];
    }
    assert v[..|v|] == v;
  }

  /** So every sequence of tokens, in every two codes, has a stream that decodes to it. */
  lemma AnyCodesRoundTrip(lit: seq<nat>, dist: seq<nat>, ts: seq<Token>, parts: seq<seq<nat>>, outs: seq<seq<Byte>>)
    requires 257 <= |lit| <= 288 && 1 <= |dist| <= 32 && NotOverSubscribed(lit) && NotOverSubscribed(dist)
    requires Coded(lit, 256) && Spells(lit, dist, ts, parts, outs) && outs[0] == []
    ensures Lengths(lit + dist)
    ensures var bits := DynamicStream(Header(|lit|, |dist|, Flat(), 19, FlatParts(lit + dist)), parts);
            Blocks(PackBits(bits), 0, []) == At(|bits|, outs[|ts|])
  {
    FlatHeader(lit, dist);
    var v := lit + dist;
    var header := Header(|lit|, |dist|, Flat(), 19, FlatParts(v));
    DynamicRoundTrip(lit, dist, Flat(), 19, Ones(v), FlatParts(v), Firsts(v), header, ts, parts, outs,
                     DynamicStream(header, parts));
  }
}
