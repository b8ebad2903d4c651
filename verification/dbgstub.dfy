/** The debug stub's packets: `$payload#cs`, with a two-digit hexadecimal checksum, as
    the GDB Remote Serial Protocol frames them. */
module DbgStub {
  import opened Words
  import opened Machine
  import opened Numbers

  const PACKET_SIZE := 4096
  const BUFFER_SIZE := 4112

  const INTERRUPT: Byte := 3
  const HASH: Byte := 35
  const DOLLAR: Byte := 36
  const PERCENT: Byte := 37
  const PLUS: Byte := 43
  const MINUS: Byte := 45
  const ESCAPE: Byte := 125

  lemma Characters()
    ensures [HASH, DOLLAR, PERCENT, PLUS, MINUS, ESCAPE] == Text("#$%+-}")
  {
  }

  /** Bytes a payload may contain. */
  predicate Permitted(c: Byte) {
    c != 0 && c != INTERRUPT && c != HASH && c != DOLLAR && c != ESCAPE
  }

  ghost predicate Payload(p: seq<Byte>) {
    forall i | 0 <= i < |p| :: Permitted(p[i])
  }

  function Checksum(p: seq<Byte>): (r: nat)
    ensures r < 256
  {
    if p == [] then 0 else (p[|p| - 1] + Checksum(p[..|p| - 1])) % 256
  }

  /** The checksum is the sum of the bytes modulo 256: nothing else is counted. */
  lemma {:induction false} ChecksumSums(p: seq<Byte>, q: seq<Byte>)
    ensures Checksum(p + q) == (Checksum(p) + Checksum(q)) % 256
    decreases |q|
  {
    if q == [] {
      assert p + q == p;
    } else {
      var k := |q| - 1;
      ChecksumSums(p, q[..k]);
      assert (p + q)[..|p + q| - 1] == p + q[..k];
      SumShift(q[k], Checksum(p), Checksum(q[..k]));
    }
  }

  lemma ChecksumNext(str: seq<Byte>, i: nat)
    requires i < |str|
    ensures str[..i + 1] == str[..i] + [str[i]] && Checksum(str[..i + 1]) == (Checksum(str[..i]) + str[i]) % 256
  {
    assert str[..i + 1][..i] == str[..i];
  }

  lemma ChecksumOfFew(b: Byte)
    ensures Checksum([]) == 0 && Checksum([b]) == b
  {
    assert [b][..0] == [];
  }

  lemma SumShift(b: Byte, x: nat, y: nat)
    ensures (b + (x + y) % 256) % 256 == (x + (b + y) % 256) % 256
  {
  }

  /** Two frames of the protocol, byte for byte: `$OK#9a` and `$?#3f`. */
  lemma KnownFrames()
    ensures Framed(Text("OK")) == Text("$OK#9a") && Framed(Text("?")) == Text("$?#3f")
  {
    ChecksumSums(['O' as int], ['K' as int]);
    ChecksumOfFew('O' as int);
    ChecksumOfFew('K' as int);
    ChecksumOfFew('?' as int);
    assert Text("OK") == ['O' as int] + ['K' as int] && Text("?") == ['?' as int];
  }

  /** A text as its bytes. */
  function Text(s: string): (r: seq<Byte>)
    requires forall i | 0 <= i < |s| :: s[i] as int < 256
    ensures |r| == |s| && forall i | 0 <= i < |s| :: r[i] == s[i] as int
  {
    seq(|s|, i requires 0 <= i < |s| => s[i] as int)
  }

  function HexChar(d: nat): Byte
    requires d < 16
  {
    DigitChar(d, 32)
  }

  /** The frame of a payload. */
  function Framed(p: seq<Byte>): seq<Byte> {
    [DOLLAR] + p + [HASH, HexChar(Checksum(p) / 16), HexChar(Checksum(p) % 16)]
  }

  /** The receiver's global state. */
  datatype State = State(recv: seq<Byte>, index: nat, middle: bool, end: bool, count: nat)

  datatype Event = Quiet | Packet | Break | Resend | Panic

  /** What holds between any two bytes, in or out of a packet.  Behind a `#`, `count` is the
      number of bytes stored from it on. */
  ghost predicate StateOk(s: State) {
    && |s.recv| == BUFFER_SIZE && s.index <= PACKET_SIZE && s.count < 3
    && (s.end ==> 1 <= s.count <= s.index && s.recv[s.index - s.count] == HASH)
  }

  function Start(s: State): State {
    s.(end := false, middle := true, index := 0)
  }

  /** How a byte changes the state before it is stored. */
  function Mode(s: State, c: Byte): State {
    if c == DOLLAR || (c == PERCENT && !s.middle) then Start(s)
    else if c == HASH then s.(end := true, middle := false, count := 0)
    else s
  }

  function Stored(s: State, c: Byte): (State, Event)
    requires s.index < |s.recv| - 2
  {
    var t := s.(recv := s.recv[s.index := c], index := s.index + 1,
                count := (s.count + (if s.end then 1 else 0)) % 256);
    if t.count == 3 then (State(t.recv[t.index + 1 := 0], 0, false, false, 0), Packet)
    else (t, Quiet)
  }

  /** One received byte. */
  function Step(s: State, c: Byte): (State, Event)
    requires |s.recv| == BUFFER_SIZE && s.index <= PACKET_SIZE
  {
    if s.index == PACKET_SIZE then (s, Panic)
    else if c == INTERRUPT then (s, if s.middle then Quiet else Break)
    else if c == PLUS && !s.middle then (s, Quiet)
    else if c == MINUS && !s.middle then (s, Resend)
    else if c == ESCAPE then (s, Panic)
    else Stored(Mode(s, c), c)
  }

  lemma StepKeeps(s: State, c: Byte)
    requires StateOk(s)
    ensures StateOk(Step(s, c).0)
  {
  }

  /** A completed packet that starts like one has its `#` and two more bytes in the buffer. */
  lemma PacketHasHash(s: State, c: Byte)
    requires StateOk(s) && Step(s, c).1 == Packet
    ensures HashInside(Step(s, c).0.recv)
  {
    var buf := Step(s, c).0.recv;
    var h := s.index - 2;
    assert s.end && c != HASH && s.count == 2 && buf[h] == HASH;
    if h > 0 { FirstHash(buf, 1, h); }
  }

  /** If the first byte opens a packet, a `#` follows with two bytes behind it. */
  ghost predicate HashInside(buf: seq<Byte>) {
    |buf| == BUFFER_SIZE && (buf[0] == DOLLAR || buf[0] == PERCENT ==> HashAt(buf, 1) + 2 < BUFFER_SIZE)
  }

  lemma {:induction false} FirstHash(buf: seq<Byte>, i: nat, h: nat)
    requires i <= h < |buf| && buf[h] == HASH
    ensures HashAt(buf, i) <= h
    decreases h - i
  {
    if buf[i] != HASH { FirstHash(buf, i + 1, h); }
  }

  /** The stub: its receive state and what it has sent. */
  class Stub {
    const recv: array<Byte>
    const sent: array<Byte>
    var index: nat
    var middle: bool
    var end: bool
    var count: nat
    var wire: seq<Byte>

    ghost function Now(): State
      reads this, recv
    {
      State(recv[..], index, middle, end, count)
    }

    constructor ()
      ensures StateOk(Now()) && fresh(recv) && fresh(sent) && recv != sent && sent.Length == BUFFER_SIZE && wire == []
    {
      recv := new Byte[BUFFER_SIZE];
      sent := new Byte[BUFFER_SIZE];
      index, middle, end, count, wire := 0, false, false, 0, [];
    }

    /** Receives one byte. */
    method Rx(c: Byte) returns (e: Event)
      requires StateOk(Now())
      modifies `index, `middle, `end, `count, recv
      ensures StateOk(Now()) && (Now(), e) == Step(old(Now()), c)
    {
      ghost var s := Now();
      StepKeeps(s, c);
      if index == PACKET_SIZE { return Panic; }
      if c == INTERRUPT { return if middle then Quiet else Break; }
      if c == PLUS && !middle { return Quiet; }
      if c == MINUS && !middle { return Resend; }
      if c == ESCAPE { return Panic; }
      if c == DOLLAR || (c == PERCENT && !middle) {
        end, middle, index := false, true, 0;
      } else if c == HASH {
        end, middle, count := true, false, 0;
      }
      assert Now() == Mode(s, c);
      e := Store(c);
    }

    /** Appends a byte to the buffer; the third from the `#` on completes a packet. */
    method Store(c: Byte) returns (e: Event)
      requires recv.Length == BUFFER_SIZE && index < PACKET_SIZE && count < 3
      modifies `index, `middle, `end, `count, recv
      ensures (Now(), e) == Stored(old(Now()), c) && index <= PACKET_SIZE && count < 3
    {
      recv[index] := c;
      index := index + 1;
      if end { count := count + 1; }
      if count == 3 {
        recv[index + 1] := 0;
        count, index, middle, end := 0, 0, false, false;
        return Packet;
      }
      return Quiet;
    }

    /** Receives one byte and checks the packet it completes, if any. */
    method Receive(c: Byte) returns (e: Event, valid: bool)
      requires StateOk(Now())
      modifies `index, `middle, `end, `count, recv
      ensures StateOk(Now()) && (Now(), e) == Step(old(Now()), c)
      ensures valid <==> e == Packet && Accepts(Now().recv)
    {
      ghost var s := Now();
      e := Rx(c);
      valid := false;
      if e == Packet {
        PacketHasHash(s, c);
        valid := Validate();
      }
    }

    /** Frames a string, keeps the frame as a string of its own and sends it.  The string
        ends at its first NUL; that it fits is left to the caller. */
    method Send(str: seq<Byte>)
      requires sent.Length == BUFFER_SIZE && |CString(str)| + 5 <= BUFFER_SIZE
      modifies `wire, sent
      ensures wire == old(wire) + Framed(CString(str))
      ensures sent[..|CString(str)| + 5] == Framed(CString(str)) + [0]
      ensures forall k | |CString(str)| + 5 <= k < BUFFER_SIZE :: sent[k] == old(sent[k])
    {
      ghost var p := CString(str);
      var i, checksum := SendPayload(str);
      SendTail(i, checksum);
      assert [DOLLAR] + p + [HASH, HexChar(checksum / 16), HexChar(checksum % 16), 0] == Framed(p) + [0];
      assert old(wire) + ([DOLLAR] + p) + [HASH, HexChar(checksum / 16), HexChar(checksum % 16)]
           == old(wire) + Framed(p);
    }

    /** The start of a frame, up to the end of the payload. */
    method SendPayload(str: seq<Byte>) returns (i: nat, checksum: nat)
      requires sent.Length == BUFFER_SIZE && |CString(str)| + 5 <= BUFFER_SIZE
      modifies `wire, sent
      ensures i == |CString(str)| && checksum == Checksum(CString(str))
      ensures wire == old(wire) + ([DOLLAR] + CString(str)) && sent[..i + 1] == [DOLLAR] + CString(str)
      ensures forall k | i + 1 <= k < BUFFER_SIZE :: sent[k] == old(sent[k])
    {
      checksum, i := 0, 0;
      sent[0] := DOLLAR;
      wire := wire + [DOLLAR];
      while i < |str| && str[i] != 0
        invariant i <= |str| && checksum == Checksum(str[..i]) && wire == old(wire) + ([DOLLAR] + str[..i])
        invariant (forall k | 0 <= k < i :: str[k] != 0) && i + 5 <= BUFFER_SIZE
        invariant sent[..i + 1] == [DOLLAR] + str[..i]
        invariant forall k | i + 1 <= k < BUFFER_SIZE :: sent[k] == old(sent[k])
      {
        CStringAtLeast(str, i);
        ChecksumNext(str, i);
        var b: nat := str[i];
        checksum := (checksum + b) % 256;
        SendByte(str[i], i);
        i := i + 1;
      }
      CStringIs(str, i);
    }

    /** One byte of the payload. */
    method SendByte(b: Byte, i: nat)
      requires sent.Length == BUFFER_SIZE && i + 1 < BUFFER_SIZE
      modifies `wire, sent
      ensures wire == old(wire) + [b] && sent[..i + 2] == old(sent[..i + 1]) + [b]
      ensures forall k | i + 2 <= k < BUFFER_SIZE :: sent[k] == old(sent[k])
    {
      sent[i + 1] := b;
      wire := wire + [b];
      assert sent[..i + 2] == sent[..i + 1] + [b];
    }

    /** The end of a frame, with a NUL behind it. */
    method SendTail(i: nat, checksum: nat)
      requires sent.Length == BUFFER_SIZE && i + 5 <= BUFFER_SIZE && checksum < 256
      modifies `wire, sent
      ensures wire == old(wire) + [HASH, HexChar(checksum / 16), HexChar(checksum % 16)]
      ensures sent[..i + 5] == old(sent[..i + 1]) + [HASH, HexChar(checksum / 16), HexChar(checksum % 16), 0]
      ensures forall k | i + 5 <= k < BUFFER_SIZE :: sent[k] == old(sent[k])
    {
      sent[i + 1], sent[i + 2], sent[i + 3], sent[i + 4] := HASH, HexChar(checksum / 16), HexChar(checksum % 16), 0;
      wire := wire + [HASH, HexChar(checksum / 16), HexChar(checksum % 16)];
      assert sent[..i + 1] == old(sent[..i + 1]);
    }

    /** A `-` outside a packet sends the send buffer as a string, into that same buffer: the
        byte read is always the one just written, so the loop's test for NUL never fires
        and the buffer fills up without an end in sight. */
    method SendAgain()
      requires sent.Length == BUFFER_SIZE
      modifies `wire, sent
      ensures forall k | 0 <= k < BUFFER_SIZE :: sent[k] == DOLLAR
      ensures sent[BUFFER_SIZE - 1] != 0
    {
      var i := 0;
      sent[i] := DOLLAR;
      wire := wire + [DOLLAR];
      while i + 1 < BUFFER_SIZE
        invariant i < BUFFER_SIZE && forall k | 0 <= k <= i :: sent[k] == DOLLAR
      {
        assert sent[i] != 0;
        sent[i + 1] := sent[i];
        wire := wire + [sent[i]];
        i := i + 1;
      }
    }

    /** Checks the packet in the buffer. */
    method Validate() returns (ok: bool)
      requires HashInside(recv[..])
      ensures ok == Accepts(recv[..])
    {
      if recv[0] != DOLLAR && recv[0] != PERCENT { return false; }
      var sum: nat := 0;
      var i := 1;
      while recv[i] != HASH
        invariant 1 <= i < BUFFER_SIZE - 2 && sum == Checksum(recv[1..i]) && HashAt(recv[..], i) == HashAt(recv[..], 1)
        decreases BUFFER_SIZE - i
      {
        assert recv[1..i + 1][..i - 1] == recv[1..i];
        var b: nat := recv[i];
        sum := (sum + b) % 256;
        i := i + 1;
      }
      return sum == StrToLl([recv[i + 1], recv[i + 2]]) % WORD;
    }
  }

  /** A C string: what comes before the first NUL. */
  function CString(str: seq<Byte>): seq<Byte> {
    if str == [] || str[0] == 0 then [] else [str[0]] + CString(str[1..])
  }

  lemma {:induction false} CStringAtLeast(str: seq<Byte>, i: nat)
    requires i < |str| && forall k | 0 <= k <= i :: str[k] != 0
    ensures |CString(str)| > i
    decreases i
  {
    if i > 0 { CStringAtLeast(str[1..], i - 1); }
  }

  lemma {:induction false} CStringIs(str: seq<Byte>, i: nat)
    requires i <= |str| && (forall k | 0 <= k < i :: str[k] != 0) && (i < |str| ==> str[i] == 0)
    ensures CString(str) == str[..i]
    decreases i
  {
    if i > 0 {
      CStringIs(str[1..], i - 1);
      assert str[..i] == [str[0]] + str[1..][..i - 1];
    }
  }

  /** The first `#` at or after `i`; the buffer's length if there is none. */
  function HashAt(buf: seq<Byte>, i: nat): (r: nat)
    ensures i <= |buf| ==> i <= r <= |buf|
    decreases |buf| - i
  {
    if i >= |buf| then |buf| else if buf[i] == HASH then i else HashAt(buf, i + 1)
  }

  /** Two characters as a signed hexadecimal number. */
  function StrToLl(str: seq<Byte>): int {
    if str != [] && str[0] == MINUS then 0 - Horner(0, str[1..], 16)
    else if str != [] && str[0] == PLUS then Horner(0, str[1..], 16)
    else Horner(0, str, 16)
  }

  predicate Accepts(buf: seq<Byte>) {
    var h := HashAt(buf, 1);
    && 1 <= h && h + 2 < |buf| && (buf[0] == DOLLAR || buf[0] == PERCENT)
    && SumIs(buf[1..h], [buf[h + 1], buf[h + 2]])
  }

  predicate SumIs(p: seq<Byte>, digits: seq<Byte>) {
    Checksum(p) == StrToLl(digits) % WORD
  }

  /** What feeding bytes one by one leads to: the final state, the buffer at each
      packet processed, and whether nothing else happened. */
  datatype Outcome = Outcome(state: State, packets: seq<seq<Byte>>, clean: bool)

  ghost function Feed(s: State, bytes: seq<Byte>): Outcome
    requires StateOk(s)
    decreases |bytes|
  {
    if bytes == [] then Outcome(s, [], true)
    else
      StepKeeps(s, bytes[0]);
      var (t, e) := Step(s, bytes[0]);
      var o := Feed(t, bytes[1..]);
      Outcome(o.state, (if e.Packet? then [t.recv] else []) + o.packets, o.clean && (e.Quiet? || e.Packet?))
  }

  /** Bytes that only fill the buffer. */
  lemma {:induction false} FeedPayload(s: State, p: seq<Byte>, rest: seq<Byte>, before: seq<Byte>) returns (u: State)
    requires StateOk(s) && s.middle && !s.end && Payload(p) && s.index == |before| && s.recv[..s.index] == before
    requires s.index + |p| < PACKET_SIZE
    ensures AfterPayload(s, p, before, u) && Feed(s, p + rest) == Feed(u, rest)
    decreases |p|
  {
    if p == [] {
      assert p + rest == rest && before + p == before;
      u := s;
    } else {
      var t := Step(s, p[0]).0;
      assert t.recv[..t.index] == before + [p[0]];
      u := FeedPayload(t, p[1..], rest, before + [p[0]]);
      assert (p + rest)[1..] == p[1..] + rest && before + [p[0]] + p[1..] == before + p;
      FeedQuiet(s, p + rest);
    }
  }

  ghost predicate AfterPayload(s: State, p: seq<Byte>, before: seq<Byte>, t: State) {
    && StateOk(t) && t.middle && !t.end && t.index == s.index + |p| == |before + p| && t.recv[..t.index] == before + p
  }

  lemma FeedQuiet(s: State, bytes: seq<Byte>)
    requires StateOk(s) && bytes != [] && Step(s, bytes[0]).1 == Quiet
    ensures StateOk(Step(s, bytes[0]).0) && Feed(s, bytes) == Feed(Step(s, bytes[0]).0, bytes[1..])
  {
    StepKeeps(s, bytes[0]);
    var o := Feed(Step(s, bytes[0]).0, bytes[1..]);
    assert [] + o.packets == o.packets;
  }

  predicate HexDigit(c: Byte) {
    DigitOf(c) < 16
  }

  /** Whatever came before, a framed payload is one packet, and the buffer holds it. */
  ghost predicate Arrives(o: Outcome, bytes: seq<Byte>) {
    && o.clean && |o.packets| == 1 && |o.packets[0]| == BUFFER_SIZE && |bytes| <= PACKET_SIZE
    && o.packets[0][..|bytes|] == bytes
    && StateOk(o.state) && o.state.index == 0 && !o.state.middle && !o.state.end
  }

  /** The three bytes behind the payload. */
  lemma FeedTail(s: State, x: Byte, y: Byte, before: seq<Byte>)
    requires StateOk(s) && s.middle && s.index == |before| && s.recv[..s.index] == before && s.index + 3 <= PACKET_SIZE
    requires HexDigit(x) && HexDigit(y)
    ensures Arrives(Feed(s, [HASH, x, y]), before + [HASH, x, y])
  {
    var s1, s2, s3 := Step(s, HASH).0, Step(Step(s, HASH).0, x).0, Step(Step(Step(s, HASH).0, x).0, y).0;
    StoreOne(s, HASH, before);
    StoreOne(s1, x, before + [HASH]);
    assert before + [HASH] + [x] == before + [HASH, x];
    StoreLast(s2, y, before + [HASH, x]);
    assert before + [HASH, x] + [y] == before + [HASH, x, y];
    FeedQuiet(s, [HASH, x, y]);
    assert [HASH, x, y][1..] == [x, y];
    FeedQuiet(s1, [x, y]);
    assert [x, y][1..] == [y];
  }

  /** A byte that is appended without completing a packet. */
  lemma StoreOne(s: State, c: Byte, before: seq<Byte>)
    requires StateOk(s) && s.index == |before| < PACKET_SIZE && s.recv[..s.index] == before
    requires c == HASH || (HexDigit(c) && s.count < 2)
    ensures var t := Step(s, c).0;
            && Step(s, c).1 == Quiet && StateOk(t) && t.index == |before| + 1 && t.recv[..t.index] == before + [c]
            && t.end == (s.end || c == HASH) && (t.end ==> t.count == if c == HASH then 1 else s.count + 1)
  {
    var t := Step(s, c).0;
    assert t.recv[..t.index] == before + [c];
  }

  lemma StoreLast(s: State, c: Byte, before: seq<Byte>)
    requires StateOk(s) && s.index == |before| < PACKET_SIZE && s.recv[..s.index] == before && s.end && s.count == 2
    requires HexDigit(c)
    ensures Arrives(Feed(s, [c]), before + [c])
  {
    var (t, e) := Step(s, c);
    assert e == Packet && t.recv[..|before| + 1] == before + [c];
    assert [c][1..] == [];
    assert Feed(t, []) == Outcome(t, [], true);
  }

  /** A `$` opens a packet anywhere, a `%` opens one outside packets. */
  predicate Opens(s: State, open: Byte) {
    open == DOLLAR || (open == PERCENT && !s.middle)
  }

  lemma StartPacket(s: State, open: Byte, rest: seq<Byte>)
    requires StateOk(s) && s.index < PACKET_SIZE && Opens(s, open)
    ensures var t := Step(s, open).0;
            && StateOk(t) && t.middle && !t.end && t.index == 1 && t.recv[..1] == [open]
            && Feed(s, [open] + rest) == Feed(t, rest)
  {
    FeedQuiet(s, [open] + rest);
    assert ([open] + rest)[1..] == rest;
  }

  lemma FrameArrives(s: State, open: Byte, p: seq<Byte>, x: Byte, y: Byte)
    requires StateOk(s) && s.index < PACKET_SIZE && Opens(s, open)
    requires Payload(p) && |p| + 4 <= PACKET_SIZE && HexDigit(x) && HexDigit(y)
    ensures Arrives(Feed(s, [open] + p + [HASH, x, y]), [open] + p + [HASH, x, y])
  {
    var t := Step(s, open).0;
    StartPacket(s, open, p + [HASH, x, y]);
    var u := FeedPayload(t, p, [HASH, x, y], [open]);
    FeedTail(u, x, y, [open] + p);
    Regroup([open], p, [HASH, x, y]);
  }

  /** Acknowledgements between packets and interrupts inside one leave no trace. */
  lemma {:induction false} NoiseIgnored(s: State, noise: seq<Byte>, rest: seq<Byte>)
    requires StateOk(s) && s.index < PACKET_SIZE
    requires forall i | 0 <= i < |noise| :: noise[i] == if s.middle then INTERRUPT else PLUS
    ensures Feed(s, noise + rest) == Feed(s, rest)
    decreases |noise|
  {
    if noise == [] {
      assert noise + rest == rest;
    } else {
      assert (noise + rest)[1..] == noise[1..] + rest;
      NoiseIgnored(s, noise[1..], rest);
    }
  }

  /** What else a byte can bring about: a break or a resend outside a packet only, and a
      panic exactly at an escape or when the buffer is full. */
  lemma Incidents(s: State, c: Byte)
    requires StateOk(s)
    ensures Step(s, c).1 == Break <==> s.index < PACKET_SIZE && c == INTERRUPT && !s.middle
    ensures Step(s, c).1 == Resend <==> s.index < PACKET_SIZE && c == MINUS && !s.middle
    ensures Step(s, c).1 == Panic <==> s.index == PACKET_SIZE || c == ESCAPE
    ensures Step(s, c).1 in {Break, Resend, Panic} ==> Step(s, c).0 == s
  {
  }

  lemma Regroup(a: seq<Byte>, b: seq<Byte>, c: seq<Byte>)
    ensures a + (b + c) == a + b + c
  {
  }

  lemma {:induction false} HashIs(buf: seq<Byte>, i: nat, h: nat)
    requires i <= h < |buf| && buf[h] == HASH && forall k | i <= k < h :: buf[k] != HASH
    ensures HashAt(buf, i) == h
    decreases h - i
  {
    if i < h { HashIs(buf, i + 1, h); }
  }

  lemma HexPair(x: Byte, y: Byte)
    requires HexDigit(x) && HexDigit(y)
    ensures StrToLl([x, y]) == 16 * DigitOf(x) + DigitOf(y)
  {
    assert [x, y][1..] == [y];
    assert [y][1..] == [];
    assert Horner(DigitOf(x), [y], 16) == 16 * DigitOf(x) + DigitOf(y);
  }

  /** A packet is accepted exactly when the two digits are the payload's checksum. */
  lemma AcceptedIff(buf: seq<Byte>, p: seq<Byte>, x: Byte, y: Byte)
    requires |buf| == BUFFER_SIZE && Payload(p) && |p| + 4 <= PACKET_SIZE && HexDigit(x) && HexDigit(y)
    requires buf[..|p| + 4] == [DOLLAR] + p + [HASH, x, y]
    ensures HashAt(buf, 1) == |p| + 1 && buf[1..|p| + 1] == p
    ensures Accepts(buf) <==> Checksum(p) == 16 * DigitOf(x) + DigitOf(y)
  {
    BufferIs(buf, p, x, y);
    HashIs(buf, 1, |p| + 1);
    assert Accepts(buf) <==> SumIs(p, [x, y]);
    SumPair(p, x, y);
  }

  lemma SumPair(p: seq<Byte>, x: Byte, y: Byte)
    requires HexDigit(x) && HexDigit(y)
    ensures SumIs(p, [x, y]) <==> Checksum(p) == 16 * DigitOf(x) + DigitOf(y)
  {
    HexPair(x, y);
  }

  lemma BufferIs(buf: seq<Byte>, p: seq<Byte>, x: Byte, y: Byte)
    requires |buf| >= |p| + 4 && buf[..|p| + 4] == [DOLLAR] + p + [HASH, x, y]
    ensures buf[0] == DOLLAR && buf[|p| + 1] == HASH && buf[|p| + 2] == x && buf[|p| + 3] == y
    ensures buf[1..|p| + 1] == p && forall k | 1 <= k < |p| + 1 :: buf[k] == p[k - 1]
  {
    var bytes := [DOLLAR] + p + [HASH, x, y];
    forall k | 0 <= k < |p| + 4 ensures buf[k] == bytes[k] { assert buf[..|p| + 4][k] == bytes[k]; }
    assert buf[1..|p| + 1] == p;
  }

  /** Every permitted payload that fits gets through, from any state. */
  lemma SentIsAccepted(s: State, p: seq<Byte>)
    requires StateOk(s) && s.index < PACKET_SIZE && Payload(p) && |p| + 4 <= PACKET_SIZE
    ensures var o := Feed(s, Framed(p));
      Arrives(o, Framed(p)) && Accepts(o.packets[0]) && o.packets[0][1..HashAt(o.packets[0], 1)] == p
  {
    var c := Checksum(p);
    DigitBack(c / 16, 32);
    DigitBack(c % 16, 32);
    FrameArrives(s, DOLLAR, p, HexChar(c / 16), HexChar(c % 16));
    AcceptedIff(Feed(s, Framed(p)).packets[0], p, HexChar(c / 16), HexChar(c % 16));
  }

  lemma {:induction false} ChecksumChanges(p: seq<Byte>, i: nat, b: Byte)
    requires i < |p| && b != p[i]
    ensures Checksum(p[i := b]) != Checksum(p)
    decreases |p|
  {
    var k := |p| - 1;
    var q := p[i := b];
    if i == k {
      assert q[..k] == p[..k];
      SumsDiffer(b, Checksum(p[..k]), p[i], Checksum(p[..k]));
    } else {
      assert q[..k] == p[..k][i := b];
      ChecksumChanges(p[..k], i, b);
      SumsDiffer(p[k], Checksum(q[..k]), p[k], Checksum(p[..k]));
    }
  }

  lemma SumsDiffer(x: Byte, c: nat, y: Byte, d: nat)
    requires c < 256 && d < 256 && ((x == y && c != d) || (x != y && c == d))
    ensures (x + c) % 256 != (y + d) % 256
  {
  }

  /** One altered payload byte is always noticed. */
  lemma AlteredIsRejected(s: State, p: seq<Byte>, i: nat, b: Byte)
    requires StateOk(s) && s.index < PACKET_SIZE && Payload(p) && |p| + 4 <= PACKET_SIZE
    requires i < |p| && Permitted(b) && b != p[i]
    ensures var o := Feed(s, Framed(p)[i + 1 := b]);
      Arrives(o, Framed(p)[i + 1 := b]) && !Accepts(o.packets[0])
  {
    var c, q := Checksum(p), p[i := b];
    var x, y := HexChar(c / 16), HexChar(c % 16);
    assert Framed(p)[i + 1 := b] == [DOLLAR] + q + [HASH, x, y];
    DigitBack(c / 16, 32);
    DigitBack(c % 16, 32);
    FrameArrives(s, DOLLAR, q, x, y);
    AcceptedIff(Feed(s, Framed(p)[i + 1 := b]).packets[0], q, x, y);
    ChecksumChanges(p, i, b);
  }
}
