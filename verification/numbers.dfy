/** Numbers as text: the digit loop of the printer and the parser of the C library. */
module Numbers {
  import opened Words
  import opened Machine

  /** The conversion buffer of the printer. */
  const BUFFER := 23

  /** The bases and letter cases the printer uses. */
  predicate Printable(base: nat, caseAdj: nat) {
    (base == 8 || base == 10 || base == 16) && (caseAdj == 0 || caseAdj == 32)
  }

  function DigitChar(d: nat, caseAdj: nat): Byte
    requires d < 16 && caseAdj <= 32
  {
    if d < 10 then 48 + d else 65 - 10 + caseAdj + d
  }

  /** A letter or digit as a number; 99 for any other character. */
  function DigitOf(c: Byte): nat {
    if 48 <= c <= 57 then c - 48
    else if 97 <= c <= 122 then c - 97 + 10
    else if 65 <= c <= 90 then c - 65 + 10
    else 99
  }

  /** Digits 0 to 9, then letters from `A` on, or from `a` on with the case bit. */
  lemma DigitChars(d: nat)
    requires d < 16
    ensures d < 10 ==> DigitChar(d, 0) == DigitChar(d, 32) == '0' as int + d
    ensures d >= 10 ==> DigitChar(d, 0) == 'A' as int + (d - 10) && DigitChar(d, 32) == 'a' as int + (d - 10)
  {
  }

  lemma DigitBack(d: nat, caseAdj: nat)
    requires d < 16 && (caseAdj == 0 || caseAdj == 32)
    ensures DigitOf(DigitChar(d, caseAdj)) == d && DigitChar(d, caseAdj) != 0
  {
  }

  /** Quotient and remainder by one of the printer's bases. */
  function Quo(val: nat, base: nat): (q: nat)
    requires base == 8 || base == 10 || base == 16
    ensures q <= val && (val > 0 ==> q < val)
  {
    if base == 8 then val / 8 else if base == 10 then val / 10 else val / 16
  }

  function Rem(val: nat, base: nat): (r: nat)
    requires base == 8 || base == 10 || base == 16
    ensures r < base
  {
    if base == 8 then val % 8 else if base == 10 then val % 10 else val % 16
  }

  lemma Recombine(val: nat, base: nat)
    requires base == 8 || base == 10 || base == 16
    ensures Quo(val, base) == val / base && Rem(val, base) == val % base
    ensures Quo(val, base) * base + Rem(val, base) == val
  {
  }

  /** The digits of a value, least significant first. */
  function DigitsRev(val: nat, base: nat, caseAdj: nat): (r: seq<Byte>)
    requires Printable(base, caseAdj)
    ensures |r| > 0
    decreases val, base
  {
    var d := DigitChar(Rem(val, base), caseAdj);
    if Quo(val, base) == 0 then [d] else [d] + DigitsRev(Quo(val, base), base, caseAdj)
  }

  /** A base-`b` number of `n` digits stays below `b` to the `n`. */
  function Power(base: nat, n: nat): nat {
    if n == 0 then 1 else base * Power(base, n - 1)
  }

  lemma {:induction false} DigitCount(val: nat, base: nat, caseAdj: nat, n: nat)
    requires Printable(base, caseAdj) && n > 0 && val < Power(base, n)
    ensures |DigitsRev(val, base, caseAdj)| <= n
    decreases n
  {
    if Quo(val, base) > 0 {
      QuotientBound(val, base, Power(base, n - 1));
      assert n > 1;
      DigitCount(Quo(val, base), base, caseAdj, n - 1);
    }
  }

  lemma QuotientBound(val: nat, base: nat, bound: nat)
    requires base == 8 || base == 10 || base == 16
    requires val < base * bound
    ensures Quo(val, base) < bound
  {
  }

  /** A 64-bit value has at most 22 digits, even in octal. */
  lemma AtMost22(val: nat, base: nat, caseAdj: nat)
    requires Printable(base, caseAdj) && val < WORD
    ensures |DigitsRev(val, base, caseAdj)| <= 22
  {
    Octal22();
    PowerMono(8, base, 22);
    DigitCount(val, base, caseAdj, 22);
  }

  lemma Octal22()
    ensures Power(8, 22) >= WORD
  {
    Power8(0);
    Power8(4);
    Power8(8);
    Power8(12);
    Power8(16);
    assert Power(8, 21) == 8 * Power(8, 20);
  }

  lemma Power8(n: nat)
    ensures Power(8, n + 4) == 4096 * Power(8, n)
  {
    assert Power(8, n + 3) == 8 * Power(8, n + 2);
    assert Power(8, n + 2) == 8 * Power(8, n + 1);
  }

  lemma {:induction false} PowerMono(a: nat, b: nat, n: nat)
    requires a <= b
    ensures Power(a, n) <= Power(b, n)
    decreases n, a
  {
    if n > 0 {
      PowerMono(a, b, n - 1);
      MulMono(a, Power(a, n - 1), b, Power(b, n - 1));
    }
  }

  lemma MulMono(a: nat, x: nat, b: nat, y: nat)
    requires a <= b && x <= y
    ensures a * x <= b * y
  {
    assert b * y == a * x + a * (y - x) + (b - a) * y;
  }

  /** The printer's digit loop. */
  method UtoaRev(value: nat, buf: array<Byte>, base: nat, caseAdj: nat) returns (n: nat)
    requires Printable(base, caseAdj) && value < WORD && buf.Length == BUFFER
    modifies buf
    ensures 1 <= n <= 22 && buf[..n] == DigitsRev(value, base, caseAdj)
    ensures forall k | n <= k < BUFFER :: buf[k] == old(buf[k])
  {
    AtMost22(value, base, caseAdj);
    ghost var total := DigitsRev(value, base, caseAdj);
    ghost var rest := total;
    n := 0;
    var val: nat := value;
    var more := true;
    while more
      invariant n <= |total| <= 22 && (!more ==> rest == []) && total == buf[..n] + rest
      invariant more ==> rest == DigitsRev(val, base, caseAdj)
      invariant forall k | n <= k < BUFFER :: buf[k] == old(buf[k])
      decreases more, val
    {
      ghost var was := buf[..n];
      var d := DigitChar(Rem(val, base), caseAdj);
      DigitsStep(val, base, caseAdj);
      buf[n] := d;
      assert buf[..n] == was && buf[..n + 1] == was + [d];
      MoveOne(total, was, d, rest);
      rest := rest[1..];
      n := n + 1;
      val := Quo(val, base);
      more := val != 0;
    }
    assert buf[..n] + [] == buf[..n];
  }

  lemma MoveOne(total: seq<Byte>, was: seq<Byte>, d: Byte, rest: seq<Byte>)
    requires total == was + rest && |rest| > 0 && rest[0] == d
    ensures total == was + [d] + rest[1..]
  {
  }

  lemma DigitsStep(val: nat, base: nat, caseAdj: nat)
    requires Printable(base, caseAdj)
    ensures var r, q := DigitsRev(val, base, caseAdj), Quo(val, base);
      && r == [DigitChar(Rem(val, base), caseAdj)] + r[1..]
      && r[1..] == if q == 0 then [] else DigitsRev(q, base, caseAdj)
  {
  }

  /** The parser's loop: digits from the left, modulo the word size, up to the first
      character that is no digit of the base. */
  function Horner(acc: nat, str: seq<Byte>, base: nat): nat
    decreases |str|
  {
    if str == [] || DigitOf(str[0]) >= base then acc
    else Horner((acc * base + DigitOf(str[0])) % WORD, str[1..], base)
  }

  /** Base 0 reads the base off a prefix. */
  function BaseOf(str: seq<Byte>, base: nat): (nat, nat) {
    if base != 0 then (base, 0)
    else if |str| >= 2 && str[0] == 48 && (str[1] == 120 || str[1] == 88) then (16, 2)
    else if |str| >= 2 && str[0] == 48 && str[1] == 111 then (8, 2)
    else if |str| >= 2 && str[0] == 48 && str[1] == 98 then (2, 2)
    else (10, 0)
  }

  function StrToUll(str: seq<Byte>, base: nat): nat {
    var (b, skip) := BaseOf(str, base);
    if skip <= |str| then Horner(0, str[skip..], b) else 0
  }

  /** Parses a string that ends with its sequence, or with a NUL inside it. */
  method Strtoull(str: seq<Byte>, base0: nat) returns (value: nat)
    requires base0 <= 36
    ensures value == StrToUll(str, base0)
  {
    var base, i := base0, 0;
    if base == 0 {
      if |str| >= 2 && str[0] == 48 && (str[1] == 120 || str[1] == 88) {
        base, i := 16, 2;
      } else if |str| >= 2 && str[0] == 48 && str[1] == 111 {
        base, i := 8, 2;
      } else if |str| >= 2 && str[0] == 48 && str[1] == 98 {
        base, i := 2, 2;
      } else {
        base := 10;
      }
    }
    value := 0;
    while i < |str| && str[i] != 0
      invariant i <= |str| && Horner(value, str[i..], base) == StrToUll(str, base0) && base <= 36
    {
      var c := str[i];
      assert str[i..][1..] == str[i + 1..];
      var digit;
      if 48 <= c <= 57 {
        digit := c - 48;
      } else if 97 <= c <= 122 {
        digit := c - 97 + 10;
      } else if 65 <= c <= 90 {
        digit := c - 65 + 10;
      } else {
        break;
      }
      if digit >= base { break; }
      value := (value * base + digit) % WORD;
      i := i + 1;
    }
  }

  function Reversed(s: seq<Byte>): (r: seq<Byte>)
    ensures |r| == |s| && forall i | 0 <= i < |s| :: r[i] == s[|s| - 1 - i]
  {
    if s == [] then [] else Reversed(s[1..]) + [s[0]]
  }

  ghost predicate AllDigits(s: seq<Byte>, base: nat) {
    forall i | 0 <= i < |s| :: DigitOf(s[i]) < base
  }

  lemma {:induction false} HornerAppend(acc: nat, p: seq<Byte>, q: seq<Byte>, base: nat)
    requires AllDigits(p, base)
    ensures Horner(acc, p + q, base) == Horner(Horner(acc, p, base), q, base)
    decreases |p|
  {
    if p == [] {
      assert p + q == q;
    } else {
      assert (p + q)[1..] == p[1..] + q;
      HornerAppend((acc * base + DigitOf(p[0])) % WORD, p[1..], q, base);
    }
  }

  /** The value of a string of digits, by their places. */
  function Positional(p: seq<Byte>, base: nat): nat {
    if p == [] then 0 else DigitOf(p[0]) * Power(base, |p| - 1) + Positional(p[1..], base)
  }

  /** The loop computes it modulo the word size. */
  lemma {:induction false} HornerValue(acc: nat, p: seq<Byte>, base: nat)
    requires AllDigits(p, base) && acc < WORD
    ensures Horner(acc, p, base) == (acc * Power(base, |p|) + Positional(p, base)) % WORD
    decreases |p|
  {
    if p != [] {
      var d, rest := DigitOf(p[0]), p[1..];
      var next := (acc * base + d) % WORD;
      HornerValue(next, rest, base);
      PlaceStep(acc, base, d, Power(base, |rest|), Positional(rest, base));
    }
  }

  lemma PlaceStep(acc: nat, base: nat, d: nat, w: nat, rest: nat)
    ensures ((acc * base + d) % WORD * w + rest) % WORD == (acc * (base * w) + (d * w + rest)) % WORD
  {
    ModularStep(acc * base + d, w, rest);
    Distribute(acc, base, d, w, rest);
  }

  lemma Distribute(acc: nat, base: nat, d: nat, w: nat, rest: nat)
    ensures (acc * base + d) * w + rest == acc * (base * w) + (d * w + rest)
  {
  }

  lemma ModularStep(x: nat, w: nat, rest: nat)
    ensures (x % WORD * w + rest) % WORD == (x * w + rest) % WORD
  {
    var q, r := x / WORD, x % WORD;
    assert x == WORD * q + r;
    Distribute(WORD, q, r, w, rest);
    AddMultiple(r * w + rest, q * w);
  }

  lemma AddMultiple(y: nat, m: nat)
    ensures (WORD * m + y) % WORD == y % WORD
  {
  }

  /** Whatever follows the first character that is no digit does not count. */
  lemma HornerStops(p: seq<Byte>, c: Byte, q: seq<Byte>, base: nat)
    requires AllDigits(p, base) && DigitOf(c) >= base
    ensures Horner(0, p + ([c] + q), base) == Horner(0, p, base) == Positional(p, base) % WORD
  {
    HornerAppend(0, p, [c] + q, base);
    HornerValue(0, p, base);
  }

  /** A number in a given base, alone or in front of any other character: its
      positional value modulo the word size. */
  lemma ParsesNumber(p: seq<Byte>, c: Byte, q: seq<Byte>, base: nat)
    requires 0 < base <= 36 && AllDigits(p, base) && DigitOf(c) >= base
    ensures StrToUll(p, base) == Positional(p, base) % WORD
    ensures StrToUll(p + [c] + q, base) == StrToUll(p, base)
  {
    HornerStops(p, c, q, base);
    assert p + [c] + q == p + ([c] + q);
    assert (p + [c] + q)[0..] == p + [c] + q && p[0..] == p;
  }

  /** The base that the two characters in front stand for; 0 if they are no prefix. */
  function PrefixBase(x: Byte, y: Byte): nat {
    if x != '0' as int then 0
    else if y == 'x' as int || y == 'X' as int then 16
    else if y == 'o' as int then 8
    else if y == 'b' as int then 2
    else 0
  }

  /** With base 0, a prefix in front of the digits gives their base. */
  lemma ParsesPrefixed(x: Byte, y: Byte, p: seq<Byte>, c: Byte, q: seq<Byte>)
    requires var b := PrefixBase(x, y); b != 0 && AllDigits(p, b) && DigitOf(c) >= b
    ensures var v := Positional(p, PrefixBase(x, y)) % WORD;
            StrToUll([x, y] + p, 0) == v && StrToUll([x, y] + p + [c] + q, 0) == v
  {
    HornerStops(p, c, q, PrefixBase(x, y));
    assert ([x, y] + p)[2..] == p;
    assert ([x, y] + p + [c] + q)[2..] == p + ([c] + q);
  }

  /** Without a prefix, base 0 means 10. */
  lemma ParsesDecimal(str: seq<Byte>)
    requires |str| >= 2 ==> PrefixBase(str[0], str[1]) == 0
    ensures StrToUll(str, 0) == StrToUll(str, 10)
  {
  }

  lemma {:induction false} RevDigits(val: nat, base: nat, caseAdj: nat)
    requires Printable(base, caseAdj)
    ensures AllDigits(Reversed(DigitsRev(val, base, caseAdj)), base)
    decreases val
  {
    DigitBack(Rem(val, base), caseAdj);
    var r := DigitsRev(val, base, caseAdj);
    if Quo(val, base) > 0 {
      RevDigits(Quo(val, base), base, caseAdj);
      assert r[1..] == DigitsRev(Quo(val, base), base, caseAdj);
    } else {
      assert r[1..] == [] && Reversed(r[1..]) == [];
    }
  }

  lemma LastDigit(val: nat, base: nat, caseAdj: nat)
    requires Printable(base, caseAdj) && val < WORD
    ensures Horner(Quo(val, base), [DigitChar(Rem(val, base), caseAdj)], base) == val
  {
    var d := DigitChar(Rem(val, base), caseAdj);
    DigitBack(Rem(val, base), caseAdj);
    Recombine(val, base);
    assert [d][1..] == [];
  }

  lemma {:induction false} HornerDigits(val: nat, base: nat, caseAdj: nat)
    requires Printable(base, caseAdj) && val < WORD
    ensures Horner(0, Reversed(DigitsRev(val, base, caseAdj)), base) == val
    decreases val, base
  {
    var r := DigitsRev(val, base, caseAdj);
    var rest := if Quo(val, base) == 0 then [] else DigitsRev(Quo(val, base), base, caseAdj);
    assert r[1..] == rest;
    LastDigit(val, base, caseAdj);
    if Quo(val, base) > 0 {
      HornerDigits(Quo(val, base), base, caseAdj);
      RevDigits(Quo(val, base), base, caseAdj);
      HornerAppend(0, Reversed(rest), [r[0]], base);
    } else {
      assert Reversed(rest) + [r[0]] == [r[0]];
    }
  }

  /** Printing and parsing: the digits, reversed, give the value back. */
  lemma PrintParse(val: nat, base: nat, caseAdj: nat)
    requires Printable(base, caseAdj) && val < WORD
    ensures StrToUll(Reversed(DigitsRev(val, base, caseAdj)), base) == val
  {
    HornerDigits(val, base, caseAdj);
    var t := Reversed(DigitsRev(val, base, caseAdj));
    assert t[0..] == t;
  }
}
