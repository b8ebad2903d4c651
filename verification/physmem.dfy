/** Physical memory: frames of 4096 bytes, also read as 512 little-endian words. */
module PhysMem {
  import opened Words
  import opened Machine

  const WORDS := 512

  type Frame = seq<Byte>

  function Zeros(n: nat): (r: seq<Byte>)
    ensures |r| == n && forall i | 0 <= i < n :: r[i] == 0
  {
    seq(n, _ => 0)
  }

  function Little(bytes: seq<Byte>): nat {
    if bytes == [] then 0 else bytes[0] + 256 * Little(bytes[1..])
  }

  function ToBytes(w: nat, n: nat): (r: seq<Byte>)
    ensures |r| == n
    decreases n, w
  {
    if n == 0 then [] else [w % 256] + ToBytes(w / 256, n - 1)
  }

  function Pow256(n: nat): (r: nat)
    ensures r > 0
  {
    if n == 0 then 1 else 256 * Pow256(n - 1)
  }

  /** Words are stored lowest byte first. */
  lemma {:induction false} ByteOf(w: nat, n: nat, k: nat)
    requires k < n
    ensures ToBytes(w, n)[k] == w / Pow256(k) % 256
    decreases k
  {
    if k > 0 {
      ByteOf(w / 256, n - 1, k - 1);
      DivPow256(w, k - 1);
    }
  }

  lemma DivPow256(w: nat, k: nat)
    ensures w / 256 / Pow256(k) == w / Pow256(k + 1)
  {
    DivTwice(w, Pow256(k));
  }

  lemma DivTwice(w: nat, b: nat)
    requires b > 0
    ensures w / 256 / b == w / (256 * b)
  {
    var u := w / 256;
    var q, r := u / b, u % b;
    assert u == b * q + r;
    Regroup(b, q);
    QuotientIs(w, 256 * b, q, 256 * r + w % 256);
  }

  lemma Regroup(b: nat, q: nat)
    ensures (256 * b) * q == 256 * (b * q)
  {
  }

  lemma QuotientIs(w: nat, m: nat, q: nat, r: nat)
    requires m > 0 && w == m * q + r && r < m
    ensures w / m == q
  {
    assert m * (w / m - q) == r - w % m;
    Multiple(m, w / m - q);
  }

  lemma RemainderIs(w: nat, m: nat, q: nat, r: nat)
    requires m > 0 && w == m * q + r && r < m
    ensures w % m == r
  {
    QuotientIs(w, m, q, r);
  }

  lemma Multiple(m: nat, k: int)
    requires 0 - m < m * k < m
    ensures k == 0
  {
  }

  lemma {:induction false} StoredWord(w: nat, n: nat)
    requires w < Pow256(n)
    ensures Little(ToBytes(w, n)) == w
    decreases n
  {
    if n > 0 {
      StoredWord(w / 256, n - 1);
      assert ToBytes(w, n)[1..] == ToBytes(w / 256, n - 1);
    }
  }

  lemma {:induction false} ZeroWord(bytes: seq<Byte>)
    requires forall i | 0 <= i < |bytes| :: bytes[i] == 0
    ensures Little(bytes) == 0
  {
    if bytes != [] { ZeroWord(bytes[1..]); }
  }

  /** Word `i` of a frame. */
  function Word(f: Frame, i: nat): nat
    requires |f| == PAGE && i < WORDS
  {
    Little(f[8 * i..8 * i + 8])
  }

  function SetWord(f: Frame, i: nat, w: nat): (r: Frame)
    requires |f| == PAGE && i < WORDS
    ensures |r| == PAGE
  {
    f[..8 * i] + ToBytes(w, 8) + f[8 * i + 8..]
  }

  /** A store changes its own word and no other. */
  lemma SetGet(f: Frame, i: nat, w: nat)
    requires |f| == PAGE && i < WORDS && w < WORD
    ensures forall j | 0 <= j < WORDS :: Word(SetWord(f, i, w), j) == if j == i then w else Word(f, j)
  {
    var g := SetWord(f, i, w);
    forall j | 0 <= j < WORDS ensures Word(g, j) == if j == i then w else Word(f, j) {
      if j == i {
        assert g[8 * i..8 * i + 8] == ToBytes(w, 8);
        Pow256Eight();
        StoredWord(w, 8);
      } else {
        assert g[8 * j..8 * j + 8] == f[8 * j..8 * j + 8];
      }
    }
  }

  lemma Pow256Eight()
    ensures Pow256(8) == WORD
  {
    assert Pow256(4) == 0x1_0000_0000;
  }

  lemma ZeroFrame(f: Frame)
    requires |f| == PAGE && forall i | 0 <= i < PAGE :: f[i] == 0
    ensures forall j | 0 <= j < WORDS :: Word(f, j) == 0
  {
    forall j | 0 <= j < WORDS ensures Word(f, j) == 0 { ZeroWord(f[8 * j..8 * j + 8]); }
  }
}
