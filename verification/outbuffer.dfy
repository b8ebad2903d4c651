/** The decoder's output buffer and its three LZ77 copy strategies. */
module OutBuffer {
  import opened Words

  /** The overlapping copy of RFC 1951, section 3.2.3, byte by byte: each byte is
      the one `distance` before it, which may itself have just been copied. */
  function CopyBack(out: seq<Byte>, distance: nat, length: nat): (r: seq<Byte>)
    requires 1 <= distance <= |out|
    ensures |r| == |out| + length && r[..|out|] == out
    decreases length
  {
    if length == 0 then out
    else CopyBack(out + [out[|out| - distance]], distance, length - 1)
  }

  /** Only one sequence extends `out` and repeats itself at that distance. */
  lemma {:induction false} CopyBackUnique(out: seq<Byte>, distance: nat, length: nat, t: seq<Byte>)
    requires 1 <= distance <= |out| && |t| == |out| + length && t[..|out|] == out
    requires forall i | |out| <= i < |t| :: t[i] == t[i - distance]
    ensures t == CopyBack(out, distance, length)
    decreases length
  {
    if length > 0 {
      var x := out[|out| - distance];
      assert t[|out|] == t[..|out|][|out| - distance];
      assert t[..|out| + 1] == out + [x];
      CopyBackUnique(out + [x], distance, length - 1, t);
    }
  }

  class Buffer {
    const data: array<Byte>
    var size: nat

    ghost predicate Valid()
      reads this
    {
      size <= data.Length
    }

    ghost function Contents(): seq<Byte>
      requires Valid()
      reads this, data
    {
      data[..size]
    }

    constructor (capacity: nat)
      ensures Valid() && fresh(data) && data.Length == capacity && Contents() == []
    {
      data := new Byte[capacity];
      size := 0;
    }

    method Insert(byte: Byte) returns (ok: bool)
      requires Valid()
      modifies `size, data
      ensures Valid() && (ok <==> old(size) < data.Length)
      ensures Contents() == if ok then old(Contents()) + [byte] else old(Contents())
    {
      if size >= data.Length { return false; }
      data[size] := byte;
      size := size + 1;
      ok := true;
    }

    method InsertBulk(src: seq<Byte>) returns (ok: bool)
      requires Valid()
      modifies `size, data
      ensures Valid() && (ok <==> old(size) + |src| <= data.Length)
      ensures Contents() == if ok then old(Contents()) + src else old(Contents())
    {
      if size + |src| > data.Length { return false; }
      forall i | 0 <= i < |src| { data[size + i] := src[i]; }
      size := size + |src|;
      ok := true;
      assert data[..size] == old(data[..size]) + src;
    }

    /** All three strategies write the byte-by-byte copy; a distance of 0, which no
        stream has, takes in what the memory past the end happens to hold. */
    method Lz77Copy(distance: nat, length: nat) returns (ok: bool)
      requires Valid()
      modifies `size, data
      ensures Valid() && (ok <==> distance <= old(size) && old(size) + length <= data.Length)
      ensures ok && distance > 0 ==> Contents() == CopyBack(old(Contents()), distance, length)
      ensures ok && distance == 0 ==> data[..] == old(data[..]) && size == old(size) + length
      ensures !ok ==> Contents() == old(Contents())
    {
      if distance > size { return false; }
      if size + length > data.Length { return false; }
      ghost var out := data[..size];
      if distance == 1 {
        var byte := data[size - 1];
        forall i | 0 <= i < length { data[size + i] := byte; }
      } else if distance >= length {
        forall i | 0 <= i < length { data[size + i] := data[size - distance + i]; }
      } else {
        CopyForward(distance, length);
      }
      size := size + length;
      ok := true;
      assert data[..size][..|out|] == out;
      if distance > 0 { CopyBackUnique(out, distance, length, data[..size]); }
    }

    method CopyForward(distance: nat, length: nat)
      requires distance <= size && size + length <= data.Length
      modifies data
      ensures data[..size] == old(data[..size])
      ensures forall i | size <= i < size + length :: data[i] == data[i - distance]
      ensures distance == 0 ==> data[..] == old(data[..])
    {
      for i := 0 to length
        invariant data[..size] == old(data[..size])
        invariant forall j | size <= j < size + i :: data[j] == data[j - distance]
        invariant distance == 0 ==> data[..] == old(data[..])
      {
        data[size + i] := data[size - distance + i];
      }
    }
  }
}
