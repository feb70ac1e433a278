/** The buffer utf8proc works in: one allocation that is read and written both as an array of
    little-endian 32-bit cells and, by the final pass, as plain bytes. */
module CellMemory {
  import opened Utf8

  predicate IsInt32(v: int) { -0x8000_0000 <= v < 0x8000_0000 }

  /** The cell whose four bytes, lowest first, are a, b, c and d. */
  function FromBytes(a: byte, b: byte, c: byte, d: byte): (v: int)
    ensures IsInt32(v)
  {
    var u := a + 256 * b + 65536 * c + 16777216 * d;
    if u < 0x8000_0000 then u else u - 0x1_0000_0000
  }

  function CellAt(m: seq<byte>, i: nat): int
    requires 4 * i + 4 <= |m|
  {
    FromBytes(m[4 * i], m[4 * i + 1], m[4 * i + 2], m[4 * i + 3])
  }

  /** The memory read as cells; bytes after the last whole cell are spare. */
  ghost function Cells(m: seq<byte>): (c: seq<int>)
    ensures |c| == |m| / 4
  {
    if |m| < 4 then [] else [CellAt(m, 0)] + Cells(m[4..])
  }

  lemma {:induction false} CellOf(m: seq<byte>, i: nat)
    requires 4 * i + 4 <= |m|
    ensures Cells(m)[i] == CellAt(m, i)
  {
    if i > 0 {
      CellOf(m[4..], i - 1);
    }
  }

  method Load(mem: array<byte>, i: nat) returns (v: int)
    requires 4 * i + 4 <= mem.Length
    ensures v == Cells(mem[..])[i] && IsInt32(v)
  {
    CellOf(mem[..], i);
    v := FromBytes(mem[4 * i], mem[4 * i + 1], mem[4 * i + 2], mem[4 * i + 3]);
  }

  method Store(mem: array<byte>, i: nat, v: int)
    requires 4 * i + 4 <= mem.Length && IsInt32(v)
    modifies mem
    ensures Cells(mem[..]) == old(Cells(mem[..]))[i := v]
  {
    var u := if v < 0 then v + 0x1_0000_0000 else v;
    StoredBytes(u);
    mem[4 * i] := u % 256;
    mem[4 * i + 1] := u / 256 % 256;
    mem[4 * i + 2] := u / 65536 % 256;
    mem[4 * i + 3] := u / 16777216;
    ghost var m, m0 := mem[..], old(mem[..]);
    assert CellAt(m, i) == v;
    forall k | 0 <= k < |m| / 4
      ensures Cells(m)[k] == if k == i then v else Cells(m0)[k]
    {
      CellOf(m, k);
      CellOf(m0, k);
    }
  }

  lemma StoredBytes(u: nat)
    requires u < 0x1_0000_0000
    ensures u / 16777216 < 256
    ensures u % 256 + 256 * (u / 256 % 256) + 65536 * (u / 65536 % 256) + 16777216 * (u / 16777216) == u
  {
    var q1 := u / 256;
    var q2 := q1 / 256;
    var q3 := q2 / 256;
    assert u / 65536 == q2 && u / 16777216 == q3;
  }
}
