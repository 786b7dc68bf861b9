/** Little-endian integers and NUL-terminated names, as the kernel lays them out. */
module Bytes {

  type Byte = b: int | 0 <= b < 256

  /** binary.LittleEndian.Uint*: the value of a little-endian byte string. */
  function Le(b: seq<Byte>): nat {
    if b == [] then 0 else b[0] + 256 * Le(b[1..])
  }

  function ToLe(v: nat, n: nat): seq<Byte> {
    if n == 0 then [] else [v % 256] + ToLe(v / 256, n - 1)
  }

  function Pow256(n: nat): nat {
    if n == 0 then 1 else 256 * Pow256(n - 1)
  }

  lemma {:induction false} LeInvertsToLe(v: nat, n: nat)
    requires v < Pow256(n)
    ensures |ToLe(v, n)| == n && Le(ToLe(v, n)) == v
    decreases n
  {
    if n == 0 {
    } else {
      LeInvertsToLe(v / 256, n - 1);
      assert ToLe(v, n)[1..] == ToLe(v / 256, n - 1);
    }
  }

  lemma PowersOf256()
    ensures Pow256(2) == 0x1_0000
    ensures Pow256(4) == 0x1_0000_0000
    ensures Pow256(8) == 0x1_0000_0000_0000_0000
  {
    assert Pow256(1) == 256;
    assert Pow256(2) == 0x1_0000;
    assert Pow256(3) == 0x100_0000;
    assert Pow256(4) == 0x1_0000_0000;
    assert Pow256(5) == 0x100_0000_0000;
    assert Pow256(6) == 0x1_0000_0000_0000;
    assert Pow256(7) == 0x100_0000_0000_0000;
  }

  /** Two's complement: the conversion from an unsigned to a signed integer of the
      same width, 2 * half being the number of values. */
  function Signed(v: nat, half: int): int {
    if v < half then v else v - 2 * half
  }

  function Unsigned(i: int, half: int): int {
    if i >= 0 then i else i + 2 * half
  }

  /** A name ends at the first NUL, or at the end of its field. */
  function UntilNul(s: seq<Byte>): seq<Byte> {
    if s == [] || s[0] == 0 then [] else [s[0]] + UntilNul(s[1..])
  }

  /** The scan for the first NUL. */
  method CutAtNul(s: seq<Byte>) returns (name: seq<Byte>)
    ensures name == UntilNul(s)
  {
    var end := 0;
    while end < |s| && s[end] != 0
      invariant 0 <= end <= |s|
      invariant UntilNul(s) == s[..end] + UntilNul(s[end..])
    {
      assert s[end..][1..] == s[end + 1..];
      end := end + 1;
    }
    name := s[..end];
  }

  lemma {:induction false} UntilNulOfPadded(name: seq<Byte>, pad: seq<Byte>)
    requires 0 !in name && (pad == [] || pad[0] == 0)
    ensures UntilNul(name + pad) == name
  {
    if name != [] {
      UntilNulOfPadded(name[1..], pad);
      assert (name + pad)[1..] == name[1..] + pad;
    } else {
      assert name + pad == pad;
    }
  }

  lemma Regroup<T>(a: seq<T>, b: seq<T>, c: seq<T>)
    ensures a + (b + c) == a + b + c
  {
  }
}
