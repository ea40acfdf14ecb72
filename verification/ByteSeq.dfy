/** Bytes as bounded integers, for the parts of the model that work on byte buffers. */
module ByteSeq {
  type Byte = x: int | 0 <= x < 256
  type Bytes = seq<Byte>

  method WriteBytes(dst: array<Byte>, d: nat, x: Bytes)
    requires d + |x| <= dst.Length
    modifies dst
    ensures dst[d..d + |x|] == x
    ensures forall a :: 0 <= a < dst.Length && !(d <= a < d + |x|) ==> dst[a] == old(dst[a])
  {
    forall a | 0 <= a < |x| {
      dst[d + a] := x[a];
    }
  }

  // Any bytes, `cap` at most: what a routine leaves where its result says nothing.
  method AnyBytes(cap: nat) returns (x: Bytes)
    ensures |x| <= cap
  {
    x := *;
    x := if |x| < cap then x else x[..cap];
  }

  // ---------------------------------------------------------------- words, the lowest byte first

  function LE(n: nat, width: nat): (r: Bytes)
    ensures |r| == width
  {
    if width == 0 then [] else [n % 256] + LE(n / 256, width - 1)
  }

  function FromLE(s: Bytes): nat {
    if s == [] then 0
    else
      var low: int := s[0];
      low + 256 * FromLE(s[1..])
  }

  function Pow256(k: nat): nat {
    if k == 0 then 1 else 256 * Pow256(k - 1)
  }

  lemma {:induction false} LERoundTrip(n: nat, width: nat)
    requires n < Pow256(width)
    ensures FromLE(LE(n, width)) == n
    decreases width
  {
    if width > 0 {
      LERoundTrip(n / 256, width - 1);
      assert LE(n, width)[1..] == LE(n / 256, width - 1);
    }
  }

  lemma Widths()
    ensures Pow256(4) == 0x1_0000_0000 && Pow256(8) == 0x1_0000_0000_0000_0000
  {
    assert Pow256(4) == 0x1_0000_0000;
    assert Pow256(8) == 0x1_0000_0000_0000_0000;
  }
}
