/** Bits in bytes as an encoder writes them: PNG and JPEG with the most significant first, DEFLATE with the least
    significant first. */
module BitStrings {
  import opened Bits
  import opened Common

  predicate AreBits(bits: seq<nat>) { forall i | 0 <= i < |bits| :: bits[i] <= 1 }

  /** n bits of v, the most significant first. */
  function BitsOf(v: nat, n: nat): (r: seq<nat>)
    ensures |r| == n && AreBits(r)
  {
    if n == 0 then [] else BitsOf(v / 2, n - 1) + [v % 2]
  }

  /** The first n bits as a number, with `pad` for those that are missing. */
  function Packing(bits: seq<nat>, pad: nat, n: nat): nat {
    if n == 0 then 0 else 2 * Packing(bits, pad, n - 1) + (if n <= |bits| then bits[n - 1] else pad)
  }

  lemma {:induction false} PackingBit(bits: seq<nat>, pad: nat, n: nat, j: nat)
    requires AreBits(bits) && pad <= 1 && j < n
    ensures Packing(bits, pad, n) < Pow2(n) && Bit(Packing(bits, pad, n), n - 1 - j) == if j < |bits| then bits[j] else pad
  {
    var d := if n <= |bits| then bits[n - 1] else pad;
    Halved(d, Packing(bits, pad, n - 1));
    if n == 1 {
    } else {
      PackingBit(bits, pad, n - 1, if j < n - 1 then j else 0);
    }
  }

  function Packed(bits: seq<nat>, pad: nat): (r: seq<byte>)
    requires AreBits(bits) && pad <= 1
    ensures |r| == (|bits| + 7) / 8
    decreases |bits|
  {
    if bits == [] then []
    else
      PackingBit(bits, pad, 8, 0);
      Pow2Table();
      [Packing(bits, pad, 8)] + Packed(if |bits| < 8 then [] else bits[8..], pad)
  }

  lemma HeadBit(b: byte, rest: seq<byte>, k: nat)
    ensures RowBit([b] + rest, k) == if k < 8 then Bit(b, 7 - k) else RowBit(rest, k - 8)
  {
    if k >= 8 { assert k / 8 == (k - 8) / 8 + 1 && k % 8 == (k - 8) % 8; }
  }

  /** Bit k of the bytes is bit k of the string. */
  lemma {:induction false} PackedBit(bits: seq<nat>, pad: nat, k: nat)
    requires AreBits(bits) && pad <= 1 && k < |bits|
    ensures RowBit(Packed(bits, pad), k) == bits[k]
    decreases |bits|
  {
    var more := if |bits| < 8 then [] else bits[8..];
    PackingBit(bits, pad, 8, if k < 8 then k else 0);
    assert Packed(bits, pad) == [Packing(bits, pad, 8)] + Packed(more, pad);
    HeadBit(Packed(bits, pad)[0], Packed(more, pad), k);
    if k < 8 {
    } else {
      PackedBit(more, pad, k - 8);
    }
  }

  // ----- the least significant first

  /** n bits of v, the least significant first. */
  function LowBitsOf(v: nat, n: nat): (r: seq<nat>)
    ensures |r| == n && AreBits(r)
  {
    if n == 0 then [] else [v % 2] + LowBitsOf(v / 2, n - 1)
  }

  /** The first n bits as a number, with zeros for those that are missing. */
  function LowPacking(bits: seq<nat>, n: nat): nat {
    if n == 0 || bits == [] then 0 else bits[0] + 2 * LowPacking(bits[1..], n - 1)
  }

  lemma {:induction false} LowPackingBit(bits: seq<nat>, n: nat, j: nat)
    requires AreBits(bits) && j < n
    ensures LowPacking(bits, n) < Pow2(n) && Bit(LowPacking(bits, n), j) == if j < |bits| then bits[j] else 0
    decreases n
  {
    if bits == [] {
      BitZero(j);
    } else if n == 1 {
    } else {
      LowPackingBit(bits[1..], n - 1, if j == 0 then 0 else j - 1);
      Halved(bits[0], LowPacking(bits[1..], n - 1));
    }
  }

  function LowPacked(bits: seq<nat>): (r: seq<byte>)
    requires AreBits(bits)
    ensures |r| == (|bits| + 7) / 8
    decreases |bits|
  {
    if bits == [] then []
    else
      LowPackingBit(bits, 8, 0);
      Pow2Table();
      [LowPacking(bits, 8)] + LowPacked(if |bits| < 8 then [] else bits[8..])
  }

  lemma {:induction false} LowPackedBit(bits: seq<nat>, k: nat)
    requires AreBits(bits) && k < |bits|
    ensures k / 8 < |LowPacked(bits)| && Bit(LowPacked(bits)[k / 8], k % 8) == bits[k]
    decreases |bits|
  {
    var more := if |bits| < 8 then [] else bits[8..];
    LowPackingBit(bits, 8, if k < 8 then k else 0);
    assert LowPacked(bits) == [LowPacking(bits, 8)] + LowPacked(more);
    if k < 8 {
    } else {
      LowPackedBit(more, k - 8);
      assert k / 8 == (k - 8) / 8 + 1 && k % 8 == (k - 8) % 8;
    }
  }
}
