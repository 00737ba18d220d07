/** From reconstructed PNG rows to samples: every bit depth, grey scaling and the added alpha channel. */
module PngSamples {
  import opened Bits
  import opened Common

  // ----- the reference: one rule for all depths (section 7.2)

  /** The d bits from p on, as a number. */
  function Sample(row: seq<byte>, p: nat, d: nat): (v: nat)
    ensures v < Pow2(d)
  {
    if d == 0 then 0 else 2 * Sample(row, p, d - 1) + RowBit(row, p + d - 1)
  }

  /** The sample as it is stored. */
  function Value(row: seq<byte>, p: nat, d: nat, scale: nat): nat {
    scale * Sample(row, p, d)
  }

  /** The first k samples of d bits. */
  function Samples(row: seq<byte>, k: nat, d: nat, scale: nat): (s: seq<nat>)
    ensures |s| == k
  {
    if k == 0 then [] else Samples(row, k - 1, d, scale) + [Value(row, Times(k - 1, d), d, scale)]
  }

  /** The samples cut into pixels of n, with the sample a after each pixel. */
  function WithAlpha(s: seq<nat>, n: nat, a: nat): seq<nat>
    requires n > 0
  {
    if |s| < n then [] else s[..n] + [a] + WithAlpha(s[n..], n, a)
  }

  /** Grey values of fewer than eight bits are spread over 0 to 255. */
  function Scale(d: nat, color: nat): nat {
    if color != 0 then 1 else if d == 1 then 0xff else if d == 2 then 0x55 else if d == 4 then 0x11 else 1
  }

  predicate Format(imgN: nat, outN: nat, d: nat) {
    && d in {1, 2, 4, 8, 16} && 1 <= imgN <= 4
    && (outN == imgN || (outN == imgN + 1 && imgN in {1, 3}))
  }

  /** The samples of a row of x pixels. */
  function RowSamples(row: seq<byte>, x: nat, imgN: nat, outN: nat, d: nat, color: nat): seq<nat>
    requires Format(imgN, outN, d)
  {
    var s := Samples(row, x * imgN, d, Scale(d, color));
    if imgN == outN then s else WithAlpha(s, imgN, if d == 16 then 0xffff else 0xff)
  }

  // ----- a shifted byte against the bits of a row

  /** The byte w is b shifted left by o, as far as the bits at o and above. */
  predicate Shifted(w: nat, b: nat, o: nat) {
    forall t | o <= t < 8 :: Bit(w, t) == Bit(b, t - o)
  }

  lemma NotShifted(b: nat)
    ensures Shifted(b, b, 0)
  {
  }

  lemma ShiftOn(w: nat, b: nat, o: nat, d: nat)
    requires Shifted(w, b, o)
    ensures Shifted(Low(Shl(w, d), 8), b, o + d) && Low(Shl(w, d), 8) < 256
  {
    LowBound(Shl(w, d), 8);
    Pow2Table();
    forall t | o + d <= t < 8 ensures Bit(Low(Shl(w, d), 8), t) == Bit(b, t - (o + d)) {
      BitLow(Shl(w, d), 8, t);
      BitShl(w, d, t);
    }
  }

  lemma {:induction false} ShrZero(w: nat, n: nat)
    requires w < Pow2(n)
    ensures Shr(w, n) == 0
  {
    if n == 0 {
    } else {
      ShrZero(w / 2, n - 1);
    }
  }

  /** The top d bits of a byte that has been shifted left by o are the bits o to o + d of the row's byte. */
  lemma {:induction false} TopIsSample(row: seq<byte>, k: nat, o: nat, d: nat, w: nat)
    requires k < |row| && o + d <= 8 && w < 256
    requires Shifted(w, row[k], o)
    ensures Shr(w, 8 - d) == Sample(row, 8 * k + o, d)
  {
    if d == 0 {
      Pow2Table();
      ShrZero(w, 8);
    } else {
      TopIsSample(row, k, o, d - 1, w);
      ShrHalves(w, 8 - d);
      assert (8 * k + o + d - 1) / 8 == k && (8 * k + o + d - 1) % 8 == o + d - 1;
    }
  }

  lemma SampleOfByte(row: seq<byte>, k: nat)
    requires k < |row|
    ensures Sample(row, 8 * k, 8) == row[k]
  {
    NotShifted(row[k]);
    assert Shr(row[k], 0) == row[k];
    hide *;
    TopIsSample(row, k, 0, 8, row[k]);
  }

  lemma {:induction false} SampleJoin(row: seq<byte>, p: nat, e: nat, d: nat)
    ensures Sample(row, p, e + d) == Shl(Sample(row, p, e), d) + Sample(row, p + e, d)
  {
    hide Pow2, RowBit;
    if d == 0 {
    } else {
      SampleJoin(row, p, e, d - 1);
      assert Sample(row, p, e + d) == 2 * Sample(row, p, e + d - 1) + RowBit(row, p + e + d - 1);
    }
  }

  /** A 16-bit sample is stored high byte first. */
  lemma SampleOfWord(row: seq<byte>, k: nat)
    requires 2 * k + 1 < |row|
    ensures Sample(row, 16 * k, 16) == Or(Shl(row[2 * k], 8), row[2 * k + 1])
  {
    assert 16 * k == 8 * (2 * k) && 16 * k + 8 == 8 * (2 * k + 1);
    SampleJoin(row, 16 * k, 8, 8);
    SampleOfByte(row, 2 * k);
    SampleOfByte(row, 2 * k + 1);
    Pow2Table();
    OrCommutes(Shl(row[2 * k], 8), row[2 * k + 1]);
    hide *;
    OrShifted(row[2 * k + 1], row[2 * k], 8);
  }

  // ----- one, two and four bits

  /** The tests on the low bits of the sample number: a new byte is due. */
  predicate ByteDue(i: nat, d: nat) {
    if d == 4 then i % 2 == 0 else if d == 2 then i % 4 == 0 else i % 8 == 0
  }

  /** How many bits of the current byte have been used before sample i. */
  function Offset(i: nat, d: nat): nat {
    if d == 4 then i % 2 * 4 else if d == 2 then i % 4 * 2 else i % 8
  }

  /** Depths of which several samples share a byte. */
  predicate Shared(d: nat) { d == 1 || d == 2 || d == 4 }

  lemma Phase(i: nat, d: nat)
    requires Shared(d)
    ensures 1 <= d && Offset(i, d) + d <= 8 && (ByteDue(i, d) <==> Offset(i, d) == 0)
    ensures Offset(i + 1, d) == if Offset(i, d) + d == 8 then 0 else Offset(i, d) + d
  {
  }

  predicate ScaleFits(d: nat, scale: nat) {
    scale * (Pow2(d) - 1) <= 255
  }

  lemma ScaledFits(scale: nat, v: nat, m: nat)
    requires v <= m
    ensures scale * v <= scale * m
  {
  }

  lemma SamplesStep(row: seq<byte>, i: nat, n: nat, d: nat, scale: nat)
    requires i < n
    ensures Times(i + 1, d) == Times(i, d) + d <= Times(n, d)
    ensures Samples(row, i + 1, d, scale) == Samples(row, i, d, scale) + [Value(row, Times(i, d), d, scale)]
  {
    TimesStep(i, n, d);
    hide Times, Value;
  }

  lemma {:induction false} TimesStep(i: nat, n: nat, d: nat)
    requires i < n
    ensures Times(i + 1, d) == Times(i, d) + d <= Times(n, d)
  {
    hide Times;
    TimesNext(i, d);
    if i + 1 >= n {
    } else {
      TimesStep(i, n - 1, d);
      TimesNext(n - 1, d);
    }
  }

  /** One sample: the top bits of the current byte, which is then shifted on. */
  method PutSample(row: seq<byte>, dest: array<byte>, i: nat, inb: nat, d: nat, scale: nat, ghost k: nat, ghost o: nat)
    returns (shifted: nat)
    requires k < |row| && o + d <= 8 && inb < 256 && Shifted(inb, row[k], o)
    requires i < dest.Length && ScaleFits(d, scale)
    modifies dest
    ensures dest[..i + 1] == old(dest[..i]) + [Value(row, 8 * k + o, d, scale)]
    ensures shifted < 256 && Shifted(shifted, row[k], o + d)
  {
    hide Sample, Shr, Shl, Low, Pow2, Shifted;
    TopIsSample(row, k, o, d, inb);
    ScaledFits(scale, Sample(row, 8 * k + o, d), Pow2(d) - 1);
    dest[i] := scale * Shr(inb, 8 - d);
    assert dest[..i + 1] == dest[..i] + [dest[i]];
    ShiftOn(inb, row[k], o, d);
    shifted := Low(Shl(inb, d), 8);
  }

  lemma NoSamples(row: seq<byte>, d: nat, scale: nat)
    requires Shared(d) && ScaleFits(d, scale)
    ensures Samples(row, 0, d, scale) == [] && Offset(0, d) == 0 && Times(0, d) == 0
  {
  }

  method ExpandBits(row: seq<byte>, dest: array<byte>, nsmp: nat, d: nat, scale: nat)
    requires Shared(d) && Times(nsmp, d) <= 8 * |row| && nsmp <= dest.Length
    requires ScaleFits(d, scale)
    modifies dest
    ensures dest[..nsmp] == Samples(row, nsmp, d, scale)
  {
    hide *;
    var next, inb := 0, 0;
    ghost var p := Times(0, d);
    var i := 0;
    NoSamples(row, d, scale);
    while i < nsmp
      invariant 0 <= i <= nsmp && 0 <= inb < 256
      invariant p == Times(i, d)
      invariant p == if Offset(i, d) == 0 then 8 * next else 8 * (next - 1) + Offset(i, d)
      invariant Offset(i, d) != 0 ==> 0 < next <= |row| && Shifted(inb, row[next - 1], Offset(i, d))
      invariant dest[..i] == Samples(row, i, d, scale)
    {
      Phase(i, d);
      SamplesStep(row, i, nsmp, d, scale);
      if ByteDue(i, d) {
        assert 8 * next == p && p + d <= 8 * |row|;
        inb := row[next];
        next := next + 1;
        NotShifted(inb);
      }
      assert p == 8 * (next - 1) + Offset(i, d);
      inb := PutSample(row, dest, i, inb, d, scale, next - 1, Offset(i, d));
      i, p := i + 1, p + d;
    }
  }
}
