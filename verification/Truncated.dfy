/** Streams that end too early and are accepted all the same. */
module Truncated {
  import opened Bits
  import opened Canonical
  import opened Common
  import opened Deflate
  import opened DeflateFacts
  import opened Padded
  import Inflate

  lemma {:induction false} ZeroCode(s: seq<byte>, p: nat, n: nat)
    requires forall k | p <= k < p + n :: StreamBit(s, k) == 0
    ensures CodeBits(s, p, n) == 0
  {
    if n == 0 {
    } else {
      ZeroCode(s, p, n - 1);
    }
  }

  // ----- one byte

  lemma FixedEnd()
    ensures |FIXED_LITERALS| == 288 && FIXED_LITERALS[256] == 7 && CodeOf(FIXED_LITERALS, 256) == 0
  {
    hide Repeat;
    var ll := FIXED_LITERALS;
    FirstShortest(ll, 256);
  }

  lemma BitsOfThree(k: nat)
    ensures StreamBit([3], k) == if k < 2 then 1 else 0
  {
  }

  lemma ThreeHeader(s: seq<byte>)
    requires s == [3]
    ensures ReadBits(s, 1, 2) == 1 && StreamBit(s, 0) == 1
  {
    BitsOfThree(0);
    BitsOfThree(1);
    BitsOfThree(2);
    hide StreamBit;
    assert ReadBits(s, 3, 0) == 0;
    assert ReadBits(s, 2, 1) == 0;
  }

  lemma ThreeEnd(s: seq<byte>)
    requires s == [3]
    ensures Code(s, FIXED_LITERALS, Cursor(3, 4, None)) == Coded(Cursor(10, 4, None), 256)
  {
    hide StreamBit, CodeBits, Decode, CodeOf, Repeat;
    forall k | 3 <= k < 10 ensures StreamBit(s, k) == 0 { BitsOfThree(k); }
    ZeroCode(s, 3, 7);
    FixedEnd();
    DecodeFinds(s, FIXED_LITERALS, 3, 256);
  }

  /** The byte 3 is the header of a last block with fixed codes. The end of that block, seven zero bits, is taken
      from beyond the input. */
  lemma ThreeAccepted(s: seq<byte>, limit: nat)
    requires s == [3] && limit >= 10
    ensures Padded.Inflate(s, limit, false) == Decoded(Cursor(10, 4, None), [])
    ensures Deflate.Inflate(s, 8 * |s|, false) == Bad
  {
    hide ReadBits, StreamBit, Repeat, Code, Deflate.Inflate;
    ThreeHeader(s);
    ThreeEnd(s);
    var c := Take(Take(Cursor(0, 0, None), 1), 2);
    assert c == Cursor(3, 4, None);
    assert Padded.Symbols(s, limit, FIXED_LITERALS, FIXED_DISTANCES, c, []) == Decoded(Cursor(10, 4, None), []);
    assert Padded.Block(s, limit, 1, c, []) == Decoded(Cursor(10, 4, None), []);
    InflateAgrees(s, limit, 8, false);
  }

  /** The decoder on that byte: it succeeds after taking ten bits of eight. */
  method DecodeThree() returns (z: Inflate.ZBuf, st: Inflate.Status)
    ensures z.input == [3] && st == Inflate.Ok && z.taken == 10 && z.zout == 0
  {
    hide Padded.Inflate, Deflate.Inflate;
    var obuf := new byte[0];
    z := new Inflate.ZBuf([3], obuf, false, 0);
    st := z.ParseZlib(false);
    ThreeAccepted(z.input, 10);
    var r := Padded.Inflate(z.input, 10, false);
    assert z.Outcome(st, 10, r);
    assert z.Fitting(r);
  }

  // ----- inserted bits that are taken

  /** A stored block of nine bytes, then a dynamic block: symbols 256 and 257 have the codes 0 and 1, and the only
      distance symbol, 6, has fifteen zero bits. The last bit of the input is a length symbol. */
  const EARLY_END: seq<byte> :=
    [0, 9, 0, 246, 255, 0, 0, 0, 0, 0, 0, 0, 0, 0, 13, 230, 33, 1, 0, 0, 0, 0, 32, 253, 127, 13, 205]

  const CODE_LENGTHS: seq<nat> := [0, 2, 0, 0, 0, 0, 0, 0, 0, 0, 0, 0, 0, 0, 0, 2, 0, 2, 2]

  /** What that stream says, field by field. */
  predicate StoredHeader(s: seq<byte>) {
    StreamBit(s, 0) == 0 && ReadBits(s, 1, 2) == 0 && Word(s, 8) == 9 && Word(s, 24) == 0xffff - 9
  }

  predicate DynamicHeader(s: seq<byte>) {
    && StreamBit(s, 112) == 1 && ReadBits(s, 113, 2) == 2
    && ReadBits(s, 115, 5) == 1 && ReadBits(s, 120, 5) == 6 && ReadBits(s, 125, 4) == 15
  }

  predicate CodeLengthFields(s: seq<byte>) {
    forall i | 0 <= i < 19 :: Triple(s, i) == if i == 1 || i == 2 || i == 17 || i == 18 then 2 else 0
  }

  function Triple(s: seq<byte>, i: nat): nat { ReadBits(s, 129 + 3 * i, 3) }

  predicate RunFields(s: seq<byte>) {
    && CodeBits(s, 186, 2) == 3 && ReadBits(s, 188, 7) == 127
    && CodeBits(s, 195, 2) == 3 && ReadBits(s, 197, 7) == 107
    && CodeBits(s, 204, 2) == 0 && CodeBits(s, 206, 2) == 0
    && CodeBits(s, 208, 2) == 2 && ReadBits(s, 210, 3) == 3 && CodeBits(s, 213, 2) == 1
    && StreamBit(s, 215) == 1
  }

  // ----- the bytes have these fields

  /** Bits as a number, the least significant first. */
  function Number(bits: seq<nat>): nat {
    if bits == [] then 0 else bits[0] + 2 * Number(bits[1..])
  }

  lemma {:induction false} NumberBit(bits: seq<nat>, j: nat)
    requires j < |bits| && forall i | 0 <= i < |bits| :: bits[i] <= 1
    ensures Bit(Number(bits), j) == bits[j]
    decreases j
  {
    var rest := Number(bits[1..]);
    Halved(bits[0], rest);
    if j == 0 {
    } else {
      NumberBit(bits[1..], j - 1);
    }
  }

  lemma NumberCons(b: nat, rest: seq<nat>)
    ensures Number([b] + rest) == b + 2 * Number(rest)
  {
    assert ([b] + rest)[1..] == rest;
  }

  lemma NumberFour(b0: nat, b1: nat, b2: nat, b3: nat, rest: seq<nat>)
    ensures Number([b0, b1, b2, b3] + rest) == b0 + 2 * b1 + 4 * b2 + 8 * b3 + 16 * Number(rest)
  {
    hide Number;
    assert [b0, b1, b2, b3] + rest == [b0] + ([b1] + ([b2] + ([b3] + rest)));
    NumberCons(b3, rest);
    NumberCons(b2, [b3] + rest);
    NumberCons(b1, [b2] + ([b3] + rest));
    NumberCons(b0, [b1] + ([b2] + ([b3] + rest)));
  }

  lemma OctetBit(s: seq<byte>, k: nat, bits: seq<nat>, j: nat)
    requires k < |s| && s[k] == Number(bits) && |bits| == 8 && j < 8 && forall i | 0 <= i < |bits| :: bits[i] <= 1
    ensures StreamBit(s, 8 * k + j) == bits[j]
  {
    hide Bit, Number;
    NumberBit(bits, j);
    assert (8 * k + j) / 8 == k && (8 * k + j) % 8 == j;
  }

  lemma ByteBits(s: seq<byte>, k: nat, b0: nat, b1: nat, b2: nat, b3: nat, b4: nat, b5: nat, b6: nat, b7: nat)
    requires k < |s| && b0 <= 1 && b1 <= 1 && b2 <= 1 && b3 <= 1 && b4 <= 1 && b5 <= 1 && b6 <= 1 && b7 <= 1
    requires s[k] == b0 + 2 * b1 + 4 * b2 + 8 * b3 + 16 * b4 + 32 * b5 + 64 * b6 + 128 * b7
    ensures StreamBit(s, 8 * k) == b0 && StreamBit(s, 8 * k + 1) == b1
    ensures StreamBit(s, 8 * k + 2) == b2 && StreamBit(s, 8 * k + 3) == b3
    ensures StreamBit(s, 8 * k + 4) == b4 && StreamBit(s, 8 * k + 5) == b5
    ensures StreamBit(s, 8 * k + 6) == b6 && StreamBit(s, 8 * k + 7) == b7
  {
    hide StreamBit, Number;
    var high := [b4, b5, b6, b7];
    var bits := [b0, b1, b2, b3] + high;
    NumberFour(b0, b1, b2, b3, high);
    NumberFour(b4, b5, b6, b7, []);
    NumberEmpty();
    assert high + [] == high;
    assert Number(bits) == s[k];
    OctetBit(s, k, bits, 0);
    OctetBit(s, k, bits, 1);
    OctetBit(s, k, bits, 2);
    OctetBit(s, k, bits, 3);
    OctetBit(s, k, bits, 4);
    OctetBit(s, k, bits, 5);
    OctetBit(s, k, bits, 6);
    OctetBit(s, k, bits, 7);
  }

  lemma NumberEmpty()
    ensures Number([]) == 0
  {
  }

  lemma ReadTwo(s: seq<byte>, p: nat)
    ensures ReadBits(s, p, 2) == StreamBit(s, p) + 2 * StreamBit(s, p + 1)
    ensures CodeBits(s, p, 2) == 2 * StreamBit(s, p) + StreamBit(s, p + 1)
  {
    hide StreamBit;
    assert ReadBits(s, p + 2, 0) == 0 && CodeBits(s, p, 0) == 0;
    assert ReadBits(s, p + 1, 1) == StreamBit(s, p + 1) && CodeBits(s, p, 1) == StreamBit(s, p);
  }

  lemma ReadThree(s: seq<byte>, p: nat)
    ensures ReadBits(s, p, 3) == StreamBit(s, p) + 2 * StreamBit(s, p + 1) + 4 * StreamBit(s, p + 2)
  {
    hide StreamBit;
    ReadTwo(s, p + 1);
  }

  lemma ReadFive(s: seq<byte>, p: nat)
    ensures ReadBits(s, p, 4) == StreamBit(s, p) + 2 * ReadBits(s, p + 1, 3)
    ensures ReadBits(s, p, 5) == StreamBit(s, p) + 2 * StreamBit(s, p + 1) + 4 * ReadBits(s, p + 2, 3)
    ensures ReadBits(s, p, 7) == StreamBit(s, p) + 2 * ReadBits(s, p + 1, 3) + 16 * ReadBits(s, p + 4, 3)
  {
    hide StreamBit;
  }

  lemma EarlyEndStoredHeader(s: seq<byte>)
    requires s == EARLY_END
    ensures StoredHeader(s)
  {
    hide StreamBit, ReadBits;
    ByteBits(s, 0, 0, 0, 0, 0, 0, 0, 0, 0);
    ReadTwo(s, 1);
    ReadByte(s, 1);
    ReadByte(s, 2);
    ReadByte(s, 3);
    ReadByte(s, 4);
  }

  lemma EarlyEndDynamicHeader(s: seq<byte>)
    requires s == EARLY_END
    ensures DynamicHeader(s)
  {
    hide StreamBit, ReadBits;
    ByteBits(s, 14, 1, 0, 1, 1, 0, 0, 0, 0);
    ByteBits(s, 15, 0, 1, 1, 0, 0, 1, 1, 1);
    ByteBits(s, 16, 1, 0, 0, 0, 0, 1, 0, 0);
    ReadTwo(s, 113);
    ReadThree(s, 117);
    ReadFive(s, 115);
    ReadThree(s, 122);
    ReadFive(s, 120);
    ReadThree(s, 126);
    ReadFive(s, 125);
  }

  lemma ZeroBytes(s: seq<byte>, p: nat)
    requires s == EARLY_END && 144 <= p < 176
    ensures StreamBit(s, p) == 0
  {
    assert s[p / 8] == 0;
    BitZero(p % 8);
  }

  lemma EarlyEndCodeLengths(s: seq<byte>)
    requires s == EARLY_END
    ensures CodeLengthFields(s)
  {
    hide StreamBit, ReadBits;
    ByteBits(s, 16, 1, 0, 0, 0, 0, 1, 0, 0);
    ByteBits(s, 17, 1, 0, 0, 0, 0, 0, 0, 0);
    ByteBits(s, 18, 0, 0, 0, 0, 0, 0, 0, 0);
    ByteBits(s, 21, 0, 0, 0, 0, 0, 0, 0, 0);
    ByteBits(s, 22, 0, 0, 0, 0, 0, 1, 0, 0);
    ByteBits(s, 23, 1, 0, 1, 1, 1, 1, 1, 1);
    forall i | 0 <= i < 19 ensures Triple(s, i) == if i == 1 || i == 2 || i == 17 || i == 18 then 2 else 0 {
      ReadThree(s, 129 + 3 * i);
      if 5 <= i <= 15 {
        ZeroBytes(s, 129 + 3 * i);
        ZeroBytes(s, 129 + 3 * i + 1);
        if i < 15 { ZeroBytes(s, 129 + 3 * i + 2); }
      }
    }
  }

  lemma EarlyEndRuns(s: seq<byte>)
    requires s == EARLY_END
    ensures RunFields(s)
  {
    hide StreamBit, ReadBits, CodeBits;
    ByteBits(s, 23, 1, 0, 1, 1, 1, 1, 1, 1);
    ByteBits(s, 24, 1, 1, 1, 1, 1, 1, 1, 0);
    ByteBits(s, 25, 1, 0, 1, 1, 0, 0, 0, 0);
    ByteBits(s, 26, 1, 0, 1, 1, 0, 0, 1, 1);
    ReadTwo(s, 186);
    ReadThree(s, 189);
    ReadThree(s, 192);
    ReadFive(s, 188);
    ReadTwo(s, 195);
    ReadThree(s, 198);
    ReadThree(s, 201);
    ReadFive(s, 197);
    ReadTwo(s, 204);
    ReadTwo(s, 206);
    ReadTwo(s, 208);
    ReadThree(s, 210);
    ReadTwo(s, 213);
  }

  // ----- code lengths

  lemma CodeLengthsAre(s: seq<byte>)
    requires CodeLengthFields(s)
    ensures CodeLengthLengths(s, 129, 19) == CODE_LENGTHS
  {
    hide ReadBits, CodeLengthLengths;
    var cl := CodeLengthLengths(s, 129, 19);
    forall i | 0 <= i < 19 ensures cl[CODE_LENGTH_ORDER[i]] == if i == 1 || i == 2 || i == 17 || i == 18 then 2 else 0 {
      CodeLengthAt(s, 129, 19, i);
      assert Triple(s, i) == ReadBits(s, 129 + 3 * i, 3);
    }
    assert cl[16] == cl[CODE_LENGTH_ORDER[0]] && cl[17] == cl[CODE_LENGTH_ORDER[1]] && cl[18] == cl[CODE_LENGTH_ORDER[2]];
    assert cl[0] == cl[CODE_LENGTH_ORDER[3]] && cl[8] == cl[CODE_LENGTH_ORDER[4]] && cl[7] == cl[CODE_LENGTH_ORDER[5]];
    assert cl[9] == cl[CODE_LENGTH_ORDER[6]] && cl[6] == cl[CODE_LENGTH_ORDER[7]] && cl[10] == cl[CODE_LENGTH_ORDER[8]];
    assert cl[5] == cl[CODE_LENGTH_ORDER[9]] && cl[11] == cl[CODE_LENGTH_ORDER[10]] && cl[4] == cl[CODE_LENGTH_ORDER[11]];
    assert cl[12] == cl[CODE_LENGTH_ORDER[12]] && cl[3] == cl[CODE_LENGTH_ORDER[13]] && cl[13] == cl[CODE_LENGTH_ORDER[14]];
    assert cl[2] == cl[CODE_LENGTH_ORDER[15]] && cl[14] == cl[CODE_LENGTH_ORDER[16]] && cl[1] == cl[CODE_LENGTH_ORDER[17]];
    assert cl[15] == cl[CODE_LENGTH_ORDER[18]];
  }

  lemma CodeLengthCodes(cl: seq<nat>)
    requires cl == CODE_LENGTHS
    ensures CodeOf(cl, 1) == 0 && CodeOf(cl, 15) == 1 && CodeOf(cl, 17) == 2 && CodeOf(cl, 18) == 3
  {
    ShortestCodes(cl, 2);
    CountNone(cl, 2, 0, 1);
    CountNone(cl, 2, 2, 15);
  }

  lemma CodeLengthsFit(cl: seq<nat>)
    requires cl == CODE_LENGTHS
    ensures IsLengths(cl) && Canonical.Fits(cl)
  {
    Pow2Table();
    hide Pow2, Canonical.Fits;
    KraftNone(cl, 0, 1);
    KraftNone(cl, 2, 15);
    assert KraftSum(cl, 2) == 0x2000 && KraftSum(cl, 16) == 0x4000;
    assert KraftSum(cl, 18) == 0x6000 && KraftSum(cl, 19) == 0x8000;
    FitsIffKraft(cl);
  }

  lemma {:induction false} KraftNone(lens: seq<nat>, j: nat, k: nat)
    requires IsLengths(lens) && j <= k <= |lens| && forall i | j <= i < k :: lens[i] == 0
    ensures KraftSum(lens, k) == KraftSum(lens, j)
  {
    if j == k {
    } else {
      KraftNone(lens, j, k - 1);
    }
  }

  lemma {:induction false} TriplesAre(n: nat)
    requires n <= 19
    ensures TakeTriples(Cursor(129, 18, None), n) == Cursor(129 + 3 * n, if n <= 5 then 18 else if n <= 15 then 22 else 25, None)
  {
    if n == 0 {
    } else {
      TriplesAre(n - 1);
    }
  }

  /** One symbol of the code length code. */
  lemma RunSymbol(s: seq<byte>, c: Cursor, c1: Cursor, i: nat)
    requires i < 19 && CODE_LENGTHS[i] == 2 && CodeBits(s, c.p, 2) == CodeOf(CODE_LENGTHS, i) && Ready(s, c) == Some(c1)
    ensures Code(s, CODE_LENGTHS, c) == Coded(c1.(p := c.p + 2), i)
  {
    hide CodeBits, Decode, CodeOf;
    DecodeFinds(s, CODE_LENGTHS, c.p, i);
  }

  const ZEROS: seq<nat> := Repeat<nat>(0, 138) + Repeat<nat>(0, 118)

  lemma NextLength(s: seq<byte>, cl: seq<nat>, total: nat, c: Cursor, c1: Cursor, lens: seq<nat>, n: nat)
    requires |lens| < total && IsLengths(lens) && n < 16 && Code(s, cl, c) == Coded(c1, n)
    ensures IsLengths(lens + [n])
    ensures Padded.RunLengths(s, cl, total, c, lens) == Padded.RunLengths(s, cl, total, c1, lens + [n])
  {
    hide Code;
  }

  lemma NextZeros(s: seq<byte>, cl: seq<nat>, total: nat, c: Cursor, c1: Cursor, lens: seq<nat>, n: nat)
    requires 17 <= n <= 18 && Code(s, cl, c) == Coded(c1, n)
    requires |lens| + ReadBits(s, c1.p, RepeatBits(n)) + (if n == 18 then 11 else 3) <= total && IsLengths(lens)
    ensures var more := lens + Repeat<nat>(0, ReadBits(s, c1.p, RepeatBits(n)) + (if n == 18 then 11 else 3));
            && IsLengths(more)
            && Padded.RunLengths(s, cl, total, c, lens) == Padded.RunLengths(s, cl, total, Take(c1, RepeatBits(n)), more)
  {
    hide Code, Repeat, Take, ReadBits;
  }

  lemma NoMore(s: seq<byte>, cl: seq<nat>, c: Cursor, lens: seq<nat>)
    requires IsLengths(lens)
    ensures Padded.RunLengths(s, cl, |lens|, c, lens) == LengthList(c, lens)
  {
  }

  lemma ZeroRuns(s: seq<byte>)
    requires |s| == 27 && RunFields(s)
    ensures IsLengths(ZEROS) && |ZEROS| == 256
    ensures Padded.RunLengths(s, CODE_LENGTHS, 265, Cursor(186, 25, None), []) ==
            Padded.RunLengths(s, CODE_LENGTHS, 265, Cursor(204, 27, None), ZEROS)
  {
    hide CodeBits, ReadBits, StreamBit, Code, CodeOf, Repeat, Pow2, Padded.RunLengths;
    CodeLengthCodes(CODE_LENGTHS);
    var cl := CODE_LENGTHS;
    RunSymbol(s, Cursor(186, 25, None), Cursor(186, 27, None), 18);
    NextZeros(s, cl, 265, Cursor(186, 25, None), Cursor(188, 27, None), [], 18);
    assert [] + Repeat<nat>(0, 138) == Repeat<nat>(0, 138);
    RunSymbol(s, Cursor(195, 27, None), Cursor(195, 27, None), 18);
    NextZeros(s, cl, 265, Cursor(195, 27, None), Cursor(197, 27, None), Repeat<nat>(0, 138), 18);
  }

  lemma LastRuns(s: seq<byte>, lens: seq<nat>)
    requires |s| == 27 && RunFields(s) && |lens| == 256 && IsLengths(lens)
    ensures Padded.RunLengths(s, CODE_LENGTHS, 265, Cursor(204, 27, None), lens) ==
            LengthList(Cursor(215, 29, Some(216)), lens + [1] + [1] + Repeat<nat>(0, 6) + [15])
  {
    hide CodeBits, ReadBits, StreamBit, Code, CodeOf, Repeat, Pow2, Padded.RunLengths;
    CodeLengthCodes(CODE_LENGTHS);
    var cl := CODE_LENGTHS;
    RunSymbol(s, Cursor(204, 27, None), Cursor(204, 29, Some(216)), 1);
    NextLength(s, cl, 265, Cursor(204, 27, None), Cursor(206, 29, Some(216)), lens, 1);
    RunSymbol(s, Cursor(206, 29, Some(216)), Cursor(206, 29, Some(216)), 1);
    NextLength(s, cl, 265, Cursor(206, 29, Some(216)), Cursor(208, 29, Some(216)), lens + [1], 1);
    RunSymbol(s, Cursor(208, 29, Some(216)), Cursor(208, 29, Some(216)), 17);
    NextZeros(s, cl, 265, Cursor(208, 29, Some(216)), Cursor(210, 29, Some(216)), lens + [1] + [1], 17);
    var l3 := lens + [1] + [1] + Repeat<nat>(0, 6);
    RunSymbol(s, Cursor(213, 29, Some(216)), Cursor(213, 29, Some(216)), 15);
    NextLength(s, cl, 265, Cursor(213, 29, Some(216)), Cursor(215, 29, Some(216)), l3, 15);
    NoMore(s, cl, Cursor(215, 29, Some(216)), l3 + [15]);
  }

  /** The two codes of the dynamic block: 256 and 257 with one bit each, and distance 6 with fifteen. */
  ghost predicate Lists(ll: seq<nat>, dd: seq<nat>) {
    && |ll| == 258 && |dd| == 7
    && (forall i | 0 <= i < 258 :: ll[i] == if i < 256 then 0 else 1)
    && (forall i | 0 <= i < 7 :: dd[i] == if i < 6 then 0 else 15)
  }

  lemma ListCodes(ll: seq<nat>, dd: seq<nat>)
    requires Lists(ll, dd)
    ensures Canonical.Fits(ll) && CodeOf(ll, 256) == 0 && CodeOf(ll, 257) == 1
    ensures Canonical.Fits(dd) && CodeOf(dd, 6) == 0
  {
    Pow2Table();
    hide Pow2, Canonical.Fits;
    ShortestCodes(ll, 1);
    CountNone(ll, 1, 0, 256);
    FirstShortest(dd, 6);
    KraftNone(ll, 0, 256);
    KraftNone(dd, 0, 6);
    FitsIffKraft(ll);
    FitsIffKraft(dd);
  }

  lemma EarlyEndCodes(s: seq<byte>)
    requires |s| == 27 && DynamicHeader(s) && CodeLengthFields(s) && RunFields(s)
    ensures var r := Padded.DynamicCodes(s, Cursor(115, 18, None));
            r.CodePair? && r.p == Cursor(215, 29, Some(216)) && Lists(r.ll, r.dd)
  {
    hide ReadBits, StreamBit, CodeBits, Padded.RunLengths, CodeLengthLengths, Word, Canonical.Fits, TakeTriples, Repeat, CodeLengthFields, Pow2;
    CodeLengthsAre(s);
    CodeLengthsFit(CODE_LENGTHS);
    TriplesAre(19);
    assert Take(Take(Take(Cursor(115, 18, None), 5), 5), 4) == Cursor(129, 18, None);
    ZeroRuns(s);
    LastRuns(s, ZEROS);
    var lens := ZEROS + [1] + [1] + Repeat<nat>(0, 6) + [15];
    assert Padded.DynamicLengths(s, Cursor(115, 18, None)) == LengthList(Cursor(215, 29, Some(216)), lens);
    var ll, dd := lens[..258], lens[258..];
    assert Lists(ll, dd);
    ListCodes(ll, dd);
  }

  lemma EarlyEndMatch(s: seq<byte>, ll: seq<nat>, dd: seq<nat>, out: seq<byte>)
    requires |s| == 27 && StreamBit(s, 215) == 1 && Lists(ll, dd) && |out| == 9
    ensures Padded.SymbolStep(s, ll, dd, Cursor(215, 29, Some(216)), out) == Put(Cursor(233, 32, Some(216)), CopyMatch(out, 9, 3))
  {
    hide StreamBit, Decode, CodeOf, CopyMatch, Canonical.Fits;
    ListCodes(ll, dd);
    assert CodeBits(s, 215, 1) == 1 by { assert CodeBits(s, 215, 0) == 0; }
    hide CodeBits;
    DecodeFinds(s, ll, 215, 257);
    ReadZero(s, 231, 2);
    PastEnd(s, 216, 15);
    ReadEmpty(s, 216);
    DecodeFinds(s, dd, 216, 6);
    hide ReadBits;
    assert Code(s, ll, Cursor(215, 29, Some(216))) == Coded(Cursor(216, 29, Some(216)), 257);
    assert Code(s, dd, Cursor(216, 29, Some(216))) == Coded(Cursor(231, 29, Some(216)), 6);
    assert Pow2(2) == 4;
    assert Padded.ReadMatch(s, dd, 0, Cursor(216, 29, Some(216))) == Pair(Cursor(233, 32, Some(216)), 3, 9);
  }

  lemma PastEnd(s: seq<byte>, p: nat, n: nat)
    requires p >= 8 * |s|
    ensures CodeBits(s, p, n) == 0
  {
    ZeroCode(s, p, n);
  }

  lemma EarlyEndSymbols(s: seq<byte>, ll: seq<nat>, dd: seq<nat>, out: seq<byte>, limit: nat)
    requires |s| == 27 && StreamBit(s, 215) == 1 && Lists(ll, dd) && |out| == 9 && limit >= 234
    ensures Padded.Symbols(s, limit, ll, dd, Cursor(215, 29, Some(216)), out) ==
            Decoded(Cursor(234, 32, Some(216)), CopyMatch(out, 9, 3))
  {
    hide StreamBit, Decode, CodeOf, CopyMatch, Canonical.Fits, CodeBits;
    EarlyEndMatch(s, ll, dd, out);
    ListCodes(ll, dd);
    PastEnd(s, 233, 1);
    DecodeFinds(s, ll, 233, 256);
    var out1 := CopyMatch(out, 9, 3);
    assert Code(s, ll, Cursor(233, 32, Some(216))) == Coded(Cursor(234, 32, Some(216)), 256);
    assert Padded.SymbolStep(s, ll, dd, Cursor(233, 32, Some(216)), out1) == Ended(Cursor(234, 32, Some(216)));
    hide Padded.SymbolStep;
    assert Padded.Symbols(s, limit, ll, dd, Cursor(233, 32, Some(216)), out1) == Decoded(Cursor(234, 32, Some(216)), out1);
  }

  /** The nine stored bytes. */
  lemma EarlyEndStored(s: seq<byte>, limit: nat)
    requires |s| == 27 && StoredHeader(s) && limit >= 112
    ensures Padded.Block(s, limit, 0, Cursor(3, 4, None), []) == Decoded(Cursor(112, 14, None), Bytes(s, 40, 9))
  {
    hide ReadBits, StreamBit, Word, Bytes;
    assert AlignUp(3) == 8;
  }

  /** The inserted sixteen bits, at the end of the 216 bits of input, are all taken and the stream is accepted: the
      bits of the distance are received after them, and that fills the buffer again. */
  lemma InsertedBitsTaken(s: seq<byte>, limit: nat)
    requires s == EARLY_END && limit >= 234
    ensures var r := Padded.Inflate(s, limit, false);
            r.Decoded? && r.p == Cursor(234, 32, Some(216)) && 8 * |s| == 216 && |r.out| == 12
  {
    hide ReadBits, StreamBit, Bytes, Word, RunFields, CodeLengthFields, Padded.Block;
    EarlyEndStoredHeader(s);
    EarlyEndDynamicHeader(s);
    EarlyEndCodeLengths(s);
    EarlyEndRuns(s);
    EarlyEndStored(s, limit);
    var out := Bytes(s, 40, 9);
    assert Take(Take(Cursor(0, 0, None), 1), 2) == Cursor(3, 4, None);
    assert Take(Take(Cursor(112, 14, None), 1), 2) == Cursor(115, 18, None);
    EarlyEndBlock(s, out, limit);
    assert Padded.Blocks(s, limit, Cursor(112, 14, None), out) == Decoded(Cursor(234, 32, Some(216)), CopyMatch(out, 9, 3));
  }

  lemma EarlyEndBlock(s: seq<byte>, out: seq<byte>, limit: nat)
    requires |s| == 27 && DynamicHeader(s) && CodeLengthFields(s) && RunFields(s) && |out| == 9 && limit >= 234
    ensures Padded.Block(s, limit, 2, Cursor(115, 18, None), out) == Decoded(Cursor(234, 32, Some(216)), CopyMatch(out, 9, 3))
  {
    hide Padded.DynamicCodes, Padded.Symbols, Lists, CodeLengthFields, ReadBits, CodeBits, StreamBit, Word, CopyMatch;
    EarlyEndCodes(s);
    var r := Padded.DynamicCodes(s, Cursor(115, 18, None));
    EarlyEndSymbols(s, r.ll, r.dd, out, limit);
  }

  // ----- fixed codes

  /** Nothing was loaded behind the inserted bits. */
  predicate Untouched(c: Cursor) {
    c.mark.Some? ==> 8 * c.loaded == c.mark.value + 16
  }

  /** A distance symbol is its own code. */
  lemma FixedDistance(s: seq<byte>, p: nat)
    ensures Decode(s, FIXED_DISTANCES, p) == Some(Symbol(CodeBits(s, p, 5), 5))
  {
    var dd := FIXED_DISTANCES;
    var i := CodeBits(s, p, 5);
    assert Pow2(5) == 32;
    hide Repeat, CodeBits, Decode, Pow2;
    ShortestCodes(dd, 5);
    CountRun(dd, 5, 0, i);
    DecodeFinds(s, dd, p, i);
  }

  /** Of five bits the last four lie behind the input. */
  lemma LateDistance(s: seq<byte>, p: nat)
    requires p + 1 >= 8 * |s|
    ensures CodeBits(s, p, 5) == 0 || CodeBits(s, p, 5) == 16
  {
    CodeHead(s, p, 5);
    PastEnd(s, p + 1, 4);
    Pow2Table();
  }

  lemma TakeUntouched(c: Cursor, n: nat)
    requires Untouched(c) && (c.mark.Some? ==> c.p + n <= c.mark.value + 16)
    ensures Untouched(Take(c, n))
  {
  }

  lemma CodeUntouched(s: seq<byte>, lens: seq<nat>, c: Cursor)
    requires Sound(s, c) && Untouched(c)
    ensures var r := Code(s, lens, c);
            r.Coded? ==> Untouched(r.p) && Sound(s, r.p) && Decode(s, lens, c.p) == Some(Symbol(r.value, r.p.p - c.p)) &&
                         (r.p.mark.Some? ==> c.p <= r.p.mark.value && 8 * |s| <= r.p.mark.value)
  {
    hide Decode;
    CodeAgrees(s, lens, c);
  }

  lemma FixedMatch(s: seq<byte>, k: nat, c: Cursor)
    requires Sound(s, c) && Untouched(c) && k < 29 && (c.mark.Some? ==> c.p <= c.mark.value + 8)
    ensures var r := Padded.ReadMatch(s, FIXED_DISTANCES, k, c);
            r.Pair? ==> Untouched(r.p)
  {
    hide Decode, Code, CodeBits, ReadBits, LengthBase, DistanceBase, Repeat, Take, Sound;
    TakeUntouched(c, LengthExtra(k));
    var c1 := Take(c, LengthExtra(k));
    TakeSound(s, c, LengthExtra(k));
    assert c1.mark == c.mark by { TakeMark(c, LengthExtra(k)); }
    CodeUntouched(s, FIXED_DISTANCES, c1);
    FixedDistance(s, c1.p);
    var r := Code(s, FIXED_DISTANCES, c1);
    if r.Coded? && r.value < 30 {
      if r.p.mark.Some? {
        if c1.p + 1 >= r.p.mark.value { LateDistance(s, c1.p); }
        assert r.p.p + DistanceExtra(r.value) <= r.p.mark.value + 16;
      }
      TakeUntouched(r.p, DistanceExtra(r.value));
    }
  }

  lemma TakeMark(c: Cursor, n: nat)
    ensures Take(c, n).mark == c.mark
  {
  }

  lemma LengthCode(s: seq<byte>, p: nat)
    ensures var r := Decode(s, FIXED_LITERALS, p);
            r.Some? && r.value.value > 256 ==> r.value.length <= 8
  {
    hide Repeat, SymbolOf;
  }

  lemma FixedStep(s: seq<byte>, c: Cursor, out: seq<byte>)
    requires Sound(s, c) && Untouched(c)
    ensures var r := Padded.SymbolStep(s, FIXED_LITERALS, FIXED_DISTANCES, c, out);
            !r.Stuck? ==> Untouched(r.p)
  {
    hide Decode, Code, Padded.ReadMatch, Sound, Repeat, CopyMatch;
    CodeUntouched(s, FIXED_LITERALS, c);
    LengthCode(s, c.p);
    var r := Code(s, FIXED_LITERALS, c);
    if r.Coded? && 257 <= r.value < 286 { FixedMatch(s, r.value - 257, r.p); }
  }

  lemma {:induction false} FixedSymbols(s: seq<byte>, limit: nat, c: Cursor, out: seq<byte>)
    requires Sound(s, c) && Untouched(c)
    ensures var r := Padded.Symbols(s, limit, FIXED_LITERALS, FIXED_DISTANCES, c, out);
            r.Decoded? ==> Untouched(r.p)
    decreases if c.p <= limit then limit - c.p else 0
  {
    hide Padded.SymbolStep, Deflate.SymbolStep, Sound, Untouched, Repeat;
    FixedStep(s, c, out);
    SymbolStepAgrees(s, FIXED_LITERALS, FIXED_DISTANCES, c, out);
    var r := Padded.SymbolStep(s, FIXED_LITERALS, FIXED_DISTANCES, c, out);
    if r.Put? && r.p.p <= limit { FixedSymbols(s, limit, r.p, r.out); }
  }

  /** A block with fixed codes cannot do that: if it is accepted, it ends before the inserted bits. */
  lemma FixedEndsBefore(s: seq<byte>, limit: nat, c: Cursor, out: seq<byte>)
    requires Sound(s, c) && Untouched(c)
    ensures var r := Padded.Block(s, limit, 1, c, out);
            r.Decoded? && r.p.mark.Some? ==> r.p.p <= r.p.mark.value
  {
    hide Padded.Symbols, Deflate.Symbols;
    FixedSymbols(s, limit, c, out);
    SymbolsAgree(s, limit, 0, FIXED_LITERALS, FIXED_DISTANCES, c, out);
  }

  /** No block from position p on has dynamic codes, by the bit-by-bit decoder. */
  ghost predicate NoDynamic(s: seq<byte>, limit: nat, p: nat, out: seq<byte>)
    decreases if p <= limit then limit - p else 0
  {
    var kind := ReadBits(s, p + 1, 2);
    kind != 2 &&
    match Deflate.Block(s, limit, kind, p + 3, out)
    case Bad => true
    case Done(p1, out1) => StreamBit(s, p) == 1 || NoDynamic(s, limit, p1, out1)
  }

  lemma BlockUntouched(s: seq<byte>, limit: nat, kind: nat, c: Cursor, out: seq<byte>)
    requires Sound(s, c) && Untouched(c) && kind != 2
    ensures var r := Padded.Block(s, limit, kind, c, out);
            r.Decoded? ==> Sound(s, r.p) && Untouched(r.p) && Deflate.Block(s, limit, kind, c.p, out) == Done(r.p.p, r.out)
  {
    hide Padded.Symbols, Deflate.Symbols, Padded.Stored, Deflate.Stored, Sound, Untouched, Repeat;
    BlockAgrees(s, limit, limit, kind, c, out);
    if kind == 0 {
      StoredUntouched(s, limit, c, out);
    } else if kind == 1 {
      FixedSymbols(s, limit, c, out);
    }
  }

  lemma StoredUntouched(s: seq<byte>, limit: nat, c: Cursor, out: seq<byte>)
    requires Sound(s, c)
    ensures var r := Padded.Stored(s, limit, c, out);
            r.Decoded? ==> Untouched(r.p)
  {
    hide Deflate.Stored;
    StoredAgrees(s, limit, limit, c, out);
  }

  lemma HeaderUntouched(s: seq<byte>, c: Cursor)
    requires Sound(s, c) && Untouched(c) && !Short(c)
    ensures var c1 := Take(Take(c, 1), 2);
            Sound(s, c1) && Untouched(c1) && c1.p == c.p + 3
  {
    TakeSound(s, c, 1);
    TakeSound(s, Take(c, 1), 2);
  }

  lemma {:induction false} BlocksUntouched(s: seq<byte>, limit: nat, c: Cursor, out: seq<byte>)
    requires Sound(s, c) && Untouched(c) && !Short(c) && NoDynamic(s, limit, c.p, out)
    ensures var r := Padded.Blocks(s, limit, c, out);
            r.Decoded? ==> Untouched(r.p) && Sound(s, r.p) && !Short(r.p)
    decreases if c.p <= limit then limit - c.p else 0
  {
    hide Padded.Block, Deflate.Block, ReadBits, StreamBit, Take, Sound, Untouched, Short;
    HeaderUntouched(s, c);
    var kind := ReadBits(s, c.p + 1, 2);
    var c1 := Take(Take(c, 1), 2);
    BlockUntouched(s, limit, kind, c1, out);
    BlockAgrees(s, limit, limit, kind, c1, out);
    var r := Padded.Block(s, limit, kind, c1, out);
    if r.Refused? || StreamBit(s, c.p) == 1 {
    } else {
      BlocksUntouched(s, limit, r.p, r.out);
    }
  }

  /** In whole streams: without a dynamic block no inserted bit is taken. */
  lemma TakenNeedsDynamic(s: seq<byte>, limit: nat, header: bool)
    requires NoDynamic(s, limit, if header then 16 else 0, [])
    ensures var r := Padded.Inflate(s, limit, header);
            r.Decoded? && r.p.mark.Some? ==> r.p.p <= r.p.mark.value
  {
    hide Padded.Blocks, HeaderOk, NoDynamic;
    BlocksUntouched(s, limit, if header then Cursor(16, 2, None) else Cursor(0, 0, None), []);
  }
}
