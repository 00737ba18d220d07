/** A reference decoder for RFC 1951 that reads a byte string one bit at a time.
    Past the end of the string every bit is zero; `limit` says how many bits the decoder may
    consume. With limit == 8 * |s| it is a strict decoder that never reads past the end. */
module Deflate {
  import opened Bits
  import opened Canonical
  import opened Common

  // ----- bits of the stream

  /** Bit p of the string, the least significant bit of each byte first (section 3.1.1). */
  function StreamBit(s: seq<byte>, p: nat): (b: nat)
    ensures b <= 1
  {
    if p / 8 < |s| then Bit(s[p / 8], p % 8) else 0
  }

  /** n bits as a number, first bit least significant. */
  function ReadBits(s: seq<byte>, p: nat, n: nat): (v: nat)
    ensures v < Pow2(n)
    decreases n
  {
    if n == 0 then 0 else StreamBit(s, p) + 2 * ReadBits(s, p + 1, n - 1)
  }

  /** n bits as a Huffman code, first bit most significant. */
  function CodeBits(s: seq<byte>, p: nat, n: nat): (v: nat)
    ensures v < Pow2(n)
  {
    if n == 0 then 0 else 2 * CodeBits(s, p, n - 1) + StreamBit(s, p + n - 1)
  }

  // ----- symbols

  /** The largest symbol below k whose code is the n-bit word c. */
  function SymbolOf(lens: seq<nat>, n: nat, c: nat, k: nat): (r: Option<nat>)
    requires k <= |lens|
    ensures r.Some? ==> r.value < k && lens[r.value] == n && CodeOf(lens, r.value) == c
  {
    if k == 0 then None
    else if lens[k - 1] == n && CodeOf(lens, k - 1) == c then Some(k - 1)
    else SymbolOf(lens, n, c, k - 1)
  }

  datatype Symbol = Symbol(value: nat, length: nat)

  /** Takes one more bit until the bits read so far are a code. */
  function DecodeFrom(s: seq<byte>, lens: seq<nat>, p: nat, n: nat): (r: Option<Symbol>)
    ensures r.Some? ==> n <= r.value.length <= MAX_LENGTH && r.value.value < |lens| && lens[r.value.value] == r.value.length
    decreases MAX_LENGTH + 1 - n
  {
    if n > MAX_LENGTH then None
    else
      match SymbolOf(lens, n, CodeBits(s, p, n), |lens|)
      case Some(i) => Some(Symbol(i, n))
      case None => DecodeFrom(s, lens, p, n + 1)
  }

  function Decode(s: seq<byte>, lens: seq<nat>, p: nat): (r: Option<Symbol>)
    ensures r.Some? ==> 1 <= r.value.length <= MAX_LENGTH && r.value.value < |lens|
  {
    DecodeFrom(s, lens, p, 1)
  }

  lemma {:induction false} SymbolBound(lens: seq<nat>, n: nat, c: nat, k: nat)
    requires k <= |lens|
    ensures SymbolOf(lens, n, c, k) == None ==> forall i | 0 <= i < k :: !(lens[i] == n && CodeOf(lens, i) == c)
  {
    if k == 0 {
    } else {
      SymbolBound(lens, n, c, k - 1);
    }
  }

  // ----- compressed data (section 3.2.5)

  /** Length symbols 257 to 285, counted from 0. */
  function LengthExtra(k: nat): nat
    requires k < 29
  {
    if k < 8 || k == 28 then 0 else k / 4 - 1
  }

  function LengthBase(k: nat): (r: nat)
    requires k < 29
    ensures r >= 3
  {
    if k == 28 then 258 else if k < 8 then 3 + k else 3 + (4 + k % 4) * Pow2(k / 4 - 1)
  }

  function DistanceExtra(k: nat): nat
    requires k < 30
  {
    if k < 4 then 0 else k / 2 - 1
  }

  function DistanceBase(k: nat): (r: nat)
    requires k < 30
    ensures r >= 1
  {
    if k < 4 then 1 + k else 1 + (2 + k % 2) * Pow2(k / 2 - 1)
  }

  /** Repeats the string's own end, one byte at a time, so that a copy may overlap itself. */
  function CopyMatch(out: seq<byte>, dist: nat, len: nat): (r: seq<byte>)
    requires 1 <= dist <= |out|
    ensures |r| == |out| + len && out <= r
    decreases len
  {
    if len == 0 then out else CopyMatch(out + [out[|out| - dist]], dist, len - 1)
  }

  datatype Step = StepBad | EndOfBlock(p: nat) | Emit(p: nat, out: seq<byte>)

  /** One symbol of a compressed block. */
  function SymbolStep(s: seq<byte>, ll: seq<nat>, dd: seq<nat>, p: nat, out: seq<byte>): (r: Step)
    ensures r.EndOfBlock? ==> r.p > p
    ensures r.Emit? ==> r.p > p && |r.out| > |out|
  {
    match Decode(s, ll, p)
    case None => StepBad
    case Some(sym) =>
      var p1 := p + sym.length;
      if sym.value < 256 then Emit(p1, out + [sym.value])
      else if sym.value == 256 then EndOfBlock(p1)
      else if sym.value >= 286 then StepBad
      else MatchStep(s, dd, sym.value - 257, p1, out)
  }

  datatype Match = MatchBad | Match(p: nat, len: nat, dist: nat)

  /** The rest of a length and distance pair, after length symbol 257 + k. */
  function ReadMatch(s: seq<byte>, dd: seq<nat>, k: nat, p: nat): (r: Match)
    requires k < 29
    ensures r.Match? ==> r.p >= p && r.len >= 3 && r.dist >= 1
  {
    var len := LengthBase(k) + ReadBits(s, p, LengthExtra(k));
    var p1 := p + LengthExtra(k);
    match Decode(s, dd, p1)
    case None => MatchBad
    case Some(sym) =>
      if sym.value >= 30 then MatchBad
      else
        var p2 := p1 + sym.length;
        var n := DistanceExtra(sym.value);
        Match(p2 + n, len, DistanceBase(sym.value) + ReadBits(s, p2, n))
  }

  function MatchStep(s: seq<byte>, dd: seq<nat>, k: nat, p: nat, out: seq<byte>): (r: Step)
    requires k < 29
    ensures r.StepBad? || (r.Emit? && r.p >= p && |r.out| > |out|)
  {
    match ReadMatch(s, dd, k, p)
    case MatchBad => StepBad
    case Match(p1, len, dist) =>
      if dist > |out| then StepBad else Emit(p1, CopyMatch(out, dist, len))
  }

  datatype Result = Bad | Done(p: nat, out: seq<byte>)

  /** Symbols until the end of the block. */
  function Symbols(s: seq<byte>, limit: nat, ll: seq<nat>, dd: seq<nat>, p: nat, out: seq<byte>): (r: Result)
    ensures r.Done? ==> p < r.p <= limit && |r.out| >= |out|
    decreases if p <= limit then limit - p else 0
  {
    match SymbolStep(s, ll, dd, p, out)
    case StepBad => Bad
    case EndOfBlock(p1) => if p1 <= limit then Done(p1, out) else Bad
    case Emit(p1, out1) => if p1 <= limit then Symbols(s, limit, ll, dd, p1, out1) else Bad
  }

  // ----- stored blocks (section 3.2.4)

  /** The next byte boundary. */
  function AlignUp(p: nat): (q: nat)
    ensures p <= q < p + 8
  {
    8 * ((p + 7) / 8)
  }

  function Bytes(s: seq<byte>, p: nat, n: nat): (r: seq<byte>)
    ensures |r| == n
  {
    if n == 0 then [] else
      assert Pow2(8) == 256;
      Bytes(s, p, n - 1) + [ReadBits(s, p + 8 * (n - 1), 8)]
  }

  /** Two bytes, the less significant first. */
  function Word(s: seq<byte>, p: nat): nat {
    ReadBits(s, p, 8) + 256 * ReadBits(s, p + 8, 8)
  }

  /** `len` bytes from position q. */
  function StoredData(s: seq<byte>, limit: nat, q: nat, len: nat, out: seq<byte>): (r: Result)
    ensures r.Done? ==> q <= r.p <= limit && |r.out| >= |out|
  {
    if q + 8 * len <= limit then Done(q + 8 * len, out + Bytes(s, q, len)) else Bad
  }

  function Stored(s: seq<byte>, limit: nat, p: nat, out: seq<byte>): (r: Result)
    ensures r.Done? ==> p < r.p <= limit && |r.out| >= |out|
  {
    var q := AlignUp(p);
    var len := Word(s, q);
    if Word(s, q + 16) == 0xffff - len then StoredData(s, limit, q + 32, len, out) else Bad
  }

  // ----- dynamic code lengths (section 3.2.7)

  const CODE_LENGTH_ORDER: seq<nat> := [16, 17, 18, 0, 8, 7, 9, 6, 10, 5, 11, 4, 12, 3, 13, 2, 14, 1, 15]

  /** The code length code: n three-bit lengths in the order above, the rest zero. */
  function CodeLengthLengths(s: seq<byte>, p: nat, n: nat): (r: seq<nat>)
    requires n <= 19
    ensures |r| == 19 && forall i | 0 <= i < 19 :: r[i] <= 7
  {
    if n == 0 then Repeat(0, 19)
    else
      assert Pow2(3) == 8;
      CodeLengthLengths(s, p, n - 1)[CODE_LENGTH_ORDER[n - 1] := ReadBits(s, p + 3 * (n - 1), 3)]
  }

  datatype Lengths = LengthsBad | Lengths(p: nat, lens: seq<nat>)

  /** How many bits follow the run-length symbols 16, 17 and 18. */
  function RepeatBits(value: nat): nat {
    if value == 16 then 2 else if value == 17 then 3 else 7
  }

  /** Run-length coded lengths until there are `total` of them. */
  function RunLengths(s: seq<byte>, cl: seq<nat>, total: nat, p: nat, lens: seq<nat>): (r: Lengths)
    requires |lens| <= total && IsLengths(lens)
    ensures r.Lengths? ==> r.p >= p && |r.lens| == total && IsLengths(r.lens)
    decreases total - |lens|
  {
    if |lens| == total then Lengths(p, lens)
    else
      match Decode(s, cl, p)
      case None => LengthsBad
      case Some(sym) =>
        var p1 := p + sym.length;
        if sym.value < 16 then RunLengths(s, cl, total, p1, lens + [sym.value])
        else if sym.value == 16 && lens == [] then LengthsBad
        else if sym.value > 18 then LengthsBad
        else
          var bits := RepeatBits(sym.value);
          var count := ReadBits(s, p1, bits) + (if sym.value == 18 then 11 else 3);
          var x := if sym.value == 16 then lens[|lens| - 1] else 0;
          if |lens| + count > total then LengthsBad
          else RunLengths(s, cl, total, p1 + bits, lens + Repeat(x, count))
  }

  datatype Codes = CodesBad | Codes(p: nat, ll: seq<nat>, dd: seq<nat>)

  /** All lengths of a dynamic block: the literal and length code's, then the distance code's. */
  ghost function DynamicLengths(s: seq<byte>, p: nat): (r: Lengths)
    ensures r.Lengths? ==> r.p >= p && IsLengths(r.lens) && ReadBits(s, p, 5) + 257 < |r.lens| <= ReadBits(s, p, 5) + 289
    ensures ReadBits(s, p, 5) < 32
  {
    assert Pow2(5) == 32 && Pow2(4) == 16;
    var hlit := ReadBits(s, p, 5) + 257;
    var hdist := ReadBits(s, p + 5, 5) + 1;
    var hclen := ReadBits(s, p + 10, 4) + 4;
    var cl := CodeLengthLengths(s, p + 14, hclen);
    if !Canonical.Fits(cl) then LengthsBad
    else RunLengths(s, cl, hlit + hdist, p + 14 + 3 * hclen, [])
  }

  ghost function DynamicCodes(s: seq<byte>, p: nat): (r: Codes)
    ensures r.Codes? ==> r.p >= p && IsLengths(r.ll) && IsLengths(r.dd) && |r.ll| <= 288 && |r.dd| <= 32
    ensures r.Codes? ==> Canonical.Fits(r.ll) && Canonical.Fits(r.dd)
  {
    var hlit := ReadBits(s, p, 5) + 257;
    match DynamicLengths(s, p)
    case LengthsBad => CodesBad
    case Lengths(p1, lens) =>
      if Canonical.Fits(lens[..hlit]) && Canonical.Fits(lens[hlit..]) then Codes(p1, lens[..hlit], lens[hlit..])
      else CodesBad
  }

  // ----- fixed codes (section 3.2.6)

  const FIXED_LITERALS: seq<nat> := Repeat(8, 144) + Repeat(9, 112) + Repeat(7, 24) + Repeat(8, 8)
  const FIXED_DISTANCES: seq<nat> := Repeat(5, 32)

  // ----- blocks (section 3.2.3)

  ghost function Dynamic(s: seq<byte>, limit: nat, p: nat, out: seq<byte>): (r: Result)
    ensures r.Done? ==> p < r.p <= limit && |r.out| >= |out|
  {
    match DynamicCodes(s, p)
    case CodesBad => Bad
    case Codes(p1, ll, dd) => Symbols(s, limit, ll, dd, p1, out)
  }

  ghost function Block(s: seq<byte>, limit: nat, kind: nat, p: nat, out: seq<byte>): (r: Result)
    ensures r.Done? ==> p < r.p <= limit && |r.out| >= |out|
  {
    if kind == 0 then Stored(s, limit, p, out)
    else if kind == 1 then Symbols(s, limit, FIXED_LITERALS, FIXED_DISTANCES, p, out)
    else if kind == 2 then Dynamic(s, limit, p, out)
    else Bad
  }

  ghost function Blocks(s: seq<byte>, limit: nat, p: nat, out: seq<byte>): (r: Result)
    ensures r.Done? ==> p < r.p <= limit && |r.out| >= |out|
    decreases if p <= limit then limit - p else 0
  {
    match Block(s, limit, ReadBits(s, p + 1, 2), p + 3, out)
    case Bad => Bad
    case Done(p1, out1) => if StreamBit(s, p) == 1 then Done(p1, out1) else Blocks(s, limit, p1, out1)
  }

  /** The two-byte header of RFC 1950, as stb_image insists on it: more data must follow. */
  predicate HeaderOk(s: seq<byte>) {
    && |s| > 2
    && Low(s[0], 4) == 8                                // compression method: deflate
    && Bit(s[1], 5) == 0                                // no preset dictionary
    && (256 * (s[0] as int) + s[1]) % 31 == 0
  }

  ghost function Inflate(s: seq<byte>, limit: nat, header: bool): Result {
    if !header then Blocks(s, limit, 0, [])
    else if HeaderOk(s) then Blocks(s, limit, 16, [])
    else Bad
  }
}
