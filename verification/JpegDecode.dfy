/** stb_image's JPEG entropy decoder: the table lookup, the preshifted search, and coefficients in one lookup. */
module JpegDecode {
  import opened Bits
  import opened Common
  import opened JpegCodes
  import opened JpegTables

  // ----- words and their bits

  /** The m bits that follow the first n of a w-bit word. */
  function Field(x: nat, w: nat, n: nat, m: nat): nat
    requires n + m <= w
  {
    Low(Shr(x, w - n - m), m)
  }

  lemma {:induction false} ShrTwice(x: nat, m: nat, n: nat)
    ensures Shr(Shr(x, m), n) == Shr(x, m + n)
  {
    if m == 0 {
    } else {
      ShrTwice(x / 2, m - 1, n);
    }
  }

  lemma ShrBound(x: nat, m: nat, n: nat)
    requires x < Pow2(m + n)
    ensures Shr(x, n) < Pow2(m)
  {
    ShlPow2(m, n);
    ShrBelow(x, Pow2(m), n);
  }

  /** Shifting the first n bits out of a w-bit word and keeping the leading m bits. */
  lemma ShiftedField(x: nat, w: nat, n: nat, m: nat)
    requires n + m <= w
    ensures Shr(Low(Shl(x, n), w), w - m) == Field(x, w, n, m)
  {
    var y := Low(Shl(x, n), w);
    LowBound(Shl(x, n), w);
    LowBound(Shr(x, w - n - m), m);
    hide Pow2, Shl, Shr, Low, Bit;
    ShrBound(y, m, w - m);
    forall k | 0 <= k < m ensures Bit(Shr(y, w - m), k) == Bit(Field(x, w, n, m), k) {
      BitShr(y, w - m, k);
      BitLow(Shl(x, n), w, k + (w - m));
      BitShl(x, n, k + (w - m));
      BitLow(Shr(x, w - n - m), m, k);
      BitShr(x, w - n - m, k);
    }
    SameBits(Shr(y, w - m), Field(x, w, n, m), m);
  }

  /** Section F.2.2.1: a value of t bits whose first bit is zero stands for a negative number. */
  function Extend(v: nat, t: nat): int
    requires t > 0
  {
    if v < Pow2(t - 1) then v - Pow2(t) + 1 else v
  }

  /** Section F.1.2.1: a value and the n bits that are written for it; a negative one is written one lower. */
  lemma ExtendInverts(x: int, n: nat)
    requires n > 0 && (Pow2(n - 1) <= x < Pow2(n) || Pow2(n - 1) <= -x < Pow2(n))
    ensures var v := if x > 0 then x else x - 1 + Pow2(n);
            0 <= v < Pow2(n) && Extend(v, n) == x
  {
  }

  // ----- rotation

  /** And with the complement of a mask clears the low bits. */
  lemma {:induction false} AndHigh(x: nat, m: nat, n: nat)
    requires x < Pow2(m + n)
    ensures And(x, Shl(Pow2(m) - 1, n)) == x - Low(x, n)
  {
    if n == 0 {
      AndMask(x, m);
      LowSmall(x, m);
    } else {
      AndHigh(x / 2, m, n - 1);
      if x / 2 == 0 { LowSmall(0, n - 1); }
      assert Shl(Pow2(m) - 1, n) / 2 == Shl(Pow2(m) - 1, n - 1);
    }
  }

  lemma {:induction false} Split(x: nat, n: nat)
    ensures x == Low(x, n) + Shl(Shr(x, n), n) && Low(x, n) < Pow2(n)
  {
    if n == 0 {
    } else {
      Split(x / 2, n - 1);
    }
  }

  lemma {:induction false} LowShl(x: nat, n: nat, m: nat)
    ensures Low(Shl(x, n), n + m) == Shl(Low(x, m), n)
  {
    if n == 0 {
    } else {
      LowShl(x, n - 1, m);
    }
  }

  /** stbi_lrot on a 32-bit word. */
  function Rotate(x: nat, n: nat): nat
    requires n <= 32
  {
    Or(Low(Shl(x, n), 32), Shr(x, 32 - n))
  }

  /** Rotating puts the leading n bits below the rest, where two masks part them. */
  lemma RotateParts(x: nat, n: nat)
    requires x < Pow2(32) && 1 <= n <= 16
    ensures And(Rotate(x, n), Pow2(n) - 1) == Shr(x, 32 - n)
    ensures And(Rotate(x, n), Shl(Pow2(32 - n) - 1, n)) == Low(Shl(x, n), 32)
  {
    hide *;
    ShrBound(x, n, 32 - n);
    LowBound(x, 32 - n);
    RotateIs(x, n);
    LowShl(x, n, 32 - n);
    MaskParts(Shr(x, 32 - n), Low(x, 32 - n), n);
  }

  lemma MaskParts(top: nat, low: nat, n: nat)
    requires top < Pow2(n) && n <= 32 && low < Pow2(32 - n)
    ensures var k := top + Shl(low, n);
      And(k, Pow2(n) - 1) == top && And(k, Shl(Pow2(32 - n) - 1, n)) == Shl(low, n)
  {
    hide *;
    var k := top + Shl(low, n);
    RotateBound(top, low, n);
    Unpack(top, low, n);
    AndMask(k, n);
    AndHigh(k, 32 - n, n);
  }

  lemma RotateIs(x: nat, n: nat)
    requires x < Pow2(32) && n <= 32
    ensures Rotate(x, n) == Shr(x, 32 - n) + Shl(Low(x, 32 - n), n)
  {
    hide Pow2, Shl, Shr, Low, Or;
    ShrBound(x, n, 32 - n);
    LowShl(x, n, 32 - n);
    OrCommutes(Shl(Low(x, 32 - n), n), Shr(x, 32 - n));
    OrShifted(Shr(x, 32 - n), Low(x, 32 - n), n);
  }

  lemma RotateBound(top: nat, low: nat, n: nat)
    requires top < Pow2(n) && n <= 32 && low < Pow2(32 - n)
    ensures top + Shl(low, n) < Pow2(32)
  {
    hide Pow2, Shl;
    ShlAdd(low, 1, n);
    ShlOne(n);
    ShlPow2(32 - n, n);
    ShlOrder(low + 1, Pow2(32 - n), n);
  }

  /** The sign bit of the word is the first bit of its leading field. */
  lemma SignBit(x: nat, n: nat)
    requires x < Pow2(32) && 1 <= n <= 16
    ensures Shr(x, 31) <= 1 && (Shr(x, 31) == 0 <==> Shr(x, 32 - n) < Pow2(n - 1))
  {
    hide Pow2, Shl, Shr;
    ShrTwice(x, 32 - n, n - 1);
    ShrBelow(Shr(x, 32 - n), 1, n - 1);
    ShlOne(n - 1);
    ShrBound(x, 1, 31);
    OneBit();
  }

  lemma OneBit()
    ensures Pow2(1) == 2
  {
  }

  // ----- lookups

  /** The one symbol that the nine-bit table cannot show: its number is the mark for no entry. */
  predicate Hidden(s: seq<nat>, i: nat)
    requires i < |s|
  {
    i == NOT_ACCELERATED && s[i] <= FAST_BITS
  }

  lemma {:induction false} Find(s: seq<nat>, n: nat, t: nat) returns (i: nat)
    requires Sizes(s) && n <= |s| && t < Start(s, n)
    ensures i < n && Matches(s, i, t)
  {
    if t >= Start(s, n - 1) {
      i := n - 1;
      MatchesExactly(s, i, t);
    } else {
      i := Find(s, n - 1, t);
    }
  }

  lemma FastLookup(fast: seq<nat>, s: seq<nat>, t: nat)
    requires Sizes(s) && FastOk(fast, s, |s|) && t < 65536
    ensures Shr(t, 7) < 512
    ensures var k := fast[Shr(t, 7)]; k != NOT_ACCELERATED ==> k < |s| && s[k] <= FAST_BITS && Matches(s, k, t)
    ensures fast[Shr(t, 7)] == NOT_ACCELERATED ==>
      forall i | 0 <= i < |s| && Matches(s, i, t) :: s[i] > FAST_BITS || Hidden(s, i)
  {
    Powers();
    ShrBound(t, 9, 7);
    var f := Shr(t, 7);
    hide Shr, Pow2, Matches;
    if fast[f] != NOT_ACCELERATED {
      ShortSize(s, fast[f], f);
      ShortMatches(s, fast[f], t);
    } else {
      forall i | 0 <= i < |s| && Matches(s, i, t) ensures s[i] > FAST_BITS || Hidden(s, i) {
        if s[i] <= FAST_BITS { ShortMatches(s, i, t); }
      }
    }
  }

  /** Without a match among the short codes the word lies past them. */
  lemma PastShort(s: seq<nat>, t: nat)
    requires Sizes(s) && forall i | 0 <= i < |s| && Matches(s, i, t) :: s[i] > FAST_BITS
    ensures t >= Start(s, Shorter(s, FAST_BITS))
  {
    if t < Start(s, Shorter(s, FAST_BITS)) {
      var i := Find(s, Shorter(s, FAST_BITS), t);
      assert false;
    }
  }

  /** The search stops at length k with the symbol at Shr(t, 16 - k) + d. */
  lemma SearchHit(s: seq<nat>, k: nat, m: nat, d: int, t: nat)
    requires Sizes(s) && 1 <= k <= 16 && LengthOk(s, k, m, d) && Start(s, Shorter(s, k - 1)) <= t < m
    ensures var c := Shr(t, MAX - k) + d; 0 <= c < |s| && s[c] == k && Matches(s, c, t)
  {
    var u, n := Shorter(s, k - 1), Shorter(s, k);
    assert forall i | u <= i < |s| :: s[i] > k - 1;
    assert forall i | 0 <= i < n :: s[i] <= k;
    assert u <= n;
    hide Shl, Shr, Start, Shorter, Matches;
    SlowHit(s, k, u, n, u - d, t);
  }

  lemma PastAll(s: seq<nat>, t: nat, i: nat)
    requires Sizes(s) && i < |s| && t >= Start(s, |s|)
    ensures !Matches(s, i, t)
  {
    hide Matches;
    MatchesExactly(s, i, t);
    StartMono(s, i + 1, |s|);
  }

  predicate AllVisible(s: seq<nat>) {
    forall i | 0 <= i < |s| :: !Hidden(s, i)
  }

  /** The symbol that the search makes of a word of the hidden symbol, from its first ten bits v: as if v were a
      ten-bit code before the first free one. */
  function Guess(s: seq<nat>, v: nat): int
    requires Sizes(s)
  {
    256 + v - Start(s, |s|) / 64
  }

  lemma {:induction false} StartAtLeast(s: seq<nat>, i: nat, k: nat)
    requires Sizes(s) && i <= |s| && k <= MAX && forall j | 0 <= j < |s| :: s[j] <= k
    ensures Start(s, i) >= Times(i, Pow2(MAX - k))
  {
    if i == 0 {
    } else {
      StartAtLeast(s, i - 1, k);
      Pow2Mono(MAX - k, MAX - s[i - 1]);
      TimesNext(i - 1, Pow2(MAX - k));
      hide Times, Pow2;
    }
  }

  /** A hidden symbol's code has eight or nine bits: 256 shorter codes do not fit. */
  lemma HiddenSize(s: seq<nat>, i: nat)
    requires Sizes(s) && Fits(s) && i < |s| && Hidden(s, i)
    ensures |s| == 256 && i == 255 && 8 <= s[i]
    ensures Start(s, 255) + 128 <= Start(s, 256) <= Start(s, 255) + 256 && Start(s, 256) <= 65536
  {
    hide Fits, Start, Pow2, Sizes;
    FitsExactly(s);
    LowPowers();
    AtMost256(s);
    NotShorter(s);
    StartNext(s, 255);
  }

  lemma NotShorter(s: seq<nat>)
    requires Sizes(s) && |s| == 256 && Start(s, 256) <= 65536
    ensures s[255] >= 8
  {
    hide Start;
    if s[255] <= 7 {
      assert Pow2(9) == 512 by { LowPowers(); }
      StartAtLeast(s, 256, 7);
    }
  }

  lemma StartNext(s: seq<nat>, i: nat)
    requires Sizes(s) && i < |s|
    ensures Start(s, i + 1) == Start(s, i) + Pow2(MAX - s[i])
  {
  }

  lemma LowPowers()
    ensures Pow2(7) == 128 && Pow2(8) == 256 && Pow2(9) == 512 && Pow2(16) == 65536
  {
    Pow2Table();
  }

  lemma SixBits(x: nat)
    ensures Shl(x, 6) == 64 * x && Shr(x, 6) == x / 64
  {
    assert Shl(x, 1) == 2 * x && Shl(x, 2) == 4 * x && Shl(x, 3) == 8 * x;
    assert Shl(x, 4) == 16 * x && Shl(x, 5) == 32 * x;
    assert Pow2(6) == 64 by { Pow2Table(); }
    Split(x, 6);
    SixUp(Shr(x, 6));
  }

  lemma SixUp(x: nat)
    ensures Shl(x, 6) == 64 * x
  {
    assert Shl(x, 1) == 2 * x && Shl(x, 2) == 4 * x && Shl(x, 3) == 8 * x;
    assert Shl(x, 4) == 16 * x && Shl(x, 5) == 32 * x;
  }

  lemma {:induction false} ShortMultiple(s: seq<nat>, i: nat) returns (q: nat)
    requires Sizes(s) && i <= |s| && forall j | 0 <= j < |s| :: s[j] <= 9
    ensures Start(s, i) == 128 * q
  {
    hide Pow2;
    if i == 0 {
      q := 0;
    } else {
      q := ShortMultiple(s, i - 1);
      q := q + Pow2(9 - s[i - 1]);
      NineDivides(s[i - 1]);
    }
  }

  lemma NineDivides(k: nat)
    requires k <= 9
    ensures Pow2(MAX - k) == 128 * Pow2(9 - k)
  {
    var e := 9 - k;
    assert Pow2(e + 1) == 2 * Pow2(e) && Pow2(e + 2) == 4 * Pow2(e) && Pow2(e + 3) == 8 * Pow2(e);
    assert Pow2(e + 4) == 16 * Pow2(e) && Pow2(e + 5) == 32 * Pow2(e) && Pow2(e + 6) == 64 * Pow2(e);
  }

  lemma Blocks64(end: nat, q: nat, t: nat)
    requires end == 128 * q && end <= t + 256 && t < end
    ensures 252 <= 256 + t / 64 - end / 64 <= 255 && (256 + t / 64 - end / 64 == 255 <==> t + 64 >= end)
  {
    var v, w := t / 64, t % 64;
    assert t == 64 * v + w;
    assert end / 64 == 2 * q;
  }

  /** The guess is right for the last 64 words of the hidden symbol, and for no other. */
  lemma GuessRight(s: seq<nat>, i: nat, t: nat)
    requires Sizes(s) && Fits(s) && i < |s| && Hidden(s, i) && Matches(s, i, t)
    ensures |s| == 256 && 252 <= Guess(s, Shr(t, 6)) <= 255 && t < Start(s, 256)
    ensures Guess(s, Shr(t, 6)) == 255 <==> t + 64 >= Start(s, |s|)
  {
    AtMost256(s);
    var q := ShortMultiple(s, |s|);
    hide Matches, Start, Shr, Fits, Sizes;
    MatchesExactly(s, i, t);
    HiddenSize(s, i);
    SixBits(t);
    Blocks64(Start(s, 256), q, t);
  }

  /** A word of the hidden symbol stops the search at ten bits, whatever the length of its code. */
  lemma HiddenStops(s: seq<nat>, i: nat, t: nat, m: nat, d: int)
    requires Sizes(s) && Fits(s) && i < |s| && Hidden(s, i) && Matches(s, i, t) && LengthOk(s, 10, m, d)
    ensures t < m && Shr(t, 6) + d == Guess(s, Shr(t, 6))
  {
    hide Matches, Start, Shl, Shr, Fits, Shorter;
    GuessRight(s, i, t);
    ShorterIs(s, 10, |s|);
    ShorterIs(s, 9, |s|);
    SixUp(256 - d);
  }

  lemma FieldIs(x: nat, k: nat)
    requires x < Pow2(32) && 1 <= k <= 16
    ensures And(Shr(x, 32 - k), Pow2(k) - 1) == Shr(Shr(x, 16), 16 - k)
  {
    hide *;
    ShrBound(x, k, 32 - k);
    AndMask(Shr(x, 32 - k), k);
    LowSmall(Shr(x, 32 - k), k);
    ShrTwice(x, 16, 16 - k);
  }

  /** The lengths before the search stops. */
  lemma SearchedPast(h: JHuffman, s: seq<nat>, t: nat, len: nat)
    requires h.Arrays() && Sizes(s) && h.Ranges(s, 17) && 10 <= len <= 17
    requires forall n | 10 <= n < len :: t >= h.maxcode[n]
    requires t >= Start(s, Shorter(s, 9))
    ensures t >= Start(s, Shorter(s, len - 1))
  {
    if len > 10 { assert LengthOk(s, len - 1, h.maxcode[len - 1], h.delta[len - 1]); }
  }

  method Search(h: JHuffman, t: nat) returns (len: nat)
    requires h.Arrays() && t < 65536 && h.maxcode[17] == 0xffff_ffff
    ensures 10 <= len <= 17 && t < h.maxcode[len] && forall n | 10 <= n < len :: t >= h.maxcode[n]
  {
    len := 10;
    while t >= h.maxcode[len]
      invariant 10 <= len <= 17 && forall n | 10 <= n < len :: t >= h.maxcode[n]
      decreases 17 - len
    {
      len := len + 1;
    }
  }

  /** The answer for the 16 bits t: the symbol that matches and the length of its code, or length 17 for none.
      For the hidden symbol, the length is always ten and the symbol is a guess. */
  predicate Answer(s: seq<nat>, t: nat, i: int, len: nat)
    requires Sizes(s)
  {
    && (forall j | 0 <= j < |s| && Matches(s, j, t) && !Hidden(s, j) :: i == j && len == s[j])
    && (forall j | 0 <= j < |s| && Matches(s, j, t) && Hidden(s, j) :: 0 <= i == Guess(s, Shr(t, 6)) && len == 10)
    && ((forall j | 0 <= j < |s| :: !Matches(s, j, t)) ==> i == -1 && len == 17)
  }

  lemma FastAnswer(fast: seq<nat>, s: seq<nat>, t: nat)
    requires Sizes(s) && FastOk(fast, s, |s|) && t < 65536
    ensures Shr(t, 7) < 512
    ensures var k := fast[Shr(t, 7)]; k != NOT_ACCELERATED ==> k < |s| && 1 <= s[k] <= 16 && Answer(s, t, k, s[k])
  {
    FastLookup(fast, s, t);
    var k := fast[Shr(t, 7)];
    hide Shr, FastOk, Matches;
    if k != NOT_ACCELERATED {
      forall j | 0 <= j < |s| && Matches(s, j, t) ensures j == k { MatchesOnce(s, j, k, t); }
    }
  }

  lemma SearchAnswer(h: JHuffman, s: seq<nat>, t: nat, len: nat)
    requires h.Arrays() && h.Tables(s) && t < 65536 && Shr(t, 7) < 512 && h.fast[Shr(t, 7)] == NOT_ACCELERATED
    requires 10 <= len <= 17 && t < h.maxcode[len] && forall n | 10 <= n < len :: t >= h.maxcode[n]
    ensures len == 17 ==> Answer(s, t, -1, 17)
    ensures len < 17 ==> var c := Shr(t, 16 - len) + h.delta[len]; 0 <= c < |s| && Answer(s, t, c, len)
  {
    hide Shr, Matches, FastOk, Fits, JHuffman.Codes, JHuffman.Ranges, Start, Shorter, LengthOk, Hidden, Answer;
    AtMost256(s);
    FastLookup(h.fast[..], s, t);
    hide Sizes, JHuffman.Tables, JHuffman.Arrays;
    Searched(h, s, t, len);
  }

  lemma AtMost256(s: seq<nat>)
    requires Sizes(s)
    ensures |s| <= 256
  {
  }

  lemma TableAnswer(h: JHuffman, s: seq<nat>, t: nat)
    requires h.Arrays() && h.Tables(s) && t < 65536
    ensures Shr(t, 7) < 512 && h.maxcode[17] == 0xffff_ffff
    ensures var k := h.fast[Shr(t, 7)];
      k < NOT_ACCELERATED ==> k < |s| <= 256 && 1 <= h.size[k] <= 16 && Answer(s, t, k, h.size[k])
    ensures h.fast[Shr(t, 7)] <= NOT_ACCELERATED
  {
    hide Shr, FastOk, Fits, JHuffman.Codes, JHuffman.Ranges, Answer;
    FastAnswer(h.fast[..], s, t);
    var k := h.fast[Shr(t, 7)];
    if k != NOT_ACCELERATED { assert h.size[..|s|][k] == s[k]; }
  }

  lemma Lengths(h: JHuffman, s: seq<nat>)
    requires h.Arrays() && h.Tables(s)
    ensures h.fast.Length == 512 && h.size.Length == 257 && h.delta.Length == 17 && h.maxcode.Length == 18 && Sizes(s)
  {
  }

  /** The symbol and the code length that a 32-bit word begins with. */
  method Lookup(h: JHuffman, x: nat, ghost s: seq<nat>) returns (i: int, len: nat)
    requires h.Arrays() && h.Tables(s) && x < Pow2(32)
    ensures Sizes(s) && Answer(s, Shr(x, 16), i, len) && -1 <= i < |s| <= 256 && 1 <= len <= 17
  {
    hide *;
    Lengths(h, s);
    WordBound(x);
    ShrTwice(x, 16, 7);
    TableAnswer(h, s, Shr(x, 16));
    var k := h.fast[Shr(x, 23)];
    if k < NOT_ACCELERATED { return k, h.size[k]; }
    i, len := SlowLookup(h, x, s);
  }

  /** The source asserts this of the symbol that the search has found. */
  predicate Asserted(h: JHuffman, x: nat, c: nat)
    requires h.Arrays() && c < 256 && h.size[c] <= 16
    reads h.size, h.code
  {
    And(Shr(x, 32 - h.size[c]), Pow2(h.size[c]) - 1) == h.code[c]
  }

  /** The assertion says that the word begins with the symbol's code. */
  lemma AssertedExactly(h: JHuffman, s: seq<nat>, x: nat, c: nat)
    requires h.Arrays() && h.Tables(s) && x < Pow2(32) && c < |s|
    ensures c < 256 && 1 <= h.size[c] == s[c] <= 16
    ensures Asserted(h, x, c) <==> Matches(s, c, Shr(x, 16))
  {
    hide Shr, And, Code, Pow2, JHuffman.Ranges, FastOk;
    assert h.size[..|s|][c] == s[c];
    assert h.code[c] == Code(s, c) % 65536;
    CodeOfSize(s, c);
    FieldIs(x, s[c]);
  }

  lemma CodeOfSize(s: seq<nat>, c: nat)
    requires Sizes(s) && Fits(s) && c < |s|
    ensures 1 <= s[c] <= 16 && Code(s, c) % 65536 == Code(s, c)
  {
    hide Code, Pow2;
    Powers();
    Pow2Mono(s[c], 16);
  }

  /** The search behind the nine-bit table. The range check on the symbol never fires. The assertion fails exactly
      for those words of a hidden symbol that are not among its last 64. */
  method SlowLookup(h: JHuffman, x: nat, ghost s: seq<nat>) returns (i: int, len: nat)
    requires h.Arrays() && h.Tables(s) && x < Pow2(32) && Shr(x, 16) < 65536 && Shr(Shr(x, 16), 7) < 512
    requires h.fast[Shr(Shr(x, 16), 7)] == NOT_ACCELERATED && h.maxcode[17] == 0xffff_ffff
    ensures Answer(s, Shr(x, 16), i, len) && -1 <= i < |s| <= 256 && 10 <= len <= 17
    ensures i >= 0 ==> h.size[i] <= 16 && (Asserted(h, x, i) <==> AllVisible(s) || Shr(x, 16) + 64 >= Start(s, |s|))
  {
    hide *;
    Lengths(h, s);
    AtMost256(s);
    var t := Shr(x, 16);
    len := Search(h, t);
    SearchAnswer(h, s, t, len);
    i := -1;
    if len == 17 { return; }
    FieldIs(x, len);
    var c := And(Shr(x, 32 - len), Pow2(len) - 1) + h.delta[len];
    if c < 0 || c >= 256 { assert false; }
    AssertionFails(h, s, x, c, len);
    i := c;
  }

  lemma AssertionFails(h: JHuffman, s: seq<nat>, x: nat, c: nat, len: nat)
    requires h.Arrays() && h.Tables(s) && x < Pow2(32) && c < |s| && 10 <= len < 17
    requires Answer(s, Shr(x, 16), c, len) && Shr(x, 16) < 65536
    requires Shr(Shr(x, 16), 7) < 512 && h.fast[Shr(Shr(x, 16), 7)] == NOT_ACCELERATED
    ensures c < 256 && h.size[c] <= 16 && (Asserted(h, x, c) <==> AllVisible(s) || Shr(x, 16) + 64 >= Start(s, |s|))
  {
    var t := Shr(x, 16);
    AssertedExactly(h, s, x, c);
    FastLookup(h.fast[..], s, t);
    hide Shr, Matches, Asserted, FastOk, JHuffman.Codes, Start;
    var j :| 0 <= j < |s| && Matches(s, j, t);
    if Hidden(s, j) {
      GuessRight(s, j, t);
      if Matches(s, c, t) { MatchesOnce(s, c, j, t); }
    }
  }

  lemma WordBound(x: nat)
    requires x < Pow2(32)
    ensures Shr(x, 16) < 65536
  {
    Powers();
    ShrBound(x, 16, 16);
  }

  /** What the search has found, when the nine-bit table had no entry. */
  lemma Searched(h: JHuffman, s: seq<nat>, t: nat, len: nat)
    requires h.Arrays() && Sizes(s) && Fits(s) && h.Ranges(s, 17) && 10 <= len <= 17
    requires t < h.maxcode[len] && forall n | 10 <= n < len :: t >= h.maxcode[n]
    requires forall j | 0 <= j < |s| && Matches(s, j, t) :: s[j] > FAST_BITS || Hidden(s, j)
    ensures len == 17 ==> Answer(s, t, -1, 17)
    ensures len < 17 ==> var c := Shr(t, 16 - len) + h.delta[len]; 0 <= c < |s| && Answer(s, t, c, len)
  {
    hide Shr, Matches, Start, Shorter, Fits;
    if j :| 0 <= j < |s| && Hidden(s, j) && Matches(s, j, t) {
      GuessRight(s, j, t);
      HiddenStops(s, j, t, h.maxcode[10], h.delta[10]);
      forall k | 0 <= k < |s| && Matches(s, k, t) ensures k == j { MatchesOnce(s, j, k, t); }
    } else {
      PastShort(s, t);
      SearchedPast(h, s, t, len);
      if len == 17 {
        ShorterIs(s, 16, |s|);
        forall j | 0 <= j < |s| ensures !Matches(s, j, t) { PastAll(s, t, j); }
      } else {
        SearchHit(s, len, h.maxcode[len], h.delta[len], t);
        var c := Shr(t, 16 - len) + h.delta[len];
        forall k | 0 <= k < |s| && Matches(s, k, t) ensures k == c { MatchesOnce(s, c, k, t); }
      }
    }
  }

  /** A table with a hidden symbol has words for which the length found is wrong. */
  lemma HiddenWord(s: seq<nat>) returns (t: nat)
    requires Sizes(s) && Fits(s) && !AllVisible(s)
    ensures |s| == 256 && s[255] <= 9 && t < 65536 && Matches(s, 255, t)
    ensures forall i: int, len: nat :: Answer(s, t, i, len) ==> len == 10 && i != 255
  {
    var j :| 0 <= j < |s| && Hidden(s, j);
    HiddenSize(s, j);
    t := Start(s, 255);
    hide Fits, Matches, Start, Guess, Shr;
    MatchesExactly(s, 255, t);
    GuessRight(s, 255, t);
  }

  /** Such a table is accepted, and every count in it is a byte: 255 codes of eight bits and one of nine. */
  lemma HiddenTable(count: seq<nat>)
    requires |count| == 16 && count[7] == 255 && count[8] == 1 && forall i | 0 <= i < 16 && i != 7 && i != 8 :: count[i] == 0
    ensures var s := SizeList(count, 16); Sizes(s) && Fits(s) && !AllVisible(s)
  {
    EmptyBelow(count, 7);
    EmptyAbove(count, 16);
    var s := SizeList(count, 9);
    assert s == [] + Repeat(8, count[7]) + Repeat(9, count[8]);
    hide SizeList, Repeat;
    HiddenSizes(s);
  }

  lemma HiddenSizes(s: seq<nat>)
    requires |s| == 256 && s[255] == 9 && forall i | 0 <= i < 255 :: s[i] == 8
    ensures Sizes(s) && Fits(s) && !AllVisible(s)
  {
    assert Sizes(s) && Hidden(s, 255);
    hide Fits, Sizes, Start, Pow2;
    StartNext(s, 255);
    EightBits(s, 255);
    LowPowers();
    FitsExactly(s);
  }

  lemma {:induction false} EmptyBelow(count: seq<nat>, n: nat)
    requires n <= |count| && forall i | 0 <= i < n :: count[i] == 0
    ensures SizeList(count, n) == []
  {
    if n == 0 {
    } else {
      EmptyBelow(count, n - 1);
    }
  }

  lemma {:induction false} EmptyAbove(count: seq<nat>, n: nat)
    requires 9 <= n <= |count| && forall i | 9 <= i < n :: count[i] == 0
    ensures SizeList(count, n) == SizeList(count, 9)
  {
    if n <= 9 {
    } else {
      EmptyAbove(count, n - 1);
    }
  }

  lemma {:induction false} EightBits(s: seq<nat>, i: nat)
    requires Sizes(s) && i <= |s| && forall j | 0 <= j < i :: s[j] == 8
    ensures Start(s, i) == 256 * i
  {
    if i == 0 {
    } else {
      EightBits(s, i - 1);
      assert Pow2(8) == 256 by { Pow2Table(); }
    }
  }
}
