/** Unsigned bit operations on natural numbers, and the bit reversal of stb_image.
    A C expression on an unsigned word is written here with the same operators:
    `x & y` is And(x, y), `x | y` is Or(x, y), `x << n` is Shl(x, n), `x >> n` is Shr(x, n). */
module Bits {

  function Pow2(n: nat): (r: nat)
    ensures r >= 1
  {
    if n == 0 then 1 else 2 * Pow2(n - 1)
  }

  function And(x: nat, y: nat): nat {
    if x == 0 || y == 0 then 0
    else 2 * And(x / 2, y / 2) + (if x % 2 == 1 && y % 2 == 1 then 1 else 0)
  }

  function Or(x: nat, y: nat): nat {
    if x == 0 then y
    else if y == 0 then x
    else 2 * Or(x / 2, y / 2) + (if x % 2 == 1 || y % 2 == 1 then 1 else 0)
  }

  function Xor(x: nat, y: nat): nat {
    if x == 0 then y
    else if y == 0 then x
    else 2 * Xor(x / 2, y / 2) + (if x % 2 != y % 2 then 1 else 0)
  }

  function Shl(x: nat, n: nat): nat {
    if n == 0 then x else 2 * Shl(x, n - 1)
  }

  function Shr(x: nat, n: nat): nat {
    if n == 0 then x else Shr(x / 2, n - 1)
  }

  /** The low n bits of x. */
  function Low(x: nat, n: nat): nat {
    if n == 0 then 0 else x % 2 + 2 * Low(x / 2, n - 1)
  }

  /** Bit k of x, as 0 or 1. */
  function Bit(x: nat, k: nat): (b: nat)
    ensures b <= 1
  {
    if k == 0 then x % 2 else Bit(x / 2, k - 1)
  }

  /** The low n bits of v in the opposite order. */
  function Rev(v: nat, n: nat): (r: nat)
    ensures r < Pow2(n)
  {
    if n == 0 then 0 else (if v % 2 == 1 then Pow2(n - 1) else 0) + Rev(v / 2, n - 1)
  }

  /** A product that a proof may hide. */
  function Times(a: nat, b: nat): nat { a * b }

  lemma TimesNext(a: nat, b: nat)
    ensures Times(a + 1, b) == Times(a, b) + b
  {
  }

  // ----- masks and shifts

  lemma {:induction false} AndMask(x: nat, n: nat)
    ensures And(x, Pow2(n) - 1) == Low(x, n)
  {
    if n == 0 {
    } else {
      assert (Pow2(n) - 1) / 2 == Pow2(n - 1) - 1;
      AndMask(x / 2, n - 1);
      if x == 0 { LowSmall(0, n); }
    }
  }

  /** Exclusive or with ones complements the low bits. */
  lemma {:induction false} XorOnes(x: nat, n: nat)
    requires x < Pow2(n)
    ensures Xor(x, Pow2(n) - 1) == Pow2(n) - 1 - x
  {
    if n == 0 {
    } else {
      assert (Pow2(n) - 1) / 2 == Pow2(n - 1) - 1;
      XorOnes(x / 2, n - 1);
    }
  }

  lemma {:induction false} LowSmall(x: nat, n: nat)
    requires x < Pow2(n)
    ensures Low(x, n) == x
  {
    if n == 0 {
    } else {
      LowSmall(x / 2, n - 1);
    }
  }

  lemma {:induction false} LowBound(x: nat, n: nat)
    ensures Low(x, n) < Pow2(n)
  {
    if n == 0 {
    } else {
      LowBound(x / 2, n - 1);
    }
  }

  /** Or of disjoint parts is a sum: the low part stays below the shifted one. */
  lemma {:induction false} OrShifted(x: nat, y: nat, n: nat)
    requires x < Pow2(n)
    ensures Or(x, Shl(y, n)) == x + Shl(y, n)
  {
    if n == 0 {
    } else {
      assert Shl(y, n) / 2 == Shl(y, n - 1) && Shl(y, n) % 2 == 0;
      OrShifted(x / 2, y, n - 1);
    }
  }

  /** Comparing against a preshifted bound compares the leading bits. */
  lemma {:induction false} ShrBelow(x: nat, c: nat, n: nat)
    ensures x < Shl(c, n) <==> Shr(x, n) < c
  {
    if n == 0 {
    } else {
      ShrBelow(x / 2, c, n - 1);
    }
  }

  lemma {:induction false} OrCommutes(x: nat, y: nat)
    ensures Or(x, y) == Or(y, x)
  {
    if x == 0 || y == 0 {
    } else {
      OrCommutes(x / 2, y / 2);
    }
  }

  /** A low part and a shifted part can be taken apart again. */
  lemma {:induction false} Unpack(x: nat, y: nat, n: nat)
    requires x < Pow2(n)
    ensures Shr(x + Shl(y, n), n) == y && Low(x + Shl(y, n), n) == x
  {
    if n == 0 {
    } else {
      assert (x + Shl(y, n)) / 2 == x / 2 + Shl(y, n - 1);
      Unpack(x / 2, y, n - 1);
    }
  }

  /** Words that agree on their low n bits are at least 2^n apart. */
  lemma {:induction false} LowApart(x: nat, y: nat, n: nat)
    requires Low(x, n) == Low(y, n) && x <= y < x + Pow2(n)
    ensures x == y
  {
    if n == 0 {
    } else {
      LowApart(x / 2, y / 2, n - 1);
    }
  }

  lemma {:induction false} LowStep(x: nat, n: nat)
    ensures Low(x + Pow2(n), n) == Low(x, n)
  {
    if n == 0 {
    } else {
      assert (x + Pow2(n)) / 2 == x / 2 + Pow2(n - 1);
      LowStep(x / 2, n - 1);
    }
  }

  lemma {:induction false} Pow2Add(m: nat, n: nat)
    ensures Pow2(m + n) == Pow2(m) * Pow2(n)
  {
    if m == 0 {
    } else {
      Pow2Add(m - 1, n);
    }
  }

  lemma {:induction false} Pow2Mono(m: nat, n: nat)
    requires m <= n
    ensures Pow2(m) <= Pow2(n)
  {
    if m >= n {
    } else {
      Pow2Mono(m, n - 1);
    }
  }

  lemma Pow2Table()
    ensures Pow2(0) == 1 && Pow2(1) == 2 && Pow2(2) == 4 && Pow2(3) == 8 && Pow2(4) == 16 && Pow2(5) == 32
    ensures Pow2(6) == 64 && Pow2(7) == 128 && Pow2(8) == 256 && Pow2(9) == 512 && Pow2(10) == 1024
    ensures Pow2(11) == 2048 && Pow2(12) == 4096 && Pow2(13) == 8192 && Pow2(14) == 16384
    ensures Pow2(15) == 32768 && Pow2(16) == 65536 && Pow2(24) == 0x100_0000 && Pow2(32) == 0x1_0000_0000
  {
    assert Pow2(8) == 256;
    Pow2Add(8, 8);
    Pow2Add(8, 16);
    Pow2Add(16, 16);
  }

  // ----- bits of the operators

  lemma {:induction false} BitZero(k: nat)
    ensures Bit(0, k) == 0
  {
    if k == 0 {
    } else {
      BitZero(k - 1);
    }
  }

  lemma {:induction false} BitAnd(x: nat, y: nat, k: nat)
    ensures Bit(And(x, y), k) == if Bit(x, k) == 1 && Bit(y, k) == 1 then 1 else 0
  {
    if x == 0 || y == 0 {
      BitZero(k);
    } else if k != 0 {
      BitAnd(x / 2, y / 2, k - 1);
    }
  }

  lemma {:induction false} BitOr(x: nat, y: nat, k: nat)
    ensures Bit(Or(x, y), k) == if Bit(x, k) == 1 || Bit(y, k) == 1 then 1 else 0
  {
    if x == 0 || y == 0 {
      BitZero(k);
    } else if k != 0 {
      BitOr(x / 2, y / 2, k - 1);
    }
  }

  lemma {:induction false} BitShl(x: nat, n: nat, k: nat)
    ensures Bit(Shl(x, n), k) == if k < n then 0 else Bit(x, k - n)
  {
    if n == 0 || k == 0 {
    } else {
      BitShl(x, n - 1, k - 1);
    }
  }

  lemma {:induction false} BitShr(x: nat, n: nat, k: nat)
    ensures Bit(Shr(x, n), k) == Bit(x, k + n)
  {
    if n == 0 {
    } else {
      BitShr(x / 2, n - 1, k);
    }
  }

  lemma {:induction false} ShrHalves(w: nat, n: nat)
    ensures Shr(w, n) == 2 * Shr(w, n + 1) + Bit(w, n)
  {
    if n == 0 {
    } else {
      ShrHalves(w / 2, n - 1);
    }
  }

  lemma {:induction false} BitLow(x: nat, n: nat, k: nat)
    requires k < n
    ensures Bit(Low(x, n), k) == Bit(x, k)
  {
    var low := Low(x / 2, n - 1);
    assert Low(x, n) == x % 2 + 2 * low;
    Halved(x % 2, low);
    hide Low;
    if k == 0 {
    } else {
      BitLow(x / 2, n - 1, k - 1);
    }
  }

  lemma Halved(b: nat, x: nat)
    requires b <= 1
    ensures (b + 2 * x) / 2 == x && (b + 2 * x) % 2 == b
  {
  }

  lemma {:induction false} BitRev(v: nat, n: nat, k: nat)
    requires k < n
    ensures Bit(Rev(v, n), k) == Bit(v, n - 1 - k)
  {
    BitOfSum(v % 2, Rev(v / 2, n - 1), n - 1, k);
    if k >= n - 1 {
    } else {
      BitRev(v / 2, n - 1, k);
    }
  }

  lemma {:induction false} BitOfSum(t: nat, r: nat, n: nat, k: nat)
    requires t <= 1 && r < Pow2(n) && k <= n
    ensures Bit(t * Pow2(n) + r, k) == if k == n then t else Bit(r, k)
  {
    if n == 0 {
    } else {
      assert t * Pow2(n) == 2 * (t * Pow2(n - 1));
      assert (t * Pow2(n) + r) / 2 == t * Pow2(n - 1) + r / 2;
      if k != 0 { BitOfSum(t, r / 2, n - 1, k - 1); }
    }
  }

  lemma {:induction false} SameBits(x: nat, y: nat, n: nat)
    requires x < Pow2(n) && y < Pow2(n)
    requires forall k | 0 <= k < n :: Bit(x, k) == Bit(y, k)
    ensures x == y
  {
    if n == 0 {
    } else {
      assert Bit(x, 0) == Bit(y, 0);
      forall k | 0 <= k < n - 1 ensures Bit(x / 2, k) == Bit(y / 2, k) {
        assert Bit(x, k + 1) == Bit(y, k + 1);
      }
      SameBits(x / 2, y / 2, n - 1);
    }
  }

  lemma {:induction false} RevInvolutive(v: nat, n: nat)
    requires v < Pow2(n)
    ensures Rev(Rev(v, n), n) == v
  {
    forall k | 0 <= k < n ensures Bit(Rev(Rev(v, n), n), k) == Bit(v, k) {
      BitRev(Rev(v, n), n, k);
      BitRev(v, n, n - 1 - k);
    }
    SameBits(Rev(Rev(v, n), n), v, n);
  }

  // ----- stbi__bitreverse16 and stbi__bit_reverse

  /** One exchange of neighbouring groups of s bits. */
  function Exchange(n: nat, high: nat, low: nat, s: nat): nat {
    Or(Shr(And(n, high), s), Shl(And(n, low), s))
  }

  function BitReverse16(n: nat): nat {
    var n1 := Exchange(n, 0xAAAA, 0x5555, 1);
    var n2 := Exchange(n1, 0xCCCC, 0x3333, 2);
    var n3 := Exchange(n2, 0xF0F0, 0x0F0F, 4);
    Exchange(n3, 0xFF00, 0x00FF, 8)
  }

  function BitReverse(v: nat, bits: nat): nat
    requires bits <= 16
  {
    Shr(BitReverse16(v), 16 - bits)
  }

  lemma BitExchange(n: nat, high: nat, low: nat, s: nat, k: nat)
    ensures Bit(Exchange(n, high, low, s), k) ==
            if (Bit(n, k + s) == 1 && Bit(high, k + s) == 1) || (k >= s && Bit(n, k - s) == 1 && Bit(low, k - s) == 1) then 1 else 0
  {
    BitOr(Shr(And(n, high), s), Shl(And(n, low), s), k);
    BitShr(And(n, high), s, k);
    BitShl(And(n, low), s, k);
    BitAnd(n, high, k + s);
    if k >= s { BitAnd(n, low, k - s); }
  }

  lemma BitNibble(y: nat, d: nat, k: nat)
    requires d < 16
    ensures Bit(16 * y + d, k) == if k < 4 then Bit(d, k) else Bit(y, k - 4)
  {
    var x := 16 * y + d;
    assert x / 2 == 8 * y + d / 2 && x / 2 / 2 == 4 * y + d / 2 / 2;
    assert x / 2 / 2 / 2 == 2 * y + d / 2 / 2 / 2 && x / 2 / 2 / 2 / 2 == y;
    if k >= 4 {
      assert Bit(x, k) == Bit(x / 2, k - 1) == Bit(x / 2 / 2, k - 2) == Bit(x / 2 / 2 / 2, k - 3);
    } else if k == 1 {
    } else if k == 2 {
      assert Bit(x, k) == Bit(x / 2, 1) == Bit(x / 2 / 2, 0);
      assert Bit(d, k) == Bit(d / 2, 1) == Bit(d / 2 / 2, 0);
    } else if k == 3 {
      assert Bit(x, k) == Bit(x / 2, 2) == Bit(x / 2 / 2, 1) == Bit(x / 2 / 2 / 2, 0);
      assert Bit(d, k) == Bit(d / 2, 2) == Bit(d / 2 / 2, 1) == Bit(d / 2 / 2 / 2, 0);
    }
  }

  /** The bits of a mask written with four hexadecimal digits. */
  lemma BitMask(a: nat, b: nat, c: nat, d: nat, k: nat)
    requires a < 16 && b < 16 && c < 16 && d < 16
    ensures Bit(16 * (16 * (16 * a + b) + c) + d, k) ==
            if k < 4 then Bit(d, k) else if k < 8 then Bit(c, k - 4) else if k < 12 then Bit(b, k - 8)
            else if k < 16 then Bit(a, k - 12) else 0
  {
    BitNibble(16 * (16 * a + b) + c, d, k);
    if k >= 4 { BitNibble(16 * a + b, c, k - 4); }
    if k >= 8 { BitNibble(a, b, k - 8); }
    if k >= 12 { BitNibble(0, a, k - 12); }
    if k >= 16 { BitZero(k - 16); }
  }

  lemma NibbleBits(k: nat)
    requires k < 4
    ensures Bit(0, k) == 0 && Bit(0xF, k) == 1
    ensures Bit(0xA, k) == k % 2 && Bit(0x5, k) == 1 - k % 2
    ensures Bit(0xC, k) == k / 2 && Bit(0x3, k) == 1 - k / 2
  {
    if k == 0 {} else if k == 1 {} else if k == 2 {} else {}
  }

  /** Which bits the eight masks select. */
  lemma MaskBits(k: nat)
    ensures Bit(0xAAAA, k) == (if k < 16 then k % 2 else 0) && Bit(0x5555, k) == (if k < 16 then 1 - k % 2 else 0)
    ensures Bit(0xCCCC, k) == (if k < 16 then k % 4 / 2 else 0) && Bit(0x3333, k) == (if k < 16 then 1 - k % 4 / 2 else 0)
    ensures Bit(0xF0F0, k) == (if k < 16 then k % 8 / 4 else 0) && Bit(0x0F0F, k) == (if k < 16 then 1 - k % 8 / 4 else 0)
    ensures Bit(0xFF00, k) == (if k < 16 then k / 8 else 0) && Bit(0x00FF, k) == (if k < 16 then 1 - k / 8 else 0)
  {
    hide *;
    BitMask(0xA, 0xA, 0xA, 0xA, k);
    BitMask(0x5, 0x5, 0x5, 0x5, k);
    BitMask(0xC, 0xC, 0xC, 0xC, k);
    BitMask(0x3, 0x3, 0x3, 0x3, k);
    BitMask(0xF, 0, 0xF, 0, k);
    BitMask(0, 0xF, 0, 0xF, k);
    BitMask(0xF, 0xF, 0, 0, k);
    BitMask(0, 0, 0xF, 0xF, k);
    NibbleBits(k % 4);
    assert k < 16 ==> k % 4 == (if k < 4 then k else if k < 8 then k - 4 else if k < 12 then k - 8 else k - 12);
  }

  lemma Exchange1(n: nat, g: nat, h: nat)
    requires g < 8 && h <= 1
    ensures Bit(Exchange(n, 0xAAAA, 0x5555, 1), 2 * g + h) == Bit(n, 2 * g + (1 - h))
  {
    hide *;
    var k := 2 * g + h;
    BitExchange(n, 0xAAAA, 0x5555, 1, k);
    MaskBits(k + 1);
    if k >= 1 { MaskBits(k - 1); }
  }

  lemma Exchange2(n: nat, g: nat, h: nat, r: nat)
    requires g < 4 && h <= 1 && r < 2
    ensures Bit(Exchange(n, 0xCCCC, 0x3333, 2), 4 * g + 2 * h + r) == Bit(n, 4 * g + 2 * (1 - h) + r)
  {
    hide *;
    var k := 4 * g + 2 * h + r;
    BitExchange(n, 0xCCCC, 0x3333, 2, k);
    MaskBits(k + 2);
    if k >= 2 { MaskBits(k - 2); }
  }

  lemma Exchange4(n: nat, g: nat, h: nat, r: nat)
    requires g < 2 && h <= 1 && r < 4
    ensures Bit(Exchange(n, 0xF0F0, 0x0F0F, 4), 8 * g + 4 * h + r) == Bit(n, 8 * g + 4 * (1 - h) + r)
  {
    hide *;
    var k := 8 * g + 4 * h + r;
    BitExchange(n, 0xF0F0, 0x0F0F, 4, k);
    MaskBits(k + 4);
    if k >= 4 { MaskBits(k - 4); }
  }

  lemma Exchange8(n: nat, h: nat, r: nat)
    requires h <= 1 && r < 8
    ensures Bit(Exchange(n, 0xFF00, 0x00FF, 8), 8 * h + r) == Bit(n, 8 * (1 - h) + r)
  {
    hide *;
    var k := 8 * h + r;
    BitExchange(n, 0xFF00, 0x00FF, 8, k);
    MaskBits(k + 8);
    if k >= 8 { MaskBits(k - 8); }
  }

  /** Every bit lands at its mirror position. */
  lemma BitReverse16Bit(n: nat, a: nat, b: nat, c: nat, d: nat)
    requires a <= 1 && b <= 1 && c <= 1 && d <= 1
    ensures Bit(BitReverse16(n), 8 * a + 4 * b + 2 * c + d) == Bit(n, 15 - (8 * a + 4 * b + 2 * c + d))
  {
    var n1 := Exchange(n, 0xAAAA, 0x5555, 1);
    var n2 := Exchange(n1, 0xCCCC, 0x3333, 2);
    var n3 := Exchange(n2, 0xF0F0, 0x0F0F, 4);
    hide Exchange, Bit;
    assert BitReverse16(n) == Exchange(n3, 0xFF00, 0x00FF, 8);
    var a', b', c' := 1 - a, 1 - b, 1 - c;
    Exchange8(n3, a, 4 * b + 2 * c + d);
    Exchange4(n2, a', b, 2 * c + d);
    Exchange2(n1, 2 * a' + b', c, d);
    Exchange1(n, 4 * a' + 2 * b' + c', d);
  }

  lemma {:induction false} AndBound(x: nat, y: nat)
    ensures And(x, y) <= y
  {
    if x == 0 || y == 0 {
    } else {
      AndBound(x / 2, y / 2);
    }
  }

  lemma {:induction false} OrBound(x: nat, y: nat)
    ensures Or(x, y) <= x + y
  {
    if x == 0 || y == 0 {
    } else {
      OrBound(x / 2, y / 2);
    }
  }

  lemma ExchangeBound(n: nat)
    ensures Exchange(n, 0xFF00, 0x00FF, 8) < 65536
  {
    var hi, lo := And(n, 0xFF00), And(n, 0x00FF);
    assert Exchange(n, 0xFF00, 0x00FF, 8) == Or(Shr(hi, 8), Shl(lo, 8));
    hide *;
    AndBound(n, 0xFF00);
    AndBound(n, 0x00FF);
    Shl8(256);
    ShrBelow(hi, 256, 8);
    Shl8(lo);
    OrBound(Shr(hi, 8), Shl(lo, 8));
  }

  lemma BitReverse16Unfold(n: nat)
    ensures exists m :: BitReverse16(n) == Exchange(m, 0xFF00, 0x00FF, 8)
  {
    var m := Exchange(Exchange(Exchange(n, 0xAAAA, 0x5555, 1), 0xCCCC, 0x3333, 2), 0xF0F0, 0x0F0F, 4);
    hide Exchange;
    assert BitReverse16(n) == Exchange(m, 0xFF00, 0x00FF, 8);
  }

  lemma BitReverse16At(n: nat, k: nat)
    requires k < 16
    ensures Bit(BitReverse16(n), k) == Bit(Rev(n, 16), k)
  {
    hide *;
    var a, b, c, d := k / 8, k % 8 / 4, k % 4 / 2, k % 2;
    assert k == 8 * a + 4 * b + 2 * c + d;
    BitReverse16Bit(n, a, b, c, d);
    BitRev(n, 16, k);
  }

  /** The four exchanges reverse the low sixteen bits and drop the rest. */
  lemma BitReverse16IsRev(n: nat)
    ensures BitReverse16(n) == Rev(n, 16)
  {
    hide *;
    Pow2Table();
    BitReverse16Unfold(n);
    var m :| BitReverse16(n) == Exchange(m, 0xFF00, 0x00FF, 8);
    ExchangeBound(m);
    forall k | 0 <= k < 16 ensures Bit(BitReverse16(n), k) == Bit(Rev(n, 16), k) {
      BitReverse16At(n, k);
    }
    SameBits(BitReverse16(n), Rev(n, 16), 16);
  }

  lemma {:induction false} BitSmall(v: nat, n: nat, k: nat)
    requires v < Pow2(n) && n <= k
    ensures Bit(v, k) == 0
  {
    if n == 0 { BitZero(k); } else { BitSmall(v / 2, n - 1, k - 1); }
  }

  /** Reversing sixteen bits and shifting reverses a shorter word. */
  lemma BitReverseIsRev(v: nat, bits: nat)
    requires bits <= 16 && v < Pow2(bits)
    ensures BitReverse(v, bits) == Rev(v, bits)
  {
    BitReverse16IsRev(v);
    var r := BitReverse(v, bits);
    hide BitReverse16, Rev, Bit, Pow2, Shr, Shl;
    assert r < Pow2(bits) by {
      ShlPow2(bits, 16 - bits);
      ShrBelow(Rev(v, 16), Pow2(bits), 16 - bits);
    }
    forall k | 0 <= k < bits ensures Bit(r, k) == Bit(Rev(v, bits), k) {
      BitShr(Rev(v, 16), 16 - bits, k);
      BitRev(v, 16, k + 16 - bits);
      BitRev(v, bits, k);
    }
    SameBits(r, Rev(v, bits), bits);
  }

  lemma Shl8(x: nat)
    ensures Shl(x, 8) == 256 * x
  {
    assert Shl(x, 1) == 2 * x;
    assert Shl(x, 2) == 4 * x;
    assert Shl(x, 3) == 8 * x;
    assert Shl(x, 4) == 16 * x;
    assert Shl(x, 5) == 32 * x;
    assert Shl(x, 6) == 64 * x;
    assert Shl(x, 7) == 128 * x;
  }

  lemma {:induction false} ShlPow2(m: nat, n: nat)
    ensures Shl(Pow2(m), n) == Pow2(m + n)
  {
    if n == 0 {
    } else {
      ShlPow2(m, n - 1);
    }
  }
}
