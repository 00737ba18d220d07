/** stb_image's table for small AC coefficients: one lookup gives run, value and total length. */
module JpegFastAc {
  import opened Bits
  import opened JpegCodes
  import opened JpegTables
  import opened JpegDecode
  import opened JpegReader

  // ----- the reference: a coefficient is decoded by DECODE, then RECEIVE and EXTEND (section F.2.2.2)

  /** The coefficient coded next is the one of symbol i: its run of zeros, its value, the bits it takes. */
  predicate Coded(a: Source, s: seq<nat>, values: seq<nat>, i: nat, run: nat, value: int, used: nat)
    requires a.Valid() && Sizes(s) && i < |s| && |values| == 256 && values[i] % 16 != 0
  {
    var t := values[i] % 16;
    a.Next(s, i) && run == values[i] / 16 && value == Extend(a.Ahead(s[i], t), t) && used == s[i] + t
  }

  /** There is one such coefficient: ways of decoding that both find it agree in all three. */
  lemma CodedOnce(a: Source, s: seq<nat>, values: seq<nat>, i: nat, run: nat, value: int, used: nat,
                  j: nat, run': nat, value': int, used': nat)
    requires a.Valid() && Sizes(s) && i < |s| && j < |s| && |values| == 256 && values[i] % 16 != 0 && values[j] % 16 != 0
    requires Coded(a, s, values, i, run, value, used) && Coded(a, s, values, j, run', value', used')
    ensures run == run' && value == value' && used == used'
  {
    hide Source.Valid, Source.Ahead, Source.Next, Extend;
    NextOnce(a, s, i, j);
  }

  // ----- the table

  /** The value that the nine bits f hold behind a code of n bits. */
  function ValueAt(f: nat, n: nat, t: nat): int
    requires 1 <= t && n + t <= 9
  {
    Extend(Field(f, 9, n, t), t)
  }

  /** The nine bits f hold a whole coefficient of symbol i, small enough for the table. */
  predicate Small(s: seq<nat>, values: seq<nat>, i: nat, f: nat)
    requires Sizes(s) && i < |s| && |values| == 256
  {
    var t := values[i] % 16;
    t != 0 && s[i] + t <= 9 && -128 <= ValueAt(f, s[i], t) <= 127
  }

  function Packed(s: seq<nat>, values: seq<nat>, i: nat, f: nat): int
    requires Sizes(s) && i < |s| && |values| == 256 && Small(s, values, i, f)
  {
    var t := values[i] % 16;
    256 * ValueAt(f, s[i], t) + 16 * (values[i] / 16) + (s[i] + t)
  }

  predicate EntryOk(s: seq<nat>, values: seq<nat>, f: nat, r: int)
    requires Sizes(s) && |values| == 256
  {
    && (forall i | 0 <= i < |s| && Short(s, i, f) && !Hidden(s, i) ::
         r == if Small(s, values, i, f) then Packed(s, values, i, f) else 0)
    && (r != 0 ==> exists i :: 0 <= i < |s| && Short(s, i, f) && !Hidden(s, i))
  }

  lemma Unpacked(v: int, run: nat, len: nat)
    requires run < 16 && 0 < len < 16
    ensures var r := 256 * v + 16 * run + len;
      r != 0 && r % 16 == len && r / 16 % 16 == run && r / 256 == v
  {
  }

  // ----- building it

  predicate Bytes(values: seq<nat>) {
    |values| == 256 && forall i | 0 <= i < 256 :: values[i] < 256
  }

  lemma Nibbles(rs: nat)
    requires rs < 256
    ensures And(Shr(rs, 4), 15) == rs / 16 && And(rs, 15) == rs % 16
  {
    var hi, lo := Shr(rs, 4), Low(rs, 4);
    assert Pow2(1) == 2 && Pow2(2) == 4 && Pow2(3) == 8 && Pow2(4) == 16;
    assert Shl(hi, 1) == 2 * hi && Shl(hi, 2) == 4 * hi && Shl(hi, 3) == 8 * hi && Shl(hi, 4) == 16 * hi;
    hide Pow2, Shl, Shr, Low, And;
    Split(rs, 4);
    AndMask(rs, 4);
    AndMask(hi, 4);
    LowSmall(hi, 4);
  }

  lemma FieldByMask(f: nat, n: nat, t: nat)
    requires n + t <= 9
    ensures Shr(And(Shl(f, n), 511), 9 - t) == Field(f, 9, n, t)
  {
    hide *;
    Powers();
    AndMask(Shl(f, n), 9);
    ShiftedField(f, 9, n, t);
  }

  /** The entry for nine bits whose code is that of symbol k. */
  method CoefficientEntry(f: nat, rs: nat, len: nat) returns (r: int)
    requires rs < 256 && 1 <= len
    ensures var t := rs % 16;
      r == if t != 0 && len + t <= 9 && -128 <= ValueAt(f, len, t) <= 127
           then 256 * ValueAt(f, len, t) + 16 * (rs / 16) + (len + t) else 0
  {
    Nibbles(rs);
    hide Shr, And, Shl, Field;
    var run := And(Shr(rs, 4), 15);
    var magbits := And(rs, 15);
    r := 0;
    if magbits != 0 && len + magbits <= FAST_BITS {
      FieldByMask(f, len, magbits);
      ShlOne(magbits - 1);
      var k := Shr(And(Shl(f, len), 511), FAST_BITS - magbits);
      var m := Shl(1, magbits - 1);
      if k < m { k := k + (1 - Pow2(magbits)); }
      if -128 <= k <= 127 {
        r := k * 256 + run * 16 + (len + magbits);
      }
    }
  }

  lemma EntryFor(h: JHuffman, s: seq<nat>, f: nat, r: int)
    requires h.Arrays() && h.Tables(s) && Bytes(h.values[..]) && f < 512
    requires h.fast[f] >= NOT_ACCELERATED ==> r == 0
    requires h.fast[f] < NOT_ACCELERATED ==> h.fast[f] < |s|
    requires h.fast[f] < NOT_ACCELERATED ==>
      r == if Small(s, h.values[..], h.fast[f], f) then Packed(s, h.values[..], h.fast[f], f) else 0
    ensures EntryOk(s, h.values[..], f, r)
  {
    var k := h.fast[f];
    var fast := h.fast[..];
    assert fast[f] == k;
    hide Short, Small, Packed, Fits, JHuffman.Ranges, JHuffman.Codes;
    forall i | 0 <= i < |s| && Short(s, i, f) && !Hidden(s, i)
      ensures r == if Small(s, h.values[..], i, f) then Packed(s, h.values[..], i, f) else 0
    {
      ShortSize(s, i, f);
      assert k == i;
    }
  }

  /** stbi__build_fast_ac. */
  method BuildFastAc(fac: array<int>, h: JHuffman, ghost s: seq<nat>)
    requires fac.Length == 512 && fac != h.delta && h.Arrays() && h.Tables(s) && Bytes(h.values[..])
    modifies fac
    ensures forall f | 0 <= f < 512 :: EntryOk(s, h.values[..], f, fac[f])
  {
    var f := 0;
    while f < 512
      invariant 0 <= f <= 512 && forall g | 0 <= g < f :: EntryOk(s, h.values[..], g, fac[g])
    {
      hide EntryOk, Small, Packed, ValueAt, FastOk, Fits, JHuffman.Ranges, JHuffman.Codes;
      var r := OneEntry(h, f, s);
      fac[f] := r;
      f := f + 1;
    }
  }

  method OneEntry(h: JHuffman, f: nat, ghost s: seq<nat>) returns (r: int)
    requires h.Arrays() && h.Tables(s) && Bytes(h.values[..]) && f < 512
    ensures EntryOk(s, h.values[..], f, r)
  {
    hide EntryOk, ValueAt, Fits, JHuffman.Ranges, JHuffman.Codes;
    var k := h.fast[f];
    r := 0;
    if k < NOT_ACCELERATED {
      EntryInTable(h, s, f);
      r := CoefficientEntry(f, h.values[k], h.size[k]);
      assert h.values[..][k] == h.values[k];
    }
    EntryFor(h, s, f, r);
  }

  lemma EntryInTable(h: JHuffman, s: seq<nat>, f: nat)
    requires h.Arrays() && h.Tables(s) && f < 512 && h.fast[f] < NOT_ACCELERATED
    ensures h.fast[f] < |s| && h.size[h.fast[f]] == s[h.fast[f]] && 1 <= s[h.fast[f]]
  {
    var fast := h.fast[..];
    assert fast[f] == h.fast[f];
    hide Short;
    assert h.size[..|s|][fast[f]] == s[fast[f]];
  }

  // ----- using it

  lemma NineBitField(x: nat, n: nat, t: nat)
    requires n + t <= 9
    ensures Field(Shr(x, 23), 9, n, t) == Field(x, 32, n, t)
  {
    ShrTwice(x, 23, 9 - n - t);
  }

  /** A nonzero entry holds the coefficient coded next, if the bits in use reach that far. */
  lemma EntryCoded(a: Source, s: seq<nat>, values: seq<nat>, r: int, i: nat)
    requires a.Valid() && Sizes(s) && Bytes(values) && i < |s|
    requires Short(s, i, Shr(a.word, 23)) && Small(s, values, i, Shr(a.word, 23)) && r == Packed(s, values, i, Shr(a.word, 23))
    ensures 0 < r % 16 < 16 && values[i] % 16 != 0
    ensures r % 16 <= a.bits ==> Coded(a, s, values, i, r / 16 % 16, r / 256, r % 16)
  {
    var f, t := Shr(a.word, 23), values[i] % 16;
    Unpacked(ValueAt(f, s[i], t), values[i] / 16, s[i] + t);
    hide Source.Valid, Source.Next, Source.Ahead, Shr, Field, Short, Matches, Extend;
    if s[i] + t <= a.bits {
      NextMatches(a, s, i);
      ShrTwice(a.word, 16, 7);
      ShortMatches(s, i, Shr(a.word, 16));
      AheadIs(a, s[i], t);
      NineBitField(a.word, s[i], t);
    }
  }

  /** A nonzero entry belongs to a symbol. */
  lemma Owner(s: seq<nat>, values: seq<nat>, f: nat, r: int) returns (i: nat)
    requires Sizes(s) && |values| == 256 && EntryOk(s, values, f, r) && r != 0
    ensures i < |s| && Short(s, i, f) && Small(s, values, i, f) && r == Packed(s, values, i, f)
  {
    hide Short, Hidden, Small, Packed;
    i :| 0 <= i < |s| && Short(s, i, f) && !Hidden(s, i);
  }

  lemma TopNine(x: nat)
    requires x < Pow2(32)
    ensures And(Shr(x, 23), 511) == Shr(x, 23) < 512
  {
    hide *;
    Powers();
    ShrBound(x, 9, 23);
    AndMask(Shr(x, 23), 9);
    LowSmall(Shr(x, 23), 9);
  }

  /** The branch of the block decoder that finds a coefficient in the table. It takes the coefficient coded
      next, or fails because a marker stands within it, or leaves everything to the other branch. */
  method FastCoefficient(rd: Reader, fac: array<int>, h: JHuffman, ghost s: seq<nat>)
    returns (hit: bool, ok: bool, run: nat, value: int, ghost i: nat, ghost used: nat)
    requires rd.Valid() && Sizes(s) && h.Arrays() && Bytes(h.values[..])
    requires fac.Length == 512 && forall f | 0 <= f < 512 :: EntryOk(s, h.values[..], f, fac[f])
    modifies rd
    ensures hit && ok ==> i < |s| && h.values[..][i] % 16 != 0 && Coded(old(rd.Now()), s, h.values[..], i, run, value, used)
    ensures hit && ok ==> rd.Valid() && Read(old(rd.Now()), rd.Now(), used)
    ensures hit && !ok ==> old(rd.Now().Left()) < 16
    ensures !hit ==> rd.Valid() && Read(old(rd.Now()), rd.Now(), 0)
  {
    ghost var before, values := rd.Now(), h.values[..];
    hide Source.Valid, Source.Future, Source.Ahead, Read, EntryOk, Coded, Shr, Pow2, And, Bytes, Small, Packed;
    rd.EnsureBits(16);
    ghost var a := rd.Now();
    ReadValid(before, a, 0);
    WordOk(a);
    TopNine(rd.codeBuffer);
    var r := fac[And(Shr(rd.codeBuffer, 23), 511)];
    hit, ok, run, value, i, used := r != 0, true, 0, 0, 0, 0;
    if hit {
      i := Owner(s, values, Shr(a.word, 23), r);
      EntryCoded(a, s, values, r, i);
      run, used := r / 16 % 16, r % 16;
      if r % 16 > rd.codeBits { return true, false, 0, 0, 0, 0; }
      rd.Take(r % 16);
      value := r / 256;
      SameCoded(before, a, s, values, i, run, value, used);
      ReadTwice(before, a, rd.Now(), 0, used);
    }
  }

  lemma WordOk(a: Source)
    requires a.Valid()
    ensures a.word < Pow2(32)
  {
  }

  lemma SameCoded(b: Source, a: Source, s: seq<nat>, values: seq<nat>, i: nat, run: nat, value: int, used: nat)
    requires Read(b, a, 0) && Sizes(s) && i < |s| && |values| == 256 && values[i] % 16 != 0
    ensures Coded(a, s, values, i, run, value, used) <==> Coded(b, s, values, i, run, value, used)
  {
    AheadRead(b, a, 0, 0, s[i]);
    AheadRead(b, a, 0, s[i], values[i] % 16);
    hide Source.Valid, Source.Future, Source.Ahead;
  }

  /** The other branch: decode a symbol, then receive and extend. It takes the coefficient coded next, unless a
      marker cuts it off; a symbol without bits behind it ends the block or stands for sixteen zeros. Behind a hidden
      symbol the value is read from the eleventh bit on. */
  method SlowCoefficient(rd: Reader, h: JHuffman, ghost s: seq<nat>)
    returns (rs: int, value: int, ghost i: nat, ghost n: nat, ghost mid: Source, ghost cut: bool)
    requires rd.Valid() && h.Arrays() && h.Tables(s) && Bytes(h.values[..])
    modifies rd
    ensures Sizes(s)
    ensures rs < 0 ==> (forall j | 0 <= j < |s| :: !old(rd.Now().Next(s, j))) || old(rd.Now().Left()) < 16
    ensures rs >= 0 ==> i < |s| && i < 256 && rs == h.values[..][i] && Found(old(rd.Now()), s, i, n)
    ensures rs >= 0 ==> rd.Valid() && Read(old(rd.Now()), mid, n) && (rs % 16 == 0 ==> rd.Now() == mid)
    ensures rs >= 0 && rs % 16 != 0 && !cut ==>
      value == Extend(old(rd.Now()).Ahead(n, rs % 16), rs % 16) && Read(old(rd.Now()), rd.Now(), n + rs % 16)
    ensures rs >= 0 && rs % 16 != 0 && !cut && AllVisible(s) ==>
      Coded(old(rd.Now()), s, h.values[..], i, rs / 16, value, n + rs % 16)
    ensures rs >= 0 && cut ==> value == 0 && mid.Left() < rs % 16
  {
    ghost var before, values := rd.Now(), h.values[..];
    hide Source.Valid, Source.Future, Source.Ahead, Source.Next, Read, Coded, Extend, Bytes, JHuffman.Tables, Found, Sizes;
    rs, i, n := rd.HuffDecode(h, s);
    value, cut := 0, false;
    mid := before;
    if rs >= 0 {
      mid := rd.Now();
      ByteValue(values, i);
      if rs % 16 != 0 {
        value, cut := rd.ExtendReceive(rs % 16);
        if !cut {
          ReadTwice(before, mid, rd.Now(), n, rs % 16);
          AheadRead(before, mid, n, 0, rs % 16);
          if AllVisible(s) { CodedBy(before, s, values, i, n, value); }
        }
      }
    }
  }

  lemma ByteValue(values: seq<nat>, i: nat)
    requires Bytes(values) && i < 256
    ensures values[i] < 256
  {
  }

  lemma CodedBy(b: Source, s: seq<nat>, values: seq<nat>, i: nat, n: nat, value: int)
    requires b.Valid() && Sizes(s) && i < |s| && |values| == 256 && values[i] % 16 != 0 && AllVisible(s)
    requires Found(b, s, i, n) && value == Extend(b.Ahead(n, values[i] % 16), values[i] % 16)
    ensures Coded(b, s, values, i, values[i] / 16, value, n + values[i] % 16)
  {
    hide Source.Valid, Source.Future, Source.Ahead, Source.Next, Guess;
  }
}
