/** stb_image's decoding tables for DEFLATE: a nine-bit lookup table in front of preshifted code ranges. */
module ZTables {
  import opened Bits
  import opened Canonical

  const ZFAST_BITS := 9
  const ZNSYMS := 288

  /** Whether the index j of the lookup table starts, low bit first, with the code of symbol i. */
  predicate FastMatch(lens: seq<nat>, i: nat, j: nat)
    requires i < |lens|
  {
    1 <= lens[i] <= ZFAST_BITS && Low(j, lens[i]) == Rev(CodeOf(lens, i), lens[i])
  }

  function FastValue(s: nat, i: nat): nat {
    Or(Shl(s, 9), i)
  }

  /** The entry for index j once the first k symbols are in the table; 0 means "not here". */
  ghost predicate FastEntry(lens: seq<nat>, k: nat, j: nat, entry: nat)
    requires k <= |lens|
  {
    if entry == 0 then forall i | 0 <= i < k :: !FastMatch(lens, i, j)
    else exists i :: 0 <= i < k && FastMatch(lens, i, j) && entry == FastValue(lens[i], i)
  }

  class ZHuffman {
    const fast: array<nat>
    const firstcode: array<nat>
    const maxcode: array<nat>
    const firstsymbol: array<nat>
    const size: array<nat>
    const value: array<nat>

    ghost predicate Shape() {
      && fast.Length == 512 && firstcode.Length == 16 && maxcode.Length == 17
      && firstsymbol.Length == 16 && size.Length == ZNSYMS && value.Length == ZNSYMS
      && fast != firstcode && fast != maxcode && fast != firstsymbol && fast != size && fast != value
      && firstcode != maxcode && firstcode != firstsymbol && firstcode != size && firstcode != value
      && maxcode != firstsymbol && maxcode != size && maxcode != value
      && firstsymbol != size && firstsymbol != value && size != value
    }

    ghost function Arrays(): set<object> {
      {fast, firstcode, maxcode, firstsymbol, size, value}
    }

    constructor ()
      ensures Shape() && fresh(Arrays())
    {
      fast := new nat[512];
      firstcode := new nat[16];
      maxcode := new nat[17];
      firstsymbol := new nat[16];
      size := new nat[ZNSYMS];
      value := new nat[ZNSYMS];
    }

    /** The code ranges of every length, as the slow path compares against them. */
    ghost predicate Ranges(lens: seq<nat>)
      requires Shape()
      reads firstcode, maxcode, firstsymbol
    {
      && (forall n | 1 <= n <= MAX_LENGTH :: firstcode[n] == FirstCode(lens, n))
      && (forall n | 1 <= n <= MAX_LENGTH :: maxcode[n] == Shl(EndCode(lens, n), 16 - n))
      && (forall n | 1 <= n <= MAX_LENGTH :: firstsymbol[n] == FirstSymbol(lens, n))
      && maxcode[16] == 0x10000
    }

    /** The first k symbols stand at their places, sorted by length and then by value. */
    ghost predicate Sorted(lens: seq<nat>, k: nat)
      requires Shape() && k <= |lens| <= ZNSYMS
      reads size, value
    {
      forall i | 0 <= i < k && lens[i] >= 1 ::
        Position(lens, i) < ZNSYMS && size[Position(lens, i)] == lens[i] && value[Position(lens, i)] == i
    }

    ghost predicate FastUpTo(lens: seq<nat>, k: nat)
      requires Shape() && k <= |lens|
      reads fast
    {
      forall j | 0 <= j < 512 :: FastEntry(lens, k, j, fast[j])
    }

    ghost predicate Tables(lens: seq<nat>)
      reads fast, firstcode, maxcode, firstsymbol, size, value
    {
      Shape() && |lens| <= ZNSYMS && IsLengths(lens) && Canonical.Fits(lens) && Ranges(lens) && Sorted(lens, |lens|) && FastUpTo(lens, |lens|)
    }
  }

  /** ++sizes[sizelist[i]] for every symbol, then sizes[0] = 0. */
  method CountSizes(lens: seq<nat>) returns (sizes: array<nat>)
    requires IsLengths(lens)
    ensures fresh(sizes) && sizes.Length == 17
    ensures forall n | 1 <= n <= MAX_LENGTH :: sizes[n] == Total(lens, n)
  {
    sizes := new nat[17](_ => 0);
    for i := 0 to |lens|
      invariant forall n | 0 <= n <= 16 :: sizes[n] == CountTo(lens, n, i)
    {
      sizes[lens[i]] := sizes[lens[i]] + 1;
    }
    sizes[0] := 0;
  }

  /** Writes v at index r and every 2^s after it: exactly at the indices whose low s bits are r. */
  method StampFast(fast: array<nat>, r: nat, s: nat, v: nat)
    requires fast.Length == 512 && r < Pow2(s)
    modifies fast
    ensures forall t | 0 <= t < 512 :: fast[t] == if Low(t, s) == r then v else old(fast[t])
  {
    var j := r;
    LowSmall(r, s);
    forall t | 0 <= t < r ensures Low(t, s) != r { LowSmall(t, s); }
    while j < 512
      invariant Low(j, s) == r
      invariant forall t | 0 <= t < 512 :: fast[t] == if t < j && Low(t, s) == r then v else old(fast[t])
      decreases 512 - j
    {
      fast[j] := v;
      LowStep(j, s);
      forall t | j < t < j + Pow2(s) ensures Low(t, s) != r {
        if Low(t, s) == r { LowApart(j, t, s); }
      }
      j := j + Pow2(s);
    }
  }

  lemma FastValuePositive(s: nat, i: nat)
    requires s >= 1
    ensures FastValue(s, i) > 0
  {
    ShlPositive(s, 9);
    OrAtLeast(Shl(s, 9), i);
  }

  lemma {:induction false} ShlPositive(x: nat, n: nat)
    requires x >= 1
    ensures Shl(x, n) >= 1
  {
    if n == 0 {
    } else {
      ShlPositive(x, n - 1);
    }
  }

  lemma {:induction false} OrAtLeast(x: nat, y: nat)
    ensures Or(x, y) >= x
  {
    if x == 0 || y == 0 {
    } else {
      OrAtLeast(x / 2, y / 2);
    }
  }

  lemma FastEntryStep(lens: seq<nat>, i: nat, j: nat, entry: nat, entry': nat)
    requires i < |lens| && FastEntry(lens, i, j, entry)
    requires entry' == if FastMatch(lens, i, j) then FastValue(lens[i], i) else entry
    ensures FastEntry(lens, i + 1, j, entry')
  {
    if FastMatch(lens, i, j) {
      FastValuePositive(lens[i], i);
    } else if entry != 0 {
      var i' :| 0 <= i' < i && FastMatch(lens, i', j) && entry == FastValue(lens[i'], i');
      assert 0 <= i' < i + 1 && FastMatch(lens, i', j) && entry' == FastValue(lens[i'], i');
    }
  }

  /** The first and last code of every length; false when some length has too many codes. */
  method BuildRanges(z: ZHuffman, lens: seq<nat>, sizes: array<nat>, nextCode: array<nat>) returns (ok: bool)
    requires z.Shape() && IsLengths(lens) && |lens| <= ZNSYMS && sizes.Length == 17 && nextCode.Length == 16
    requires forall n | 1 <= n <= MAX_LENGTH :: sizes[n] == Total(lens, n)
    requires sizes !in {z.fast, z.firstcode, z.maxcode, z.firstsymbol, z.size, z.value, nextCode}
    requires nextCode !in {z.fast, z.firstcode, z.maxcode, z.firstsymbol, z.size, z.value}
    modifies z.firstcode, z.maxcode, z.firstsymbol, nextCode
    ensures ok <==> Canonical.Fits(lens)
    ensures ok ==> z.Ranges(lens) && forall n | 1 <= n <= MAX_LENGTH :: nextCode[n] == FirstCode(lens, n)
  {
    hide Total, CountTo, FirstCode, EndCode, FirstSymbol, Shl, Pow2;
    var i := 1;
    while i < 16
      invariant 1 <= i <= 16
    {
      if sizes[i] > Pow2(i) {
        RangeStep(lens, i);
        return false;
      }
      i := i + 1;
    }
    var code, k := 0, 0;
    i := 1;
    RangeStart(lens);
    while i < 16
      invariant 1 <= i <= 16
      invariant code == FirstCode(lens, i) && k == FirstSymbol(lens, i)
      invariant forall n | 1 <= n <= MAX_LENGTH :: sizes[n] == Total(lens, n)
      invariant EndCode(lens, i - 1) <= Pow2(i - 1)
      invariant forall n | 1 <= n < i :: EndCode(lens, n) <= Pow2(n)
      invariant forall n | 1 <= n < i :: z.firstcode[n] == FirstCode(lens, n)
      invariant forall n | 1 <= n < i :: z.maxcode[n] == Shl(EndCode(lens, n), 16 - n)
      invariant forall n | 1 <= n < i :: z.firstsymbol[n] == FirstSymbol(lens, n)
      invariant forall n | 1 <= n < i :: nextCode[n] == FirstCode(lens, n)
    {
      RangeStep(lens, i);
      nextCode[i] := code;
      z.firstcode[i] := code;
      z.firstsymbol[i] := k;
      code := code + sizes[i];
      if sizes[i] != 0 && code - 1 >= Pow2(i) {
        return false;
      }
      z.maxcode[i] := Shl(code, 16 - i);
      code := 2 * code;
      k := k + sizes[i];
      i := i + 1;
    }
    z.maxcode[16] := 0x10000;
    return true;
  }

  lemma RangeStart(lens: seq<nat>)
    ensures FirstCode(lens, 1) == 0 && FirstSymbol(lens, 1) == 0 && EndCode(lens, 0) <= Pow2(0)
  {
  }

  /** What one step of the loop over lengths computes. */
  lemma RangeStep(lens: seq<nat>, i: nat)
    requires i >= 1
    ensures EndCode(lens, i) == FirstCode(lens, i) + Total(lens, i)
    ensures FirstCode(lens, i + 1) == 2 * EndCode(lens, i)
    ensures FirstSymbol(lens, i + 1) == FirstSymbol(lens, i) + Total(lens, i)
    ensures EndCode(lens, i - 1) <= Pow2(i - 1) && Total(lens, i) == 0 ==> EndCode(lens, i) <= Pow2(i)
  {
  }

  /** Enters symbol i with the next free code of its length. */
  method EnterSymbol(z: ZHuffman, lens: seq<nat>, i: nat, code: nat)
    requires z.Shape() && IsLengths(lens) && i < |lens| <= ZNSYMS && lens[i] >= 1
    requires Canonical.Fits(lens) && z.Ranges(lens) && z.Sorted(lens, i) && z.FastUpTo(lens, i)
    requires code == CodeOf(lens, i)
    modifies z.size, z.value, z.fast
    ensures z.Sorted(lens, i + 1) && z.FastUpTo(lens, i + 1)
  {
    var s := lens[i];
    var c := code - z.firstcode[s] + z.firstsymbol[s];
    assert c == Position(lens, i);
    PositionBound(lens, i);
    forall j | 0 <= j < i && lens[j] >= 1 ensures Position(lens, j) != c {
      PositionInjective(lens, j, i);
    }
    z.size[c] := s;
    z.value[c] := i;
    EnterFast(z.fast, lens, i, code);
  }

  method EnterFast(fast: array<nat>, lens: seq<nat>, i: nat, code: nat)
    requires fast.Length == 512 && IsLengths(lens) && i < |lens| && lens[i] >= 1
    requires Canonical.Fits(lens) && code == CodeOf(lens, i)
    requires forall j | 0 <= j < 512 :: FastEntry(lens, i, j, fast[j])
    modifies fast
    ensures forall j | 0 <= j < 512 :: FastEntry(lens, i + 1, j, fast[j])
  {
    var s := lens[i];
    ghost var before := fast[..];
    if s <= ZFAST_BITS {
      CodeInRange(lens, i);
      BitReverseIsRev(code, s);
      StampFast(fast, BitReverse(code, s), s, FastValue(s, i));
    }
    forall j | 0 <= j < 512 ensures FastEntry(lens, i + 1, j, fast[j]) {
      FastEntryStep(lens, i, j, before[j], fast[j]);
    }
  }

  /** One turn of the loop over symbols; unused symbols take no code. */
  method EnterNext(z: ZHuffman, lens: seq<nat>, i: nat, nextCode: array<nat>)
    requires z.Shape() && IsLengths(lens) && i < |lens| <= ZNSYMS && nextCode.Length == 16
    requires nextCode !in {z.fast, z.firstcode, z.maxcode, z.firstsymbol, z.size, z.value}
    requires Canonical.Fits(lens) && z.Ranges(lens) && z.Sorted(lens, i) && z.FastUpTo(lens, i)
    requires forall n | 1 <= n <= MAX_LENGTH :: nextCode[n] == FirstCode(lens, n) + CountTo(lens, n, i)
    modifies z.size, z.value, z.fast, nextCode
    ensures z.Sorted(lens, i + 1) && z.FastUpTo(lens, i + 1)
    ensures forall n | 1 <= n <= MAX_LENGTH :: nextCode[n] == FirstCode(lens, n) + CountTo(lens, n, i + 1)
  {
    hide FirstCode, EndCode, FirstSymbol, FastEntry, Canonical.Fits;
    var s := lens[i];
    if s != 0 {
      EnterSymbol(z, lens, i, nextCode[s]);
      nextCode[s] := nextCode[s] + 1;
    } else {
      forall j | 0 <= j < 512 ensures FastEntry(lens, i + 1, j, z.fast[j]) {
        FastEntryStep(lens, i, j, z.fast[j], z.fast[j]);
      }
    }
  }

  method EnterSymbols(z: ZHuffman, lens: seq<nat>, nextCode: array<nat>)
    requires z.Shape() && IsLengths(lens) && |lens| <= ZNSYMS && nextCode.Length == 16
    requires nextCode !in {z.fast, z.firstcode, z.maxcode, z.firstsymbol, z.size, z.value}
    requires Canonical.Fits(lens) && z.Ranges(lens) && z.FastUpTo(lens, 0)
    requires forall n | 1 <= n <= MAX_LENGTH :: nextCode[n] == FirstCode(lens, n)
    modifies z.size, z.value, z.fast, nextCode
    ensures z.Sorted(lens, |lens|) && z.FastUpTo(lens, |lens|)
  {
    hide FirstCode, EndCode, FirstSymbol, FastEntry, Canonical.Fits;
    for i := 0 to |lens|
      invariant z.Ranges(lens) && z.Sorted(lens, i) && z.FastUpTo(lens, i)
      invariant forall n | 1 <= n <= MAX_LENGTH :: nextCode[n] == FirstCode(lens, n) + CountTo(lens, n, i)
    {
      EnterNext(z, lens, i, nextCode);
    }
  }

  method ClearFast(fast: array<nat>, lens: seq<nat>)
    requires fast.Length == 512
    modifies fast
    ensures forall j | 0 <= j < 512 :: FastEntry(lens, 0, j, fast[j])
  {
    for j := 0 to 512
      invariant forall t | 0 <= t < j :: fast[t] == 0
    {
      fast[j] := 0;
    }
  }

  /** stbi__zbuild_huffman: succeeds exactly on the lists that meet the Kraft inequality, and then fills every table. */
  method BuildHuffman(z: ZHuffman, lens: seq<nat>) returns (ok: bool)
    requires z.Shape() && IsLengths(lens) && |lens| <= ZNSYMS
    modifies z.fast, z.firstcode, z.maxcode, z.firstsymbol, z.size, z.value
    ensures ok <==> KraftSum(lens, |lens|) <= Pow2(MAX_LENGTH)
    ensures ok <==> Canonical.Fits(lens)
    ensures ok ==> z.Tables(lens)
  {
    FitsIffKraft(lens);
    hide Total, FirstCode, EndCode, FirstSymbol, Shl, Pow2, FastEntry, KraftSum, Canonical.Fits;
    var sizes := CountSizes(lens);
    var nextCode := new nat[16];
    ClearFast(z.fast, lens);
    ok := BuildRanges(z, lens, sizes, nextCode);
    if ok { EnterSymbols(z, lens, nextCode); }
  }
}
