/** stb_image's JPEG Huffman tables. */
module JpegTables {
  import opened Bits
  import opened Common
  import opened JpegCodes

  const FAST_BITS := 9
  const NOT_ACCELERATED := 255

  // ----- the list of code lengths

  /** The lengths of the codes, from the number of codes of each length up to n (section C.2, HUFFSIZE). */
  function SizeList(count: seq<nat>, n: nat): (r: seq<nat>)
    requires n <= |count|
    ensures forall i | 0 <= i < |r| :: 1 <= r[i] <= n
    ensures forall i, j | 0 <= i <= j < |r| :: r[i] <= r[j]
  {
    if n == 0 then [] else SizeList(count, n - 1) + Repeat(n, count[n - 1])
  }

  lemma {:induction false} SizeListGrows(count: seq<nat>, m: nat, n: nat)
    requires m <= n <= |count|
    ensures |SizeList(count, m)| <= |SizeList(count, n)|
  {
    if m >= n {
    } else {
      SizeListGrows(count, m, n - 1);
    }
  }

  /** The preshifted end m of the codes of length n, and the distance d from a code to its place. */
  predicate LengthOk(s: seq<nat>, n: nat, m: nat, d: int)
    requires Sizes(s) && 1 <= n <= 16
  {
    && m == Start(s, Shorter(s, n)) && d <= Shorter(s, n - 1)
    && Shl(Shorter(s, n - 1) - d, MAX - n) == Start(s, Shorter(s, n - 1))
  }

  /** A nine-bit table with the entries of the first n symbols. */
  predicate FastOk(t: seq<nat>, s: seq<nat>, n: nat)
    requires Sizes(s) && n <= |s|
  {
    && |t| == 512
    && (forall i, f | 0 <= i < n && 0 <= f < 512 && Short(s, i, f) :: t[f] == i)
    && (forall f | 0 <= f < 512 && t[f] != NOT_ACCELERATED :: t[f] < n && Short(s, t[f], f))
  }

  /** Entering a symbol keeps the others: no two codes begin the same nine bits. */
  lemma FastStep(before: seq<nat>, after: seq<nat>, s: seq<nat>, i: nat)
    requires Sizes(s) && i < |s| && FastOk(before, s, i) && |after| == 512
    requires forall f | 0 <= f < 512 :: after[f] == if Short(s, i, f) then i else before[f]
    ensures FastOk(after, s, i + 1)
  {
    hide Short;
    forall j, f | 0 <= j < i + 1 && 0 <= f < 512 && Short(s, j, f) ensures after[f] == j {
      if Short(s, i, f) { ShortOnce(s, i, j, f); }
    }
  }

  lemma Powers()
    ensures Pow2(9) == 512 && Pow2(16) == 65536
  {
    Pow2Table();
  }

  /** The entries of a symbol are those from its code on, in the table. */
  lemma ShortRange(s: seq<nat>, i: nat)
    requires Sizes(s) && i < |s| && Code(s, i) < Pow2(s[i]) && s[i] <= 9
    ensures var c, m := Shl(Code(s, i), 9 - s[i]), Pow2(9 - s[i]);
      c + m <= 512 && forall f: nat :: Short(s, i, f) <==> c <= f < c + m
    ensures Code(s, i) % 65536 == Code(s, i)
  {
    hide Pow2, Code, Shl;
    NineBits(Code(s, i), s[i]);
  }

  lemma NineBits(c: nat, b: nat)
    requires c < Pow2(b) && b <= 9
    ensures Shl(c, 9 - b) + Pow2(9 - b) == Shl(c + 1, 9 - b) <= 512 && c < 65536
  {
    hide Pow2, Shl;
    Powers();
    Pow2Mono(b, 16);
    ShlAdd(c, 1, 9 - b);
    ShlOne(9 - b);
    ShlPow2(b, 9 - b);
    ShlOrder(c + 1, Pow2(b), 9 - b);
  }

  class JHuffman {
    const fast: array<nat>
    const code: array<nat>
    const values: array<nat>
    const size: array<nat>
    const maxcode: array<nat>
    const delta: array<int>

    constructor ()
      ensures Arrays() && fresh(fast) && fresh(code) && fresh(values) && fresh(size) && fresh(maxcode) && fresh(delta)
    {
      fast := new nat[512];
      code := new nat[256];
      values := new nat[256];
      size := new nat[257];
      maxcode := new nat[18];
      delta := new int[17];
    }

    predicate Arrays() {
      && fast.Length == 512 && code.Length == 256 && values.Length == 256
      && size.Length == 257 && maxcode.Length == 18 && delta.Length == 17
      && fast != code && fast != values && fast != size && fast != maxcode
      && code != values && code != size && code != maxcode && values != size && values != maxcode && size != maxcode
    }

    /** The code lengths, with a zero behind them. */
    predicate Listed(s: seq<nat>)
      requires Arrays()
      reads size
    {
      Sizes(s) && size[..|s|] == s && size[|s|] == 0
    }

    /** The codes, their ends and their places, for lengths below j. */
    predicate Ranges(s: seq<nat>, j: nat)
      requires Arrays() && Sizes(s) && j <= 17
      reads maxcode, delta
    {
      forall n | 1 <= n < j :: LengthOk(s, n, maxcode[n], delta[n])
    }

    predicate Codes(s: seq<nat>, k: nat)
      requires Arrays() && Sizes(s) && k <= |s|
      reads code
    {
      forall i | 0 <= i < k :: code[i] == Code(s, i) % 65536
    }

    predicate Tables(s: seq<nat>)
      requires Arrays()
      reads size, maxcode, delta, code, fast
    {
      && Listed(s) && Fits(s) && Ranges(s, 17) && maxcode[17] == 0xffff_ffff
      && Codes(s, |s|) && FastOk(fast[..], s, |s|)
    }

    // ----- the lengths

    method ListSizes(count: seq<nat>) returns (ok: bool, k: nat)
      requires Arrays() && |count| == 16
      modifies size
      ensures ok <==> |SizeList(count, 16)| <= 256
      ensures ok ==> k == |SizeList(count, 16)| && Listed(SizeList(count, 16))
    {
      k := 0;
      var i := 0;
      while i < 16
        invariant 0 <= i <= 16 && k <= 256 && size[..k] == SizeList(count, i)
      {
        ghost var before := size[..k];
        ghost var k0 := k;
        var j := 0;
        while j < count[i]
          invariant 0 <= j <= count[i] && k <= 256 && k == k0 + j && size[..k] == before + Repeat(i + 1, j)
        {
          size[k] := i + 1;
          k := k + 1;
          if k >= 257 {
            SizeListGrows(count, i + 1, 16);
            return false, k;
          }
          assert size[..k] == size[..k - 1] + [i + 1];
          j := j + 1;
        }
        i := i + 1;
      }
      size[k] := 0;
      ok := true;
      assert size[..k] == SizeList(count, 16);
    }

    // ----- the codes

    /** The codes of length j; on entry k and code are past the shorter ones. */
    method AssignLength(ghost s: seq<nat>, j: nat, k0: nat, code0: nat) returns (k: nat, c: nat)
      requires Arrays() && Listed(s) && 1 <= j <= 16 && k0 == Shorter(s, j - 1)
      requires Shl(code0, MAX - j) == Start(s, k0) && Codes(s, k0)
      modifies code
      ensures k0 <= k == Shorter(s, j) <= |s| && c == code0 + (k - k0)
      ensures Shl(c, MAX - j) == Start(s, k) && Codes(s, k)
    {
      k, c := k0, code0;
      while size[k] == j
        invariant k0 <= k <= |s| && c == code0 + (k - k0)
        invariant forall m | k0 <= m < k :: s[m] == j
        invariant Shl(c, MAX - j) == Start(s, k) && Codes(s, k)
        decreases |s| - k
      {
        assert k < |s| && s[k] == j;
        NextCode(s, k, c);
        code[k] := c % 65536;
        k := k + 1;
        c := c + 1;
      }
      assert k < |s| ==> s[k] != j;
      ShorterIs(s, j, k);
    }

    lemma NextCode(s: seq<nat>, k: nat, c: nat)
      requires Sizes(s) && k < |s| && Shl(c, MAX - s[k]) == Start(s, k)
      ensures c == Code(s, k) && Shl(c + 1, MAX - s[k]) == Start(s, k + 1)
    {
      hide Code, Start, Shl;
      Interval(s, k);
      ShlOrder(c, Code(s, k), MAX - s[k]);
      ShlOrder(Code(s, k), c, MAX - s[k]);
    }

    /** The lengths below j are done; k symbols have codes, and c is the first code of length j. */
    predicate Assigned(s: seq<nat>, j: nat, k: nat, c: nat)
      requires Arrays() && Sizes(s) && 1 <= j <= 17
      reads code, maxcode, delta
    {
      && k == Shorter(s, j - 1) && k <= |s| && (j <= 16 ==> Shl(c, MAX - j) == Start(s, k))
      && Start(s, k) <= 65536 && Codes(s, k) && Ranges(s, j)
    }

    method OneLength(ghost s: seq<nat>, j: nat, k0: nat, c0: nat) returns (ok: bool, k: nat, c: nat)
      requires Arrays() && Listed(s) && 1 <= j <= 16 && Assigned(s, j, k0, c0)
      modifies code, maxcode, delta
      ensures ok ==> Assigned(s, j + 1, k, c)
      ensures !ok ==> Start(s, |s|) > 65536
    {
      hide Shl, Start, Shorter, Codes, LengthOk, Pow2, Code;
      delta[j] := k0 - c0;
      k, c := AssignLength(s, j, k0, c0);
      ShlAgainst(c, j);
      if k != k0 {
        if c - 1 >= Pow2(j) {
          StartMono(s, k, |s|);
          return false, k, c;
        }
      }
      maxcode[j] := Shl(c, MAX - j);
      LengthDone(s, j, k0, c0, k, c);
      if j < 16 { ShlDouble(c, MAX - j); }
      c := 2 * c;
      ok := true;
    }

    /** The lengths in turn; fails at the first length whose codes do not fit. */
    method AssignCodes(ghost s: seq<nat>) returns (ok: bool, k: nat)
      requires Arrays() && Listed(s)
      modifies code, maxcode, delta
      ensures ok <==> Start(s, |s|) <= 65536
      ensures ok ==> k == |s| && Codes(s, |s|) && Ranges(s, 17) && maxcode[17] == 0xffff_ffff
    {
      k := 0;
      var c: nat := 0;
      var j := 1;
      NoneAssigned(s);
      ShorterIs(s, 16, |s|);
      hide Shl, Start, Shorter, Codes, LengthOk, Sizes;
      while j <= 16
        invariant 1 <= j <= 17 && Assigned(s, j, k, c)
      {
        hide *;
        var good;
        good, k, c := OneLength(s, j, k, c);
        if !good { return false, k; }
        j := j + 1;
      }
      maxcode[17] := 0xffff_ffff;
      ok := true;
    }

    lemma NoneAssigned(s: seq<nat>)
      requires Arrays() && Sizes(s)
      ensures Assigned(s, 1, 0, 0)
    {
      ShorterIs(s, 0, 0);
      ShlOne(15);
    }

    // ----- the nine-bit table

    method ClearFast()
      requires Arrays()
      modifies fast
      ensures forall f | 0 <= f < 512 :: fast[f] == NOT_ACCELERATED
    {
      var f := 0;
      while f < 512
        invariant 0 <= f <= 512 && forall g | 0 <= g < f :: fast[g] == NOT_ACCELERATED
      {
        fast[f] := NOT_ACCELERATED;
        f := f + 1;
      }
    }

    method Stamp(c: nat, m: nat, i: nat)
      requires Arrays() && c + m <= 512
      modifies fast
      ensures forall f | 0 <= f < 512 :: fast[f] == if c <= f < c + m then i else old(fast[f])
    {
      var j := 0;
      while j < m
        invariant 0 <= j <= m
        invariant forall f | 0 <= f < 512 :: fast[f] == if c <= f < c + j then i else old(fast[f])
      {
        fast[c + j] := i;
        j := j + 1;
      }
    }

    /** The entries that begin with the code of symbol i. */
    method EnterFast(ghost s: seq<nat>, i: nat)
      requires Arrays() && Listed(s) && i < |s| && Fits(s) && Codes(s, |s|) && FastOk(fast[..], s, i)
      modifies fast
      ensures FastOk(fast[..], s, i + 1)
    {
      var bits := size[i];
      assert bits == s[i];
      assert code[i] == Code(s, i) % 65536 && Code(s, i) < Pow2(s[i]);
      assert s[i] > 9 ==> forall f: nat :: !Short(s, i, f);
      ghost var before := fast[..];
      hide Listed, Short, Code, Shl, Pow2, FastOk, Sizes, Fits, Codes;
      if bits <= FAST_BITS {
        ShortRange(s, i);
        Stamp(Shl(code[i], FAST_BITS - bits), Pow2(FAST_BITS - bits), i);
      }
      FastStep(before, fast[..], s, i);
    }

    method FillFast(ghost s: seq<nat>, k: nat)
      requires Arrays() && Listed(s) && k == |s| && Fits(s) && Codes(s, |s|)
      modifies fast
      ensures FastOk(fast[..], s, |s|)
    {
      ClearFast();
      var i := 0;
      while i < k
        invariant 0 <= i <= k && FastOk(fast[..], s, i)
      {
        hide FastOk, Fits, Codes;
        EnterFast(s, i);
        i := i + 1;
      }
    }

    /** stbi__build_huffman: succeeds exactly when there are at most 256 symbols and their codes fit. */
    method BuildHuffman(count: seq<nat>) returns (ok: bool)
      requires Arrays() && |count| == 16
      modifies fast, code, size, maxcode, delta
      ensures ok <==> |SizeList(count, 16)| <= 256 && Fits(SizeList(count, 16))
      ensures ok ==> Tables(SizeList(count, 16))
    {
      var listed, total := ListSizes(count);
      if !listed { return false; }
      ghost var s := SizeList(count, 16);
      FitsExactly(s);
      Pow2Table();
      hide SizeList, Fits, Pow2, Start, FastOk, Codes, Ranges;
      var fits, k := AssignCodes(s);
      if !fits { return false; }
      FillFast(s, k);
      ok := true;
    }
  }

  lemma LengthDone(s: seq<nat>, j: nat, k0: nat, c0: nat, k: nat, c: nat)
    requires Sizes(s) && 1 <= j <= 16
    requires k0 == Shorter(s, j - 1) && k == Shorter(s, j)
    requires Shl(c0, MAX - j) == Start(s, k0) && Shl(c, MAX - j) == Start(s, k)
    ensures LengthOk(s, j, Shl(c, MAX - j), k0 - c0)
  {
    hide Shl, Start, Shorter;
  }

  /** A preshifted code lies beyond 16 bits exactly when the code is more than 2^j. */
  lemma ShlAgainst(c: nat, j: nat)
    requires 1 <= j <= 16
    ensures Shl(c, MAX - j) <= 65536 <==> c <= Pow2(j)
  {
    Pow2Table();
    ShlPow2(j, MAX - j);
    ShlOrder(c, Pow2(j), MAX - j);
  }

  lemma {:induction false} ShlDouble(c: nat, e: nat)
    requires e > 0
    ensures Shl(2 * c, e - 1) == Shl(c, e)
  {
    if e <= 1 {
    } else {
      ShlDouble(c, e - 1);
    }
  }
}
