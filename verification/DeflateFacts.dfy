/** How the reference decoder's single bits relate to whole words, and when a code is found. */
module DeflateFacts {
  import opened Bits
  import opened Canonical
  import opened Common
  import opened Deflate

  lemma {:induction false} ReadSplit(s: seq<byte>, p: nat, m: nat, n: nat)
    ensures ReadBits(s, p, m + n) == ReadBits(s, p, m) + Shl(ReadBits(s, p + m, n), m)
    decreases m
  {
    if m == 0 {
    } else {
      ReadSplit(s, p + 1, m - 1, n);
    }
  }

  /** The low m bits of a word read from the stream are the first m bits. */
  lemma {:induction false} ReadLow(s: seq<byte>, p: nat, m: nat, n: nat)
    requires m <= n
    ensures Low(ReadBits(s, p, n), m) == ReadBits(s, p, m)
    decreases n
  {
    if m == 0 {
    } else {
      ReadLow(s, p + 1, m - 1, n - 1);
    }
  }

  lemma {:induction false} ReadShr(s: seq<byte>, p: nat, m: nat, n: nat)
    requires m <= n
    ensures Shr(ReadBits(s, p, n), m) == ReadBits(s, p + m, n - m)
    decreases n
  {
    if m == 0 {
    } else {
      ReadShr(s, p + 1, m - 1, n - 1);
    }
  }

  lemma {:induction false} ReadZero(s: seq<byte>, p: nat, n: nat)
    requires p >= 8 * |s|
    ensures ReadBits(s, p, n) == 0
    decreases n
  {
    if n == 0 {
    } else {
      ReadZero(s, p + 1, n - 1);
    }
  }

  lemma ReadEmpty(s: seq<byte>, p: nat)
    ensures ReadBits(s, p, 0) == 0
  {
  }

  lemma {:induction false} ReadTail(x: nat, s: seq<byte>, k: nat, j: nat, n: nat)
    requires k < |s| && j + n == 8 && x < Pow2(n)
    requires forall i | 0 <= i < n :: Bit(x, i) == Bit(s[k], i + j)
    ensures ReadBits(s, 8 * k + j, n) == x
    decreases n
  {
    assert n == 0 || Pow2(n) == 2 * Pow2(n - 1);
    assert Pow2(0) == 1;
    hide Pow2;
    if n == 0 {
    } else {
      var q := 8 * k + j;
      assert q / 8 == k && q % 8 == j;
      assert Bit(x, 0) == Bit(s[k], j) == StreamBit(s, q);
      forall i | 0 <= i < n - 1 ensures Bit(x / 2, i) == Bit(s[k], i + (j + 1)) {
        assert Bit(x, i + 1) == Bit(s[k], i + 1 + j);
      }
      ReadTail(x / 2, s, k, j + 1, n - 1);
      assert ReadBits(s, q, n) == StreamBit(s, q) + 2 * ReadBits(s, q + 1, n - 1);
    }
  }

  /** Eight aligned bits are a byte of the string. */
  lemma ReadByte(s: seq<byte>, k: nat)
    ensures ReadBits(s, 8 * k, 8) == if k < |s| then s[k] else 0
  {
    if k < |s| {
      Pow2Table();
      ReadTail(s[k], s, k, 0, 8);
    } else {
      ReadZero(s, 8 * k, 8);
    }
  }

  lemma {:induction false} BytesAt(s: seq<byte>, p: nat, n: nat, j: nat)
    requires j < n
    ensures Bytes(s, p, n)[j] == ReadBits(s, p + 8 * j, 8)
  {
    hide ReadBits;
    if j >= n - 1 {
    } else {
      BytesAt(s, p, n - 1, j);
    }
  }

  lemma BytesOfInput(s: seq<byte>, k: nat, n: nat)
    requires k + n <= |s|
    ensures Bytes(s, 8 * k, n) == s[k..k + n]
  {
    hide ReadBits, Bytes;
    forall j | 0 <= j < n ensures Bytes(s, 8 * k, n)[j] == s[k + j] {
      BytesAt(s, 8 * k, n, j);
      ReadByte(s, k + j);
    }
  }

  /** Bits past the end of the string add nothing. */
  lemma ReadPast(s: seq<byte>, p: nat, m: nat, n: nat)
    requires p + m >= 8 * |s|
    ensures ReadBits(s, p, m + n) == ReadBits(s, p, m)
  {
    ReadSplit(s, p, m, n);
    ReadZero(s, p + m, n);
    ShlZero(m);
  }

  lemma {:induction false} ShlZero(n: nat)
    ensures Shl(0, n) == 0
  {
    if n == 0 {
    } else {
      ShlZero(n - 1);
    }
  }

  lemma {:induction false} CodeHead(s: seq<byte>, p: nat, n: nat)
    requires n >= 1
    ensures CodeBits(s, p, n) == (if StreamBit(s, p) == 1 then Pow2(n - 1) else 0) + CodeBits(s, p + 1, n - 1)
  {
    if n >= 2 {
      CodeHead(s, p, n - 1);
    } else {
      assert CodeBits(s, p, 1) == 2 * CodeBits(s, p, 0) + StreamBit(s, p);
    }
  }

  /** Reversing the word in the buffer gives the bits as a Huffman code. */
  lemma {:induction false} RevRead(s: seq<byte>, p: nat, m: nat, n: nat)
    requires m <= n
    ensures Rev(ReadBits(s, p, n), m) == CodeBits(s, p, m)
    decreases n
  {
    hide Pow2, StreamBit;
    if m == 0 {
    } else {
      RevRead(s, p + 1, m - 1, n - 1);
      CodeHead(s, p, m);
    }
  }

  lemma {:induction false} CodeShr(s: seq<byte>, p: nat, m: nat, n: nat)
    requires m <= n
    ensures Shr(CodeBits(s, p, n), n - m) == CodeBits(s, p, m)
  {
    hide StreamBit, Pow2;
    if m >= n {
    } else {
      Halved(StreamBit(s, p + n - 1), CodeBits(s, p, n - 1));
      CodeShr(s, p, m, n - 1);
    }
  }

  // ----- finding a code

  lemma NotAtLength(s: seq<byte>, lens: seq<nat>, p: nat, m: nat, n: nat)
    requires 1 <= m < n && CodeBits(s, p, n) >= FirstCode(lens, n)
    ensures SymbolOf(lens, m, CodeBits(s, p, m), |lens|) == None
  {
    var r := SymbolOf(lens, m, CodeBits(s, p, m), |lens|);
    if r.Some? {
      CodeInRange(lens, r.value);
      CodeShr(s, p, m, n);
      BelowStaysBelow(lens, CodeBits(s, p, n), CodeBits(s, p, m), n - m, m);
    }
  }

  lemma {:induction false} SkipTo(s: seq<byte>, lens: seq<nat>, p: nat, m: nat, n: nat)
    requires 1 <= m <= n <= MAX_LENGTH + 1 && CodeBits(s, p, n) >= FirstCode(lens, n)
    ensures DecodeFrom(s, lens, p, m) == DecodeFrom(s, lens, p, n)
    decreases n - m
  {
    if m >= n {
    } else {
      NotAtLength(s, lens, p, m, n);
      SkipTo(s, lens, p, m + 1, n);
    }
  }

  /** If symbol i's code stands at p, the reference decoder finds it: no shorter code matches first. */
  lemma DecodeFinds(s: seq<byte>, lens: seq<nat>, p: nat, i: nat)
    requires i < |lens| && 1 <= lens[i] <= MAX_LENGTH && CodeBits(s, p, lens[i]) == CodeOf(lens, i)
    ensures Decode(s, lens, p) == Some(Symbol(i, lens[i]))
  {
    CodeInRange(lens, i);
    SkipTo(s, lens, p, 1, lens[i]);
    SymbolBound(lens, lens[i], CodeOf(lens, i), |lens|);
    var r := SymbolOf(lens, lens[i], CodeOf(lens, i), |lens|);
    assert r.Some?;
    CodeInjective(lens, i, r.value);
  }

  /** Codes of length 15 and less cover exactly the words below the last end: above it nothing is found. */
  lemma DecodeMisses(s: seq<byte>, lens: seq<nat>, p: nat)
    requires CodeBits(s, p, MAX_LENGTH) >= EndCode(lens, MAX_LENGTH)
    ensures Decode(s, lens, p) == None
  {
    CodeShr(s, p, MAX_LENGTH, MAX_LENGTH + 1);
    BelowStaysBelow(lens, CodeBits(s, p, MAX_LENGTH + 1), CodeBits(s, p, MAX_LENGTH), 1, MAX_LENGTH);
    SkipTo(s, lens, p, 1, MAX_LENGTH + 1);
  }

  // ----- stored blocks

  lemma AlignIs(p: nat, k: int)
    requires p <= 8 * k < p + 8
    ensures AlignUp(p) == 8 * k
  {
  }

  /** What a stored block with a good header decodes to. */
  lemma StoredOk(s: seq<byte>, limit: nat, p: nat, len: nat, out: seq<byte>)
    requires len == Word(s, AlignUp(p)) && Word(s, AlignUp(p) + 16) == 0xffff - len
    ensures Stored(s, limit, p, out) == StoredData(s, limit, AlignUp(p) + 32, len, out)
  {
    hide Word, Bytes, AlignUp;
  }

  // ----- the fixed codes

  lemma {:induction false} KraftRun(lens: seq<nat>, x: nat, k: nat, n: nat)
    requires IsLengths(lens) && k + n <= |lens| && 1 <= x <= MAX_LENGTH
    requires forall i | k <= i < k + n :: lens[i] == x
    ensures KraftSum(lens, k + n) == KraftSum(lens, k) + n * Pow2(MAX_LENGTH - x)
  {
    if n == 0 {
    } else {
      KraftRun(lens, x, k, n - 1);
      var w := Pow2(MAX_LENGTH - x);
      assert n * w == (n - 1) * w + w;
      assert KraftSum(lens, k + n) == KraftSum(lens, k + n - 1) + w;
    }
  }

  /** The fixed codes of section 3.2.6 are accepted: the literal code uses up every word. */
  lemma FixedFit()
    ensures |FIXED_LITERALS| == 288 && IsLengths(FIXED_LITERALS) && Canonical.Fits(FIXED_LITERALS)
    ensures |FIXED_DISTANCES| == 32 && IsLengths(FIXED_DISTANCES) && Canonical.Fits(FIXED_DISTANCES)
  {
    Pow2Table();
    hide Pow2, Repeat, KraftSum, Canonical.Fits;
    var ll, dd := FIXED_LITERALS, FIXED_DISTANCES;
    KraftRun(ll, 8, 0, 144);
    KraftRun(ll, 9, 144, 112);
    KraftRun(ll, 7, 256, 24);
    KraftRun(ll, 8, 280, 8);
    KraftStart(ll);
    FitsIffKraft(ll);
    KraftRun(dd, 5, 0, 32);
    KraftStart(dd);
    FitsIffKraft(dd);
  }

  lemma KraftStart(lens: seq<nat>)
    requires IsLengths(lens)
    ensures KraftSum(lens, 0) == 0
  {
  }

  // ----- the order of the code length code

  lemma OrderInjective(i: nat, j: nat)
    requires i < j < 19
    ensures CODE_LENGTH_ORDER[i] != CODE_LENGTH_ORDER[j]
  {
  }

  lemma {:induction false} CodeLengthAt(s: seq<byte>, p: nat, n: nat, i: nat)
    requires i < n <= 19
    ensures CodeLengthLengths(s, p, n)[CODE_LENGTH_ORDER[i]] == ReadBits(s, p + 3 * i, 3)
  {
    hide ReadBits, Pow2, Repeat, StreamBit;
    if i == n - 1 {
    } else {
      CodeLengthAt(s, p, n - 1, i);
      OrderInjective(i, n - 1);
    }
  }

  /** Lengths that were not given are zero. */
  lemma {:induction false} CodeLengthRest(s: seq<byte>, p: nat, n: nat, i: nat)
    requires n <= i < 19
    ensures CodeLengthLengths(s, p, n)[CODE_LENGTH_ORDER[i]] == 0
  {
    hide ReadBits, Pow2, StreamBit;
    if n == 0 {
    } else {
      CodeLengthRest(s, p, n - 1, i);
      OrderInjective(n - 1, i);
    }
  }
}
