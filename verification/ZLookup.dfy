/** Looking a symbol up in finished tables: what the two paths of stbi__zhuffman_decode find. */
module ZLookup {
  import opened Bits
  import opened Canonical
  import opened Common
  import opened Deflate
  import opened DeflateFacts
  import opened ZTables

  lemma FastValueParts(s: nat, i: nat)
    requires i < 512
    ensures And(FastValue(s, i), 511) == i && Shr(FastValue(s, i), 9) == s
  {
    Pow2Table();
    OrCommutes(Shl(s, 9), i);
    OrShifted(i, s, 9);
    Unpack(i, s, 9);
    AndMask(FastValue(s, i), 9);
  }

  /** A match in the lookup table is a code standing in the stream. */
  lemma FastMatchIsCode(s: seq<byte>, lens: seq<nat>, p: nat, i: nat)
    requires i < |lens| && 1 <= lens[i] <= ZFAST_BITS && CodeOf(lens, i) < Pow2(lens[i])
    ensures FastMatch(lens, i, ReadBits(s, p, 9)) <==> CodeBits(s, p, lens[i]) == CodeOf(lens, i)
  {
    var n := lens[i];
    ReadLow(s, p, n, 9);
    RevRead(s, p, n, n);
    RevInvolutive(ReadBits(s, p, n), n);
    RevInvolutive(CodeOf(lens, i), n);
  }

  /** A non-zero entry holds the reference decoder's symbol and its length. */
  lemma FastHit(s: seq<byte>, lens: seq<nat>, p: nat, entry: nat)
    requires |lens| <= ZNSYMS && IsLengths(lens) && Canonical.Fits(lens)
    requires entry != 0 && FastEntry(lens, |lens|, ReadBits(s, p, 9), entry)
    ensures Decode(s, lens, p) == Some(Symbol(And(entry, 511), Shr(entry, 9)))
    ensures 1 <= Shr(entry, 9) <= 9
  {
    var i :| 0 <= i < |lens| && FastMatch(lens, i, ReadBits(s, p, 9)) && entry == FastValue(lens[i], i);
    FastValueParts(lens[i], i);
    CodeInRange(lens, i);
    FastMatchIsCode(s, lens, p, i);
    DecodeFinds(s, lens, p, i);
  }

  /** The word read so far has a code of length n, so some symbol has it. */
  lemma CodeHasSymbol(lens: seq<nat>, n: nat, c: nat) returns (i: nat)
    requires n >= 1 && FirstCode(lens, n) <= c < EndCode(lens, n)
    ensures i < |lens| && lens[i] == n && CodeOf(lens, i) == c
    ensures Position(lens, i) == c - FirstCode(lens, n) + FirstSymbol(lens, n)
  {
    i := RankHasSymbol(lens, n, c - FirstCode(lens, n), |lens|);
  }

  /** Below the end of some length: then a code of that length or a shorter one stands at p. */
  lemma {:induction false} SomeCode(s: seq<byte>, lens: seq<nat>, p: nat, n: nat) returns (i: nat)
    requires n >= 1 && CodeBits(s, p, n) < EndCode(lens, n)
    ensures i < |lens| && 1 <= lens[i] <= n && CodeBits(s, p, lens[i]) == CodeOf(lens, i)
  {
    if n >= 2 && CodeBits(s, p, n - 1) < EndCode(lens, n - 1) {
      i := SomeCode(s, lens, p, n - 1);
    } else {
      if n >= 2 {
        CodeShr(s, p, n - 1, n);
        BelowStaysBelow(lens, CodeBits(s, p, n), CodeBits(s, p, n - 1), 1, n - 1);
      }
      i := CodeHasSymbol(lens, n, CodeBits(s, p, n));
    }
  }

  /** A zero entry rules out every code of nine bits or fewer. */
  lemma FastMiss(s: seq<byte>, lens: seq<nat>, p: nat)
    requires IsLengths(lens) && Canonical.Fits(lens)
    requires FastEntry(lens, |lens|, ReadBits(s, p, 9), 0)
    ensures CodeBits(s, p, 9) >= EndCode(lens, 9)
  {
    if CodeBits(s, p, 9) < EndCode(lens, 9) {
      var i := SomeCode(s, lens, p, 9);
      CodeInRange(lens, i);
      FastMatchIsCode(s, lens, p, i);
    }
  }

  /** The preshifted comparison of the slow path, in terms of codes. */
  lemma PreshiftedCompare(s: seq<byte>, lens: seq<nat>, p: nat, n: nat)
    requires 1 <= n <= MAX_LENGTH
    ensures CodeBits(s, p, 16) < Shl(EndCode(lens, n), 16 - n) <==> CodeBits(s, p, n) < EndCode(lens, n)
    ensures Shr(CodeBits(s, p, 16), 16 - n) == CodeBits(s, p, n)
    ensures CodeBits(s, p, n) >= EndCode(lens, n) ==> CodeBits(s, p, n + 1) >= FirstCode(lens, n + 1)
  {
    CodeShr(s, p, n, 16);
    ShrBelow(CodeBits(s, p, 16), EndCode(lens, n), 16 - n);
    CodeShr(s, p, n, n + 1);
    BelowStaysBelow(lens, CodeBits(s, p, n + 1), CodeBits(s, p, n), 1, n);
  }

  /** The symbol table's entry for the code found at length n is the reference decoder's symbol. */
  lemma SlowHit(z: ZHuffman, s: seq<byte>, lens: seq<nat>, p: nat, n: nat)
    requires z.Tables(lens) && 1 <= n <= MAX_LENGTH
    requires FirstCode(lens, n) <= CodeBits(s, p, n) < EndCode(lens, n)
    ensures var b := CodeBits(s, p, n) - z.firstcode[n] + z.firstsymbol[n];
            0 <= b < ZNSYMS && z.size[b] == n && Decode(s, lens, p) == Some(Symbol(z.value[b], n))
  {
    hide CodeBits, Decode, FirstCode, EndCode, FirstSymbol, CodeOf, Position, ZHuffman.FastUpTo, Canonical.Fits;
    var i := CodeHasSymbol(lens, n, CodeBits(s, p, n));
    DecodeFinds(s, lens, p, i);
    assert Position(lens, i) < ZNSYMS && z.size[Position(lens, i)] == lens[i] && z.value[Position(lens, i)] == i;
  }
}
