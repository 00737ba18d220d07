/** Canonical prefix codes, as section 3.2.2 of RFC 1951 builds them from a list of code lengths.
    Nothing here mentions the lookup tables: this is what the tables are proved against. */
module Canonical {
  import opened Bits
  import opened Common

  const MAX_LENGTH := 15

  /** Every length is at most fifteen; length 0 marks an unused symbol. */
  predicate IsLengths(lens: seq<nat>) {
    forall i | 0 <= i < |lens| :: lens[i] <= MAX_LENGTH
  }

  /** How many of the first k symbols have length n. */
  function CountTo(lens: seq<nat>, n: nat, k: nat): (c: nat)
    requires k <= |lens|
  {
    if k == 0 then 0 else CountTo(lens, n, k - 1) + (if lens[k - 1] == n then 1 else 0)
  }

  function Total(lens: seq<nat>, n: nat): nat {
    CountTo(lens, n, |lens|)
  }

  /** The smallest code of length n. */
  function FirstCode(lens: seq<nat>, n: nat): nat
    decreases n, 0
  {
    if n <= 1 then 0 else 2 * EndCode(lens, n - 1)
  }

  /** One past the largest code of length n. */
  function EndCode(lens: seq<nat>, n: nat): nat
    decreases n, 1
  {
    if n == 0 then 0 else FirstCode(lens, n) + Total(lens, n)
  }

  function CodeOf(lens: seq<nat>, i: nat): nat
    requires i < |lens|
  {
    FirstCode(lens, lens[i]) + CountTo(lens, lens[i], i)
  }

  /** No length has more codes than fit in that many bits. */
  ghost predicate Fits(lens: seq<nat>) {
    forall n | 1 <= n <= MAX_LENGTH :: EndCode(lens, n) <= Pow2(n)
  }

  /** The sum of 2^-length over all used symbols, in units of 2^-15. */
  function KraftSum(lens: seq<nat>, k: nat): nat
    requires k <= |lens| && IsLengths(lens)
  {
    if k == 0 then 0
    else KraftSum(lens, k - 1) + (if lens[k - 1] == 0 then 0 else Pow2(MAX_LENGTH - lens[k - 1]))
  }

  // ----- counting

  lemma {:induction false} CountMono(lens: seq<nat>, n: nat, j: nat, k: nat)
    requires j <= k <= |lens|
    ensures CountTo(lens, n, j) <= CountTo(lens, n, k)
    ensures j < k && lens[j] == n ==> CountTo(lens, n, j) < CountTo(lens, n, k)
  {
    if j >= k {
    } else {
      CountMono(lens, n, j, k - 1);
    }
  }

  /** Each rank below the count belongs to some symbol of that length. */
  lemma {:induction false} RankHasSymbol(lens: seq<nat>, n: nat, r: nat, k: nat) returns (i: nat)
    requires k <= |lens| && r < CountTo(lens, n, k)
    ensures i < k && lens[i] == n && CountTo(lens, n, i) == r
  {
    if r == CountTo(lens, n, k - 1) {
      i := k - 1;
    } else {
      i := RankHasSymbol(lens, n, r, k - 1);
    }
  }

  lemma CodeInRange(lens: seq<nat>, i: nat)
    requires i < |lens| && lens[i] >= 1
    ensures FirstCode(lens, lens[i]) <= CodeOf(lens, i) < EndCode(lens, lens[i])
  {
    CountMono(lens, lens[i], i, |lens|);
  }

  lemma CodeInjective(lens: seq<nat>, i: nat, j: nat)
    requires i < |lens| && j < |lens| && lens[i] == lens[j] && CodeOf(lens, i) == CodeOf(lens, j)
    ensures i == j
  {
    if i < j {
      CountMono(lens, lens[i], i, j);
    } else if j < i {
      CountMono(lens, lens[i], j, i);
    }
  }

  // ----- oversubscription

  lemma {:induction false} EndGrows(lens: seq<nat>, m: nat, n: nat)
    requires m <= n && EndCode(lens, m) > Pow2(m)
    ensures EndCode(lens, n) > Pow2(n)
  {
    if m >= n {
    } else {
      EndGrows(lens, m, n - 1);
    }
  }

  /** The first n lengths' share of the Kraft sum over the first k symbols. */
  function Share(lens: seq<nat>, k: nat, n: nat): nat
    requires k <= |lens| && n <= MAX_LENGTH
  {
    if n == 0 then 0 else Share(lens, k, n - 1) + Times(CountTo(lens, n, k), Pow2(MAX_LENGTH - n))
  }

  lemma {:induction false} ShareStep(lens: seq<nat>, k: nat, n: nat)
    requires 1 <= k <= |lens| && n <= MAX_LENGTH && IsLengths(lens)
    ensures Share(lens, k, n) == Share(lens, k - 1, n) + (if 1 <= lens[k - 1] <= n then Pow2(MAX_LENGTH - lens[k - 1]) else 0)
  {
    if n == 0 {
    } else {
      hide Times, Pow2;
      ShareStep(lens, k, n - 1);
      TimesNext(CountTo(lens, n, k - 1), Pow2(MAX_LENGTH - n));
    }
  }

  lemma {:induction false} ShareIsKraft(lens: seq<nat>, k: nat)
    requires k <= |lens| && IsLengths(lens)
    ensures Share(lens, k, MAX_LENGTH) == KraftSum(lens, k)
  {
    if k == 0 {
      ShareEmpty(lens, MAX_LENGTH);
    } else {
      ShareIsKraft(lens, k - 1);
      ShareStep(lens, k, MAX_LENGTH);
    }
  }

  lemma {:induction false} ShareEmpty(lens: seq<nat>, n: nat)
    requires n <= MAX_LENGTH
    ensures Share(lens, 0, n) == 0
  {
    if n == 0 {
    } else {
      ShareEmpty(lens, n - 1);
    }
  }

  lemma {:induction false} ShareIsEnd(lens: seq<nat>, n: nat)
    requires n <= MAX_LENGTH
    ensures Share(lens, |lens|, n) == Times(EndCode(lens, n), Pow2(MAX_LENGTH - n))
  {
    if n == 0 {
    } else {
      ShareIsEnd(lens, n - 1);
      var w, e, t := Pow2(MAX_LENGTH - n), EndCode(lens, n - 1), Total(lens, n);
      assert Pow2(MAX_LENGTH - (n - 1)) == 2 * w && EndCode(lens, n) == 2 * e + t;
      hide Times, Pow2;
      Distribute(e, t, w);
    }
  }

  lemma Distribute(e: nat, t: nat, w: nat)
    ensures Times(2 * e + t, w) == Times(e, 2 * w) + Times(t, w)
  {
  }

  lemma KraftIsEnd(lens: seq<nat>)
    requires IsLengths(lens)
    ensures KraftSum(lens, |lens|) == EndCode(lens, MAX_LENGTH)
  {
    assert Pow2(0) == 1;
    hide Share, KraftSum, EndCode, Pow2;
    ShareIsKraft(lens, |lens|);
    ShareIsEnd(lens, MAX_LENGTH);
  }

  /** A list of lengths fits exactly when it meets the Kraft inequality. */
  lemma FitsIffKraft(lens: seq<nat>)
    requires IsLengths(lens)
    ensures Fits(lens) <==> KraftSum(lens, |lens|) <= Pow2(MAX_LENGTH)
  {
    hide KraftSum, EndCode, Pow2;
    KraftIsEnd(lens);
    if !Fits(lens) {
      var n :| 1 <= n <= MAX_LENGTH && EndCode(lens, n) > Pow2(n);
      EndGrows(lens, n, MAX_LENGTH);
    }
  }

  // ----- prefixes

  /** The leading bits of a word decide the length of its code: below the end of one length, below the end of all longer ones. */
  lemma {:induction false} BelowStaysBelow(lens: seq<nat>, x: nat, y: nat, d: nat, m: nat)
    requires m >= 1 && y == Shr(x, d)
    ensures y < EndCode(lens, m) ==> d >= 1 ==> x < FirstCode(lens, m + d)
    ensures y >= EndCode(lens, m) && d == 1 ==> x >= FirstCode(lens, m + d)
  {
    if d == 0 {
    } else if d == 1 {
      assert Shr(x, 1) == x / 2;
    } else {
      BelowStaysBelow(lens, x / 2, y, d - 1, m);
      assert EndCode(lens, m + (d - 1)) >= FirstCode(lens, m + (d - 1));
    }
  }

  /** No code is a prefix of another: cutting a longer code down to a shorter length never gives a code of that length. */
  lemma PrefixFree(lens: seq<nat>, i: nat, j: nat)
    requires i < |lens| && j < |lens| && i != j && 1 <= lens[i] <= lens[j]
    ensures Shr(CodeOf(lens, j), lens[j] - lens[i]) != CodeOf(lens, i)
  {
    var d := lens[j] - lens[i];
    if Shr(CodeOf(lens, j), d) == CodeOf(lens, i) {
      CodeInRange(lens, i);
      CodeInRange(lens, j);
      if d == 0 {
        CodeInjective(lens, i, j);
      } else {
        BelowStaysBelow(lens, CodeOf(lens, j), CodeOf(lens, i), d, lens[i]);
      }
    }
  }

  // ----- codes of lists with few lengths

  lemma {:induction false} CountNone(lens: seq<nat>, n: nat, j: nat, k: nat)
    requires j <= k <= |lens| && forall i | j <= i < k :: lens[i] != n
    ensures CountTo(lens, n, k) == CountTo(lens, n, j)
  {
    if j == k {
    } else {
      CountNone(lens, n, j, k - 1);
    }
  }

  /** Where no code is shorter, the codes of a length count up from zero. */
  lemma {:induction false} ShortestCodes(lens: seq<nat>, n: nat)
    requires forall i | 0 <= i < |lens| :: lens[i] == 0 || lens[i] >= n
    ensures FirstCode(lens, n) == 0
  {
    if n <= 1 {
    } else {
      ShortestCodes(lens, n - 1);
      CountNone(lens, n - 1, 0, |lens|);
    }
  }

  /** The first of the shortest codes is all zeros. */
  lemma FirstShortest(lens: seq<nat>, i: nat)
    requires i < |lens|
    requires forall j | 0 <= j < |lens| :: lens[j] == 0 || lens[j] >= lens[i]
    requires forall j | 0 <= j < i :: lens[j] != lens[i]
    ensures CodeOf(lens, i) == 0
  {
    ShortestCodes(lens, lens[i]);
    CountNone(lens, lens[i], 0, i);
  }

  lemma {:induction false} CountRun(lens: seq<nat>, n: nat, j: nat, k: nat)
    requires j <= k <= |lens| && forall i | j <= i < k :: lens[i] == n
    ensures CountTo(lens, n, k) == CountTo(lens, n, j) + k - j
  {
    if j == k {
    } else {
      CountRun(lens, n, j, k - 1);
    }
  }

  // ----- positions in the symbol table

  /** How many symbols have a length from 1 to n - 1. */
  function FirstSymbol(lens: seq<nat>, n: nat): nat {
    if n <= 1 then 0 else FirstSymbol(lens, n - 1) + Total(lens, n - 1)
  }

  function Position(lens: seq<nat>, i: nat): nat
    requires i < |lens|
  {
    FirstSymbol(lens, lens[i]) + CountTo(lens, lens[i], i)
  }

  lemma {:induction false} SymbolsDisjoint(lens: seq<nat>, m: nat, n: nat)
    requires 1 <= m < n
    ensures FirstSymbol(lens, m) + Total(lens, m) <= FirstSymbol(lens, n)
  {
    if m + 1 >= n {
    } else {
      SymbolsDisjoint(lens, m, n - 1);
    }
  }

  lemma PositionInjective(lens: seq<nat>, i: nat, j: nat)
    requires i < j < |lens| && lens[i] >= 1 && lens[j] >= 1
    ensures Position(lens, i) != Position(lens, j)
  {
    CountMono(lens, lens[i], i, |lens|);
    CountMono(lens, lens[j], j, |lens|);
    if lens[i] == lens[j] {
      CountMono(lens, lens[i], i, j);
    } else if lens[i] < lens[j] {
      SymbolsDisjoint(lens, lens[i], lens[j]);
    } else {
      SymbolsDisjoint(lens, lens[j], lens[i]);
    }
  }

  /** How many of the first k symbols have a length from 1 to n - 1. */
  function UsedTo(lens: seq<nat>, n: nat, k: nat): nat
    requires k <= |lens|
  {
    if n <= 1 then 0 else UsedTo(lens, n - 1, k) + CountTo(lens, n - 1, k)
  }

  lemma {:induction false} UsedStep(lens: seq<nat>, n: nat, k: nat)
    requires 1 <= k <= |lens|
    ensures UsedTo(lens, n, k) == UsedTo(lens, n, k - 1) + (if 1 <= lens[k - 1] < n then 1 else 0)
  {
    if n <= 1 {
    } else {
      UsedStep(lens, n - 1, k);
    }
  }

  lemma {:induction false} UsedBound(lens: seq<nat>, n: nat, k: nat)
    requires k <= |lens|
    ensures UsedTo(lens, n, k) <= k
  {
    if k == 0 {
      UsedNone(lens, n);
    } else {
      UsedBound(lens, n, k - 1);
      UsedStep(lens, n, k);
    }
  }

  lemma {:induction false} UsedNone(lens: seq<nat>, n: nat)
    ensures UsedTo(lens, n, 0) == 0
  {
    if n <= 1 {
    } else {
      UsedNone(lens, n - 1);
    }
  }

  lemma {:induction false} UsedIsFirstSymbol(lens: seq<nat>, n: nat)
    ensures UsedTo(lens, n, |lens|) == FirstSymbol(lens, n)
  {
    if n <= 1 {
    } else {
      UsedIsFirstSymbol(lens, n - 1);
    }
  }

  lemma PositionBound(lens: seq<nat>, i: nat)
    requires i < |lens| && lens[i] >= 1
    ensures Position(lens, i) < |lens|
  {
    var n := lens[i] + 1;
    UsedBound(lens, n, |lens|);
    UsedIsFirstSymbol(lens, n);
    CountMono(lens, lens[i], i, |lens|);
  }
}
