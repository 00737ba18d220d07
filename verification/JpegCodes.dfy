/** Huffman codes of JPEG (Annex C of ITU-T T.81): a list of code lengths in ascending order gives the codes. */
module JpegCodes {
  import opened Bits

  const MAX := 16

  predicate Sizes(s: seq<nat>) {
    |s| <= 256 && (forall i | 0 <= i < |s| :: 1 <= s[i] <= MAX) && (forall i, j | 0 <= i <= j < |s| :: s[i] <= s[j])
  }

  /** Section C.2: each code is the one before plus one, with zeros appended to reach its length. */
  function Code(s: seq<nat>, i: nat): nat
    requires Sizes(s) && i < |s|
  {
    if i == 0 then 0 else Shl(Code(s, i - 1) + 1, s[i] - s[i - 1])
  }

  /** The code of symbol i is a prefix of the 16 bits t. */
  predicate Matches(s: seq<nat>, i: nat, t: nat)
    requires Sizes(s) && i < |s|
  {
    Shr(t, MAX - s[i]) == Code(s, i)
  }

  /** Every code is a word of its length. */
  predicate Fits(s: seq<nat>)
    requires Sizes(s)
  {
    forall i | 0 <= i < |s| :: Code(s, i) < Pow2(s[i])
  }

  // ----- the codes as adjoining intervals of 16-bit words

  /** Where the words that begin with code i start: after those of all earlier codes. */
  function Start(s: seq<nat>, i: nat): nat
    requires Sizes(s) && i <= |s|
  {
    if i == 0 then 0 else Start(s, i - 1) + Pow2(MAX - s[i - 1])
  }

  lemma {:induction false} StartMono(s: seq<nat>, i: nat, j: nat)
    requires Sizes(s) && i <= j <= |s|
    ensures Start(s, i) <= Start(s, j)
  {
    if i >= j {
    } else {
      StartMono(s, i, j - 1);
    }
  }

  lemma {:induction false} ShlTwice(x: nat, m: nat, n: nat)
    ensures Shl(Shl(x, m), n) == Shl(x, m + n)
  {
    if n == 0 {
    } else {
      ShlTwice(x, m, n - 1);
    }
  }

  lemma {:induction false} ShlAdd(x: nat, y: nat, n: nat)
    ensures Shl(x + y, n) == Shl(x, n) + Shl(y, n)
  {
    if n == 0 {
    } else {
      ShlAdd(x, y, n - 1);
    }
  }

  lemma {:induction false} ShlOne(n: nat)
    ensures Shl(1, n) == Pow2(n) && Shl(0, n) == 0
  {
    if n == 0 {
    } else {
      ShlOne(n - 1);
    }
  }

  /** The interval of symbol i in terms of its code. */
  lemma {:induction false} Interval(s: seq<nat>, i: nat)
    requires Sizes(s) && i < |s|
    ensures Start(s, i) == Shl(Code(s, i), MAX - s[i])
    ensures Start(s, i + 1) == Shl(Code(s, i) + 1, MAX - s[i])
  {
    hide Pow2, Shl;
    if i == 0 {
      ShlOne(MAX - s[i]);
    } else {
      Interval(s, i - 1);
      ShlTwice(Code(s, i - 1) + 1, s[i] - s[i - 1], MAX - s[i]);
    }
    ShlAdd(Code(s, i), 1, MAX - s[i]);
    ShlOne(MAX - s[i]);
  }

  lemma MatchesExactly(s: seq<nat>, i: nat, t: nat)
    requires Sizes(s) && i < |s|
    ensures Matches(s, i, t) <==> Start(s, i) <= t < Start(s, i + 1)
  {
    Interval(s, i);
    ShrBelow(t, Code(s, i), MAX - s[i]);
    ShrBelow(t, Code(s, i) + 1, MAX - s[i]);
  }

  /** No code is a prefix of another: at most one matches any 16 bits. */
  lemma MatchesOnce(s: seq<nat>, i: nat, j: nat, t: nat)
    requires Sizes(s) && i < |s| && j < |s| && Matches(s, i, t) && Matches(s, j, t)
    ensures i == j
  {
    hide Matches, Start;
    MatchesExactly(s, i, t);
    MatchesExactly(s, j, t);
    if i < j { StartMono(s, i + 1, j); }
    if j < i { StartMono(s, j + 1, i); }
  }

  lemma CodeFits(s: seq<nat>, i: nat)
    requires Sizes(s) && i < |s|
    ensures Code(s, i) < Pow2(s[i]) <==> Start(s, i + 1) <= Pow2(MAX)
  {
    hide Code, Start, Pow2, Shl;
    Interval(s, i);
    ShlPow2(s[i], MAX - s[i]);
    ShlOrder(Code(s, i) + 1, Pow2(s[i]), MAX - s[i]);
  }

  /** The codes are words of their lengths exactly when the intervals fit into 16 bits (Kraft's inequality). */
  lemma FitsExactly(s: seq<nat>)
    requires Sizes(s)
    ensures Fits(s) <==> Start(s, |s|) <= Pow2(MAX)
  {
    if s == [] { assert Start(s, |s|) == 0; }
    hide Start, Code, Pow2;
    if s != [] { CodeFits(s, |s| - 1); }
    forall i | 0 <= i < |s| && Start(s, |s|) <= Pow2(MAX) ensures Code(s, i) < Pow2(s[i]) {
      CodeFits(s, i);
      StartMono(s, i + 1, |s|);
    }
  }

  lemma {:induction false} ShlOrder(x: nat, y: nat, n: nat)
    ensures x <= y <==> Shl(x, n) <= Shl(y, n)
  {
    if n == 0 {
    } else {
      ShlOrder(x, y, n - 1);
    }
  }

  // ----- symbols by length

  /** How many of the first n symbols have at most j bits. */
  function UpTo(s: seq<nat>, j: nat, n: nat): (r: nat)
    requires n <= |s|
    ensures r <= n && (r > 0 ==> s[r - 1] <= j) && forall i | r <= i < n :: s[i] > j
  {
    if n == 0 then 0 else if s[n - 1] <= j then n else UpTo(s, j, n - 1)
  }

  function Shorter(s: seq<nat>, j: nat): nat { UpTo(s, j, |s|) }

  /** The place where the symbols with at most j bits end is unique. */
  lemma ShorterIs(s: seq<nat>, j: nat, k: nat)
    requires Sizes(s) && k <= |s|
    requires k > 0 ==> s[k - 1] <= j
    requires k < |s| ==> s[k] > j
    ensures Shorter(s, j) == k
  {
    var r := Shorter(s, j);
    assert r <= |s| && (r > 0 ==> s[r - 1] <= j) && (r < |s| ==> s[r] > j);
  }

  /** Within one length the codes count upwards from the first. */
  lemma {:induction false} RunStart(s: seq<nat>, j: nat, u: nat, first: nat, i: nat)
    requires Sizes(s) && u <= i <= |s| && j <= MAX && (forall m | u <= m < i :: s[m] == j)
    requires Start(s, u) == Shl(first, MAX - j)
    ensures Start(s, i) == Shl(first + (i - u), MAX - j)
  {
    if u >= i {
    } else {
      RunStart(s, j, u, first, i - 1);
      hide Shl;
      ShlAdd(first + (i - 1 - u), 1, MAX - j);
      ShlOne(MAX - j);
    }
  }

  /** The preshifted search: a word between the ends of two lengths has its code in that length. */
  lemma SlowHit(s: seq<nat>, j: nat, u: nat, n: nat, first: nat, t: nat)
    requires Sizes(s) && u <= n <= |s| && 1 <= j <= MAX && (forall m | u <= m < n :: s[m] == j)
    requires Start(s, u) == Shl(first, MAX - j)
    requires Start(s, u) <= t < Start(s, n)
    ensures var c := u + (Shr(t, MAX - j) - first); u <= c < n && Matches(s, c, t)
  {
    var e := MAX - j;
    var v := Shr(t, e);
    hide Shl, Shr, Start, Matches;
    RunStart(s, j, u, first, n);
    ShrBelow(t, first, e);
    ShrBelow(t, first + (n - u), e);
    var c := u + (v - first);
    RunStart(s, j, u, first, c);
    RunStart(s, j, u, first, c + 1);
    ShrBelow(t, v, e);
    ShrBelow(t, v + 1, e);
    MatchesExactly(s, c, t);
  }

  // ----- the nine-bit table

  /** The nine bits f begin with the code of symbol i. */
  predicate Short(s: seq<nat>, i: nat, f: nat)
    requires Sizes(s) && i < |s|
  {
    s[i] <= 9 && Shl(Code(s, i), 9 - s[i]) <= f < Shl(Code(s, i) + 1, 9 - s[i])
  }

  lemma ShortMatches(s: seq<nat>, i: nat, t: nat)
    requires Sizes(s) && i < |s| && s[i] <= 9
    ensures Short(s, i, Shr(t, 7)) <==> Matches(s, i, t)
  {
    hide Shl, Shr, Start, Matches;
    var c := Code(s, i);
    hide Code;
    MatchesExactly(s, i, t);
    Interval(s, i);
    ShlTwice(c, 9 - s[i], 7);
    ShlTwice(c + 1, 9 - s[i], 7);
    ShrBelow(t, Shl(c, 9 - s[i]), 7);
    ShrBelow(t, Shl(c + 1, 9 - s[i]), 7);
  }

  lemma ShortOnce(s: seq<nat>, i: nat, j: nat, f: nat)
    requires Sizes(s) && i < |s| && j < |s| && Short(s, i, f) && Short(s, j, f)
    ensures i == j
  {
    var t := Shl(f, 7);
    ShrShl(f, 7);
    hide Short, Matches, Shl, Shr;
    ShortMatches(s, i, t);
    ShortMatches(s, j, t);
    assert s[i] <= 9 && s[j] <= 9 by { ShortSize(s, i, f); ShortSize(s, j, f); }
    MatchesOnce(s, i, j, t);
  }

  lemma ShortSize(s: seq<nat>, i: nat, f: nat)
    requires Sizes(s) && i < |s| && Short(s, i, f)
    ensures s[i] <= 9
  {
  }

  lemma {:induction false} ShrShl(x: nat, n: nat)
    ensures Shr(Shl(x, n), n) == x
  {
    if n == 0 {
    } else {
      ShrShl(x, n - 1);
    }
  }
}
