/** The added alpha channel, and the expansion of one reconstructed row into samples. */
module PngRows {
  import opened Bits
  import opened Common
  import opened PngSamples

  // ----- alpha, written backwards so that it may run in place

  /** The bytes from lo to hi are the samples of s from i on, with their alpha. */
  predicate Done(d: seq<byte>, lo: nat, hi: nat, s: seq<byte>, i: nat, n: nat, a: nat)
    requires n > 0
  {
    lo <= hi <= |d| && i <= |s| && d[lo..hi] == WithAlpha(s[i..], n, a)
  }

  /** The n samples at `from` and an alpha byte have been put at lo; what lies above lo + n is kept. */
  predicate Put(read: seq<byte>, from: nat, before: seq<byte>, after: seq<byte>, lo: nat, n: nat, a: nat) {
    && |before| == |after| && from + n <= |read| && lo + n < |after|
    && after[lo..lo + n] == read[from..from + n] && after[lo + n] == a
    && forall k | lo + n < k < |after| :: after[k] == before[k]
  }

  predicate Kept(before: seq<byte>, after: seq<byte>, m: nat) {
    |before| == |after| && m <= |before| && before[..m] == after[..m]
  }

  /** The samples s, of which the first m are still to be read, lie at `at`. */
  predicate Unread(b: seq<byte>, at: nat, s: seq<byte>, m: nat) {
    m <= |s| && at + m <= |b| && b[at..at + m] == s[..m]
  }

  lemma ReadOn(before: seq<byte>, after: seq<byte>, at: nat, s: seq<byte>, m: nat, n: nat)
    requires Unread(before, at, s, m + n) && Kept(before, after, at + m)
    ensures Unread(after, at, s, m) && before[at + m..at + m + n] == s[m..m + n]
  {
    assert before[at..at + m + n][m..] == s[..m + n][m..];
    assert before[at..at + m] == before[at..at + m + n][..m] == s[..m + n][..m];
    assert before[..at + m][at..] == after[..at + m][at..];
  }

  lemma DoneStep(read: seq<byte>, left: seq<byte>, at: nat, before: seq<byte>, after: seq<byte>, lo: nat, hi: nat,
                 s: seq<byte>, i: nat, n: nat, a: nat)
    requires n > 0 && Unread(read, at, s, i + n) && Kept(read, left, at + i)
    requires Done(before, lo + n + 1, hi, s, i + n, n, a)
    requires Put(read, at + i, before, after, lo, n, a)
    ensures Unread(left, at, s, i) && Done(after, lo, hi, s, i, n, a)
  {
    ReadOn(read, left, at, s, i, n);
    assert s[i..][..n] == s[i..i + n] && s[i..][n..] == s[i + n..];
    assert after[lo..hi] == after[lo..lo + n] + [a] + after[lo + n + 1..hi];
    assert after[lo + n + 1..hi] == before[lo + n + 1..hi];
  }

  lemma AllDone(d: seq<byte>, hi: nat, s: seq<byte>, n: nat, a: nat)
    requires n > 0 && Done(d, 0, hi, s, 0, n, a)
    ensures d[..hi] == WithAlpha(s, n, a)
  {
    assert s[0..] == s;
  }

  /** One pixel; no byte that is still to be read is written, even in place. */
  method PutGrey(dest: array<byte>, src: array<byte>, at: nat, i: nat)
    requires src == dest ==> at == 0
    requires at + i < src.Length && 2 * i + 2 <= dest.Length
    modifies dest
    ensures Put(old(src[..]), at + i, old(dest[..]), dest[..], 2 * i, 1, 255) && Kept(old(src[..]), src[..], at + i)
  {
    dest[i * 2 + 1] := 255;
    dest[i * 2 + 0] := src[at + i];
  }

  method AlphaGrey(dest: array<byte>, src: array<byte>, at: nat, x: nat)
    requires src == dest ==> at == 0
    requires at + x <= src.Length && 2 * x <= dest.Length
    modifies dest
    ensures dest[..2 * x] == WithAlpha(old(src[at..at + x]), 1, 255)
  {
    ghost var s := src[at..at + x];
    var i := x;
    assert Done(dest[..], 2 * x, 2 * x, s, x, 1, 255) && Unread(src[..], at, s, x);
    hide *;
    while i > 0
      invariant 0 <= i <= x
      invariant Unread(src[..], at, s, i)
      invariant Done(dest[..], 2 * i, 2 * x, s, i, 1, 255)
    {
      ghost var before, read := dest[..], src[..];
      i := i - 1;
      PutGrey(dest, src, at, i);
      DoneStep(read, src[..], at, before, dest[..], 2 * i, 2 * x, s, i, 1, 255);
    }
    AllDone(dest[..], 2 * x, s, 1, 255);
  }

  method PutColour(dest: array<byte>, src: array<byte>, at: nat, i: nat)
    requires src == dest ==> at == 0
    requires at + 3 * i + 3 <= src.Length && 4 * i + 4 <= dest.Length
    modifies dest
    ensures Put(old(src[..]), at + 3 * i, old(dest[..]), dest[..], 4 * i, 3, 255)
    ensures Kept(old(src[..]), src[..], at + 3 * i)
  {
    dest[i * 4 + 3] := 255;
    dest[i * 4 + 2] := src[at + (i * 3 + 2)];
    dest[i * 4 + 1] := src[at + (i * 3 + 1)];
    dest[i * 4 + 0] := src[at + (i * 3 + 0)];
  }

  method AlphaColour(dest: array<byte>, src: array<byte>, at: nat, x: nat)
    requires src == dest ==> at == 0
    requires at + 3 * x <= src.Length && 4 * x <= dest.Length
    modifies dest
    ensures dest[..4 * x] == WithAlpha(old(src[at..at + 3 * x]), 3, 255)
  {
    ghost var s := src[at..at + 3 * x];
    var i := x;
    assert Done(dest[..], 4 * x, 4 * x, s, 3 * x, 3, 255) && Unread(src[..], at, s, 3 * x);
    hide *;
    while i > 0
      invariant 0 <= i <= x
      invariant Unread(src[..], at, s, 3 * i)
      invariant Done(dest[..], 4 * i, 4 * x, s, 3 * i, 3, 255)
    {
      ghost var before, read := dest[..], src[..];
      i := i - 1;
      PutColour(dest, src, at, i);
      DoneStep(read, src[..], at, before, dest[..], 4 * i, 4 * x, s, 3 * i, 3, 255);
    }
    AllDone(dest[..], 4 * x, s, 3, 255);
  }

  /** stbi__create_png_alpha_expand8: in place, or from another buffer, the result is the same. */
  method AlphaExpand(dest: array<byte>, src: array<byte>, at: nat, x: nat, imgN: nat)
    requires imgN == 1 || imgN == 3
    requires src == dest ==> at == 0
    requires at + x * imgN <= src.Length && x * (imgN + 1) <= dest.Length
    modifies dest
    ensures dest[..x * (imgN + 1)] == WithAlpha(old(src[at..at + x * imgN]), imgN, 255)
  {
    if imgN == 1 {
      AlphaGrey(dest, src, at, x);
    } else {
      AlphaColour(dest, src, at, x);
    }
  }

  // ----- eight and sixteen bits

  lemma {:induction false} SamplesAreBytes(row: seq<byte>, k: nat)
    requires k <= |row|
    ensures Samples(row, k, 8, 1) == row[..k]
  {
    if k == 0 {
    } else {
      SamplesAreBytes(row, k - 1);
      SampleOfByte(row, k - 1);
      assert row[..k] == row[..k - 1] + [row[k - 1]];
    }
  }

  /** Sixteen bits, high byte first: the two bytes of sample i. */
  function Word(row: seq<byte>, i: nat): nat
    requires 2 * i + 1 < |row|
  {
    Or(Shl(row[2 * i], 8), row[2 * i + 1])
  }

  lemma WordStep(row: seq<byte>, i: nat)
    requires 2 * i + 1 < |row|
    ensures Samples(row, i + 1, 16, 1) == Samples(row, i, 16, 1) + [Word(row, i)]
  {
    SampleOfWord(row, i);
    hide Sample, Pow2, Or, Shl;
    assert Value(row, Times(i, 16), 16, 1) == Word(row, i);
  }

  lemma {:induction false} AlphaAppend(s: seq<nat>, m: nat, t: seq<nat>, n: nat, a: nat)
    requires n > 0 && |t| == n && |s| == m * n
    ensures WithAlpha(s + t, n, a) == WithAlpha(s, n, a) + t + [a]
  {
    if m == 0 {
      assert s + t == t && t[n..] == [];
    } else {
      assert |s| == (m - 1) * n + n && (m - 1) * n >= 0;
      AlphaAppend(s[n..], m - 1, t, n, a);
      assert (s + t)[..n] == s[..n] && (s + t)[n..] == s[n..] + t;
    }
  }

  method Words(row: seq<byte>, dest: array<nat>, nsmp: nat)
    requires 2 * nsmp <= |row| && nsmp <= dest.Length
    modifies dest
    ensures dest[..nsmp] == Samples(row, nsmp, 16, 1)
  {
    var i := 0;
    while i < nsmp
      invariant 0 <= i <= nsmp && dest[..i] == Samples(row, i, 16, 1)
    {
      hide *;
      WordStep(row, i);
      dest[i] := Word(row, i);
      assert dest[..i + 1] == dest[..i] + [dest[i]];
      i := i + 1;
    }
  }

  method WordsGrey(row: seq<byte>, dest: array<nat>, x: nat)
    requires 2 * x <= |row| && 2 * x <= dest.Length
    modifies dest
    ensures dest[..2 * x] == WithAlpha(Samples(row, x, 16, 1), 1, 0xffff)
  {
    var i := 0;
    while i < x
      invariant 0 <= i <= x && dest[..2 * i] == WithAlpha(Samples(row, i, 16, 1), 1, 0xffff)
    {
      hide *;
      WordStep(row, i);
      AlphaAppend(Samples(row, i, 16, 1), i, [Word(row, i)], 1, 0xffff);
      dest[2 * i] := Word(row, i);
      dest[2 * i + 1] := 0xffff;
      assert dest[..2 * i + 2] == dest[..2 * i] + [dest[2 * i]] + [dest[2 * i + 1]];
      i := i + 1;
    }
  }

  lemma WordsStep(row: seq<byte>, i: nat)
    requires 6 * i + 5 < |row|
    ensures Samples(row, 3 * i + 3, 16, 1) ==
      Samples(row, 3 * i, 16, 1) + [Word(row, 3 * i), Word(row, 3 * i + 1), Word(row, 3 * i + 2)]
  {
    hide *;
    WordStep(row, 3 * i);
    WordStep(row, 3 * i + 1);
    WordStep(row, 3 * i + 2);
  }

  method PutWords(dest: array<nat>, at: nat, r: nat, g: nat, b: nat)
    requires at + 4 <= dest.Length
    modifies dest
    ensures dest[..at + 4] == old(dest[..at]) + [r, g, b] + [0xffff]
  {
    dest[at] := r;
    dest[at + 1] := g;
    dest[at + 2] := b;
    dest[at + 3] := 0xffff;
    assert dest[..at] == old(dest[..at]);
  }

  method WordsColour(row: seq<byte>, dest: array<nat>, x: nat)
    requires 6 * x <= |row| && 4 * x <= dest.Length
    modifies dest
    ensures dest[..4 * x] == WithAlpha(Samples(row, 3 * x, 16, 1), 3, 0xffff)
  {
    var i := 0;
    while i < x
      invariant 0 <= i <= x && dest[..4 * i] == WithAlpha(Samples(row, 3 * i, 16, 1), 3, 0xffff)
    {
      hide *;
      WordsStep(row, i);
      var r, g, b := Word(row, 3 * i), Word(row, 3 * i + 1), Word(row, 3 * i + 2);
      AlphaAppend(Samples(row, 3 * i, 16, 1), i, [r, g, b], 3, 0xffff);
      PutWords(dest, 4 * i, r, g, b);
      i := i + 1;
    }
  }

  // ----- a whole row

  lemma ScaleOk(d: nat, color: nat)
    requires Shared(d)
    ensures ScaleFits(d, Scale(d, color))
  {
    Pow2Table();
  }

  method ExpandLow(row: seq<byte>, x: nat, imgN: nat, outN: nat, d: nat, color: nat) returns (out: seq<nat>)
    requires Format(imgN, outN, d) && d < 8 && Times(x * imgN, d) <= 8 * |row|
    ensures out == RowSamples(row, x, imgN, outN, d, color)
  {
    ScaleOk(d, color);
    hide Samples, Times, ScaleFits, WithAlpha;
    var dest := new byte[x * outN];
    assert x * imgN <= x * outN;
    ExpandBits(row, dest, x * imgN, d, Scale(d, color));
    if imgN != outN {
      assert dest[0..0 + x * imgN] == dest[..x * imgN];
      AlphaExpand(dest, dest, 0, x, imgN);
    }
    out := dest[..x * outN];
  }

  method ExpandByte(buf: array<byte>, c: nat, w: nat, x: nat, imgN: nat, outN: nat, color: nat) returns (out: seq<nat>)
    requires Format(imgN, outN, 8) && c + w <= buf.Length && x * imgN <= w
    ensures out == RowSamples(buf[c..c + w], x, imgN, outN, 8, color)
  {
    SamplesAreBytes(buf[c..c + w], x * imgN);
    hide Samples, WithAlpha;
    assert buf[c..c + w][..x * imgN] == buf[c..c + x * imgN];
    if imgN == outN {
      out := buf[c..c + x * imgN];
    } else {
      var dest := new byte[x * outN];
      AlphaExpand(dest, buf, c, x, imgN);
      out := dest[..x * outN];
    }
  }

  method ExpandWord(row: seq<byte>, x: nat, imgN: nat, outN: nat, color: nat) returns (out: seq<nat>)
    requires Format(imgN, outN, 16) && 2 * (x * imgN) <= |row|
    ensures out == RowSamples(row, x, imgN, outN, 16, color)
  {
    hide Samples, WithAlpha;
    var dest := new nat[x * outN];
    if imgN == outN {
      Words(row, dest, x * imgN);
    } else if imgN == 1 {
      WordsGrey(row, dest, x);
    } else {
      WordsColour(row, dest, x);
    }
    out := dest[..x * outN];
  }

  /** One row of the picture, from the reconstructed bytes in the work buffer. */
  method ExpandRow(buf: array<byte>, c: nat, w: nat, x: nat, imgN: nat, outN: nat, d: nat, color: nat) returns (out: seq<nat>)
    requires Format(imgN, outN, d) && c + w <= buf.Length && Times(x * imgN, d) <= 8 * w
    ensures out == RowSamples(buf[c..c + w], x, imgN, outN, d, color)
  {
    hide Samples, WithAlpha, RowSamples;
    if d < 8 {
      out := ExpandLow(buf[c..c + w], x, imgN, outN, d, color);
    } else if d == 8 {
      out := ExpandByte(buf, c, w, x, imgN, outN, color);
    } else {
      out := ExpandWord(buf[c..c + w], x, imgN, outN, color);
    }
  }
}
