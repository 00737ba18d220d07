/** stb_image's reconstruction of PNG rows, on two row buffers that take turns. */
module PngUnfilter {
  import opened PngFilter

  // ----- the work buffer

  /** Rows at c and p of a buffer that holds exactly two. */
  predicate Halves(length: nat, c: nat, p: nat, w: nat) {
    length == 2 * w && ((c == 0 && p == w) || (c == w && p == 0))
  }

  /** The row being reconstructed: where it and the row above it lie, its width, the distance
      to the byte on the left, and its filtered bytes. */
  datatype Line = Line(c: nat, p: nat, w: nat, n: nat, raw: seq<byte>)

  /** The first k bytes of the row are reconstructed, and the half above it still holds `kept`. */
  ghost predicate Progress(b: array<byte>, l: Line, f: Filter, above: seq<byte>, kept: seq<byte>, k: nat)
    reads b
  {
    && Halves(b.Length, l.c, l.p, l.w) && 0 < l.n <= l.w == |l.raw| == |above| && k <= l.w
    && b[l.c..l.c + k] == Recon(f, l.raw, above, l.n, k)
    && b[l.p..l.p + l.w] == kept
  }

  ghost function Predicted(b: array<byte>, l: Line, f: Filter, above: seq<byte>, k: nat): int
    requires Halves(b.Length, l.c, l.p, l.w) && 0 < l.n <= l.w == |above| && k < l.w
    reads b
  {
    Predict(f, if k < l.n then 0 else b[l.c + k - l.n], above[k], if k < l.n then 0 else above[k - l.n])
  }

  lemma InRange(b: array<byte>, l: Line, f: Filter, above: seq<byte>, kept: seq<byte>, k: nat)
    requires Progress(b, l, f, above, kept, k)
    ensures Halves(b.Length, l.c, l.p, l.w) && 0 < l.n <= l.w == |l.raw| == |above|
    ensures l.c + l.w <= b.Length && l.p + l.w <= b.Length
  {
  }

  /** What the filters read: the byte above, and from the second pixel on the bytes to the left. */
  lemma Readings(b: array<byte>, l: Line, f: Filter, above: seq<byte>, k: nat)
    requires Progress(b, l, f, above, above, k) && k < l.w
    ensures k < l.n ==> Predicted(b, l, f, above, k) == Predict(f, 0, b[l.p + k], 0)
    ensures k >= l.n ==> Predicted(b, l, f, above, k) == Predict(f, b[l.c + k - l.n], b[l.p + k], b[l.p + k - l.n])
  {
    hide Predict, Recon;
    assert b[l.p..l.p + l.w][k] == b[l.p + k];
    if k >= l.n { assert b[l.p..l.p + l.w][k - l.n] == b[l.p + k - l.n]; }
  }

  lemma ReconStep(b: array<byte>, l: Line, f: Filter, above: seq<byte>, kept: seq<byte>, k: nat)
    requires Progress(b, l, f, above, kept, k) && k < l.w
    ensures Recon(f, l.raw, above, l.n, k + 1) ==
      Recon(f, l.raw, above, l.n, k) + [(l.raw[k] + Predicted(b, l, f, above, k)) % 256]
  {
    hide Predict;
    assert k >= l.n ==> b[l.c + k - l.n] == b[l.c..l.c + k][k - l.n];
  }

  /** The k-th byte: the stored difference plus the prediction, cast to a byte. */
  method Put(buf: array<byte>, l: Line, k: nat, predicted: int, ghost f: Filter, ghost above: seq<byte>, ghost kept: seq<byte>)
    requires Progress(buf, l, f, above, kept, k) && k < l.w
    requires predicted == Predicted(buf, l, f, above, k)
    modifies buf
    ensures Progress(buf, l, f, above, kept, k + 1)
  {
    hide Predict;
    ReconStep(buf, l, f, above, kept, k);
    buf[l.c + k] := (l.raw[k] + predicted) % 256;
    assert buf[l.c..l.c + k + 1] == buf[l.c..l.c + k] + [buf[l.c + k]];
  }

  // ----- the filters

  /** memcpy of the first bytes of a row whose filter predicts zero there. */
  method CopyStart(buf: array<byte>, l: Line, m: nat, ghost f: Filter, ghost above: seq<byte>, ghost kept: seq<byte>)
    requires Progress(buf, l, f, above, kept, 0) && m <= l.w
    requires f == None || (m <= l.n && (f == Sub || (f == Average && above == Zeros(l.w))))
    modifies buf
    ensures Progress(buf, l, f, above, kept, m)
  {
    InRange(buf, l, f, above, kept, 0);
    hide Progress, Halves, Zeros;
    var k := 0;
    while k < m
      invariant 0 <= k <= m && Progress(buf, l, f, above, kept, k)
    {
      Put(buf, l, k, 0, f, above, kept);
      k := k + 1;
    }
  }

  /** The predictions as the loops write them. */
  lemma Subs(a: byte, b: byte, c: byte)
    ensures Predict(Sub, a, b, c) == a
  {
  }

  lemma Ups(a: byte, b: byte, c: byte)
    ensures Predict(Up, a, b, c) == b
  {
  }

  lemma Averages(a: byte, b: byte, c: byte)
    ensures Predict(Average, 0, b, 0) == b / 2
    ensures Predict(Average, a, b, c) == (b as int + a as int) / 2
  {
  }

  lemma Paeths(a: byte, b: byte, c: byte)
    ensures Predict(PaethFilter, 0, b, 0) == b
    ensures Predict(PaethFilter, a, b, c) == Paeth(a, b, c)
  {
    PaethIsReference(a, b, c);
  }

  method SubRest(buf: array<byte>, l: Line, ghost above: seq<byte>)
    requires Progress(buf, l, Sub, above, above, l.n)
    modifies buf
    ensures Progress(buf, l, Sub, above, above, l.w)
  {
    InRange(buf, l, Sub, above, above, l.n);
    hide Progress, Halves, Predicted, Predict, Paeth, PaethPredictor;
    var k := l.n;
    while k < l.w
      invariant l.n <= k <= l.w && Progress(buf, l, Sub, above, above, k)
    {
      Readings(buf, l, Sub, above, k);
      Subs(buf[l.c + k - l.n], buf[l.p + k], buf[l.p + k - l.n]);
      Put(buf, l, k, buf[l.c + k - l.n], Sub, above, above);
      k := k + 1;
    }
  }

  method UnfilterUp(buf: array<byte>, l: Line, ghost above: seq<byte>)
    requires Progress(buf, l, Up, above, above, 0)
    modifies buf
    ensures Progress(buf, l, Up, above, above, l.w)
  {
    InRange(buf, l, Up, above, above, 0);
    hide Progress, Halves, Predicted, Predict, Paeth, PaethPredictor;
    var k := 0;
    while k < l.w
      invariant 0 <= k <= l.w && Progress(buf, l, Up, above, above, k)
    {
      Readings(buf, l, Up, above, k);
      Ups(0, buf[l.p + k], 0);
      if k >= l.n { Ups(buf[l.c + k - l.n], buf[l.p + k], buf[l.p + k - l.n]); }
      Put(buf, l, k, buf[l.p + k], Up, above, above);
      k := k + 1;
    }
  }

  method AverageStart(buf: array<byte>, l: Line, ghost above: seq<byte>)
    requires Progress(buf, l, Average, above, above, 0)
    modifies buf
    ensures Progress(buf, l, Average, above, above, l.n)
  {
    InRange(buf, l, Average, above, above, 0);
    hide Progress, Halves, Predicted, Predict, Paeth, PaethPredictor;
    var k := 0;
    while k < l.n
      invariant 0 <= k <= l.n && Progress(buf, l, Average, above, above, k)
    {
      Readings(buf, l, Average, above, k);
      Averages(0, buf[l.p + k], 0);
      Put(buf, l, k, buf[l.p + k] / 2, Average, above, above);
      k := k + 1;
    }
  }

  method AverageRest(buf: array<byte>, l: Line, ghost above: seq<byte>)
    requires Progress(buf, l, Average, above, above, l.n)
    modifies buf
    ensures Progress(buf, l, Average, above, above, l.w)
  {
    InRange(buf, l, Average, above, above, l.n);
    hide Progress, Halves, Predicted, Predict, Paeth, PaethPredictor;
    var k := l.n;
    while k < l.w
      invariant l.n <= k <= l.w && Progress(buf, l, Average, above, above, k)
    {
      Readings(buf, l, Average, above, k);
      var a: int, b: int := buf[l.c + k - l.n], buf[l.p + k];
      Averages(a, b, buf[l.p + k - l.n]);
      Put(buf, l, k, (b + a) / 2, Average, above, above);
      k := k + 1;
    }
  }

  method PaethStart(buf: array<byte>, l: Line, ghost above: seq<byte>)
    requires Progress(buf, l, PaethFilter, above, above, 0)
    modifies buf
    ensures Progress(buf, l, PaethFilter, above, above, l.n)
  {
    InRange(buf, l, PaethFilter, above, above, 0);
    hide Progress, Halves, Predicted, Predict, Paeth, PaethPredictor;
    var k := 0;
    while k < l.n
      invariant 0 <= k <= l.n && Progress(buf, l, PaethFilter, above, above, k)
    {
      Readings(buf, l, PaethFilter, above, k);
      Paeths(0, buf[l.p + k], 0);
      Put(buf, l, k, buf[l.p + k], PaethFilter, above, above);
      k := k + 1;
    }
  }

  method PaethRest(buf: array<byte>, l: Line, ghost above: seq<byte>)
    requires Progress(buf, l, PaethFilter, above, above, l.n)
    modifies buf
    ensures Progress(buf, l, PaethFilter, above, above, l.w)
  {
    InRange(buf, l, PaethFilter, above, above, l.n);
    hide Progress, Halves, Predicted, Predict, Paeth, PaethPredictor;
    var k := l.n;
    while k < l.w
      invariant l.n <= k <= l.w && Progress(buf, l, PaethFilter, above, above, k)
    {
      Readings(buf, l, PaethFilter, above, k);
      var a, b, c := buf[l.c + k - l.n], buf[l.p + k], buf[l.p + k - l.n];
      Paeths(a, b, c);
      Put(buf, l, k, Paeth(a, b, c), PaethFilter, above, above);
      k := k + 1;
    }
  }

  method AverageFirst(buf: array<byte>, l: Line, ghost kept: seq<byte>)
    requires Progress(buf, l, Average, Zeros(l.w), kept, 0)
    modifies buf
    ensures Progress(buf, l, Average, Zeros(l.w), kept, l.w)
  {
    InRange(buf, l, Average, Zeros(l.w), kept, 0);
    hide Progress, Halves, Zeros;
    CopyStart(buf, l, l.n, Average, Zeros(l.w), kept);
    var k := l.n;
    while k < l.w
      invariant l.n <= k <= l.w && Progress(buf, l, Average, Zeros(l.w), kept, k)
    {
      Put(buf, l, k, buf[l.c + k - l.n] / 2, Average, Zeros(l.w), kept);
      k := k + 1;
    }
  }

  const AVERAGE_FIRST := 5
  const FIRST_ROW_FILTER: seq<nat> := [0, 1, 0, AVERAGE_FIRST, 1]

  /** The switch over the filters. */
  method Unfilter(buf: array<byte>, l: Line, filter: nat, ghost kept: seq<byte>)
    requires filter <= AVERAGE_FIRST
    requires Halves(buf.Length, l.c, l.p, l.w) && 0 < l.n <= l.w == |l.raw| && buf[l.p..l.p + l.w] == kept
    modifies buf
    ensures filter <= 4 ==> Progress(buf, l, FilterOf(filter), kept, kept, l.w)
    ensures filter == AVERAGE_FIRST ==> Progress(buf, l, Average, Zeros(l.w), kept, l.w)
  {
    if filter < AVERAGE_FIRST { assert Progress(buf, l, FilterOf(filter), kept, kept, 0); }
    if filter == AVERAGE_FIRST { assert Progress(buf, l, Average, Zeros(l.w), kept, 0); }
    hide Progress, Halves, Zeros;
    if filter == 0 {
      CopyStart(buf, l, l.w, None, kept, kept);
    } else if filter == 1 {
      CopyStart(buf, l, l.n, Sub, kept, kept);
      SubRest(buf, l, kept);
    } else if filter == 2 {
      UnfilterUp(buf, l, kept);
    } else if filter == 3 {
      AverageStart(buf, l, kept);
      AverageRest(buf, l, kept);
    } else if filter == 4 {
      PaethStart(buf, l, kept);
      PaethRest(buf, l, kept);
    } else {
      AverageFirst(buf, l, kept);
    }
  }

  /** One row. In the first row the half above is never looked at. */
  method UnfilterRow(buf: array<byte>, l: Line, f: byte, first: bool)
    requires Halves(buf.Length, l.c, l.p, l.w) && 0 < l.n <= l.w == |l.raw| && f <= 4
    modifies buf
    ensures buf[l.c..l.c + l.w] == Recon(FilterOf(f), l.raw, if first then Zeros(l.w) else old(buf[l.p..l.p + l.w]), l.n, l.w)
  {
    hide Recon, Zeros;
    ghost var kept := buf[l.p..l.p + l.w];
    Unfilter(buf, l, if first then FIRST_ROW_FILTER[f] else f, kept);
    if first && f != 3 { FirstRow(FilterOf(f), FilterOf(FIRST_ROW_FILTER[f]), l.raw, kept, l.n, l.w); }
  }
}
