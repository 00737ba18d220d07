/** Writing a picture as PNG data, plain or interlaced, and that decoding gives back its pixels. */
module PngPicture {
  import opened Adam7
  import opened BitStrings
  import opened Bits
  import Common
  import opened PngFilter
  import opened PngSamples
  import opened PngImage
  import opened PngInterlace

  // ----- samples in bits

  function SampleBits(ss: seq<nat>, d: nat): (r: seq<nat>)
    ensures |r| == Times(|ss|, d) && AreBits(r)
  {
    if ss == [] then []
    else
      TimesNext(|ss| - 1, d);
      SampleBits(ss[..|ss| - 1], d) + BitsOf(ss[|ss| - 1], d)
  }

  lemma {:induction false} SampleBitAt(ss: seq<nat>, d: nat, k: nat, j: nat)
    requires k < |ss| && j < d
    ensures Times(k, d) + j < |SampleBits(ss, d)| && SampleBits(ss, d)[Times(k, d) + j] == BitsOf(ss[k], d)[j]
    decreases |ss|
  {
    var front := ss[..|ss| - 1];
    TimesNext(|ss| - 1, d);
    hide Times, BitsOf;
    if k == |ss| - 1 {
    } else {
      SampleBitAt(front, d, k, j);
    }
  }

  lemma {:induction false} SampleIs(row: seq<byte>, p: nat, v: nat, n: nat)
    requires v < Pow2(n) && forall j, q | 0 <= j < n && q == p + j :: Common.RowBit(row, q) == BitsOf(v, n)[j]
    ensures Sample(row, p, n) == v
  {
    hide Common.RowBit;
    if n == 0 {
    } else {
      var half := BitsOf(v / 2, n - 1);
      forall j, q | 0 <= j < n - 1 && q == p + j ensures Common.RowBit(row, q) == half[j] {
        assert BitsOf(v, n)[j] == half[j];
      }
      SampleIs(row, p, v / 2, n - 1);
      assert BitsOf(v, n)[n - 1] == v % 2;
      assert Common.RowBit(row, p + n - 1) == v % 2;
    }
  }

  predicate Small(ss: seq<nat>, d: nat) { forall i | 0 <= i < |ss| :: ss[i] < Pow2(d) }

  /** A row of samples of d bits (section 7.2). */
  function RowBytes(ss: seq<nat>, d: nat): seq<byte> { Packed(SampleBits(ss, d), 0) }

  lemma SampleOfRow(ss: seq<nat>, d: nat, k: nat)
    requires Small(ss, d) && k < |ss|
    ensures Sample(RowBytes(ss, d), Times(k, d), d) == ss[k]
  {
    hide Times, BitsOf, SampleBits, Packed, Common.RowBit, Pow2;
    var row, bits := RowBytes(ss, d), SampleBits(ss, d);
    forall j, q | 0 <= j < d && q == Times(k, d) + j ensures Common.RowBit(row, q) == BitsOf(ss[k], d)[j] {
      SampleBitAt(ss, d, k, j);
      PackedBit(bits, 0, Times(k, d) + j);
    }
    SampleIs(row, Times(k, d), ss[k], d);
  }

  lemma {:induction false} SamplesAre(ss: seq<nat>, d: nat, scale: nat, k: nat, i: nat)
    requires Small(ss, d) && i < k <= |ss|
    ensures Samples(RowBytes(ss, d), k, d, scale)[i] == scale * ss[i]
  {
    hide RowBytes, Times, Sample, Pow2;
    if i == k - 1 {
      SampleOfRow(ss, d, i);
    } else {
      SamplesAre(ss, d, scale, k - 1, i);
    }
  }

  // ----- pixels in rows

  /** Pixels of n samples of d bits. */
  predicate Pixels(pixels: seq<seq<nat>>, n: nat, d: nat) {
    forall i | 0 <= i < |pixels| :: |pixels[i]| == n && Small(pixels[i], d)
  }

  function Flat(pixels: seq<seq<nat>>): seq<nat> {
    if pixels == [] then [] else Flat(pixels[..|pixels| - 1]) + pixels[|pixels| - 1]
  }

  lemma {:induction false} FlatLength(pixels: seq<seq<nat>>, n: nat, d: nat)
    requires Pixels(pixels, n, d)
    ensures |Flat(pixels)| == Times(|pixels|, n) && Small(Flat(pixels), d)
    decreases |pixels|
  {
    hide Pow2;
    if pixels == [] {
    } else {
      FlatLength(pixels[..|pixels| - 1], n, d);
      TimesNext(|pixels| - 1, n);
      hide Times;
    }
  }

  lemma {:induction false} FlatAt(pixels: seq<seq<nat>>, n: nat, d: nat, i: nat, c: nat)
    requires Pixels(pixels, n, d) && i < |pixels| && c < n
    ensures Times(i, n) + c < |Flat(pixels)| && Flat(pixels)[Times(i, n) + c] == pixels[i][c]
    decreases |pixels|
  {
    hide Pow2, Times;
    var front := pixels[..|pixels| - 1];
    FlatLength(front, n, d);
    if i == |pixels| - 1 {
    } else {
      FlatAt(front, n, d, i, c);
    }
  }

  /** What a sample is shown as: grey of fewer than eight bits is spread over 0 to 255. */
  function ShownSample(v: nat, s: Shape): nat
    requires Known(s)
  {
    if s.color == 0 && s.d < 8 then v * 255 / (Pow2(s.d) - 1) else v
  }

  /** What a pixel is shown as: with full alpha if it has none and one is wanted. */
  function Shown(pixel: seq<nat>, s: Shape): seq<nat>
    requires Known(s) && |pixel| == s.imgN
  {
    seq(s.outN, c requires 0 <= c < s.outN =>
      if c < s.imgN then ShownSample(pixel[c], s) else Pow2(if s.d == 16 then 16 else 8) - 1)
  }

  /** The factor takes the largest sample of a low depth to 255. */
  lemma ScaleIs(v: nat, s: Shape)
    requires Known(s) && v < Pow2(s.d)
    ensures ShownSample(v, s) == Scale(s.d, s.color) * v
  {
    Pow2Table();
    hide Pow2;
    if s.color == 0 && s.d < 8 {
      var d := s.d;
      assert d == 1 || d == 2 || d == 4;
      assert v * 255 == 3 * (85 * v) && v * 255 == 15 * (17 * v);
    }
  }

  lemma AlphaMore(t: seq<nat>, n: nat, a: nat)
    requires 0 < n <= |t|
    ensures WithAlpha(t, n, a) == t[..n] + [a] + WithAlpha(t[n..], n, a)
  {
  }

  lemma {:induction false} AlphaAt(t: seq<nat>, n: nat, a: nat, i: nat, c: nat)
    requires 0 < n && Times(i + 1, n) <= |t| && c <= n
    ensures Times(i, n) + c <= |t| && Times(i, n + 1) + c < |WithAlpha(t, n, a)| && (c < n ==> Times(i, n) + c < |t|)
    ensures WithAlpha(t, n, a)[Times(i, n + 1) + c] == if c < n then t[Times(i, n) + c] else a
    decreases i
  {
    TimesNext(i, n);
    if i == 0 {
      assert Times(0, n) == 0 && Times(0, n + 1) == 0;
      AlphaMore(t, n, a);
    } else {
      TimesNext(i - 1, n);
      TimesNext(i - 1, n + 1);
      hide Times, WithAlpha;
      AlphaMore(t, n, a);
      AlphaAt(t[n..], n, a, i - 1, c);
    }
  }

  lemma ScaledAt(pixels: seq<seq<nat>>, s: Shape, i: nat, c: nat)
    requires Known(s) && Pixels(pixels, s.imgN, s.d) && i < |pixels| && c < s.imgN
    ensures var t := Scaled(pixels, s);
            Times(i, s.imgN) + c < |t| && t[Times(i, s.imgN) + c] == ShownSample(pixels[i][c], s)
  {
    hide Pow2, Flat, RowBytes, Samples, Scale, ShownSample, Times;
    FlatLength(pixels, s.imgN, s.d);
    FlatAt(pixels, s.imgN, s.d, i, c);
    SamplesAre(Flat(pixels), s.d, Scale(s.d, s.color), |Flat(pixels)|, Times(i, s.imgN) + c);
    assert Small(pixels[i], s.d);
    ScaleIs(pixels[i][c], s);
  }

  function Scaled(pixels: seq<seq<nat>>, s: Shape): (t: seq<nat>)
    ensures |t| == Times(|pixels|, s.imgN)
  {
    Samples(RowBytes(Flat(pixels), s.d), Times(|pixels|, s.imgN), s.d, Scale(s.d, s.color))
  }

  lemma RowIs(pixels: seq<seq<nat>>, s: Shape)
    requires Known(s)
    ensures PixelRow(RowBytes(Flat(pixels), s.d), |pixels|, s) ==
            if s.imgN == s.outN then Scaled(pixels, s) else WithAlpha(Scaled(pixels, s), s.imgN, Pow2(if s.d == 16 then 16 else 8) - 1)
  {
    Pow2Table();
    hide Pow2, Flat, RowBytes, Samples, Scale, WithAlpha;
  }

  lemma TimesMono(a: nat, b: nat, n: nat)
    requires a <= b
    ensures Times(a, n) <= Times(b, n)
  {
  }

  lemma PixelSample(pixels: seq<seq<nat>>, s: Shape, i: nat, c: nat)
    requires Known(s) && Pixels(pixels, s.imgN, s.d) && i < |pixels| && c < s.outN
    ensures var out := PixelRow(RowBytes(Flat(pixels), s.d), |pixels|, s);
            Times(i, s.outN) + c < |out| && out[Times(i, s.outN) + c] == Shown(pixels[i], s)[c]
  {
    hide Flat, RowBytes, WithAlpha, PixelRow, ShownSample, Small, Times, Scaled, Pow2;
    RowIs(pixels, s);
    if c < s.imgN { ScaledAt(pixels, s, i, c); }
    if s.outN != s.imgN {
      TimesMono(i + 1, |pixels|, s.imgN);
      AlphaAt(Scaled(pixels, s), s.imgN, Pow2(if s.d == 16 then 16 else 8) - 1, i, c);
    }
  }

  lemma PixelIs(row: seq<nat>, i: nat, v: seq<nat>)
    requires v != [] && forall c | 0 <= c < |v| :: Times(i, |v|) + c < |row| && row[Times(i, |v|) + c] == v[c]
    ensures Pixel(row, i, |v|) == v
  {
    var at := Times(i, |v|);
    assert v[|v| - 1] == row[at + (|v| - 1)];
    assert at == i * |v|;
    hide Times;
    assert row[at..at + |v|] == v;
  }

  /** The pixels of a row that was packed are shown in order. */
  lemma PixelShown(pixels: seq<seq<nat>>, s: Shape, i: nat)
    requires Known(s) && Pixels(pixels, s.imgN, s.d) && i < |pixels|
    ensures Pixel(PixelRow(RowBytes(Flat(pixels), s.d), |pixels|, s), i, s.outN) == Shown(pixels[i], s)
  {
    hide Pow2, Flat, RowBytes, PixelRow, Pixel, ShownSample, Small, Times;
    var out, v := PixelRow(RowBytes(Flat(pixels), s.d), |pixels|, s), Shown(pixels[i], s);
    forall c | 0 <= c < |v| ensures Times(i, |v|) + c < |out| && out[Times(i, |v|) + c] == v[c] {
      PixelSample(pixels, s, i, c);
    }
    PixelIs(out, i, v);
  }

  // ----- pictures

  /** A picture of w by h pixels. */
  predicate IsPicture(pic: seq<seq<seq<nat>>>, w: nat, h: nat, s: Shape) {
    |pic| == h && forall y | 0 <= y < h :: |pic[y]| == w && Pixels(pic[y], s.imgN, s.d)
  }

  /** The size of a pixel in whole bytes, at least one (section 9.2). */
  function Stride(s: Shape): nat { if s.imgN * s.d < 8 then 1 else s.imgN * s.d / 8 }

  /** The code's distance is that size except for several samples of a low depth that fill two bytes, which no PNG image has. */
  lemma StrideExactly(s: Shape)
    requires Known(s)
    ensures Stride(s) == Distance(s.imgN, s.d) <==> s.d >= 8 || s.imgN * s.d < 16
    ensures Distance(s.imgN, s.d) > 0
  {
    var n := s.imgN;
    assert n == 1 || n == 2 || n == 3 || n == 4;
  }

  lemma RowLength(pixels: seq<seq<nat>>, s: Shape)
    requires Pixels(pixels, s.imgN, s.d)
    ensures |RowBytes(Flat(pixels), s.d)| == RowWidth(|pixels|, s.imgN, s.d)
  {
    FlatLength(pixels, s.imgN, s.d);
    hide Pow2, Flat, SampleBits, Packed, Pixels;
  }

  function PictureRows(pic: seq<seq<seq<nat>>>, w: nat, h: nat, s: Shape): (rows: seq<seq<byte>>)
    requires IsPicture(pic, w, h, s)
    ensures |rows| == h && forall j | 0 <= j < h :: |rows[j]| == RowWidth(w, s.imgN, s.d)
  {
    forall y | 0 <= y < h ensures |RowBytes(Flat(pic[y]), s.d)| == RowWidth(w, s.imgN, s.d) { RowLength(pic[y], s); }
    seq(h, j requires 0 <= j < h => RowBytes(Flat(pic[j]), s.d))
  }

  /** The picture as filtered rows, with any filter on any row. */
  function PictureData(pic: seq<seq<seq<nat>>>, w: nat, h: nat, s: Shape, filters: seq<Filter>): seq<byte>
    requires IsPicture(pic, w, h, s) && |filters| == h && Known(s)
  {
    var n := RowWidth(w, s.imgN, s.d);
    Encode(PictureRows(pic, w, h, s), filters, Zeros(n), n, Distance(s.imgN, s.d))
  }

  lemma {:induction false} EncodeLength(rows: seq<seq<byte>>, filters: seq<Filter>, prior: seq<byte>, w: nat, n: nat)
    requires |rows| == |filters| && |prior| == w && n > 0 && forall i | 0 <= i < |rows| :: |rows[i]| == w
    ensures |Encode(rows, filters, prior, w, n)| == RowsLength(w, |rows|)
    decreases |rows|
  {
    if rows == [] {
    } else {
      EncodeLength(rows[1..], filters[1..], rows[0], w, n);
      hide FilterOf, Filtered, Encode;
      EncodeOne(rows, filters, prior, w, n);
    }
  }

  lemma EncodeOne(rows: seq<seq<byte>>, filters: seq<Filter>, prior: seq<byte>, w: nat, n: nat)
    requires |rows| == |filters| > 0 && |prior| == w && n > 0 && forall i | 0 <= i < |rows| :: |rows[i]| == w
    ensures |Encode(rows, filters, prior, w, n)| == 1 + w + |Encode(rows[1..], filters[1..], rows[0], w, n)|
  {
  }

  /** A picture that is not interlaced comes back pixel by pixel. */
  lemma PictureShown(pic: seq<seq<seq<nat>>>, w: nat, h: nat, s: Shape, filters: seq<Filter>, extra: seq<byte>, x: nat, y: nat)
    requires Known(s) && IsPicture(pic, w, h, s) && |filters| == h && x < w && y < h
    ensures var image := Rows(PictureData(pic, w, h, s, filters) + extra, w, h, s);
            image.Image? && Pixel(PixelRow(image.rows[y], w, s), x, s.outN) == Shown(pic[y][x], s)
  {
    hide Shown, Pixel, PixelRow, Rows, Encode, RowBytes, Flat, Pixels;
    EncodedRows(PictureRows(pic, w, h, s), filters, w, s, extra);
    PixelShown(pic[y], s, x);
  }

  // ----- interlaced pictures

  lemma PassInside(w: nat, h: nat, p: nat)
    requires p < 7
    ensures forall i | 0 <= i < Columns(w, p) && PassRows(h, p) > 0 :: OutX(p, i) < w
    ensures forall j | 0 <= j < PassRows(h, p) && Columns(w, p) > 0 :: OutY(p, j) < h
  {
    hide Columns, PassRows, OutX, OutY, Pass, Column, Row;
    forall i | 0 <= i < Columns(w, p) && PassRows(h, p) > 0 ensures OutX(p, i) < w { Written(p, i, 0, w, h); }
    forall j | 0 <= j < PassRows(h, p) && Columns(w, p) > 0 ensures OutY(p, j) < h { Written(p, 0, j, w, h); }
  }

  /** Row j of the pixels of pass p. */
  function PassLine(pic: seq<seq<seq<nat>>>, w: nat, h: nat, s: Shape, p: nat, j: nat): (r: seq<seq<nat>>)
    requires IsPicture(pic, w, h, s) && p < 7 && j < PassRows(h, p)
    ensures |r| == Columns(w, p) && Pixels(r, s.imgN, s.d)
  {
    PassInside(w, h, p);
    hide Columns, PassRows, OutX, OutY, Small;
    seq(Columns(w, p), i requires 0 <= i < Columns(w, p) => pic[OutY(p, j)][OutX(p, i)])
  }

  function PassPicture(pic: seq<seq<seq<nat>>>, w: nat, h: nat, s: Shape, p: nat): (r: seq<seq<seq<nat>>>)
    requires IsPicture(pic, w, h, s) && p < 7
    ensures IsPicture(r, Columns(w, p), PassRows(h, p), s)
  {
    seq(PassRows(h, p), j requires 0 <= j < PassRows(h, p) => PassLine(pic, w, h, s, p, j))
  }

  /** A pass without pixels has no data. */
  function PassData(pic: seq<seq<seq<nat>>>, w: nat, h: nat, s: Shape, filters: seq<Filter>, p: nat): seq<byte>
    requires IsPicture(pic, w, h, s) && p < 7 && |filters| == PassRows(h, p) && Known(s)
  {
    if Columns(w, p) == 0 || PassRows(h, p) == 0 then []
    else PictureData(PassPicture(pic, w, h, s, p), Columns(w, p), PassRows(h, p), s, filters)
  }

  predicate FiltersFor(filters: seq<seq<Filter>>, h: nat) {
    |filters| == 7 && forall p | 0 <= p < 7 :: |filters[p]| == PassRows(h, p)
  }

  /** The passes from p on, one behind the other. */
  function PassesFrom(pic: seq<seq<seq<nat>>>, w: nat, h: nat, s: Shape, filters: seq<seq<Filter>>, p: nat): seq<byte>
    requires IsPicture(pic, w, h, s) && p <= 7 && FiltersFor(filters, h) && Known(s)
    decreases 7 - p
  {
    if p == 7 then [] else PassData(pic, w, h, s, filters[p], p) + PassesFrom(pic, w, h, s, filters, p + 1)
  }

  lemma PassDataLength(pic: seq<seq<seq<nat>>>, w: nat, h: nat, s: Shape, filters: seq<Filter>, p: nat)
    requires IsPicture(pic, w, h, s) && p < 7 && |filters| == PassRows(h, p) && Known(s)
    ensures |PassData(pic, w, h, s, filters, p)| == PassLength(w, h, s, p)
  {
    var x, y := Columns(w, p), PassRows(h, p);
    hide Columns, PassRows, Encode, IsPicture, RowWidth;
    if x != 0 && y != 0 {
      var n := RowWidth(x, s.imgN, s.d);
      EncodeLength(PictureRows(PassPicture(pic, w, h, s, p), x, y, s), filters, Zeros(n), n, Distance(s.imgN, s.d));
    }
  }

  /** Each pass begins where the data of the passes before it ends. */
  lemma {:induction false} PassLies(pic: seq<seq<seq<nat>>>, w: nat, h: nat, s: Shape, filters: seq<seq<Filter>>, extra: seq<byte>, p: nat)
    requires IsPicture(pic, w, h, s) && p <= 7 && FiltersFor(filters, h) && Known(s)
    ensures var raw := PassesFrom(pic, w, h, s, filters, 0) + extra;
            PassStart(w, h, s, p) <= |raw| && raw[PassStart(w, h, s, p)..] == PassesFrom(pic, w, h, s, filters, p) + extra
    decreases p
  {
    hide PassLength, PassData, IsPicture, PassRows;
    if p == 0 {
    } else {
      PassLies(pic, w, h, s, filters, extra, p - 1);
      PassDataLength(pic, w, h, s, filters[p - 1], p - 1);
      var raw, at := PassesFrom(pic, w, h, s, filters, 0) + extra, PassStart(w, h, s, p - 1);
      var data, rest := PassData(pic, w, h, s, filters[p - 1], p - 1), PassesFrom(pic, w, h, s, filters, p);
      assert raw[at..] == data + rest + extra;
      Behind(raw, at, data, rest + extra);
    }
  }

  lemma Behind(raw: seq<byte>, at: nat, data: seq<byte>, rest: seq<byte>)
    requires at <= |raw| && raw[at..] == data + rest
    ensures at + |data| <= |raw| && raw[at + |data|..] == rest
  {
    assert |raw[at..]| == |data| + |rest|;
    forall k | 0 <= k < |rest| ensures raw[at + |data| + k] == rest[k] { assert raw[at..][|data| + k] == rest[k]; }
  }

  lemma PassDecoded(pic: seq<seq<seq<nat>>>, w: nat, h: nat, s: Shape, filters: seq<seq<Filter>>, extra: seq<byte>, p: nat)
    requires IsPicture(pic, w, h, s) && p < 7 && FiltersFor(filters, h) && Known(s) && Columns(w, p) > 0 && PassRows(h, p) > 0
    ensures var raw := PassesFrom(pic, w, h, s, filters, 0) + extra;
            var pass := PassPicture(pic, w, h, s, p);
            && PassStart(w, h, s, p) <= |raw|
            && Rows(raw[PassStart(w, h, s, p)..], Columns(w, p), PassRows(h, p), s) == Image(PictureRows(pass, Columns(w, p), PassRows(h, p), s))
  {
    hide Columns, PassRows, Rows, Encode, IsPicture, PictureRows, PassPicture, PassesFrom, PassStart, PassData, Zeros, RowWidth;
    PassLies(pic, w, h, s, filters, extra, p);
    var rest := PassesFrom(pic, w, h, s, filters, p + 1) + extra;
    FirstPass(pic, w, h, s, filters, extra, p);
    OnePassDecoded(pic, w, h, s, filters[p], rest, p);
  }

  lemma FirstPass(pic: seq<seq<seq<nat>>>, w: nat, h: nat, s: Shape, filters: seq<seq<Filter>>, extra: seq<byte>, p: nat)
    requires IsPicture(pic, w, h, s) && p < 7 && FiltersFor(filters, h) && Known(s)
    ensures PassesFrom(pic, w, h, s, filters, p) + extra ==
            PassData(pic, w, h, s, filters[p], p) + (PassesFrom(pic, w, h, s, filters, p + 1) + extra)
  {
    hide PassData, IsPicture, PassRows;
  }

  lemma OnePassDecoded(pic: seq<seq<seq<nat>>>, w: nat, h: nat, s: Shape, filters: seq<Filter>, rest: seq<byte>, p: nat)
    requires IsPicture(pic, w, h, s) && p < 7 && |filters| == PassRows(h, p) && Known(s) && Columns(w, p) > 0 && PassRows(h, p) > 0
    ensures var pass := PassPicture(pic, w, h, s, p);
            Rows(PassData(pic, w, h, s, filters, p) + rest, Columns(w, p), PassRows(h, p), s) ==
            Image(PictureRows(pass, Columns(w, p), PassRows(h, p), s))
  {
    hide Columns, PassRows, Rows, Encode, IsPicture, PictureRows, PassPicture, Zeros, RowWidth;
    EncodedRows(PictureRows(PassPicture(pic, w, h, s, p), Columns(w, p), PassRows(h, p), s), filters, Columns(w, p), s, rest);
  }

  /** An interlaced picture, with any filter on any row of any pass and anything behind it, is accepted, and every pixel
      comes back at its place. */
  lemma InterlacedShown(pic: seq<seq<seq<nat>>>, w: nat, h: nat, s: Shape, filters: seq<seq<Filter>>, extra: seq<byte>)
    requires IsPicture(pic, w, h, s) && FiltersFor(filters, h) && Known(s)
    ensures var raw := PassesFrom(pic, w, h, s, filters, 0) + extra;
            && (forall p | 0 <= p < 7 :: PassOk(raw, w, h, s, p))
            && (forall x: nat, y: nat | x < w && y < h :: PixelAt(raw, w, h, s, x, y) == Shown(pic[y][x], s))
  {
    hide Columns, PassRows, Rows, PassesFrom, Small, PictureRows, PassPicture, PixelRow, Pixel, Shown, Pass, PassStart;
    var raw := PassesFrom(pic, w, h, s, filters, 0) + extra;
    forall p | 0 <= p < 7 ensures PassOk(raw, w, h, s, p) {
      if Columns(w, p) > 0 && PassRows(h, p) > 0 { PassDecoded(pic, w, h, s, filters, extra, p); }
    }
    forall x: nat, y: nat | x < w && y < h ensures PixelAt(raw, w, h, s, x, y) == Shown(pic[y][x], s) {
      PixelBack(pic, w, h, s, filters, extra, x, y);
    }
  }

  lemma PixelBack(pic: seq<seq<seq<nat>>>, w: nat, h: nat, s: Shape, filters: seq<seq<Filter>>, extra: seq<byte>, x: nat, y: nat)
    requires IsPicture(pic, w, h, s) && FiltersFor(filters, h) && Known(s) && x < w && y < h
    requires PassOk(PassesFrom(pic, w, h, s, filters, 0) + extra, w, h, s, Pass(x, y))
    ensures PixelAt(PassesFrom(pic, w, h, s, filters, 0) + extra, w, h, s, x, y) == Shown(pic[y][x], s)
  {
    hide Columns, PassRows, Rows, PassesFrom, PixelRow, Pixel, Shown, Pass, PassStart, Row, Column, OutX, OutY, RowBytes, Flat, Small;
    Covered(x, y, w, h);
    var p, i, j := Pass(x, y), Column(x, y), Row(x, y);
    PassDecoded(pic, w, h, s, filters, extra, p);
    var line := PassLine(pic, w, h, s, p, j);
    assert PictureRows(PassPicture(pic, w, h, s, p), Columns(w, p), PassRows(h, p), s)[j] == RowBytes(Flat(line), s.d);
    PixelShown(line, s, i);
    assert line[i] == pic[y][x];
  }
}
