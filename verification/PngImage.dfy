/** A whole PNG image, or one pass of an interlaced one: rows are reconstructed and expanded in turn. */
module PngImage {
  import opened Bits
  import opened PngFilter
  import opened PngSamples
  import PngRows
  import PngUnfilter

  // ----- the reference

  /** The length of a row in bytes. */
  function RowWidth(x: nat, imgN: nat, d: nat): nat {
    (x * imgN * d + 7) / 8
  }

  /** The distance to the corresponding byte of the pixel to the left, at least one byte. */
  function Distance(imgN: nat, d: nat): nat {
    if d < 8 then 1 else if d == 16 then imgN * 2 else imgN
  }

  datatype Shape = Shape(imgN: nat, outN: nat, d: nat, color: nat)

  predicate Known(s: Shape) {
    Format(s.imgN, s.outN, s.d)
  }

  function Rows(raw: seq<byte>, x: nat, y: nat, s: Shape): (r: Image)
    requires Known(s)
    ensures r.Image? ==> |r.rows| == y
  {
    var w := RowWidth(x, s.imgN, s.d);
    Decode(raw, Zeros(w), w, Distance(s.imgN, s.d), y)
  }

  function PixelRow(row: seq<byte>, x: nat, s: Shape): seq<nat>
    requires Known(s)
  {
    RowSamples(row, x, s.imgN, s.outN, s.d, s.color)
  }

  /** The picture shows these rows. */
  predicate Shows(out: seq<seq<nat>>, rows: seq<seq<byte>>, x: nat, s: Shape)
    requires Known(s)
  {
    |out| == |rows| && forall j | 0 <= j < |out| :: out[j] == PixelRow(rows[j], x, s)
  }

  lemma Widths(x: nat, imgN: nat, d: nat, outN: nat)
    requires Format(imgN, outN, d) && x > 0
    ensures 0 < Distance(imgN, d) <= RowWidth(x, imgN, d)
    ensures Times(x * imgN, d) <= 8 * RowWidth(x, imgN, d)
  {
    assert x * imgN >= imgN;
    if d == 1 {
    } else if d == 2 {
    } else if d == 4 {
    } else if d == 8 {
    } else {
    }
  }

  /** An image filtered row by row in any way is decoded to its rows; bytes after it are ignored. */
  lemma EncodedRows(rows: seq<seq<byte>>, filters: seq<Filter>, x: nat, s: Shape, extra: seq<byte>)
    requires Known(s) && x > 0 && |rows| == |filters|
    requires forall j | 0 <= j < |rows| :: |rows[j]| == RowWidth(x, s.imgN, s.d)
    ensures var w := RowWidth(x, s.imgN, s.d);
      Rows(Encode(rows, filters, Zeros(w), w, Distance(s.imgN, s.d)) + extra, x, |rows|, s) == Image(rows)
  {
    var w := RowWidth(x, s.imgN, s.d);
    Widths(x, s.imgN, s.d, s.outN);
    DecodeInvertsEncode(rows, filters, Zeros(w), w, Distance(s.imgN, s.d), extra);
  }

  // ----- the code

  function After(done: seq<seq<byte>>, rest: Image): Image {
    if rest.Bad? then Bad else Image(done + rest.rows)
  }

  /** Row j is split off; the row above it is zero for the first row. */
  lemma DecodeStep(raw: seq<byte>, pos: nat, above: seq<byte>, w: nat, n: nat, h: nat)
    requires h > 0 && pos + w + 1 <= |raw| && |above| == w && n > 0
    ensures raw[pos] > 4 ==> Decode(raw[pos..], above, w, n, h).Bad?
    ensures raw[pos] <= 4 ==>
      var row := Recon(FilterOf(raw[pos]), raw[pos + 1..pos + 1 + w], above, n, w);
      Decode(raw[pos..], above, w, n, h) == After([row], Decode(raw[pos + w + 1..], row, w, n, h - 1))
  {
    assert raw[pos..][w + 1..] == raw[pos + w + 1..] && raw[pos..][1..w + 1] == raw[pos + 1..pos + 1 + w];
  }

  lemma AfterBad(done: seq<seq<byte>>, rest: Image)
    ensures After(done, rest).Bad? <==> rest.Bad?
  {
  }

  lemma AfterTwice(a: seq<seq<byte>>, b: seq<seq<byte>>, rest: Image)
    ensures After(a, After(b, rest)) == After(a + b, rest)
  {
    if rest.Image? { assert a + (b + rest.rows) == (a + b) + rest.rows; }
  }

  /** The two halves of the work buffer take turns. */
  function Half(j: nat, w: nat): nat {
    if j % 2 == 0 then 0 else w
  }

  /** Row j, whose filter number is known to be valid. */
  method NextRow(buf: array<byte>, raw: seq<byte>, x: nat, j: nat, w: nat, n: nat, f: byte, s: Shape, ghost above: seq<byte>)
    returns (line: seq<nat>)
    requires Known(s) && buf.Length == 2 * w && 0 < n <= w == |raw| && f <= 4
    requires Times(x * s.imgN, s.d) <= 8 * w
    requires above == if j == 0 then Zeros(w) else buf[Half(j + 1, w)..Half(j + 1, w) + w]
    modifies buf
    ensures buf[Half(j, w)..Half(j, w) + w] == Recon(FilterOf(f), raw, above, n, w)
    ensures line == PixelRow(Recon(FilterOf(f), raw, above, n, w), x, s)
  {
    hide Recon, Zeros, RowSamples, Times;
    PngUnfilter.UnfilterRow(buf, PngUnfilter.Line(Half(j, w), Half(j + 1, w), w, n, raw), f, j == 0);
    line := PngRows.ExpandRow(buf, Half(j, w), w, x, s.imgN, s.outN, s.d, s.color);
  }

  lemma ShowsMore(out: seq<seq<nat>>, rows: seq<seq<byte>>, row: seq<byte>, x: nat, s: Shape)
    requires Known(s) && Shows(out, rows, x, s)
    ensures Shows(out + [PixelRow(row, x, s)], rows + [row], x, s)
  {
    hide PixelRow;
  }

  lemma {:induction false} Next(w: nat, j: nat, y: nat)
    requires j < y
    ensures RowsLength(w, j) + w + 1 == RowsLength(w, j + 1) <= RowsLength(w, y)
  {
    if j + 1 >= y {
    } else {
      Next(w, j, y - 1);
    }
  }

  /** stbi__create_png_image_raw. */
  method CreateImageRaw(raw: seq<byte>, x: nat, y: nat, s: Shape) returns (ok: bool, out: seq<seq<nat>>)
    requires Known(s) && x > 0
    ensures ok <==> Rows(raw, x, y, s).Image?
    ensures ok ==> Shows(out, Rows(raw, x, y, s).rows, x, s)
  {
    var w, n := RowWidth(x, s.imgN, s.d), Distance(s.imgN, s.d);
    Widths(x, s.imgN, s.d, s.outN);
    DecodesExactly(raw, Zeros(w), w, n, y);
    out := [];
    if |raw| < RowsLength(w, y) { return false, []; }
    var buf := new byte[2 * w];
    ok, out := AllRows(buf, raw, x, y, w, n, s);
  }

  /** The rows before j are decoded; the rest of the bytes decode below the row `above`. */
  ghost predicate At(raw: seq<byte>, w: nat, n: nat, y: nat, j: nat, pos: nat, done: seq<seq<byte>>, above: seq<byte>) {
    && n > 0 && j <= y && pos == RowsLength(w, j) && pos <= |raw| && |above| == w && |done| == j
    && Decode(raw, Zeros(w), w, n, y) == After(done, Decode(raw[pos..], above, w, n, y - j))
  }

  lemma AtStart(raw: seq<byte>, w: nat, n: nat, y: nat)
    requires n > 0
    ensures At(raw, w, n, y, 0, 0, [], Zeros(w))
  {
    assert raw[0..] == raw;
  }

  lemma AtStep(raw: seq<byte>, w: nat, n: nat, y: nat, j: nat, pos: nat, done: seq<seq<byte>>, above: seq<byte>)
    requires At(raw, w, n, y, j, pos, done, above) && j < y && RowsLength(w, y) <= |raw|
    ensures pos + w + 1 <= |raw| && |above| == w && n > 0
    ensures raw[pos] > 4 ==> Decode(raw, Zeros(w), w, n, y).Bad?
    ensures raw[pos] <= 4 ==>
      var row := Recon(FilterOf(raw[pos]), raw[pos + 1..pos + 1 + w], above, n, w);
      At(raw, w, n, y, j + 1, pos + w + 1, done + [row], row)
  {
    hide Decode, Recon, Zeros, RowsLength, After;
    Next(w, j, y);
    DecodeStep(raw, pos, above, w, n, y - j);
    if raw[pos] <= 4 {
      var row := Recon(FilterOf(raw[pos]), raw[pos + 1..pos + 1 + w], above, n, w);
      AfterTwice(done, [row], Decode(raw[pos + w + 1..], row, w, n, y - j - 1));
    } else {
      AfterBad(done, Decode(raw[pos..], above, w, n, y - j));
    }
  }

  lemma AtEnd(raw: seq<byte>, w: nat, n: nat, y: nat, pos: nat, done: seq<seq<byte>>, above: seq<byte>)
    requires At(raw, w, n, y, y, pos, done, above)
    ensures Decode(raw, Zeros(w), w, n, y) == Image(done)
  {
    assert done + [] == done;
  }

  method AllRows(buf: array<byte>, raw: seq<byte>, x: nat, y: nat, w: nat, n: nat, s: Shape) returns (ok: bool, out: seq<seq<nat>>)
    requires Known(s) && buf.Length == 2 * w && 0 < n <= w && RowsLength(w, y) <= |raw|
    requires Times(x * s.imgN, s.d) <= 8 * w
    modifies buf
    ensures var r := Decode(raw, Zeros(w), w, n, y); (ok <==> r.Image?) && (ok ==> Shows(out, r.rows, x, s))
  {
    out := [];
    ghost var done, above: seq<byte> := [], Zeros(w);
    var j, pos := 0, 0;
    AtStart(raw, w, n, y);
    HalfAgain(0, w);
    assert Shows(out, done, x, s);
    hide *;
    while j < y
      invariant 0 <= j <= y && At(raw, w, n, y, j, pos, done, above)
      invariant Half(j + 1, w) <= w && (above == if j == 0 then Zeros(w) else buf[Half(j + 1, w)..Half(j + 1, w) + w])
      invariant Shows(out, done, x, s)
    {
      AtStep(raw, w, n, y, j, pos, done, above);
      var f := raw[pos];
      if f > 4 { return false, []; }
      ghost var row := Recon(FilterOf(f), raw[pos + 1..pos + 1 + w], above, n, w);
      var line := NextRow(buf, raw[pos + 1..pos + 1 + w], x, j, w, n, f, s, above);
      ShowsMore(out, done, row, x, s);
      HalfAgain(j, w);
      out := out + [line];
      done, above := done + [row], row;
      j, pos := j + 1, pos + w + 1;
    }
    AtEnd(raw, w, n, y, pos, done, above);
    ok := true;
  }

  lemma HalfAgain(j: nat, w: nat)
    ensures Half(j + 2, w) == Half(j, w) <= w && Half(j + 1, w) <= w
  {
  }
}
