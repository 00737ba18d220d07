/** stb_image's de-interlacing: seven small images are decoded and their pixels spread over the final one. */
module PngInterlace {
  import opened Adam7
  import opened PngFilter
  import opened PngSamples
  import opened PngImage

  // ----- the reference

  /** Where the bytes of pass p begin; a pass without pixels has none. */
  function PassStart(w: nat, h: nat, s: Shape, p: nat): nat
    requires p <= 7
  {
    if p == 0 then 0 else PassStart(w, h, s, p - 1) + PassLength(w, h, s, p - 1)
  }

  function PassLength(w: nat, h: nat, s: Shape, p: nat): nat
    requires p < 7
  {
    if Columns(w, p) == 0 || PassRows(h, p) == 0 then 0
    else RowsLength(RowWidth(Columns(w, p), s.imgN, s.d), PassRows(h, p))
  }

  ghost predicate PassOk(raw: seq<byte>, w: nat, h: nat, s: Shape, p: nat)
    requires Known(s) && p < 7
  {
    || Columns(w, p) == 0 || PassRows(h, p) == 0
    || (PassStart(w, h, s, p) <= |raw| && Rows(raw[PassStart(w, h, s, p)..], Columns(w, p), PassRows(h, p), s).Image?)
  }

  /** Pixel i of a row of pixels of n samples. */
  function Pixel(row: seq<nat>, i: nat, n: nat): seq<nat> {
    if i * n + n <= |row| then row[i * n..i * n + n] else []
  }

  /** The pixel at column x and row y of the whole image, as its pass gives it. */
  ghost function PixelAt(raw: seq<byte>, w: nat, h: nat, s: Shape, x: nat, y: nat): seq<nat>
    requires Known(s) && x < w && y < h && PassOk(raw, w, h, s, Pass(x, y))
  {
    var p := Pass(x, y);
    Covered(x, y, w, h);
    var image := Rows(raw[PassStart(w, h, s, p)..], Columns(w, p), PassRows(h, p), s);
    Pixel(PixelRow(image.rows[Row(x, y)], Columns(w, p), s), Column(x, y), s.outN)
  }

  // ----- the code

  lemma {:induction false} AlphaLength(t: seq<nat>, x: nat, n: nat, a: nat)
    requires n > 0 && |t| == x * n
    ensures |WithAlpha(t, n, a)| == x * (n + 1)
  {
    if x == 0 {
    } else {
      assert |t| == (x - 1) * n + n && x * (n + 1) == (x - 1) * (n + 1) + n + 1;
      AlphaLength(t[n..], x - 1, n, a);
    }
  }

  lemma PixelRowLength(row: seq<byte>, x: nat, s: Shape)
    requires Known(s)
    ensures |PixelRow(row, x, s)| == x * s.outN
  {
    if s.imgN != s.outN {
      AlphaLength(Samples(row, x * s.imgN, s.d, Scale(s.d, s.color)), x, s.imgN, if s.d == 16 then 0xffff else 0xff);
    }
  }

  /** The value v is the pixel that the pass image `out` has for (x, y). */
  predicate IsPixel(v: seq<nat>, out: seq<seq<nat>>, x: nat, y: nat, n: nat) {
    0 <= Row(x, y) < |out| && 0 <= Column(x, y) && v == Pixel(out[Row(x, y)], Column(x, y), n)
  }

  /** The loops over pass p, come to row j and column i, have copied the pixel (x, y). */
  predicate Copied(x: nat, y: nat, p: nat, j: nat, i: nat) {
    Pass(x, y) == p && (Row(x, y) < j || (Row(x, y) == j && Column(x, y) < i))
  }

  /** Copying one more pixel adds just that one. */
  lemma CopiedStep(x: nat, y: nat, w: nat, h: nat, p: nat, j: nat, i: nat)
    requires x < w && y < h && p < 7 && Copied(x, y, p, j, i + 1)
    ensures Copied(x, y, p, j, i) || (x == OutX(p, i) && y == OutY(p, j))
  {
    Covered(x, y, w, h);
    hide Pass, Row, Column, OutX, OutY;
  }

  lemma CopiedRow(x: nat, y: nat, w: nat, h: nat, p: nat, j: nat)
    requires x < w && y < h && p < 7
    ensures Copied(x, y, p, j + 1, 0) ==> Copied(x, y, p, j, Columns(w, p))
    ensures Pass(x, y) == p ==> Copied(x, y, p, PassRows(h, p), 0)
  {
    Covered(x, y, w, h);
    hide Pass, Row, Column, OutX, OutY, Columns, PassRows;
  }

  lemma OwnPixel(out: seq<seq<nat>>, p: nat, j: nat, i: nat, w: nat, h: nat, n: nat)
    requires p < 7 && i < Columns(w, p) && j < PassRows(h, p) == |out|
    ensures IsPixel(Pixel(out[j], i, n), out, OutX(p, i), OutY(p, j), n)
  {
    Written(p, i, j, w, h);
    hide Pass, Row, Column, OutX, OutY, Columns, PassRows;
  }

  lemma Inside(x: nat, n: nat, i: nat)
    requires i < x
    ensures i * n + n <= x * n
  {
    assert x * n == i * n + n + (x - i - 1) * n;
  }

  method CopyRow(final: array2<seq<nat>>, out: seq<seq<nat>>, p: nat, j: nat, n: nat)
    requires p < 7 && j < |out| == PassRows(final.Length0, p) && |out[j]| == Columns(final.Length1, p) * n
    requires forall y, x | 0 <= y < final.Length0 && 0 <= x < final.Length1 && Copied(x, y, p, j, 0) :: IsPixel(final[y, x], out, x, y, n)
    modifies final
    ensures forall y, x | 0 <= y < final.Length0 && 0 <= x < final.Length1 && Pass(x, y) != p :: final[y, x] == old(final[y, x])
    ensures forall y, x | 0 <= y < final.Length0 && 0 <= x < final.Length1 && Copied(x, y, p, j + 1, 0) :: IsPixel(final[y, x], out, x, y, n)
  {
    var w, h := final.Length1, final.Length0;
    hide *;
    var i := 0;
    while i < Columns(w, p)
      invariant 0 <= i <= Columns(w, p)
      invariant forall y, x | 0 <= y < h && 0 <= x < w && Pass(x, y) != p :: final[y, x] == old(final[y, x])
      invariant forall y, x | 0 <= y < h && 0 <= x < w && Copied(x, y, p, j, i) :: IsPixel(final[y, x], out, x, y, n)
    {
      Written(p, i, j, w, h);
      OwnPixel(out, p, j, i, w, h, n);
      Inside(Columns(w, p), n, i);
      final[OutY(p, j), OutX(p, i)] := out[j][i * n..i * n + n];
      forall y, x | 0 <= y < h && 0 <= x < w && Copied(x, y, p, j, i + 1) ensures IsPixel(final[y, x], out, x, y, n) {
        CopiedStep(x, y, w, h, p, j, i);
      }
      i := i + 1;
    }
    forall y, x | 0 <= y < h && 0 <= x < w && Copied(x, y, p, j + 1, 0) ensures IsPixel(final[y, x], out, x, y, n) {
      CopiedRow(x, y, w, h, p, j);
    }
  }

  /** The loops over one pass: its pixels go to their places, and no other place is touched. */
  method CopyPass(final: array2<seq<nat>>, out: seq<seq<nat>>, p: nat, n: nat)
    requires p < 7
    requires |out| == PassRows(final.Length0, p)
    requires forall j | 0 <= j < |out| :: |out[j]| == Columns(final.Length1, p) * n
    modifies final
    ensures forall y, x | 0 <= y < final.Length0 && 0 <= x < final.Length1 && Pass(x, y) != p :: final[y, x] == old(final[y, x])
    ensures forall y, x | 0 <= y < final.Length0 && 0 <= x < final.Length1 && Pass(x, y) == p :: IsPixel(final[y, x], out, x, y, n)
  {
    var w, h := final.Length1, final.Length0;
    var j := 0;
    forall y, x | 0 <= y < h && 0 <= x < w ensures !Copied(x, y, p, 0, 0) { Covered(x, y, w, h); }
    hide *;
    while j < |out|
      invariant 0 <= j <= |out|
      invariant forall y, x | 0 <= y < h && 0 <= x < w && Pass(x, y) != p :: final[y, x] == old(final[y, x])
      invariant forall y, x | 0 <= y < h && 0 <= x < w && Copied(x, y, p, j, 0) :: IsPixel(final[y, x], out, x, y, n)
    {
      CopyRow(final, out, p, j, n);
      j := j + 1;
    }
    forall y, x | 0 <= y < h && 0 <= x < w && Pass(x, y) == p ensures IsPixel(final[y, x], out, x, y, n) {
      CopiedRow(x, y, w, h, p, 0);
    }
  }

  ghost predicate Right(final: array2<seq<nat>>, raw: seq<byte>, s: Shape, x: nat, y: nat)
    requires Known(s) && x < final.Length1 && y < final.Length0
    reads final
  {
    PassOk(raw, final.Length1, final.Length0, s, Pass(x, y)) && final[y, x] == PixelAt(raw, final.Length1, final.Length0, s, x, y)
  }

  lemma PassRight(v: seq<nat>, out: seq<seq<nat>>, raw: seq<byte>, w: nat, h: nat, s: Shape, x: nat, y: nat)
    requires Known(s) && x < w && y < h && PassOk(raw, w, h, s, Pass(x, y))
    requires Columns(w, Pass(x, y)) > 0 && PassRows(h, Pass(x, y)) > 0
    requires Shows(out, Rows(raw[PassStart(w, h, s, Pass(x, y))..], Columns(w, Pass(x, y)), PassRows(h, Pass(x, y)), s).rows, Columns(w, Pass(x, y)), s)
    requires IsPixel(v, out, x, y, s.outN)
    ensures v == PixelAt(raw, w, h, s, x, y)
  {
    hide Pass, Row, Column, Columns, PassRows, Rows, PixelRow, Pixel;
  }

  /** stbi__create_png_image on an interlaced image. */
  method CreateInterlaced(raw: seq<byte>, w: nat, h: nat, s: Shape) returns (ok: bool, final: array2<seq<nat>>)
    requires Known(s)
    ensures ok <==> forall p | 0 <= p < 7 :: PassOk(raw, w, h, s, p)
    ensures ok ==> final.Length0 == h && final.Length1 == w
    ensures ok ==> forall y, x | 0 <= y < h && 0 <= x < w :: Right(final, raw, s, x, y)
  {
    final := new seq<nat>[h, w];
    var p, pos := 0, 0;
    while p < 7
      invariant 0 <= p <= 7 && pos == PassStart(w, h, s, p) && pos <= |raw|
      invariant forall q | 0 <= q < p :: PassOk(raw, w, h, s, q)
      invariant forall y, x | 0 <= y < h && 0 <= x < w && Pass(x, y) < p :: Right(final, raw, s, x, y)
    {
      hide *;
      var good := OnePass(final, raw, p, pos, s);
      if !good { return false, final; }
      pos := pos + PassLength(w, h, s, p);
      p := p + 1;
    }
    ok := true;
  }

  method OnePass(final: array2<seq<nat>>, raw: seq<byte>, p: nat, pos: nat, s: Shape) returns (ok: bool)
    requires Known(s) && p < 7 && pos == PassStart(final.Length1, final.Length0, s, p) && pos <= |raw|
    modifies final
    ensures ok <==> PassOk(raw, final.Length1, final.Length0, s, p)
    ensures ok ==> pos + PassLength(final.Length1, final.Length0, s, p) <= |raw|
    ensures forall y, x | 0 <= y < final.Length0 && 0 <= x < final.Length1 && Pass(x, y) != p :: final[y, x] == old(final[y, x])
    ensures ok ==> forall y, x | 0 <= y < final.Length0 && 0 <= x < final.Length1 && Pass(x, y) == p :: Right(final, raw, s, x, y)
  {
    ghost var w, h := final.Length1, final.Length0;
    var x, y := Columns(final.Length1, p), PassRows(final.Length0, p);
    ok := true;
    if x != 0 && y != 0 {
      var out;
      ok, out := CreateImageRaw(raw[pos..], x, y, s);
      if ok {
        PassBytes(raw[pos..], x, y, s);
        hide Columns, PassRows, Pass, Rows, PixelRow;
        forall j | 0 <= j < |out| ensures |out[j]| == x * s.outN {
          PixelRowLength(Rows(raw[pos..], x, y, s).rows[j], x, s);
        }
        CopyPass(final, out, p, s.outN);
        forall Y, X | 0 <= Y < h && 0 <= X < w && Pass(X, Y) == p ensures Right(final, raw, s, X, Y) {
          PassRight(final[Y, X], out, raw, w, h, s, X, Y);
        }
      }
    } else {
      forall Y, X | 0 <= Y < h && 0 <= X < w ensures Pass(X, Y) != p {
        Covered(X, Y, w, h);
      }
    }
  }

  lemma PassBytes(raw: seq<byte>, x: nat, y: nat, s: Shape)
    requires Known(s) && x > 0 && Rows(raw, x, y, s).Image?
    ensures RowsLength(RowWidth(x, s.imgN, s.d), y) <= |raw|
  {
    var w := RowWidth(x, s.imgN, s.d);
    Widths(x, s.imgN, s.d, s.outN);
    DecodesExactly(raw, Zeros(w), w, Distance(s.imgN, s.d), y);
  }
}
