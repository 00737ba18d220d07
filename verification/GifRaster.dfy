/** Where GIF pixels go: the order of rows, and the cursor that stb_image moves over them. */
module GifRaster {
  import opened Common

  // ----- the order of GIF89a, Appendix E

  /** Rows start, start + stride, ... below h. */
  function Pass(h: nat, start: nat, stride: nat): (rows: seq<nat>)
    requires stride > 0
    decreases h - start
  {
    if start >= h then [] else [start] + Pass(h, start + stride, stride)
  }

  /** Every row from top to bottom, or in four passes. */
  function RowOrder(h: nat, interlaced: bool): seq<nat> {
    if interlaced then Pass(h, 0, 8) + Pass(h, 4, 8) + Pass(h, 2, 4) + Pass(h, 1, 2) else Pass(h, 0, 1)
  }

  lemma {:induction false} InPass(h: nat, start: nat, stride: nat, r: nat)
    requires stride == 1 || stride == 2 || stride == 4 || stride == 8
    ensures r in Pass(h, start, stride) <==> start <= r < h && (r - start) % stride == 0
    decreases h - start
  {
    if start >= h {
    } else {
      InPass(h, start + stride, stride, r);
      if start + stride <= r { ModStep(r - start - stride, stride); }
      if start <= r < start + stride { ModSmall(r - start, stride); }
    }
  }

  lemma ModStep(a: nat, m: nat)
    requires m == 1 || m == 2 || m == 4 || m == 8
    ensures (a + m) % m == a % m
  {
    if m == 1 {
      assert (a + 1) % 1 == a % 1;
    } else if m == 2 {
      assert (a + 2) % 2 == a % 2;
    } else if m == 4 {
      assert (a + 4) % 4 == a % 4;
    } else {
      assert (a + 8) % 8 == a % 8;
    }
  }

  lemma ModSmall(a: nat, m: nat)
    requires a < m
    ensures a % m == a
  {
  }

  lemma {:induction false} PassAscends(h: nat, start: nat, stride: nat, i: nat, j: nat)
    requires stride > 0 && i < j < |Pass(h, start, stride)|
    ensures start <= Pass(h, start, stride)[i] < Pass(h, start, stride)[j]
    decreases h - start
  {
    if j >= 2 || i > 0 {
      PassAscends(h, start + stride, stride, if i == 0 then 0 else i - 1, j - 1);
    } else {
      var tail := Pass(h, start + stride, stride);
      assert tail[0] == start + stride;
    }
  }

  predicate Distinct(rows: seq<nat>) {
    forall i, j | 0 <= i < j < |rows| :: rows[i] != rows[j]
  }

  lemma PassDistinct(h: nat, start: nat, stride: nat)
    requires stride > 0
    ensures Distinct(Pass(h, start, stride))
  {
    forall i, j | 0 <= i < j < |Pass(h, start, stride)| ensures Pass(h, start, stride)[i] != Pass(h, start, stride)[j] {
      PassAscends(h, start, stride, i, j);
    }
  }

  lemma DistinctSum(a: seq<nat>, b: seq<nat>)
    requires Distinct(a) && Distinct(b) && forall r | r in a :: r !in b
    ensures Distinct(a + b)
  {
    var s := a + b;
    forall i, j | 0 <= i < j < |s| ensures s[i] != s[j] {
      if i < |a| <= j { assert a[i] in a && b[j - |a|] in b; }
    }
  }

  lemma InOrder(h: nat, r: nat)
    ensures r in Pass(h, 0, 8) <==> r < h && r % 8 == 0
    ensures r in Pass(h, 4, 8) <==> r < h && r % 8 == 4
    ensures r in Pass(h, 2, 4) <==> r < h && r % 4 == 2
    ensures r in Pass(h, 1, 2) <==> r < h && r % 2 == 1
    ensures r in Pass(h, 0, 1) <==> r < h
  {
    hide Pass;
    InPass(h, 0, 8, r);
    InPass(h, 4, 8, r);
    InPass(h, 2, 4, r);
    InPass(h, 1, 2, r);
    InPass(h, 0, 1, r);
  }

  /** The order visits every row, and none twice. */
  lemma RowOrderComplete(h: nat, interlaced: bool)
    ensures Distinct(RowOrder(h, interlaced))
    ensures forall r :: r in RowOrder(h, interlaced) <==> 0 <= r < h
  {
    hide Pass;
    forall r: nat ensures r in RowOrder(h, interlaced) <==> r < h { InOrder(h, r); }
    var a, b, c, d := Pass(h, 0, 8), Pass(h, 4, 8), Pass(h, 2, 4), Pass(h, 1, 2);
    PassDistinct(h, 0, 8);
    PassDistinct(h, 4, 8);
    PassDistinct(h, 2, 4);
    PassDistinct(h, 1, 2);
    PassDistinct(h, 0, 1);
    forall r | r in a ensures r !in b && r !in c && r !in d { InOrder(h, r); }
    forall r | r in b ensures r !in c && r !in d { InOrder(h, r); }
    forall r | r in c ensures r !in d { InOrder(h, r); }
    DistinctSum(a, b);
    DistinctSum(a + b, c);
    DistinctSum(a + b + c, d);
  }

  // ----- the cursor

  /** The rows that stbi__out_gif_code will still visit from row y on: when a pass runs out of rows, `parse`
      more passes follow, each with half the stride of the one before. */
  function RowsFrom(h: nat, y: nat, step: nat, parse: nat): seq<nat>
    requires step > 0 && parse <= 3
    decreases parse, h - y
  {
    if y < h then [y] + RowsFrom(h, y + step, step, parse)
    else if parse > 0 then RowsFrom(h, Power(parse) / 2, Power(parse), parse - 1)
    else []
  }

  /** 1 << parse. */
  function Power(parse: nat): (r: nat)
    requires parse <= 3
    ensures r >= 1
  {
    if parse == 3 then 8 else if parse == 2 then 4 else if parse == 1 then 2 else 1
  }

  lemma {:induction false} RowsFromPass(h: nat, y: nat, step: nat, parse: nat)
    requires step > 0 && parse <= 3
    ensures RowsFrom(h, y, step, parse) == Pass(h, y, step) + (if parse > 0 then RowsFrom(h, Power(parse) / 2, Power(parse), parse - 1) else [])
    decreases h - y
  {
    if y >= h {
    } else {
      RowsFromPass(h, y + step, step, parse);
    }
  }

  /** From the first row the cursor follows the order of Appendix E. */
  lemma CursorOrder(h: nat, interlaced: bool)
    ensures RowsFrom(h, 0, if interlaced then 8 else 1, if interlaced then 3 else 0) == RowOrder(h, interlaced)
  {
    hide Pass, RowsFrom;
    if interlaced {
      RowsFromPass(h, 0, 8, 3);
      RowsFromPass(h, 4, 8, 2);
      RowsFromPass(h, 2, 4, 1);
      RowsFromPass(h, 1, 2, 0);
      assert Pass(h, 0, 8) + (Pass(h, 4, 8) + (Pass(h, 2, 4) + (Pass(h, 1, 2) + []))) == RowOrder(h, true);
    } else {
      RowsFromPass(h, 0, 1, 0);
      assert Pass(h, 0, 1) + [] == Pass(h, 0, 1);
    }
  }

  /** How many rows a pass has, and which they are. */
  lemma {:induction false} PassAt(h: nat, start: nat, stride: nat, k: nat)
    requires stride == 1 || stride == 2 || stride == 4 || stride == 8
    ensures |Pass(h, start, stride)| == if start >= h then 0 else (h - start + stride - 1) / stride
    ensures k < |Pass(h, start, stride)| ==> Pass(h, start, stride)[k] == start + k * stride
    decreases h - start
  {
    if start >= h {
    } else {
      PassAt(h, start + stride, stride, if k == 0 then 0 else k - 1);
      if stride == 1 {
      } else if stride == 2 {
      } else if stride == 4 {
      } else {
      }
    }
  }

  /** Appendix E in numbers: every eighth row, every eighth from row 4, every fourth from row 2, every second from row 1. */
  lemma InterlacedRow(h: nat, i: nat)
    requires i < h
    ensures var a, b, c := (h + 7) / 8, (h + 3) / 8, (h + 1) / 4;
            i < |RowOrder(h, true)| && i < |RowOrder(h, false)| && RowOrder(h, false)[i] == i &&
            RowOrder(h, true)[i] ==
              if i < a then 8 * i else if i < a + b then 8 * (i - a) + 4 else if i < a + b + c then 4 * (i - a - b) + 2
              else 2 * (i - a - b - c) + 1
  {
    var a, b, c := (h + 7) / 8, (h + 3) / 8, (h + 1) / 4;
    RowCount(h, true);
    RowCount(h, false);
    PassAt(h, 0, 1, i);
    PassAt(h, 0, 8, i);
    PassAt(h, 4, 8, if i < a then 0 else i - a);
    PassAt(h, 2, 4, if i < a + b then 0 else i - a - b);
    PassAt(h, 1, 2, if i < a + b + c then 0 else i - a - b - c);
    hide Pass;
  }

  // ----- painting

  datatype Color = Color(r: byte, g: byte, b: byte, a: byte)

  /** Transparent colours leave the pixel as it was. */
  function Paint(before: Color, c: Color): Color {
    if c.a > 128 then c else before
  }

  function Flatten(lines: seq<seq<byte>>): seq<byte> {
    if lines == [] then [] else Flatten(lines[..|lines| - 1]) + lines[|lines| - 1]
  }

  /** Which symbol went where: the finished lines on the first rows of the order, the current one on the next. */
  ghost predicate Places(order: seq<nat>, w: nat, lines: seq<seq<byte>>, current: seq<byte>, placed: map<(nat, nat), byte>) {
    && |lines| <= |order| && |current| <= w
    && (current != [] ==> |lines| < |order|)
    && (forall i | 0 <= i < |lines| :: |lines[i]| == w)
    && (forall r: nat, c: nat :: (r, c) in placed <==> c < w && (r in order[..|lines|] || (c < |current| && r == order[|lines|])))
    && (forall i, c | 0 <= i < |lines| && 0 <= c < w && (order[i], c) in placed :: placed[(order[i], c)] == lines[i][c])
    && (forall c | 0 <= c < |current| && (order[|lines|], c) in placed :: placed[(order[|lines|], c)] == current[c])
  }

  lemma PlacesNext(order: seq<nat>, w: nat, lines: seq<seq<byte>>, current: seq<byte>, placed: map<(nat, nat), byte>, sym: byte)
    requires Distinct(order) && Places(order, w, lines, current, placed) && |lines| < |order| && |current| < w
    ensures (order[|lines|], |current|) !in placed
    ensures Places(order, w, lines, current + [sym], placed[(order[|lines|], |current|) := sym])
  {
    var r := order[|lines|];
    assert r !in order[..|lines|];
  }

  lemma PlacesRow(order: seq<nat>, w: nat, lines: seq<seq<byte>>, current: seq<byte>, placed: map<(nat, nat), byte>)
    requires Places(order, w, lines, current, placed) && |lines| < |order| && |current| == w
    ensures Places(order, w, lines + [current], [], placed)
  {
    assert order[..|lines| + 1] == order[..|lines|] + [order[|lines|]];
  }

  /** A frame's rectangle of w by h pixels at (x0, y0) of the image, and the cursor in it.
      Rows and columns count from the rectangle's corner; the source counts bytes. */
  class Raster {
    const w: nat
    const h: nat
    const x0: nat
    const y0: nat
    const interlaced: bool
    const palette: seq<Color>
    const out: array2<Color>
    const history: array2<bool>
    var curX: nat
    var curY: nat
    var step: nat
    var parse: nat
    ghost const base: (nat, nat) -> Color        // the image before the frame
    ghost var lines: seq<seq<byte>>              // the symbols of the finished rows
    ghost var current: seq<byte>                 // the symbols of the row under the cursor
    ghost var emitted: seq<byte>                 // all symbols so far
    ghost var placed: map<(nat, nat), byte>      // where the symbols went

    ghost function Order(): seq<nat> {
      RowOrder(h, interlaced)
    }

    ghost predicate Cursor()
      reads this
    {
      && 1 <= step && parse <= 3 && |lines| <= |Order()|
      && (w > 0 ==> RowsFrom(h, curY, step, parse) == Order()[|lines|..])
      && (curY < h || parse == 0 || h == 0 || w == 0)
      && (w == 0 ==> curY >= h && lines == [])
      && curX == |current| && (w > 0 ==> curX < w)
    }

    /** The symbols in reading order; what comes after the last pixel is dropped. */
    ghost predicate Stream()
      reads this
    {
      if |lines| == |Order()| || w == 0 then current == [] && Flatten(lines) <= emitted else emitted == Flatten(lines) + current
    }

    /** Every placed symbol is painted, every other pixel is as before. */
    ghost predicate Image()
      reads this, out, history
    {
      && |palette| == 256 && x0 + w <= out.Length1 && y0 + h <= out.Length0
      && out.Length0 == history.Length0 && out.Length1 == history.Length1
      && forall y: nat, x: nat | y < out.Length0 && x < out.Length1 ::
           var k := (y - y0, x - x0);
           if y >= y0 && x >= x0 && k in placed
           then history[y, x] && out[y, x] == Paint(base(y, x), palette[placed[k]])
           else !history[y, x] && out[y, x] == base(y, x)
    }

    ghost predicate Valid()
      reads this, out, history
    {
      Cursor() && Stream() && Places(Order(), w, lines, current, placed) && Image()
    }

    /** stbi__gif_load_next's setup of a frame, on an image whose history was cleared. */
    constructor (w: nat, h: nat, x0: nat, y0: nat, interlaced: bool, palette: seq<Color>, out: array2<Color>, history: array2<bool>)
      requires |palette| == 256 && x0 + w <= out.Length1 && y0 + h <= out.Length0
      requires out.Length0 == history.Length0 && out.Length1 == history.Length1
      requires forall y, x | 0 <= y < history.Length0 && 0 <= x < history.Length1 :: !history[y, x]
      ensures Valid() && emitted == [] && this.out == out && this.history == history
      ensures this.w == w && this.h == h && this.interlaced == interlaced
    {
      this.w, this.h, this.x0, this.y0, this.interlaced := w, h, x0, y0, interlaced;
      this.palette, this.out, this.history := palette, out, history;
      curX := 0;
      curY := if w == 0 then h else 0;
      step := if interlaced then 8 else 1;
      parse := if interlaced then 3 else 0;
      base := (y: nat, x: nat) => if y < out.Length0 && x < out.Length1 then old(out[y, x]) else Color(0, 0, 0, 0);
      lines, current, emitted, placed := [], [], [], map[];
      new;
      CursorOrder(h, interlaced);
    }

    /** The end of stbi__out_gif_code: one pixel, then the cursor moves on. */
    method PutPixel(sym: byte)
      requires Valid()
      modifies this, out, history
      ensures Valid() && emitted == old(emitted) + [sym]
    {
      hide RowsFrom, RowOrder, Flatten, Places;
      RowsFromNow(h, curY, step, parse);
      if curY >= h {
        emitted := emitted + [sym];
        return;
      }
      RowOrderComplete(h, interlaced);
      assert Order()[|lines|] == curY && Order()[|lines|] in Order();
      PlacesNext(Order(), w, lines, current, placed, sym);
      PaintPixel(sym);
      emitted := emitted + [sym];
      current := current + [sym];
      curX := curX + 1;
      if curX >= w { NextRow(); }
    }

    /** Once w * h symbols have come, every pixel of the rectangle has been visited. */
    lemma FrameFull()
      requires Valid() && |emitted| >= h * w
      ensures forall r: nat, c: nat | r < h && c < w :: (r, c) in placed
      ensures forall y: nat, x: nat | y0 <= y < y0 + h && x0 <= x < x0 + w :: history[y, x]
    {
      RowCount(h, interlaced);
      RowOrderComplete(h, interlaced);
      hide RowOrder, RowsFrom, Flatten;
      FlattenSize(lines, w);
      if w > 0 {
        if |lines| < h { FewerRows(|lines|, |current|, w, h); }
        assert |lines| == h && Order()[..h] == Order();
        assert forall r: nat, c: nat | r < h && c < w :: (r, c) in placed;
      }
    }

    /** A full frame: symbol number i * w + c is shown in column c of the i-th row of the order, in its colour from the
        palette, or what was there before shows through if that colour is transparent. */
    lemma FrameShown(i: nat, c: nat)
      requires Valid() && |emitted| >= h * w && i < h && c < w
      ensures i < |Order()| && Order()[i] < h && i * w + c < |emitted|
      ensures var v, y, x := palette[emitted[i * w + c]], y0 + Order()[i], x0 + c;
              out[y, x] == if v.a > 128 then v else base(y, x)
    {
      FrameFull();
      RowCount(h, interlaced);
      RowOrderComplete(h, interlaced);
      hide RowOrder, RowsFrom, Flatten;
      FlattenSize(lines, w);
      if |lines| < h { FewerRows(|lines|, |current|, w, h); }
      assert Order()[i] in Order();
      FlattenAt(lines, w, i, c);
      assert placed[(Order()[i], c)] == lines[i][c];
      assert (y0 + Order()[i] - y0, x0 + c - x0) == (Order()[i], c);
    }

    /** Paints the symbol at the cursor. */
    method PaintPixel(sym: byte)
      requires Image() && curX < w && curY < h && (curY, curX) !in placed
      modifies this`placed, out, history
      ensures Image() && placed == old(placed)[(curY, curX) := sym]
    {
      var y, x := y0 + curY, x0 + curX;
      history[y, x] := true;
      var c := palette[sym];
      if c.a > 128 { out[y, x] := c; }
      placed := placed[(curY, curX) := sym];
    }

    /** The row is full: on to the next row of this pass, or of a later one. */
    method NextRow()
      requires Image() && Places(Order(), w, lines, current, placed)
      requires 1 <= step && parse <= 3 && w > 0 && |lines| < |Order()| && curY < h
      requires RowsFrom(h, curY, step, parse) == Order()[|lines|..]
      requires curX == |current| == w && emitted == Flatten(lines) + current
      modifies this
      ensures Valid() && emitted == old(emitted)
    {
      hide RowsFrom, RowOrder, Places;
      RowsFromNow(h, curY, step, parse);
      PlacesRow(Order(), w, lines, current, placed);
      assert Order()[|lines|..][1..] == Order()[|lines| + 1..];
      ghost var rest := RowsFrom(h, curY + step, step, parse);
      assert (lines + [current])[..|lines|] == lines;
      lines := lines + [current];
      current := [];
      curX := 0;
      curY := curY + step;
      while curY >= h && parse > 0
        modifies this`curY, this`step, this`parse
        invariant 1 <= step && parse <= 3 && RowsFrom(h, curY, step, parse) == rest
        decreases parse
      {
        RowsFromNow(h, curY, step, parse);
        step := Power(parse);
        curY := step / 2;
        parse := parse - 1;
      }
      assert emitted == Flatten(lines);
    }
  }

  function Rows(rows: seq<nat>): set<nat> {
    set r | r in rows
  }

  lemma {:induction false} DistinctSize(rows: seq<nat>)
    requires Distinct(rows)
    ensures |Rows(rows)| == |rows|
    decreases |rows|
  {
    if rows == [] {
    } else {
      var front, last := rows[..|rows| - 1], rows[|rows| - 1];
      DistinctSize(front);
      assert Rows(rows) == Rows(front) + {last};
    }
  }

  function Below(h: nat): (s: set<nat>)
    ensures |s| == h && forall r :: r in s <==> 0 <= r < h
  {
    if h == 0 then {} else Below(h - 1) + {h - 1}
  }

  lemma RowCount(h: nat, interlaced: bool)
    ensures |RowOrder(h, interlaced)| == h
  {
    hide RowOrder;
    RowOrderComplete(h, interlaced);
    DistinctSize(RowOrder(h, interlaced));
    assert Rows(RowOrder(h, interlaced)) == Below(h);
  }

  lemma {:induction false} FlattenAt(lines: seq<seq<byte>>, w: nat, i: nat, c: nat)
    requires (forall k | 0 <= k < |lines| :: |lines[k]| == w) && i < |lines| && c < w
    ensures i * w + c < |Flatten(lines)| && Flatten(lines)[i * w + c] == lines[i][c]
    decreases |lines|
  {
    var front := lines[..|lines| - 1];
    FlattenSize(front, w);
    if i == |lines| - 1 {
    } else {
      FlattenAt(front, w, i, c);
    }
  }

  lemma {:induction false} FlattenSize(lines: seq<seq<byte>>, w: nat)
    requires forall i | 0 <= i < |lines| :: |lines[i]| == w
    ensures |Flatten(lines)| == |lines| * w
    decreases |lines|
  {
    if lines == [] {
    } else {
      FlattenSize(lines[..|lines| - 1], w);
      assert |lines| * w == (|lines| - 1) * w + w;
    }
  }

  lemma FewerRows(n: nat, k: nat, w: nat, h: nat)
    requires n < h && k < w
    ensures n * w + k < h * w
  {
    assert (n + 1) * w <= h * w;
  }

  /** The rows still to come, one step at a time. */
  lemma RowsFromNow(h: nat, y: nat, step: nat, parse: nat)
    requires step > 0 && parse <= 3
    ensures y < h ==> RowsFrom(h, y, step, parse) == [y] + RowsFrom(h, y + step, step, parse)
    ensures y >= h && parse > 0 ==> RowsFrom(h, y, step, parse) == RowsFrom(h, Power(parse) / 2, Power(parse), parse - 1)
    ensures y >= h && (parse == 0 || h == 0) ==> RowsFrom(h, y, step, parse) == []
  {
    if h == 0 { NoRows(y, step, parse); }
  }

  lemma {:induction false} NoRows(y: nat, step: nat, parse: nat)
    requires step > 0 && parse <= 3
    ensures RowsFrom(0, y, step, parse) == []
    decreases parse
  {
    if parse <= 0 {
    } else {
      NoRows(Power(parse) / 2, Power(parse), parse - 1);
    }
  }
}
