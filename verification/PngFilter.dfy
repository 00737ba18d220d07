/** PNG row filters (section 9 of the PNG specification) and stb_image's reconstruction of rows. */
module PngFilter {
  import Common

  type byte = Common.byte

  // ----- the Paeth predictor

  function Abs(x: int): int { if x < 0 then -x else x }

  /** Section 9.4: of left, above and upper left, the one nearest to a + b - c, ties in that order. */
  function PaethPredictor(a: int, b: int, c: int): int {
    var p := a + b - c;
    var pa, pb, pc := Abs(p - a), Abs(p - b), Abs(p - c);
    if pa <= pb && pa <= pc then a else if pb <= pc then b else c
  }

  /** stbi__paeth. */
  function Paeth(a: int, b: int, c: int): int {
    var thresh := c * 3 - (a + b);
    var lo := if a < b then a else b;
    var hi := if a < b then b else a;
    var t0 := if hi <= thresh then lo else c;
    if thresh <= lo then hi else t0
  }

  /** The two agree everywhere, ties included. */
  lemma PaethIsReference(a: int, b: int, c: int)
    ensures Paeth(a, b, c) == PaethPredictor(a, b, c)
  {
  }

  // ----- filtering and reconstruction

  datatype Filter = None | Sub | Up | Average | PaethFilter

  function Predict(f: Filter, a: int, b: int, c: int): int {
    match f
    case None => 0
    case Sub => a
    case Up => b
    case Average => (a + b) / 2
    case PaethFilter => PaethPredictor(a, b, c)
  }

  /** The byte n places to the left, or zero. */
  function Before(row: seq<byte>, k: nat, n: nat): byte
    requires k < |row| + n
  {
    if k < n then 0 else row[k - n]
  }

  function Filtered(f: Filter, row: seq<byte>, prior: seq<byte>, n: nat, k: nat): byte
    requires k < |row| == |prior| && n > 0
  {
    (row[k] - Predict(f, Before(row, k, n), prior[k], Before(prior, k, n))) % 256
  }

  /** The encoder's first k bytes of a row. */
  function FilterRow(f: Filter, row: seq<byte>, prior: seq<byte>, n: nat, k: nat): (r: seq<byte>)
    requires k <= |row| == |prior| && n > 0
    ensures |r| == k && forall i | 0 <= i < k :: r[i] == Filtered(f, row, prior, n, i)
  {
    if k == 0 then [] else FilterRow(f, row, prior, n, k - 1) + [Filtered(f, row, prior, n, k - 1)]
  }

  /** The first k bytes of the row whose filtered form is raw. */
  function Recon(f: Filter, raw: seq<byte>, prior: seq<byte>, n: nat, k: nat): (r: seq<byte>)
    requires k <= |raw| == |prior| && n > 0
    ensures |r| == k
  {
    if k == 0 then []
    else
      var done := Recon(f, raw, prior, n, k - 1);
      done + [(raw[k - 1] + Predict(f, Before(done, k - 1, n), prior[k - 1], Before(prior, k - 1, n))) % 256]
  }

  /** Reconstruction undoes filtering, whatever the filter, the row above and the distance. */
  lemma {:induction false} ReconInvertsFilter(f: Filter, row: seq<byte>, prior: seq<byte>, n: nat, k: nat)
    requires k <= |row| == |prior| && n > 0
    ensures Recon(f, FilterRow(f, row, prior, n, |row|), prior, n, k) == row[..k]
  {
    if k == 0 {
    } else {
      hide Predict, FilterRow;
      ReconInvertsFilter(f, row, prior, n, k - 1);
      assert Before(row[..k - 1], k - 1, n) == Before(row, k - 1, n);
      var p := Predict(f, Before(row, k - 1, n), prior[k - 1], Before(prior, k - 1, n));
      WrapAround(row[k - 1], p);
      assert row[..k] == row[..k - 1] + [row[k - 1]];
    }
  }

  lemma WrapAround(x: byte, p: int)
    ensures ((x - p) % 256 + p) % 256 == x
  {
  }

  // ----- images

  /** Table 9.1: the filter types by number, and what they predict from left, above and upper left. */
  lemma FilterTypes(a: nat, b: nat, c: nat)
    ensures ByteOf(None) == 0 && ByteOf(Sub) == 1 && ByteOf(Up) == 2 && ByteOf(Average) == 3 && ByteOf(PaethFilter) == 4
    ensures Predict(None, a, b, c) == 0 && Predict(Sub, a, b, c) == a && Predict(Up, a, b, c) == b
    ensures 2 * Predict(Average, a, b, c) <= a + b < 2 * Predict(Average, a, b, c) + 2
    ensures var p, e := Predict(PaethFilter, a, b, c), a + b - c;
            p in {a, b, c} && Abs(e - p) <= Abs(e - a) && Abs(e - p) <= Abs(e - b) && Abs(e - p) <= Abs(e - c)
  {
  }

  function FilterOf(b: byte): Filter
    requires b <= 4
  {
    if b == 0 then None else if b == 1 then Sub else if b == 2 then Up else if b == 3 then Average else PaethFilter
  }

  function ByteOf(f: Filter): (b: byte)
    ensures b <= 4 && FilterOf(b) == f
  {
    match f
    case None => 0
    case Sub => 1
    case Up => 2
    case Average => 3
    case PaethFilter => 4
  }

  function Zeros(w: nat): (z: seq<byte>)
    ensures |z| == w && forall i | 0 <= i < w :: z[i] == 0
  {
    Common.Repeat(0, w)
  }

  /** The encoder: each row filtered by the filter chosen for it, behind that filter's number. */
  function Encode(rows: seq<seq<byte>>, filters: seq<Filter>, prior: seq<byte>, w: nat, n: nat): seq<byte>
    requires |rows| == |filters| && |prior| == w && n > 0
    requires forall i | 0 <= i < |rows| :: |rows[i]| == w
  {
    if rows == [] then []
    else [ByteOf(filters[0])] + FilterRow(filters[0], rows[0], prior, n, w) + Encode(rows[1..], filters[1..], rows[0], w, n)
  }

  datatype Image = Bad | Image(rows: seq<seq<byte>>)

  /** The reference reconstruction of h rows of w bytes, below the row `prior`. */
  function Decode(raw: seq<byte>, prior: seq<byte>, w: nat, n: nat, h: nat): (r: Image)
    requires |prior| == w && n > 0
    ensures r.Image? ==> |r.rows| == h && forall j | 0 <= j < h :: |r.rows[j]| == w
  {
    if h == 0 then Image([])
    else if |raw| < w + 1 || raw[0] > 4 then Bad
    else
      var row := Recon(FilterOf(raw[0]), raw[1..w + 1], prior, n, w);
      match Decode(raw[w + 1..], row, w, n, h - 1)
      case Bad => Bad
      case Image(rest) => Image([row] + rest)
  }

  /** Every image survives encoding, with any filter on any row, and decoding; what follows the image is ignored. */
  lemma {:induction false} DecodeInvertsEncode(rows: seq<seq<byte>>, filters: seq<Filter>, prior: seq<byte>,
                                               w: nat, n: nat, extra: seq<byte>)
    requires |rows| == |filters| && |prior| == w && n > 0
    requires forall i | 0 <= i < |rows| :: |rows[i]| == w
    ensures Decode(Encode(rows, filters, prior, w, n) + extra, prior, w, n, |rows|) == Image(rows)
    decreases |rows|
  {
    if rows == [] {
    } else {
      EncodeParts(rows, filters, prior, w, n, extra);
      ReconInvertsFilter(filters[0], rows[0], prior, n, w);
      assert rows[0][..w] == rows[0];
      DecodeInvertsEncode(rows[1..], filters[1..], rows[0], w, n, extra);
      hide Encode, FilterRow, Recon;
      assert [rows[0]] + rows[1..] == rows;
    }
  }

  lemma EncodeParts(rows: seq<seq<byte>>, filters: seq<Filter>, prior: seq<byte>, w: nat, n: nat, extra: seq<byte>)
    requires |rows| == |filters| && |prior| == w && n > 0 && rows != []
    requires forall i | 0 <= i < |rows| :: |rows[i]| == w
    ensures var raw := Encode(rows, filters, prior, w, n) + extra;
      && |raw| >= w + 1 && raw[0] == ByteOf(filters[0])
      && raw[1..w + 1] == FilterRow(filters[0], rows[0], prior, n, w)
      && raw[w + 1..] == Encode(rows[1..], filters[1..], rows[0], w, n) + extra
  {
    var line := FilterRow(filters[0], rows[0], prior, n, w);
    var rest := Encode(rows[1..], filters[1..], rows[0], w, n);
    assert Encode(rows, filters, prior, w, n) == [ByteOf(filters[0])] + line + rest;
    Parts(ByteOf(filters[0]), line, rest, extra);
  }

  lemma Parts(b: byte, line: seq<byte>, rest: seq<byte>, extra: seq<byte>)
    ensures var raw := [b] + line + rest + extra;
      raw[0] == b && raw[1..|line| + 1] == line && raw[|line| + 1..] == rest + extra
  {
  }

  /** An image is refused exactly when it is too short or a row has an unknown filter number. */
  lemma {:induction false} DecodesExactly(raw: seq<byte>, prior: seq<byte>, w: nat, n: nat, h: nat)
    requires |prior| == w && n > 0
    ensures Decode(raw, prior, w, n, h).Image? <==> RowsLength(w, h) <= |raw| && FiltersKnown(raw, w, h)
  {
    if h == 0 || |raw| < w + 1 || raw[0] > 4 {
    } else {
      DecodesExactly(raw[w + 1..], Recon(FilterOf(raw[0]), raw[1..w + 1], prior, n, w), w, n, h - 1);
    }
  }

  /** (w + 1) * h: each row has a filter number in front. */
  function RowsLength(w: nat, h: nat): (r: nat)
    ensures r == (w + 1) * h
  {
    if h == 0 then 0
    else
      assert (w + 1) * h == (w + 1) * (h - 1) + w + 1;
      RowsLength(w, h - 1) + w + 1
  }

  predicate FiltersKnown(raw: seq<byte>, w: nat, h: nat) {
    h == 0 || (|raw| >= w + 1 && raw[0] <= 4 && FiltersKnown(raw[w + 1..], w, h - 1))
  }

  // ----- the substitutions in the first row

  /** The filter that gives the same row without looking at the row above, when that row is zero. */
  lemma {:induction false} FirstRow(f: Filter, g: Filter, raw: seq<byte>, prior: seq<byte>, n: nat, k: nat)
    requires k <= |raw| == |prior| && n > 0
    requires (f, g) in {(None, None), (Sub, Sub), (Up, None), (PaethFilter, Sub)}
    ensures Recon(g, raw, prior, n, k) == Recon(f, raw, Zeros(|raw|), n, k)
  {
    if k == 0 {
    } else {
      FirstRow(f, g, raw, prior, n, k - 1);
    }
  }
}
