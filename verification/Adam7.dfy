/** The seven passes of an interlaced PNG image (section 8.2 of the PNG specification). */
module Adam7 {

  const XORIG: seq<nat> := [0, 4, 0, 2, 0, 1, 0]
  const YORIG: seq<nat> := [0, 0, 4, 0, 2, 0, 1]
  const XSPC: seq<nat> := [8, 8, 4, 4, 2, 2, 1]
  const YSPC: seq<nat> := [8, 8, 8, 4, 4, 2, 2]

  /** How many of the positions orig, orig + spc, ... lie below size, as the code computes it. */
  function Count(size: nat, orig: nat, spc: nat): (r: int)
    requires orig < spc
    ensures r >= 0
  {
    (size - orig + spc - 1) / spc
  }

  function Columns(w: nat, p: nat): nat
    requires p < 7
  {
    Count(w, XORIG[p], XSPC[p])
  }

  function PassRows(h: nat, p: nat): nat
    requires p < 7
  {
    Count(h, YORIG[p], YSPC[p])
  }

  function OutX(p: nat, i: nat): nat
    requires p < 7
  {
    i * XSPC[p] + XORIG[p]
  }

  function OutY(p: nat, j: nat): nat
    requires p < 7
  {
    j * YSPC[p] + YORIG[p]
  }

  // ----- the 8 by 8 pattern

  /** The pass a pixel belongs to, from the pattern. */
  function Pass(x: nat, y: nat): (p: nat)
    ensures p < 7
  {
    if y % 2 == 1 then 6
    else if x % 2 == 1 then 5
    else if y % 4 == 2 then 4
    else if x % 4 == 2 then 3
    else if y % 8 == 4 then 2
    else if x % 8 == 4 then 1
    else 0
  }

  function Column(x: nat, y: nat): int {
    (x - XORIG[Pass(x, y)]) / XSPC[Pass(x, y)]
  }

  function Row(x: nat, y: nat): int {
    (y - YORIG[Pass(x, y)]) / YSPC[Pass(x, y)]
  }

  predicate Spacing(spc: nat) { spc == 1 || spc == 2 || spc == 4 || spc == 8 }

  /** One direction: the positions counted are those of the right remainder below size. */
  lemma Counted(x: nat, orig: nat, spc: nat, size: nat)
    requires Spacing(spc) && x < size && x % spc == orig
    ensures 0 <= (x - orig) / spc < Count(size, orig, spc) && (x - orig) / spc * spc + orig == x
  {
    if spc == 1 {
    } else if spc == 2 {
    } else if spc == 4 {
    } else {
    }
  }

  lemma Placed(i: nat, orig: nat, spc: nat, size: nat)
    requires Spacing(spc) && orig < spc && i < Count(size, orig, spc)
    ensures i * spc + orig < size && (i * spc + orig) % spc == orig && (i * spc + orig - orig) / spc == i
  {
    if spc == 1 {
    } else if spc == 2 {
    } else if spc == 4 {
    } else {
    }
  }

  /** The pass of a pixel is the one whose remainders it has. */
  lemma Pattern(x: nat, y: nat, p: nat)
    requires p < 7
    ensures Spacing(XSPC[p]) && Spacing(YSPC[p]) && XORIG[p] < XSPC[p] && YORIG[p] < YSPC[p]
    ensures Pass(x, y) == p <==> x % XSPC[p] == XORIG[p] && y % YSPC[p] == YORIG[p]
  {
    if p == 0 {
    } else if p == 1 {
    } else if p == 2 {
    } else if p == 3 {
    } else if p == 4 {
    } else if p == 5 {
    } else {
    }
  }

  /** Every pixel is written, by its own pass and from inside that pass's image. */
  lemma Covered(x: nat, y: nat, w: nat, h: nat)
    requires x < w && y < h
    ensures var p, i, j := Pass(x, y), Column(x, y), Row(x, y);
      && 0 <= i < Columns(w, p) && 0 <= j < PassRows(h, p)
      && OutX(p, i) == x && OutY(p, j) == y
  {
    hide Pass, Spacing, Count;
    var p := Pass(x, y);
    Pattern(x, y, p);
    Counted(x, XORIG[p], XSPC[p], w);
    Counted(y, YORIG[p], YSPC[p], h);
  }

  /** What a pass writes is in bounds, and belongs to that pass, column and row alone. */
  lemma Written(p: nat, i: nat, j: nat, w: nat, h: nat)
    requires p < 7 && i < Columns(w, p) && j < PassRows(h, p)
    ensures OutX(p, i) < w && OutY(p, j) < h
    ensures Pass(OutX(p, i), OutY(p, j)) == p && Column(OutX(p, i), OutY(p, j)) == i && Row(OutX(p, i), OutY(p, j)) == j
  {
    hide Pass, Spacing;
    Pattern(OutX(p, i), OutY(p, j), p);
    hide Count;
    Placed(i, XORIG[p], XSPC[p], w);
    Placed(j, YORIG[p], YSPC[p], h);
  }

  /** Two writes to one place are the same write. */
  lemma WrittenOnce(p: nat, i: nat, j: nat, p': nat, i': nat, j': nat, w: nat, h: nat)
    requires p < 7 && i < Columns(w, p) && j < PassRows(h, p)
    requires p' < 7 && i' < Columns(w, p') && j' < PassRows(h, p')
    requires OutX(p, i) == OutX(p', i') && OutY(p, j) == OutY(p', j')
    ensures p == p' && i == i' && j == j'
  {
    hide *;
    Written(p, i, j, w, h);
    Written(p', i', j', w, h);
  }

  // ----- the sizes add up

  function Size(w: nat, h: nat, p: nat): int
    requires p < 7
  {
    Columns(w, p) * PassRows(h, p)
  }

  lemma ColumnsAdd(w: nat)
    ensures Columns(w, 0) + Columns(w, 1) == Columns(w, 2) && Columns(w, 2) + Columns(w, 3) == Columns(w, 4)
    ensures Columns(w, 4) + Columns(w, 5) == Columns(w, 6) == w
  {
    Halve(w, 8);
    Halve(w, 4);
    Halve(w, 2);
  }

  /** The even positions of a spacing and the odd ones are all of the halved spacing. */
  lemma Halve(size: nat, spc: nat)
    requires spc == 2 || spc == 4 || spc == 8
    ensures Count(size, 0, spc) + Count(size, spc / 2, spc) == Count(size, 0, spc / 2)
    ensures Count(size, 0, 1) == size
  {
    if spc == 2 {
    } else if spc == 4 {
    } else {
    }
  }

  lemma RowsAdd(h: nat)
    ensures PassRows(h, 0) == PassRows(h, 1) && PassRows(h, 1) + PassRows(h, 2) == PassRows(h, 3)
    ensures PassRows(h, 3) + PassRows(h, 4) == PassRows(h, 5) && PassRows(h, 5) + PassRows(h, 6) == h
  {
    Halve(h, 8);
    Halve(h, 4);
    Halve(h, 2);
  }

  lemma Joined(a: int, b: int, c: int, q: int)
    requires a + b == c
    ensures a * q + b * q == c * q && q * a + q * b == q * c
  {
  }

  /** The seven images together have exactly the pixels of the whole. */
  lemma SizesAddUp(w: nat, h: nat)
    ensures Size(w, h, 0) + Size(w, h, 1) + Size(w, h, 2) + Size(w, h, 3) + Size(w, h, 4) + Size(w, h, 5) + Size(w, h, 6) == w * h
  {
    hide Columns, PassRows;
    ColumnsAdd(w);
    RowsAdd(h);
    Joined(Columns(w, 0), Columns(w, 1), Columns(w, 2), PassRows(h, 0));
    Joined(PassRows(h, 1), PassRows(h, 2), PassRows(h, 3), Columns(w, 2));
    Joined(Columns(w, 2), Columns(w, 3), Columns(w, 4), PassRows(h, 3));
    Joined(PassRows(h, 3), PassRows(h, 4), PassRows(h, 5), Columns(w, 4));
    Joined(Columns(w, 4), Columns(w, 5), Columns(w, 6), PassRows(h, 5));
    Joined(PassRows(h, 5), PassRows(h, 6), h, w);
  }
}
