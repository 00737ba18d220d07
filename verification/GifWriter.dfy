/** Writing GIF image data: strings of colours with their codes, in sub-blocks, and that decoding gives the colours back. */
module GifWriter {
  import opened BitStrings
  import opened Bits
  import opened Common
  import Deflate
  import DeflateWriter
  import opened GifLzw

  // ----- sub-blocks (section 15 of GIF89a)

  /** Blocks of up to 255 bytes with their sizes in front, and an empty one at the end. */
  function Blocked(blocks: seq<seq<byte>>): seq<byte>
    requires forall i | 0 <= i < |blocks| :: 0 < |blocks[i]| < 256
  {
    if blocks == [] then [0] else [|blocks[0]|] + blocks[0] + Blocked(blocks[1..])
  }

  function Joined(blocks: seq<seq<byte>>): seq<byte> {
    if blocks == [] then [] else blocks[0] + Joined(blocks[1..])
  }

  /** The bytes x lie at position pos. */
  ghost predicate Lies(s: seq<byte>, pos: nat, x: seq<byte>) {
    pos + |x| <= |s| && forall k, q | 0 <= k < |x| && q == pos + k :: s[q] == x[k]
  }

  lemma LiesBoth(s: seq<byte>, pos: nat, a: seq<byte>, b: seq<byte>)
    requires Lies(s, pos, a + b)
    ensures Lies(s, pos, a) && Lies(s, pos + |a|, b)
  {
    var ab := a + b;
    forall k, q | 0 <= k < |a| && q == pos + k ensures s[q] == a[k] { assert ab[k] == a[k]; }
    forall k, q | 0 <= k < |b| && q == pos + |a| + k ensures s[q] == b[k] { assert ab[|a| + k] == b[k]; }
  }

  lemma {:induction false} BlockRead(s: seq<byte>, pos: nat, block: seq<byte>)
    requires Lies(s, pos, block)
    ensures DataFrom(s, pos, |block|) == block + DataFrom(s, pos + |block|, 0)
    decreases |block|
  {
    if block == [] {
      assert block + DataFrom(s, pos, 0) == DataFrom(s, pos, 0);
    } else {
      assert block == [block[0]] + block[1..];
      LiesBoth(s, pos, [block[0]], block[1..]);
      assert s[pos] == [block[0]][0];
      BlockRead(s, pos + 1, block[1..]);
    }
  }

  lemma SizeRead(s: seq<byte>, pos: nat)
    requires pos < |s|
    ensures DataFrom(s, pos, 0) == if s[pos] == 0 then [] else DataFrom(s, pos + 1, s[pos])
  {
  }

  /** The bytes of all sub-blocks, whatever lies before and behind. */
  lemma {:induction false} BlocksRead(s: seq<byte>, pos: nat, blocks: seq<seq<byte>>)
    requires forall i | 0 <= i < |blocks| :: 0 < |blocks[i]| < 256
    requires Lies(s, pos, Blocked(blocks))
    ensures DataFrom(s, pos, 0) == Joined(blocks)
    decreases |blocks|
  {
    hide DataFrom;
    if blocks == [] {
      assert s[pos] == [0][0];
      SizeRead(s, pos);
    } else {
      var b, rest := blocks[0], Blocked(blocks[1..]);
      LiesBoth(s, pos, [|b|] + b, rest);
      LiesBoth(s, pos, [|b|], b);
      assert s[pos] == [|b|][0];
      SizeRead(s, pos);
      BlockRead(s, pos + 1, b);
      BlocksRead(s, pos + 1 + |b|, blocks[1..]);
    }
  }

  // ----- codes (Appendix F of GIF89a)

  /** A run of strings and their codes, between two clear codes. */
  datatype Piece = Piece(strings: seq<seq<byte>>, codes: seq<nat>)

  /** What code n stands for once strings 0 to i have been written: a colour, or an earlier string and the first colour
      of the one after it. */
  ghost predicate StandsFor(clear: nat, strings: seq<seq<byte>>, i: nat, n: nat)
    requires i < |strings| && forall k | 0 <= k < |strings| :: strings[k] != []
  {
    || (n < clear && strings[i] == [n % 256])
    || (clear + 2 <= n < clear + 2 + i && strings[i] == strings[n - clear - 2] + [strings[n - clear - 1][0]])
  }

  /** How many entries there are before string i is read. */
  function Entries(clear: nat, i: nat): nat { clear + 2 + (if i == 0 then 0 else i - 1) }

  /** Enough bits to write the number of entries, but at least w and at most twelve. */
  function Width(w: nat, n: nat): (r: nat)
    ensures w <= 12 ==> w <= r <= 12
    decreases 12 - w
  {
    if w >= 12 || n < Pow2(w) then w else Width(w + 1, n)
  }

  ghost predicate PieceOk(cs: nat, piece: Piece) {
    var clear := Pow2(cs);
    && |piece.codes| == |piece.strings| && Entries(clear, |piece.codes|) <= MAX_CODES
    && (forall i | 0 <= i < |piece.strings| :: piece.strings[i] != [])
    && forall i | 0 <= i < |piece.codes| ::
         StandsFor(clear, piece.strings, i, piece.codes[i]) && piece.codes[i] < Pow2(Width(cs + 1, Entries(clear, i)))
  }

  function CodesBits(cs: nat, codes: seq<nat>): (r: seq<nat>)
    ensures AreBits(r)
  {
    if codes == [] then []
    else CodesBits(cs, codes[..|codes| - 1]) + LowBitsOf(codes[|codes| - 1], Width(cs + 1, Entries(Pow2(cs), |codes| - 1)))
  }

  function Colours(strings: seq<seq<byte>>): seq<byte> {
    if strings == [] then [] else Colours(strings[..|strings| - 1]) + strings[|strings| - 1]
  }

  /** The entries made by the first i strings. */
  function Made(strings: seq<seq<byte>>, i: nat): (r: seq<seq<byte>>)
    requires i < |strings| && forall k | 0 <= k < |strings| :: strings[k] != []
    ensures |r| == i && forall k | 0 <= k < i :: r[k] == strings[k] + [strings[k + 1][0]]
  {
    seq(i, k requires 0 <= k < i => strings[k] + [strings[k + 1][0]])
  }

  // ----- widths

  lemma {:induction false} WidthIs(w: nat, n: nat)
    requires w <= 12
    ensures Width(w, n) < 12 ==> n < Pow2(Width(w, n))
    ensures Width(w, n) > w ==> n >= Pow2(Width(w, n) - 1)
    decreases 12 - w
  {
    hide Pow2;
    if w >= 12 || n < Pow2(w) {
    } else {
      WidthIs(w + 1, n);
    }
  }

  lemma {:induction false} WidthUnique(w: nat, n: nat, v: nat)
    requires w <= v <= 12 && (v < 12 ==> n < Pow2(v)) && (v > w ==> n >= Pow2(v - 1))
    ensures Width(w, n) == v
    decreases v - w
  {
    if w == v {
    } else {
      Pow2Mono(w, v - 1);
      hide Pow2;
      WidthUnique(w + 1, n, v);
    }
  }

  lemma NotWidened(st: State)
    requires 0 < |st.dict| < Pow2(st.width) || |st.dict| > 0x0fff
    ensures Widened(st) == st
  {
    hide Pow2, Low;
    if |st.dict| < Pow2(st.width) { LowSmall(|st.dict|, st.width); }
  }

  lemma WidenedAtPower(st: State)
    requires |st.dict| == Pow2(st.width) && st.width < 12
    ensures Widened(st).width == st.width + 1
  {
    PowerLow(st.width);
    Pow2Mono(st.width, 11);
    assert Pow2(11) == 2048 by { Pow2Table(); }
    hide Pow2, Low;
  }

  /** The decoder widens its codes when the number of entries asks for it. */
  lemma WidthNext(cs: nat, st: State, n: nat)
    requires cs <= 11 && |st.dict| == n + 1 && st.width == Width(cs + 1, n)
    ensures Widened(st).width == Width(cs + 1, n + 1)
  {
    hide Width, Low, Pow2, Widened;
    Pow2Table();
    var w := st.width;
    WidthIs(cs + 1, n);
    if n + 1 < Pow2(w) || w == 12 {
      NotWidened(st);
      WidthUnique(cs + 1, n + 1, w);
    } else {
      WidenedAtPower(st);
      WidthUnique(cs + 1, n + 1, w + 1);
    }
  }

  lemma {:induction false} PowerLow(n: nat)
    ensures Low(Pow2(n), n) == 0
  {
    if n == 0 {
    } else {
      PowerLow(n - 1);
    }
  }

  // ----- reading a piece

  ghost predicate Stands(data: seq<byte>, p: nat, bits: seq<nat>) {
    DeflateWriter.Stands(data, p, bits) && p + |bits| <= 8 * |data|
  }

  lemma StandsBoth(data: seq<byte>, p: nat, a: seq<nat>, b: seq<nat>)
    requires Stands(data, p, a + b)
    ensures Stands(data, p, a) && Stands(data, p + |a|, b)
  {
    hide DeflateWriter.Stands;
    DeflateWriter.StandsBoth(data, p, a, b);
  }

  /** The decoder after i strings of a piece that began at position p. */
  ghost function After(cs: nat, piece: Piece, p: nat, out: seq<byte>, i: nat): State
    requires PieceOk(cs, piece) && i <= |piece.strings|
  {
    State(Cleared(Pow2(cs)) + (if i == 0 then [] else Made(piece.strings, i - 1)),
          if i == 0 then None else Some(piece.strings[i - 1]), true,
          Width(cs + 1, Entries(Pow2(cs), i)), p + |CodesBits(cs, piece.codes[..i])|, out + Colours(piece.strings[..i]))
  }

  lemma StringIs(clear: nat, strings: seq<seq<byte>>, i: nat, n: nat, st: State)
    requires i < |strings| && (forall k | 0 <= k < |strings| :: strings[k] != []) && StandsFor(clear, strings, i, n)
    requires st.dict == Cleared(clear) + (if i == 0 then [] else Made(strings, i - 1))
    requires st.prev == if i == 0 then None else Some(strings[i - 1])
    ensures Entry(clear, st, n) == Some(strings[i]) && n != clear && n != clear + 1 && |st.dict| == Entries(clear, i)
  {
    if n < clear {
      assert st.dict[n] == Roots(clear)[n];
    } else {
      var j := n - clear - 2;
      if j < i - 1 {
        assert st.dict[n] == Made(strings, i - 1)[j];
      } else {
        assert strings[i][0] == strings[i - 1][0];
      }
    }
  }

  /** The code of string i means that string to the decoder, also if it is the entry being made. */
  lemma EntryIs(cs: nat, piece: Piece, p: nat, out: seq<byte>, i: nat)
    requires PieceOk(cs, piece) && i < |piece.strings|
    ensures var st := After(cs, piece, p, out, i);
            && Entry(Pow2(cs), st, piece.codes[i]) == Some(piece.strings[i])
            && piece.codes[i] != Pow2(cs) && piece.codes[i] != Pow2(cs) + 1
            && |st.dict| == Entries(Pow2(cs), i)
  {
    hide Pow2, Width, CodesBits, Colours;
    var strings, n, clear := piece.strings, piece.codes[i], Pow2(cs);
    var st := After(cs, piece, p, out, i);
    assert StandsFor(clear, strings, i, n);
    hide StandsFor;
    StringIs(clear, strings, i, n, st);
  }

  lemma EntriesFit(cs: nat)
    requires 2 <= cs <= 11
    ensures Pow2(cs) + 2 < Pow2(cs + 1) && Width(cs + 1, Pow2(cs) + 2) == cs + 1
  {
    Pow2Mono(2, cs);
    assert Pow2(2) == 4;
  }

  lemma DictNext(roots: seq<seq<byte>>, strings: seq<seq<byte>>, i: nat)
    requires 0 < i < |strings| && forall k | 0 <= k < |strings| :: strings[k] != []
    ensures roots + Made(strings, i - 1) + [strings[i - 1] + [strings[i][0]]] == roots + Made(strings, i)
  {
    assert Made(strings, i - 1) + [strings[i - 1] + [strings[i][0]]] == Made(strings, i);
  }

  lemma OneMore(cs: nat, piece: Piece, i: nat)
    requires i < |piece.codes| == |piece.strings|
    ensures |CodesBits(cs, piece.codes[..i + 1])| == |CodesBits(cs, piece.codes[..i])| + Width(cs + 1, Entries(Pow2(cs), i))
    ensures Colours(piece.strings[..i + 1]) == Colours(piece.strings[..i]) + piece.strings[i]
  {
    hide Pow2, Width, LowBitsOf;
    assert piece.strings[..i + 1][..i] == piece.strings[..i] && piece.codes[..i + 1][..i] == piece.codes[..i];
  }

  lemma AfterNext(cs: nat, piece: Piece, p: nat, out: seq<byte>, i: nat)
    requires 2 <= cs <= 11 && PieceOk(cs, piece) && i < |piece.strings|
    ensures var st := After(cs, piece, p, out, i);
            Widened(Next(st, piece.strings[i], st.p + st.width)) == After(cs, piece, p, out, i + 1)
  {
    hide Pow2, Width, Widened, Cleared, CodesBits, Colours, Made, StandsFor, Entry;
    var strings, clear := piece.strings, Pow2(cs);
    var st := After(cs, piece, p, out, i);
    var next := Next(st, strings[i], st.p + st.width);
    EntryIs(cs, piece, p, out, i);
    OneMore(cs, piece, i);
    assert out + Colours(strings[..i]) + strings[i] == out + (Colours(strings[..i]) + strings[i]);
    OnlyWidth(next);
    if i == 0 {
      EntriesFit(cs);
      NoneMade(strings, Cleared(clear));
      NotWidened(next);
    } else {
      DictNext(Cleared(clear), strings, i);
      WidthNext(cs, next, |st.dict|);
    }
  }

  lemma NoneMade(strings: seq<seq<byte>>, roots: seq<seq<byte>>)
    requires 0 < |strings| && forall k | 0 <= k < |strings| :: strings[k] != []
    ensures roots + [] == roots + Made(strings, 0) == roots
  {
  }

  lemma OnlyWidth(st: State)
    ensures Widened(st) == st.(width := Widened(st).width)
  {
  }

  lemma OneString(data: seq<byte>, cs: nat, piece: Piece, p: nat, out: seq<byte>, i: nat)
    requires 2 <= cs <= 11 && PieceOk(cs, piece) && i < |piece.strings| && Stands(data, p, CodesBits(cs, piece.codes[..i + 1]))
    ensures After(cs, piece, p, out, i).width >= 1 && After(cs, piece, p, out, i + 1).width >= 1
    ensures Run(data, cs, After(cs, piece, p, out, i)) == Run(data, cs, After(cs, piece, p, out, i + 1))
  {
    var codes := piece.codes;
    var st := After(cs, piece, p, out, i);
    assert codes[..i + 1][..i] == codes[..i];
    var last := LowBitsOf(codes[i], st.width);
    assert CodesBits(cs, codes[..i + 1]) == CodesBits(cs, codes[..i]) + last;
    EntryIs(cs, piece, p, out, i);
    AfterNext(cs, piece, p, out, i);
    hide Pow2, Width, CodesBits, Run, Deflate.ReadBits, LowBitsOf, DeflateWriter.Stands, Entry, Made, Cleared, Colours;
    StandsBoth(data, p, CodesBits(cs, codes[..i]), last);
    DeflateWriter.FieldRead(data, st.p, codes[i], st.width);
    RunString(data, cs, st, codes[i]);
  }

  lemma {:induction false} PieceRead(data: seq<byte>, cs: nat, piece: Piece, p: nat, out: seq<byte>, i: nat)
    requires 2 <= cs <= 11 && PieceOk(cs, piece) && i <= |piece.strings| && Stands(data, p, CodesBits(cs, piece.codes[..i]))
    ensures After(cs, piece, p, out, 0).width >= 1 && After(cs, piece, p, out, i).width >= 1
    ensures Run(data, cs, After(cs, piece, p, out, 0)) == Run(data, cs, After(cs, piece, p, out, i))
  {
    hide Pow2, CodesBits, Run, After, Stands, PieceOk;
    if i == 0 {
      assert After(cs, piece, p, out, 0).width >= 1 by { AfterStart(cs, piece, p, out); }
    } else {
      CodesCount(cs, piece);
      CodesStand(data, cs, piece.codes, p, i - 1);
      PieceRead(data, cs, piece, p, out, i - 1);
      OneString(data, cs, piece, p, out, i - 1);
    }
  }

  lemma CodesStand(data: seq<byte>, cs: nat, codes: seq<nat>, p: nat, i: nat)
    requires i < |codes| && Stands(data, p, CodesBits(cs, codes[..i + 1]))
    ensures Stands(data, p, CodesBits(cs, codes[..i]))
  {
    assert codes[..i + 1][..i] == codes[..i];
    var last := LowBitsOf(codes[i], Width(cs + 1, Entries(Pow2(cs), i)));
    assert CodesBits(cs, codes[..i + 1]) == CodesBits(cs, codes[..i]) + last;
    hide Pow2, Width, CodesBits, LowBitsOf, Stands;
    StandsBoth(data, p, CodesBits(cs, codes[..i]), last);
  }

  // ----- whole images

  /** Each piece behind a clear code, and the end code after the last. */
  ghost function ImageBits(cs: nat, pieces: seq<Piece>, w: nat): (r: seq<nat>)
    requires forall k | 0 <= k < |pieces| :: PieceOk(cs, pieces[k])
    ensures AreBits(r)
  {
    var clear := Pow2(cs);
    if pieces == [] then LowBitsOf(clear + 1, w)
    else
      LowBitsOf(clear, w) + CodesBits(cs, pieces[0].codes) +
      ImageBits(cs, pieces[1..], Width(cs + 1, Entries(clear, |pieces[0].codes|)))
  }

  function ImageColours(pieces: seq<Piece>): seq<byte> {
    if pieces == [] then [] else Colours(pieces[0].strings) + ImageColours(pieces[1..])
  }

  lemma SpecialsFit(cs: nat, w: nat)
    requires 2 <= cs && cs + 1 <= w
    ensures Pow2(cs) + 1 < Pow2(w)
  {
    Pow2Mono(2, cs);
    assert Pow2(2) == 4;
    Pow2Mono(cs + 1, w);
  }

  lemma FirstPiece(data: seq<byte>, cs: nat, piece: Piece, st: State, rest: seq<nat>)
    requires 2 <= cs <= 11 && PieceOk(cs, piece) && cs + 1 <= st.width
    requires Stands(data, st.p, LowBitsOf(Pow2(cs), st.width) + CodesBits(cs, piece.codes) + rest)
    ensures var next := After(cs, piece, st.p + st.width, st.out, |piece.strings|);
            && next.width == Width(cs + 1, Entries(Pow2(cs), |piece.codes|)) >= cs + 1 && next.out == st.out + Colours(piece.strings)
            && Run(data, cs, st) == Run(data, cs, next) && Stands(data, next.p, rest)
  {
    hide Pow2, Run, Deflate.ReadBits, LowBitsOf, CodesBits, DeflateWriter.Stands, Cleared, Width, After, PieceOk, Colours;
    var clear, w, m := Pow2(cs), st.width, |piece.codes|;
    SpecialsFit(cs, w);
    StandsBoth(data, st.p, LowBitsOf(clear, w) + CodesBits(cs, piece.codes), rest);
    StandsBoth(data, st.p, LowBitsOf(clear, w), CodesBits(cs, piece.codes));
    DeflateWriter.FieldRead(data, st.p, clear, w);
    RunSpecial(data, cs, st);
    AfterStart(cs, piece, st.p + w, st.out);
    AfterEnd(cs, piece, st.p + w, st.out);
    PieceRead(data, cs, piece, st.p + w, st.out, m);
  }

  lemma AfterEnd(cs: nat, piece: Piece, p: nat, out: seq<byte>)
    requires 2 <= cs <= 11 && PieceOk(cs, piece)
    ensures var m := |piece.codes|;
            var next := After(cs, piece, p, out, |piece.strings|);
            && m == |piece.strings| && piece.codes[..m] == piece.codes
            && next.width == Width(cs + 1, Entries(Pow2(cs), m)) >= cs + 1
            && next.out == out + Colours(piece.strings) && next.p == p + |CodesBits(cs, piece.codes)|
  {
    hide Pow2, CodesBits, Width, Colours, Made, StandsFor, Cleared;
    var m := |piece.codes|;
    assert piece.codes[..m] == piece.codes && piece.strings[..m] == piece.strings;
  }

  /** Every image, cut into strings in any way that codes allow, is decoded to its colours. */
  lemma {:induction false} ImageRead(data: seq<byte>, cs: nat, pieces: seq<Piece>, st: State)
    requires 2 <= cs <= 11 && (forall k | 0 <= k < |pieces| :: PieceOk(cs, pieces[k])) && cs + 1 <= st.width
    requires Stands(data, st.p, ImageBits(cs, pieces, st.width))
    ensures Run(data, cs, st) == Result(true, st.out + ImageColours(pieces))
    decreases |pieces|
  {
    hide Pow2, Run, Deflate.ReadBits, LowBitsOf, CodesBits, DeflateWriter.Stands, PieceOk, Width, After, Colours;
    if pieces == [] {
      SpecialsFit(cs, st.width);
      DeflateWriter.FieldRead(data, st.p, Pow2(cs) + 1, st.width);
      RunSpecial(data, cs, st);
      assert st.out + ImageColours(pieces) == st.out;
    } else {
      var piece, more := pieces[0], pieces[1..];
      CodesCount(cs, piece);
      FirstPiece(data, cs, piece, st, ImageBits(cs, more, Width(cs + 1, Entries(Pow2(cs), |piece.codes|))));
      ImageRead(data, cs, more, After(cs, piece, st.p + st.width, st.out, |piece.strings|));
      assert st.out + Colours(piece.strings) + ImageColours(more) == st.out + (Colours(piece.strings) + ImageColours(more));
    }
  }

  lemma CodesCount(cs: nat, piece: Piece)
    requires PieceOk(cs, piece)
    ensures |piece.codes| == |piece.strings|
  {
  }

  lemma AfterStart(cs: nat, piece: Piece, p: nat, out: seq<byte>)
    requires 2 <= cs <= 11 && PieceOk(cs, piece)
    ensures After(cs, piece, p, out, 0) == State(Cleared(Pow2(cs)), None, true, cs + 1, p, out)
  {
    EntriesFit(cs);
    hide Width, Pow2, Cleared;
    assert piece.codes[..0] == [] && piece.strings[..0] == [];
    assert Cleared(Pow2(cs)) + [] == Cleared(Pow2(cs)) && out + [] == out;
  }

  /** The round trip of the whole image data: code size, sub-blocks, codes. */
  lemma ImageBack(s: seq<byte>, cs: nat, pieces: seq<Piece>, blocks: seq<seq<byte>>, post: seq<byte>)
    requires 2 <= cs <= 11 && (forall k | 0 <= k < |pieces| :: PieceOk(cs, pieces[k]))
    requires (forall i | 0 <= i < |blocks| :: 0 < |blocks[i]| < 256) && Joined(blocks) == LowPacked(ImageBits(cs, pieces, cs + 1))
    requires s == [cs] + Blocked(blocks) + post
    ensures GifLzw.Decode(DataFrom(s, 1, 0), At(s, 0)) == Result(true, ImageColours(pieces))
  {
    hide Run, DataFrom, ImageBits, PieceOk, DeflateWriter.Stands, Cleared;
    var x := Blocked(blocks);
    assert Lies(s, 1, x);
    BlocksRead(s, 1, blocks);
    var bits := ImageBits(cs, pieces, cs + 1);
    var data := LowPacked(bits);
    DeflateWriter.PackedStands(bits);
    var st := State(Cleared(Pow2(cs)), None, false, cs + 1, 0, []);
    ImageRead(data, cs, pieces, st);
    assert [] + ImageColours(pieces) == ImageColours(pieces);
  }
}
