/** Writing entropy-coded data, and that the reader gives back what was written. */
module JpegStream {
  import opened Bits
  import opened BitStrings
  import opened Common
  import opened JpegCodes
  import opened JpegTables
  import opened JpegDecode
  import opened JpegReader

  // ----- stuffing

  /** A byte as it is written: behind 0xff, and any fill bytes, stands a zero. */
  function Written(b: byte, fill: nat): seq<byte> {
    if b == 0xff then Repeat(0xff, fill + 1) + [0] else [b]
  }

  function Stuffed(data: seq<byte>, fills: seq<nat>): seq<byte>
    requires |fills| == |data|
  {
    if data == [] then [] else Written(data[0], fills[0]) + Stuffed(data[1..], fills[1..])
  }

  /** What ends a segment: the end of the input, or a marker with anything behind it. */
  datatype Tail = EndOfInput | Marker(fill: nat, code: byte, post: seq<byte>) {
    predicate Valid() { Marker? ==> code != 0 && code != 0xff }

    function Bytes(): seq<byte> {
      if EndOfInput? then [] else Repeat(0xff, fill + 1) + [code] + post
    }
  }

  lemma {:induction false} PastFillSuffix(pre: seq<byte>, x: seq<byte>, p: nat)
    requires p <= |x|
    ensures PastFill(pre + x, |pre| + p) == |pre| + PastFill(x, p)
    decreases |x| - p
  {
    if p < |x| && x[p] == 0xff {
      PastFillSuffix(pre, x, p + 1);
    } else {
    }
  }

  /** One byte of the segment. */
  lemma EntropyStep(x: seq<byte>, p: nat)
    requires p < |x|
    ensures x[p] != 0xff ==> Entropy(x, p) == [x[p]] + Entropy(x, p + 1)
    ensures var q := PastFill(x, p + 1);
            x[p] == 0xff ==> Entropy(x, p) == if q == |x| then [0xff] else if x[q] == 0 then [0xff] + Entropy(x, q + 1) else []
  {
    hide PastFill;
  }

  lemma EntropyEnd(x: seq<byte>)
    ensures Entropy(x, |x|) == []
  {
  }

  /** What was before does not matter. */
  lemma {:induction false} EntropySuffix(pre: seq<byte>, x: seq<byte>, p: nat)
    requires p <= |x|
    ensures Entropy(pre + x, |pre| + p) == Entropy(x, p)
    decreases |x| - p
  {
    hide Entropy, PastFill;
    var y := pre + x;
    assert forall k | 0 <= k < |x| :: y[|pre| + k] == x[k];
    if p == |x| {
      EntropyEnd(x);
      EntropyEnd(y);
    } else {
      EntropyStep(x, p);
      EntropyStep(y, |pre| + p);
      var q := PastFill(x, p + 1);
      PastFillSuffix(pre, x, p + 1);
      EntropySuffix(pre, x, p + 1);
      if q < |x| { EntropySuffix(pre, x, q + 1); }
    }
  }

  lemma {:induction false} FillIs(x: seq<byte>, p: nat, n: nat)
    requires p + n < |x| && x[p + n] != 0xff && forall k | p <= k < p + n :: x[k] == 0xff
    ensures PastFill(x, p) == p + n
    decreases n
  {
    if n == 0 {
    } else {
      FillIs(x, p + 1, n - 1);
    }
  }

  lemma EntropyByte(b: byte, fill: nat, rest: seq<byte>)
    ensures Entropy(Written(b, fill) + rest, 0) == [b] + Entropy(rest, 0)
  {
    var w := Written(b, fill);
    var x := w + rest;
    EntropySuffix(w, rest, 0);
    if b == 0xff { FillIs(x, 1, fill); }
  }

  lemma EntropyTail(tail: Tail)
    requires tail.Valid()
    ensures Entropy(tail.Bytes(), 0) == []
  {
    if tail.Marker? { FillIs(tail.Bytes(), 1, tail.fill); }
  }

  lemma StuffedCons(data: seq<byte>, fills: seq<nat>, tail: seq<byte>)
    requires |fills| == |data| > 0
    ensures Stuffed(data, fills) + tail == Written(data[0], fills[0]) + (Stuffed(data[1..], fills[1..]) + tail)
  {
  }

  lemma {:induction false} EntropyAtStart(data: seq<byte>, fills: seq<nat>, tail: Tail)
    requires |fills| == |data| && tail.Valid()
    ensures Entropy(Stuffed(data, fills) + tail.Bytes(), 0) == data
    decreases |data|
  {
    hide Entropy, Written, Tail.Bytes;
    if data == [] {
      assert Stuffed(data, fills) + tail.Bytes() == tail.Bytes();
      EntropyTail(tail);
    } else {
      var rest := Stuffed(data[1..], fills[1..]) + tail.Bytes();
      StuffedCons(data, fills, tail.Bytes());
      EntropyByte(data[0], fills[0], rest);
      EntropyAtStart(data[1..], fills[1..], tail);
      assert data == [data[0]] + data[1..];
    }
  }

  /** Stuffing is undone, wherever the segment lies and however it ends. */
  lemma EntropyOfStuffed(pre: seq<byte>, data: seq<byte>, fills: seq<nat>, tail: Tail)
    requires |fills| == |data| && tail.Valid()
    ensures Entropy(pre + Stuffed(data, fills) + tail.Bytes(), |pre|) == data
  {
    hide Entropy, Stuffed, Tail.Bytes;
    var x := Stuffed(data, fills) + tail.Bytes();
    assert pre + Stuffed(data, fills) + tail.Bytes() == pre + x;
    EntropySuffix(pre, x, 0);
    EntropyAtStart(data, fills, tail);
  }

  // ----- codes, packed with ones behind the last (section F.1.2.3)

  predicate AreSymbols(s: seq<nat>, symbols: seq<nat>) { forall i | 0 <= i < |symbols| :: symbols[i] < |s| }

  /** The codes of Annex C, one behind the other. */
  function SymbolBits(s: seq<nat>, symbols: seq<nat>): (r: seq<nat>)
    requires Sizes(s) && AreSymbols(s, symbols)
    ensures AreBits(r)
  {
    if symbols == [] then [] else BitsOf(Code(s, symbols[0]), s[symbols[0]]) + SymbolBits(s, symbols[1..])
  }

  /** These bits come next, before the segment ends. */
  ghost predicate Holds(a: Source, bits: seq<nat>) {
    a.Valid() && a.Left() >= |bits| && forall k | 0 <= k < |bits| :: a.Future(k) == bits[k]
  }

  lemma {:induction false} AheadBits(a: Source, v: nat, n: nat)
    requires a.Valid() && v < Pow2(n) && forall k | 0 <= k < n :: a.Future(k) == BitsOf(v, n)[k]
    ensures a.Ahead(0, n) == v
  {
    if n == 0 {
    } else {
      assert forall k | 0 <= k < n - 1 :: BitsOf(v, n)[k] == BitsOf(v / 2, n - 1)[k];
      AheadBits(a, v / 2, n - 1);
    }
  }

  /** The first of the symbols comes next, and nothing else does. */
  lemma FirstIsNext(a: Source, s: seq<nat>, symbols: seq<nat>)
    requires Sizes(s) && Fits(s) && AreSymbols(s, symbols) && symbols != [] && Holds(a, SymbolBits(s, symbols))
    ensures a.Next(s, symbols[0]) && a.Left() >= s[symbols[0]]
  {
    var i := symbols[0];
    var code := Code(s, i);
    var bits := BitsOf(code, s[i]) + SymbolBits(s, symbols[1..]);
    assert bits == SymbolBits(s, symbols);
    assert code < Pow2(s[i]) by { CodesFit(s, i); }
    hide Source.Valid, Source.Future, SymbolBits, BitsOf, Code, Pow2;
    forall k | 0 <= k < s[i] ensures a.Future(k) == BitsOf(code, s[i])[k] {
      assert bits[k] == BitsOf(code, s[i])[k];
    }
    AheadBits(a, code, s[i]);
  }

  lemma CodesFit(s: seq<nat>, i: nat)
    requires Sizes(s) && Fits(s) && i < |s|
    ensures Code(s, i) < Pow2(s[i])
  {
    hide Code, Start, Pow2;
    CodeFits(s, i);
    StartMono(s, i + 1, |s|);
  }

  lemma RestHolds(b: Source, a: Source, s: seq<nat>, symbols: seq<nat>)
    requires Sizes(s) && AreSymbols(s, symbols) && symbols != [] && Holds(b, SymbolBits(s, symbols))
    requires Read(b, a, s[symbols[0]]) && a.Left() >= b.Left() - s[symbols[0]]
    ensures Holds(a, SymbolBits(s, symbols[1..]))
  {
    var n := s[symbols[0]];
    var bits, rest := SymbolBits(s, symbols), SymbolBits(s, symbols[1..]);
    assert bits == BitsOf(Code(s, symbols[0]), n) + rest;
    hide Source.Valid, Source.Future, SymbolBits, BitsOf, Code;
    forall k | 0 <= k < |rest| ensures a.Future(k) == rest[k] {
      assert a.Future(k) == b.Future(k + n);
      assert bits[k + n] == rest[k];
    }
  }

  lemma StartHolds(bits: seq<nat>)
    requires AreBits(bits)
    ensures Holds(Source(0, 0, Packed(bits, 1)), bits)
  {
    LowSmall(0, 32);
    var a := Source(0, 0, Packed(bits, 1));
    hide RowBit, Packed, Pow2, Low;
    forall k | 0 <= k < |bits| ensures a.Future(k) == bits[k] { PackedBit(bits, 1, k); }
    if bits != [] { PackedBit(bits, 1, 0); }
  }

  /** Symbols that were written with their codes, packed into bytes and stuffed are read back, whatever ends the segment. */
  method ReadBack(h: JHuffman, ghost s: seq<nat>, input: seq<byte>, count: nat, ghost symbols: seq<nat>, ghost fills: seq<nat>, ghost tail: Tail)
    returns (values: seq<int>)
    requires h.Arrays() && h.Tables(s) && Sizes(s) && AllVisible(s) && AreSymbols(s, symbols) && count == |symbols| && tail.Valid()
    requires |fills| == |Packed(SymbolBits(s, symbols), 1)|
    requires input == Stuffed(Packed(SymbolBits(s, symbols), 1), fills) + tail.Bytes()
    ensures |s| <= 256 && |values| == count && forall i | 0 <= i < count :: values[i] == h.values[symbols[i]]
  {
    hide Source.Valid, Source.Future, Source.Next, SymbolBits, Packed, Stuffed, Entropy, Holds, Read, Code;
    var reader := new Reader(input);
    ghost var bits := SymbolBits(s, symbols);
    EntropyOfStuffed([], Packed(bits, 1), fills, tail);
    assert [] + Stuffed(Packed(bits, 1), fills) + tail.Bytes() == input;
    StartHolds(bits);
    values := [];
    assert symbols[0..] == symbols;
    for k := 0 to count
      invariant reader.Valid() && |values| == k && Holds(reader.Now(), SymbolBits(s, symbols[k..]))
      invariant forall i | 0 <= i < k :: values[i] == h.values[symbols[i]]
    {
      ghost var before := reader.Now();
      ghost var ahead := symbols[k..];
      FirstIsNext(before, s, ahead);
      var r;
      ghost var i, n;
      r, i, n := reader.HuffDecode(h, s);
      if r >= 0 {
        NextOnce(before, s, i, ahead[0]);
        RestHolds(before, reader.Now(), s, ahead);
        assert ahead[1..] == symbols[k + 1..];
      }
      values := values + [r];
    }
  }
}
