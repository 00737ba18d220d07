/** stbi__process_gif_raster and stbi__out_gif_code: LZW with linked prefixes, written straight to the image. */
module GifDecoder {
  import opened Bits
  import opened Common
  import Deflate
  import opened DeflateFacts
  import opened GifLzw
  import opened GifRaster
  import GifStandard

  class Gif {
    const prefix: array<int>
    const first: array<byte>
    const suffix: array<byte>
    const raster: Raster
    // The source keeps these in local variables.
    var avail: nat
    var oldcode: int
    var codesize: nat
    var awaitClear: bool          // no clear code so far
    ghost var st: State          // the reference decoder's state

    constructor (raster: Raster)
      ensures Shape() && this.raster == raster && fresh(prefix) && fresh(first) && fresh(suffix)
    {
      prefix := new int[MAX_CODES];
      first := new byte[MAX_CODES];
      suffix := new byte[MAX_CODES];
      this.raster := raster;
      avail, oldcode, codesize, awaitClear := 0, -1, 0, true;
      st := State([], None, false, 1, 0, []);
    }

    ghost predicate Shape() {
      prefix.Length == first.Length == suffix.Length == MAX_CODES && first != suffix
    }

    ghost predicate Table(clear: nat, dict: seq<seq<byte>>)
      reads prefix, first, suffix
    {
      Shape() && Holds(clear, dict, prefix[..], first[..], suffix[..])
    }

    /** Emits the string of a code, prefix first. The links of a usable code go down, so the recursion ends. */
    method OutCode(code: nat, ghost clear: nat, ghost dict: seq<seq<byte>>)
      requires Table(clear, dict) && IsString(clear, |dict|, code) && raster.Valid()
      modifies raster, raster.out, raster.history
      ensures raster.Valid() && raster.emitted == old(raster.emitted) + dict[code]
      decreases code
    {
      if prefix[code] >= 0 {
        OutCode(prefix[code], clear, dict);
      }
      raster.PutPixel(suffix[code]);
    }

    /** The single-symbol strings are in place. */
    ghost predicate RootsThere(clear: nat)
      reads prefix, first, suffix
    {
      Shape() && clear + 2 <= MAX_CODES &&
      forall c | 0 <= c < clear :: prefix[c] == -1 && first[c] == c % 256 && suffix[c] == c % 256
    }

    /** The decoder's variables and table stand for the reference state. */
    ghost predicate Follows(clear: nat)
      reads this, prefix, first, suffix, raster
    {
      && RootsThere(clear) && Table(clear, st.dict)
      && avail == |st.dict| && codesize == st.width && awaitClear == !st.started && st.out == raster.emitted
      && (if oldcode >= 0 then IsString(clear, avail, oldcode) && st.prev == Some(st.dict[oldcode]) else st.prev == None)
      && 1 <= codesize <= 13 && clear + 2 <= avail
    }

    /** A new entry: the last string and the first symbol of the present one. When the present code is the entry
        being made, its first symbol has just been stored, so the source's extra test is not needed. */
    method AddEntry(clear: nat, code: nat, ghost dict: seq<seq<byte>>, ghost dict': seq<seq<byte>>)
      requires RootsThere(clear) && Table(clear, dict) && avail == |dict| < MAX_CODES
      requires oldcode >= 0 && IsString(clear, avail, oldcode) && code <= avail && (code == avail || IsString(clear, avail, code))
      requires dict' == dict + [dict[oldcode] + [if code == avail then dict[oldcode][0] else dict[code][0]]]
      modifies this`avail, prefix, first, suffix
      ensures RootsThere(clear) && Table(clear, dict') && avail == old(avail) + 1
    {
      ghost var pre, fst, suf := prefix[..], first[..], suffix[..];
      ghost var x: byte := if code == avail then dict[oldcode][0] else dict[code][0];
      HoldsAdded(clear, dict, pre, fst, suf, oldcode, x);
      var p := avail;
      avail := avail + 1;
      prefix[p] := oldcode;
      first[p] := first[oldcode];
      if code == avail { assert false; }
      suffix[p] := first[code];
      assert prefix[..] == pre[p := oldcode] && first[..] == fst[p := fst[oldcode]] && suffix[..] == suf[p := x];
    }

    /** One more bit per code when the dictionary fills its width. */
    method Widen(clear: nat)
      requires clear >= 1 && Follows(clear)
      modifies this`codesize, this`st
      ensures Follows(clear) && st == Widened(old(st))
    {
      hide Holds, Pow2, Low, And;
      AndMask(avail, codesize);
      if And(avail, Pow2(codesize) - 1) == 0 && avail <= 0x0FFF {
        WidthBound(avail, codesize);
        codesize := codesize + 1;
      }
      st := Widened(st);
    }

    /** A code that stands for a string, or should. */
    method StringCode(ghost data: seq<byte>, cs: nat, code: nat) returns (ok: bool)
      requires cs <= 12 && Follows(Pow2(cs)) && raster.Valid() && code < MAX_CODES
      requires st.p + st.width <= 8 * |data| && code == Deflate.ReadBits(data, st.p, st.width)
      requires code != Pow2(cs) && code != Pow2(cs) + 1
      modifies this, prefix, first, suffix, raster, raster.out, raster.history
      ensures raster.Valid()
      ensures ok ==> Follows(Pow2(cs)) && st.p == old(st.p + st.width) && Run(data, cs, old(st)) == Run(data, cs, st)
      ensures !ok ==> Run(data, cs, old(st)) == Result(false, raster.emitted)
    {
      hide Pow2, Deflate.ReadBits, StringOf, Run, Widened, Entry, Next, Holds, Raster.Valid;
      var clear := Pow2(cs);
      RunString(data, cs, st, code);
      EntryFacts(clear, st, code, oldcode, prefix[..], first[..], suffix[..]);
      if code > avail { return false; }
      if awaitClear { return false; }
      ghost var e := Entry(clear, st, code);
      ghost var st1;
      if oldcode >= 0 {
        if avail + 1 > MAX_CODES { return false; }
        st1 := Next(st, e.value, st.p + st.width);
        AddEntry(clear, code, st.dict, st1.dict);
      } else {
        if code == avail { return false; }
        st1 := Next(st, e.value, st.p + st.width);
      }
      OutCode(code, clear, st1.dict);
      st := st1;
      oldcode := code;
      Widen(clear);
      return true;
    }

    /** A clear code: the dictionary starts again from the single symbols. */
    method ClearCode(cs: nat)
      requires cs <= 12 && RootsThere(Pow2(cs)) && st.out == raster.emitted
      modifies this
      ensures Follows(Pow2(cs)) && st == State(Cleared(Pow2(cs)), None, true, cs + 1, old(st.p + st.width), old(st.out))
    {
      hide Pow2, StringOf;
      codesize := cs + 1;
      avail := Pow2(cs) + 2;
      oldcode := -1;
      awaitClear := false;
      HoldsCleared(Pow2(cs), prefix[..], first[..], suffix[..]);
      st := State(Cleared(Pow2(cs)), None, true, cs + 1, st.p + st.width, st.out);
    }

    /** One code, taken from the low bits of the buffer. Continues, or ends with success or failure. */
    method HandleCode(ghost data: seq<byte>, cs: nat, code: nat) returns (more: bool, ok: bool)
      requires cs <= 12 && Follows(Pow2(cs)) && raster.Valid() && code < MAX_CODES
      requires st.p + st.width <= 8 * |data| && code == Deflate.ReadBits(data, st.p, st.width)
      modifies this, prefix, first, suffix, raster, raster.out, raster.history
      ensures raster.Valid()
      ensures more ==> Follows(Pow2(cs)) && st.p == old(st.p + st.width) && Run(data, cs, old(st)) == Run(data, cs, st)
      ensures !more ==> Run(data, cs, old(st)) == Result(ok, raster.emitted)
    {
      hide Pow2, Deflate.ReadBits, StringOf, Run, Cleared, Holds;
      RunSpecial(data, cs, st);
      if code == Pow2(cs) {
        ClearCode(cs);
        return true, true;
      } else if code == Pow2(cs) + 1 {
        return false, true;
      } else {
        ok := StringCode(data, cs, code);
        more := ok;
      }
    }

    method InitRoots(clear: nat)
      requires Shape() && clear + 2 <= MAX_CODES
      modifies prefix, first, suffix
      ensures RootsThere(clear)
    {
      for i := 0 to clear
        invariant forall c | 0 <= c < i :: prefix[c] == -1 && first[c] == c % 256 && suffix[c] == c % 256
      {
        prefix[i] := -1;
        first[i] := i % 256;
        suffix[i] := i % 256;
      }
    }

    /** stbi__process_gif_raster on the bytes s: the symbols written to the image are those of the reference decoder,
        and those of the standard exactly if the table does not overflow. */
    method ProcessRaster(s: seq<byte>) returns (ok: bool)
      requires Shape() && raster.Valid() && raster.emitted == []
      modifies this, prefix, first, suffix, raster, raster.out, raster.history
      ensures raster.Valid()
      ensures Result(ok, raster.emitted) == Decode(DataFrom(s, 1, 0), At(s, 0))
      ensures 2 <= At(s, 0) <= 11 ==>
        (Result(ok, raster.emitted) == GifStandard.Standard(DataFrom(s, 1, 0), At(s, 0)) <==>
         GifStandard.LongestRun(DataFrom(s, 1, 0), At(s, 0)) <= GifStandard.Limit(At(s, 0)))
    {
      hide *;
      ok := DecodeRaster(s);
      if 2 <= At(s, 0) <= 11 { GifStandard.AgreesExactly(DataFrom(s, 1, 0), At(s, 0)); }
    }

    method DecodeRaster(s: seq<byte>) returns (ok: bool)
      requires Shape() && raster.Valid() && raster.emitted == []
      modifies this, prefix, first, suffix, raster, raster.out, raster.history
      ensures raster.Valid()
      ensures Result(ok, raster.emitted) == Decode(DataFrom(s, 1, 0), At(s, 0))
    {
      hide Pow2, Deflate.ReadBits, StringOf, Run, Cleared, Holds, And, Or, Shl, Shr, DataFrom, Raster.Valid;
      var cs := At(s, 0);
      if cs > 12 { return false; }
      PowerOfSize(cs);
      InitRoots(Pow2(cs));
      ghost var data := DataFrom(s, 1, 0);
      st := State([], None, false, 0, 0, []);
      ClearCode(cs);
      awaitClear := true;
      st := st.(started := false);
      ghost var st0 := st;
      var pos, len: nat, bits, validBits: nat := 1, 0, 0, 0;
      ghost var fed := 0;
      ReadEmpty(data, 0);
      assert data[0..] == data;
      while true
        invariant Follows(Pow2(cs)) && raster.Valid() && Run(data, cs, st) == Run(data, cs, st0)
        invariant fed <= |data| && data[fed..] == DataFrom(s, pos, len) && len <= 255
        invariant st.p + validBits == 8 * fed && validBits <= 20 && bits == Deflate.ReadBits(data, st.p, validBits)
        decreases 8 * |data| - 8 * fed, validBits
      {
        if validBits < codesize {
          RunSpecial(data, cs, st);
          var more, b;
          more, b, pos, len := FetchByte(s, pos, len);
          if !more { return true; }
          bits := Feed(data, bits, validBits, b, st.p, fed);
          validBits := validBits + 8;
          fed := fed + 1;
        } else {
          var n := codesize;
          var code := Take(data, bits, n, validBits, st.p);
          bits := Shr(bits, n);
          validBits := validBits - n;
          var more;
          more, ok := HandleCode(data, cs, code);
          if !more { return; }
        }
      }
    }
  }

  lemma WidthBound(x: nat, n: nat)
    requires 0 < x <= 0x0FFF && Low(x, n) == 0
    ensures n <= 11
  {
    if n >= 12 {
      Pow2Table();
      Pow2Mono(12, n);
      LowSmall(x, n);
    }
  }

  lemma PowerOfSize(cs: nat)
    requires cs <= 12
    ensures 1 <= Pow2(cs) && Pow2(cs) + 2 <= MAX_CODES
  {
    Pow2Table();
    Pow2Mono(cs, 12);
  }

  /** The next byte of data, from this sub-block or the next; none after the empty sub-block. */
  method FetchByte(s: seq<byte>, pos: nat, len: nat) returns (more: bool, b: byte, pos': nat, len': nat)
    requires len <= 255
    ensures len' <= 255
    ensures DataFrom(s, pos, len) == if more then [b] + DataFrom(s, pos', len') else []
  {
    DataNext(s, pos, len);
    pos', len', b := pos, len, 0;
    if len' == 0 {
      len' := At(s, pos');
      pos' := pos' + 1;
      if len' == 0 { return false, b, pos', len'; }
      DataNext(s, pos', len');
    }
    len' := len' - 1;
    b := At(s, pos');
    pos' := pos' + 1;
    more := true;
  }

  /** bits |= b << validBits: one more byte of data above the bits already there. */
  method Feed(ghost data: seq<byte>, bits: nat, validBits: nat, b: byte, ghost p: nat, ghost fed: nat) returns (bits': nat)
    requires bits == Deflate.ReadBits(data, p, validBits) && p + validBits == 8 * fed && fed < |data| && b == data[fed]
    ensures bits' == Deflate.ReadBits(data, p, validBits + 8)
  {
    hide Pow2, Deflate.ReadBits, Or, Shl;
    ReadByte(data, fed);
    ReadSplit(data, p, validBits, 8);
    OrShifted(bits, b, validBits);
    return Or(bits, Shl(b, validBits));
  }

  /** bits & codemask: the next code. */
  method Take(ghost data: seq<byte>, bits: nat, n: nat, ghost validBits: nat, ghost p: nat) returns (code: nat)
    requires n <= 13 && n <= validBits && bits == Deflate.ReadBits(data, p, validBits)
    ensures code == Deflate.ReadBits(data, p, n) < MAX_CODES
    ensures Shr(bits, n) == Deflate.ReadBits(data, p + n, validBits - n)
  {
    Pow2Table();
    Pow2Mono(n, 13);
    hide Pow2, Deflate.ReadBits, And, Low, Shr;
    AndMask(bits, n);
    ReadLow(data, p, n, validBits);
    ReadShr(data, p, n, validBits);
    return And(bits, Pow2(n) - 1);
  }
}
