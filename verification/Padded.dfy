/** Which streams stb_image's decoder accepts. Its bit buffer is filled whole bytes at a time, with zeros behind the
    input, and once, when a symbol is wanted at the end of the input, sixteen zero bits are inserted. Where decoding
    fails depends on this. Here the reference decoder carries along how much has been loaded and where the sixteen
    bits went. */
module Padded {
  import opened Bits
  import opened Canonical
  import opened Common
  import opened Deflate
  import opened DeflateFacts

  /** Bits taken, bytes loaded into the bit buffer, and the bit position at which the sixteen bits were inserted. */
  datatype Cursor = Cursor(p: nat, loaded: nat, mark: Option<nat>)

  /** Takes n bits; a buffer that holds too few is filled to more than 24. */
  function Take(c: Cursor, n: nat): (r: Cursor)
    ensures r.p == c.p + n
  {
    if 8 * c.loaded < c.p + n then Cursor(c.p + n, c.p / 8 + 4, c.mark) else c.(p := c.p + n)
  }

  /** Sixteen bits to decode a symbol from: at the end of the input they are inserted, once. */
  function Ready(s: seq<byte>, c: Cursor): Option<Cursor> {
    if 8 * c.loaded >= c.p + 16 then Some(c)
    else if c.loaded < |s| then Some(c.(loaded := c.p / 8 + 4))
    else if c.mark.Some? then None
    else Some(Cursor(c.p, c.loaded + 2, Some(8 * c.loaded)))
  }

  /** The check at the end of a block: fewer than sixteen bits left after an insertion are too few. */
  predicate Short(c: Cursor) {
    c.mark.Some? && 8 * c.loaded < c.p + 16
  }

  // ----- the decoder

  datatype Coded = NoCode | Coded(p: Cursor, value: nat)

  function Code(s: seq<byte>, lens: seq<nat>, c: Cursor): (r: Coded)
    ensures r.Coded? ==> r.value < |lens| && r.p.p > c.p
  {
    match Ready(s, c)
    case None => NoCode
    case Some(c1) =>
      match Decode(s, lens, c.p)
      case None => NoCode
      case Some(sym) => Coded(c1.(p := c.p + sym.length), sym.value)
  }

  datatype Match = NoMatch | Pair(p: Cursor, len: nat, dist: nat)

  function ReadMatch(s: seq<byte>, dd: seq<nat>, k: nat, c: Cursor): (r: Match)
    requires k < 29
    ensures r.Pair? ==> r.p.p >= c.p && r.len >= 3 && r.dist >= 1
  {
    match Code(s, dd, Take(c, LengthExtra(k)))
    case NoCode => NoMatch
    case Coded(c1, value) =>
      if value >= 30 then NoMatch
      else
        Pair(Take(c1, DistanceExtra(value)), LengthBase(k) + ReadBits(s, c.p, LengthExtra(k)),
              DistanceBase(value) + ReadBits(s, c1.p, DistanceExtra(value)))
  }

  datatype Step = Stuck | Ended(p: Cursor) | Put(p: Cursor, out: seq<byte>)

  function MatchStep(s: seq<byte>, dd: seq<nat>, k: nat, c: Cursor, out: seq<byte>): (r: Step)
    requires k < 29
    ensures r.Stuck? || (r.Put? && r.p.p >= c.p && |r.out| > |out|)
  {
    match ReadMatch(s, dd, k, c)
    case NoMatch => Stuck
    case Pair(c1, len, dist) => if dist > |out| then Stuck else Put(c1, CopyMatch(out, dist, len))
  }

  function SymbolStep(s: seq<byte>, ll: seq<nat>, dd: seq<nat>, c: Cursor, out: seq<byte>): (r: Step)
    ensures r.Ended? ==> r.p.p > c.p
    ensures r.Put? ==> r.p.p > c.p && |r.out| > |out|
  {
    match Code(s, ll, c)
    case NoCode => Stuck
    case Coded(c1, value) =>
      if value < 256 then Put(c1, out + [value])
      else if value == 256 then if Short(c1) then Stuck else Ended(c1)
      else if value >= 286 then Stuck
      else MatchStep(s, dd, value - 257, c1, out)
  }

  datatype Result = Refused | Decoded(p: Cursor, out: seq<byte>)

  /** Zeros can decode to symbols for ever, so there is a limit on the bits taken. */
  function Symbols(s: seq<byte>, limit: nat, ll: seq<nat>, dd: seq<nat>, c: Cursor, out: seq<byte>): (r: Result)
    ensures r.Decoded? ==> c.p < r.p.p <= limit && |r.out| >= |out|
    decreases if c.p <= limit then limit - c.p else 0
  {
    match SymbolStep(s, ll, dd, c, out)
    case Stuck => Refused
    case Ended(c1) => if c1.p <= limit then Decoded(c1, out) else Refused
    case Put(c1, out1) => if c1.p <= limit then Symbols(s, limit, ll, dd, c1, out1) else Refused
  }

  /** A stored block cannot use padding: its two lengths would disagree. */
  function Stored(s: seq<byte>, limit: nat, c: Cursor, out: seq<byte>): (r: Result)
    ensures r.Decoded? ==> c.p < r.p.p <= limit && |r.out| >= |out|
  {
    match Deflate.Stored(s, 8 * |s|, c.p, out)
    case Bad => Refused
    case Done(p, out1) => if p <= limit then Decoded(Cursor(p, p / 8, c.mark), out1) else Refused
  }

  datatype Lengths = NoLengths | LengthList(p: Cursor, lens: seq<nat>)

  function RunLengths(s: seq<byte>, cl: seq<nat>, total: nat, c: Cursor, lens: seq<nat>): (r: Lengths)
    requires |lens| <= total && IsLengths(lens)
    ensures r.LengthList? ==> r.p.p >= c.p && |r.lens| == total && IsLengths(r.lens)
    decreases total - |lens|
  {
    if |lens| == total then LengthList(c, lens)
    else
      match Code(s, cl, c)
      case NoCode => NoLengths
      case Coded(c1, value) =>
        if value < 16 then RunLengths(s, cl, total, c1, lens + [value])
        else if value == 16 && lens == [] then NoLengths
        else if value > 18 then NoLengths
        else
          var count := ReadBits(s, c1.p, RepeatBits(value)) + (if value == 18 then 11 else 3);
          var x := if value == 16 then lens[|lens| - 1] else 0;
          if |lens| + count > total then NoLengths
          else RunLengths(s, cl, total, Take(c1, RepeatBits(value)), lens + Repeat(x, count))
  }

  /** n times three bits. */
  function TakeTriples(c: Cursor, n: nat): (r: Cursor)
    ensures r.p == c.p + 3 * n
  {
    if n == 0 then c else Take(TakeTriples(c, n - 1), 3)
  }

  ghost function DynamicLengths(s: seq<byte>, c: Cursor): (r: Lengths)
    ensures r.LengthList? ==> r.p.p >= c.p && IsLengths(r.lens) && ReadBits(s, c.p, 5) + 257 < |r.lens| <= ReadBits(s, c.p, 5) + 289
    ensures ReadBits(s, c.p, 5) < 32
  {
    assert Pow2(5) == 32 && Pow2(4) == 16;
    var hlit := ReadBits(s, c.p, 5) + 257;
    var hdist := ReadBits(s, c.p + 5, 5) + 1;
    var hclen := ReadBits(s, c.p + 10, 4) + 4;
    var cl := CodeLengthLengths(s, c.p + 14, hclen);
    if !Canonical.Fits(cl) then NoLengths
    else RunLengths(s, cl, hlit + hdist, TakeTriples(Take(Take(Take(c, 5), 5), 4), hclen), [])
  }

  datatype Codes = NoCodes | CodePair(p: Cursor, ll: seq<nat>, dd: seq<nat>)

  ghost function DynamicCodes(s: seq<byte>, c: Cursor): (r: Codes)
    ensures r.CodePair? ==> r.p.p >= c.p
  {
    var hlit := ReadBits(s, c.p, 5) + 257;
    match DynamicLengths(s, c)
    case NoLengths => NoCodes
    case LengthList(c1, lens) =>
      if Canonical.Fits(lens[..hlit]) && Canonical.Fits(lens[hlit..]) then CodePair(c1, lens[..hlit], lens[hlit..])
      else NoCodes
  }

  ghost function Dynamic(s: seq<byte>, limit: nat, c: Cursor, out: seq<byte>): (r: Result)
    ensures r.Decoded? ==> c.p < r.p.p <= limit && |r.out| >= |out|
  {
    match DynamicCodes(s, c)
    case NoCodes => Refused
    case CodePair(c1, ll, dd) => Symbols(s, limit, ll, dd, c1, out)
  }

  ghost function Block(s: seq<byte>, limit: nat, kind: nat, c: Cursor, out: seq<byte>): (r: Result)
    ensures r.Decoded? ==> c.p < r.p.p <= limit && |r.out| >= |out|
  {
    if kind == 0 then Stored(s, limit, c, out)
    else if kind == 1 then Symbols(s, limit, FIXED_LITERALS, FIXED_DISTANCES, c, out)
    else if kind == 2 then Dynamic(s, limit, c, out)
    else Refused
  }

  ghost function Blocks(s: seq<byte>, limit: nat, c: Cursor, out: seq<byte>): (r: Result)
    ensures r.Decoded? ==> c.p < r.p.p <= limit && |r.out| >= |out|
    decreases if c.p <= limit then limit - c.p else 0
  {
    match Block(s, limit, ReadBits(s, c.p + 1, 2), Take(Take(c, 1), 2), out)
    case Refused => Refused
    case Decoded(c1, out1) => if StreamBit(s, c.p) == 1 then Decoded(c1, out1) else Blocks(s, limit, c1, out1)
  }

  ghost function Inflate(s: seq<byte>, limit: nat, header: bool): Result {
    if !header then Blocks(s, limit, Cursor(0, 0, None), [])
    else if HeaderOk(s) then Blocks(s, limit, Cursor(16, 2, None), [])
    else Refused
  }

  /** The streams that the decoder accepts if there is room for their output. */
  ghost predicate Accepted(s: seq<byte>, header: bool) {
    exists limit: nat :: Inflate(s, limit, header).Decoded?
  }

  /** A block that would start past the end of the input is all zeros: a stored block with a bad header. */
  lemma NoBlockPastEnd(s: seq<byte>, limit: nat, c: Cursor, out: seq<byte>)
    requires c.p >= 8 * |s|
    ensures Block(s, limit, ReadBits(s, c.p + 1, 2), Take(Take(c, 1), 2), out) == Refused
  {
    ReadZero(s, c.p + 1, 2);
  }

  // ----- what a cursor can be

  /** The buffer holds at most 32 bits. Inserted bits lie behind the input, and more than sixteen bits behind the
      place of insertion are loaded only when more than those are taken. */
  predicate Sound(s: seq<byte>, c: Cursor) {
    && c.p <= 8 * c.loaded <= c.p + 32
    && (c.mark.Some? ==>
          var h := c.mark.value;
          8 * |s| <= h && h % 8 == 0 && h + 16 <= 8 * c.loaded && (h + 16 < 8 * c.loaded ==> c.p > h + 16))
  }

  lemma TakeSound(s: seq<byte>, c: Cursor, n: nat)
    requires Sound(s, c) && n <= 16
    ensures Sound(s, Take(c, n)) && Take(c, n).p == c.p + n
  {
  }

  /** A symbol is refused for want of input only past its end. */
  lemma ReadyAgrees(s: seq<byte>, c: Cursor)
    requires Sound(s, c)
    ensures var r := Ready(s, c);
            && (r.None? ==> c.p > 8 * |s|)
            && (r.Some? ==> Sound(s, r.value) && r.value.p == c.p && c.p + 16 <= 8 * r.value.loaded)
  {
  }

  lemma CodeAgrees(s: seq<byte>, lens: seq<nat>, c: Cursor)
    requires Sound(s, c)
    ensures var r := Code(s, lens, c);
            && (r.NoCode? ==> Decode(s, lens, c.p) == None || c.p > 8 * |s|)
            && (r.Coded? ==> Sound(s, r.p) && Decode(s, lens, c.p) == Some(Symbol(r.value, r.p.p - c.p)))
  {
    hide Decode;
    ReadyAgrees(s, c);
  }

  lemma ReadMatchAgrees(s: seq<byte>, dd: seq<nat>, k: nat, c: Cursor)
    requires Sound(s, c) && k < 29
    ensures var r, r' := ReadMatch(s, dd, k, c), Deflate.ReadMatch(s, dd, k, c.p);
            && (r.NoMatch? ==> r'.MatchBad? || r'.p > 8 * |s|)
            && (r.Pair? ==> Sound(s, r.p) && r' == Match(r.p.p, r.len, r.dist))
  {
    hide Decode, ReadBits, Sound, Take, Code, LengthBase, DistanceBase;
    TakeSound(s, c, LengthExtra(k));
    var c1 := Take(c, LengthExtra(k));
    CodeAgrees(s, dd, c1);
    var r := Code(s, dd, c1);
    if r.Coded? && r.value < 30 { TakeSound(s, r.p, DistanceExtra(r.value)); }
  }

  lemma SymbolStepAgrees(s: seq<byte>, ll: seq<nat>, dd: seq<nat>, c: Cursor, out: seq<byte>)
    requires Sound(s, c)
    ensures var r, r' := SymbolStep(s, ll, dd, c, out), Deflate.SymbolStep(s, ll, dd, c.p, out);
            && (r.Stuck? ==> r'.StepBad? || r'.p > 8 * |s|)
            && (r.Ended? ==> Sound(s, r.p) && !Short(r.p) && r' == EndOfBlock(r.p.p))
            && (r.Put? ==> Sound(s, r.p) && r' == Emit(r.p.p, r.out))
  {
    hide Decode, Code, ReadMatch, Deflate.ReadMatch, CopyMatch;
    CodeAgrees(s, ll, c);
    var r := Code(s, ll, c);
    if r.Coded? && 257 <= r.value < 286 {
      ReadMatchAgrees(s, dd, r.value - 257, r.p);
    }
  }

  /** An accepted block is the reference decoder's, on the input followed by zeros. A block that the strict reference
      decoder accepts is accepted. */
  lemma {:induction false} SymbolsAgree(s: seq<byte>, limit: nat, limit': nat, ll: seq<nat>, dd: seq<nat>, c: Cursor, out: seq<byte>)
    requires Sound(s, c)
    ensures var r, r' := Symbols(s, limit, ll, dd, c, out), Deflate.Symbols(s, limit', ll, dd, c.p, out);
            && (r.Decoded? ==> Sound(s, r.p) && !Short(r.p) && r' == if r.p.p <= limit' then Done(r.p.p, r.out) else Bad)
            && (r.Refused? && limit' <= limit && limit' <= 8 * |s| ==> r' == Bad)
    decreases if c.p <= limit then limit - c.p else 0
  {
    hide SymbolStep, Deflate.SymbolStep, Sound, Short;
    SymbolStepAgrees(s, ll, dd, c, out);
    var r := SymbolStep(s, ll, dd, c, out);
    if r.Put? && r.p.p <= limit {
      SymbolsAgree(s, limit, limit', ll, dd, r.p, r.out);
    }
  }

  lemma StoredAgrees(s: seq<byte>, limit: nat, limit': nat, c: Cursor, out: seq<byte>)
    requires Sound(s, c)
    ensures var r, r' := Stored(s, limit, c, out), Deflate.Stored(s, limit', c.p, out);
            && (r.Decoded? ==> Sound(s, r.p) && !Short(r.p) && r' == if r.p.p <= limit' then Done(r.p.p, r.out) else Bad)
            && (r.Refused? && limit' <= limit && limit' <= 8 * |s| ==> r' == Bad)
  {
    hide Word, Bytes;
    var q := AlignUp(c.p);
    var len := Word(s, q);
    assert (q + 32 + 8 * len) % 8 == 0;
  }

  lemma {:induction false} TriplesSound(s: seq<byte>, c: Cursor, n: nat)
    requires Sound(s, c)
    ensures Sound(s, TakeTriples(c, n))
  {
    if n == 0 {
    } else {
      TriplesSound(s, c, n - 1);
      TakeSound(s, TakeTriples(c, n - 1), 3);
    }
  }

  lemma {:induction false} RunLengthsAgree(s: seq<byte>, cl: seq<nat>, total: nat, c: Cursor, lens: seq<nat>)
    requires Sound(s, c) && |lens| <= total && IsLengths(lens)
    ensures var r, r' := RunLengths(s, cl, total, c, lens), Deflate.RunLengths(s, cl, total, c.p, lens);
            && (r.NoLengths? ==> r'.LengthsBad? || r'.p > 8 * |s|)
            && (r.LengthList? ==> Sound(s, r.p) && r' == Lengths(r.p.p, r.lens))
    decreases total - |lens|
  {
    hide Decode, Code, ReadBits, Sound, Take, Repeat;
    if |lens| == total {
    } else {
      CodeAgrees(s, cl, c);
      var r := Code(s, cl, c);
      if r.Coded? {
        if r.value < 16 {
          RunLengthsAgree(s, cl, total, r.p, lens + [r.value]);
        } else if r.value <= 18 && !(r.value == 16 && lens == []) {
          var count := ReadBits(s, r.p.p, RepeatBits(r.value)) + (if r.value == 18 then 11 else 3);
          var x := if r.value == 16 then lens[|lens| - 1] else 0;
          TakeSound(s, r.p, RepeatBits(r.value));
          if |lens| + count <= total {
            RunLengthsAgree(s, cl, total, Take(r.p, RepeatBits(r.value)), lens + Repeat(x, count));
          }
        }
      }
    }
  }

  /** The cursor after the header of a dynamic block. */
  lemma HeaderSound(s: seq<byte>, c: Cursor, hclen: nat)
    requires Sound(s, c)
    ensures var c1 := TakeTriples(Take(Take(Take(c, 5), 5), 4), hclen);
            Sound(s, c1) && c1.p == c.p + 14 + 3 * hclen
  {
    hide Sound, Take;
    TakeSound(s, c, 5);
    TakeSound(s, Take(c, 5), 5);
    TakeSound(s, Take(Take(c, 5), 5), 4);
    TriplesSound(s, Take(Take(Take(c, 5), 5), 4), hclen);
  }

  lemma DynamicLengthsAgree(s: seq<byte>, c: Cursor)
    requires Sound(s, c)
    ensures var r, r' := DynamicLengths(s, c), Deflate.DynamicLengths(s, c.p);
            && (r.NoLengths? ==> r'.LengthsBad? || r'.p > 8 * |s|)
            && (r.LengthList? ==> Sound(s, r.p) && r' == Lengths(r.p.p, r.lens))
  {
    hide ReadBits, Sound, RunLengths, Deflate.RunLengths, CodeLengthLengths, Canonical.Fits, Pow2, Take, TakeTriples;
    Pow2Table();
    var total := ReadBits(s, c.p, 5) + 257 + ReadBits(s, c.p + 5, 5) + 1;
    var hclen := ReadBits(s, c.p + 10, 4) + 4;
    HeaderSound(s, c, hclen);
    RunLengthsAgree(s, CodeLengthLengths(s, c.p + 14, hclen), total, TakeTriples(Take(Take(Take(c, 5), 5), 4), hclen), []);
  }

  lemma DynamicCodesAgree(s: seq<byte>, c: Cursor)
    requires Sound(s, c)
    ensures var r, r' := DynamicCodes(s, c), Deflate.DynamicCodes(s, c.p);
            && (r.NoCodes? ==> r'.CodesBad? || r'.p > 8 * |s|)
            && (r.CodePair? ==> Sound(s, r.p) && r' == Codes(r.p.p, r.ll, r.dd))
  {
    hide ReadBits, Sound, DynamicLengths, Deflate.DynamicLengths, Canonical.Fits, Pow2;
    DynamicLengthsAgree(s, c);
  }

  lemma BlockAgrees(s: seq<byte>, limit: nat, limit': nat, kind: nat, c: Cursor, out: seq<byte>)
    requires Sound(s, c)
    ensures var r, r' := Block(s, limit, kind, c, out), Deflate.Block(s, limit', kind, c.p, out);
            && (r.Decoded? ==> Sound(s, r.p) && !Short(r.p) && r' == if r.p.p <= limit' then Done(r.p.p, r.out) else Bad)
            && (r.Refused? && limit' <= limit && limit' <= 8 * |s| ==> r' == Bad)
  {
    hide Sound, Short, Stored, Deflate.Stored, Symbols, Deflate.Symbols, DynamicCodes, Deflate.DynamicCodes, Repeat;
    if kind == 0 {
      StoredAgrees(s, limit, limit', c, out);
    } else if kind == 1 {
      SymbolsAgree(s, limit, limit', FIXED_LITERALS, FIXED_DISTANCES, c, out);
    } else if kind == 2 {
      DynamicCodesAgree(s, c);
      var r := DynamicCodes(s, c);
      if r.CodePair? { SymbolsAgree(s, limit, limit', r.ll, r.dd, r.p, out); }
    }
  }

  lemma {:induction false} BlocksAgree(s: seq<byte>, limit: nat, limit': nat, c: Cursor, out: seq<byte>)
    requires Sound(s, c)
    ensures var r, r' := Blocks(s, limit, c, out), Deflate.Blocks(s, limit', c.p, out);
            && (r.Decoded? ==> Sound(s, r.p) && !Short(r.p) && r' == if r.p.p <= limit' then Done(r.p.p, r.out) else Bad)
            && (r.Refused? && limit' <= limit && limit' <= 8 * |s| ==> r' == Bad)
    decreases if c.p <= limit then limit - c.p else 0
  {
    hide Sound, Short, Block, Deflate.Block, ReadBits, StreamBit, Take;
    TakeSound(s, c, 1);
    var c1 := Take(c, 1);
    TakeSound(s, c1, 2);
    var c2 := Take(c1, 2);
    var kind := ReadBits(s, c.p + 1, 2);
    BlockAgrees(s, limit, limit', kind, c2, out);
    var r := Block(s, limit, kind, c2, out);
    if r.Decoded? && StreamBit(s, c.p) != 1 {
      BlocksAgree(s, limit, limit', r.p, r.out);
    }
  }

  /** The decoder against the reference: what it accepts it decodes as the reference does, on the input followed by
      zeros; it accepts whatever the strict reference accepts. */
  lemma InflateAgrees(s: seq<byte>, limit: nat, limit': nat, header: bool)
    ensures var r, r' := Inflate(s, limit, header), Deflate.Inflate(s, limit', header);
            && (r.Decoded? ==> r' == if r.p.p <= limit' then Done(r.p.p, r.out) else Bad)
            && (r.Refused? && limit' <= limit && limit' <= 8 * |s| ==> r' == Bad)
  {
    hide Blocks, Deflate.Blocks, HeaderOk;
    BlocksAgree(s, limit, limit', Cursor(0, 0, None), []);
    BlocksAgree(s, limit, limit', Cursor(16, 2, None), []);
  }

  /** When inserted bits are taken: of an accepted stream, exactly if more than sixteen bits behind the place of
      insertion are taken, for some field of extra bits ended there and the buffer was filled again. So they are all taken or
      none of them is. The check at the end of a block counts the bits in the buffer, and those may then be others. */
  lemma InsertedTakenExactly(s: seq<byte>, limit: nat, header: bool)
    ensures var r := Inflate(s, limit, header);
            r.Decoded? && r.p.mark.Some? ==>
              && (r.p.p > r.p.mark.value <==> r.p.p > r.p.mark.value + 16)
              && (r.p.p > r.p.mark.value <==> 8 * r.p.loaded > r.p.mark.value + 16)
  {
    hide Blocks, HeaderOk;
    BlocksAgree(s, limit, 0, Cursor(0, 0, None), []);
    BlocksAgree(s, limit, 0, Cursor(16, 2, None), []);
  }
}
