/** LZW decoding as Appendix F of GIF89a describes it: codes have at most twelve bits, and a full dictionary is
    used as it stands until the next clear code. */
module GifStandard {
  import opened Bits
  import opened Common
  import Deflate
  import opened DeflateFacts
  import opened GifLzw

  const TABLE_SIZE := 4096
  const MAX_WIDTH := 12

  /** The state after the string e: it is emitted, and the dictionary grows unless it is full. */
  function Grown(st: State, e: seq<byte>, p: nat): (r: State)
    requires e != []
    ensures r.width == st.width && r.p == p
  {
    State(if st.prev.Some? && |st.dict| < TABLE_SIZE then st.dict + [st.prev.value + [e[0]]] else st.dict,
          Some(e), true, st.width, p, st.out + e)
  }

  /** One more bit as soon as the next code to be made needs it. */
  function Wider(st: State): (r: State)
    ensures r.p == st.p && r.width >= st.width
  {
    if |st.dict| == Pow2(st.width) && st.width < MAX_WIDTH then st.(width := st.width + 1) else st
  }

  function Steps(data: seq<byte>, cs: nat, st: State): (r: Result)
    requires st.width >= 1
    decreases if st.p <= 8 * |data| then 8 * |data| - st.p else 0
  {
    var clear := Pow2(cs);
    if st.p + st.width > 8 * |data| then Result(true, st.out)
    else
      var code := Deflate.ReadBits(data, st.p, st.width);
      var p := st.p + st.width;
      if code == clear then Steps(data, cs, State(Cleared(clear), None, true, cs + 1, p, st.out))
      else if code == clear + 1 then Result(true, st.out)
      else if !st.started then Result(false, st.out)
      else
        match Entry(clear, st, code)
        case None => Result(false, st.out)
        case Some(e) => if e == [] then Result(false, st.out) else Steps(data, cs, Wider(Grown(st, e, p)))
  }

  function Standard(data: seq<byte>, cs: nat): Result {
    Steps(data, cs, State(Cleared(Pow2(cs)), None, false, cs + 1, 0, []))
  }

  /** The largest number of string codes between clear codes, of which k came since the last one. */
  function Longest(data: seq<byte>, cs: nat, st: State, k: nat): (r: nat)
    requires st.width >= 1
    ensures r >= k
    decreases if st.p <= 8 * |data| then 8 * |data| - st.p else 0
  {
    var clear := Pow2(cs);
    if st.p + st.width > 8 * |data| then k
    else
      var code := Deflate.ReadBits(data, st.p, st.width);
      var p := st.p + st.width;
      if code == clear then
        var r := Longest(data, cs, State(Cleared(clear), None, true, cs + 1, p, st.out), 0);
        if r > k then r else k
      else if code == clear + 1 || !st.started then k
      else
        match Entry(clear, st, code)
        case None => k
        case Some(e) => if e == [] then k else Longest(data, cs, Wider(Grown(st, e, p)), k + 1)
  }

  function LongestRun(data: seq<byte>, cs: nat): nat {
    Longest(data, cs, State(Cleared(Pow2(cs)), None, false, cs + 1, 0, []), 0)
  }

  // ----- the two decoders side by side

  /** The larger dictionary continues the smaller one, which stops at 4096 entries; k strings came since the clear. */
  ghost predicate Alike(cs: nat, a: State, b: State, k: nat) {
    && a.prev == b.prev && a.started == b.started && a.width == b.width && a.p == b.p && a.out == b.out
    && (k > 0 <==> a.prev.Some?) && |a.dict| == Pow2(cs) + 2 + (if k == 0 then 0 else k - 1) <= MAX_CODES
    && b.dict == (if |a.dict| <= TABLE_SIZE then a.dict else a.dict[..TABLE_SIZE])
    && 1 <= a.width <= MAX_WIDTH && (a.width < MAX_WIDTH ==> |a.dict| < Pow2(a.width))
  }

  lemma WidthAlike(cs: nat, a: State, b: State, k: nat)
    requires a.width == b.width && a.dict != [] && 1 <= a.width <= MAX_WIDTH
    requires a.width < MAX_WIDTH ==> |a.dict| <= Pow2(a.width)
    requires b.dict == (if |a.dict| <= TABLE_SIZE then a.dict else a.dict[..TABLE_SIZE])
    ensures Widened(a).width == Wider(b).width <= MAX_WIDTH
    ensures Widened(a).width < MAX_WIDTH ==> |a.dict| < Pow2(Widened(a).width)
  {
    Pow2Table();
    Pow2Mono(a.width, 12);
    if |a.dict| < Pow2(a.width) {
      LowSmall(|a.dict|, a.width);
    } else if a.width < MAX_WIDTH {
      LowOfPower(a.width);
      Pow2Mono(a.width, 11);
    }
    hide Low;
  }

  lemma {:induction false} LowOfPower(n: nat)
    ensures Low(Pow2(n), n) == 0
  {
    if n == 0 {
    } else {
      LowOfPower(n - 1);
    }
  }

  // ----- one code at a time

  lemma StepSpecial(data: seq<byte>, cs: nat, st: State, k: nat)
    requires st.width >= 1
    ensures st.p + st.width > 8 * |data| ==> Steps(data, cs, st) == Result(true, st.out) && Longest(data, cs, st, k) == k
    ensures st.p + st.width <= 8 * |data| && Deflate.ReadBits(data, st.p, st.width) == Pow2(cs) ==>
      var next := State(Cleared(Pow2(cs)), None, true, cs + 1, st.p + st.width, st.out);
      && Steps(data, cs, st) == Steps(data, cs, next)
      && Longest(data, cs, st, k) == (if Longest(data, cs, next, 0) > k then Longest(data, cs, next, 0) else k)
    ensures st.p + st.width <= 8 * |data| && Deflate.ReadBits(data, st.p, st.width) == Pow2(cs) + 1 ==>
      Steps(data, cs, st) == Result(true, st.out) && Longest(data, cs, st, k) == k
  {
    hide Pow2, Deflate.ReadBits, Cleared, Entry;
  }

  lemma StepString(data: seq<byte>, cs: nat, st: State, k: nat, code: nat)
    requires st.width >= 1 && st.p + st.width <= 8 * |data| && code == Deflate.ReadBits(data, st.p, st.width)
    requires code != Pow2(cs) && code != Pow2(cs) + 1
    ensures var e := Entry(Pow2(cs), st, code);
      if !st.started || e == None || e.value == [] then Steps(data, cs, st) == Result(false, st.out) && Longest(data, cs, st, k) == k
      else
        var next := Wider(Grown(st, e.value, st.p + st.width));
        Steps(data, cs, st) == Steps(data, cs, next) && Longest(data, cs, st, k) == Longest(data, cs, next, k + 1)
  {
    hide Pow2, Deflate.ReadBits, Entry, Grown, Wider, Cleared;
  }

  lemma {:induction false} StepsGrow(data: seq<byte>, cs: nat, st: State)
    requires st.width >= 1
    ensures |Steps(data, cs, st).out| >= |st.out|
    decreases if st.p <= 8 * |data| then 8 * |data| - st.p else 0
  {
    if st.p + st.width > 8 * |data| {
    } else {
      var code := Deflate.ReadBits(data, st.p, st.width);
      hide Pow2, Deflate.ReadBits, Entry, Cleared, Steps, Longest;
      StepSpecial(data, cs, st, 0);
      if code == Pow2(cs) {
        StepsGrow(data, cs, State(Cleared(Pow2(cs)), None, true, cs + 1, st.p + st.width, st.out));
      } else if code != Pow2(cs) + 1 {
        StepString(data, cs, st, 0, code);
        var e := Entry(Pow2(cs), st, code);
        if st.started && e.Some? && e.value != [] { StepsGrow(data, cs, Wider(Grown(st, e.value, st.p + st.width))); }
      }
    }
  }

  /** A code means the same to both, as long as it can be written with twelve bits. */
  lemma EntryAlike(cs: nat, a: State, b: State, k: nat, code: nat)
    requires Alike(cs, a, b, k) && code < Pow2(a.width) && cs <= 11
    ensures Entry(Pow2(cs), a, code) == Entry(Pow2(cs), b, code)
  {
    Pow2Table();
    Pow2Mono(a.width, 12);
    Pow2Mono(cs, 11);
    hide Pow2;
  }

  lemma GrownAlike(cs: nat, a: State, b: State, k: nat, e: seq<byte>, p: nat)
    requires Alike(cs, a, b, k) && e != [] && cs <= 11 && !(a.prev.Some? && |a.dict| >= MAX_CODES)
    ensures Alike(cs, Widened(Next(a, e, p)), Wider(Grown(b, e, p)), k + 1)
  {
    var a', b' := Next(a, e, p), Grown(b, e, p);
    assert b'.dict == (if |a'.dict| <= TABLE_SIZE then a'.dict else a'.dict[..TABLE_SIZE]);
    WidthAlike(cs, a', b', k);
    hide Pow2, Low;
  }

  lemma ClearedAlike(cs: nat, p: nat, started: bool, out: seq<byte>)
    requires 2 <= cs <= 11
    ensures var st := State(Cleared(Pow2(cs)), None, started, cs + 1, p, out); Alike(cs, st, st, 0)
    ensures 0 <= Limit(cs)
  {
    assert Pow2(2) == 4 && Pow2(cs + 1) == 2 * Pow2(cs);
    hide Pow2, Roots;
    Pow2Mono(2, cs);
    PowerOfSize(cs);
  }

  /** How many strings may come between clear codes before stb_image's table is full. */
  function Limit(cs: nat): int { MAX_CODES - 1 - Pow2(cs) }

  /** What stb_image makes of a stream and what the standard makes of it. */
  predicate Outcome(cs: nat, a: Result, b: Result, longest: nat) {
    && (longest <= Limit(cs) ==> a == b)
    && (longest > Limit(cs) ==> !a.ok && |a.out| < |b.out|)
  }

  lemma FullTable(data: seq<byte>, cs: nat, a: State, b: State, k: nat, e: seq<byte>, p: nat)
    requires Alike(cs, a, b, k) && e != [] && a.prev.Some? && |a.dict| >= MAX_CODES && k <= Limit(cs)
    ensures var b' := Wider(Grown(b, e, p));
      Outcome(cs, Result(false, a.out), Steps(data, cs, b'), Longest(data, cs, b', k + 1))
  {
    hide Pow2, Steps, Longest;
    StepsGrow(data, cs, Wider(Grown(b, e, p)));
  }

  /** stb_image's decoder agrees with the standard until its table is full; the next string makes it fail. */
  lemma {:induction false} RunsAlike(data: seq<byte>, cs: nat, a: State, b: State, k: nat)
    requires 2 <= cs <= 11 && Alike(cs, a, b, k) && k <= Limit(cs)
    ensures Outcome(cs, Run(data, cs, a), Steps(data, cs, b), Longest(data, cs, b, k))
    decreases if a.p <= 8 * |data| then 8 * |data| - a.p else 0
  {
    hide Pow2, Deflate.ReadBits, Entry, Cleared, Steps, Longest, Run, Widened, Wider, Next, Grown, Limit;
    RunSpecial(data, cs, a);
    StepSpecial(data, cs, b, k);
    var code, p := Deflate.ReadBits(data, a.p, a.width), a.p + a.width;
    if p <= 8 * |data| {
      if code == Pow2(cs) {
        ClearedAlike(cs, p, true, a.out);
        RunsAlike(data, cs, State(Cleared(Pow2(cs)), None, true, cs + 1, p, a.out), State(Cleared(Pow2(cs)), None, true, cs + 1, p, a.out), 0);
      } else if code != Pow2(cs) + 1 {
        StringAlike(data, cs, a, b, k, code);
      }
    }
  }

  lemma {:induction false} StringAlike(data: seq<byte>, cs: nat, a: State, b: State, k: nat, code: nat)
    requires 2 <= cs <= 11 && Alike(cs, a, b, k) && k <= Limit(cs) && a.p + a.width <= 8 * |data|
    requires code == Deflate.ReadBits(data, a.p, a.width) && code != Pow2(cs) && code != Pow2(cs) + 1
    ensures Outcome(cs, Run(data, cs, a), Steps(data, cs, b), Longest(data, cs, b, k))
    decreases if a.p <= 8 * |data| then 8 * |data| - a.p else 0, 0
  {
    hide Pow2, Deflate.ReadBits, Entry, Cleared, Steps, Longest, Run, Widened, Wider, Next, Grown;
    var p := a.p + a.width;
    RunString(data, cs, a, code);
    StepString(data, cs, b, k, code);
    EntryAlike(cs, a, b, k, code);
    var e := Entry(Pow2(cs), a, code);
    if a.started && e.Some? && e.value != [] {
      if a.prev.Some? && |a.dict| >= MAX_CODES {
        FullTable(data, cs, a, b, k, e.value, p);
      } else {
        GrownAlike(cs, a, b, k, e.value, p);
        hide Outcome;
        RunsAlike(data, cs, Widened(Next(a, e.value, p)), Wider(Grown(b, e.value, p)), k + 1);
      }
    }
  }

  lemma PowerOfSize(cs: nat)
    requires cs <= 11
    ensures 1 <= Pow2(cs) <= 2048
  {
    Pow2Table();
    Pow2Mono(cs, 11);
  }

  /** On every stream of the standard's code sizes the two decoders agree exactly if no more than 8191 - 2^cs
      strings come between clear codes. */
  lemma AgreesExactly(data: seq<byte>, cs: nat)
    requires 2 <= cs <= 11
    ensures Decode(data, cs) == Standard(data, cs) <==> LongestRun(data, cs) <= Limit(cs)
    ensures LongestRun(data, cs) > Limit(cs) ==> !Decode(data, cs).ok
  {
    var st := State(Cleared(Pow2(cs)), None, false, cs + 1, 0, []);
    hide Pow2, Cleared, Run, Steps, Longest;
    ClearedAlike(cs, 0, false, []);
    PowerOfSize(cs);
    RunsAlike(data, cs, st, st, 0);
  }

  // ----- a valid stream that stb_image refuses

  /** How many codes are read before codes have twelve bits, and how many bits they have: one code per new entry, and
      one for the first string after a clear code, which makes none. */
  function CodesAhead(d: nat, width: nat, first: bool): int {
    match width
    case 9 => 512 - d + (if first then 1 else 0) + 512 + 1024
    case 10 => 1024 - d + 1024
    case 11 => 2048 - d
    case _ => 0
  }

  function BitsAhead(d: nat, width: nat, first: bool): int {
    match width
    case 9 => 9 * (512 - d + (if first then 1 else 0)) + 10 * 512 + 11 * 1024
    case 10 => 10 * (1024 - d) + 11 * 1024
    case 11 => 11 * (2048 - d)
    case _ => 0
  }

  /** Widths as the decoder has them: the next entry still fits. */
  predicate Fitting(st: State) {
    && 9 <= st.width <= MAX_WIDTH && (st.width < MAX_WIDTH ==> |st.dict| < Pow2(st.width))
    && (st.prev.None? ==> st.width == 9 && |st.dict| < 511)
  }

  function ToTwelve(st: State): int { BitsAhead(|st.dict|, st.width, st.prev.None?) }

  function CodesToTwelve(st: State): int { CodesAhead(|st.dict|, st.width, st.prev.None?) }

  lemma OneCode(st: State, e: seq<byte>)
    requires Fitting(st) && e != []
    ensures var next := Wider(Grown(st, e, st.p + st.width));
            Fitting(next) && next.p == st.p + st.width && next.prev.Some? &&
            ToTwelve(next) == (if st.width == MAX_WIDTH then 0 else ToTwelve(st) - st.width) &&
            CodesToTwelve(next) == (if st.width == MAX_WIDTH then 0 else CodesToTwelve(st) - 1)
  {
    Pow2Table();
    assert Pow2(12) == 4096 && Pow2(11) == 2048 && Pow2(10) == 1024 && Pow2(9) == 512;
    hide Pow2;
    var w := st.width;
    assert w == 9 || w == 10 || w == 11 || w == 12;
  }

  ghost predicate ZeroBetween(data: seq<byte>, p: nat, e: nat) {
    forall q: nat | p <= q < e :: Deflate.StreamBit(data, q) == 0
  }

  lemma {:induction false} ReadZeros(data: seq<byte>, p: nat, n: nat, e: nat)
    requires ZeroBetween(data, p, e) && p + n <= e
    ensures Deflate.ReadBits(data, p, n) == 0
    decreases n
  {
    if n == 0 {
    } else {
      ReadZeros(data, p + 1, n - 1, e);
    }
  }

  /** Only zeros from p to e, and there an end code of twelve bits. */
  ghost predicate PlainTo(data: seq<byte>, cs: nat, p: nat, e: nat) {
    ZeroBetween(data, p, e) && e + MAX_WIDTH <= 8 * |data| && Deflate.ReadBits(data, e, MAX_WIDTH) == Pow2(cs) + 1
  }

  predicate AtPlain(st: State) {
    st.started && Fitting(st) && |st.dict| > 0 && st.dict[0] == [0]
  }

  function AfterZero(st: State): State { Wider(Grown(st, [0], st.p + st.width)) }

  lemma ZeroState(st: State)
    requires AtPlain(st)
    ensures var next := AfterZero(st);
            AtPlain(next) && next.p == st.p + st.width &&
            ToTwelve(next) == (if st.width == MAX_WIDTH then 0 else ToTwelve(st) - st.width) &&
            CodesToTwelve(next) == (if st.width == MAX_WIDTH then 0 else CodesToTwelve(st) - 1)
  {
    hide Fitting, ToTwelve, CodesToTwelve, Pow2;
    OneCode(st, [0]);
  }

  lemma PlainOn(data: seq<byte>, cs: nat, p: nat, n: nat, e: nat)
    requires PlainTo(data, cs, p, e) && p + n <= e
    ensures PlainTo(data, cs, p + n, e) && p + n <= 8 * |data| && Deflate.ReadBits(data, p, n) == 0
  {
    hide Deflate.StreamBit, Deflate.ReadBits, Pow2;
    ReadZeros(data, p, n, e);
  }

  /** Zero bits are the code of the first colour at any width. */
  lemma OneZero(data: seq<byte>, cs: nat, st: State, k: nat, e: nat)
    requires 2 <= cs && AtPlain(st) && PlainTo(data, cs, st.p, e) && st.p + st.width <= e
    ensures PlainTo(data, cs, st.p + st.width, e)
    ensures Steps(data, cs, st) == Steps(data, cs, AfterZero(st)) && Longest(data, cs, st, k) == Longest(data, cs, AfterZero(st), k + 1)
  {
    Pow2Mono(2, cs);
    assert Pow2(2) == 4;
    assert st.width >= 1;
    hide Pow2, Deflate.ReadBits, Steps, Longest, Fitting, PlainTo, Wider, Grown;
    PlainOn(data, cs, st.p, st.width, e);
    assert Entry(Pow2(cs), st, 0) == Some([0]);
    StepString(data, cs, st, k, 0);
  }

  lemma EndReached(data: seq<byte>, cs: nat, st: State, k: nat)
    requires st.width == MAX_WIDTH && PlainTo(data, cs, st.p, st.p)
    ensures Steps(data, cs, st).ok && Longest(data, cs, st, k) == k
  {
    hide Pow2, Deflate.ReadBits, Cleared, Steps, Longest, ZeroBetween;
    StepSpecial(data, cs, st, k);
  }

  lemma WidthLeft(st: State)
    requires AtPlain(st)
    ensures 1 <= st.width <= MAX_WIDTH
    ensures if st.width == MAX_WIDTH then ToTwelve(st) == 0 && CodesToTwelve(st) == 0 else ToTwelve(st) >= st.width
  {
    assert Pow2(11) == 2048 && Pow2(10) == 1024 && Pow2(9) == 512;
  }

  /** Again and again, up to the end code at bit e. */
  lemma {:induction false} ZeroCodes(data: seq<byte>, cs: nat, st: State, k: nat, m: nat, e: nat)
    requires 2 <= cs && AtPlain(st) && PlainTo(data, cs, st.p, e) && st.p + ToTwelve(st) + MAX_WIDTH * m == e
    ensures Steps(data, cs, st).ok && Longest(data, cs, st, k) == k + CodesToTwelve(st) + m
    decreases if st.p <= e then e - st.p else 0
  {
    hide Steps, Longest, PlainTo, ToTwelve, CodesToTwelve, AtPlain, AfterZero;
    WidthLeft(st);
    if st.width == MAX_WIDTH && m == 0 {
      EndReached(data, cs, st, k);
    } else {
      OneZero(data, cs, st, k, e);
      ZeroState(st);
      ZeroCodes(data, cs, AfterZero(st), k + 1, if st.width == MAX_WIDTH then m - 1 else m, e);
    }
  }

  /** A clear code, then nothing but the first colour, more often than stb_image's table is long, then the end code. The two
      set bits of the end code lie in the last two bytes. */
  predicate LongPlainImage(data: seq<byte>) {
    && |data| >= 11555 && (|data| - 11555) % 3 == 0
    && data[0] == 0 && data[1] == 1 && data[|data| - 2] == 16 && data[|data| - 1] == 16
    && forall i | 2 <= i < |data| - 2 :: data[i] == 0
  }

  lemma FirstCodeIsClear(data: seq<byte>)
    requires |data| > 1 && data[0] == 0 && data[1] == 1
    ensures Deflate.ReadBits(data, 0, 9) == 256
  {
    assert Deflate.ReadBits(data, 8, 1) == Deflate.StreamBit(data, 8) + 2 * Deflate.ReadBits(data, 9, 0);
    assert Deflate.StreamBit(data, 8) == Bit(1, 0) == 1;
    hide Deflate.ReadBits, Deflate.StreamBit;
    ReadEmpty(data, 9);
    ReadByte(data, 0);
    ReadSplit(data, 0, 8, 1);
    Shl8(1);
  }

  lemma Sixteen(j: nat)
    requires j < 8
    ensures Bit(16, j) == if j == 4 then 1 else 0
  {
    assert Bit(16, 0) == 0 && Bit(16, 1) == 0;
    assert Bit(4, 0) == 0 && Bit(4, 1) == 0 && Bit(4, 2) == 1;
    if j >= 2 { assert Bit(16, j) == Bit(4, j - 2); }
    if j >= 5 { assert Bit(4, j - 2) == Bit(1, j - 4) == Bit(0, j - 5); BitZero(j - 5); }
  }

  lemma PlainBit(data: seq<byte>, q: nat)
    requires LongPlainImage(data) && 9 <= q < 8 * |data|
    ensures Deflate.StreamBit(data, q) == if q == 8 * |data| - 12 || q == 8 * |data| - 4 then 1 else 0
  {
    var b := q / 8;
    if b == 1 {
      assert Bit(1, q - 8) == Bit(0, q - 9);
      BitZero(q - 9);
    } else if b < |data| - 2 {
      BitZero(q % 8);
    } else {
      Sixteen(q % 8);
    }
  }

  /** Twelve bits of which the first and the ninth are set. */
  lemma EndCode(data: seq<byte>, e: nat)
    requires forall q: nat | e <= q < e + 12 :: Deflate.StreamBit(data, q) == if q == e || q == e + 8 then 1 else 0
    ensures Deflate.ReadBits(data, e, 12) == 257
  {
    hide Deflate.StreamBit;
    ReadSplit(data, e, 8, 4);
    ReadZeros(data, e + 1, 7, e + 8);
    ReadZeros(data, e + 9, 3, e + 12);
    assert Deflate.ReadBits(data, e, 8) == 1 && Deflate.ReadBits(data, e + 8, 4) == 1;
    Shl8(1);
  }

  lemma PlainBits(data: seq<byte>)
    requires LongPlainImage(data)
    ensures Deflate.ReadBits(data, 0, 9) == 256 && PlainTo(data, 8, 9, 8 * |data| - 12)
  {
    FirstCodeIsClear(data);
    var e := 8 * |data| - 12;
    forall q: nat | 9 <= q < 8 * |data| ensures Deflate.StreamBit(data, q) == if q == e || q == e + 8 then 1 else 0 { PlainBit(data, q); }
    hide Deflate.StreamBit, Deflate.ReadBits;
    EndCode(data, e);
    assert Pow2(8) == 256 by { Pow2Table(); }
  }

  lemma PlainStart(st: State)
    requires st == State(Cleared(256), None, true, 9, 9, [])
    ensures AtPlain(st) && ToTwelve(st) == 18679 && CodesToTwelve(st) == 1791
  {
    assert Pow2(9) == 512 by { Pow2Table(); }
    assert Cleared(256)[0] == Roots(256)[0] == [0];
    hide Roots, Pow2;
  }

  lemma PlainLength(data: seq<byte>) returns (m: nat)
    requires LongPlainImage(data)
    ensures 18688 + MAX_WIDTH * m == 8 * |data| - 12 && m >= 6145
  {
    m := 6145 + 2 * ((|data| - 11555) / 3);
  }

  /** The standard decodes it and stb_image refuses it. */
  lemma LongPlainImageRefused(data: seq<byte>)
    requires LongPlainImage(data)
    ensures Standard(data, 8).ok && !Decode(data, 8).ok
  {
    assert Pow2(8) == 256 by { Pow2Table(); }
    hide Pow2, Deflate.ReadBits, Cleared, Steps, Longest, Run, LongPlainImage, PlainTo, AtPlain, ToTwelve, CodesToTwelve;
    PlainBits(data);
    var m := PlainLength(data);
    var st := State(Cleared(256), None, false, 9, 0, []);
    var next := State(Cleared(256), None, true, 9, 9, []);
    PlainStart(next);
    StepSpecial(data, 8, st, 0);
    ZeroCodes(data, 8, next, 0, m, 8 * |data| - 12);
    AgreesExactly(data, 8);
  }
}
