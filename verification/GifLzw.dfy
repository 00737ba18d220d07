/** LZW decoding with a dictionary of strings that grows with every code, up to stb_image's 8192 entries.
    GifStandard relates it to the decoder of GIF89a. */
module GifLzw {
  import opened Bits
  import opened Common
  import opened Deflate

  const MAX_CODES := 8192

  // ----- sub-blocks

  function Left(s: seq<byte>, pos: nat): nat {
    if pos < |s| then |s| - pos else 0
  }

  /** The rest of a sub-block with `len` bytes left, and all sub-blocks after it up to the empty one. */
  function DataFrom(s: seq<byte>, pos: nat, len: nat): seq<byte>
    decreases Left(s, pos), len
  {
    if len > 0 then [At(s, pos)] + DataFrom(s, pos + 1, len - 1)
    else if At(s, pos) == 0 then []
    else DataFrom(s, pos + 1, At(s, pos))
  }

  // ----- the reference decoder

  /** The dictionary after a clear code: the single symbols, and two places for the special codes. */
  function Roots(n: nat): (d: seq<seq<byte>>)
    ensures |d| == n && forall i | 0 <= i < n :: d[i] == [i % 256]
  {
    if n == 0 then [] else Roots(n - 1) + [[(n - 1) % 256]]
  }

  function Cleared(clear: nat): (d: seq<seq<byte>>)
    ensures |d| == clear + 2
  {
    Roots(clear) + [[], []]
  }

  /** started: a clear code was seen; prev: the string of the last code since then. */
  datatype State = State(dict: seq<seq<byte>>, prev: Option<seq<byte>>, started: bool, width: nat, p: nat, out: seq<byte>)

  datatype Result = Result(ok: bool, out: seq<byte>)

  /** A code for a string is not one of the two special ones. */
  predicate IsString(clear: nat, n: nat, code: nat) {
    code < n && (code < clear || clear + 2 <= code)
  }

  function Widened(st: State): (r: State)
    ensures r.p == st.p && r.width >= st.width
  {
    if Low(|st.dict|, st.width) == 0 && |st.dict| <= 0x0FFF then st.(width := st.width + 1) else st
  }

  /** What one code stands for: a string of the dictionary, or the last string and its own first symbol. */
  function Entry(clear: nat, st: State, code: nat): (r: Option<seq<byte>>) {
    if IsString(clear, |st.dict|, code) then Some(st.dict[code])
    else if code == |st.dict| && code >= clear + 2 && st.prev.Some? && st.prev.value != [] then Some(st.prev.value + [st.prev.value[0]])
    else None
  }

  function Run(data: seq<byte>, cs: nat, st: State): (r: Result)
    requires st.width >= 1
    decreases if st.p <= 8 * |data| then 8 * |data| - st.p else 0
  {
    var clear := Pow2(cs);
    if st.p + st.width > 8 * |data| then Result(true, st.out)
    else
      var code := ReadBits(data, st.p, st.width);
      var p := st.p + st.width;
      if code == clear then Run(data, cs, State(Cleared(clear), None, true, cs + 1, p, st.out))
      else if code == clear + 1 then Result(true, st.out)
      else if !st.started then Result(false, st.out)
      else
        match Entry(clear, st, code)
        case None => Result(false, st.out)
        case Some(e) =>
          if e == [] || (st.prev.Some? && |st.dict| >= MAX_CODES) then Result(false, st.out)
          else Run(data, cs, Widened(Next(st, e, p)))
  }

  /** The state after the string e: it is emitted, and the last string with its first symbol becomes a new entry. */
  function Next(st: State, e: seq<byte>, p: nat): (r: State)
    requires e != []
    ensures r.width == st.width && r.p == p
  {
    State(if st.prev.Some? then st.dict + [st.prev.value + [e[0]]] else st.dict, Some(e), true, st.width, p, st.out + e)
  }

  /** Before any clear code the dictionary is already there, but no string may be used. */
  function Decode(data: seq<byte>, cs: nat): Result {
    if cs > 12 then Result(false, [])
    else Run(data, cs, State(Cleared(Pow2(cs)), None, false, cs + 1, 0, []))
  }

  // ----- strings as linked prefixes

  /** The string of a code: its prefix's string and its own symbol. Links that do not go down end the string. */
  function StringOf(prefix: seq<int>, suffix: seq<byte>, code: nat): (r: seq<byte>)
    requires code < |prefix| == |suffix|
    ensures r != []
    decreases code
  {
    if 0 <= prefix[code] < code then StringOf(prefix, suffix, prefix[code]) + [suffix[code]] else [suffix[code]]
  }

  /** A string depends only on entries up to its code. */
  lemma {:induction false} StringFrame(prefix: seq<int>, suffix: seq<byte>, prefix': seq<int>, suffix': seq<byte>, code: nat)
    requires code < |prefix| == |suffix| == |prefix'| == |suffix'|
    requires forall c | 0 <= c <= code :: prefix[c] == prefix'[c] && suffix[c] == suffix'[c]
    ensures StringOf(prefix, suffix, code) == StringOf(prefix', suffix', code)
    decreases code
  {
    if prefix[code] < 0 || prefix[code] >= code {
    } else {
      StringFrame(prefix, suffix, prefix', suffix', prefix[code]);
    }
  }

  /** The linked table holds the dictionary: every usable code leads down to a root, knows its first symbol,
      and spells the dictionary's string. */
  ghost predicate Holds(clear: nat, dict: seq<seq<byte>>, prefix: seq<int>, first: seq<byte>, suffix: seq<byte>) {
    && |prefix| == |first| == |suffix| == MAX_CODES && clear + 2 <= |dict| <= MAX_CODES
    && forall c | 0 <= c < |dict| && IsString(clear, |dict|, c) ::
         && -1 <= prefix[c] < c && (prefix[c] >= 0 ==> IsString(clear, |dict|, prefix[c]))
         && dict[c] == StringOf(prefix, suffix, c) && first[c] == dict[c][0]
  }

  /** Adding one entry keeps the strings below it and spells its prefix's string with one symbol more. */
  lemma HoldsAdded(clear: nat, dict: seq<seq<byte>>, prefix: seq<int>, first: seq<byte>, suffix: seq<byte>, link: nat, x: byte)
    requires Holds(clear, dict, prefix, first, suffix) && |dict| < MAX_CODES && IsString(clear, |dict|, link)
    ensures var n := |dict|;
            Holds(clear, dict + [dict[link] + [x]], prefix[n := link], first[n := first[link]], suffix[n := x])
  {
    var n := |dict|;
    var dict', prefix', first', suffix' := dict + [dict[link] + [x]], prefix[n := link], first[n := first[link]], suffix[n := x];
    forall c | 0 <= c < n + 1 && IsString(clear, n + 1, c)
      ensures -1 <= prefix'[c] < c && (prefix'[c] >= 0 ==> IsString(clear, n + 1, prefix'[c]))
      ensures dict'[c] == StringOf(prefix', suffix', c) && first'[c] == dict'[c][0]
    {
      if c < n {
        StringFrame(prefix, suffix, prefix', suffix', c);
      } else {
        StringFrame(prefix, suffix, prefix', suffix', link);
      }
    }
  }

  /** After a clear code the first entries are the roots again. */
  lemma HoldsCleared(clear: nat, prefix: seq<int>, first: seq<byte>, suffix: seq<byte>)
    requires clear + 2 <= MAX_CODES && |prefix| == |first| == |suffix| == MAX_CODES
    requires forall c | 0 <= c < clear :: prefix[c] == -1 && first[c] == c % 256 && suffix[c] == c % 256
    ensures Holds(clear, Cleared(clear), prefix, first, suffix)
  {
  }

  /** One string code of the reference decoder. */
  lemma RunString(data: seq<byte>, cs: nat, st: State, code: nat)
    requires st.width >= 1 && st.p + st.width <= 8 * |data| && code == ReadBits(data, st.p, st.width)
    requires code != Pow2(cs) && code != Pow2(cs) + 1
    ensures var e := Entry(Pow2(cs), st, code);
            Run(data, cs, st) ==
              if !st.started || e == None || e.value == [] || (st.prev.Some? && |st.dict| >= MAX_CODES) then Result(false, st.out)
              else Run(data, cs, Widened(Next(st, e.value, st.p + st.width)))
  {
    hide Pow2, ReadBits, Entry, Next, Widened;
  }

  lemma DataNext(s: seq<byte>, pos: nat, len: nat)
    ensures len > 0 ==> DataFrom(s, pos, len) == [At(s, pos)] + DataFrom(s, pos + 1, len - 1)
    ensures len == 0 && At(s, pos) == 0 ==> DataFrom(s, pos, len) == []
    ensures len == 0 && At(s, pos) != 0 ==> DataFrom(s, pos, len) == DataFrom(s, pos + 1, At(s, pos))
  {
  }

  lemma RunSpecial(data: seq<byte>, cs: nat, st: State)
    requires st.width >= 1
    ensures st.p + st.width > 8 * |data| ==> Run(data, cs, st) == Result(true, st.out)
    ensures st.p + st.width <= 8 * |data| && ReadBits(data, st.p, st.width) == Pow2(cs) ==>
              Run(data, cs, st) == Run(data, cs, State(Cleared(Pow2(cs)), None, true, cs + 1, st.p + st.width, st.out))
    ensures st.p + st.width <= 8 * |data| && ReadBits(data, st.p, st.width) == Pow2(cs) + 1 ==> Run(data, cs, st) == Result(true, st.out)
  {
    hide Pow2, ReadBits, Cleared;
  }

  /** What the reference decoder makes of a code that is not special, in terms of the linked table's last code. */
  lemma EntryFacts(clear: nat, st: State, code: nat, link: int, prefix: seq<int>, first: seq<byte>, suffix: seq<byte>)
    requires Holds(clear, st.dict, prefix, first, suffix) && code != clear && code != clear + 1
    requires if link >= 0 then IsString(clear, |st.dict|, link) && st.prev == Some(st.dict[link]) else st.prev == None
    ensures var e, n := Entry(clear, st, code), |st.dict|;
            && (code < n ==> IsString(clear, n, code) && e == Some(st.dict[code]))
            && (code > n || (code == n && link < 0) ==> e == None)
            && (code == n && link >= 0 ==> e == Some(st.dict[link] + [st.dict[link][0]]))
            && (e.Some? ==> e.value != [])
            && (e.Some? ==> forall p: nat :: var r := Next(st, e.value, p);
                  && r.started && r.prev == e && r.out == st.out + e.value
                  && r.dict == (if link < 0 then st.dict
                                else st.dict + [st.dict[link] + [if code >= n then st.dict[link][0] else st.dict[code][0]]])
                  && IsString(clear, |r.dict|, code) && r.dict[code] == e.value)
  {
    hide StringOf;
  }
}
