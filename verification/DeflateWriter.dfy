/** Writing DEFLATE streams as RFC 1951 describes them, and that decoding gives back what was written. Codes, tables and
    orders are stated here by the standard's own words and not taken from the decoder. */
module DeflateWriter {
  import opened BitStrings
  import opened Bits
  import opened Canonical
  import opened Common
  import opened Deflate
  import opened DeflateFacts

  // ----- bits at a place

  /** The bits stand at position p of the stream. */
  ghost predicate Stands(s: seq<byte>, p: nat, bits: seq<nat>) {
    forall k, q | 0 <= k < |bits| && q == p + k :: StreamBit(s, q) == bits[k]
  }

  lemma StandsBoth(s: seq<byte>, p: nat, a: seq<nat>, b: seq<nat>)
    ensures Stands(s, p, a + b) <==> Stands(s, p, a) && Stands(s, p + |a|, b)
  {
    hide StreamBit;
    var ab := a + b;
    if Stands(s, p, ab) {
      forall k, q | 0 <= k < |a| && q == p + k ensures StreamBit(s, q) == a[k] { assert ab[k] == a[k]; }
      forall k, q | 0 <= k < |b| && q == p + |a| + k ensures StreamBit(s, q) == b[k] { assert ab[|a| + k] == b[k]; }
    }
    if Stands(s, p, a) && Stands(s, p + |a|, b) {
      forall k, q | 0 <= k < |ab| && q == p + k ensures StreamBit(s, q) == ab[k] {
        if k >= |a| { assert ab[k] == b[k - |a|]; }
      }
    }
  }

  lemma PackedStands(bits: seq<nat>)
    requires AreBits(bits)
    ensures Stands(LowPacked(bits), 0, bits)
  {
    var s := LowPacked(bits);
    forall k, q | 0 <= k < |bits| && q == 0 + k ensures StreamBit(s, q) == bits[k] { LowPackedBit(bits, k); }
  }

  /** A field: its least significant bit comes first (section 3.1.1). */
  lemma {:induction false} FieldRead(s: seq<byte>, p: nat, v: nat, n: nat)
    requires Stands(s, p, LowBitsOf(v, n)) && v < Pow2(n)
    ensures ReadBits(s, p, n) == v
    decreases n
  {
    hide StreamBit;
    if n == 0 {
    } else {
      assert LowBitsOf(v, n) == [v % 2] + LowBitsOf(v / 2, n - 1);
      StandsBoth(s, p, [v % 2], LowBitsOf(v / 2, n - 1));
      assert StreamBit(s, p) == [v % 2][0];
      FieldRead(s, p + 1, v / 2, n - 1);
    }
  }

  /** A code: its most significant bit comes first. */
  lemma {:induction false} CodeRead(s: seq<byte>, p: nat, c: nat, n: nat)
    requires Stands(s, p, BitsOf(c, n)) && c < Pow2(n)
    ensures CodeBits(s, p, n) == c
  {
    hide StreamBit;
    if n == 0 {
    } else {
      assert BitsOf(c, n) == BitsOf(c / 2, n - 1) + [c % 2];
      StandsBoth(s, p, BitsOf(c / 2, n - 1), [c % 2]);
      assert StreamBit(s, p + (n - 1)) == [c % 2][0];
      CodeRead(s, p, c / 2, n - 1);
    }
  }

  // ----- codes of symbols

  function CodeString(lens: seq<nat>, i: nat): (r: seq<nat>)
    requires i < |lens|
    ensures |r| == lens[i] && AreBits(r)
  {
    BitsOf(CodeOf(lens, i), lens[i])
  }

  predicate Used(lens: seq<nat>, i: nat) { i < |lens| && 1 <= lens[i] <= MAX_LENGTH }

  lemma SymbolRead(s: seq<byte>, lens: seq<nat>, p: nat, i: nat)
    requires Canonical.Fits(lens) && Used(lens, i) && Stands(s, p, CodeString(lens, i))
    ensures Decode(s, lens, p) == Some(Symbol(i, lens[i]))
  {
    hide Decode, CodeBits, Stands, CodeOf, BitsOf;
    assert CodeOf(lens, i) < Pow2(lens[i]) by {
      hide Pow2, EndCode, FirstCode;
      CodeInRange(lens, i);
      assert EndCode(lens, lens[i]) <= Pow2(lens[i]);
    }
    CodeRead(s, p, CodeOf(lens, i), lens[i]);
    DecodeFinds(s, lens, p, i);
  }

  // ----- literals and copies

  /** Section 3.2.5. A copy names its length and distance symbols, counted from 0, and their extra bits. */
  datatype Item = Literal(b: byte) | Copy(k: nat, extra: nat, j: nat, more: nat)

  const LENGTH_BITS: seq<nat> := [0, 0, 0, 0, 0, 0, 0, 0, 1, 1, 1, 1, 2, 2, 2, 2, 3, 3, 3, 3, 4, 4, 4, 4, 5, 5, 5, 5, 0]
  const DISTANCE_BITS: seq<nat> := [0, 0, 0, 0, 1, 1, 2, 2, 3, 3, 4, 4, 5, 5, 6, 6, 7, 7, 8, 8, 9, 9, 10, 10, 11, 11, 12, 12, 13, 13]

  /** Each length symbol begins where the one before it ends; the last one is 258. */
  function FirstLength(k: nat): nat
    requires k < 29
  {
    if k == 0 then 3 else if k == 28 then 258 else FirstLength(k - 1) + Pow2(LENGTH_BITS[k - 1])
  }

  function FirstDistance(j: nat): nat
    requires j < 30
  {
    if j == 0 then 1 else FirstDistance(j - 1) + Pow2(DISTANCE_BITS[j - 1])
  }

  lemma LengthSymbols(k: nat)
    requires k < 29
    ensures LengthExtra(k) == LENGTH_BITS[k] <= 5 && (k < 27 ==> LengthBase(k + 1) == LengthBase(k) + Pow2(LengthExtra(k)))
  {
    Pow2Table();
    hide Pow2;
    var e := k / 4;
    assert e == 0 || e == 1 || e == 2 || e == 3 || e == 4 || e == 5 || e == 6 || e == 7;
    assert k == 4 * e || k == 4 * e + 1 || k == 4 * e + 2 || k == 4 * e + 3;
  }

  lemma DistanceSymbols(j: nat)
    requires j < 30
    ensures DistanceExtra(j) == DISTANCE_BITS[j] <= 13 && (j < 29 ==> DistanceBase(j + 1) == DistanceBase(j) + Pow2(DistanceExtra(j)))
  {
    Pow2Table();
    hide Pow2;
    var e := j / 2;
    assert j == 2 * e || j == 2 * e + 1;
    if e < 5 {
      assert e == 0 || e == 1 || e == 2 || e == 3 || e == 4;
    } else if e < 10 {
      assert e == 5 || e == 6 || e == 7 || e == 8 || e == 9;
    } else {
      assert e == 10 || e == 11 || e == 12 || e == 13 || e == 14;
    }
  }

  lemma {:induction false} LengthIs(k: nat)
    requires k < 29
    ensures FirstLength(k) == LengthBase(k)
  {
    if k == 0 || k == 28 {
    } else {
      LengthIs(k - 1);
      LengthSymbols(k - 1);
      hide LengthBase, Pow2, LengthExtra;
    }
  }

  lemma {:induction false} DistanceIs(j: nat)
    requires j < 30
    ensures FirstDistance(j) == DistanceBase(j)
  {
    if j == 0 {
    } else {
      DistanceIs(j - 1);
      DistanceSymbols(j - 1);
      hide DistanceBase, Pow2, DistanceExtra;
    }
  }

  /** The remainder of i. */
  function Turn(i: nat, dist: nat): (r: nat)
    requires dist >= 1
    ensures r < dist
  {
    if i < dist then i else Turn(i - dist, dist)
  }

  /** The string, and then its last `dist` bytes again and again. */
  function Repeated(out: seq<byte>, dist: nat, len: nat): (r: seq<byte>)
    requires 1 <= dist <= |out|
    ensures |r| == |out| + len
  {
    out + seq(len, i requires 0 <= i < len => out[|out| - dist + Turn(i, dist)])
  }

  lemma {:induction false} CopyRepeats(out: seq<byte>, dist: nat, len: nat)
    requires 1 <= dist <= |out|
    ensures CopyMatch(out, dist, len) == Repeated(out, dist, len)
    decreases len
  {
    if len == 0 {
    } else {
      var next := out + [out[|out| - dist]];
      CopyRepeats(next, dist, len - 1);
      var a, b := Repeated(next, dist, len - 1), Repeated(out, dist, len);
      forall k | 0 <= k < |b| ensures a[k] == b[k] {
        if k > |out| { NextInTurn(k - |out| - 1, dist); }
      }
    }
  }

  lemma {:induction false} NextInTurn(i: nat, dist: nat)
    requires dist >= 1
    ensures Turn(i + 1, dist) == if Turn(i, dist) == dist - 1 then 0 else Turn(i, dist) + 1
  {
    if i < dist {
    } else {
      NextInTurn(i - dist, dist);
    }
  }

  function LengthOf(item: Item): nat
    requires item.Copy? && item.k < 29
  {
    FirstLength(item.k) + item.extra
  }

  function DistanceOf(item: Item): (r: nat)
    requires item.Copy? && item.j < 30
  {
    FirstDistance(item.j) + item.more
  }

  /** The item can be written with these codes after `out`. */
  predicate ItemOk(ll: seq<nat>, dd: seq<nat>, item: Item, out: seq<byte>) {
    match item
    case Literal(b) => Used(ll, b)
    case Copy(k, extra, j, more) =>
      && k < 29 && extra < Pow2(LENGTH_BITS[k]) && Used(ll, 257 + k)
      && j < 30 && more < Pow2(DISTANCE_BITS[j]) && Used(dd, j) && 1 <= DistanceOf(item) <= |out|
  }

  function ItemMeaning(item: Item, out: seq<byte>): seq<byte>
    requires item.Copy? ==> item.k < 29 && item.j < 30 && 1 <= DistanceOf(item) <= |out|
  {
    match item
    case Literal(b) => out + [b]
    case Copy(_, _, _, _) => Repeated(out, DistanceOf(item), LengthOf(item))
  }

  /** What comes after the length symbol. */
  function TailBits(dd: seq<nat>, item: Item): (r: seq<nat>)
    requires item.Copy? && item.k < 29 && item.j < 30 && item.j < |dd|
    ensures AreBits(r) && |r| == LENGTH_BITS[item.k] + dd[item.j] + DISTANCE_BITS[item.j]
  {
    LowBitsOf(item.extra, LENGTH_BITS[item.k]) + CodeString(dd, item.j) + LowBitsOf(item.more, DISTANCE_BITS[item.j])
  }

  function ItemBits(ll: seq<nat>, dd: seq<nat>, item: Item, out: seq<byte>): (r: seq<nat>)
    requires ItemOk(ll, dd, item, out)
    ensures AreBits(r) && |r| > 0
  {
    match item
    case Literal(b) => CodeString(ll, b)
    case Copy(k, _, _, _) => CodeString(ll, 257 + k) + TailBits(dd, item)
  }

  lemma MatchRead(s: seq<byte>, ll: seq<nat>, dd: seq<nat>, item: Item, out: seq<byte>, p: nat)
    requires item.Copy? && ItemOk(ll, dd, item, out) && Canonical.Fits(dd)
    requires Stands(s, p, TailBits(dd, item))
    ensures ReadMatch(s, dd, item.k, p) == Match(p + |TailBits(dd, item)|, LengthOf(item), DistanceOf(item))
  {
    hide Stands, LowBitsOf, CodeString, Decode, ReadBits, LengthBase, DistanceBase, FirstLength, FirstDistance, Pow2, Canonical.Fits;
    var a, b, c := LowBitsOf(item.extra, LENGTH_BITS[item.k]), CodeString(dd, item.j), LowBitsOf(item.more, DISTANCE_BITS[item.j]);
    StandsBoth(s, p, a + b, c);
    StandsBoth(s, p, a, b);
    LengthSymbols(item.k);
    LengthIs(item.k);
    DistanceSymbols(item.j);
    DistanceIs(item.j);
    FieldRead(s, p, item.extra, LENGTH_BITS[item.k]);
    SymbolRead(s, dd, p + |a|, item.j);
    FieldRead(s, p + |a| + |b|, item.more, DISTANCE_BITS[item.j]);
  }

  lemma CopyRead(s: seq<byte>, ll: seq<nat>, dd: seq<nat>, item: Item, out: seq<byte>, p: nat)
    requires item.Copy? && ItemOk(ll, dd, item, out) && Canonical.Fits(ll) && Canonical.Fits(dd)
    requires Stands(s, p, CodeString(ll, 257 + item.k) + TailBits(dd, item))
    ensures SymbolStep(s, ll, dd, p, out) ==
            Emit(p + ll[257 + item.k] + |TailBits(dd, item)|, CopyMatch(out, DistanceOf(item), LengthOf(item)))
  {
    hide Stands, CodeString, TailBits, Decode, ReadMatch, CopyMatch, LengthOf, DistanceOf, Pow2, Canonical.Fits;
    StandsBoth(s, p, CodeString(ll, 257 + item.k), TailBits(dd, item));
    SymbolRead(s, ll, p, 257 + item.k);
    MatchRead(s, ll, dd, item, out, p + ll[257 + item.k]);
  }

  lemma ItemRead(s: seq<byte>, ll: seq<nat>, dd: seq<nat>, item: Item, out: seq<byte>, p: nat)
    requires ItemOk(ll, dd, item, out) && Canonical.Fits(ll) && Canonical.Fits(dd) && Stands(s, p, ItemBits(ll, dd, item, out))
    ensures SymbolStep(s, ll, dd, p, out) == Emit(p + |ItemBits(ll, dd, item, out)|, ItemMeaning(item, out))
  {
    hide Stands, CodeString, TailBits, Decode, MatchStep, CopyMatch, Repeated, LengthOf, DistanceOf, Pow2, Canonical.Fits;
    if item.Literal? {
      SymbolRead(s, ll, p, item.b);
    } else {
      hide SymbolStep;
      CopyRead(s, ll, dd, item, out, p);
      CopyRepeats(out, DistanceOf(item), LengthOf(item));
    }
  }

  /** All items can be written, one after the other, and the block can be ended. */
  predicate ItemsOk(ll: seq<nat>, dd: seq<nat>, items: seq<Item>, out: seq<byte>) {
    if items == [] then Used(ll, 256)
    else ItemOk(ll, dd, items[0], out) && ItemsOk(ll, dd, items[1..], ItemMeaning(items[0], out))
  }

  function ItemsMeaning(ll: seq<nat>, dd: seq<nat>, items: seq<Item>, out: seq<byte>): seq<byte>
    requires ItemsOk(ll, dd, items, out)
  {
    if items == [] then out else ItemsMeaning(ll, dd, items[1..], ItemMeaning(items[0], out))
  }

  function ItemsBits(ll: seq<nat>, dd: seq<nat>, items: seq<Item>, out: seq<byte>): (r: seq<nat>)
    requires ItemsOk(ll, dd, items, out)
    ensures AreBits(r) && |r| > 0
  {
    if items == [] then CodeString(ll, 256)
    else ItemBits(ll, dd, items[0], out) + ItemsBits(ll, dd, items[1..], ItemMeaning(items[0], out))
  }

  lemma EndRead(s: seq<byte>, ll: seq<nat>, dd: seq<nat>, out: seq<byte>, p: nat)
    requires Canonical.Fits(ll) && Used(ll, 256) && Stands(s, p, CodeString(ll, 256))
    ensures SymbolStep(s, ll, dd, p, out) == EndOfBlock(p + ll[256])
  {
    hide Stands, CodeString, Decode, Canonical.Fits;
    SymbolRead(s, ll, p, 256);
  }

  /** A compressed block is read as it was written. */
  lemma {:induction false} ItemsRead(s: seq<byte>, limit: nat, ll: seq<nat>, dd: seq<nat>, items: seq<Item>, out: seq<byte>, p: nat)
    requires ItemsOk(ll, dd, items, out) && Canonical.Fits(ll) && Canonical.Fits(dd)
    requires Stands(s, p, ItemsBits(ll, dd, items, out)) && p + |ItemsBits(ll, dd, items, out)| <= limit
    ensures Symbols(s, limit, ll, dd, p, out) == Done(p + |ItemsBits(ll, dd, items, out)|, ItemsMeaning(ll, dd, items, out))
    decreases |items|
  {
    hide Stands, ItemBits, ItemMeaning, SymbolStep, CodeString, Canonical.Fits, DistanceOf, Pow2;
    if items == [] {
      EndRead(s, ll, dd, out, p);
    } else {
      var a, next := ItemBits(ll, dd, items[0], out), ItemMeaning(items[0], out);
      StandsBoth(s, p, a, ItemsBits(ll, dd, items[1..], next));
      ItemRead(s, ll, dd, items[0], out, p);
      ItemsRead(s, limit, ll, dd, items[1..], next, p + |a|);
    }
  }

  // ----- code lengths (section 3.2.7)

  /** A length, the previous length 3 to 6 times, 3 to 10 zeros or 11 to 138 zeros. */
  datatype Run = One(n: nat) | Again(extra: nat) | Zeros(extra: nat) | ManyZeros(extra: nat)

  function RunSymbol(run: Run): nat {
    match run
    case One(n) => n
    case Again(_) => 16
    case Zeros(_) => 17
    case ManyZeros(_) => 18
  }

  predicate RunOk(cl: seq<nat>, run: Run, lens: seq<nat>) {
    && Used(cl, RunSymbol(run))
    && match run
       case One(n) => n <= 15
       case Again(extra) => extra < 4 && lens != []
       case Zeros(extra) => extra < 8
       case ManyZeros(extra) => extra < 128
  }

  function RunMeaning(run: Run, lens: seq<nat>): seq<nat>
    requires run.Again? ==> lens != []
  {
    match run
    case One(n) => lens + [n]
    case Again(extra) => lens + Repeat(lens[|lens| - 1], 3 + extra)
    case Zeros(extra) => lens + Repeat(0, 3 + extra)
    case ManyZeros(extra) => lens + Repeat(0, 11 + extra)
  }

  function RunBits(cl: seq<nat>, run: Run, lens: seq<nat>): (r: seq<nat>)
    requires RunOk(cl, run, lens)
    ensures AreBits(r)
  {
    CodeString(cl, RunSymbol(run)) +
    match run
    case One(_) => []
    case Again(extra) => LowBitsOf(extra, 2)
    case Zeros(extra) => LowBitsOf(extra, 3)
    case ManyZeros(extra) => LowBitsOf(extra, 7)
  }

  predicate RunsOk(cl: seq<nat>, runs: seq<Run>, lens: seq<nat>) {
    runs == [] || (RunOk(cl, runs[0], lens) && RunsOk(cl, runs[1..], RunMeaning(runs[0], lens)))
  }

  function RunsMeaning(cl: seq<nat>, runs: seq<Run>, lens: seq<nat>): (r: seq<nat>)
    requires RunsOk(cl, runs, lens)
    ensures |r| >= |lens|
  {
    if runs == [] then lens else RunsMeaning(cl, runs[1..], RunMeaning(runs[0], lens))
  }

  function RunsBits(cl: seq<nat>, runs: seq<Run>, lens: seq<nat>): (r: seq<nat>)
    requires RunsOk(cl, runs, lens)
    ensures AreBits(r)
  {
    if runs == [] then [] else RunBits(cl, runs[0], lens) + RunsBits(cl, runs[1..], RunMeaning(runs[0], lens))
  }

  lemma RunRead(s: seq<byte>, cl: seq<nat>, total: nat, run: Run, lens: seq<nat>, p: nat)
    requires Canonical.Fits(cl) && RunOk(cl, run, lens) && IsLengths(lens) && Stands(s, p, RunBits(cl, run, lens))
    requires |RunMeaning(run, lens)| <= total
    ensures IsLengths(RunMeaning(run, lens)) && |lens| < |RunMeaning(run, lens)|
    ensures RunLengths(s, cl, total, p, lens) == RunLengths(s, cl, total, p + |RunBits(cl, run, lens)|, RunMeaning(run, lens))
  {
    Pow2Table();
    hide Stands, LowBitsOf, CodeString, Decode, ReadBits, Pow2, Canonical.Fits, Repeat;
    var sym := RunSymbol(run);
    var a := CodeString(cl, sym);
    var b := RunBits(cl, run, lens)[|a|..];
    assert RunBits(cl, run, lens) == a + b;
    StandsBoth(s, p, a, b);
    SymbolRead(s, cl, p, sym);
    match run
    case One(n) =>
    case Again(extra) => FieldRead(s, p + |a|, extra, 2);
    case Zeros(extra) => FieldRead(s, p + |a|, extra, 3);
    case ManyZeros(extra) => FieldRead(s, p + |a|, extra, 7);
  }

  lemma {:induction false} RunsRead(s: seq<byte>, cl: seq<nat>, runs: seq<Run>, lens: seq<nat>, p: nat)
    requires Canonical.Fits(cl) && RunsOk(cl, runs, lens) && IsLengths(lens) && Stands(s, p, RunsBits(cl, runs, lens))
    ensures var all := RunsMeaning(cl, runs, lens);
            IsLengths(all) && RunLengths(s, cl, |all|, p, lens) == Lengths(p + |RunsBits(cl, runs, lens)|, all)
    decreases |runs|
  {
    hide Stands, RunBits, RunMeaning, Canonical.Fits, Decode, CodeString, ReadBits;
    if runs == [] {
    } else {
      assert runs[0].Again? ==> lens != [];
      var a, next := RunBits(cl, runs[0], lens), RunMeaning(runs[0], lens);
      StandsBoth(s, p, a, RunsBits(cl, runs[1..], next));
      RunRead(s, cl, |RunsMeaning(cl, runs, lens)|, runs[0], lens, p);
      RunsRead(s, cl, runs[1..], next, p + |a|);
    }
  }

  // ----- the header of a dynamic block

  /** Section 3.2.7: first 16, 17, 18 and 0, then outward from 8 and 7 in turn. */
  function Order(i: nat): nat
    requires i < 19
  {
    if i < 3 then 16 + i else if i == 3 then 0 else if i % 2 == 0 then 8 + (i - 4) / 2 else 7 - (i - 5) / 2
  }

  lemma OrderIs(i: nat)
    requires i < 19
    ensures CODE_LENGTH_ORDER[i] == Order(i) < 19
  {
  }

  /** Where length x stands in that order. */
  function Place(x: nat): (i: nat)
    requires x < 19
    ensures i < 19 && Order(i) == x
  {
    if x >= 16 then x - 16 else if x == 0 then 3 else if x >= 8 then 4 + 2 * (x - 8) else 5 + 2 * (7 - x)
  }

  predicate CodeLengthsOk(cl: seq<nat>, hclen: nat) {
    && |cl| == 19 && 4 <= hclen <= 19 && (forall x | 0 <= x < 19 :: cl[x] <= 7)
    && forall i | hclen <= i < 19 :: cl[Order(i)] == 0
  }

  function FieldBits(cl: seq<nat>, n: nat): (r: seq<nat>)
    requires |cl| == 19 && n <= 19
    ensures |r| == 3 * n && AreBits(r)
  {
    if n == 0 then []
    else
      OrderIs(n - 1);
      FieldBits(cl, n - 1) + LowBitsOf(cl[Order(n - 1)], 3)
  }

  lemma {:induction false} FieldsRead(s: seq<byte>, cl: seq<nat>, n: nat, p: nat, i: nat)
    requires |cl| == 19 && i < n <= 19 && (forall x | 0 <= x < 19 :: cl[x] <= 7) && Stands(s, p, FieldBits(cl, n))
    ensures ReadBits(s, p + 3 * i, 3) == cl[Order(i)]
  {
    OrderIs(n - 1);
    Pow2Table();
    hide Stands, LowBitsOf, ReadBits, Order, Pow2;
    StandsBoth(s, p, FieldBits(cl, n - 1), LowBitsOf(cl[Order(n - 1)], 3));
    if i == n - 1 {
      FieldRead(s, p + 3 * i, cl[Order(i)], 3);
    } else {
      FieldsRead(s, cl, n - 1, p, i);
    }
  }

  lemma CodeLengthsRead(s: seq<byte>, cl: seq<nat>, hclen: nat, p: nat)
    requires CodeLengthsOk(cl, hclen) && Stands(s, p, FieldBits(cl, hclen))
    ensures CodeLengthLengths(s, p, hclen) == cl
  {
    hide Stands, ReadBits, FieldBits, CodeLengthLengths, Order;
    var r := CodeLengthLengths(s, p, hclen);
    forall x | 0 <= x < 19 ensures r[x] == cl[x] {
      var i := Place(x);
      OrderIs(i);
      if i < hclen {
        CodeLengthAt(s, p, hclen, i);
        FieldsRead(s, cl, hclen, p, i);
      } else {
        CodeLengthRest(s, p, hclen, i);
      }
    }
  }

  // ----- blocks (section 3.2.3)

  datatype Block =
    | StoredBlock(pad: seq<nat>, data: seq<byte>)
    | FixedBlock(items: seq<Item>)
    | DynamicBlock(ll: seq<nat>, dd: seq<nat>, hclen: nat, cl: seq<nat>, runs: seq<Run>, items: seq<Item>)

  function Kind(b: Block): nat {
    match b
    case StoredBlock(_, _) => 0
    case FixedBlock(_) => 1
    case DynamicBlock(_, _, _, _, _, _) => 2
  }

  /** The codes of a dynamic block as its header tells them. */
  ghost predicate HeaderFor(ll: seq<nat>, dd: seq<nat>, hclen: nat, cl: seq<nat>, runs: seq<Run>) {
    && 257 <= |ll| <= 288 && 1 <= |dd| <= 32 && Canonical.Fits(ll) && Canonical.Fits(dd)
    && CodeLengthsOk(cl, hclen) && Canonical.Fits(cl) && RunsOk(cl, runs, []) && RunsMeaning(cl, runs, []) == ll + dd
  }

  /** The block can be written when its body begins at position p. */
  ghost predicate BlockOk(b: Block, p: nat, out: seq<byte>) {
    match b
    case StoredBlock(pad, data) => AreBits(pad) && |pad| < 8 && (p + |pad|) % 8 == 0 && |data| < 0x10000
    case FixedBlock(items) => ItemsOk(FIXED_LITERALS, FIXED_DISTANCES, items, out)
    case DynamicBlock(ll, dd, hclen, cl, runs, items) => HeaderFor(ll, dd, hclen, cl, runs) && ItemsOk(ll, dd, items, out)
  }

  ghost function BlockMeaning(b: Block, p: nat, out: seq<byte>): seq<byte>
    requires BlockOk(b, p, out)
  {
    match b
    case StoredBlock(_, data) => out + data
    case FixedBlock(items) => ItemsMeaning(FIXED_LITERALS, FIXED_DISTANCES, items, out)
    case DynamicBlock(ll, dd, _, _, _, items) => ItemsMeaning(ll, dd, items, out)
  }

  function ByteBits(data: seq<byte>): (r: seq<nat>)
    ensures |r| == 8 * |data| && AreBits(r)
  {
    if data == [] then [] else ByteBits(data[..|data| - 1]) + LowBitsOf(data[|data| - 1], 8)
  }

  /** Two bytes, the less significant first (section 3.1.1). */
  function WordBits(v: nat): (r: seq<nat>)
    ensures |r| == 16 && AreBits(r)
  {
    LowBitsOf(v % 256, 8) + LowBitsOf(v / 256, 8)
  }

  /** The lengths in front of a stored block: LEN and its complement NLEN. */
  function StoredBits(pad: seq<nat>, data: seq<byte>): (r: seq<nat>)
    requires AreBits(pad) && |data| < 0x10000
    ensures AreBits(r)
  {
    pad + WordBits(|data|) + WordBits(0xffff - |data|) + ByteBits(data)
  }

  /** HLIT, HDIST, HCLEN, the lengths of the code length code and the run-length coded lengths. */
  ghost function HeaderBits(ll: seq<nat>, dd: seq<nat>, hclen: nat, cl: seq<nat>, runs: seq<Run>): (r: seq<nat>)
    requires HeaderFor(ll, dd, hclen, cl, runs)
    ensures AreBits(r)
  {
    LowBitsOf(|ll| - 257, 5) + LowBitsOf(|dd| - 1, 5) + LowBitsOf(hclen - 4, 4) + FieldBits(cl, hclen) + RunsBits(cl, runs, [])
  }

  ghost function BodyBits(b: Block, p: nat, out: seq<byte>): (r: seq<nat>)
    requires BlockOk(b, p, out)
    ensures AreBits(r)
  {
    match b
    case StoredBlock(pad, data) => StoredBits(pad, data)
    case FixedBlock(items) => ItemsBits(FIXED_LITERALS, FIXED_DISTANCES, items, out)
    case DynamicBlock(ll, dd, hclen, cl, runs, items) => HeaderBits(ll, dd, hclen, cl, runs) + ItemsBits(ll, dd, items, out)
  }

  // ----- stored blocks

  lemma WordRead(s: seq<byte>, p: nat, v: nat)
    requires v < 0x10000 && Stands(s, p, WordBits(v))
    ensures Word(s, p) == v
  {
    Pow2Table();
    hide Stands, LowBitsOf, ReadBits, Pow2;
    StandsBoth(s, p, LowBitsOf(v % 256, 8), LowBitsOf(v / 256, 8));
    FieldRead(s, p, v % 256, 8);
    FieldRead(s, p + 8, v / 256, 8);
  }

  lemma {:induction false} BytesRead(s: seq<byte>, p: nat, data: seq<byte>)
    requires Stands(s, p, ByteBits(data))
    ensures Bytes(s, p, |data|) == data
    decreases |data|
  {
    Pow2Table();
    hide Stands, LowBitsOf, ReadBits, Pow2;
    if data == [] {
    } else {
      var front, last := data[..|data| - 1], data[|data| - 1];
      StandsBoth(s, p, ByteBits(front), LowBitsOf(last, 8));
      BytesRead(s, p, front);
      FieldRead(s, p + 8 * |front|, last, 8);
    }
  }

  lemma StoredRead(s: seq<byte>, limit: nat, pad: seq<nat>, data: seq<byte>, out: seq<byte>, p: nat)
    requires AreBits(pad) && |pad| < 8 && (p + |pad|) % 8 == 0 && |data| < 0x10000
    requires Stands(s, p, StoredBits(pad, data)) && p + |StoredBits(pad, data)| <= limit
    ensures Stored(s, limit, p, out) == Done(p + |StoredBits(pad, data)|, out + data)
  {
    hide Stands, LowBitsOf, ReadBits, Word, WordBits, ByteBits, Bytes;
    var q := p + |pad|;
    var n := |data|;
    AlignIs(p, q / 8);
    StandsBoth(s, p, pad + WordBits(n) + WordBits(0xffff - n), ByteBits(data));
    StandsBoth(s, p, pad + WordBits(n), WordBits(0xffff - n));
    StandsBoth(s, p, pad, WordBits(n));
    WordRead(s, q, n);
    WordRead(s, q + 16, 0xffff - n);
    BytesRead(s, q + 32, data);
    StoredOk(s, limit, p, n, out);
  }

  // ----- dynamic blocks

  lemma HeaderStands(s: seq<byte>, ll: seq<nat>, dd: seq<nat>, hclen: nat, cl: seq<nat>, runs: seq<Run>, p: nat)
    requires HeaderFor(ll, dd, hclen, cl, runs) && Stands(s, p, HeaderBits(ll, dd, hclen, cl, runs))
    ensures ReadBits(s, p, 5) == |ll| - 257 && ReadBits(s, p + 5, 5) == |dd| - 1 && ReadBits(s, p + 10, 4) == hclen - 4
    ensures Stands(s, p + 14, FieldBits(cl, hclen)) && Stands(s, p + 14 + 3 * hclen, RunsBits(cl, runs, []))
    ensures |HeaderBits(ll, dd, hclen, cl, runs)| == 14 + 3 * hclen + |RunsBits(cl, runs, [])|
  {
    Pow2Table();
    hide Stands, LowBitsOf, ReadBits, FieldBits, RunsBits, RunsMeaning, RunsOk, Canonical.Fits, Pow2, CodeLengthsOk;
    HeaderSize(cl, hclen);
    var a, b, c := LowBitsOf(|ll| - 257, 5), LowBitsOf(|dd| - 1, 5), LowBitsOf(hclen - 4, 4);
    StandsBoth(s, p, a + b + c + FieldBits(cl, hclen), RunsBits(cl, runs, []));
    StandsBoth(s, p, a + b + c, FieldBits(cl, hclen));
    StandsBoth(s, p, a + b, c);
    StandsBoth(s, p, a, b);
    FieldRead(s, p, |ll| - 257, 5);
    FieldRead(s, p + 5, |dd| - 1, 5);
    FieldRead(s, p + 10, hclen - 4, 4);
  }

  lemma HeaderSize(cl: seq<nat>, hclen: nat)
    requires CodeLengthsOk(cl, hclen)
    ensures 4 <= hclen <= 19 && |cl| == 19
  {
  }

  lemma HeaderRead(s: seq<byte>, ll: seq<nat>, dd: seq<nat>, hclen: nat, cl: seq<nat>, runs: seq<Run>, p: nat)
    requires HeaderFor(ll, dd, hclen, cl, runs) && Stands(s, p, HeaderBits(ll, dd, hclen, cl, runs))
    ensures DynamicCodes(s, p) == Codes(p + |HeaderBits(ll, dd, hclen, cl, runs)|, ll, dd)
  {
    hide Stands, ReadBits, FieldBits, RunsBits, RunLengths, CodeLengthLengths, Canonical.Fits, HeaderBits, CodeLengthsOk, Pow2;
    HeaderSize(cl, hclen);
    HeaderStands(s, ll, dd, hclen, cl, runs, p);
    CodeLengthsRead(s, cl, hclen, p + 14);
    RunsRead(s, cl, runs, [], p + 14 + 3 * hclen);
    assert (ll + dd)[..|ll|] == ll && (ll + dd)[|ll|..] == dd;
  }

  // ----- streams

  lemma BodyRead(s: seq<byte>, limit: nat, b: Block, out: seq<byte>, p: nat)
    requires BlockOk(b, p, out) && Stands(s, p, BodyBits(b, p, out)) && p + |BodyBits(b, p, out)| <= limit
    ensures Deflate.Block(s, limit, Kind(b), p, out) == Done(p + |BodyBits(b, p, out)|, BlockMeaning(b, p, out))
  {
    hide Stands, ItemsBits, ItemsOk, ItemsMeaning, HeaderBits, StoredBits, Symbols, Stored, DynamicCodes, Canonical.Fits, Repeat;
    match b
    case StoredBlock(pad, data) => StoredRead(s, limit, pad, data, out, p);
    case FixedBlock(items) =>
      FixedFit();
      ItemsRead(s, limit, FIXED_LITERALS, FIXED_DISTANCES, items, out, p);
    case DynamicBlock(ll, dd, hclen, cl, runs, items) =>
      var a := HeaderBits(ll, dd, hclen, cl, runs);
      StandsBoth(s, p, a, ItemsBits(ll, dd, items, out));
      HeaderRead(s, ll, dd, hclen, cl, runs, p);
      ItemsRead(s, limit, ll, dd, items, out, p + |a|);
  }

  ghost predicate StreamOk(blocks: seq<Block>, p: nat, out: seq<byte>)
    decreases |blocks|
  {
    && blocks != [] && BlockOk(blocks[0], p + 3, out)
    && (|blocks| > 1 ==>
          StreamOk(blocks[1..], p + 3 + |BodyBits(blocks[0], p + 3, out)|, BlockMeaning(blocks[0], p + 3, out)))
  }

  ghost function Meaning(blocks: seq<Block>, p: nat, out: seq<byte>): seq<byte>
    requires StreamOk(blocks, p, out)
    decreases |blocks|
  {
    hide BodyBits, BlockMeaning, BlockOk;
    var next := BlockMeaning(blocks[0], p + 3, out);
    if |blocks| == 1 then next else Meaning(blocks[1..], p + 3 + |BodyBits(blocks[0], p + 3, out)|, next)
  }

  /** BFINAL and BTYPE in front of each block. */
  ghost function StreamBits(blocks: seq<Block>, p: nat, out: seq<byte>): (r: seq<nat>)
    requires StreamOk(blocks, p, out)
    ensures AreBits(r)
    decreases |blocks|
  {
    hide BodyBits, BlockMeaning, BlockOk;
    var b, body := blocks[0], BodyBits(blocks[0], p + 3, out);
    [if |blocks| == 1 then 1 else 0] + LowBitsOf(Kind(b), 2) + body +
    if |blocks| == 1 then [] else StreamBits(blocks[1..], p + 3 + |body|, BlockMeaning(b, p + 3, out))
  }

  lemma BlockHeaderRead(s: seq<byte>, p: nat, last: nat, kind: nat, body: seq<nat>)
    requires last <= 1 && kind < 3 && Stands(s, p, [last] + LowBitsOf(kind, 2) + body)
    ensures StreamBit(s, p) == last && ReadBits(s, p + 1, 2) == kind && Stands(s, p + 3, body)
  {
    Pow2Table();
    hide LowBitsOf, ReadBits, StreamBit, Pow2;
    StandsBoth(s, p, [last] + LowBitsOf(kind, 2), body);
    StandsBoth(s, p, [last], LowBitsOf(kind, 2));
    assert StreamBit(s, p) == [last][0];
    FieldRead(s, p + 1, kind, 2);
  }

  /** Every stream of stored, fixed and dynamic blocks, however its codes and copies are chosen, is decoded to what it means. */
  lemma {:induction false} StreamRead(s: seq<byte>, limit: nat, blocks: seq<Block>, out: seq<byte>, p: nat)
    requires StreamOk(blocks, p, out) && Stands(s, p, StreamBits(blocks, p, out)) && p + |StreamBits(blocks, p, out)| <= limit
    ensures Blocks(s, limit, p, out) == Done(p + |StreamBits(blocks, p, out)|, Meaning(blocks, p, out))
    decreases |blocks|
  {
    hide Stands, BodyBits, BlockMeaning, BlockOk, Deflate.Block, ReadBits, StreamBit, LowBitsOf;
    var b := blocks[0];
    var body, next := BodyBits(b, p + 3, out), BlockMeaning(b, p + 3, out);
    var last := if |blocks| == 1 then 1 else 0;
    var rest := if |blocks| == 1 then [] else StreamBits(blocks[1..], p + 3 + |body|, next);
    assert StreamBits(blocks, p, out) == [last] + LowBitsOf(Kind(b), 2) + body + rest;
    StandsBoth(s, p, [last] + LowBitsOf(Kind(b), 2) + body, rest);
    BlockHeaderRead(s, p, last, Kind(b), body);
    BodyRead(s, limit, b, out, p + 3);
    if |blocks| == 1 {
    } else {
      StreamRead(s, limit, blocks[1..], next, p + 3 + |body|);
    }
  }

  /** The bytes of a stream behind a header of whole bytes. */
  ghost function Written(header: seq<byte>, blocks: seq<Block>): seq<byte>
    requires StreamOk(blocks, 8 * |header|, [])
  {
    header + LowPacked(StreamBits(blocks, 8 * |header|, []))
  }

  lemma WrittenStands(header: seq<byte>, blocks: seq<Block>)
    requires StreamOk(blocks, 8 * |header|, [])
    ensures Stands(Written(header, blocks), 8 * |header|, StreamBits(blocks, 8 * |header|, []))
    ensures 8 * |header| + |StreamBits(blocks, 8 * |header|, [])| <= 8 * |Written(header, blocks)|
  {
    hide StreamBits, StreamOk, Bit;
    var bits := StreamBits(blocks, 8 * |header|, []);
    var s := Written(header, blocks);
    forall k, q | 0 <= k < |bits| && q == 8 * |header| + k ensures StreamBit(s, q) == bits[k] {
      LowPackedBit(bits, k);
      assert q / 8 == |header| + k / 8 && q % 8 == k % 8;
    }
  }

  /** Method 8, no preset dictionary, and a multiple of 31 (section 2.2 of RFC 1950). */
  predicate IsHeader(header: seq<byte>) {
    |header| == 2 && Low(header[0], 4) == 8 && Bit(header[1], 5) == 0 && (256 * (header[0] as int) + header[1]) % 31 == 0
  }

  /** The round trip, without a header and with one. */
  lemma InflateWritten(header: seq<byte>, blocks: seq<Block>)
    requires StreamOk(blocks, 8 * |header|, [])
    requires header == [] || IsHeader(header)
    ensures var s := Written(header, blocks);
            Deflate.Inflate(s, 8 * |s|, header != []) ==
            Done(8 * |header| + |StreamBits(blocks, 8 * |header|, [])|, Meaning(blocks, 8 * |header|, []))
  {
    hide StreamBits, StreamOk, Stands, Blocks, Meaning, Bit;
    var s := Written(header, blocks);
    WrittenStands(header, blocks);
    StreamRead(s, 8 * |s|, blocks, [], 8 * |header|);
    if header != [] { HeaderGood(s, blocks, header); }
  }

  lemma HeaderGood(s: seq<byte>, blocks: seq<Block>, header: seq<byte>)
    requires IsHeader(header)
    requires StreamOk(blocks, 16, []) && s == Written(header, blocks)
    ensures HeaderOk(s)
  {
    hide StreamOk, Bit, BodyBits, BlockMeaning;
    assert |StreamBits(blocks, 16, [])| >= 3;
    assert s[0] == header[0] && s[1] == header[1];
  }

  // ----- the fixed codes (section 3.2.6)

  function FixedCode(i: nat): nat
    requires i < 288
  {
    if i < 144 then 0x30 + i else if i < 256 then 0x190 + (i - 144) else if i < 280 then i - 256 else 0xc0 + (i - 280)
  }

  function FixedLength(i: nat): nat
    requires i < 288
  {
    if i < 144 then 8 else if i < 256 then 9 else if i < 280 then 7 else 8
  }

  lemma FixedCounts(ll: seq<nat>)
    requires |ll| == 288 && forall i | 0 <= i < 288 :: ll[i] == FixedLength(i)
    ensures FirstCode(ll, 7) == 0 && FirstCode(ll, 8) == 0x30 && FirstCode(ll, 9) == 0x190
  {
    ShortestCodes(ll, 7);
    CountNone(ll, 7, 0, 256);
    CountRun(ll, 7, 256, 280);
    CountNone(ll, 7, 280, 288);
    CountRun(ll, 8, 0, 144);
    CountNone(ll, 8, 144, 280);
    CountRun(ll, 8, 280, 288);
    hide CountTo;
    assert CountTo(ll, 7, 0) == 0 && CountTo(ll, 8, 0) == 0 by { CountZero(ll); }
    assert EndCode(ll, 7) == 24;
    assert EndCode(ll, 8) == 200;
  }

  lemma CountZero(ll: seq<nat>)
    ensures forall n: nat :: CountTo(ll, n, 0) == 0
  {
  }

  lemma FixedRank(ll: seq<nat>, i: nat)
    requires |ll| == 288 && (forall i | 0 <= i < 288 :: ll[i] == FixedLength(i)) && i < 288
    ensures CountTo(ll, ll[i], i) == if i < 144 then i else if i < 256 then i - 144 else if i < 280 then i - 256 else 144 + (i - 280)
  {
    CountZero(ll);
    hide CountTo;
    if i < 144 {
      CountRun(ll, 8, 0, i);
    } else if i < 256 {
      CountNone(ll, 9, 0, 144);
      CountRun(ll, 9, 144, i);
    } else if i < 280 {
      CountNone(ll, 7, 0, 256);
      CountRun(ll, 7, 256, i);
    } else {
      CountRun(ll, 8, 0, 144);
      CountNone(ll, 8, 144, 280);
      CountRun(ll, 8, 280, i);
    }
  }

  /** The decoder's fixed codes are those of the standard's table. */
  lemma FixedTable(i: nat)
    requires i < 288
    ensures |FIXED_LITERALS| == 288 && FIXED_LITERALS[i] == FixedLength(i) && CodeOf(FIXED_LITERALS, i) == FixedCode(i)
    ensures |FIXED_DISTANCES| == 32 && (i < 32 ==> FIXED_DISTANCES[i] == 5 && CodeOf(FIXED_DISTANCES, i) == i)
  {
    hide Repeat;
    var ll, dd := FIXED_LITERALS, FIXED_DISTANCES;
    FixedCounts(ll);
    FixedRank(ll, i);
    if i < 32 {
      ShortestCodes(dd, 5);
      CountRun(dd, 5, 0, i);
      CountZero(dd);
    }
  }
}
