/** stb_image's JPEG bit buffer, most significant bit first, over entropy-coded bytes with stuffing. */
module JpegReader {
  import opened Bits
  import opened BitStrings
  import opened Common
  import opened JpegCodes
  import opened JpegTables
  import opened JpegDecode

  // ----- the entropy-coded segment

  /** The first position from p on that does not hold a fill byte. */
  function PastFill(input: seq<byte>, p: nat): (q: nat)
    requires p <= |input|
    ensures p <= q <= |input| && (q < |input| ==> input[q] != 0xff)
    decreases |input| - p
  {
    if p < |input| && input[p] == 0xff then PastFill(input, p + 1) else p
  }

  /** The bytes from p on up to the first marker, with the stuffed zeros taken out (section F.1.2.3).
      A 0xff at the very end of the input counts as a byte. */
  function Entropy(input: seq<byte>, p: nat): seq<byte>
    requires p <= |input|
    decreases |input| - p
  {
    if p == |input| then []
    else if input[p] != 0xff then [input[p]] + Entropy(input, p + 1)
    else
      var q := PastFill(input, p + 1);
      if q == |input| then [0xff]
      else if input[q] == 0 then [0xff] + Entropy(input, q + 1)
      else []
  }

  // ----- what is still to be read

  /** The word and how many of its leading bits are in use, and the bytes behind it. */
  datatype Source = Source(word: nat, bits: int, rest: seq<byte>) {

    predicate Valid() {
      word < Pow2(32) && 0 <= bits <= 32 && Low(word, 32 - bits) == 0
    }

    /** Bit k of what is to be read; zero past the end. */
    function Future(k: nat): nat
      requires Valid()
    {
      if k < bits then Bit(word, 31 - k) else RowBit(rest, k - bits)
    }

    /** The n bits that follow the next `from` ones, as a number. */
    function Ahead(from: nat, n: nat): nat
      requires Valid()
    {
      if n == 0 then 0 else 2 * Ahead(from, n - 1) + Future(from + n - 1)
    }

    /** Code i comes next. */
    predicate Next(s: seq<nat>, i: nat)
      requires Valid() && Sizes(s) && i < |s|
    {
      Ahead(0, s[i]) == Code(s, i)
    }

    /** How many bits there are before a marker or the end. */
    function Left(): int { bits + 8 * |rest| }
  }

  /** After n bits have been read from b, a remains. */
  ghost predicate Read(b: Source, a: Source, n: nat) {
    b.Valid() && a.Valid() && forall k: nat, j: nat | j == k + n :: a.Future(k) == b.Future(j)
  }

  lemma {:induction false} AheadRead(b: Source, a: Source, d: nat, from: nat, n: nat)
    requires Read(b, a, d)
    ensures a.Ahead(from, n) == b.Ahead(d + from, n)
  {
    hide Source.Valid, Source.Future;
    if n == 0 {
    } else {
      AheadRead(b, a, d, from, n - 1);
      assert a.Future(from + n - 1) == b.Future(from + n - 1 + d);
    }
  }

  lemma ReadTwice(a: Source, b: Source, c: Source, m: nat, n: nat)
    requires Read(a, b, m) && Read(b, c, n)
    ensures Read(a, c, m + n)
  {
    hide Source.Valid, Source.Future;
    forall k: nat, j: nat | j == k + (m + n) ensures c.Future(k) == a.Future(j) {
      assert c.Future(k) == b.Future(k + n);
      assert b.Future(k + n) == a.Future(j);
    }
  }

  lemma FieldStep(x: nat, w: nat, from: nat, n: nat)
    requires from + n <= w && n > 0
    ensures Field(x, w, from, n) == 2 * Field(x, w, from, n - 1) + Bit(x, w - from - n)
  {
    ShrHalves(x, w - from - n);
    hide Shr;
  }

  lemma LeadingField(x: nat, n: nat)
    requires x < Pow2(32) && n <= 32
    ensures Field(x, 32, 0, n) == Shr(x, 32 - n)
  {
    hide Pow2, Low, Shr;
    ShrBound(x, n, 32 - n);
    LowSmall(Shr(x, 32 - n), n);
  }

  /** The bits in use are the next ones. */
  lemma {:induction false} AheadIs(a: Source, from: nat, n: nat)
    requires a.Valid() && from + n <= a.bits
    ensures a.Ahead(from, n) == Field(a.word, 32, from, n)
  {
    if n == 0 {
    } else {
      AheadIs(a, from, n - 1);
      hide Pow2, Bit, Shr, Low;
      FieldStep(a.word, 32, from, n);
    }
  }

  lemma NextMatches(a: Source, s: seq<nat>, i: nat)
    requires a.Valid() && Sizes(s) && i < |s| && s[i] <= a.bits
    ensures a.Next(s, i) <==> Matches(s, i, Shr(a.word, 16))
  {
    hide Shr, Code, Source.Ahead, Low, Pow2, Field;
    AheadIs(a, 0, s[i]);
    LeadingField(a.word, s[i]);
    ShrTwice(a.word, 16, 16 - s[i]);
  }

  lemma {:induction false} AheadShr(a: Source, n: nat, m: nat)
    requires a.Valid()
    ensures Shr(a.Ahead(0, n + m), m) == a.Ahead(0, n)
  {
    hide Source.Valid, Source.Future;
    if m == 0 {
    } else {
      AheadShr(a, n, m - 1);
      var v := a.Ahead(0, n + m - 1);
      assert a.Future(n + m - 1) <= 1 by { OneBitAhead(a, n + m - 1); }
      assert (2 * v + a.Future(n + m - 1)) / 2 == v;
    }
  }

  lemma OneBitAhead(a: Source, k: nat)
    requires a.Valid()
    ensures a.Future(k) <= 1
  {
  }

  /** At most one code comes next. */
  lemma NextOnce(a: Source, s: seq<nat>, i: nat, j: nat)
    requires a.Valid() && Sizes(s) && i < |s| && j < |s| && a.Next(s, i) && a.Next(s, j)
    ensures i == j
  {
    hide Source.Valid, Source.Future, Source.Ahead, Shr;
    AheadShr(a, s[i], 16 - s[i]);
    AheadShr(a, s[j], 16 - s[j]);
    MatchesOnce(s, i, j, a.Ahead(0, 16));
  }

  // ----- a byte in, bits out

  /** The byte b comes off the front, or the end has been reached and it is zero. */
  predicate Fed(before: seq<byte>, b: byte, after: seq<byte>) {
    before == [b] + after || (before == [] && b == 0 && after == [])
  }

  lemma FedBit(before: seq<byte>, b: byte, after: seq<byte>, k: nat)
    requires Fed(before, b, after)
    ensures RowBit(before, k) == if k < 8 then Bit(b, 7 - k) else RowBit(after, k - 8)
  {
    if before == [b] + after { HeadBit(b, after, k); } else if k < 8 { BitZero(7 - k); }
  }

  lemma LowBits(x: nat, n: nat, k: nat)
    requires Low(x, n) == 0 && k < n
    ensures Bit(x, k) == 0
  {
    BitLow(x, n, k);
    BitZero(k);
  }

  /** The n leading bits are kept, the next eight are the byte's. */
  lemma PutBits(x: nat, b: byte, n: nat, i: nat)
    requires n <= 24 && Low(x, 32 - n) == 0
    ensures i >= 32 - n ==> Bit(Or(x, Shl(b, 24 - n)), i) == Bit(x, i)
    ensures 24 - n <= i < 32 - n ==> Bit(Or(x, Shl(b, 24 - n)), i) == Bit(b, i - (24 - n))
  {
    var e := 24 - n;
    BitOr(x, Shl(b, e), i);
    BitShl(b, e, i);
    Pow2Table();
    hide Bit, Low, Or, Shl, Pow2;
    if i >= e + 8 { BitSmall(b, 8, i - e); }
    if i < e + 8 { LowBits(x, e + 8, i); }
  }

  lemma ByteShifted(b: byte, e: nat)
    ensures Shl(b, e) < Pow2(e + 8)
  {
    assert Pow2(8) == 256 by { Pow2Table(); }
    hide Pow2, Shl;
    ShlPow2(8, e);
    ShlOrder(b + 1, Pow2(8), e);
    ShlAdd(b, 1, e);
    ShlOne(e);
  }

  lemma NoLowBits(x: nat, e: nat)
    ensures Low(Shl(x, e), e) == 0
  {
    LowShl(x, e, 0);
    ShlOne(e);
  }

  lemma PutSum(x: nat, b: byte, e: nat)
    requires Low(x, e + 8) == 0
    ensures Or(x, Shl(b, e)) == Shl(b, e) + Shl(Shr(x, e + 8), e + 8)
  {
    hide *;
    Split(x, e + 8);
    ByteShifted(b, e);
    OrCommutes(x, Shl(b, e));
    OrShifted(Shl(b, e), Shr(x, e + 8), e + 8);
  }

  lemma PutWord(x: nat, b: byte, n: nat)
    requires n <= 24 && x < Pow2(32) && Low(x, 32 - n) == 0
    ensures var y := Or(x, Shl(b, 24 - n)); y < Pow2(32) && Low(y, 24 - n) == 0
  {
    hide *;
    var e := 24 - n;
    var y := Shr(x, e + 8);
    PutSum(x, b, e);
    ByteShifted(b, e);
    ShrBound(x, 24 - e, e + 8);
    RotateBound(Shl(b, e), y, e + 8);
    ShlTwice(y, 8, e);
    ShlAdd(b, Shl(y, 8), e);
    NoLowBits(b + Shl(y, 8), e);
  }

  function Move(a: Source, b: byte, after: seq<byte>): Source
    requires a.bits <= 24
  {
    Source(Or(a.word, Shl(b, 24 - a.bits)), a.bits + 8, after)
  }

  lemma MovedBit(a: Source, b: byte, after: seq<byte>, k: nat)
    requires a.Valid() && a.bits <= 24 && Fed(a.rest, b, after) && Move(a, b, after).Valid()
    ensures Move(a, b, after).Future(k) == a.Future(k)
  {
    hide Bit, Low, Or, Shl, Pow2, RowBit, Fed;
    if k < a.bits + 8 { PutBits(a.word, b, a.bits, 31 - k); }
    if k >= a.bits { FedBit(a.rest, b, after, k - a.bits); }
  }

  /** Moving a byte into the word changes nothing of what is to be read. */
  lemma Moved(a: Source, b: byte, after: seq<byte>)
    requires a.Valid() && a.bits <= 24 && Fed(a.rest, b, after)
    ensures Read(a, Move(a, b, after), 0)
  {
    PutWord(a.word, b, a.bits);
    var c := Move(a, b, after);
    assert c.Valid();
    hide Source.Future, Source.Valid, Move, Fed;
    forall k: nat, j: nat | j == k + 0 ensures c.Future(k) == a.Future(j) {
      MovedBit(a, b, after, k);
    }
  }

  lemma {:induction false} LowLow(x: nat, m: nat, n: nat)
    requires m <= n
    ensures Low(Low(x, n), m) == Low(x, m)
  {
    if m == 0 {
    } else {
      LowLow(x / 2, m - 1, n - 1);
    }
  }

  lemma DropWord(x: nat, e: nat, n: nat)
    requires e + n <= 32 && Low(x, e) == 0
    ensures var y := Low(Shl(x, n), 32); y < Pow2(32) && Low(y, e + n) == 0
  {
    hide *;
    LowBound(Shl(x, n), 32);
    LowLow(Shl(x, n), e + n, 32);
    Split(x, e);
    ShlTwice(Shr(x, e), e, n);
    NoLowBits(Shr(x, e), e + n);
  }

  /** Shifting the word left by n reads n bits. */
  lemma Dropped(a: Source, n: nat)
    requires a.Valid() && n <= a.bits
    ensures Read(a, Source(Low(Shl(a.word, n), 32), a.bits - n, a.rest), n)
  {
    var c := Source(Low(Shl(a.word, n), 32), a.bits - n, a.rest);
    DropWord(a.word, 32 - a.bits, n);
    hide Bit, Low, Shl, Pow2, RowBit;
    forall k: nat, j: nat | j == k + n ensures c.Future(k) == a.Future(j) {
      if k < c.bits {
        BitLow(Shl(a.word, n), 32, 31 - k);
        BitShl(a.word, n, 31 - k);
      }
    }
  }

  lemma ReadValid(b: Source, a: Source, n: nat)
    requires Read(b, a, n)
    ensures b.Valid() && a.Valid()
  {
  }

  /** The value of the leading n bits of the word, computed from its sign bit. */
  lemma ExtendsTo(a: Source, n: nat)
    requires a.Valid() && 1 <= n <= 15 && n <= a.bits
    ensures a.word < Pow2(32)
    ensures Extend(a.Ahead(0, n), n) == Shr(a.word, 32 - n) + (if Shr(a.word, 31) == 0 then 1 - Pow2(n) else 0)
  {
    hide Source.Future, Source.Ahead, Low, Shr, Pow2;
    AheadIs(a, 0, n);
    LeadingField(a.word, n);
    SignBit(a.word, n);
  }

  // ----- the reader

  class Reader {
    const input: seq<byte>
    var pos: nat
    var nomore: bool
    var codeBuffer: nat
    var codeBits: int

    constructor (input: seq<byte>)
      ensures Valid() && this.input == input && Now() == Source(0, 0, Entropy(input, 0))
    {
      this.input := input;
      pos, nomore, codeBuffer, codeBits := 0, false, 0, 0;
      new;
      LowSmall(0, 32);
    }

    ghost predicate Valid()
      reads this
    {
      pos <= |input| && Now().Valid()
    }

    ghost function Now(): Source
      requires pos <= |input|
      reads this
    {
      Source(codeBuffer, codeBits, Rest())
    }

    /** The bytes not yet in the buffer. */
    ghost function Rest(): seq<byte>
      requires pos <= |input|
      reads this
    {
      if nomore then [] else Entropy(input, pos)
    }

    predicate Ended()
      reads this
    {
      nomore || pos == |input|
    }

    method Get8() returns (b: byte)
      requires pos <= |input|
      modifies this`pos
      ensures pos <= |input|
      ensures if old(pos) < |input| then b == input[old(pos)] && pos == old(pos) + 1 else b == 0 && pos == old(pos)
    {
      if pos < |input| {
        b := input[pos];
        pos := pos + 1;
      } else {
        b := 0;
      }
    }

    /** The byte after any fill bytes. */
    method SkipFill() returns (c: byte)
      requires pos <= |input|
      modifies this`pos
      ensures var q := PastFill(input, old(pos));
        pos <= |input| && if q == |input| then c == 0 && pos == q else c == input[q] && pos == q + 1
    {
      ghost var q := PastFill(input, pos);
      c := Get8();
      while c == 0xff
        invariant pos <= |input|
        invariant c == 0xff ==> PastFill(input, pos) == q
        invariant c != 0xff ==> if q == |input| then c == 0 && pos == q else c == input[q] && pos == q + 1
        decreases |input| - pos, if c == 0xff then 1 else 0
      {
        c := Get8();
      }
    }

    /** The next byte of the segment; stops at a marker. Past the end the bytes are zero. */
    method NextByte() returns (more: bool, b: byte)
      requires pos <= |input|
      modifies this`pos, this`nomore
      ensures pos <= |input|
      ensures !more ==> nomore && !old(Ended()) && old(Rest()) == Rest() == []
      ensures more ==> Fed(old(Rest()), b, Rest()) && (old(Rest()) == [] || old(Ended()) ==> Ended())
    {
      more := true;
      b := 0;
      if !nomore { b := Get8(); }
      if b == 0xff {
        var c := SkipFill();
        if c != 0 {
          nomore := true;
          more := false;
        }
      }
    }

    /** stbi__grow_buffer_unsafe: what is to be read stays the same. */
    method GrowBuffer()
      requires Valid() && codeBits <= 24
      modifies this
      ensures Valid() && Read(old(Now()), Now(), 0)
      ensures codeBits > 24 || codeBits == old(Now().Left())
      ensures Now().Left() >= old(Now().Left())
    {
      ghost var before := Now();
      while codeBits <= 24
        invariant Valid() && Read(before, Now(), 0)
        invariant Now().Left() == before.Left() || (Ended() && Now().Left() >= before.Left())
        decreases 24 - codeBits
      {
        ghost var a := Now();
        hide Source.Valid, Source.Future, Read, Entropy, Reader.Ended;
        var more, b := NextByte();
        if !more { return; }
        codeBuffer := Or(codeBuffer, Shl(b, 24 - codeBits));
        codeBits := codeBits + 8;
        Moved(a, b, Rest());
        ReadTwice(before, a, Now(), 0, 0);
      }
    }

    /** The buffer is filled when it has fewer than n bits. */
    method EnsureBits(n: nat)
      requires Valid() && n <= 16
      modifies this
      ensures Valid() && Read(old(Now()), Now(), 0)
      ensures (codeBits >= n || codeBits == old(Now().Left())) && Now().Left() >= old(Now().Left())
    {
      hide Source.Future;
      if codeBits < n { GrowBuffer(); }
    }

    /** The next n bits, which are in the buffer, are taken out of it. */
    method Take(n: nat)
      requires Valid() && n <= codeBits
      modifies this`codeBuffer, this`codeBits
      ensures Valid() && Read(old(Now()), Now(), n) && codeBits == old(codeBits) - n
    {
      Dropped(Now(), n);
      hide Read, Low, Shl, Pow2;
      codeBuffer := Low(Shl(codeBuffer, n), 32);
      codeBits := codeBits - n;
      ReadValid(old(Now()), Now(), n);
    }

    /** The next n bits, which are in the buffer, as a signed value: rotated to the bottom and parted by masks. */
    method Receive(n: nat) returns (v: int)
      requires Valid() && 1 <= n <= 15 && n <= codeBits
      modifies this`codeBuffer, this`codeBits
      ensures Valid() && v == Extend(old(Now().Ahead(0, n)), n) && Read(old(Now()), Now(), n)
    {
      hide Read, Source.Ahead, Source.Valid, Source.Future, Low, Shl, Shr, Pow2, And, Rotate, Extend, Entropy;
      ghost var a := Now();
      var sgn := Shr(codeBuffer, 31);
      var k := Rotate(codeBuffer, n);
      ExtendsTo(a, n);
      Dropped(a, n);
      RotateParts(codeBuffer, n);
      codeBuffer := And(k, Shl(Pow2(32 - n) - 1, n));
      codeBits := codeBits - n;
      ReadValid(a, Now(), n);
      v := And(k, Pow2(n) - 1) + (if sgn == 0 then 1 - Pow2(n) else 0);
    }

    /** stbi__extend_receive. Only a marker within the next n bits gives zero instead of their value. */
    method ExtendReceive(n: nat) returns (v: int, ghost cut: bool)
      requires Valid() && 1 <= n <= 15
      modifies this
      ensures Valid() && (cut ==> old(Now().Left()) < n && v == 0)
      ensures !cut ==> v == Extend(old(Now().Ahead(0, n)), n)
      ensures Read(old(Now()), Now(), if cut then 0 else n)
    {
      ghost var before := Now();
      hide Read, Source.Ahead, Source.Valid, Source.Future, Extend;
      EnsureBits(n);
      if codeBits < n { return 0, true; }
      ghost var a := Now();
      v := Receive(n);
      cut := false;
      AheadRead(before, a, 0, 0, n);
      ReadTwice(before, a, Now(), 0, n);
    }

    /** stbi__jpeg_huff_decode. The symbol returned is the one whose code comes next, and its code is taken; of the
        hidden symbol ten bits are taken and a guess is returned. None is returned only if no code comes next or a
        marker stands within the next 16 bits. */
    method HuffDecode(h: JHuffman, ghost s: seq<nat>) returns (r: int, ghost i: nat, ghost n: nat)
      requires Valid() && h.Arrays() && h.Tables(s)
      modifies this
      ensures Sizes(s)
      ensures r >= 0 ==> i < |s| && i < 256 && r == h.values[i] && Found(old(Now()), s, i, n)
      ensures r >= 0 ==> Valid() && Read(old(Now()), Now(), n) && Now().Left() >= old(Now().Left()) - n
      ensures r < 0 ==> forall j | 0 <= j < |s| && old(Now().Next(s, j)) && !Hidden(s, j) :: s[j] > old(Now().Left())
      ensures r < 0 ==> (forall j | 0 <= j < |s| :: !old(Now().Next(s, j))) || old(Now().Left()) < 16
    {
      Lengths(h, s);
      ghost var before := Now();
      hide *;
      EnsureBits(16);
      ghost var grown := Now();
      var c, len := Lookup(h, codeBuffer, s);
      NextBefore(before, grown, s, c, len);
      if len == 17 || len > codeBits { RefusedBefore(before, grown, s, c, len); }
      if len == 17 {
        codeBits := codeBits - 16;
        return -1, 0, 0;
      }
      if len > codeBits { return -1, 0, 0; }
      Take(len);
      ReadTwice(before, grown, Now(), 0, len);
      return h.values[c], c, len;
    }
  }

  /** The symbol i is found with n bits: its code comes next, or the hidden symbol's does and i is guessed. */
  predicate Found(b: Source, s: seq<nat>, i: nat, n: nat)
    requires b.Valid() && Sizes(s) && i < |s|
  {
    || (b.Next(s, i) && !Hidden(s, i) && n == s[i])
    || (|s| == 256 && Hidden(s, 255) && b.Next(s, 255) && n == 10 && i == Guess(s, b.Ahead(0, 10)))
  }

  /** What the lookup says about the buffer holds of the bits to be read. */
  lemma NextBefore(b: Source, a: Source, s: seq<nat>, c: int, len: nat)
    requires Read(b, a, 0) && Sizes(s) && -1 <= c < |s|
    requires Answer(s, Shr(a.word, 16), c, len) && 1 <= len <= 17
    ensures len <= a.bits && len != 17 ==> 0 <= c < |s| <= 256 && Found(b, s, c, len)
    ensures len == 17 && a.bits >= 16 ==> forall j | 0 <= j < |s| :: !b.Next(s, j)
  {
    var t := Shr(a.word, 16);
    hide Source.Valid, Source.Future, Source.Ahead, Matches, Shr, Guess;
    if len == 17 && a.bits >= 16 {
      forall j | 0 <= j < |s| ensures !b.Next(s, j) {
        NextMatches(a, s, j);
        AheadRead(b, a, 0, 0, s[j]);
      }
    }
    if len <= a.bits && len != 17 {
      AtMost256(s);
      var j :| 0 <= j < |s| && Matches(s, j, t);
      FoundBefore(b, a, s, j, c, len);
    }
  }

  /** A code that comes next and is in the buffer is not missed. */
  lemma RefusedBefore(b: Source, a: Source, s: seq<nat>, c: int, len: nat)
    requires Read(b, a, 0) && Sizes(s) && Answer(s, Shr(a.word, 16), c, len) && (len == 17 || len > a.bits)
    ensures forall j | 0 <= j < |s| && b.Next(s, j) && !Hidden(s, j) :: s[j] > a.bits
  {
    hide Source.Valid, Source.Future, Source.Ahead, Matches, Shr, Guess;
    forall j | 0 <= j < |s| && b.Next(s, j) && !Hidden(s, j) ensures s[j] > a.bits {
      if s[j] <= a.bits {
        NextMatches(a, s, j);
        AheadRead(b, a, 0, 0, s[j]);
      }
    }
  }

  lemma FoundBefore(b: Source, a: Source, s: seq<nat>, j: nat, c: int, len: nat)
    requires Read(b, a, 0) && Sizes(s) && -1 <= c < |s| && j < |s| && Matches(s, j, Shr(a.word, 16))
    requires Answer(s, Shr(a.word, 16), c, len) && 1 <= len <= a.bits
    ensures 0 <= c && Found(b, s, c, len)
  {
    if Hidden(s, j) {
      AtMost256(s);
      assert 0 <= c == Guess(s, Shr(Shr(a.word, 16), 6)) && len == 10;
    } else {
      assert c == j && len == s[j];
    }
    hide Source.Valid, Source.Future, Source.Ahead, Matches, Shr, Guess, Answer, Sizes;
    NextMatches(a, s, j);
    AheadRead(b, a, 0, 0, s[j]);
    if Hidden(s, j) {
      AheadRead(b, a, 0, 0, 10);
      TenBits(a);
    }
  }

  lemma TenBits(a: Source)
    requires a.Valid() && a.bits >= 10
    ensures a.Ahead(0, 10) == Shr(Shr(a.word, 16), 6)
  {
    hide Shr, Source.Ahead, Low, Pow2, Field;
    AheadIs(a, 0, 10);
    LeadingField(a.word, 10);
    ShrTwice(a.word, 16, 6);
  }
}
