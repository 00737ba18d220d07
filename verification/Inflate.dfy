/** stb_image's DEFLATE decoder: the stbi__zbuf structure and the functions that update it. */
module Inflate {
  import opened Bits
  import opened Canonical
  import opened Common
  import opened Deflate
  import opened DeflateFacts
  import opened ZTables
  import opened ZLookup
  import Padded
  import Room

  /** Ok is C's 1; the other two split its 0: corrupt data, or no room for the output. */
  datatype Status = Ok | Corrupt | NoRoom

  class ZBuf {
    const input: seq<byte>
    var zbuffer: nat             // index of the next input byte
    var numBits: int
    var hitZeofOnce: bool
    var codeBuffer: nat
    var zout: nat                // index of the next output byte
    var out: array<byte>         // zout_start up to zout_end
    const expandable: bool
    const heap: nat              // the largest allocation that succeeds
    const zLength: ZHuffman
    const zDistance: ZHuffman
    ghost const cap: nat         // the size of the first output buffer
    ghost var taken: nat         // how many bits of the zero-extended input have been consumed
    ghost var loaded: nat        // how many bytes of it have passed through the bit buffer
    ghost var mark: Option<nat>  // the bit position at which sixteen zero bits were inserted

    ghost function Now(): Padded.Cursor
      reads this
    {
      Padded.Cursor(taken, loaded, mark)
    }

    /** The bit buffer holds the next numBits bits of the input, followed by zeros. */
    ghost predicate Reader()
      reads this
    {
      && zbuffer <= |input| && 0 <= numBits <= 32
      && codeBuffer == ReadBits(input, taken, numBits)
      && taken + numBits == 8 * loaded && zbuffer <= loaded
      && (zbuffer < |input| ==> loaded == zbuffer)
      && (hitZeofOnce <==> mark.Some?)
      && (hitZeofOnce ==> zbuffer == |input| && loaded >= |input| + 2)
    }

    /** The output buffer, grown or not, admits the sizes that the first one admitted. */
    ghost predicate Buffer()
      reads this
    {
      && (expandable ==> out.Length > 0 && cap > 0)
      && out.Length <= Room.UINT_MAX
      && zout <= out.Length
      && (forall n: nat :: Room.Fits(out.Length, expandable, heap, n) <==> Room.Fits(cap, expandable, heap, n))
    }

    /** An empty decoder over `input` that writes to `obuf`. */
    constructor (input: seq<byte>, obuf: array<byte>, expandable: bool, heap: nat)
      requires expandable ==> obuf.Length > 0
      requires obuf.Length <= Room.UINT_MAX
      ensures Reader() && Buffer() && Owned()
      ensures this.input == input && out == obuf && this.expandable == expandable && this.heap == heap
      ensures zbuffer == 0 && zout == 0 && cap == obuf.Length && Now() == Padded.Cursor(0, 0, None)
      ensures fresh(zLength.Arrays()) && fresh(zDistance.Arrays())
    {
      this.input, this.expandable, this.heap, this.cap := input, expandable, heap, obuf.Length;
      zbuffer, numBits, hitZeofOnce, codeBuffer, zout, out := 0, 0, false, 0, 0, obuf;
      taken, loaded, mark := 0, 0, None;
      zLength := new ZHuffman();
      zDistance := new ZHuffman();
    }

    /** The tables and the output buffer share no memory. */
    ghost predicate Owned()
      reads this
    {
      && zLength.Shape() && zDistance.Shape()
      && zLength.Arrays() !! zDistance.Arrays()
      && out !in zLength.Arrays() && out !in zDistance.Arrays()
    }

    // ----- the bit reader

    method Get8() returns (b: byte)
      requires zbuffer <= |input|
      modifies this`zbuffer
      ensures zbuffer <= |input| && zbuffer == (if old(zbuffer) < |input| then old(zbuffer) + 1 else old(zbuffer))
      ensures b == if old(zbuffer) < |input| then input[old(zbuffer)] else 0
    {
      if zbuffer >= |input| {
        b := 0;
      } else {
        b := input[zbuffer];
        zbuffer := zbuffer + 1;
      }
    }

    /** One more byte above the numBits bits already there. */
    method FillByte()
      requires Reader() && numBits <= 24
      modifies this`zbuffer, this`loaded, this`codeBuffer, this`numBits
      ensures Reader() && numBits == old(numBits) + 8
    {
      hide ReadBits, Or, Shl, Pow2;
      // A full buffer would make the next Or mix bits; it never is.
      if codeBuffer >= Pow2(numBits) { assert false; }
      var n := numBits;
      var b := Get8();
      assert b == ReadBits(input, taken + n, 8) by {
        ReadByte(input, loaded);
      }
      ReadSplit(input, taken, n, 8);
      OrShifted(codeBuffer, b, n);
      codeBuffer := Or(codeBuffer, Shl(b, n));
      numBits := numBits + 8;
      loaded := loaded + 1;
    }

    method FillBits()
      requires Reader() && numBits <= 24
      modifies this`zbuffer, this`loaded, this`codeBuffer, this`numBits
      ensures Reader() && numBits > 24 && loaded == taken / 8 + 4
    {
      FillByte();
      while numBits <= 24
        invariant Reader()
        decreases 32 - numBits
      {
        FillByte();
      }
    }

    /** Takes n bits out of the buffer. */
    method Drop(n: nat)
      requires Reader() && n <= numBits
      modifies this`codeBuffer, this`numBits, this`taken
      ensures Reader() && taken == old(taken) + n && numBits == old(numBits) - n
    {
      ReadShr(input, taken, n, numBits);
      codeBuffer := Shr(codeBuffer, n);
      numBits := numBits - n;
      taken := taken + n;
    }

    /** stbi__zreceive: the next n bits, whatever the buffer held. */
    method Receive(n: nat) returns (k: nat)
      requires Reader() && n <= 16
      modifies this`zbuffer, this`loaded, this`codeBuffer, this`numBits, this`taken
      ensures Reader() && Now() == Padded.Take(old(Now()), n) && k == ReadBits(input, old(taken), n)
    {
      hide ReadBits, And, Low, Pow2;
      if numBits < n { FillBits(); }
      AndMask(codeBuffer, n);
      ReadLow(input, taken, n, numBits);
      k := And(codeBuffer, Pow2(n) - 1);
      Drop(n);
    }

    // ----- Huffman symbols

    /** Sixteen bits to look at. False when the input ended and its padding is used up. */
    method Refill() returns (ok: bool)
      requires Reader()
      modifies this`zbuffer, this`loaded, this`codeBuffer, this`numBits, this`hitZeofOnce, this`mark
      ensures Reader() && (ok ==> numBits >= 16)
      ensures Padded.Ready(input, old(Now())) == if ok then Some(Now()) else None
    {
      hide ReadBits, Pow2, StreamBit;
      ok := true;
      if numBits < 16 {
        if zbuffer >= |input| {
          if !hitZeofOnce {
            ReadPast(input, taken, numBits, 16);
            hitZeofOnce := true;
            numBits := numBits + 16;
            loaded, mark := loaded + 2, Some(8 * loaded);
          } else {
            ok := false;
          }
        } else {
          FillBits();
        }
      }
    }

    /** stbi__zhuffman_decode_slowpath: no code of nine bits or fewer stands here. */
    method DecodeSlow(z: ZHuffman, ghost lens: seq<nat>) returns (sym: int)
      requires Reader() && numBits >= 16 && z.Tables(lens)
      requires CodeBits(input, taken, 9) >= EndCode(lens, 9)
      modifies this`codeBuffer, this`numBits, this`taken
      ensures Reader() && sym >= -1
      ensures sym >= 0 ==> taken > old(taken) && Decode(input, lens, old(taken)) == Some(Symbol(sym, taken - old(taken)))
      ensures sym < 0 ==> taken == old(taken) && Decode(input, lens, taken) == None
    {
      hide ReadBits, CodeBits, Decode, BitReverse16, Rev, And, Shl, Pow2, FirstCode, EndCode, FirstSymbol, ZHuffman.Sorted, ZHuffman.FastUpTo;
      var k := BitReverse(codeBuffer, 16);
      assert k == CodeBits(input, taken, 16) by {
        assert k == BitReverse16(codeBuffer);
        BitReverse16IsRev(codeBuffer);
        RevRead(input, taken, 16, numBits);
      }
      Pow2Table();
      assert k < 0x10000;
      var s := ZFAST_BITS + 1;
      PreshiftedCompare(input, lens, taken, 9);
      while k >= z.maxcode[s]
        modifies {}
        invariant 10 <= s <= 16
        invariant CodeBits(input, taken, s - 1) >= EndCode(lens, s - 1)
        invariant CodeBits(input, taken, s) >= FirstCode(lens, s)
        decreases 16 - s
      {
        PreshiftedCompare(input, lens, taken, s);
        s := s + 1;
      }
      if s >= 16 {
        DecodeMisses(input, lens, taken);
        return -1;
      }
      PreshiftedCompare(input, lens, taken, s);
      SlowHit(z, input, lens, taken, s);
      var b := Shr(k, 16 - s) - z.firstcode[s] + z.firstsymbol[s];
      // The two checks of the source on b and size[b] never fire.
      if b >= ZNSYMS { assert false; }
      if z.size[b] != s { assert false; }
      Drop(s);
      return z.value[b];
    }

    /** stbi__zhuffman_decode: the reference decoder's symbol, or -1. */
    method DecodeSymbol(z: ZHuffman, ghost lens: seq<nat>) returns (sym: int)
      requires Reader() && z.Tables(lens)
      modifies this`zbuffer, this`loaded, this`codeBuffer, this`numBits, this`hitZeofOnce, this`mark, this`taken
      ensures Reader() && sym >= -1
      ensures Padded.Code(input, lens, old(Now())) == if sym >= 0 then Padded.Coded(Now(), sym) else Padded.NoCode
    {
      hide ReadBits, CodeBits, Decode, And, Shr, Low, Pow2, EndCode, FastEntry, ZHuffman.Sorted, ZHuffman.Ranges;
      var ok := Refill();
      if !ok { return -1; }
      AndMask(codeBuffer, 9);
      ReadLow(input, taken, 9, numBits);
      Pow2Table();
      var b := z.fast[And(codeBuffer, 511)];
      assert FastEntry(lens, |lens|, ReadBits(input, taken, 9), b);
      if b != 0 {
        FastHit(input, lens, taken, b);
        Drop(Shr(b, 9));
        return And(b, 511);
      }
      FastMiss(input, lens, taken);
      sym := DecodeSlow(z, lens);
    }

    // ----- output

    /** stbi__zexpand: succeeds exactly when n more bytes after the first `at` can be made to fit. */
    method Expand(at: nat, n: nat) returns (ok: bool)
      requires Buffer() && Owned() && at <= out.Length < at + n
      modifies this`zout, this`out
      ensures Buffer() && Owned() && zout == at
      ensures ok <==> Room.Fits(cap, expandable, heap, at + n)
      ensures ok ==> fresh(out) && out.Length >= at + n && out[..at] == old(out[..at])
      ensures !ok ==> out == old(out)
    {
      zout := at;
      assert Room.Fits(out.Length, expandable, heap, at + n) <==> Room.Fits(cap, expandable, heap, at + n);
      if !expandable { return false; }
      var cur, limit := at, out.Length;
      if Room.UINT_MAX - cur < n { return false; }
      while cur + n > limit
        modifies {}
        invariant 0 < limit <= Room.UINT_MAX
        invariant Room.Grown(limit, at + n) == Room.Grown(out.Length, at + n)
        decreases cur + n - limit
      {
        if limit > Room.UINT_MAX / 2 { return false; }
        limit := limit * 2;
      }
      if limit > heap { return false; }
      var q := new byte[limit](_ => 0);
      for i := 0 to out.Length
        modifies q
        invariant q[..i] == out[..i]
      {
        q[i] := out[i];
      }
      forall m: nat ensures Room.Fits(limit, expandable, heap, m) <==> Room.Fits(cap, expandable, heap, m) {
        Room.FitsAfterGrowth(out.Length, heap, at + n, m);
        assert Room.Fits(out.Length, expandable, heap, m) <==> Room.Fits(cap, expandable, heap, m);
      }
      assert q[..at] == out[..at];
      out := q;
      return true;
    }

    /** A match, copied byte by byte so that it may overlap itself; a distance of one repeats a single byte. */
    method CopyBytes(at: nat, dist: nat, len: nat) returns (end: nat)
      requires 1 <= dist <= at && at + len <= out.Length
      modifies out
      ensures end == at + len
      ensures out[..end] == CopyMatch(old(out[..at]), dist, len)
    {
      end := at;
      var left := len;
      if dist == 1 {
        var v := out[at - 1];
        while left > 0
          invariant end + left == at + len && at <= end
          invariant out[end - 1] == v
          invariant CopyMatch(out[..end], dist, left) == CopyMatch(old(out[..at]), dist, len)
        {
          assert out[..end][end - dist] == v;
          ghost var before := out[..end];
          out[end] := v;
          assert out[..end + 1] == before + [v];
          end := end + 1;
          left := left - 1;
        }
      } else {
        var p := at - dist;
        while left > 0
          invariant end + left == at + len && at <= end && p == end - dist
          invariant CopyMatch(out[..end], dist, left) == CopyMatch(old(out[..at]), dist, len)
        {
          ghost var before := out[..end];
          out[end] := out[p];
          assert out[..end + 1] == before + [before[p]];
          end := end + 1;
          p := p + 1;
          left := left - 1;
        }
      }
    }

    // ----- compressed blocks

    ghost predicate Valid()
      reads this
    {
      Reader() && Buffer() && Owned()
    }

    /** A result of the reference decoder that the buffer has no room for. */
    ghost predicate TooBig(n: nat)
      reads this
      requires Buffer()
    {
      !Room.Fits(cap, expandable, heap, n)
    }

    /** Makes room for n bytes after the first `at`. */
    method Reserve(at: nat, n: nat) returns (ok: bool)
      requires Valid() && at <= out.Length
      modifies this`zout, this`out
      ensures Valid() && (fresh(out) || out == old(out))
      ensures out.Length >= at && out[..at] == old(out[..at]) && (zout == at || zout == old(zout))
      ensures if ok then at + n <= out.Length else TooBig(at + n)
    {
      ok := true;
      if n > out.Length - at { ok := Expand(at, n); }
    }

    /** Extra length bits, distance symbol and extra distance bits. */
    method ReceiveMatch(k: nat, ghost dd: seq<nat>) returns (st: Status, len: nat, dist: nat)
      requires Reader() && k < 29 && zDistance.Tables(dd)
      modifies this`zbuffer, this`loaded, this`codeBuffer, this`numBits, this`hitZeofOnce, this`mark, this`taken
      ensures Reader()
      ensures Padded.ReadMatch(input, dd, k, old(Now())) == if st == Ok then Padded.Pair(Now(), len, dist) else Padded.NoMatch
      ensures st != NoRoom
    {
      hide ReadBits, Padded.Code, Padded.Take, LengthBase, LengthExtra, DistanceBase, DistanceExtra, ZHuffman.Tables, Pow2, StreamBit;
      LengthTables(k);
      var more := Receive(ZLENGTH_EXTRA[k]);
      len, dist := ZLENGTH_BASE[k] + more, 0;
      var z := DecodeSymbol(zDistance, dd);
      if z < 0 || z >= 30 { return Corrupt, len, dist; }
      DistanceTables(z);
      more := Receive(ZDIST_EXTRA[z]);
      dist := ZDIST_BASE[z] + more;
      return Ok, len, dist;
    }

    /** The part of stbi__parse_huffman_block that handles length symbol 257 + k. */
    method EmitMatch(k: nat, at: nat, ghost dd: seq<nat>) returns (st: Status, end: nat)
      requires Valid() && at <= out.Length && k < 29 && zDistance.Tables(dd)
      modifies this, out
      ensures Valid() && (fresh(out) || out == old(out)) && end <= out.Length
      ensures var r := Padded.MatchStep(input, dd, k, old(Now()), old(out[..at]));
              match st
              case Ok => r == Padded.Put(Now(), out[..end])
              case Corrupt => r.Stuck?
              case NoRoom => r.Put? && TooBig(|r.out|)
    {
      hide Padded.ReadMatch, CopyMatch, ZHuffman.Tables, Pow2, StreamBit;
      end := at;
      var len, dist;
      st, len, dist := ReceiveMatch(k, dd);
      if st != Ok { return; }
      if at < dist { return Corrupt, end; }
      var ok := Reserve(at, len);
      if !ok { return NoRoom, end; }
      end := CopyBytes(at, dist, len);
    }

    /** One turn of the loop in stbi__parse_huffman_block; `done` at the end of the block. */
    method BlockSymbol(at: nat, ghost ll: seq<nat>, ghost dd: seq<nat>) returns (st: Status, done: bool, end: nat)
      requires Valid() && at <= out.Length && zLength.Tables(ll) && zDistance.Tables(dd)
      modifies this, out
      ensures Valid() && (fresh(out) || out == old(out)) && end <= out.Length
      ensures done ==> st == Ok && zout == end
      ensures var r := Padded.SymbolStep(input, ll, dd, old(Now()), old(out[..at]));
              match st
              case Ok => r == if done then Padded.Ended(Now()) else Padded.Put(Now(), out[..end])
              case Corrupt => r.Stuck?
              case NoRoom => r.Put? && TooBig(|r.out|)
      ensures done ==> out[..end] == old(out[..at])
    {
      hide Padded.Code, Padded.MatchStep, ZHuffman.Tables, Pow2, StreamBit;
      done, end := false, at;
      var z := DecodeSymbol(zLength, ll);
      if z < 256 {
        if z < 0 { return Corrupt, false, end; }
        var ok := Reserve(at, 1);
        if !ok { return NoRoom, false, end; }
        ghost var before := out[..at];
        out[at] := z;
        end := at + 1;
        assert out[..end] == before + [z];
        return Ok, false, end;
      } else if z == 256 {
        zout := at;
        if hitZeofOnce && numBits < 16 { return Corrupt, false, end; }
        return Ok, true, end;
      } else if z >= 286 {
        return Corrupt, false, end;
      } else {
        st, end := EmitMatch(z - 257, at, dd);
      }
    }

    /** How a call that ends with `st` answers r, what the specification says for this limit. */
    ghost predicate Outcome(st: Status, limit: nat, r: Padded.Result)
      reads this, out
      requires Buffer()
    {
      match st
      case Ok => r == if taken <= limit then Padded.Decoded(Now(), out[..zout]) else Padded.Refused
      case Corrupt => r.Refused?
      case NoRoom => r.Decoded? ==> TooBig(|r.out|)
    }

    /** stbi__parse_huffman_block. */
    method ParseHuffmanBlock(ghost ll: seq<nat>, ghost dd: seq<nat>) returns (st: Status)
      requires Valid() && zLength.Tables(ll) && zDistance.Tables(dd)
      modifies this, out
      ensures Valid() && (fresh(out) || out == old(out)) && (st == Ok ==> taken > old(taken))
      ensures forall limit: nat :: Outcome(st, limit, Padded.Symbols(input, limit, ll, dd, old(Now()), old(out[..zout])))
    {
      hide Padded.SymbolStep, ZHuffman.Tables, Room.Fits, Pow2, StreamBit;
      var at := zout;
      ghost var c0, out0 := Now(), out[..zout];
      while true
        invariant Valid() && (fresh(out) || out == old(out)) && at <= out.Length
        invariant zLength.Tables(ll) && zDistance.Tables(dd) && taken >= c0.p
        invariant forall limit: nat ::
                    Padded.Symbols(input, limit, ll, dd, c0, out0) == Padded.Symbols(input, limit, ll, dd, Now(), out[..at])
        decreases Room.UINT_MAX - at
      {
        ghost var c1, out1 := Now(), out[..at];
        var done;
        var end;
        st, done, end := BlockSymbol(at, ll, dd);
        if st != Ok {
          if st == NoRoom { TooBigToo(ll, dd, c1, out1); }
          return;
        }
        if done { return; }
        at := end;
      }
    }

    lemma TooBigToo(ll: seq<nat>, dd: seq<nat>, c: Padded.Cursor, o: seq<byte>)
      requires Buffer()
      requires var r := Padded.SymbolStep(input, ll, dd, c, o); r.Put? && TooBig(|r.out|)
      ensures forall limit: nat :: var r := Padded.Symbols(input, limit, ll, dd, c, o); r.Decoded? ==> TooBig(|r.out|)
    {
      forall limit: nat ensures var r := Padded.Symbols(input, limit, ll, dd, c, o); r.Decoded? ==> TooBig(|r.out|) {
        var r := Padded.Symbols(input, limit, ll, dd, c, o);
        if r.Decoded? && !TooBig(|r.out|) {
          Room.FitsMono(cap, expandable, heap, |Padded.SymbolStep(input, ll, dd, c, o).out|, |r.out|);
        }
      }
    }

    // ----- dynamic codes

    /** The lengths of the code length code, in their odd order. */
    method ReceiveCodeLengthLengths(hclen: nat) returns (cl: seq<nat>)
      requires Reader() && hclen <= 19
      modifies this`zbuffer, this`loaded, this`codeBuffer, this`numBits, this`taken
      ensures Reader() && Now() == Padded.TakeTriples(old(Now()), hclen)
      ensures cl == CodeLengthLengths(input, old(taken), hclen)
    {
      hide ReadBits, Pow2, StreamBit, Repeat, CodeLengthLengths, Padded.Take, Padded.TakeTriples;
      var sizes := new nat[19](_ => 0);
      NoTriples(input, Now(), sizes[..]);
      for i := 0 to hclen
        invariant Reader() && Now() == Padded.TakeTriples(old(Now()), i)
        invariant sizes[..] == CodeLengthLengths(input, old(taken), i)
      {
        NextTriple(input, old(Now()), i);
        var s := Receive(3);
        sizes[CODE_LENGTH_ORDER[i]] := s;
      }
      cl := sizes[..];
    }

    /** How often the run-length symbol c repeats its length. */
    method ReceiveRepeat(c: int) returns (count: nat)
      requires Reader() && 16 <= c <= 18
      modifies this`zbuffer, this`loaded, this`codeBuffer, this`numBits, this`taken
      ensures Reader() && Now() == Padded.Take(old(Now()), RepeatBits(c))
      ensures count == ReadBits(input, old(taken), RepeatBits(c)) + (if c == 18 then 11 else 3)
    {
      if c == 16 {
        count := Receive(2);
        count := count + 3;
      } else if c == 17 {
        count := Receive(3);
        count := count + 3;
      } else {
        count := Receive(7);
        count := count + 11;
      }
    }

    /** One turn of the loop that collects code lengths after the first n. */
    method RunStep(z: ZHuffman, ghost cl: seq<nat>, total: nat, lencodes: array<nat>, n: nat) returns (ok: bool, n': nat)
      requires Reader() && z.Tables(cl) && n < total <= lencodes.Length
      requires lencodes !in z.Arrays() && IsLengths(lencodes[..n])
      modifies this`zbuffer, this`loaded, this`codeBuffer, this`numBits, this`hitZeofOnce, this`mark, this`taken, lencodes
      ensures Reader()
      ensures var r := Padded.RunLengths(input, cl, total, old(Now()), old(lencodes[..n]));
              if ok then n < n' <= total && IsLengths(lencodes[..n']) && r == Padded.RunLengths(input, cl, total, Now(), lencodes[..n'])
              else r.NoLengths?
    {
      hide Padded.Code, Padded.Take, ReadBits, ZHuffman.Tables, Pow2, StreamBit;
      n' := n;
      ghost var before := lencodes[..n];
      var c := DecodeSymbol(z, cl);
      if c < 0 || c >= 19 { return false, n'; }
      if c < 16 {
        lencodes[n] := c;
        assert lencodes[..n + 1] == before + [c];
        return true, n + 1;
      }
      var count := ReceiveRepeat(c);
      if c == 16 && n == 0 { return false, n'; }
      var fill := if c == 16 then lencodes[n - 1] else 0;
      if total - n < count { return false, n'; }
      FillRun(lencodes, n, fill, count);
      return true, n + count;
    }

    method FillRun(lencodes: array<nat>, n: nat, fill: nat, count: nat)
      requires n + count <= lencodes.Length
      modifies lencodes
      ensures lencodes[..n + count] == old(lencodes[..n]) + Repeat(fill, count)
    {
      for i := 0 to count
        invariant lencodes[..n] == old(lencodes[..n])
        invariant forall j | n <= j < n + i :: lencodes[j] == fill
      {
        lencodes[n + i] := fill;
      }
    }

    method ReceiveLengths(z: ZHuffman, ghost cl: seq<nat>, total: nat) returns (ok: bool, lens: seq<nat>)
      requires Reader() && z.Tables(cl) && total <= 320
      modifies this`zbuffer, this`loaded, this`codeBuffer, this`numBits, this`hitZeofOnce, this`mark, this`taken
      ensures Reader()
      ensures Padded.RunLengths(input, cl, total, old(Now()), []) == if ok then Padded.LengthList(Now(), lens) else Padded.NoLengths
    {
      hide Padded.Code, ReadBits, ZHuffman.Tables, Pow2, StreamBit;
      var lencodes := new nat[455];
      lens := [];
      var n := 0;
      while n < total
        invariant n <= total && Reader() && z.Tables(cl) && IsLengths(lencodes[..n])
        invariant Padded.RunLengths(input, cl, total, old(Now()), []) == Padded.RunLengths(input, cl, total, Now(), lencodes[..n])
      {
        ok, n := RunStep(z, cl, total, lencodes, n);
        if !ok { return; }
      }
      return true, lencodes[..total];
    }

    /** The header of a dynamic block and all its code lengths. */
    method ReceiveDynamic() returns (ok: bool, hlit: nat, lens: seq<nat>)
      requires Reader()
      modifies this`zbuffer, this`loaded, this`codeBuffer, this`numBits, this`hitZeofOnce, this`mark, this`taken
      ensures Reader()
      ensures ok ==> hlit == ReadBits(input, old(taken), 5) + 257
      ensures Padded.DynamicLengths(input, old(Now())) == if ok then Padded.LengthList(Now(), lens) else Padded.NoLengths
    {
      hide ReadBits, Padded.RunLengths, Padded.Take, Padded.TakeTriples, CodeLengthLengths, Canonical.Fits, KraftSum, ZHuffman.Tables, Pow2, StreamBit;
      Pow2Table();
      hlit := Receive(5);
      var hdist := Receive(5);
      var hclen := Receive(4);
      hlit, hdist, hclen, lens := hlit + 257, hdist + 1, hclen + 4, [];
      var cl := ReceiveCodeLengthLengths(hclen);
      var zCodelength := new ZHuffman();
      ok := BuildHuffman(zCodelength, cl);
      if ok { ok, lens := ReceiveLengths(zCodelength, cl, hlit + hdist); }
    }

    /** stbi__compute_huffman_codes: both tables of a dynamic block. */
    method ComputeHuffmanCodes() returns (ok: bool, ghost ll: seq<nat>, ghost dd: seq<nat>)
      requires Valid()
      modifies this`zbuffer, this`loaded, this`codeBuffer, this`numBits, this`hitZeofOnce, this`mark, this`taken, zLength.Arrays(), zDistance.Arrays()
      ensures Valid()
      ensures ok ==> zLength.Tables(ll) && zDistance.Tables(dd)
      ensures Padded.DynamicCodes(input, old(Now())) == if ok then Padded.CodePair(Now(), ll, dd) else Padded.NoCodes
    {
      hide ReadBits, Padded.DynamicLengths, Canonical.Fits, Room.Fits, KraftSum, Pow2, StreamBit;
      ll, dd := [], [];
      var hlit, lens;
      ok, hlit, lens := ReceiveDynamic();
      if !ok { return; }
      ll, dd := lens[..hlit], lens[hlit..];
      ok := BuildHuffman(zLength, lens[..hlit]);
      if !ok { return; }
      ok := BuildHuffman(zDistance, lens[hlit..]);
    }

    // ----- stored blocks

    /** A whole byte out of the bit buffer. */
    method DrainByte() returns (b: byte)
      requires Reader() && numBits >= 8
      modifies this`codeBuffer, this`numBits, this`taken
      ensures Reader() && taken == old(taken) + 8 && numBits == old(numBits) - 8 && b == ReadBits(input, old(taken), 8)
    {
      hide ReadBits, And, Pow2, StreamBit;
      Pow2Table();
      AndMask(codeBuffer, 8);
      ReadLow(input, taken, 8, numBits);
      b := And(codeBuffer, 255);
      Drop(8);
    }

    /** A byte straight from the input, past the empty bit buffer. */
    method NextByte() returns (b: byte)
      requires Reader() && numBits == 0
      modifies this`zbuffer, this`loaded, this`taken
      ensures Reader() && taken == old(taken) + 8 && b == ReadBits(input, old(taken), 8)
    {
      hide ReadBits, Pow2, StreamBit;
      ReadByte(input, loaded);
      ReadEmpty(input, taken);
      ReadEmpty(input, taken + 8);
      b := Get8();
      taken := taken + 8;
      loaded := loaded + 1;
    }

    /** The four header bytes: first what the bit buffer holds, never more than four bytes, then the input. */
    method ReadHeader(ghost whole: nat) returns (header: array<byte>)
      requires Reader() && numBits == 8 * whole
      modifies this`zbuffer, this`loaded, this`codeBuffer, this`numBits, this`taken
      ensures Reader() && numBits == 0 && taken == old(taken) + 32
      ensures fresh(header) && header.Length == 4
      ensures forall j | 0 <= j < 4 :: header[j] == ReadBits(input, old(taken) + 8 * j, 8)
    {
      hide ReadBits, Pow2, StreamBit;
      header := new byte[4];
      var k := 0;
      while numBits > 0
        modifies this`codeBuffer, this`numBits, this`taken, header
        invariant Reader() && k <= whole && taken == old(taken) + 8 * k && numBits == 8 * (whole - k)
        invariant forall j | 0 <= j < k :: header[j] == ReadBits(input, old(taken) + 8 * j, 8)
      {
        header[k] := DrainByte();
        k := k + 1;
      }
      // The source also tests for a negative bit count here, which cannot be.
      if numBits < 0 { assert false; }
      while k < 4
        modifies this`zbuffer, this`loaded, this`taken, header
        invariant k <= 4 && Reader() && numBits == 0 && taken == old(taken) + 8 * k
        invariant forall j | 0 <= j < k :: header[j] == ReadBits(input, old(taken) + 8 * j, 8)
      {
        header[k] := NextByte();
        k := k + 1;
      }
    }

    method SkipToByte() returns (ghost whole: nat)
      requires Reader()
      modifies this`zbuffer, this`loaded, this`codeBuffer, this`numBits, this`taken
      ensures Reader() && numBits == 8 * whole && taken == AlignUp(old(taken))
    {
      hide ReadBits, AlignUp, Pow2, StreamBit;
      whole := numBits / 8;
      AlignIs(taken, loaded - whole);
      if numBits % 8 != 0 {
        var _ := Receive(numBits % 8);
      }
    }

    /** Skips to a byte boundary and checks the two lengths of a stored block. */
    method StoredLength() returns (ok: bool, len: nat)
      requires Reader()
      modifies this`zbuffer, this`loaded, this`codeBuffer, this`numBits, this`taken
      ensures Reader()
      ensures ok ==> var q := AlignUp(old(taken));
                && numBits == 0 && taken == q + 32 == 8 * zbuffer && zbuffer + len <= |input|
                && len == Word(input, q) && Word(input, q + 16) == 0xffff - len
      ensures !ok ==> forall o :: Stored(input, 8 * |input|, old(taken), o) == Bad
    {
      hide ReadBits, Xor, AlignUp, Pow2, StreamBit;
      ghost var whole := SkipToByte();
      ghost var q := taken;
      var header := ReadHeader(whole);
      assert header[0] == ReadBits(input, q, 8) && header[1] == ReadBits(input, q + 8, 8);
      assert header[2] == ReadBits(input, q + 16, 8) && header[3] == ReadBits(input, q + 24, 8);
      len := header[1] as int * 256 + header[0];
      var nlen := header[3] as int * 256 + header[2];
      ComplementCheck(len);
      if nlen != Xor(len, 0xffff) { return false, len; }
      if zbuffer + len > |input| { return false, len; }
      if taken > 8 * zbuffer {
        ReadZero(input, q + 24, 8);
        assert false;
      }
      return true, len;
    }

    /** stbi__parse_uncompressed_block. */
    method ParseUncompressedBlock() returns (st: Status)
      requires Valid()
      modifies this, out
      ensures Valid() && (fresh(out) || out == old(out)) && (st == Ok ==> taken > old(taken))
      ensures forall limit: nat :: Outcome(st, limit, Padded.Stored(input, limit, old(Now()), old(out[..zout])))
    {
      hide Word, ReadBits, Room.Fits, Bytes, AlignUp, Stored, Pow2, StreamBit;
      ghost var p, o := taken, out[..zout];
      var ok, len := StoredLength();
      if !ok { return Corrupt; }
      assert out[..zout] == o;
      StoredOk(input, 8 * |input|, p, len, o);
      st := StoreBlock(len);
    }

    method StoreBlock(len: nat) returns (st: Status)
      requires Valid() && numBits == 0 && taken == 8 * zbuffer && zbuffer + len <= |input|
      modifies this, out
      ensures Valid() && (fresh(out) || out == old(out)) && st != Corrupt && mark == old(mark)
      ensures st == Ok ==> Now() == Padded.Cursor(old(taken) + 8 * len, (old(taken) + 8 * len) / 8, mark)
      ensures st == Ok ==> out[..zout] == old(out[..zout]) + Bytes(input, old(taken), len)
      ensures st == NoRoom ==> TooBig(old(zout) + len)
    {
      hide ReadBits, Room.Fits, Bytes, Pow2, StreamBit;
      ghost var o := out[..zout];
      var ok := Reserve(zout, len);
      if !ok { return NoRoom; }
      assert out[..zout] == o;
      BytesOfInput(input, zbuffer, len);
      StoreBytes(len);
      return Ok;
    }

    method StoreBytes(len: nat)
      requires Valid() && numBits == 0 && taken == 8 * zbuffer && zout + len <= out.Length && zbuffer + len <= |input|
      modifies this`zbuffer, this`loaded, this`zout, this`taken, out
      ensures Valid() && zout == old(zout) + len && taken == old(taken) + 8 * len && numBits == 0
      ensures out[..zout] == old(out[..zout]) + input[old(zbuffer)..old(zbuffer) + len]
    {
      hide ReadBits, Room.Fits, Pow2, StreamBit;
      CopyInput(zout, zbuffer, len);
      ReadEmpty(input, taken);
      zbuffer := zbuffer + len;
      zout := zout + len;
      taken := taken + 8 * len;
      loaded := loaded + len;
      ReadEmpty(input, taken);
    }

    method CopyInput(at: nat, from: nat, len: nat)
      requires at + len <= out.Length && from + len <= |input|
      modifies out
      ensures out[..at + len] == old(out[..at]) + input[from..from + len]
    {
      for i := 0 to len
        invariant out[..at + i] == old(out[..at]) + input[from..from + i]
      {
        ghost var before := out[..at + i];
        out[at + i] := input[from + i];
        assert out[..at + i + 1] == before + [input[from + i]];
      }
    }

    // ----- the stream

    /** stbi__parse_zlib_header. */
    method ParseHeader() returns (ok: bool)
      requires zbuffer == 0
      modifies this`zbuffer
      ensures zbuffer <= |input| && (ok <==> HeaderOk(input)) && (ok ==> zbuffer == 2)
    {
      var cmf := Get8();
      var cm := And(cmf, 15);
      var flg := Get8();
      HeaderBits(cmf, flg);
      if zbuffer >= |input| { return false; }
      if (cmf as int * 256 + flg) % 31 != 0 { return false; }
      if And(flg, 32) != 0 { return false; }
      if cm != 8 { return false; }
      return true;
    }

    method ParseFixedBlock() returns (st: Status)
      requires Valid()
      modifies this, out, zLength.Arrays(), zDistance.Arrays()
      ensures Valid() && (fresh(out) || out == old(out)) && (st == Ok ==> taken > old(taken))
      ensures forall limit: nat :: Outcome(st, limit, Padded.Symbols(input, limit, FIXED_LITERALS, FIXED_DISTANCES, old(Now()), old(out[..zout])))
    {
      hide Padded.Symbols, Canonical.Fits, Room.Fits, ReadBits, Repeat, KraftSum, ZHuffman.Tables, Pow2, StreamBit;
      FixedFit();
      ghost var c, o := Now(), out[..zout];
      var ok := BuildHuffman(zLength, FIXED_LITERALS);
      if !ok { assert false; }
      assert out[..zout] == o;
      ok := BuildHuffman(zDistance, FIXED_DISTANCES);
      if !ok { assert false; }
      assert out[..zout] == o && Now() == c;
      st := ParseHuffmanBlock(FIXED_LITERALS, FIXED_DISTANCES);
    }

    method ParseDynamicBlock() returns (st: Status)
      requires Valid()
      modifies this, out, zLength.Arrays(), zDistance.Arrays()
      ensures Valid() && (fresh(out) || out == old(out)) && (st == Ok ==> taken > old(taken))
      ensures forall limit: nat :: Outcome(st, limit, Padded.Dynamic(input, limit, old(Now()), old(out[..zout])))
    {
      hide Padded.Symbols, Padded.DynamicCodes, Canonical.Fits, Room.Fits, ReadBits, ZHuffman.Tables, Pow2, StreamBit;
      ghost var o := out[..zout];
      var ok;
      ghost var ll, dd;
      ok, ll, dd := ComputeHuffmanCodes();
      if !ok { return Corrupt; }
      assert out[..zout] == o;
      st := ParseHuffmanBlock(ll, dd);
    }

    /** One block of the given type, after its three header bits. */
    method ParseBlock(kind: nat) returns (st: Status)
      requires Valid() && kind < 4
      modifies this, out, zLength.Arrays(), zDistance.Arrays()
      ensures Valid() && (fresh(out) || out == old(out)) && (st == Ok ==> taken > old(taken))
      ensures forall limit: nat :: Outcome(st, limit, Padded.Block(input, limit, kind, old(Now()), old(out[..zout])))
    {
      hide Padded.Stored, Padded.Symbols, Padded.Dynamic, Room.Fits, ReadBits, Pow2, StreamBit;
      if kind == 0 {
        st := ParseUncompressedBlock();
      } else if kind == 3 {
        st := Corrupt;
      } else if kind == 1 {
        st := ParseFixedBlock();
      } else {
        st := ParseDynamicBlock();
      }
    }

    /** The body of the loop over blocks. */
    method NextBlock() returns (st: Status, final: bool)
      requires Valid()
      modifies this, out, zLength.Arrays(), zDistance.Arrays()
      ensures Valid() && (fresh(out) || out == old(out))
      ensures st == Ok ==> old(taken) < 8 * |input| && taken > old(taken)
      ensures st == Ok && !final ==> forall limit: nat ::
                Padded.Blocks(input, limit, old(Now()), old(out[..zout])) == Padded.Blocks(input, limit, Now(), out[..zout])
      ensures st != Ok || final ==> forall limit: nat :: Outcome(st, limit, Padded.Blocks(input, limit, old(Now()), old(out[..zout])))
    {
      hide Padded.Block, Padded.Take, Room.Fits, ReadBits, Pow2, StreamBit;
      ghost var c, o := Now(), out[..zout];
      var bit := Receive(1);
      final := bit == 1;
      var kind := Receive(2);
      OneBit(input, c.p);
      Pow2Table();
      assert out[..zout] == o;
      st := ParseBlock(kind);
      if st == NoRoom { BlocksTooBig(c, kind, Padded.Take(Padded.Take(c, 1), 2), o); }
      if st == Ok && c.p >= 8 * |input| {
        Padded.NoBlockPastEnd(input, taken, c, o);
        assert false;
      }
    }

    lemma BlocksTooBig(c: Padded.Cursor, kind: nat, c1: Padded.Cursor, o: seq<byte>)
      requires Buffer() && kind == ReadBits(input, c.p + 1, 2) && c1 == Padded.Take(Padded.Take(c, 1), 2)
      requires forall limit: nat :: Outcome(NoRoom, limit, Padded.Block(input, limit, kind, c1, o))
      ensures forall limit: nat :: Outcome(NoRoom, limit, Padded.Blocks(input, limit, c, o))
    {
      hide Padded.Block;
      forall limit: nat ensures Outcome(NoRoom, limit, Padded.Blocks(input, limit, c, o)) {
        var r1 := Padded.Block(input, limit, kind, c1, o);
        assert Outcome(NoRoom, limit, r1);
        var r := Padded.Blocks(input, limit, c, o);
        if r1.Decoded? && r.Decoded? && !TooBig(|r.out|) {
          Room.FitsMono(cap, expandable, heap, |r1.out|, |r.out|);
        }
      }
    }

    /** A result that there is room for. */
    ghost predicate Fitting(r: Padded.Result)
      reads this
      requires Buffer()
    {
      r.Decoded? && !TooBig(|r.out|)
    }

    /** The answer for every limit, and what it says about the two reference decoders. */
    lemma Answer(st: Status, header: bool)
      requires Buffer() && forall limit: nat :: Outcome(st, limit, Padded.Inflate(input, limit, header))
      ensures st == Ok <==> exists limit: nat :: Fitting(Padded.Inflate(input, limit, header))
      ensures (st == Ok ==> Padded.Accepted(input, header)) && (st == Corrupt ==> !Padded.Accepted(input, header))
      ensures st == Ok ==> forall limit: nat ::
                Deflate.Inflate(input, limit, header) == if taken <= limit then Done(taken, out[..zout]) else Bad
      ensures var r := Deflate.Inflate(input, 8 * |input|, header);
              && (st == Corrupt ==> r == Bad)
              && (st == NoRoom ==> r == Bad || TooBig(|r.out|))
    {
      hide Padded.Inflate, Deflate.Inflate, Room.Fits;
      if st == Ok {
        var r := Padded.Inflate(input, taken, header);
        assert Outcome(st, taken, r) && Fitting(r) by { RoomForWritten(); }
        forall limit: nat ensures Deflate.Inflate(input, limit, header) == if taken <= limit then Done(taken, out[..zout]) else Bad {
          Padded.InflateAgrees(input, taken, limit, header);
        }
      } else {
        var n := 8 * |input|;
        Padded.InflateAgrees(input, n, n, header);
        assert Outcome(st, n, Padded.Inflate(input, n, header));
        forall limit: nat
          ensures !Fitting(Padded.Inflate(input, limit, header))
          ensures st == Corrupt ==> Padded.Inflate(input, limit, header).Refused?
        {
          assert Outcome(st, limit, Padded.Inflate(input, limit, header));
        }
      }
    }

    lemma RoomForWritten()
      requires Buffer()
      ensures !TooBig(zout)
    {
      assert Room.Fits(out.Length, expandable, heap, zout);
    }

    /** stbi__parse_zlib: decodes exactly the accepted streams whose output there is room for. */
    method ParseZlib(parseHeader: bool) returns (st: Status)
      requires Buffer() && Owned() && zbuffer == 0 && zout == 0
      modifies this, out, zLength.Arrays(), zDistance.Arrays()
      ensures Buffer() && Owned() && (st == Ok ==> Reader())
      ensures forall limit: nat :: Outcome(st, limit, Padded.Inflate(input, limit, parseHeader))
      ensures st == Ok <==> exists limit: nat :: Fitting(Padded.Inflate(input, limit, parseHeader))
      ensures (st == Ok ==> Padded.Accepted(input, parseHeader)) && (st == Corrupt ==> !Padded.Accepted(input, parseHeader))
      ensures st == Ok ==> forall limit: nat ::
                Deflate.Inflate(input, limit, parseHeader) == if taken <= limit then Done(taken, out[..zout]) else Bad
      ensures var r := Deflate.Inflate(input, 8 * |input|, parseHeader);
              && (st == Corrupt ==> r == Bad)
              && (st == NoRoom ==> r == Bad || TooBig(|r.out|))
    {
      hide Padded.Blocks, Padded.Accepted, Deflate.Inflate, Fitting, HeaderOk, Room.Fits, ReadBits, Pow2, StreamBit;
      if parseHeader {
        var ok := ParseHeader();
        if !ok {
          Answer(Corrupt, parseHeader);
          return Corrupt;
        }
      }
      numBits := 0;
      codeBuffer := 0;
      hitZeofOnce := false;
      taken, loaded, mark := 8 * zbuffer, zbuffer, None;
      ReadEmpty(input, taken);
      assert out[..zout] == [];
      var final := false;
      while !final
        invariant Valid() && (fresh(out) || out == old(out))
        invariant final ==> forall limit: nat :: Outcome(Ok, limit, Padded.Inflate(input, limit, parseHeader))
        invariant !final ==> forall limit: nat ::
                    Padded.Inflate(input, limit, parseHeader) == Padded.Blocks(input, limit, Now(), out[..zout])
        decreases !final, if taken < 8 * |input| then 8 * |input| - taken else 0
      {
        st, final := NextBlock();
        if st != Ok {
          Answer(st, parseHeader);
          return;
        }
      }
      Answer(Ok, parseHeader);
      return Ok;
    }
  }

  lemma NoTriples(s: seq<byte>, c: Padded.Cursor, sizes: seq<nat>)
    requires |sizes| == 19 && forall i | 0 <= i < 19 :: sizes[i] == 0
    ensures sizes == CodeLengthLengths(s, c.p, 0) && Padded.TakeTriples(c, 0) == c
  {
  }

  lemma NextTriple(s: seq<byte>, c: Padded.Cursor, i: nat)
    requires i < 19
    ensures Padded.TakeTriples(c, i + 1) == Padded.Take(Padded.TakeTriples(c, i), 3)
    ensures CodeLengthLengths(s, c.p, i + 1) ==
            CodeLengthLengths(s, c.p, i)[CODE_LENGTH_ORDER[i] := ReadBits(s, c.p + 3 * i, 3)]
  {
    hide ReadBits, Pow2, Padded.Take;
  }

  lemma OneBit(s: seq<byte>, p: nat)
    ensures ReadBits(s, p, 1) == StreamBit(s, p)
  {
    assert ReadBits(s, p, 1) == StreamBit(s, p) + 2 * ReadBits(s, p + 1, 0);
  }

  lemma HeaderBits(cmf: byte, flg: byte)
    ensures And(cmf, 15) == Low(cmf, 4) && (And(flg, 32) == 0 <==> Bit(flg, 5) == 0)
  {
    Pow2Table();
    AndMask(cmf, 4);
    BitAnd(flg, 32, 5);
    if Bit(flg, 5) == 0 {
      forall k | 0 <= k < 8 ensures Bit(And(flg, 32), k) == Bit(0, k) {
        BitAnd(flg, 32, k);
        BitMask(0, 0, 2, 0, k);
        BitZero(k);
      }
      AndBound(flg, 32);
      SameBits(And(flg, 32), 0, 8);
    }
  }

  lemma ComplementCheck(len: nat)
    requires len < 0x10000
    ensures Xor(len, 0xffff) == 0xffff - len
  {
    Pow2Table();
    XorOnes(len, 16);
  }

  const ZLENGTH_BASE: seq<nat> := [3, 4, 5, 6, 7, 8, 9, 10, 11, 13, 15, 17, 19, 23, 27, 31, 35, 43, 51, 59, 67, 83, 99, 115, 131, 163, 195, 227, 258, 0, 0]
  const ZLENGTH_EXTRA: seq<nat> := [0, 0, 0, 0, 0, 0, 0, 0, 1, 1, 1, 1, 2, 2, 2, 2, 3, 3, 3, 3, 4, 4, 4, 4, 5, 5, 5, 5, 0, 0, 0]
  const ZDIST_BASE: seq<nat> := [1, 2, 3, 4, 5, 7, 9, 13, 17, 25, 33, 49, 65, 97, 129, 193, 257, 385, 513, 769, 1025, 1537, 2049, 3073, 4097, 6145, 8193, 12289, 16385, 24577, 0, 0]
  const ZDIST_EXTRA: seq<nat> := [0, 0, 0, 0, 1, 1, 2, 2, 3, 3, 4, 4, 5, 5, 6, 6, 7, 7, 8, 8, 9, 9, 10, 10, 11, 11, 12, 12, 13, 13, 0, 0]

  /** The length tables follow the rule of section 3.2.5 of RFC 1951. */
  lemma LengthTables(k: nat)
    requires k < 29
    ensures ZLENGTH_BASE[k] == LengthBase(k) && ZLENGTH_EXTRA[k] == LengthExtra(k) <= 5
  {
    Pow2Table();
    hide Pow2;
    var e := k / 4;
    assert e == 0 || e == 1 || e == 2 || e == 3 || e == 4 || e == 5 || e == 6 || e == 7;
    assert k == 4 * e || k == 4 * e + 1 || k == 4 * e + 2 || k == 4 * e + 3;
  }

  lemma DistanceTables(k: nat)
    requires k < 30
    ensures ZDIST_BASE[k] == DistanceBase(k) >= 1 && ZDIST_EXTRA[k] == DistanceExtra(k) <= 13
  {
    Pow2Table();
    hide Pow2;
    var e := k / 2;
    assert k == 2 * e || k == 2 * e + 1;
    if e < 5 {
      assert e == 0 || e == 1 || e == 2 || e == 3 || e == 4;
    } else if e < 10 {
      assert e == 5 || e == 6 || e == 7 || e == 8 || e == 9;
    } else {
      assert e == 10 || e == 11 || e == 12 || e == 13 || e == 14;
    }
  }
}
