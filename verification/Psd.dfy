/** stb_image's PackBits decoder for the channels of a PSD image. */
module Psd {
  import opened Common

  // ----- the reference

  /** The m bytes from p on. */
  function Literal(s: seq<byte>, p: nat, m: nat): (r: seq<byte>)
    ensures |r| == m && forall k | 0 <= k < m :: r[k] == At(s, p + k)
  {
    if m == 0 then [] else Literal(s, p, m - 1) + [At(s, p + m - 1)]
  }

  datatype Unpacked = Corrupt | Bytes(data: seq<byte>)

  function Before(head: seq<byte>, rest: Unpacked): Unpacked {
    if rest.Corrupt? then Corrupt else Bytes(head + rest.data)
  }

  /** The bytes that the packet at p stands for, and the packet's length. */
  function Head(s: seq<byte>, p: nat): seq<byte> {
    var len := At(s, p);
    if len == 128 then [] else if len < 128 then Literal(s, p + 1, len + 1) else Repeat(At(s, p + 1), 257 - len)
  }

  function Length(s: seq<byte>, p: nat): nat {
    var len := At(s, p);
    if len == 128 then 1 else if len < 128 then 2 + len else 2
  }

  /** n bytes unpacked from p on; a packet that would give more is an error. */
  function Unpack(s: seq<byte>, p: nat, n: nat): (r: Unpacked)
    ensures r.Bytes? ==> |r.data| == n
    decreases n, |s| - p
  {
    if n == 0 then Bytes([])
    else if |Head(s, p)| > n then Corrupt
    else Before(Head(s, p), Unpack(s, p + Length(s, p), n - |Head(s, p)|))
  }

  // ----- encodings

  datatype Packet = Plain(bytes: seq<byte>) | Run(v: byte, n: nat) | NoOp {
    predicate Valid() {
      match this
      case Plain(b) => 1 <= |b| <= 128
      case Run(_, n) => 2 <= n <= 128
      case NoOp => true
    }

    function Meaning(): seq<byte> {
      match this
      case Plain(b) => b
      case Run(v, n) => Repeat(v, n)
      case NoOp => []
    }

    function Coding(): seq<byte>
      requires Valid()
    {
      match this
      case Plain(b) => [|b| - 1] + b
      case Run(v, n) => [257 - n, v]
      case NoOp => [128]
    }
  }

  predicate AllValid(ps: seq<Packet>) {
    forall i | 0 <= i < |ps| :: ps[i].Valid()
  }

  function Meaning(ps: seq<Packet>): seq<byte> {
    if ps == [] then [] else ps[0].Meaning() + Meaning(ps[1..])
  }

  function Coding(ps: seq<Packet>): seq<byte>
    requires AllValid(ps)
  {
    if ps == [] then [] else ps[0].Coding() + Coding(ps[1..])
  }

  /** Every way of packing bytes is undone, whatever stands before and after it. */
  lemma {:induction false} UnpackInvertsCoding(pre: seq<byte>, ps: seq<Packet>, post: seq<byte>)
    requires AllValid(ps)
    ensures Unpack(pre + Coding(ps) + post, |pre|, |Meaning(ps)|) == Bytes(Meaning(ps))
    decreases |ps|
  {
    hide *;
    CodingHead(ps);
    if Meaning(ps) == [] {
      UnpackNothing(pre + Coding(ps) + post, |pre|);
    } else {
      var s := pre + Coding(ps) + post;
      UnpackInvertsCoding(pre + ps[0].Coding(), ps[1..], post);
      Regroup(pre, ps[0].Coding(), Coding(ps[1..]), post);
      UnpackStep(s, |pre|, ps[0], Meaning(ps[1..]));
    }
  }

  lemma CodingHead(ps: seq<Packet>)
    requires AllValid(ps)
    ensures ps == [] ==> Meaning(ps) == []
    ensures ps != [] ==> ps[0].Valid() && AllValid(ps[1..])
    ensures ps != [] ==> Coding(ps) == ps[0].Coding() + Coding(ps[1..]) && Meaning(ps) == ps[0].Meaning() + Meaning(ps[1..])
  {
  }

  lemma UnpackNothing(s: seq<byte>, p: nat)
    ensures Unpack(s, p, 0) == Bytes([])
  {
  }

  lemma Regroup(pre: seq<byte>, c: seq<byte>, more: seq<byte>, post: seq<byte>)
    ensures var s := pre + (c + more) + post;
      s == (pre + c) + more + post && |pre| + |c| <= |s| && s[|pre|..|pre| + |c|] == c
  {
  }

  lemma HeadIs(s: seq<byte>, p: nat, k: Packet)
    requires k.Valid() && p + |k.Coding()| <= |s| && s[p..p + |k.Coding()|] == k.Coding()
    ensures Head(s, p) == k.Meaning() && Length(s, p) == |k.Coding()|
  {
    var c := k.Coding();
    assert s[p] == s[p..p + |c|][0] == c[0];
    match k
    case Plain(b) =>
      assert s[p + 1..p + 1 + |b|] == s[p..p + |c|][1..] == b;
      assert Literal(s, p + 1, |b|) == b;
    case Run(v, n) => assert s[p + 1] == s[p..p + |c|][1] == c[1];
    case NoOp =>
  }

  /** A packet at p gives its bytes, and then what follows it. */
  lemma UnpackStep(s: seq<byte>, p: nat, k: Packet, rest: seq<byte>)
    requires k.Valid() && p + |k.Coding()| <= |s| && s[p..p + |k.Coding()|] == k.Coding()
    requires |k.Meaning()| + |rest| > 0 && Unpack(s, p + |k.Coding()|, |rest|) == Bytes(rest)
    ensures Unpack(s, p, |k.Meaning()| + |rest|) == Bytes(k.Meaning() + rest)
  {
    hide At, Head, Length, Packet.Meaning, Packet.Coding, Packet.Valid;
    HeadIs(s, p, k);
    assert Unpack(s, p, |k.Meaning()| + |rest|) == Before(Head(s, p), Unpack(s, p + Length(s, p), |rest|));
  }

  // ----- the code

  /** The places that n pixels from p on occupy, four bytes apart. */
  predicate Touched(q: int, p: nat, n: nat) {
    p <= q < p + 4 * n && (q - p) % 4 == 0
  }

  /** Byte k of the data lies at p + 4 * k. */
  predicate Holds(out: seq<byte>, p: nat, data: seq<byte>) {
    p + 4 * |data| <= |out| + 3 && forall k | 0 <= k < |data| :: out[p + 4 * k] == data[k]
  }

  predicate Same(a: seq<byte>, b: seq<byte>, p: nat, n: nat) {
    |a| == |b| && forall q | 0 <= q < |a| && !Touched(q, p, n) :: a[q] == b[q]
  }

  /** One pixel more, at the pointer. */
  method Put(out: array<byte>, q: nat, v: byte, ghost p: nat, ghost data: seq<byte>)
    requires Holds(out[..], p, data) && q == p + 4 * |data| < out.Length
    modifies out
    ensures Holds(out[..], p, data + [v]) && Same(old(out[..]), out[..], p, |data| + 1)
  {
    out[q] := v;
    assert Touched(q, p, |data| + 1);
  }

  lemma SameTwice(a: seq<byte>, b: seq<byte>, c: seq<byte>, p: nat, m: nat, n: nat)
    requires Same(a, b, p, m) && Same(b, c, p, n) && m <= n
    ensures Same(a, c, p, n)
  {
  }

  lemma Appended(a: seq<byte>, b: seq<byte>, v: byte)
    ensures (a + b) + [v] == a + (b + [v])
  {
  }

  method PutLiteral(out: array<byte>, q: nat, input: seq<byte>, at: nat, m: nat, ghost p: nat, ghost data: seq<byte>)
    requires Holds(out[..], p, data) && q == p + 4 * |data| && q + 4 * m <= out.Length + 3
    modifies out
    ensures Holds(out[..], p, data + Literal(input, at, m)) && Same(old(out[..]), out[..], p, |data| + m)
  {
    var k := 0;
    assert data + Literal(input, at, 0) == data;
    while k < m
      invariant 0 <= k <= m
      invariant Holds(out[..], p, data + Literal(input, at, k)) && Same(old(out[..]), out[..], p, |data| + k)
    {
      hide Holds, Same;
      ghost var before := out[..];
      Put(out, q + 4 * k, At(input, at + k), p, data + Literal(input, at, k));
      Appended(data, Literal(input, at, k), At(input, at + k));
      SameTwice(old(out[..]), before, out[..], p, |data| + k, |data| + k + 1);
      k := k + 1;
    }
  }

  method PutRun(out: array<byte>, q: nat, v: byte, m: nat, ghost p: nat, ghost data: seq<byte>)
    requires Holds(out[..], p, data) && q == p + 4 * |data| && q + 4 * m <= out.Length + 3
    modifies out
    ensures Holds(out[..], p, data + Repeat(v, m)) && Same(old(out[..]), out[..], p, |data| + m)
  {
    var k := 0;
    assert data + Repeat(v, 0) == data;
    while k < m
      invariant 0 <= k <= m
      invariant Holds(out[..], p, data + Repeat(v, k)) && Same(old(out[..]), out[..], p, |data| + k)
    {
      hide Holds, Same;
      ghost var before := out[..];
      Put(out, q + 4 * k, v, p, data + Repeat(v, k));
      Appended(data, Repeat(v, k), v);
      SameTwice(old(out[..]), before, out[..], p, |data| + k, |data| + k + 1);
      k := k + 1;
    }
  }

  lemma BeforeTwice(a: seq<byte>, b: seq<byte>, rest: Unpacked)
    ensures Before(a, Before(b, rest)) == Before(a + b, rest)
  {
    if rest.Bytes? { assert a + (b + rest.data) == (a + b) + rest.data; }
  }

  /** The packet at `at`: fails, changing nothing, if it gives more than nleft bytes. */
  method PutPacket(input: seq<byte>, at: nat, out: array<byte>, q: nat, nleft: nat, ghost p: nat, ghost data: seq<byte>)
    returns (ok: bool, m: nat, next: nat)
    requires Holds(out[..], p, data) && q == p + 4 * |data| && q + 4 * nleft <= out.Length + 3
    modifies out
    ensures ok <==> |Head(input, at)| <= nleft
    ensures !ok ==> out[..] == old(out[..])
    ensures ok ==> m == |Head(input, at)| && next == at + Length(input, at)
    ensures ok ==> Holds(out[..], p, data + Head(input, at)) && Same(old(out[..]), out[..], p, |data| + m)
  {
    assert data + [] == data && Same(out[..], out[..], p, |data|);
    hide Holds, Same;
    var len: int := At(input, at);
    ok, m, next := true, 0, at + 1;
    if len == 128 {
    } else if len < 128 {
      len := len + 1;
      if len > nleft { return false, 0, 0; }
      PutLiteral(out, q, input, at + 1, len, p, data);
      m, next := len, at + 1 + len;
    } else {
      len := 257 - len;
      if len > nleft { return false, 0, 0; }
      PutRun(out, q, At(input, at + 1), len, p, data);
      m, next := len, at + 2;
    }
  }

  /** stbi__psd_decode_rle: n bytes, four apart from p on, and nothing else changes. */
  method DecodeRle(input: seq<byte>, start: nat, out: array<byte>, p: nat, pixelCount: nat) returns (ok: bool)
    requires p + 4 * pixelCount <= out.Length + 3
    modifies out
    ensures ok <==> Unpack(input, start, pixelCount).Bytes?
    ensures ok ==> Holds(out[..], p, Unpack(input, start, pixelCount).data)
    ensures Same(old(out[..]), out[..], p, pixelCount)
  {
    hide Unpack, Before, Holds, Same, Head, Length, At;
    var count: nat, at: nat := 0, start;
    ghost var done: seq<byte> := [];
    ghost var whole, was := Unpack(input, start, pixelCount), out[..];
    NothingDone(whole, was, p);
    while pixelCount - count > 0
      invariant 0 <= count == |done| <= pixelCount
      invariant whole == Before(done, Unpack(input, at, pixelCount - count))
      invariant Holds(out[..], p, done) && Same(was, out[..], p, count)
      decreases pixelCount - count, |input| - at
    {
      ghost var head, now, len := Head(input, at), out[..], Length(input, at);
      Progresses(input, at);
      UnpackOnce(input, at, pixelCount - count, done);
      var good, m, next := PutPacket(input, at, out, p + 4 * count, pixelCount - count, p, done);
      if !good {
        SameMore(was, now, p, count, pixelCount);
        return false;
      }
      SameTwice(was, now, out[..], p, |done|, |done| + m);
      count, at, done := count + m, next, done + head;
    }
    UnpackNone(input, at, done);
    ok := true;
  }

  lemma NothingDone(whole: Unpacked, s: seq<byte>, p: nat)
    ensures Before([], whole) == whole && Same(s, s, p, 0)
    ensures p <= |s| + 3 ==> Holds(s, p, [])
  {
    if whole.Bytes? { assert [] + whole.data == whole.data; }
  }

  /** A packet without bytes is a byte of the input, so the loop ends. */
  lemma Progresses(s: seq<byte>, p: nat)
    ensures Length(s, p) > 0 && (Head(s, p) == [] ==> p < |s|)
  {
  }

  lemma UnpackOnce(s: seq<byte>, p: nat, n: nat, done: seq<byte>)
    requires n > 0
    ensures |Head(s, p)| > n ==> Before(done, Unpack(s, p, n)).Corrupt?
    ensures |Head(s, p)| <= n ==>
      Before(done, Unpack(s, p, n)) == Before(done + Head(s, p), Unpack(s, p + Length(s, p), n - |Head(s, p)|))
  {
    hide Head, Length;
    if |Head(s, p)| <= n { BeforeTwice(done, Head(s, p), Unpack(s, p + Length(s, p), n - |Head(s, p)|)); }
  }

  lemma UnpackNone(s: seq<byte>, p: nat, done: seq<byte>)
    ensures Before(done, Unpack(s, p, 0)) == Bytes(done)
  {
    assert done + [] == done;
  }

  lemma SameMore(a: seq<byte>, b: seq<byte>, p: nat, m: nat, n: nat)
    requires Same(a, b, p, m) && m <= n
    ensures Same(a, b, p, n)
  {
  }
}
