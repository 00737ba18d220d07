/** What several decoders share. */
module Common {
  import opened Bits

  type byte = x: int | 0 <= x < 256

  datatype Option<+T> = None | Some(value: T)

  /** `count` copies of one value. */
  function Repeat<T>(x: T, count: nat): (r: seq<T>)
    ensures |r| == count && forall i | 0 <= i < count :: r[i] == x
  {
    if count == 0 then [] else Repeat(x, count - 1) + [x]
  }

  /** A byte of the input; zero past the end. */
  function At(s: seq<byte>, p: nat): byte {
    if p < |s| then s[p] else 0
  }

  /** Bit p, the most significant bit of each byte first. */
  function RowBit(row: seq<byte>, p: nat): nat {
    if p / 8 < |row| then Bit(row[p / 8], 7 - p % 8) else 0
  }
}
