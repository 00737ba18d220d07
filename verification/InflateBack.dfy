/** stb_image's decoder on streams that were written by the standard. */
module InflateBack {
  import opened Common
  import opened DeflateWriter
  import Deflate
  import Inflate
  import Room

  /** Whatever was written, with or without a header, is decoded into a buffer of its size. */
  method ReadBack(input: seq<byte>, parseHeader: bool, size: nat, ghost header: seq<byte>, ghost blocks: seq<Block>)
    returns (out: seq<byte>)
    requires StreamOk(blocks, 8 * |header|, []) && input == Written(header, blocks)
    requires if parseHeader then IsHeader(header) else header == []
    requires size == |Meaning(blocks, 8 * |header|, [])| <= Room.UINT_MAX
    ensures out == Meaning(blocks, 8 * |header|, [])
  {
    hide StreamOk, Written, Meaning, StreamBits, IsHeader, Deflate.Inflate;
    InflateWritten(header, blocks);
    assert parseHeader <==> header != [] by { HeaderLength(header); }
    var obuf := new byte[size];
    var z := new Inflate.ZBuf(input, obuf, false, 0);
    var st := z.ParseZlib(parseHeader);
    out := z.out[..z.zout];
  }

  lemma HeaderLength(header: seq<byte>)
    ensures IsHeader(header) ==> |header| == 2
  {
  }
}
