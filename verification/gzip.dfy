/**
  A model of the whole-buffer compressor (gzip.compress / gzip.decompress).
  The dumper needs only that decompressing a compressed buffer gives the buffer
  back and that foreign bytes are refused. The model frames the data with the
  gzip magic number and compression-method byte and stores it as is.
*/
module Gzip {
  import opened Base

  /** 0x1f 0x8b is the gzip magic number, 0x08 the deflate method byte. */
  const Header: seq<byte> := [0x1f, 0x8b, 0x08]

  function Compress(data: seq<byte>): (blob: seq<byte>)
    ensures |blob| >= |Header| && blob[..|Header|] == Header
  {
    Header + data
  }

  /**
    None stands for the exception gzip raises on a non-empty buffer without
    the header. An empty buffer holds no member at all and decompresses to
    nothing.
  */
  function Decompress(blob: seq<byte>): (data: Option<seq<byte>>)
    ensures data.Some? <==> blob == [] || (|blob| >= |Header| && blob[..|Header|] == Header)
    ensures blob == [] ==> data == Some([])
  {
    if blob == [] then Some([])
    else if |blob| >= |Header| && blob[..|Header|] == Header then Some(blob[|Header|..])
    else None
  }

  lemma DecompressCompress(data: seq<byte>)
    ensures Decompress(Compress(data)) == Some(data)
  {
    assert Compress(data)[|Header|..] == data;
  }
}
