/** How the daemons use the codec: texts are compressed into a buffer with a margin
    of 400 bytes and decompressed into one of exactly the recorded size. */
module QuickLz {
  import opened QuickLzFormat
  import H = QuickLzHistory
  import C = QuickLzCompress
  import D = QuickLzDecompress

  method CompressText(text: seq<Byte>, state: H.CompressState) returns (compressed: seq<Byte>)
    requires state.Valid()
    modifies state.offset, state.counter
    ensures compressed == [] <==> |text| == 0 || |text| > MAX_SIZE
    ensures compressed != [] ==> Encodes(compressed, text) && 9 <= |compressed| <= |text| + 151
  {
    var buffer := new Byte[|text| + 400];
    var size := C.Compress(text, buffer, state);
    compressed := buffer[..size];
  }

  method DecompressText(compressed: seq<Byte>, ghost text: seq<Byte>) returns (r: seq<Byte>)
    requires Encodes(compressed, text) && |compressed| >= 9
    ensures r == text
  {
    ghost var kind := D.StreamKind(compressed, text);
    var buffer := new Byte[SizeDecompressed(compressed)];
    var size := D.Decompress(compressed, buffer, text);
    r := buffer[..size];
  }

  /** Whatever the history held before, decompressing what was compressed gives the
      text back. */
  method RoundTrip(text: seq<Byte>, state: H.CompressState) returns (r: seq<Byte>)
    requires 0 < |text| <= MAX_SIZE && state.Valid()
    modifies state.offset, state.counter
    ensures r == text
  {
    var compressed := CompressText(text, state);
    r := DecompressText(compressed, text);
  }
}
