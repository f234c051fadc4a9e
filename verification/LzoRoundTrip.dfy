/** Compress, then decompress: the data comes back. */
module LzoRoundTrip {
  import opened Bytes
  import opened LzoMachine
  import opened LzoRegisters
  import opened LzoExactness
  import opened LzoDecoder
  import opened LzoCompressor
  import opened LzoParse

  /**
    The library's promise: for every input, every initial dictionary, every hash function and any registers that
    hold the lengths, decompressing the compressed input into a buffer of exactly the original length succeeds and
    gives the input back. Nothing is asked of what follows the block in memory.
   */
  method RoundTrip(src: seq<byte>, dict: array<int>, hash: Hash, after: seq<byte>, safe: bool, word: nat)
    returns (rc: Code, outLen: nat, out: array<byte>)
    requires dict.Length == D_SIZE
    requires word == 0 || (MIN_WORD <= word && |src| + |src| / 16 + 4 < word)
    modifies dict
    ensures rc == Ok && outLen == |src| && fresh(out) && out[..] == src
  {
    hide Denotes, Config.Decode;
    var buffer := new byte[|src| + |src| / 16 + 4];
    var n;
    ghost var visits;
    n, visits := Compress(src, buffer, dict, hash);
    var c := Config(buffer[..n] + after, n, |src|, safe, word);
    assert c.src[..c.inLen] == buffer[..n];
    BlocksDecode(c, src);
    out := new byte[|src|];
    rc, outLen := Decompress(c, out);
    assert out[..outLen] == src;
  }
}
