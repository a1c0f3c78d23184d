/** The socket under everything: what the peer sends from here on, and what was written to it. */
module Conns {
  import opened Bytes
  import opened Wrappers

  class Conn {
    var input: Bytes
    var writes: seq<Bytes>

    constructor (input: Bytes)
      ensures this.input == input && writes == []
    {
      this.input, writes := input, [];
    }

    method Write(p: Bytes)
      modifies this`writes
      ensures writes == old(writes) + [p]
    {
      writes := writes + [p];
    }

    /** One read returns some of what was asked for, as the network has it. */
    method Read(size: nat) returns (r: Result<Bytes>)
      requires size > 0
      modifies this`input
      ensures r.Ok? <==> old(input) != []
      ensures r.Ok? ==> 1 <= |r.value| <= size && old(input) == r.value + input
      ensures r.Err? ==> input == []
    {
      if |input| == 0 {
        return Err(EndOfFile);
      }
      var k: nat :| 1 <= k <= size && k <= |input|;
      r := Ok(input[..k]);
      input := input[k..];
    }

    /** internal/mtproto/transport.go, lines 28-32: reads until there are n bytes, however they come. */
    method ReadFull(n: nat) returns (r: Result<Bytes>)
      modifies this`input
      ensures n <= |old(input)| ==> r == Ok(old(input)[..n]) && input == old(input)[n..]
      ensures n > |old(input)| ==> r == Err(UnexpectedEof) && input == []
    {
      var out: Bytes := [];
      while |out| < n
        invariant |out| <= n && old(input) == out + input
      {
        var piece := Read(n - |out|);
        if piece.Err? {
          return Err(UnexpectedEof);
        }
        out := out + piece.value;
      }
      r := Ok(out);
    }
  }
}
