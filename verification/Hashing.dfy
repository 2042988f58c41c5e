/** SHAKE-256 as a function, and as the incremental hasher the code feeds. */
module Hashing {
  import opened Bytes

  /** SHAKE-256 of an input, read to an output length. */
  type Xof = (seq<byte>, nat) -> seq<byte>

  /** An incremental SHAKE-256: what was absorbed so far. */
  class Shake256 {
    var absorbed: seq<byte>

    constructor ()
      ensures absorbed == []
    {
      absorbed := [];
    }

    method Update(bytes: seq<byte>)
      modifies this
      ensures absorbed == old(absorbed) + bytes
    {
      absorbed := absorbed + bytes;
    }

    method Read(shake: Xof, n: nat) returns (output: seq<byte>)
      ensures output == shake(absorbed, n)
    {
      output := shake(absorbed, n);
    }
  }
}
