/** `std::io::Read` over bytes already received, by the contract of `read_exact`. */
module Io {
  import opened Bits
  import opened Wrappers

  class Reader {
    /** What has not been read yet. */
    var data: seq<byte>

    constructor (data: seq<byte>)
      ensures this.data == data
    {
      this.data := data;
    }

    /** Reads `n` bytes; when fewer are left, what then remains is not specified. */
    method ReadExact(n: nat) returns (r: Result<seq<byte>>)
      modifies this
      ensures r.Ok? <==> n <= |old(data)|
      ensures r.Ok? ==> r.value == old(data)[..n] && data == old(data)[n..]
    {
      if n <= |data| {
        r := Ok(data[..n]);
        data := data[n..];
      } else {
        r := UnexpectedEof;
        data := [];
      }
    }
  }
}
