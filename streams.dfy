/** The asyncio stream objects the proxy reads and writes, reduced to what the protocol code observes. */
module Streams {
  import opened Wire

  /** A `StreamReader` over the finite byte stream a peer sends: `input`, of which `pos` bytes are consumed. */
  class Reader {
    const input: Bytes
    var pos: nat

    ghost predicate Valid()
      reads this
    {
      pos <= |input|
    }

    /** The bytes not read yet. */
    function Remaining(): Bytes
      reads this
      requires Valid()
    {
      input[pos..]
    }

    constructor (input: Bytes)
      ensures Valid() && this.input == input && Remaining() == input
    {
      this.input := input;
      pos := 0;
    }

    /** `await reader.read(n)`: up to n bytes, the empty string at end of stream. */
    method Read(n: nat) returns (b: Bytes)
      requires Valid()
      modifies this
      ensures Valid()
      ensures b == Take(old(Remaining()), n)
      ensures Remaining() == Drop(old(Remaining()), n)
    {
      var k := Min(n, |input| - pos);
      b := input[pos..pos + k];
      pos := pos + k;
    }

    /** `await reader.readexactly(n)`: exactly n bytes, or IncompleteReadError after taking what was left. */
    method ReadExactly(n: nat) returns (r: Result<Bytes>)
      requires Valid()
      modifies this
      ensures Valid()
      ensures n <= |old(Remaining())| ==> r == Ok(old(Remaining())[..n]) && Remaining() == old(Remaining())[n..]
      ensures n > |old(Remaining())| ==> r == Raised(IncompleteReadError) && Remaining() == []
    {
      if n <= |input| - pos {
        assert input[pos..pos + n] == input[pos..][..n];
        r := Ok(input[pos..pos + n]);
        pos := pos + n;
      } else {
        r := Raised(IncompleteReadError);
        pos := |input|;
      }
    }
  }

  /** A `StreamWriter`: the bytes written so far, and whether it has been closed. */
  class Writer {
    var data: Bytes
    var closed: bool

    constructor ()
      ensures data == [] && !closed
    {
      data := [];
      closed := false;
    }

    /** `writer.write(b)` followed by `await writer.drain()`. */
    method Write(b: Bytes)
      modifies this
      ensures data == old(data) + b && closed == old(closed)
    {
      data := data + b;
    }

    /** `writer.close()`. */
    method Close()
      modifies this
      ensures data == old(data) && closed
    {
      closed := true;
    }
  }

  /** The successive results of `await reader.read(32 * 1024)` during the relay: one chunk per read;
      a read past the last chunk returns the empty string. */
  class ChunkReader {
    const chunks: seq<Bytes>
    var pos: nat

    ghost predicate Valid()
      reads this
    {
      pos <= |chunks|
    }

    /** The chunks not read yet. */
    function Remaining(): seq<Bytes>
      reads this
      requires Valid()
    {
      chunks[pos..]
    }

    constructor (chunks: seq<Bytes>)
      ensures Valid() && this.chunks == chunks && Remaining() == chunks
    {
      this.chunks := chunks;
      pos := 0;
    }

    method Read() returns (c: Bytes)
      requires Valid()
      modifies this
      ensures Valid()
      ensures old(Remaining()) == [] ==> c == [] && Remaining() == []
      ensures old(Remaining()) != [] ==> c == old(Remaining())[0] && Remaining() == old(Remaining())[1..]
    {
      if pos < |chunks| {
        c := chunks[pos];
        pos := pos + 1;
      } else {
        c := [];
      }
    }
  }
}
