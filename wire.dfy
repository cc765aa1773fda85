/** Bytes, the exceptions a step of the protocol can raise, and the small result types shared by every module. */
module Wire {

  newtype byte = x: int | 0 <= x < 256

  type Bytes = seq<byte>

  datatype Option<T> = None | Some(value: T)

  /** The exceptions the modelled code raises. Every one but Disconnection escapes the session uncaught. */
  datatype Exc =
    | Disconnection        // the proxy's own signal that the session ends
    | IndexError           // `(await reader.read(1))[0]` on an exhausted stream
    | UnpackError          // `x, = await reader.read(1)` on an exhausted stream (a ValueError)
    | IncompleteReadError  // `reader.readexactly(n)` with fewer than n bytes left
    | AttributeError       // `.value` looked up on a plain int
    | PackedLengthError    // `inet_ntoa` / `inet_ntop` given a packed address of the wrong length
    | AddressTextError     // `inet_aton` / `inet_pton` given text they cannot pack
    | ByteRangeError       // `bytes([n])` with n > 255 (a ValueError)
    | OverflowError        // `n.to_bytes(2, "big")` with n outside 0..65535

  datatype Result<T> = Ok(value: T) | Raised(exc: Exc)

  /** One step of the protocol over the client's input: what it returns or raises,
      the input it leaves unread, and the bytes it writes back to the client. */
  datatype Step<T> = Step(result: Result<T>, rest: Bytes, out: Bytes)

  function Min(a: nat, b: nat): nat
  {
    if a < b then a else b
  }

  /** What `StreamReader.read(n)` returns when the unread input is `s`: at most n bytes, fewer at end of stream. */
  function Take(s: Bytes, n: nat): (r: Bytes)
    ensures |r| == Min(n, |s|)
  {
    s[..Min(n, |s|)]
  }

  /** What is left unread after `StreamReader.read(n)`. */
  function Drop(s: Bytes, n: nat): (r: Bytes)
    ensures |r| == |s| - Min(n, |s|)
  {
    s[Min(n, |s|)..]
  }

  /** Concatenation regrouped; stated once so that proofs about long chains of writes need not rediscover it. */
  lemma AppendAssociative<T>(a: seq<T>, b: seq<T>, c: seq<T>)
    ensures a + b + c == a + (b + c)
  {
  }

  /** `int.from_bytes(bs, "big")`: the empty string is 0. */
  function FromBigEndian(bs: Bytes): nat
  {
    if bs == [] then 0 else FromBigEndian(bs[..|bs| - 1]) * 256 + bs[|bs| - 1] as int
  }

  /** `n.to_bytes(2, "big")`, which raises OverflowError outside 0..65535. */
  function ToBigEndian2(n: int): (r: Result<Bytes>)
    ensures r.Ok? <==> 0 <= n < 0x1_0000
    ensures r.Raised? ==> r.exc == OverflowError
    ensures r.Ok? ==> |r.value| == 2 && FromBigEndian(r.value) == n
  {
    if 0 <= n < 0x1_0000 then
      var bs: Bytes := [(n / 256) as byte, (n % 256) as byte];
      assert FromBigEndian(bs[..1]) == bs[0] as int by {
        assert bs[..1][..0] == [];
      }
      Ok(bs)
    else
      Raised(OverflowError)
  }
}
