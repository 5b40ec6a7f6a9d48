/** The byte source the decoder reads from: an Arduino `HardwareSerial`
    port, reduced to the two calls the decoder makes, `available()` and
    `readBytes(buffer, length)`. */
module Serial {

  /** What remains of the count of buffered bytes after `n` bytes are
      taken out; reading past the buffered bytes empties the buffer. */
  function Drain(avail: nat, n: nat): (r: nat)
    ensures r <= avail
    ensures avail >= n ==> r + n == avail
    ensures avail <= n ==> r == 0
  {
    if avail >= n then avail - n else 0
  }

  class SerialPort {
    /** Every byte the port will deliver from now on, in order. A read
        that waits for bytes not buffered yet receives them from here:
        the model has no read timeout. */
    var incoming: seq<bv8>
    /** The count `available()` reports: the bytes already received. */
    var buffered: nat

    ghost predicate Valid()
      reads this
    {
      buffered <= |incoming|
    }

    constructor (stream: seq<bv8>, received: nat)
      requires received <= |stream|
      ensures Valid()
      ensures incoming == stream && buffered == received
    {
      incoming := stream;
      buffered := received;
    }

    /** `available()`. */
    method Available() returns (n: nat)
      ensures n == buffered
    {
      n := buffered;
    }

    /** `readBytes(buf, length)`: the next `length` bytes of the stream
        land in `buf[0..length)` and leave the stream; the rest of `buf`
        is untouched. */
    method ReadBytes(buf: array<bv8>, length: nat)
      requires Valid()
      requires length <= buf.Length && length <= |incoming|
      modifies this, buf
      ensures Valid()
      ensures buf[..] == old(incoming[..length]) + old(buf[length..])
      ensures incoming == old(incoming[length..])
      ensures buffered == Drain(old(buffered), length)
    {
      forall i | 0 <= i < length {
        buf[i] := incoming[i];
      }
      assert buf[..] == incoming[..length] + old(buf[length..]);
      incoming := incoming[length..];
      buffered := Drain(buffered, length);
    }
  }
}
