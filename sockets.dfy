/** The socket as the decoder sees it: a blocking `recv(socket, buffer, capacity, 0)`
    that returns the number of bytes it wrote into the buffer, 0 when the peer has
    closed the connection, or -1 when the call failed. What successive calls return
    is given in advance as a script of receptions. */
module Sockets {

  type Byte = b: int | 0 <= b < 0x100

  /** What one call of the byte reader yields: a byte, 0 when `recv` returned 0,
      -1 when `recv` failed. */
  type ReadValue = v: int | -1 <= v < 0x100

  /** One outcome of `recv`: the bytes that arrived (an empty chunk makes `recv`
      return 0), or a failure. Once the script is used up the peer has closed the
      connection and every further `recv` returns 0. */
  datatype Reception = Chunk(bytes: seq<Byte>) | Failure

  /** The result of one `recv` call: its return value, the bytes written to the
      buffer, and the receptions still pending afterwards. */
  datatype Received = Received(count: int, data: seq<Byte>, next: seq<Reception>)

  /** The values a caller reading one value at a time observes from a script: the
      bytes of every chunk in order, 0 for an empty chunk, and -1 for a failure,
      after which nothing more is defined. */
  function Values(script: seq<Reception>): seq<ReadValue>
  {
    if script == [] then []
    else match script[0]
      case Failure => [-1]
      case Chunk(bytes) => (if bytes == [] then [0] else bytes) + Values(script[1..])
  }

  /** A failure is the last thing a reader observes, and it observes one only
      when some reception failed. */
  lemma {:induction false} ValuesFailureLast(script: seq<Reception>)
    ensures var vs := Values(script);
      forall i :: 0 <= i < |vs| && vs[i] == -1 ==> i == |vs| - 1
    ensures (forall i :: 0 <= i < |script| ==> script[i].Chunk?) ==> -1 !in Values(script)
  {
    if script != [] {
      ValuesFailureLast(script[1..]);
      if script[0].Chunk? {
        var head: seq<ReadValue> := if script[0].bytes == [] then [0] else script[0].bytes;
        var vs := Values(script);
        assert vs == head + Values(script[1..]);
        assert -1 !in head;
        forall i | 0 <= i < |vs| && vs[i] == -1 ensures i == |vs| - 1 {
          assert i >= |head|;
          assert Values(script[1..])[i - |head|] == -1;
        }
        if forall i :: 0 <= i < |script| ==> script[i].Chunk? {
          assert forall i :: 0 <= i < |script| - 1 ==> script[1..][i] == script[i + 1];
        }
      }
    }
  }

  /** The first value of a stream; a used-up stream yields 0, as `recv` does once
      the peer has closed. */
  function Head(vs: seq<ReadValue>): ReadValue
  {
    if vs == [] then 0 else vs[0]
  }

  function Tail(vs: seq<ReadValue>): seq<ReadValue>
  {
    if vs == [] then [] else vs[1..]
  }

  /** The head and tail of what is left after `i` values: the value at `i` and
      what follows it, or nothing once the values are used up. */
  lemma HeadTailAt(vs: seq<ReadValue>, i: nat)
    requires i <= |vs|
    ensures i < |vs| ==> Head(vs[i..]) == vs[i] && Tail(vs[i..]) == vs[i + 1..]
    ensures i == |vs| ==> Head(vs[i..]) == 0 && Tail(vs[i..]) == []
  {
    if i < |vs| {
      assert vs[i..][1..] == vs[i + 1..];
    }
  }

  /** One `recv` into a buffer of `capacity` bytes. A chunk longer than the buffer
      is delivered in part; the rest stays pending for the next call. */
  function Receive(pending: seq<Reception>, capacity: nat): (r: Received)
    requires capacity > 0
    ensures -1 <= r.count <= capacity
    ensures |r.data| == if r.count > 0 then r.count else 0
  {
    if pending == [] then Received(0, [], [])
    else match pending[0]
      case Failure => Received(-1, [], pending[1..])
      case Chunk(bytes) =>
        if |bytes| <= capacity then Received(|bytes|, bytes, pending[1..])
        else Received(capacity, bytes[..capacity], [Chunk(bytes[capacity..])] + pending[1..])
  }

  /** One `recv` delivers a prefix of the values the script yields and keeps the
      rest pending: its bytes are their front; a 0 stands for their next value,
      0; a -1 is the last value there is. */
  lemma ReceiveValues(pending: seq<Reception>, capacity: nat)
    requires capacity > 0
    ensures var r := Receive(pending, capacity);
      (r.count > 0 ==> Values(pending) == r.data + Values(r.next)) &&
      (r.count == 0 ==> Head(Values(pending)) == 0 && Tail(Values(pending)) == Values(r.next)) &&
      (r.count == -1 ==> Values(pending) == [-1])
  {
    if pending != [] && pending[0].Chunk? && |pending[0].bytes| > capacity {
      var bytes := pending[0].bytes;
      var next := [Chunk(bytes[capacity..])] + pending[1..];
      assert next[1..] == pending[1..];
      assert bytes == bytes[..capacity] + bytes[capacity..];
    }
  }

  /** The bytes of all chunks of a script, in order. */
  function Concat(script: seq<Reception>): seq<Byte>
  {
    if script == [] then []
    else (if script[0].Chunk? then script[0].bytes else []) + Concat(script[1..])
  }

  /** A script in which the peer sends data only: no failure, no empty chunk. */
  predicate DataOnly(script: seq<Reception>)
  {
    forall i :: 0 <= i < |script| ==> script[i].Chunk? && script[i].bytes != []
  }

  lemma {:induction false} ValuesOfDataOnly(script: seq<Reception>)
    requires DataOnly(script)
    ensures Values(script) == Concat(script)
  {
    if script != [] {
      assert DataOnly(script[1..]) by {
        forall i | 0 <= i < |script| - 1 ensures script[1..][i].Chunk? && script[1..][i].bytes != [] {
          assert script[1..][i] == script[i + 1];
        }
      }
      ValuesOfDataOnly(script[1..]);
    }
  }

  /** However the peer's data is cut into chunks, the reader observes the same
      values: they depend only on the concatenated bytes. */
  lemma FragmentationIndependence(a: seq<Reception>, b: seq<Reception>)
    requires DataOnly(a) && DataOnly(b)
    requires Concat(a) == Concat(b)
    ensures Values(a) == Values(b)
  {
    ValuesOfDataOnly(a);
    ValuesOfDataOnly(b);
  }

  /** The kernel side of one connection: the receptions still to come. */
  class Socket {
    var pending: seq<Reception>

    constructor (script: seq<Reception>)
      ensures pending == script
    {
      pending := script;
    }

    /** `recv(socket, buffer, buffer.Length, 0)`: writes the delivered bytes to the
        front of the buffer, leaves the rest of the buffer as it was. */
    method Recv(buffer: array<Byte>) returns (n: int)
      requires buffer.Length > 0
      modifies this, buffer
      ensures var r := Receive(old(pending), buffer.Length);
        n == r.count && pending == r.next &&
        (n > 0 ==> buffer[..n] == r.data && buffer[n..] == old(buffer[n..])) &&
        (n <= 0 ==> unchanged(buffer))
    {
      var r := Receive(pending, buffer.Length);
      if r.count > 0 {
        forall i | 0 <= i < r.count {
          buffer[i] := r.data[i];
        }
      }
      pending := r.next;
      n := r.count;
    }
  }
}
