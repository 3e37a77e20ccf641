/** The HTTP/1.x request-head parser of one connection: a 1024-byte receive buffer
    with its fill level and read cursor, served one byte at a time, a line reader
    on top of it, and the header-block and request decoders on top of that. Every
    method is proved against the functions of `Decoding` applied to the stream of
    values the parser has yet to read. */
module Parser {
  import opened Sequences
  import opened Strings
  import opened Sockets
  import opened Decoding

  const BufferCapacity: nat := 1024

  class HttpParser {
    var recvBuffer: array<Byte>
    /** The last `recv` result: the number of bytes in the buffer, 0, or -1. */
    var recvBufferSize: int
    /** The index of the next byte to serve. */
    var recvBufferOffset: int

    ghost predicate Valid()
      reads this
    {
      recvBuffer.Length == BufferCapacity && Consistent(recvBufferSize, recvBufferOffset)
    }

    /** No receive has failed yet. After a failure `recvBufferSize` keeps -1, so
        the refill test stays false and later reads serve stale buffer bytes. */
    predicate Healthy()
      reads this
    {
      recvBufferSize >= 0
    }

    /** The values the byte reader will serve from here on, until a receive fails. */
    ghost function Stream(socket: Socket): seq<ReadValue>
      reads this, recvBuffer, socket
      requires Valid()
    {
      Unserved(State(socket))
    }

    /** The reader's state as a value, with what the peer has still to send. */
    ghost function State(socket: Socket): (s: ReaderState)
      reads this, recvBuffer, socket
      requires Valid()
      ensures s.Valid()
    {
      ReaderState(recvBuffer[..], recvBufferSize, recvBufferOffset, socket.pending)
    }

    constructor ()
      ensures Valid() && fresh(recvBuffer)
      ensures recvBufferSize == 0 && recvBufferOffset == 0
      ensures forall i :: 0 <= i < recvBuffer.Length ==> recvBuffer[i] == 0
    {
      recvBuffer := new Byte[BufferCapacity](_ => 0);
      recvBufferSize := 0;
      recvBufferOffset := 0;
    }

    /** `nextUInt8`: the next byte, refilling the buffer with one `recv` when it
        holds nothing unread; a `recv` result of 0 or -1 is returned as it is. */
    method NextUInt8(socket: Socket) returns (v: ReadValue)
      requires Valid()
      requires recvBufferSize == -1 ==> recvBufferOffset < BufferCapacity
      modifies this`recvBufferSize, this`recvBufferOffset, recvBuffer, socket
      ensures Valid()
      ensures (v, State(socket)) == ByteStep(old(State(socket)))
      ensures old(Healthy()) ==> v == Head(old(Stream(socket))) && Stream(socket) == Tail(old(Stream(socket)))
      ensures old(Healthy()) ==> (Healthy() <==> v != -1)
    {
      ghost var s0 := State(socket);
      if recvBufferSize == 0 || recvBufferSize == recvBufferOffset {
        recvBufferOffset := 0;
        recvBufferSize := socket.Recv(recvBuffer);
        if recvBufferSize <= 0 {
          assert (recvBufferSize as ReadValue, State(socket)) == ByteStep(s0) by {
            assert recvBuffer[..] == s0.buffer;
          }
          if s0.size >= 0 {
            ByteStepServes(s0);
          }
          return recvBufferSize;
        }
        assert recvBuffer[..] == recvBuffer[..recvBufferSize] + recvBuffer[recvBufferSize..];
      }
      v := recvBuffer[recvBufferOffset];
      recvBufferOffset := recvBufferOffset + 1;
      if s0.size >= 0 {
        ByteStepServes(s0);
      }
    }

    /** `nextLine`: reads values up to and including the first LF, 0 or -1, keeping
        those above CR as characters; fails only when that last value is -1. */
    method NextLine(socket: Socket) returns (line: Result<string>)
      requires Valid() && Healthy()
      modifies this`recvBufferSize, this`recvBufferOffset, recvBuffer, socket
      ensures Valid()
      ensures (line, Stream(socket)) == ReadLine(old(Stream(socket)))
      ensures line.Ok? <==> Healthy()
    {
      ghost var vs := Stream(socket);
      ghost var i := 0;
      var characters := "";
      var n: ReadValue := 0;
      while true
        invariant Valid() && Healthy()
        invariant i <= LineEnd(vs) && i <= |vs|
        invariant Stream(socket) == vs[i..]
        invariant characters == Text(vs[..i])
        decreases |vs| - i
      {
        n := NextUInt8(socket);
        HeadTailAt(vs, i);
        if i < |vs| {
          TextStep(vs, i, characters);
          LineEndAt(vs, i);
        }
        if n > CR {
          characters := characters + [n as char];
        }
        if !(n > 0 && n != LF) {
          break;
        }
        i := i + 1;
      }
      assert i == LineEnd(vs);
      if n == -1 {
        return Err(RecvFailed);
      }
      return Ok(characters);
    }

    /** `nextHeaders`: reads header lines up to the first empty one; a line with at
        least two colon-separated pieces sets its lower-cased first piece to its
        second piece, a later line overriding an earlier one. */
    method NextHeaders(socket: Socket) returns (result: Result<Headers>)
      requires Valid() && Healthy()
      modifies this`recvBufferSize, this`recvBufferOffset, recvBuffer, socket
      ensures Valid()
      ensures (result, Stream(socket)) == ReadHeaders(old(Stream(socket)))
      ensures result.Ok? <==> Healthy()
    {
      ghost var vs := Stream(socket);
      ghost var seen: seq<string> := [];
      var headers: Headers := map[];
      LinesBeforeNothing(BlockLines(vs));
      while true
        invariant Valid() && Healthy()
        invariant headers == Collect(seen)
        invariant BlockLines(vs) == LinesBefore(seen, BlockLines(Stream(socket)))
        decreases |Stream(socket)|
      {
        ghost var before := Stream(socket);
        var next := NextLine(socket);
        BlockLinesResume(vs, seen, before);
        if next.Err? {
          return Err(next.error);
        }
        var headerLine := next.value;
        if headerLine == [] {
          return Ok(headers);
        }
        var headerTokens := Split(headerLine, ':');
        if |headerTokens| >= 2 {
          var headerName := Lower(headerTokens[0]);
          var headerValue := headerTokens[1];
          if headerName != [] && headerValue != [] {
            headers := headers[headerName := headerValue];
          }
        }
        AddFieldOfPieces(Collect(seen), headerLine);
        assert (seen + [headerLine])[..|seen|] == seen;
        seen := seen + [headerLine];
      }
    }

    /** `nextHttpRequest`: the status line split on blanks, refused with fewer than
        three tokens, then the header block; the result carries the path first. */
    method NextHttpRequest(socket: Socket) returns (result: Result<Request>)
      requires Valid() && Healthy()
      modifies this`recvBufferSize, this`recvBufferOffset, recvBuffer, socket
      ensures Valid()
      ensures (result, Stream(socket)) == ReadRequest(old(Stream(socket)))
      ensures Healthy() <==> !(result.Err? && result.error == RecvFailed)
    {
      ghost var vs := Stream(socket);
      var statusLine := NextLine(socket);
      ghost var rest := Stream(socket);
      assert (statusLine, rest) == ReadLine(vs);
      if statusLine.Ok? {
        var statusTokens := Split(statusLine.value, ' ');
        if |statusTokens| < 3 {
          return Err(InvalidStatusLine(statusLine.value));
        }
        var httpMethod := statusTokens[0];
        var path := statusTokens[1];
        var headers := NextHeaders(socket);
        if headers.Ok? {
          return Ok(Request(path, httpMethod, headers.value));
        }
        return Err(headers.error);
      }
      return Err(statusLine.error);
    }

    /** `supportsKeepAlive`: whether the "connection" header, trimmed and
        lower-cased, is "keep-alive". It reads no parser state. */
    static function SupportsKeepAlive(headers: Headers): (r: bool)
      ensures r <==> "connection" in headers && SpellsKeepAlive(Trim(headers["connection"]))
    {
      if "connection" in headers then
        LowerSpellsKeepAlive(Trim(headers["connection"]));
        "keep-alive" == Lower(Trim(headers["connection"]))
      else false
    }
  }

  /** The bounds the fill level and the cursor keep: the fill level is a `recv`
      result, and the cursor never passes it while it is not -1. */
  predicate Consistent(size: int, offset: int)
  {
    -1 <= size <= BufferCapacity && 0 <= offset <= BufferCapacity && (size >= 0 ==> offset <= size)
  }

  /** The byte reader's buffer contents, fill level and cursor, with the
      receptions the peer has still to deliver. */
  datatype ReaderState = ReaderState(buffer: seq<Byte>, size: int, offset: int, pending: seq<Reception>)
  {
    predicate Valid()
    {
      |buffer| == BufferCapacity && Consistent(size, offset)
    }
  }

  /** One call of `nextUInt8` on a reader state: with nothing unread, the cursor
      goes to 0 and one `recv` overwrites the front of the buffer; a result of 0
      or -1 is passed on, otherwise its first byte is served. With bytes unread,
      or after a failure, the byte at the cursor is served. */
  function ByteStep(s: ReaderState): (r: (ReadValue, ReaderState))
    requires s.Valid() && (s.size == -1 ==> s.offset < BufferCapacity)
    ensures r.1.Valid()
  {
    if s.size == 0 || s.size == s.offset then
      var got := Receive(s.pending, BufferCapacity);
      if got.count <= 0 then (got.count, ReaderState(s.buffer, got.count, 0, got.next))
      else (got.data[0], ReaderState(got.data + s.buffer[got.count..], got.count, 1, got.next))
    else (s.buffer[s.offset], s.(offset := s.offset + 1))
  }

  /** The values a byte reader serves from here on: the bytes of its buffer from
      the cursor up to the fill level, then what the peer has still to send;
      nothing once a receive has failed (the fill level is -1). */
  function Unserved(s: ReaderState): seq<ReadValue>
    requires s.Valid()
  {
    if s.size < 0 then [] else s.buffer[s.offset..s.size] + Values(s.pending)
  }

  /** A step of a reader that has not failed serves the head of the values it
      has yet to serve and leaves their tail; it fails exactly when it serves -1. */
  lemma ByteStepServes(s: ReaderState)
    requires s.Valid() && s.size >= 0
    ensures var (v, t) := ByteStep(s);
      v == Head(Unserved(s)) && Unserved(t) == Tail(Unserved(s)) && (t.size >= 0 <==> v != -1)
  {
    if s.size == 0 || s.size == s.offset {
      UnservedRefill(s);
    } else {
      UnservedServe(s);
    }
  }

  /** Serving the byte at the cursor serves the head of the unserved values and
      leaves their tail. */
  lemma UnservedServe(s: ReaderState)
    requires s.Valid() && 0 <= s.offset < s.size
    ensures var (v, t) := ByteStep(s);
      v == Head(Unserved(s)) && Unserved(t) == Tail(Unserved(s)) && t.size >= 0 && v != -1
  {
    var a: seq<ReadValue> := s.buffer[s.offset..s.size];
    DropFirst(a, Values(s.pending));
    assert a[1..] == s.buffer[s.offset + 1..s.size];
  }

  /** With nothing unread, the unserved values are what the peer sends; one
      receive, then serving its first byte (or passing on its 0 or -1), serves
      their head and leaves their tail, and fails exactly on -1. */
  lemma UnservedRefill(s: ReaderState)
    requires s.Valid() && (s.size == 0 || s.size == s.offset)
    ensures Unserved(s) == Values(s.pending)
    ensures var (v, t) := ByteStep(s);
      v == Head(Values(s.pending)) && Unserved(t) == Tail(Values(s.pending)) && (t.size >= 0 <==> v != -1)
  {
    assert s.buffer[s.offset..s.size] == [];
    var r := Receive(s.pending, BufferCapacity);
    var vs := Values(s.pending);
    ReceiveValues(s.pending, BufferCapacity);
    if r.count > 0 {
      var b := r.data + s.buffer[r.count..];
      assert vs == r.data + Values(r.next);
      assert vs[0] == r.data[0];
      assert vs[1..] == r.data[1..] + Values(r.next);
      assert b[1..r.count] == r.data[1..];
    } else if r.count == 0 {
      assert Unserved(ReaderState(s.buffer, 0, 0, r.next)) == Values(r.next) by {
        assert s.buffer[0..0] == [];
      }
    } else {
      assert vs == [-1];
    }
  }

  /** "keep-alive" in any mix of upper and lower case. */
  predicate SpellsKeepAlive(x: string)
  {
    |x| == 10 && forall i :: 0 <= i < 10 ==> x[i] == "keep-alive"[i] || x[i] == "KEEP-ALIVE"[i]
  }

  /** Lower-casing compares case-insensitively with "keep-alive": no other
      character lower-cases to one of its letters or to its hyphen. */
  lemma LowerSpellsKeepAlive(x: string)
    ensures Lower(x) == "keep-alive" <==> SpellsKeepAlive(x)
  {
    if |x| == 10 {
      assert Lower(x) == "keep-alive" <==> forall i :: 0 <= i < 10 ==> LowerChar(x[i]) == "keep-alive"[i];
    }
  }

  /** A connection header whose value is "keep-alive", in any case, between any
      whitespace, asks to keep the connection; any other text between whitespace
      does not. */
  lemma KeepAliveOfPadded(headers: Headers, p: string, x: string, q: string)
    requires "connection" in headers && headers["connection"] == p + x + q
    requires AllWhitespace(p) && AllWhitespace(q)
    requires x != [] && !IsWhitespace(x[0]) && !IsWhitespace(x[|x| - 1])
    ensures HttpParser.SupportsKeepAlive(headers) <==> SpellsKeepAlive(x)
  {
    TrimPadded(p, x, q);
  }

  /** A fresh parser reading its first request from a fresh connection whose
      peer sends the receptions of `script`, in order. */
  method DecodeRequest(script: seq<Reception>) returns (result: Result<Request>)
    ensures result == ReadRequest(Values(script)).0
  {
    var socket := new Socket(script);
    var parser := new HttpParser();
    assert parser.Stream(socket) == Values(script) by {
      assert parser.recvBuffer[..][0..0] == [];
    }
    result := parser.NextHttpRequest(socket);
  }

  /** However the request's bytes are cut into receptions, and whatever the
      buffer boundaries, the parser decodes the same request. */
  lemma DecodeIndependentOfFragmentation(a: seq<Reception>, b: seq<Reception>)
    requires DataOnly(a) && DataOnly(b) && Concat(a) == Concat(b)
    ensures ReadRequest(Values(a)) == ReadRequest(Values(b))
  {
    FragmentationIndependence(a, b);
  }
}
