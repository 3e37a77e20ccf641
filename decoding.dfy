/** What the request decoder computes, as functions of the stream of values its
    byte reader yields: the line reader (`nextLine`), the header block
    (`nextHeaders`) and the request (`nextHttpRequest`). The imperative parser is
    proved against these functions; the lemmas here say what they mean. */
module Decoding {
  import opened Sequences
  import opened Strings
  import opened Sockets

  const CR: ReadValue := 13
  const LF: ReadValue := 10

  datatype Option<+T> = None | Some(value: T)

  /** Why a request could not be decoded; `Reason` is the failure reason the
      parser reports. */
  datatype ParseError = RecvFailed | InvalidStatusLine(line: string)
  {
    function Reason(): string
    {
      match this
      case RecvFailed => "recv(...) failed."
      case InvalidStatusLine(line) => "Invalid status line: " + line
    }
  }

  datatype Result<+T> = Ok(value: T) | Err(error: ParseError)

  /** Header names (lower-cased) to header values. */
  type Headers = map<string, string>

  /** A decoded request head, in the order the parser returns it: path first. */
  datatype Request = Request(path: string, httpMethod: string, headers: Headers)

  /* ---------------------------------------------------------------- lines */

  /** The values that stop the line reader: LF, 0 (peer closed, or a NUL byte)
      and -1 (receive failure). */
  predicate EndsLine(v: ReadValue)
  {
    v <= 0 || v == LF
  }

  /** Position of the first value that ends a line, or `|vs|` when the stream is
      used up first (the reader then sees the 0 of a closed connection). */
  function LineEnd(vs: seq<ReadValue>): (k: nat)
    ensures k <= |vs|
    ensures k < |vs| ==> EndsLine(vs[k])
    ensures forall j :: 0 <= j < k ==> !EndsLine(vs[j])
  {
    if vs == [] || EndsLine(vs[0]) then 0 else 1 + LineEnd(vs[1..])
  }

  /** The character a value contributes to a line: values above CR are kept as
      the Latin-1 character of that code, values from 0 to 13 (NUL, TAB, LF, CR
      and the like) are dropped; the other control codes, 14 to 31 and DEL,
      are kept. */
  function Kept(v: ReadValue): string
  {
    if v > CR then [v as char] else []
  }

  /** The characters that stand for values above CR. */
  predicate Printable(s: string)
  {
    forall i :: 0 <= i < |s| ==> CR as int < s[i] as int < 0x100
  }

  /** The text of a run of values: the characters of the values above CR, in
      order. */
  function Text(vs: seq<ReadValue>): (s: string)
    ensures |s| <= |vs|
    ensures Printable(s)
  {
    if vs == [] then [] else Text(vs[..|vs| - 1]) + Kept(vs[|vs| - 1])
  }

  /** One more value of a line adds the character it keeps, if any, to the text
      read so far. */
  lemma TextStep(vs: seq<ReadValue>, i: nat, text: string)
    requires i < |vs| && text == Text(vs[..i])
    ensures Text(vs[..i + 1]) == if vs[i] > CR then text + [vs[i] as char] else text
  {
    assert vs[..i + 1][..i] == vs[..i];
  }

  /** Within a line that is still open, the value at `i` ends it exactly when `i`
      is where it ends. */
  lemma LineEndAt(vs: seq<ReadValue>, i: nat)
    requires i <= LineEnd(vs) && i < |vs|
    ensures EndsLine(vs[i]) <==> LineEnd(vs) == i
  {
  }

  lemma {:induction false} TextConcat(a: seq<ReadValue>, b: seq<ReadValue>)
    ensures Text(a + b) == Text(a) + Text(b)
    decreases |b|
  {
    if b == [] {
      assert a + b == a;
    } else {
      var b' := b[..|b| - 1];
      assert (a + b)[..|a + b| - 1] == a + b';
      assert (a + b)[|a + b| - 1] == b[|b| - 1];
      TextConcat(a, b');
    }
  }

  /** Where a line has not ended yet, its end lies in what follows. */
  lemma {:induction false} LineEndAfterOpen(a: seq<ReadValue>, b: seq<ReadValue>)
    requires forall i :: 0 <= i < |a| ==> !EndsLine(a[i])
    ensures LineEnd(a + b) == |a| + LineEnd(b)
    decreases |a|
  {
    if a != [] {
      assert (a + b)[0] == a[0];
      assert (a + b)[1..] == a[1..] + b;
      LineEndAfterOpen(a[1..], b);
    } else {
      assert a + b == b;
    }
  }

  /** A line reader that starts inside an open line reads on into what follows. */
  lemma ReadLineOpen(a: seq<ReadValue>, b: seq<ReadValue>)
    requires forall i :: 0 <= i < |a| ==> !EndsLine(a[i])
    ensures var j := LineEnd(b);
      ReadLine(a + b) == (if j < |b| && b[j] == -1 then Err(RecvFailed) else Ok(Text(a + b[..j])),
                          if j < |b| then b[j + 1..] else [])
  {
    var j := LineEnd(b);
    LineEndAfterOpen(a, b);
    SliceAfter(a, b, j);
    if j < |b| {
      assert ReadLine(a + b).1 == b[j + 1..];
    } else {
      assert ReadLine(a + b) == (Ok(Text(a + b[..j])), []);
    }
  }


  /** A value from 1 to 13 other than LF inside a line (TAB, CR and the like) is
      dropped wherever it occurs: the line reads as if it were not there, and the
      same values are left unread. */
  lemma ReadLineDropsControl(a: seq<ReadValue>, v: ReadValue, b: seq<ReadValue>)
    requires forall i :: 0 <= i < |a| ==> !EndsLine(a[i])
    requires !EndsLine(v) && v <= CR
    ensures ReadLine(a + [v] + b) == ReadLine(a + b)
  {
    var av := a + [v];
    assert forall i :: 0 <= i < |av| ==> !EndsLine(av[i]);
    ReadLineOpen(av, b);
    ReadLineOpen(a, b);
    TextDropsControl(a, v, b[..LineEnd(b)]);
  }

  /** A value at or below CR (NUL, TAB, LF, CR and the like) contributes nothing to the text of a line,
      wherever it stands. */
  lemma TextDropsControl(a: seq<ReadValue>, v: ReadValue, c: seq<ReadValue>)
    requires v <= CR
    ensures Text(a + [v] + c) == Text(a + c)
  {
    assert Text(a + [v]) == Text(a) by {
      assert (a + [v])[..|a|] == a;
    }
    TextConcat(a + [v], c);
    TextConcat(a, c);
  }


  /** One call of the line reader on a stream: the line, or a receive failure when
      the value that stopped it is -1, and the values left unread. */
  function ReadLine(vs: seq<ReadValue>): (r: (Result<string>, seq<ReadValue>))
    ensures |r.1| <= |vs|
    ensures r.0.Ok? && r.0.value != [] ==> |r.1| < |vs|
    ensures r.0.Ok? ==> Printable(r.0.value)
    ensures r.0.Err? ==> r.0.error == RecvFailed
  {
    var k := LineEnd(vs);
    var rest := if k < |vs| then vs[k + 1..] else [];
    if k < |vs| && vs[k] == -1 then (Err(RecvFailed), rest) else (Ok(Text(vs[..k])), rest)
  }

  /* ------------------------------------------------------------- headers */

  datatype HeaderField = HeaderField(name: string, value: string)

  /** The field a header line sets, if any: split on every colon, the lower-cased
      first piece names it and the second piece is its value; further pieces are
      ignored. The parser's emptiness test on both can never fail, since the
      pieces of a split are never empty. */
  function Field(line: string): (f: Option<HeaderField>)
    ensures f.Some? <==> |Split(line, ':')| >= 2
    ensures f.Some? ==> f.value.name != [] && f.value.value != [] && ':' !in f.value.value
    ensures f.Some? ==> Lower(f.value.name) == f.value.name
  {
    var pieces := Split(line, ':');
    if |pieces| >= 2 && Lower(pieces[0]) != [] && pieces[1] != [] then
      LowerIdempotent(pieces[0]);
      Some(HeaderField(Lower(pieces[0]), pieces[1]))
    else None
  }

  /** Adding a header line sets at most the field it names; every other header
      keeps its value. */
  function AddField(headers: Headers, line: string): (r: Headers)
    ensures Field(line).Some? ==> Field(line).value.name in r && r[Field(line).value.name] == Field(line).value.value
    ensures r.Keys == headers.Keys + (if Field(line).Some? then {Field(line).value.name} else {})
    ensures forall name :: name in headers && !Sets(line, name) ==> r[name] == headers[name]
  {
    match Field(line)
    case None => headers
    case Some(f) => headers[f.name := f.value]
  }

  /** A line that splits into two or more pieces sets its lower-cased first piece
      to its second; any other line leaves the headers as they are. */
  lemma AddFieldOfPieces(headers: Headers, line: string)
    ensures var pieces := Split(line, ':');
      AddField(headers, line) == if |pieces| >= 2 then headers[Lower(pieces[0]) := pieces[1]] else headers
  {
  }

  /** The header map built from the header lines in order. */
  function Collect(lines: seq<string>): (r: Headers)
    ensures forall name :: name in r ==> name != [] && Lower(name) == name && r[name] != [] && ':' !in r[name]
  {
    if lines == [] then map[] else AddField(Collect(lines[..|lines| - 1]), lines[|lines| - 1])
  }

  /** Whether `line` sets the header `name`. */
  predicate Sets(line: string, name: string)
  {
    Field(line).Some? && Field(line).value.name == name
  }

  /** The lines of a header block: every line up to the first empty one, which is
      consumed too; a receive failure on the way fails the block. */
  function BlockLines(vs: seq<ReadValue>): (r: (Result<seq<string>>, seq<ReadValue>))
    ensures |r.1| <= |vs|
    ensures r.0.Ok? ==> forall i :: 0 <= i < |r.0.value| ==> r.0.value[i] != []
    ensures r.0.Err? ==> r.0.error == RecvFailed
    decreases |vs|
  {
    var (line, rest) := ReadLine(vs);
    if line.Err? then (Err(line.error), rest)
    else if line.value == [] then (Ok([]), rest)
    else
      var (more, rest') := BlockLines(rest);
      (if more.Ok? then Ok([line.value] + more.value) else more, rest')
  }

  /** `lines` put in front of the lines of a block result. */
  function LinesBefore(lines: seq<string>, r: (Result<seq<string>>, seq<ReadValue>)): (Result<seq<string>>, seq<ReadValue>)
  {
    (if r.0.Ok? then Ok(lines + r.0.value) else r.0, r.1)
  }

  /** One line of a header block: an empty line ends it, any other line is put
      in front of the lines that follow. */
  lemma BlockLinesStep(vs: seq<ReadValue>)
    requires ReadLine(vs).0.Ok?
    ensures var (line, rest) := ReadLine(vs);
      BlockLines(vs) == if line.value == [] then (Ok([]), rest) else LinesBefore([line.value], BlockLines(rest))
  {
  }

  /** Reading one more line of a block whose earlier lines were `seen`: a
      failure fails the block, an empty line ends it with `seen`, and any other
      line joins `seen` in front of the lines that follow. */
  lemma BlockLinesResume(vs: seq<ReadValue>, seen: seq<string>, before: seq<ReadValue>)
    requires BlockLines(vs) == LinesBefore(seen, BlockLines(before))
    ensures var (line, rest) := ReadLine(before);
      (line.Err? ==> BlockLines(vs) == (Err(line.error), rest)) &&
      (line.Ok? && line.value == [] ==> BlockLines(vs) == (Ok(seen), rest)) &&
      (line.Ok? && line.value != [] ==> BlockLines(vs) == LinesBefore(seen + [line.value], BlockLines(rest)))
  {
    var (line, rest) := ReadLine(before);
    if line.Ok? {
      BlockLinesStep(before);
      if line.value == [] {
        assert seen + [] == seen;
      } else {
        LinesBeforeTwice(seen, [line.value], BlockLines(rest));
      }
    }
  }

  lemma LinesBeforeNothing(r: (Result<seq<string>>, seq<ReadValue>))
    ensures LinesBefore([], r) == r
  {
    if r.0.Ok? {
      assert [] + r.0.value == r.0.value;
    }
  }

  lemma LinesBeforeTwice(a: seq<string>, b: seq<string>, r: (Result<seq<string>>, seq<ReadValue>))
    ensures LinesBefore(a, LinesBefore(b, r)) == LinesBefore(a + b, r)
  {
    if r.0.Ok? {
      assert a + (b + r.0.value) == a + b + r.0.value;
    }
  }

  /** `nextHeaders` on a stream. */
  function ReadHeaders(vs: seq<ReadValue>): (r: (Result<Headers>, seq<ReadValue>))
    ensures |r.1| <= |vs|
    ensures r.0.Err? ==> r.0.error == RecvFailed
  {
    var (lines, rest) := BlockLines(vs);
    (if lines.Ok? then Ok(Collect(lines.value)) else Err(lines.error), rest)
  }

  /** `nextHttpRequest` on a stream. */
  function ReadRequest(vs: seq<ReadValue>): (r: (Result<Request>, seq<ReadValue>))
    ensures |r.1| <= |vs|
    ensures r.0.Ok? ==> r.0.value.path != [] && ' ' !in r.0.value.path
    ensures r.0.Ok? ==> r.0.value.httpMethod != [] && ' ' !in r.0.value.httpMethod
    ensures r.0.Err? && r.0.error.InvalidStatusLine? ==> |Split(r.0.error.line, ' ')| < 3
  {
    var (status, rest) := ReadLine(vs);
    if status.Err? then (Err(status.error), rest)
    else
      var tokens := Split(status.value, ' ');
      if |tokens| < 3 then (Err(InvalidStatusLine(status.value)), rest)
      else
        var (headers, rest') := ReadHeaders(rest);
        (if headers.Ok? then Ok(Request(tokens[1], tokens[0], headers.value)) else Err(headers.error), rest')
  }

  /* --------------------------------------------------------------- lemmas */

  /** The values a sender transmits for a text of printable characters. */
  function Encode(s: string): seq<ReadValue>
    requires Printable(s)
  {
    seq(|s|, i requires 0 <= i < |s| => s[i] as int)
  }

  lemma {:induction false} TextOfEncoded(s: string)
    requires Printable(s)
    ensures Text(Encode(s)) == s
  {
    if s != [] {
      var e := Encode(s);
      var init := s[..|s| - 1];
      assert e[..|e| - 1] == Encode(init);
      TextOfEncoded(init);
      assert Kept(e[|e| - 1]) == [s[|s| - 1]];
      assert s == init + [s[|s| - 1]];
    }
  }

  /** A line of printable text, optionally followed by CR, is read back exactly
      when a terminator follows: LF or 0 yield the text, -1 a receive failure;
      nothing after the terminator is consumed. */
  lemma ReadLineOfText(s: string, cr: bool, stop: ReadValue, rest: seq<ReadValue>)
    requires Printable(s) && EndsLine(stop)
    ensures ReadLine(Encode(s) + (if cr then [CR] else []) + [stop] + rest)
         == (if stop == -1 then Err(RecvFailed) else Ok(s), rest)
  {
    var e := Encode(s);
    var body := e + (if cr then [CR] else []);
    var vs := body + [stop] + rest;
    var k := |body|;
    assert forall j :: 0 <= j < k ==> vs[j] == body[j] && !EndsLine(vs[j]);
    assert vs[k] == stop;
    assert LineEnd(vs) == k;
    assert vs[..k] == body;
    assert vs[k + 1..] == rest;
    TextOfEncoded(s);
    if cr {
      assert body[..|body| - 1] == e && body[|body| - 1] == CR;
      assert Text(body) == Text(e);
    } else {
      assert body == e;
    }
    assert Text(vs[..k]) == s;
  }

  /** A printable line terminated by CR LF is read back exactly. */
  lemma ReadLineCRLF(s: string, rest: seq<ReadValue>)
    requires Printable(s)
    ensures ReadLine(Encode(s) + [CR, LF] + rest) == (Ok(s), rest)
  {
    assert Encode(s) + [CR, LF] + rest == Encode(s) + [CR] + [LF] + rest;
    ReadLineOfText(s, true, LF, rest);
  }

  /** A connection closed in the middle of a line still yields the text read so far. */
  lemma ReadLineAtClose(s: string)
    requires Printable(s)
    ensures ReadLine(Encode(s)) == (Ok(s), [])
  {
    var e := Encode(s);
    assert forall j :: 0 <= j < |e| ==> !EndsLine(e[j]);
    assert LineEnd(e) == |e|;
    assert e[..|e|] == e;
    TextOfEncoded(s);
  }

  /** The values a sender transmits for lines each terminated by CR LF. */
  function Rendered(lines: seq<string>): seq<ReadValue>
    requires forall i :: 0 <= i < |lines| ==> Printable(lines[i])
  {
    if lines == [] then [] else Encode(lines[0]) + [CR, LF] + Rendered(lines[1..])
  }

  /** What follows a header block: either the empty line (CR LF) and more data, or
      nothing, the peer having closed the connection. */
  predicate BlockEnd(tail: seq<ReadValue>)
  {
    tail == [] || (|tail| >= 2 && tail[0] == CR && tail[1] == LF)
  }

  function AfterBlock(tail: seq<ReadValue>): seq<ReadValue>
    requires BlockEnd(tail)
  {
    if tail == [] then [] else tail[2..]
  }

  /** The empty line that ends a header block, or a close in its place, reads as
      an empty line. */
  lemma ReadLineAtBlockEnd(tail: seq<ReadValue>)
    requires BlockEnd(tail)
    ensures ReadLine(tail) == (Ok([]), AfterBlock(tail))
  {
    if tail == [] {
      ReadLineAtClose([]);
      assert Encode([]) == [];
    } else {
      assert Encode([]) + [CR] + [LF] + tail[2..] == tail;
      ReadLineOfText([], true, LF, tail[2..]);
    }
  }

  /** The first rendered line, with what follows it. */
  lemma RenderedFirst(lines: seq<string>, tail: seq<ReadValue>)
    requires lines != [] && forall i :: 0 <= i < |lines| ==> Printable(lines[i])
    ensures Rendered(lines) + tail == Encode(lines[0]) + [CR] + [LF] + (Rendered(lines[1..]) + tail)
  {
    var e := Encode(lines[0]);
    var r := Rendered(lines[1..]);
    assert Rendered(lines) == e + [CR, LF] + r;
    Regroup(e, CR, LF, r, tail);
  }

  /** Non-empty printable lines sent before an empty line, or before the peer
      closes, form the header block, and exactly that much is consumed. */
  lemma {:induction false} BlockLinesRendered(lines: seq<string>, tail: seq<ReadValue>)
    requires forall i :: 0 <= i < |lines| ==> lines[i] != [] && Printable(lines[i])
    requires BlockEnd(tail)
    ensures BlockLines(Rendered(lines) + tail) == (Ok(lines), AfterBlock(tail))
  {
    var vs := Rendered(lines) + tail;
    if lines == [] {
      assert vs == tail;
      assert BlockLines(tail) == (Ok([]), AfterBlock(tail)) by {
        ReadLineAtBlockEnd(tail);
        BlockLinesStep(tail);
      }
    } else {
      var more := Rendered(lines[1..]) + tail;
      assert ReadLine(vs) == (Ok(lines[0]), more) by {
        RenderedFirst(lines, tail);
        ReadLineOfText(lines[0], true, LF, more);
      }
      assert BlockLines(vs) == LinesBefore([lines[0]], BlockLines(more)) by {
        BlockLinesStep(vs);
      }
      assert BlockLines(more) == (Ok(lines[1..]), AfterBlock(tail)) by {
        BlockLinesRendered(lines[1..], tail);
      }
      assert [lines[0]] + lines[1..] == lines;
    }
  }

  lemma JoinTwo(a: string, b: string, sep: char)
    ensures Join([a, b], sep) == a + [sep] + b
  {
    assert [a, b][1..] == [b];
  }

  lemma JoinThree(a: string, b: string, c: string, sep: char)
    ensures Join([a, b, c], sep) == a + [sep] + b + [sep] + c
  {
    assert [a, b, c][1..] == [b, c];
    JoinTwo(b, c, sep);
  }

  /** "METHOD PATH VERSION" splits on blanks into its three parts. */
  lemma StatusLineTokens(m: string, p: string, v: string)
    requires m != [] && p != [] && v != []
    requires ' ' !in m && ' ' !in p && ' ' !in v
    requires Printable(m) && Printable(p) && Printable(v)
    ensures Printable(m + " " + p + " " + v)
    ensures Split(m + " " + p + " " + v, ' ') == [m, p, v]
  {
    JoinThree(m, p, v, ' ');
    SplitJoin([m, p, v], ' ');
  }

  /** The request head a client sends, "METHOD PATH VERSION" CR LF, header lines
      each ended by CR LF and an empty line, decodes to its path, its method and
      the map of its header lines; a connection closed where the empty line should
      be still yields the headers read so far. */
  lemma ReadRequestRendered(m: string, p: string, v: string, lines: seq<string>, tail: seq<ReadValue>)
    requires m != [] && p != [] && v != []
    requires ' ' !in m && ' ' !in p && ' ' !in v
    requires Printable(m) && Printable(p) && Printable(v)
    requires forall i :: 0 <= i < |lines| ==> lines[i] != [] && Printable(lines[i])
    requires BlockEnd(tail)
    ensures Printable(m + " " + p + " " + v)
    ensures ReadRequest(Encode(m + " " + p + " " + v) + [CR, LF] + Rendered(lines) + tail)
         == (Ok(Request(p, m, Collect(lines))), AfterBlock(tail))
  {
    var status := m + " " + p + " " + v;
    assert Printable(status) && Split(status, ' ') == [m, p, v] by {
      StatusLineTokens(m, p, v);
    }
    var more := Rendered(lines) + tail;
    var vs := Encode(status) + [CR, LF] + Rendered(lines) + tail;
    assert ReadLine(vs) == (Ok(status), more) by {
      Associative(Encode(status) + [CR, LF], Rendered(lines), tail);
      ReadLineCRLF(status, more);
    }
    assert ReadHeaders(more) == (Ok(Collect(lines)), AfterBlock(tail)) by {
      BlockLinesRendered(lines, tail);
    }
    ReadRequestOfParts(vs, status, more);
  }

  /** A request whose status line has three or more tokens takes its method and
      path from them and its headers from the block that follows. */
  lemma ReadRequestOfParts(vs: seq<ReadValue>, status: string, more: seq<ReadValue>)
    requires ReadLine(vs) == (Ok(status), more)
    requires |Split(status, ' ')| >= 3 && ReadHeaders(more).0.Ok?
    ensures ReadRequest(vs) == (Ok(Request(Split(status, ' ')[1], Split(status, ' ')[0], ReadHeaders(more).0.value)), ReadHeaders(more).1)
  {
  }

  /** A status line of two tokens is refused, and the header block is not read. */
  lemma ShortStatusLine(m: string, p: string, rest: seq<ReadValue>)
    requires m != [] && p != [] && ' ' !in m && ' ' !in p
    requires Printable(m) && Printable(p)
    ensures Printable(m + " " + p)
    ensures ReadRequest(Encode(m + " " + p) + [CR, LF] + rest) == (Err(InvalidStatusLine(m + " " + p)), rest)
  {
    var status := m + " " + p;
    JoinTwo(m, p, ' ');
    assert Printable(status);
    ReadLineCRLF(status, rest);
    SplitJoin([m, p], ' ');
  }

  /** A connection closed before any byte arrives is refused as an empty status line. */
  lemma ClosedBeforeRequest()
    ensures ReadRequest([]) == (Err(InvalidStatusLine("")), [])
  {
    assert LineEnd([]) == 0;
  }

  /** A header line "name:value" with further colon-separated pieces sets the
      lower-cased name to the piece after the first colon only. */
  lemma FieldOfPieces(name: string, value: string, more: seq<string>)
    requires forall i :: 0 <= i < |[name, value] + more| ==> ([name, value] + more)[i] != [] && ':' !in ([name, value] + more)[i]
    ensures Field(Join([name, value] + more, ':')) == Some(HeaderField(Lower(name), value))
  {
    SplitJoin([name, value] + more, ':');
  }

  /** "Host: a:80" sets "host" to " a": the port is lost and the blank kept. */
  lemma HostWithPort()
    ensures Field("Host: a:80") == Some(HeaderField("host", " a"))
  {
    assert ["Host", " a"] + ["80"] == ["Host", " a", "80"];
    assert Join(["80"], ':') == "80";
    assert Join([" a", "80"], ':') == " a:80";
    assert Join(["Host", " a", "80"], ':') == "Host: a:80";
    FieldOfPieces("Host", " a", ["80"]);
    assert Lower("Host") == "host";
  }

  /** A header is in the map exactly when some line of the block sets it. */
  lemma {:induction false} CollectHas(lines: seq<string>, name: string)
    ensures name in Collect(lines) <==> exists i :: 0 <= i < |lines| && Sets(lines[i], name)
  {
    if lines != [] {
      var n := |lines| - 1;
      var init := lines[..n];
      CollectHas(init, name);
      assert forall i :: 0 <= i < n ==> init[i] == lines[i];
      if Sets(lines[n], name) {
        assert name in Collect(lines);
      } else {
        assert name in Collect(lines) <==> name in Collect(init);
      }
    }
  }

  /** The value of a header is the one of the last line that sets it. */
  lemma {:induction false} CollectLastWins(lines: seq<string>, i: nat)
    requires i < |lines| && Field(lines[i]).Some?
    requires forall j :: i < j < |lines| ==> !Sets(lines[j], Field(lines[i]).value.name)
    ensures Field(lines[i]).value.name in Collect(lines)
    ensures Collect(lines)[Field(lines[i]).value.name] == Field(lines[i]).value.value
  {
    var n := |lines| - 1;
    var init := lines[..n];
    if i < n {
      assert init[i] == lines[i];
      CollectLastWins(init, i);
      assert !Sets(lines[n], Field(lines[i]).value.name);
    }
  }


  /** A status line with two blanks between two tokens still has only two tokens
      and is refused. */
  lemma DoubledBlankRefused(m: string, p: string, rest: seq<ReadValue>)
    requires m != [] && p != [] && ' ' !in m && ' ' !in p
    requires Printable(m) && Printable(p)
    ensures Printable(m + "  " + p)
    ensures ReadRequest(Encode(m + "  " + p) + [CR, LF] + rest) == (Err(InvalidStatusLine(m + "  " + p)), rest)
  {
    var status := m + "  " + p;
    assert Printable(status);
    assert Split(status, ' ') == [m, p] by {
      assert status == m + [' ', ' '] + p;
      SplitDoubledPair(m, p, ' ');
    }
    ReadLineCRLF(status, rest);
  }

  /** Header names are case-insensitive: two lines whose names differ only in case
      set the same header, and the later value wins. */
  lemma CaseVariantsOverride(a: string, b: string, v1: string, v2: string)
    requires a != [] && b != [] && v1 != [] && v2 != []
    requires ':' !in a && ':' !in b && ':' !in v1 && ':' !in v2
    requires SameUpToCase(a, b)
    ensures Collect([a + ":" + v1, b + ":" + v2]) == map[Lower(b) := v2]
  {
    var l1, l2 := a + ":" + v1, b + ":" + v2;
    FieldOfNameValue(a, v1);
    FieldOfNameValue(b, v2);
    assert Lower(a) == Lower(b) by {
      LowerCaseInsensitive(a, b);
    }
    assert Collect([l1]) == map[Lower(a) := v1] by {
      assert [l1][..0] == [];
    }
    assert Collect([l1, l2]) == AddField(Collect([l1]), l2) by {
      assert [l1, l2][..1] == [l1];
    }
  }

  /** A line "name:value" sets the lower-cased name to the value. */
  lemma FieldOfNameValue(name: string, value: string)
    requires name != [] && value != [] && ':' !in name && ':' !in value
    ensures Field(name + ":" + value) == Some(HeaderField(Lower(name), value))
  {
    JoinTwo(name, value, ':');
    assert [name, value] + [] == [name, value];
    FieldOfPieces(name, value, []);
  }


}
