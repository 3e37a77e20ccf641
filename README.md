# Swifter's HTTP request-head parser, in Dafny

Swifter is a small HTTP server written in Swift. Its `HttpParser` reads HTTP/1.x request
heads from a connected socket in three layers:

- **Byte reader** (`nextUInt8`): a 1024-byte receive buffer with a fill level
  (`recvBufferSize`) and a read cursor (`recvBufferOffset`). It refills with one `recv`
  only when the buffer holds nothing unread. It serves one byte at a time, or passes on
  `recv`'s 0 (peer closed) or -1 (failure) as a sentinel.
- **Line reader** (`nextLine`): a do-while loop.
  - It keeps every value above 13 (CR) as a Latin-1 character.
  - It stops at LF or at any value at or below 0.
  - It fails only when the value that stopped it is -1.
- **Request decoder** (`nextHttpRequest`, `nextHeaders`):
  - The status line is split on blanks; fewer than three tokens is an error.
  - Header lines are read up to the first empty line. Each line is split on colons. A
    line with two or more pieces maps its lower-cased first piece to its second piece;
    a later line overrides an earlier one.
  - The result is (path, method, headers).
- **`supportsKeepAlive`**: tests the `connection` header, trimmed and lower-cased,
  against `keep-alive`.

The project has five modules:

- `Sequences`: generic facts about concatenating and slicing sequences, used by the
  proofs of the other modules.
- `Strings`: Swift 1 `split` (empty pieces dropped), `lowercaseString` and whitespace
  trimming.
- `Sockets`: the peer's data as a script of receptions. `Socket.Recv` writes the next
  reception into the buffer, truncated to the buffer's capacity with the rest kept
  pending. `Values` is the sequence of values a one-at-a-time reader observes.
- `Decoding`: the decoder as functions of that value stream, namely `ReadLine`,
  `BlockLines`, `ReadHeaders` and `ReadRequest`, and the lemmas about them.
- `Parser`: the class `HttpParser`, with the buffer as an `array` and the fill level
  and cursor as fields.
  - `ByteStep` is one call of `nextUInt8` on the reader's state taken as a value
    (`ReaderState`): buffer contents, fill level, cursor and the data still pending.
    `NextUInt8` is proved to do exactly that step.
  - Its methods are loops mirroring the source's.
  - Each method is proved to compute the `Decoding` function of the stream it has yet
    to read (`Stream`), and to leave behind exactly the unread rest of that stream.

Some behaviour of the code is easy to misread. The model follows the code:

- `split` drops empty pieces. `"GET  /p"` has two tokens and is refused.
- A header line is split on every colon, and only the second piece is kept, so
  `Host: a:80` stores `" a"` under `host`. The `isEmpty` tests at line 46 can never fail.
- End of stream does not fail a line: the reader sees `recv`'s 0 and returns what it
  has read.
  - A connection closed before any byte arrives is refused as the status line `""`.
  - A header block cut off by a close returns the headers read so far.
- After `recv` returns -1, `recvBufferSize` stays -1. The refill test is then false, and
  further reads serve stale buffer bytes. `NextUInt8` models this, up to the index
  going out of bounds.

## Model

| member | source | states |
|---|---|---|
| Strings.Split | Swifter/HttpParser.swift:18 | the pieces are non-empty, free of the separator, and concatenate to the input with the separators removed |
| Strings.SplitLeadingSeparator | Swifter/HttpParser.swift:18 | a separator in front of a text adds no piece |
| Strings.SplitTrailingSeparator | Swifter/HttpParser.swift:18 | a separator after a text adds no piece |
| Strings.SplitDoubledSeparator | Swifter/HttpParser.swift:18 | two separators in a row split like one: no empty piece appears between them |
| Strings.SplitDoubledPair | Swifter/HttpParser.swift:18 | two tokens with two blanks between them split into just those two tokens |
| Strings.SplitJoin | Swifter/HttpParser.swift:39 | splitting undoes joining with the separator, for non-empty separator-free pieces |
| Strings.Lower | Swifter/HttpParser.swift:44 | `lowercaseString` keeps the length, turns every upper-case letter into the letter 0x20 code points above it, and keeps every other character; no upper-case letter is left |
| Strings.LowerIdempotent | Swifter/HttpParser.swift:44 | lower-casing twice is lower-casing once |
| Strings.LowerCaseInsensitive | Swifter/HttpParser.swift:44 | two texts lower-case to the same text exactly when they differ only in the case of their letters |
| Strings.TrimStart | Swifter/HttpParser.swift:87 | the result is a suffix, what it drops is whitespace, and it starts with non-whitespace |
| Strings.TrimEnd | Swifter/HttpParser.swift:87 | the result is a prefix, what it drops is whitespace, and it ends with non-whitespace |
| Strings.Trim | Swifter/HttpParser.swift:87 | the result is empty exactly for all-whitespace input, and otherwise starts and ends with non-whitespace |
| Strings.TrimPadded | Swifter/HttpParser.swift:87 | trimming removes exactly the whitespace around a text that starts and ends with non-whitespace |
| Sockets.Receive | Swifter/HttpParser.swift:61 | `recv` returns -1, 0 or at most the capacity, and delivers exactly that many bytes when it returns a positive count |
| Sockets.ReceiveValues | Swifter/HttpParser.swift:61 | what one `recv` delivers is the front of the values the peer sends and the rest stays pending; a 0 stands for the next value 0; a -1 is the last value there is |
| Sockets.ValuesFailureLast | Swifter/HttpParser.swift:58-67 | a -1 is the last value a reader observes, and it observes one only when some reception failed |
| Sockets.Socket.Recv | Swifter/HttpParser.swift:61 | writes the delivered bytes to the front of the buffer and leaves the rest of the buffer, and all of it on 0 or -1, unchanged |
| Sockets.ValuesOfDataOnly | Swifter/HttpParser.swift:58-67 | when no reception fails or is empty, the values read are the concatenated bytes |
| Sockets.FragmentationIndependence | Swifter/HttpParser.swift:58-83 | two such scripts with the same bytes yield the same values, however the bytes are cut |
| Parser.HttpParser.constructor | Swifter/HttpParser.swift:54-56 | a fresh buffer of 1024 bytes, every one of them 0, with fill level and cursor 0 |
| Parser.ByteStep | Swifter/HttpParser.swift:58-67 | one step keeps the fill level between -1 and 1024 and the cursor within the buffer and, unless a receive failed, not past the fill level |
| Parser.HttpParser.NextUInt8 | Swifter/HttpParser.swift:58-67 | returns the value and leaves the whole state (every buffer byte, fill level, cursor, pending data) that `ByteStep` gives for the old state; on a parser that has not failed it serves the head of the stream, leaves its tail, and fails the parser exactly when it returns -1 |
| Parser.ByteStepServes | Swifter/HttpParser.swift:58-67 | a step of a parser that has not failed serves the head of the values still to come and leaves their tail, and fails exactly when it yields -1 |
| Parser.UnservedServe | Swifter/HttpParser.swift:64-66 | serving the byte at the cursor serves the head of the unserved values, leaves their tail, and does not fail |
| Parser.UnservedRefill | Swifter/HttpParser.swift:59-66 | with nothing unread, the values to come are what the peer sends; one refill, then serving the first byte received or passing on 0 or -1, serves their head and leaves their tail |
| Decoding.LineEnd | Swifter/HttpParser.swift:77 | the position of the first LF, 0 or -1, or the stream's end when there is none |
| Decoding.Text | Swifter/HttpParser.swift:74-76 | the kept characters are no more than the values and all stand for values above CR |
| Decoding.TextConcat | Swifter/HttpParser.swift:74-76 | the text of two runs of values is the text of the first followed by the text of the second |
| Decoding.TextDropsControl | Swifter/HttpParser.swift:74-76 | a value at or below CR contributes nothing, wherever it stands |
| Decoding.ReadLine | Swifter/HttpParser.swift:69-83 | consumes input, strictly so for a non-empty line; a line holds only characters above CR; the only error is a receive failure |
| Decoding.ReadLineOpen | Swifter/HttpParser.swift:72-82 | reading from inside a line that has not ended yet goes on into what follows: the line ends where the rest first holds LF, 0 or -1, and fails exactly when that value is -1 |
| Decoding.ReadLineDropsControl | Swifter/HttpParser.swift:72-77 | a value from 1 to 13 other than LF (TAB, CR, …) inside a line changes neither the line read nor what is left unread |
| Parser.HttpParser.NextLine | Swifter/HttpParser.swift:69-83 | returns `ReadLine` of the stream and leaves exactly its unread rest; fails exactly when a receive fails |
| Decoding.TextOfEncoded | Swifter/HttpParser.swift:74-76 | the text of the codes of printable characters is those characters |
| Decoding.ReadLineOfText | Swifter/HttpParser.swift:72-82 | a printable line, with or without CR, is read back when LF or 0 follows and fails when -1 follows; nothing after the terminator is consumed |
| Decoding.ReadLineCRLF | Swifter/HttpParser.swift:72-82 | a line ended by CR LF is read back exactly |
| Decoding.ReadLineAtClose | Swifter/HttpParser.swift:77-82 | a line cut off by the peer closing yields the text read so far |
| Decoding.Field | Swifter/HttpParser.swift:39-48 | a line sets a field exactly when it splits into two or more pieces; the name is non-empty and lower-case, and the value is non-empty and colon-free |
| Decoding.FieldOfNameValue | Swifter/HttpParser.swift:39-48 | a line `name:value` with colon-free name and value sets the lower-cased name to the value |
| Decoding.FieldOfPieces | Swifter/HttpParser.swift:39-48 | a line of colon-joined pieces sets the lower-cased first piece to the second piece alone |
| Decoding.HostWithPort | Swifter/HttpParser.swift:39-45 | `Host: a:80` sets `host` to `" a"` |
| Decoding.AddField | Swifter/HttpParser.swift:44-47 | a line that sets a field maps its name to its value; no other key is added, and every header the line does not set keeps its value |
| Decoding.Collect | Swifter/HttpParser.swift:44-47 | every name in the map is non-empty and lower-case; every value is non-empty and colon-free |
| Decoding.CollectHas | Swifter/HttpParser.swift:35-47 | a name is in the header map exactly when some line of the block sets it |
| Decoding.CollectLastWins | Swifter/HttpParser.swift:47 | a name maps to the value of the last line that sets it |
| Decoding.CaseVariantsOverride | Swifter/HttpParser.swift:41-47 | two lines whose names differ only in case set one header, and the later value wins |
| Decoding.BlockLines | Swifter/HttpParser.swift:35-38 | the lines of a block are non-empty, and the only error is a receive failure |
| Decoding.ReadLineAtBlockEnd | Swifter/HttpParser.swift:35-37 | CR LF, or a close, reads as the empty line that ends the block |
| Decoding.BlockLinesRendered | Swifter/HttpParser.swift:35-38 | non-empty printable lines followed by an empty line, or by a close, form the block, and exactly that much is consumed |
| Decoding.ReadHeaders | Swifter/HttpParser.swift:33-52 | the header block fails only on a receive failure |
| Parser.HttpParser.NextHeaders | Swifter/HttpParser.swift:33-52 | returns `ReadHeaders` of the stream and leaves exactly its unread rest; fails exactly when a receive fails |
| Decoding.ReadRequest | Swifter/HttpParser.swift:16-31 | leaves no more than it was given; a decoded path and method are non-empty and free of blanks; a status line is refused only when it has fewer than three tokens |
| Decoding.StatusLineTokens | Swifter/HttpParser.swift:18 | `METHOD PATH VERSION` splits on blanks into its three parts |
| Decoding.ReadRequestRendered | Swifter/HttpParser.swift:16-31 | a rendered request head decodes to (path, method, map of its header lines) and consumes exactly the head |
| Decoding.ShortStatusLine | Swifter/HttpParser.swift:20-22 | a status line of two tokens is refused with that line, and the headers are not read |
| Decoding.DoubledBlankRefused | Swifter/HttpParser.swift:18-22 | `GET  /p`, with two blanks, has two tokens and is refused with that line; only the line is consumed |
| Decoding.ClosedBeforeRequest | Swifter/HttpParser.swift:17-22 | a connection closed before any byte is refused as the status line `""` |
| Parser.HttpParser.NextHttpRequest | Swifter/HttpParser.swift:16-31 | returns `ReadRequest` of the stream and leaves exactly its unread rest; the parser stays healthy unless the error is a receive failure |
| Parser.DecodeRequest | Swifter/HttpParser.swift:16-31 | a fresh parser on a fresh connection returns `ReadRequest` of the values the peer's receptions yield |
| Parser.DecodeIndependentOfFragmentation | Swifter/HttpParser.swift:58-83 | the decoded request does not depend on how the request's bytes are cut into receptions |
| Parser.HttpParser.SupportsKeepAlive | Swifter/HttpParser.swift:85-90 | true exactly when the `connection` header is present and, trimmed, spells `keep-alive` in any case |
| Parser.LowerSpellsKeepAlive | Swifter/HttpParser.swift:87 | lower-casing equals `keep-alive` exactly for case-insensitive spellings of it |
| Parser.KeepAliveOfPadded | Swifter/HttpParser.swift:85-90 | a `connection` value of whitespace around a text keeps the connection exactly when that text spells `keep-alive` |

## Left out

- The `recv` system call (line 61) is the `Socket` class, which holds a script of receptions fixed in advance. Blocking, timeouts and `errno` are not modelled.
- `HttpParser.err` (line 12), `Socket.socketLastError` (line 79) and the `NSErrorPointer` out-parameter are not modelled as such. A failure is a `ParseError` whose `Reason` is the reason string; the `errno` text that `socketLastError` appends is not part of this model.
- `println(statusTokens)` (line 19) is console output with no effect on the result.
- Strings.Lower: models the Unicode lower-case mapping on Latin-1 only, the characters the line reader can produce; characters above U+00FF are left unchanged.
- Strings.IsWhitespace: is the fixed set of Unicode separators and control characters that Foundation's whitespace-and-newline set holds; later Unicode revisions are not followed.
- Parser.HttpParser.NextUInt8: requires that the cursor is inside the buffer after a failed receive, so the out-of-bounds trap that ends stale reading is not modelled.
- Parser.HttpParser.NextLine: requires that no receive has failed yet. `NextHeaders` and `NextHttpRequest` require the same. Callers stop at the first failure, and what the stale buffer would then yield is not modelled above the byte reader.
- Swift's `Int` is at least 32 bits wide; the fill level and cursor stay within 0..1024, so wrap-around cannot occur and is not modelled.
- A peer that never stops sending is not modelled: the script of receptions is finite and `recv` returns 0 once it is used up, whereas the parser itself sets no limit on the length of a line or the number of header lines (lines 35-50, 72-77), so against such a peer `characters` or `headers` would grow without bound.
- Connection handling and concurrency belong to the server, not to the parser, and are not part of this model.
