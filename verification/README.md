# Minute HTTP: verification

Minute HTTP is an HTTP/1.1 server library that works in buffers its client supplies. This project models the parts of it
that have state and proves what they keep and what they compute, for every input and every way of cutting the input into
reads.

| module | what it models |
|---|---|
| `Chars` | characters as signed bytes, line ends, hex digits |
| `Rings` | `iobuf`, the ring buffer, with its scatter/gather input and output |
| `TextInts` | `textint`, the buffer in which text grows up and integers grow down |
| `Patricia`, `Keywords` | the trie interpreter `walk_trie`, and the two tables the parser ships with |
| `Requests` | the parser `minute_http_read` as a machine on values: one pass through the switch, one byte, a whole input |
| `Reader`, `Heads` | the same parser on its saved struct and ring, and the loop that refills the ring and parses |
| `Syntax`, `RoundTrip`, `Fields` | a printer of request heads and trailers, and the proof that the parser undoes it |
| `Refusals` | which heads are refused, and with which status |
| `Safety`, `Strays`, `TornValues` | out-of-bounds accesses, the flags a byte sets, the index of collected fields, flags from continuation lines |
| `Origins`, `Lookups` | where flags and refusals come from on well folded input, and the search that uses the index |
| `Lookbehind` | how much of the input the parser holds on to, and so how large a ring must be |
| `Chunks`, `SizeLines`, `Bodies` | request bodies: the chunk decoder, the size lines it reads and rejects, a read by the application, and dropping what is left |
| `Outputs` | response bodies: buffering, chunk framing, short writes |
| `Serving` | one request after another on a connection |
| `RadixTrees`, `TrieNodes` | the trie compiler: insertion, on trees and on nodes in the heap; the numbered list of nodes |
| `Packing`, `Fitting` | the branch-and-bound search that overlays the child arrays of all nodes in one table |
| `TrieTables`, `Compiler`, `ShortRows` | the emitted rows, the whole compilation, and three words that it fails on |

The parser is written twice. `Requests` gives its meaning on values, where what is proved of a whole input is proved by
induction over it. `Reader` has the source's form, a struct updated in place, and each of its methods is proved against
that meaning. A byte of the input is a `Char`, from -128 to 127; the end-of-input marker is -1, as in the source, and so
is the byte 0xFF. An access outside a table is an outcome of the model (`OutOfBounds`, `Fault`, `Faulted`, `Strays`), so
that "this never happens" is a statement, and can be false.

## Findings

Where the code does not do what its documentation or its standard promises, the code is modelled as it is, and a lemma
gives the exact condition, or an input.

- A continuation line after a field that the parser interprets makes it read outside its tables. The flag that says a
  value is being collected is only cleared by a field whose value is skipped, so `date:`, `expect:`, `us` and ` a` on
  lines of their own resume a flag value at a place in the header table. `Strays.HeadStrays`,
  `Strays.DatedRequestStrays`; exactly when: `Safety.OutOfBoundsIff`, `Safety.RunOutOfBoundsIff`.
- A place inside the table sets flags that no field states: after `date:` and `expect:`, the line `if-matc` and a line
  of one space resume at the end of "POST", whose terminal 3 is the flags close and keep-alive, so the server closes a
  connection that should stay open. `Strays.HeadMisflags`, `Strays.DatedRequestMisflagged`; exactly when, and which
  flags: `Safety.FlagsSet`. When every line that starts with a blank continues a collected field, a flag is set only by
  a line of its own field: `Origins.FlagsAreStated`.
- A flag value that is not known goes on in a continuation line: after `date:`, the lines `connection: clo` and ` se`
  set the flag close. `TornValues.TornValueSets`.
- A colon inside a field name is swallowed where an inner row of the table ends: `con:nection:` names the Connection
  field. `Origins.ColonInName`.
- A space or a NUL behind the "P" of a method is swallowed, so `P OST / HTTP/1.1` is a POST. `Refusals.TornMethodRead`;
  exactly which lines are read and which are refused: `Refusals.LineRefusedIff`, where version numbers count modulo
  2^32.
- A blank behind the digits of a Content-Length refuses the request. `Refusals.LengthRefused`.
- A read of all the bytes of a full ring whose first byte is not in slot 0 copies past the end of the buffer, and a
  write of no bytes copies from outside the caller's data. `Rings.ReadOverrunsIff`, `Rings.WriteOverrunsIff`.
- Reading a body never returns when the ring is full of an unfinished size line: the check for that is inside the scan,
  where it cannot be true. `Chunks.StallsIff`, `Chunks.EndlessExtensionStalls`, `Bodies.Response.SpinsIff`.
- The empty line after the last chunk does not end the trailers when there are none; a second one is needed.
  `Fields.TrailersEndIff`, `Serving.BareChunksNeedLineEnd`.
- An escape with an upper-case letter as its low digit is decoded to another byte, unless its high digit is E or F.
  `RoundTrip.EscapeDecodesIff`.
- A Content-Length whose line is ended by a lone LF is not recorded. `Fields.LengthEnds`.
- A Content-Length is kept modulo 2^32 and then read as a signed number, so a payload of 2^31 bytes or more is not
  skipped, or not wholly, and the rest of it is taken for the next request. `Serving.LengthFramedIff`.
- A chunk whose size is from 2^31 to 2^32 - 2 ends the body as if it had been read. `Chunks.HugeSizeEndsIff`.
- A folded value is stored with two spaces, or one at its start, when a line before the last is empty or ends with a
  blank. `Syntax.UnfoldNormalIff`.
- A chunk that `writev` does not take whole is retried without its closing line end, and a chunk of 2^20 bytes or more
  has a size line that its buffer does not hold. `Outputs.FrameWholeIff`, `Outputs.SizeTextFitsIff`.
- Inserting a word that is a prefix of a stored one, or stored already, loses it, and when it ends where a label does,
  the words that go on from there. `RadixTrees.InsertAddsIff`, `RadixTrees.PrefixInserted`.
- The compiler prints rows up to the end of the last child array that a row points to, and no row points to the root's.
  When the rows end before that one does, the interpreter reads behind them on some input. `Compiler.ShortRowsFail`; the
  words "aa", "ab" and "c" come to such rows: `ShortRows.EmitsShortRows`.
- A head cut off by the end of input is taken for a complete one, unless it is cut in the request line, behind a CR, in
  a length, or where the text buffer has no room for a NUL; the read offset is then one past the write offset.
  `Safety.EofCompletesIff`, `Heads.ReadRequest`.
- A byte 0xFF is taken for the end of input in every state of the parser. `Requests.EofEnds`.

## Model

| member | source | states |
|---|---|---|
| Rings.SlotIsRemainder | libhttp/iobuf.c:23-24 | The slot of an absolute offset is its remainder by the capacity, for every positive capacity; for a power of two that is the source's mask. |
| Rings.Ring.Put | libhttp/iobuf.c:17-31 | On a well formed ring, a character is appended to the queue and 1 returned exactly when the queue is shorter than the capacity; otherwise the queue is as before and 0 is returned. |
| Rings.Ring.Replace | libhttp/iobuf.c:33-41 | For an offset inside the queue, from its front or, when negative, from its end, exactly that character of the queue is replaced. |
| Rings.Ring.Write | libhttp/iobuf.c:43-64 | A non-empty write appends all its bytes and returns their number when they fit, and otherwise leaves the queue and returns -1. |
| Rings.WriteOverrunsIff | libhttp/iobuf.c:52-61 | For a write that fits, the two-part copy starts its second part before the caller's data exactly when there is nothing to write. |
| Rings.Ring.Read | libhttp/iobuf.c:72-97 | Unless a read takes the whole capacity from a slot other than 0, it moves the first bytes of the queue, as many as asked for or as there are, to the start of the destination, and leaves the rest of the destination alone. |
| Rings.ReadOverrunsIff | libhttp/iobuf.c:79-92 | A read's one-part copy runs past the end of the buffer exactly when it takes the whole capacity from a slot other than 0. |
| Rings.Ring.ReadFd | libhttpd/iobuf-util.c:8-36 | The read is offered all the free room; the queue followed by what the peer still sends is the same before and after; -1 means a full ring and changes nothing, 0 means the peer has ended and marks the ring, and otherwise the queue is longer by the count returned. |
| Rings.FreeSegmentsAreTheFreeSlots | libhttpd/iobuf-util.c:18-21 | Unless the ring is full, the two stretches offered to `readv` are its free slots, each once and in queue order. |
| Rings.Ring.Gather | libhttpd/iobuf-util.c:38-57 | The gathered stretches, one or two as the count says, are the queue; none is gathered exactly when the queue is empty. |
| Rings.Ring.FlushFd | libhttpd/iobuf-util.c:59-69 | What was sent is a prefix of the queue, empty only for an empty queue, and exactly that prefix leaves the queue. |
| TextInts.UnpackPack | libhttp/textint.c:54-64 | Reading back the four bytes of any 32-bit integer gives that integer. |
| TextInts.TextInt.Clear | libhttp/textint.c:10-15 | A cleared buffer has no text, no integers and its whole size free. |
| TextInts.TextInt.PutC | libhttp/textint.c:29-42 | A character is appended to the text, with the integers unchanged, exactly when text and integers together leave a byte free. |
| TextInts.TextInt.PutI | libhttp/textint.c:44-57 | An integer is appended, with the text unchanged, exactly when more than four bytes are free; the unsigned subtraction never wraps on a buffer that ends on an integer boundary. |
| TextInts.TextInt.GetI | libhttp/textint.c:59-65 | For an offset in range, the integer stored at that place from the first, or when negative from the last, is returned. |
| TextInts.TextInt.GetS | libhttp/textint.c:67-73 | For an offset in range, the position that it denotes, from the start or when negative from the end, is returned, and below the length of the text that position holds that character of it. |
| TextInts.TextInt.ReplaceC | libhttp/textint.c:75-83 | For an offset in range, that character is replaced, and the rest of the text and all integers stay. |
| TextInts.TextInt.ReplaceI | libhttp/textint.c:85-93 | For an offset in range, that integer is replaced, and the other integers and the text stay. |
| Patricia.WalkIsSafe | libhttp/http.c:207-245 | On a table whose rows all lead inside it, a step from the start or from a place in the table stays inside it, and a terminator at the start is never a word. |
| Patricia.LookupReports | libhttp/http.c:207-245 | On any table that means a set of texts (`WellFormed`), walking a NUL-free word and a separator reports the terminal of the row that spells the word, and -1 when none does. |
| Keywords.HeaderTrieIsLinearSearch | libhttp/http.c:37-100 | For every NUL-free word in any case, the shipped header table reports code k exactly when the word is name k of the header names; it reports 0 exactly for the text of an inner row, and otherwise -1. |
| Keywords.SlotSpellsName | libhttp/http-headers.c:3-43 | A word is the header name with code k, ignoring case, exactly when its lower-case form is what the rows up to the row with terminal k spell. |
| Keywords.UtilityWellFormed | libhttp/http.c:102-145 | The five tries overlaid in the second table (methods, protocol, Connection, Transfer-Encoding, Expect) are each well formed: their rows do not answer for one another. |
| Requests.DispatchKeeps | libhttp/http.c:397-739 | From every state in which the invariant `Ready` holds, on every byte, one pass through the switch keeps it, moves no offset back, and goes to `top` only with a state of lower rank, so a byte is always finished. |
| Requests.RunConcat | libhttp/http.c:382-748 | Parsing two inputs one after the other is parsing their concatenation. |
| Requests.EofEnds | libhttp/http.c:382-389 | In every state between bytes, the end-of-input marker ends the parse: with a complete head, an error status, or an access out of bounds. |
| Requests.RunForgets | libhttp/http.c:372-396 | The start pointer of a flag value, a local that a return through EAGAIN loses, does not matter to any continuation from a state between bytes. |
| Reader.HttpReader.WalkTrie | libhttp/http.c:207-245 | The walk on the saved place computes the step of the value model, and faults only where that does. |
| Reader.HttpReader.Switch | libhttp/http.c:397-739 | The loop from `top` to `break` or `return`, on the struct, the ring offset and the text buffer, does what one byte does to the parser value, in all four outcomes. |
| Reader.HttpReader.Read | libhttp/http.c:362-755 | Started between bytes, a call takes the saved parser through all bytes in the ring, and the end-of-input marker when the ring has it: it waits, completes, rejects or leaves its tables as the value model does, and the saved struct, the ring offset, the request and the text are the model's. |
| Heads.ReadRequest | libhttpd/httpd.c:96-121 | The status, the request, the text and the input left are a function of the bytes in the ring followed by those still to come, of the capacity and of the end mark alone: every way in which the descriptor cuts the input gives the same result. |
| Heads.HeadMatchesRun | libhttpd/httpd.c:96-121 | Unless the ring fills up, reading a head through a ring comes to what the parser comes to on the whole input. |
| Lookbehind.LongestIff | libhttp/http.c:397-739 | `Longest` is the length of the longest run, in an input, of bytes of a kind: blanks, line ends, digits and NULs, or the terminators of a field name. |
| Lookbehind.StepHolds | libhttp/http.c:397-739 | With at most `idle` and `stop` bytes in such runs so far, a byte keeps the parser's hold on past bytes within a bound that depends on its state only. |
| Lookbehind.RoomyTakesHead | libhttpd/httpd.c:105-118 | A ring of more than 20 + 2 * idle + 6 * stop bytes, where idle and stop are the longest runs in the input, never holds a head up, whatever its length: it is read as one parse of the whole input. The condition is about the bytes only. |
| Lookbehind.RoomyTakesTrailers | libhttpd/httpd.c:105-118 | The same for the trailers of a chunked body. |
| RoundTrip.Unescaped | libhttp/http.c:471-479 | The byte that two hex digits are decoded to is given for all pairs of digits in either case. |
| Chars.HexBytes | libhttp/http.c:247-254 | The hex digits are the bytes of a given list and no others. |
| Syntax.TargetBytes | libhttp/http.c:265-306 | The bytes a query takes as they are are those of a given list and no others; a path takes the same but for the question mark. |
| RoundTrip.EscapeDecodesIff | libhttp/http.c:464-479 | An escape written for a byte is decoded to that byte exactly when its low digit is not an upper-case letter or its high digit is 14 or 15. |
| RoundTrip.OrAddsBits | libhttp/http.c:680 | The flags of a bitwise or are the union of the flags of its operands, so a set of flags stands for the flag word. |
| RoundTrip.RequestLineRead | libhttp/http.c:398-559 | From the initial state, a printed request line leaves the parser at the start of a line with the method, the version, and the path and query as offsets of their decoded, NUL-terminated text. |
| Refusals.LineRead | libhttp/http.c:398-559 | Every request line, as far as it goes, is read to its last byte, into the state, the method, the version and the length of text that its parts say. The parts are given by their bytes: line ends, one of eight methods, a space, a target of listed bytes and escapes, a space, the protocol name, a slash and digits, a dot and digits, a line end. |
| Refusals.LineRefusedIff | libhttp/http.c:398-559 | An input without a whole request line is refused exactly when, behind a line as far as it goes, a byte comes that its last part cannot go on with and the next part cannot begin with, or whose text has no room: with 505 in the protocol name or behind an unsupported version, with 414 for want of room, and with 400 otherwise. |
| Refusals.FieldRefusedIff | libhttp/http.c:561-739 | In the fields, a byte is refused exactly when it follows a CR and is no LF, or is neither a digit nor a line end where a length is read, with 400, or when the text buffer has no room for it or for the index of the field it names, with 413. |
| Refusals.HeadRefusedIff | libhttp/http.c:362-755 | A whole input is refused with a status exactly when its request line is, or when one of its bytes behind a whole request line is. |
| Refusals.OnlyFourStatuses | libhttp/http.c:362-755 | A refusal has one of the statuses 400, 413, 414 and 505, and never 500 or 501; 413 comes from the fields only, 414 and 505 from the request line only. |
| Refusals.LengthRefused | libhttp/http.c:649-664 | A Content-Length line, its name in any case, is refused with 400 at the first byte behind its digits that is no digit and ends no line. |
| Refusals.TornMethodRead | libhttp/http.c:403-424 | `P OST / HTTP/1.1` is read as a POST. |
| Syntax.SqueezeNormal | libhttp/http.c:695-724 | The stored form of a stretch of a value has the same words, with one space between them, none at its start, and no tab. |
| Syntax.UnfoldNormalIff | libhttp/http.c:686-724 | The whole stored value has no tab, no blank at its start and no two together exactly when it is not folded, or no line before the last is empty or ends with a blank. |
| Fields.ValueFoldsRead | libhttp/http.c:686-724 | A collected value, folded over any number of continuation lines, is stored as its squeezed lines joined by single spaces, with one NUL. |
| Fields.LengthEnds | libhttp/http.c:649-661 | The length is recorded when CR ends the line, and lost when a lone LF does. |
| Fields.FlagRead | libhttp/http.c:670-685 | A Connection, Expect or Transfer-Encoding line with one of the known values, in any case and after any blanks, sets exactly its flag. |
| Fields.OtherRead | libhttp/http.c:586-603 | A line of its own with a name that is not in the table changes neither the request nor the text. |
| Fields.PrintedHeadParses | libhttp/http.c:362-755 | For every valid head whose meaning fits the text buffer, parsing its printed form completes at its last byte and leaves exactly the request, the text and the integers it means. Valid: line ends before it, one of the eight methods, a path or query of raw and escaped bytes, version 0.9, 1.0 or 1.1, and fields with names in any case, folded values, blanks and both kinds of line end. |
| Fields.TrailersParse | libhttp/http.c:346-354 | Valid trailers with at least one field, and an empty line, are read to their last byte and mean what the same fields mean in a head. |
| Fields.TrailersEndIff | libhttp/http.c:346-354 | Valid trailers are complete at the empty line that should end them exactly when there is a field in them. |
| Safety.OutOfBoundsIff | libhttp/http.c:670-694 | A byte makes the parser access memory out of bounds exactly when it resumes a flag value from a place that the table of flag values does not have. |
| Safety.RunOutOfBoundsIff | libhttp/http.c:382-739 | A whole input does so exactly when one of its bytes, after a prefix that is still being parsed, does. |
| Safety.EofCompletesIff | libhttp/http.c:382-389 | The end of input completes a head exactly in these states: at the start of a line, in a name, in a skipped line, in a flag value that is in its table, and in a collected value with room for its NUL, or before such a value; in all others it is an error or leads out of bounds. |
| Safety.MarkedHeadEnds | libhttp/http.c:376-396 | A head in a ring that is marked as the end of input is complete when the parse of all the input is, or when the end of input completes it; it is refused with the status of that parse, and never waited for. |
| Safety.WellFoldedHead | libhttp/http.c:586-724 | When every line that starts with a blank continues a collected field, no byte leads out of bounds, and a completed parse leaves pairs of a header code and an offset, the offsets ascending, each after a NUL, and NUL-terminated text behind the last. |
| Safety.FlagsSet | libhttp/http.c:670-685 | Of the flags that values set (all but the one for a recorded length), a byte adds some exactly when it enters or goes on with a flag value, the place is the end of a row of the table, and the byte is CR, LF or NUL; it adds the bits of that row's terminal, whatever field the row belongs to. |
| Origins.FlagsAreStated | libhttp/http.c:586-685 | On input in which every line that starts with a blank continues a collected field, a byte that sets a flag sets one only, and the bytes before it end with a line that names the field of that flag, its terminator, blanks, and the word of the flag, in any case. |
| Origins.RefusalIsStated | libhttp/http.c:561-664 | On such input, a refusal with 400 in the fields comes at a byte that follows a CR and is no LF, or behind a line that names Content-Length and states digits, at a byte that is no digit and ends no line. |
| Origins.CrNeedsLf | libhttp/http.c:561-568 | On such input, any byte behind a CR in the fields is refused with 400, unless it is LF. |
| Origins.ColonInName | libhttp/http.c:586-644 | A colon between two parts of a known name, the first of which is the text of a row without a terminal, is swallowed: the next colon reports the whole name. |
| Strays.OnRecordStrays | libhttp/http.c:686-694 | At the start of a line, with a collected field on record though the last field was an interpreted one, the lines `us` and ` a` lead out of bounds. |
| Strays.HeadStrays | libhttp/http.c:586-694 | After any valid request line and any collected field that fits, the lines `expect:`, `us` and ` a` lead out of bounds. |
| Strays.DatedRequestStrays | libhttp/http.c:586-694 | An instance a server can receive: `GET / HTTP/1.0`, `date:`, `expect:`, `us` and ` a`, with every header collected and 64 bytes of text buffer. |
| Strays.OnRecordMisflags | libhttp/http.c:670-694 | From the state of `OnRecordStrays`, the line `if-matc` and a line of one space set the flags close and keep-alive, and change nothing else of the request. |
| Strays.HeadMisflags | libhttp/http.c:586-694 | After any valid request line and any collected field that fits, `expect:`, those two lines and the empty line complete a head with exactly these two flags. |
| Strays.DatedRequestMisflagged | libhttp/http.c:586-694 | An instance a server can receive: `GET / HTTP/1.1`, `date:`, `expect:`, `if-matc`, one space, and the empty line. |
| TornValues.TornValueSets | libhttp/http.c:670-694 | At the start of a line, with a collected field on record, a field with the first part of a flag's word, and a continuation line with the rest of it, set that flag, for every word and every way to cut it. |
| Lookups.HeaderValue | minuted/tap.c:316-322 | On text whose pairs hold offsets into it, the loop over the pairs returns the offset paired with the first occurrence of the code, and nothing when there is none. |
| Lookups.FirstValueFound | minuted/tap.c:316-322 | After a printed head, that offset is where the folded value of the first collected field with this code starts, with a NUL behind it; and there is none when no such field was collected. |
| Lookups.IndexedPairs | minuted/tap.c:316-322 | What a well folded head leaves, printed or not, is fit for that loop. |
| Chunks.ScanStable | libhttpd/httpd.c:148-229 | A size line that has been found complete or malformed stays so with more input behind it, so scanning it again from its start after a refill is sound. |
| Chunks.HexDigitIs | libhttpd/httpd.c:170-177 | The value of a hex digit is its place among the sixteen digits, in lower or in upper case. |
| SizeLines.LineIff | libhttpd/httpd.c:148-229 | A scan finds a size line of n bytes that says v exactly when the first n bytes are the line end of the chunk before, if there was one, hex digits, an extension or none, and a line end, and the digits spell v modulo 2^32. |
| SizeLines.MalformedIff | libhttpd/httpd.c:148-229 | A scan rejects bytes exactly when they do not start with such a line and nothing behind them makes them do so. |
| SizeLines.BrokenIff | libhttpd/httpd.c:148-229 | A chunked body is rejected exactly when, behind whole chunks, the bytes that the ring can hold do not start with a size line and nothing behind them makes them do so; what is read of it is the data of those chunks. |
| Chunks.ChunkedBodyDecodes | libhttpd/httpd.c:148-229 | Any chunked body whose size lines fit the ring, with sizes below 2^31 in either case, extensions and both kinds of line end, decodes to the data of its chunks, and leaves what follows its last-chunk line. |
| Chunks.CountedBodyDecodes | libhttpd/httpd.c:133-146 | A counted body is its first bytes, cut only by the end of input. |
| Chunks.StallsIff | libhttpd/httpd.c:223-243 | Between chunks, a body stalls with no data exactly when its first bytes, as many as the ring holds, are an unfinished size line (hex digits, perhaps an extension, perhaps a final CR, and no LF), or when a size line says 2^32 - 1, which is stored as -1, and what follows it stalls. |
| Chunks.EndlessExtensionStalls | libhttpd/httpd.c:223-243 | An instance: a semicolon and at least as many bytes as the ring has, none of them CR or LF. |
| Chunks.HugeSizeEndsIff | libhttpd/httpd.c:128-213 | A complete size line ends the body as one that has been read, with what follows the line left, exactly when its size is from 2^31 to 2^32 - 2. |
| Bodies.Response.ScanLine | libhttpd/httpd.c:149-228 | The scan of a size line over the bytes in the ring is the scan of the decoder. |
| Bodies.Response.InRead | libhttpd/httpd.c:123-247 | One call, with room for any number of bytes, copies a prefix of what is left of the body (empty only for no room) and leaves the rest of it, or reports its end: the trailers read, the input cut short, a malformed line, or a loop without end. This is a function of the input, not of how it is cut. A copy overruns only when asked for the whole capacity, and when the ring holds bytes of the chunk at the call, exactly in the case of `Rings.ReadOverrunsIff`. |
| Bodies.Response.SpinsIff | libhttpd/httpd.c:132-244 | A call loops for ever exactly when the body that is left stalls before another byte of it. |
| Bodies.Response.RejectsIff | libhttpd/httpd.c:217-219 | A call returns -1 and leaves the mark of an error exactly when the body that is left is rejected before another byte of it. |
| Bodies.Response.ReadToEnd | libhttpd/httpd.c:123-247 | However the application chooses the room for each call, the bytes it gets in all are the body that the decoder defines, and the end it finds is that body's. |
| Bodies.Response.Discard | libhttpd/httpd.c:249-255 | Dropping a body leaves the connection where reading it to its end would. |
| Outputs.Writer.Plain | libhttpd/httpd.c:270-327 | Without chunked coding, the ring and then the data go out whole and in order, however short each write is. |
| Outputs.SizeTextFitsIff | libhttpd/httpd.c:276-286 | The size line of a chunk, with the NUL that `snprintf` writes, fits its buffer of 8 bytes exactly when the payload is below 2^20 bytes. |
| Outputs.HexPlain | libhttpd/httpd.c:285 | The size is printed in digits of lower case without a zero in front. |
| Outputs.Writer.Chunk | libhttpd/httpd.c:270-327 | With chunked coding and a payload below 2^20 bytes, one frame goes out, and when its first write is short, the rest of the payload without the closing line end; what stays in the ring and what is returned is given for every length of that write. |
| Outputs.FrameWholeIff | libhttpd/httpd.c:301-321 | What goes out is the frame exactly when the first write takes all of it. |
| Outputs.Writer.Output | libhttpd/httpd.c:336-348 | Output that fits the ring is appended to it and nothing is sent; other output is sent behind the ring, which is then empty; nothing is lost, doubled or reordered: with chunked coding on a descriptor that takes whole vectors, without it on any. |
| Outputs.Respond | libhttpd/httpd.c:257-348 | Whatever the application writes and whenever it flushes: with chunked coding, on a descriptor that takes whole vectors, the peer gets non-empty chunks that hold exactly what was written, in order, and one last-chunk line; without it, exactly what was written, however short each write is. |
| Outputs.EmittedBodyDecodes | libhttpd/httpd.c:123-348 | The decoder takes what the encoder emits back to exactly the bytes written, on any ring of at least nine bytes, and leaves the line end after the last-chunk line. |
| Serving.Handle | libhttpd/httpd.c:477-640 | One call ends as its head does: no request, a negative status, out of bounds, or a request whose result is open or closed by its version and Connection field; when its body and trailers end properly, the input left is what is behind them. |
| Serving.NextFramed | libhttpd/httpd.c:382-400 | After a head and the payload it declares (none without a length or chunked coding, as many bytes as a length below 2^31 says, or chunks with at least one trailer), exactly the rest of the input is left. |
| Serving.BodilessLeaves | libhttpd/httpd.c:396-399 | After a head without a length and without chunked coding, exactly the rest of the input is left. |
| Serving.KeptOpenIff | libhttpd/httpd.c:382-394 | The connection of a request is kept open exactly when its version is 1.1 and no field says `Connection: close`, or its version is older and some field says `Connection: keep-alive`. |
| Serving.BareChunksNeedLineEnd | libhttpd/httpd.c:199-208 | Without trailers, the line end after the last-chunk line leaves the parser waiting, and a second line end is what completes the body. |
| Serving.LengthLeaves | libhttpd/httpd.c:382-400 | Behind a head with a Content-Length, as many bytes are skipped as the length, modulo 2^32 and read as a signed number, says, and none when that is negative. |
| Serving.LengthFramedIff | libhttpd/httpd.c:382-400 | After a payload of its declared length, exactly the rest of the input is left if and only if the length is below 2^31. |
| Serving.HandleNext | libhttpd/httpd.c:477-640 | With framed exchanges queued, one call serves the first, with the request and text that its head means, and leaves exactly the others, whatever part of the body the application reads; its result says open or closed as the version and the Connection fields of that head do. |
| Serving.Serve | libhttpd/httpd.c:477-640 | Over any number of pipelined exchanges, each call starts at the first byte of its request and sees the request and the text that this request's head means, and calls go on until one closes the connection, by the version and the Connection fields of its head. |
| RadixTrees.SplitFinds | tools/patricia-build.c:59-73 | Splitting a label inside it changes what is found for no word. |
| RadixTrees.InsertAddsIff | tools/patricia-build.c:75-113 | Inserting a word over letters with distinct places adds exactly that word to a well formed tree, and keeps it well formed, exactly when the word is not a prefix of a stored one. |
| RadixTrees.PrefixInserted | tools/patricia-build.c:75-113 | Inserting a word that is a prefix of a stored one changes what is found for no word when it ends inside a label; when it ends at a label, exactly it and the words that go on from there are lost, but for those that go on with a letter of the terminator's place. |
| RadixTrees.BuildFinds | tools/patricia-build.c:276-301 | The tree built from words, none a prefix of an earlier one, finds for every string what a linear search of the words finds. |
| TrieNodes.Node.Split | tools/patricia-build.c:59-73 | On nodes in the heap, a split gives the tree that the value model gives, and keeps the nodes a tree. |
| TrieNodes.Node.Insert | tools/patricia-build.c:75-113 | On nodes in the heap, insertion gives the tree that the value model gives, keeps the nodes a tree, and only adds new nodes to it. |
| TrieNodes.Node.Walk | tools/patricia-build.c:128-147 | For a tree of fewer than 64 nodes, the list holds the nodes each once, parents first and children in order, and nothing behind them; each node has its place as its number, and the number of its parent. |
| Packing.OrderPacks | tools/patricia-build.c:174-190 | Placing child arrays in any order, each where it first fits, puts, if they all fit, every child in the slot its array's offset and its letter give, no two in one slot, all below the reported size, and leaves the other slots alone. |
| Fitting.Fit | tools/patricia-build.c:156-212 | The branch-and-bound search returns the smaller of the given limit and the least table size over all orders of the nodes, leaves the table of an order with that size, or the old table when none is below the limit, and clears the marks it has set. |
| Compiler.Fixate | tools/patricia-build.c:214-221 | Afterwards every node in the table remembers a slot that it is in. |
| Compiler.DumpOffset | tools/patricia-build.c:223-231 | On a packed table, the offset found through the first child is where the child array of the node was placed, and 0 when it has none. |
| Compiler.Dump | tools/patricia-build.c:233-256 | The rows emitted are those of the placed nodes, in their slots, with an empty row in each other slot; there are 28 of them, or as many as reach the end of the last child array that a row points to. |
| TrieTables.FiledAlikeIff | tools/patricia-build.c:47-57 | The compiler files a character where the header table looks for it exactly when it is no upper-case letter, and where the table of methods and flag values looks for it exactly when it is a letter or a hyphen. |
| TrieTables.EmittedLookup | tools/patricia-build.c:233-256 | Walking an emitted table over any NUL-free word and any separator, from a start entry with the offset of the root's child array, stays inside the table and reports the terminal that the tree has for the word, or -1 when no node spells it, provided the rows reach the end of that array. |
| TrieTables.EmittedWellFormed | tools/patricia-build.c:233-256 | Under the same condition, an emitted table means the texts of the tree's nodes, each row continuing the row of its parent. |
| Compiler.Search | tools/patricia-build.c:305-312 | The search reports the least table size over all orders of the tree's nodes, or the limit when no order is below it, and then a table packed in that size. |
| Compiler.Compile | tools/patricia-build.c:258-318 | For words over letters with distinct places, none a prefix of an earlier one, in a tree of fewer than 64 nodes: it succeeds exactly when some order of the nodes gives a table size below 64; the rows are then those of a table of the least size, and end as `Compiler.Dump` says, and the offset is that of the root's child array. When the rows reach the end of that array, the interpreter, started with that offset, finds a word in them exactly as a linear search of the words does, and never leaves them. |
| Compiler.ShortRowsFail | tools/patricia-build.c:233-256 | Whenever rows do not reach the end of the child array that the interpreter starts with, some word leads it out of them, in the alphabet of the header table. |
| ShortRows.EmitsShortRows | tools/patricia-build.c:233-318 | Compiling the words "aa", "ab" and "c" succeeds, with 28 rows and the root's child array at offset 2, so these rows do not recognise the words. |

## Left out

- Compiler.Compile: does not say which words are still found when the rows end before the root's child array does; that
  some input then leads out of them is `Compiler.ShortRowsFail`.
- Refusals.FieldRefusedIff: speaks of the parser's state before the byte. By the bytes alone, 400 is given on well folded
  input (`Origins.RefusalIsStated`, `Origins.CrNeedsLf`) and 413 is not.
- Outputs.Writer.Chunk: requires a payload below 2^20 bytes; what a longer one sends from behind its size buffer is not
  modelled.
- Outputs.Respond: with chunked coding, is for a descriptor that takes each vector whole; for one that does not, framing
  fails, and `Outputs.FrameWholeIff` says when.
- Bodies.Response.ReadToEnd: asks for fewer bytes than the capacity at a time, as the members of `Serving` do; when a
  longer copy overruns, and that it never does otherwise, is said by `Bodies.Response.InRead`.
- Serving.Handle: leaves open what follows a head that the end of input ended: the source then has the read offset one
  past the write offset, and the model reports `Strays` instead of going on.
- Serving.Serve: takes the response to each request as given: what the application answers does not touch the input.
- Requests.RunForgets: the return through EAGAIN is modelled; an error return leaves the saved struct as it was, and the
  model gives no saved struct after it.
- Offsets into rings are natural numbers: the source's wrap at 2^32, which a mask survives, is not modelled.
- A capacity is any positive number, and `& mask` a remainder; the source's capacities are powers of two.
- The header mask is a set of codes. The source shifts 1 by the code, which C leaves undefined for the codes 32 to 36.
- Errors of `readv`, `writev` and `write`, and closing a descriptor on them.
- Status lines, response headers, dates, standard bodies and the calls into the application.
- Unknown headers that a mask of bit 0 would collect: the source has the state, but never enters it.
- The embedded child array of a tree node is a sequence in a field: copying a node copies it, as in the source.
- Reading words from a file, printing rows as text, the interrupt that stops the search, and trees of 64 nodes or more,
  which overrun the source's list.
- The Tcl layer (but for the search of the pairs), configuration, logging, sockets and processes of `minuted`.
