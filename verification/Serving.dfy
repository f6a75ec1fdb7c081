/** The framing part of `minute_httpd_handle`: one request after another on a connection (RFC 2616, sections 4.4 and
    8.1.2.2). */
module Serving {
  import opened Chars
  import opened Rings
  import opened TextInts
  import opened Patricia
  import opened Keywords
  import opened Requests
  import opened Reader
  import opened Heads
  import opened Lookbehind
  import opened Chunks
  import opened Bodies
  import opened Syntax
  import opened Fields

  // What a handled request means for its connection.
  const OK_OPEN := 0
  const OK_CLOSE := 1
  const NO_REQUEST_MADE := 2

  /** The connection is kept by default from HTTP/1.1 on, and on demand before. */
  predicate KeptOpen(rq: Request) {
    if rq.version >= 11 then CLOSE !in rq.flags else KEEP in rq.flags
  }

  /** How much body `minute_httpd_start` expects. */
  function PendingOf(rq: Request): int {
    if CHUNKED in rq.flags then PENDING_INIT
    else if CONTENT_LENGTH in rq.flags then Signed(rq.contentLength)
    else 0
  }

  /** The head of the next request, from a cleared text buffer. */
  ghost function NextHead(input: Ring, src: Source, text: TextInt): HeadEnd
    requires input.Valid() && text.Valid()
    reads input, input.data, src, text
  {
    ForgetEnd(HeadOf(Requests.Init(ALL_HEADERS, input.read, NO_REQUEST, text.data.Length),
                     input.Contents() + src.rest, input.Cap(), input.eof))
  }

  ghost predicate Connected(input: Ring, src: Source, text: TextInt)
    reads input, src, text
  {
    input.Valid() && text.Valid() && input.data != text.data && (input.eof ==> src.rest == [])
  }

  /** Reads the head of the next request. */
  method ReadNext(input: Ring, src: Source, text: TextInt) returns (reader: HttpReader, ok: bool, status: int)
    requires Connected(input, src, text)
    modifies input, input.data, src, text, text.data
    ensures fresh(reader) && reader.text == text && reader.Valid() && (input.eof ==> src.rest == [])
    ensures var total := old(input.Contents() + src.rest);
            HeadLeft(old(NextHead(input, src, text)), reader, input, src, old(input.read), total, ok, status)
  {
    text.Clear();
    var one := text.PutC(NUL);
    reader := new HttpReader(text, Rqs(Initial, Initial, START, input.read, 0, 0, 0, 0, false, ALL_HEADERS),
      NO_REQUEST);
    InitSuspendable(ALL_HEADERS, input.read, NO_REQUEST, text.data.Length);
    assert [] + [NUL] == [NUL];
    assert reader.Resumed(input) == Requests.Init(ALL_HEADERS, input.read, NO_REQUEST, text.data.Length);
    ok, status := ReadRequest(reader, input, src);
  }

  /** The body is still being read, from where it was: `end` is still what it comes to. */
  ghost predicate Underway(resp: Response, end: BodyEnd, m0: nat, input0: seq<Char>, eof0: bool, rq0: Request,
                           text0: Text)
    reads resp, resp.input, resp.input.data, resp.src, resp.reader, resp.reader.text, resp.reader.text.data
  {
    && resp.Valid() && resp.Rest().end == end && resp.input.eof == eof0
    && resp.input.read + |resp.Input()| == m0 + |input0| && |resp.Input()| <= |input0|
    && resp.reader.rq == rq0 && resp.reader.text.Value() == text0
  }

  /** The body is over, and `left` is the input behind it. */
  ghost predicate Finished(resp: Response, left: Option<seq<Char>>)
    reads resp, resp.input, resp.input.data, resp.src, resp.reader, resp.reader.text, resp.reader.text.data
  {
    left.Some? ==> resp.Valid() && resp.pending <= PENDING_EOF && resp.Input() == left.value
  }

  /** A read that ends the body leaves what is behind it. */
  lemma EndsBehind(resp: Response, end: BodyEnd, m1: nat, input1: seq<Char>, pending1: int, m0: nat, input0: seq<Char>,
                   eof0: bool, rq0: Request, text0: Text, fate: Fate, r: int, trailer: int)
    requires resp.reader.Valid() && text0.chars != [] && text0.Fits() && m1 + |input1| == m0 + |input0|
             && |input1| <= |input0|
    requires resp.Ended(end, m1, input1, pending1, eof0, rq0, text0, fate, r, trailer)
    requires fate == Returned && resp.input.read <= resp.input.write ==> resp.Valid()
    ensures var left := Behind(end, m0, input0, resp.input.Cap(), eof0, rq0, text0);
            left.Some? ==> fate == Returned && r <= 0 && Finished(resp, left)
  {
    hide Trailers, BodyOf, Window;
  }

  /** The application reads as it likes, `counts` saying how much room it offers each time; then the rest is dropped. */
  method ReadBody(resp: Response, buf: array<Char>, counts: seq<nat>) returns (fate: Fate)
    requires resp.Valid() && buf != resp.input.data && buf != resp.reader.text.data
    requires forall i :: 0 <= i < |counts| ==> counts[i] <= buf.Length && counts[i] < resp.input.Cap()
    modifies resp`pending, resp.input, resp.input.data, resp.src, resp.reader, resp.reader.text, resp.reader.text.data,
             buf
    ensures resp.reader.Valid()
    ensures var left := Behind(old(resp.Rest()).end, old(resp.input.read), old(resp.Input()), resp.input.Cap(),
                               old(resp.input.eof), old(resp.reader.rq), old(resp.reader.text.Value()));
            left.Some? ==> fate == Returned && Finished(resp, left)
  {
    hide BodyOf, Window, HeadOf, HeadLeft, Behind, Response.Ended, Underway, Finished;
    ghost var end, m0, input0, eof0 := resp.Rest().end, resp.input.read, resp.Input(), resp.input.eof;
    ghost var rq0, text0 := resp.reader.rq, resp.reader.text.Value();
    ghost var left := Behind(end, m0, input0, resp.input.Cap(), eof0, rq0, text0);
    Starts(resp);
    for i := 0 to |counts|
      invariant resp.Valid()
      invariant left.Some? ==> Underway(resp, end, m0, input0, eof0, rq0, text0) || Finished(resp, left)
    {
      var over := ReadSome(resp, buf, counts[i], end, m0, input0, eof0, rq0, text0);
      if over {
        return Strays;
      }
    }
    fate := DropRest(resp, end, m0, input0, eof0, rq0, text0);
  }

  lemma Starts(resp: Response)
    requires resp.Valid()
    ensures var left := Behind(resp.Rest().end, resp.input.read, resp.Input(), resp.input.Cap(), resp.input.eof,
            resp.reader.rq, resp.reader.text.Value());
            left.Some? ==>
                Underway(resp, resp.Rest().end, resp.input.read, resp.Input(), resp.input.eof, resp.reader.rq,
                resp.reader.text.Value())
  {
    hide BodyOf, Window, Trailers;
    BodyEnds(resp.pending, resp.IsChunked(), resp.Input(), resp.input.Cap());
  }

  /** One read by the application. `stray` when the connection cannot go on. */
  method ReadSome(resp: Response, buf: array<Char>, count: nat, ghost end: BodyEnd, ghost m0: nat,
                  ghost input0: seq<Char>, ghost eof0: bool, ghost rq0: Request, ghost text0: Text)
                  returns (stray: bool)
    requires resp.Valid() && buf != resp.input.data && buf != resp.reader.text.data
    requires count <= buf.Length && count < resp.input.Cap() && text0.chars != [] && text0.Fits()
    requires var left := Behind(end, m0, input0, resp.input.Cap(), eof0, rq0, text0);
             left.Some? ==> Underway(resp, end, m0, input0, eof0, rq0, text0) || Finished(resp, left)
    modifies resp`pending, resp.input, resp.input.data, resp.src, resp.reader, resp.reader.text, resp.reader.text.data,
             buf
    ensures resp.reader.Valid() && (!stray ==> resp.Valid())
    ensures var left := Behind(end, m0, input0, resp.input.Cap(), eof0, rq0, text0);
            left.Some? ==> !stray && (Underway(resp, end, m0, input0, eof0, rq0, text0) || Finished(resp, left))
  {
    hide BodyOf, Window, HeadOf, HeadLeft, Trailers, Behind;
    ghost var left := Behind(end, m0, input0, resp.input.Cap(), eof0, rq0, text0);
    ghost var m1, input1, pending1 := resp.input.read, resp.Input(), resp.pending;
    ghost var b, going := resp.Rest(), Underway(resp, end, m0, input0, eof0, rq0, text0);
    BodyEnds(resp.pending, resp.IsChunked(), resp.Input(), resp.input.Cap());
    ghost var got, trailer;
    var fate, r;
    fate, r, got, trailer := resp.InRead(buf, count);
    if going && got == [] && (count > 0 || b.data == []) {
      EndsBehind(resp, end, m1, input1, pending1, m0, input0, eof0, rq0, text0, fate, r, trailer);
    }
    stray := fate != Returned || resp.input.read > resp.input.write;
  }

  method DropRest(resp: Response, ghost end: BodyEnd, ghost m0: nat, ghost input0: seq<Char>, ghost eof0: bool,
                  ghost rq0: Request, ghost text0: Text) returns (fate: Fate)
    requires resp.Valid() && text0.chars != [] && text0.Fits()
    requires var left := Behind(end, m0, input0, resp.input.Cap(), eof0, rq0, text0);
             left.Some? ==> Underway(resp, end, m0, input0, eof0, rq0, text0) || Finished(resp, left)
    modifies resp`pending, resp.input, resp.input.data, resp.src, resp.reader, resp.reader.text, resp.reader.text.data
    ensures resp.reader.Valid()
    ensures var left := Behind(end, m0, input0, resp.input.Cap(), eof0, rq0, text0);
            left.Some? ==> fate == Returned && Finished(resp, left)
  {
    hide BodyOf, Window, HeadOf, HeadLeft, Trailers, Behind;
    ghost var m1, input1, pending1 := resp.input.read, resp.Input(), resp.pending;
    ghost var going := Underway(resp, end, m0, input0, eof0, rq0, text0);
    BodyEnds(resp.pending, resp.IsChunked(), resp.Input(), resp.input.Cap());
    ghost var trailer;
    var r: int;
    fate, r, trailer := resp.Discard();
    if going {
      EndsBehind(resp, end, m1, input1, pending1, m0, input0, eof0, rq0, text0, fate, r, trailer);
    }
  }

  /** What the rest of a request is once its head is read. */
  function BodyAfter(k: Parser, m: nat, total: seq<Char>, cap: nat): Body
    requires m <= k.m <= m + |total|
  {
    BodyOf(PendingOf(k.rq), CHUNKED in k.rq.flags, total[k.m - m..], cap)
  }

  /** The input behind a request whose head left the parser at `k`. */
  ghost function BehindRequest(k: Parser, m: nat, total: seq<Char>, cap: nat, eof: bool): Option<seq<Char>>
    requires m <= k.m <= m + |total|
  {
    if k.text.chars == [] || !k.text.Fits() then None
    else Behind(BodyAfter(k, m, total, cap).end, k.m, total[k.m - m..], cap, eof, k.rq, k.text)
  }

  /** How `minute_httpd_handle` ends, by the head it found, and where the next call starts. `eof` is whether the ring
      was marked as the end of input when the body was started. */
  ghost predicate Handled(head: HeadEnd, m: nat, total: seq<Char>, input: Ring, src: Source, text: TextInt, eof: bool,
                          fate: Fate, result: int, rq: Request, seen: Text)
    reads input, input.data, src, text
  {
    match head
    case Complete(k) =>
      m <= k.m <= m + |total| ==>
        && rq == k.rq && seen == k.text && (fate == Returned ==> result == if KeptOpen(rq) then OK_OPEN else OK_CLOSE)
        && var left := BehindRequest(k, m, total, input.Cap(), eof);
           left.Some? ==> fate == Returned && Connected(input, src, text) && input.Contents() + src.rest == left.value
    case Rejected(status, _) => fate == Returned && result == 0 - status
    case TooLong(_) => fate == Returned && result == -414
    case Closed(_) => fate == Returned && result == NO_REQUEST_MADE
    case Faulted => fate == Strays
  }

  /** The framing part of `minute_httpd_handle`: the head, the body as far as the application reads it, the rest of the
      body. What follows a head that the end of input ended is not modelled: it is reported as straying. */
  method Handle(input: Ring, src: Source, text: TextInt, buf: array<Char>, counts: seq<nat>)
    returns (fate: Fate, result: int, ghost eof: bool, ghost rq: Request, ghost seen: Text)
    requires Connected(input, src, text) && buf != input.data && buf != text.data
    requires forall i :: 0 <= i < |counts| ==> counts[i] <= buf.Length && counts[i] < input.Cap()
    modifies input, input.data, src, text, text.data, buf
    ensures Handled(old(NextHead(input, src, text)), old(input.read), old(input.Contents() + src.rest), input, src,
                    text, eof, fate, result, rq, seen)
  {
    hide BodyOf, Window, HeadOf, Init, PendingOf, Behind;
    ghost var head, m, total := NextHead(input, src, text), input.read, input.Contents() + src.rest;
    var reader, ok, status := ReadNext(input, src, text);
    eof, rq, seen := input.eof, reader.rq, reader.text.Value();
    if !ok {
      return Strays, 0, eof, rq, seen;
    } else if status < 0 {
      return Returned, NO_REQUEST_MADE, eof, rq, seen;
    } else if status > 0 {
      return Returned, -status, eof, rq, seen;
    } else if input.read > input.write {
      return Strays, 0, eof, rq, seen;
    }
    var resp := new Response(input, src, reader);
    resp.pending := PendingOf(reader.rq);
    result := if KeptOpen(reader.rq) then OK_OPEN else OK_CLOSE;
    assert head.Complete?;
    assert resp.Rest() == BodyAfter(head.k, m, total, input.Cap());
    fate := ReadBody(resp, buf, counts);
  }

  // ---------------------------------------------------------------- pipelining

  /** What follows a head: the bytes it declares, or chunks and trailers. */
  datatype Payload = Whole(bytes: seq<Char>) | InChunks(body: Chunked, trailers: seq<Field>, lf: bool)

  datatype Exchange = Exchange(head: Message, payload: Payload)

  function PrintTrailers(fs: seq<Field>, lf: bool): seq<Char> { PrintFields(fs) + Eol(lf) }

  function PrintPayload(p: Payload): seq<Char> {
    match p
    case Whole(bytes) => bytes
    case InChunks(body, trailers, lf) => PrintBody(body) + PrintTrailers(trailers, lf)
  }

  function Wire(es: seq<Exchange>): seq<Char> {
    if es == [] then [] else Print(es[0].head) + (PrintPayload(es[0].payload) + Wire(es[1..]))
  }

  /** A valid head that the buffers hold, a ring that takes it, and a payload of the kind and length the head declares:
      no body, one below 2^31, or chunks with at least one trailer. */
  ghost predicate Framed(e: Exchange, cap: nat, size: nat) {
    && ValidMessage(e.head) && size > 0 && MessageText(e.head, ALL_HEADERS, size).Fits() && Roomy(Print(e.head), cap)
    && Declared(e.payload, MessageRequest(e.head), MessageText(e.head, ALL_HEADERS, size), cap)
  }

  ghost predicate Declared(p: Payload, rq: Request, text: Text, cap: nat) {
    match p
    case Whole(bytes) =>
      && CHUNKED !in rq.flags
      && if CONTENT_LENGTH in rq.flags then |bytes| == rq.contentLength < 0x8000_0000 else bytes == []
    case InChunks(body, trailers, lf) =>
      && CHUNKED in rq.flags && ValidBody(body, cap) && Roomy(PrintTrailers(trailers, lf), cap)
      && trailers != [] && (forall i :: 0 <= i < |trailers| ==> ValidField(trailers[i]))
      && FieldsText(trailers, ALL_HEADERS, text).Fits()
  }

  function StartOf(m: nat, size: nat): (k: Parser)
    requires size > 0
    ensures Suspendable(k)
  {
    InitSuspendable(ALL_HEADERS, m, NO_REQUEST, size);
    Requests.Init(ALL_HEADERS, m, NO_REQUEST, size)
  }

  /** Input after a head does not change how the head ends. */
  lemma {:induction false} HeadStable(k: Parser, a: seq<Char>, b: seq<Char>, cap: nat)
    requires Suspendable(k)
    ensures var e := ReadHead(k, a, cap); e.TooLong? || e.Closed? || ReadHead(k, a + b, cap) == e
    decreases |a|
  {
    hide Requests.Step;
    if !Full(k, cap) && a != [] {
      assert (a + b)[0] == a[0] && (a + b)[1..] == a[1..] + b;
      if Step(k, a[0]).More? {
        HeadStable(Step(k, a[0]).k, a[1..], b, cap);
      }
    }
  }

  /** A head or trailer that a run over `p` completes is read whole, whatever follows it and however the ring is
      marked. */
  lemma ReadWhole(k: Parser, p: seq<Char>, rest: seq<Char>, cap: nat, eof: bool)
    requires Suspendable(k) && Run(k, p).Done? && ReadHead(k, p, cap) == EndOf(Run(k, p)) && p != []
    ensures ForgetEnd(HeadOf(k, p + rest, cap, eof)) == ForgetEnd(Complete(Run(k, p).k))
  {
    hide Requests.Run, Requests.Step, Requests.Suspendable, ReadHead;
    HeadStable(k, p, rest, cap);
    RunConcat(k, p, rest);
  }

  /** The head of the next exchange is read whole. */
  lemma NextParses(e: Exchange, m: nat, rest: seq<Char>, cap: nat, size: nat, eof: bool)
    requires Framed(e, cap, size)
    ensures var end := ForgetEnd(HeadOf(StartOf(m, size), Print(e.head) + rest, cap, eof));
            && end.Complete? && end.k.m == m + |Print(e.head)|
            && end.k.rq == MessageRequest(e.head) && end.k.text == MessageText(e.head, ALL_HEADERS, size)
  {
    hide Requests.Run, Requests.Step, Requests.Suspendable, Print, ReadHead, HeadOf, ValidMessage, MessageText,
         MessageRequest, Roomy, Declared;
    var k, p := StartOf(m, size), Print(e.head);
    PrintedHeadParses(e.head, ALL_HEADERS, m, size);
    RoomyTakesHead(ALL_HEADERS, m, NO_REQUEST, size, p, cap);
    ReadWhole(k, p, rest, cap, eof);
  }

  lemma NextTrailers(trailers: seq<Field>, lf: bool, m: nat, rest: seq<Char>, cap: nat, eof: bool, rq: Request,
                     text: Text)
    requires text.chars != [] && text.Fits() && FieldsText(trailers, ALL_HEADERS, text).Fits() && trailers != []
    requires Roomy(PrintTrailers(trailers, lf), cap) && forall i :: 0 <= i < |trailers| ==> ValidField(trailers[i])
    ensures var p := PrintTrailers(trailers, lf);
            var end := Trailers(m, rq, text, p + rest, cap, eof);
            end.Complete? && end.k.m == m + |p|
  {
    hide Requests.Run, Requests.Step, Requests.Suspendable, ReadHead, HeadOf, ValidField, FieldsText, Roomy,
         PrintFields;
    var p := PrintTrailers(trailers, lf);
    var k := InitTrailers(ALL_HEADERS, m, rq, text);
    TrailersParse(ALL_HEADERS, m, rq, text, trailers, lf);
    RoomyTakesTrailers(ALL_HEADERS, m, rq, text, p, cap);
    ReadWhole(k, p, rest, cap, eof);
  }

  /** After the head and the payload of an exchange, the rest of the input is left. */
  lemma NextFramed(p: Payload, head: seq<Char>, k: Parser, m: nat, rest: seq<Char>, cap: nat, eof: bool)
    requires k.m == m + |head| && k.text.chars != [] && k.text.Fits() && Declared(p, k.rq, k.text, cap)
    ensures BehindRequest(k, m, head + (PrintPayload(p) + rest), cap, eof) == Some(rest)
  {
    hide BodyOf, HeadOf, ValidBody, ValidField, FieldsText, Roomy, PrintBody, PrintTrailers, Trailers;
    var total := head + (PrintPayload(p) + rest);
    assert total[k.m - m..] == PrintPayload(p) + rest;
    match p
    case Whole(bytes) =>
      CountedBodyDecodes(|bytes|, bytes + rest, cap);
      assert (bytes + rest)[|bytes|..] == rest;
    case InChunks(body, trailers, lf) =>
      var t := PrintTrailers(trailers, lf);
      assert (PrintBody(body) + t) + rest == PrintBody(body) + (t + rest);
      ChunkedBodyDecodes(body, t + rest, cap);
      NextTrailers(trailers, lf, k.m + |PrintBody(body)|, rest, cap, eof, k.rq, k.text);
      assert (t + rest)[|t|..] == rest;
  }

  /** A head that declares no body is followed by the next request. */
  lemma BodilessLeaves(k: Parser, head: seq<Char>, m: nat, rest: seq<Char>, cap: nat, eof: bool)
    requires k.m == m + |head| && k.text.chars != [] && k.text.Fits()
    requires CHUNKED !in k.rq.flags && CONTENT_LENGTH !in k.rq.flags
    ensures BehindRequest(k, m, head + rest, cap, eof) == Some(rest)
  {
    hide BodyOf;
    assert (head + rest)[k.m - m..] == rest;
    CountedBodyDecodes(0, rest, cap);
    assert rest[0..] == rest;
  }

  /** What is left behind a body of a declared length. */
  lemma LengthLeaves(k: Parser, head: seq<Char>, m: nat, bytes: seq<Char>, rest: seq<Char>, cap: nat, eof: bool)
    requires k.m == m + |head| && k.text.chars != [] && k.text.Fits()
    requires CHUNKED !in k.rq.flags && CONTENT_LENGTH in k.rq.flags && k.rq.contentLength == |bytes| % U32
    ensures var n := Signed(|bytes| % U32);
            && n <= |bytes|
            && BehindRequest(k, m, head + (bytes + rest), cap, eof) == Some((bytes + rest)[if n > 0 then n else 0..])
  {
    hide BodyOf;
    var n, input := Signed(|bytes| % U32), bytes + rest;
    assert (head + input)[k.m - m..] == input;
    if n >= 0 {
      CountedBodyDecodes(n, input, cap);
    } else {
      BodyEnds(n, false, input, cap);
      assert input[0..] == input;
    }
  }

  /** A body of a declared length is framed exactly when the length is below 2^31: a longer one is taken for a shorter
      body, or for none, and the rest of it for the next request. */
  lemma LengthFramedIff(k: Parser, head: seq<Char>, m: nat, bytes: seq<Char>, rest: seq<Char>, cap: nat, eof: bool)
    requires k.m == m + |head| && k.text.chars != [] && k.text.Fits()
    requires CHUNKED !in k.rq.flags && CONTENT_LENGTH in k.rq.flags && k.rq.contentLength == |bytes| % U32
    ensures BehindRequest(k, m, head + (bytes + rest), cap, eof) == Some(rest) <==> |bytes| < 0x8000_0000
  {
    hide BehindRequest;
    var n := Signed(|bytes| % U32);
    LengthLeaves(k, head, m, bytes, rest, cap, eof);
    if |bytes| < 0x8000_0000 {
      assert (bytes + rest)[|bytes|..] == rest;
    } else {
      assert |(bytes + rest)[if n > 0 then n else 0..]| > |rest|;
    }
  }

  /** Chunks without trailers are followed by one line end more than RFC 2616 asks for, section 3.6.1. */
  lemma BareChunksNeedLineEnd(m0: nat, input0: seq<Char>, rest: seq<Char>, lf: bool, lf2: bool, cap: nat, eof: bool,
                              rq: Request, text: Text)
    requires text.chars != [] && text.Fits() && cap > 28 && |Eol(lf) + (Eol(lf2) + rest)| <= |input0|
    ensures Behind(LastChunk(Eol(lf) + (Eol(lf2) + rest)), m0, input0, cap, eof, rq, text) == Some(rest)
    ensures Suspendable(InitTrailers(ALL_HEADERS, m0, rq, text))
            && Run(InitTrailers(ALL_HEADERS, m0, rq, text), Eol(lf)).More?
  {
    hide Requests.Run, Requests.Step, Requests.Suspendable, ReadHead, HeadOf;
    var p := Eol(lf) + Eol(lf2);
    assert Eol(lf) + (Eol(lf2) + rest) == p + rest;
    var m := m0 + |input0| - |p + rest|;
    assert p != [] && (p + rest)[|p|..] == rest;
    EmptyTrailersParse(ALL_HEADERS, m, rq, text, lf, lf2);
    TrailerLineEnds(ALL_HEADERS, m0, rq, text, lf);
    TrailersSuspendable(ALL_HEADERS, m0, rq, text);
    LineEndsRoomy(lf, lf2, cap);
    RoomyTakesTrailers(ALL_HEADERS, m, rq, text, p, cap);
    ReadWhole(InitTrailers(ALL_HEADERS, m, rq, text), p, rest, cap, eof);
  }

  lemma LineEndsRoomy(lf: bool, lf2: bool, cap: nat)
    requires cap > 28
    ensures Roomy(Eol(lf) + Eol(lf2), cap)
  {
    var cs := Eol(lf) + Eol(lf2);
    LongestIff(Kind.Idle, cs, 4);
    LongestIff(Kind.Stop, cs, 0);
    forall i: nat, j: nat | IsRun(Kind.Stop, cs, i, j)
      ensures j - i <= 0
    {
      assert forall x :: 0 <= x < |cs| ==> !Of(Kind.Stop, cs[x]);
    }
  }

  // ---------------------------------------------------------------- open or closed

  /** A field line of the message says `name: value`, in any case. */
  ghost predicate Says(g: Message, name: string, value: string) {
    exists i :: 0 <= i < |g.fields| && FieldSays(g.fields[i], name, value)
  }

  ghost predicate FieldSays(f: Field, name: string, value: string) {
    f.Flag_? && SameName(f.name, name) && SameName(f.word, value)
  }

  /** RFC 2616, section 8.1: a connection stays open by default from HTTP/1.1 on, and on demand before. */
  ghost predicate StaysOpen(g: Message) {
    if g.version >= 11 then !Says(g, "Connection", "close") else Says(g, "Connection", "keep-alive")
  }

  lemma WordsApart(bit: nat, w: seq<Char>, other: nat)
    requires IsFlagBit(bit) && IsFlagBit(other) && SameName(w, FlagWord(bit)) && SameName(w, FlagWord(other))
    ensures bit == other
  {
    var a, b := FlagWord(bit), FlagWord(other);
    assert Lower(w[0]) == Lower(a[0] as int) == Lower(b[0] as int);
    assert Lower(w[1]) == Lower(a[1] as int) == Lower(b[1] as int);
  }

  lemma SaysFlag(f: Field, bit: nat)
    requires ValidField(f) && IsFlagBit(bit)
    ensures FieldSays(f, FlagName(bit), FlagWord(bit)) <==> f.Flag_? && f.bit == bit
  {
    hide SameName, FlagName, FlagWord;
    if FieldSays(f, FlagName(bit), FlagWord(bit)) {
      WordsApart(f.bit, f.word, bit);
    }
  }

  /** A flag is set by a field that says it, and by nothing else. */
  lemma {:induction false} FlagSaid(fs: seq<Field>, rq: Request, bit: nat)
    requires IsFlagBit(bit) && forall i :: 0 <= i < |fs| ==> ValidField(fs[i])
    ensures bit in FieldsRequest(fs, rq).flags <==>
              bit in rq.flags || exists i :: 0 <= i < |fs| && FieldSays(fs[i], FlagName(bit), FlagWord(bit))
    ensures FieldsRequest(fs, rq).version == rq.version
    decreases |fs|
  {
    hide FieldSays, ValidField, FlagName, FlagWord;
    if fs != [] {
      SaysFlag(fs[0], bit);
      var rq' := FieldRequest(fs[0], rq);
      FlagSaid(fs[1..], rq', bit);
      if i :| 0 <= i < |fs[1..]| && FieldSays(fs[1..][i], FlagName(bit), FlagWord(bit)) {
        assert fs[i + 1] == fs[1..][i];
      }
      if i :| 0 <= i < |fs| && FieldSays(fs[i], FlagName(bit), FlagWord(bit)) {
        assert i > 0 ==> fs[1..][i - 1] == fs[i];
      }
    }
  }

  /** The connection stays open as the head says. */
  lemma KeptOpenIff(g: Message)
    requires ValidMessage(g)
    ensures KeptOpen(MessageRequest(g)) <==> StaysOpen(g)
  {
    hide ValidField, FieldSays;
    var rq := Request({}, g.version, g.method_, 1, if g.query.None? then 0 else 1 + |g.path| + 1, 0);
    FlagSaid(g.fields, rq, CLOSE);
    FlagSaid(g.fields, rq, KEEP);
  }

  /** What is still to be served. */
  ghost predicate Queued(es: seq<Exchange>, tail: seq<Char>, input: Ring, src: Source, text: TextInt)
    reads input, input.data, src, text
  {
    && Connected(input, src, text) && input.Contents() + src.rest == Wire(es) + tail
    && forall i :: 0 <= i < |es| ==> Framed(es[i], input.Cap(), text.data.Length)
  }

  /** The next head is the head of the first exchange. */
  lemma NextHeadIs(e: Exchange, rest: seq<Char>, input: Ring, src: Source, text: TextInt)
    requires input.Valid() && text.Valid() && Framed(e, input.Cap(), text.data.Length)
    requires input.Contents() + src.rest == Print(e.head) + rest
    ensures var head := NextHead(input, src, text);
            && head.Complete? && head.k.m == input.read + |Print(e.head)|
            && head.k.rq == MessageRequest(e.head) && head.k.text == MessageText(e.head, ALL_HEADERS, text.data.Length)
  {
    hide Framed, Print, HeadOf, MessageRequest, MessageText;
    NextParses(e, input.read, rest, input.Cap(), text.data.Length, input.eof);
  }

  /** What a handled request leaves when the input behind it is known. */
  lemma HandledLeaves(head: HeadEnd, m: nat, total: seq<Char>, input: Ring, src: Source, text: TextInt, eof: bool,
                      fate: Fate, result: int, rq: Request, seen: Text, rest: seq<Char>)
    requires head.Complete? && m <= head.k.m <= m + |total|
    requires BehindRequest(head.k, m, total, input.Cap(), eof) == Some(rest)
    requires Handled(head, m, total, input, src, text, eof, fate, result, rq, seen)
    ensures Connected(input, src, text) && input.Contents() + src.rest == rest
    ensures rq == head.k.rq && seen == head.k.text && result == if KeptOpen(rq) then OK_OPEN else OK_CLOSE
  {
    hide BehindRequest, Connected, KeptOpen;
  }

  /** One call serves one exchange, whole, whatever part of its body the application reads. */
  method HandleNext(ghost es: seq<Exchange>, ghost tail: seq<Char>,
                    input: Ring, src: Source, text: TextInt, buf: array<Char>, counts: seq<nat>)
    returns (result: int, ghost rq: Request, ghost seen: Text)
    requires es != [] && Queued(es, tail, input, src, text) && buf != input.data && buf != text.data
    requires forall i :: 0 <= i < |counts| ==> counts[i] <= buf.Length && counts[i] < input.Cap()
    modifies input, input.data, src, text, text.data, buf
    ensures Queued(es[1..], tail, input, src, text)
    ensures rq == MessageRequest(es[0].head) && seen == MessageText(es[0].head, ALL_HEADERS, text.data.Length)
    ensures result == if StaysOpen(es[0].head) then OK_OPEN else OK_CLOSE
  {
    hide Framed, Print, PrintPayload, MessageRequest, MessageText, BehindRequest, Declared, Handled, NextHead, KeptOpen,
         StaysOpen;
    ghost var e, rest, m, cap, size := es[0], Wire(es[1..]) + tail, input.read, input.Cap(), text.data.Length;
    ghost var payload := PrintPayload(e.payload);
    ghost var total := input.Contents() + src.rest;
    assert total == Print(e.head) + (payload + rest);
    FramedTells(e, cap, size);
    NextHeadIs(e, payload + rest, input, src, text);
    ghost var head := NextHead(input, src, text);
    var fate;
    ghost var eof;
    fate, result, eof, rq, seen := Handle(input, src, text, buf, counts);
    NextFramed(e.payload, Print(e.head), head.k, m, rest, cap, eof);
    HandledLeaves(head, m, total, input, src, text, eof, fate, result, rq, seen, rest);
    KeptOpenIff(e.head);
  }

  lemma FramedTells(e: Exchange, cap: nat, size: nat)
    requires Framed(e, cap, size)
    ensures var (rq, text) := (MessageRequest(e.head), MessageText(e.head, ALL_HEADERS, size));
            Declared(e.payload, rq, text, cap) && text.chars != [] && text.Fits() && ValidMessage(e.head)
  {
    hide MessageRequest, Declared;
    FieldsKeepText(e.head.fields, ALL_HEADERS, Text([NUL] + TargetText(e.head), [], size));
  }

  lemma {:induction false} FieldsKeepText(fs: seq<Field>, hmask: set<nat>, t: Text)
    requires t.chars != []
    ensures FieldsText(fs, hmask, t).chars != []
    decreases |fs|
  {
    if fs != [] {
      FieldsKeepText(fs[1..], hmask, FieldText(fs[0], hmask, t));
    }
  }

  /** Requests in a row on one connection: each call starts at the first byte of its request, until one closes. */
  method Serve(ghost es: seq<Exchange>, ghost tail: seq<Char>,
               input: Ring, src: Source, text: TextInt, buf: array<Char>, counts: seq<seq<nat>>)
    returns (served: nat, ghost rqs: seq<Request>, ghost texts: seq<Text>)
    requires |counts| == |es| && Queued(es, tail, input, src, text) && buf != input.data && buf != text.data
    requires forall i, j :: 0 <= i < |counts| && 0 <= j < |counts[i]| ==>
               counts[i][j] <= buf.Length && counts[i][j] < input.Cap()
    modifies input, input.data, src, text, text.data, buf
    ensures served <= |es| && Queued(es[served..], tail, input, src, text)
    ensures |rqs| == |texts| == served && forall i :: 0 <= i < served ==>
              rqs[i] == MessageRequest(es[i].head) && texts[i] == MessageText(es[i].head, ALL_HEADERS, text.data.Length)
    ensures forall i :: 0 <= i < served - 1 ==> StaysOpen(es[i].head)
    ensures served == |es| || (served > 0 && !StaysOpen(es[served - 1].head))
  {
    hide Queued, MessageRequest, MessageText, StaysOpen;
    served, rqs, texts := 0, [], [];
    var result := OK_OPEN;
    while served < |counts| && result == OK_OPEN
      invariant served <= |es| && Queued(es[served..], tail, input, src, text)
      invariant |rqs| == |texts| == served && forall i :: 0 <= i < served ==>
                  rqs[i] == MessageRequest(es[i].head)
                    && texts[i] == MessageText(es[i].head, ALL_HEADERS, text.data.Length)
      invariant forall i :: 0 <= i < served - 1 ==> StaysOpen(es[i].head)
      invariant result == OK_OPEN ==> served == 0 || StaysOpen(es[served - 1].head)
      invariant result != OK_OPEN ==> served > 0 && !StaysOpen(es[served - 1].head)
    {
      ghost var rq, seen;
      result, rq, seen := HandleNext(es[served..], tail, input, src, text, buf, counts[served]);
      assert es[served..][1..] == es[served + 1..] && es[served..][0] == es[served];
      served, rqs, texts := served + 1, rqs + [rq], texts + [seen];
    }
  }
}
