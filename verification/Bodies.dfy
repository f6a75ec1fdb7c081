/** `minute_httpd_in_read`: reading a request body through the ring, at any pace, from input cut anyhow. */
module Bodies {
  import opened Chars
  import opened Rings
  import opened TextInts
  import opened Patricia
  import opened Requests
  import opened Reader
  import opened Heads
  import opened Chunks

  /** A call returns, or its loop never ends, or the trailer parser leaves its tables, or a copy leaves the ring. */
  datatype Fate = Returned | Spins | Strays | Overruns

  /** What the trailers after a last-chunk line come to. */
  ghost function Trailers(m: nat, rq: Request, text: Text, rest: seq<Char>, cap: nat, eof: bool): HeadEnd
    requires text.chars != [] && text.Fits()
  {
    TrailersSuspendable(ALL_HEADERS, m, rq, text);
    ForgetEnd(HeadOf(InitTrailers(ALL_HEADERS, m, rq, text), rest, cap, eof))
  }

  /** The input behind a body, and behind its trailers, when they come to a proper end. `input0` is what there was at
      offset `m0`, with the body at its start. */
  ghost function Behind(end: BodyEnd, m0: nat, input0: seq<Char>, cap: nat, eof: bool, rq: Request,
                        text: Text): Option<seq<Char>>
    requires text.chars != [] && text.Fits()
  {
    match end
    case Counted(rest) => Some(rest)
    case Over(rest) => Some(rest)
    case LastChunk(rest) =>
      if |rest| > |input0| then None else
        var m := m0 + |input0| - |rest|;
        var e := Trailers(m, rq, text, rest, cap, eof);
        if e.Complete? && m <= e.k.m <= m + |rest| then Some(rest[e.k.m - m..]) else None
    case _ => None
  }

  lemma PrependTwice(a: seq<Char>, got: seq<Char>, b: Body)
    ensures Prepend(a, Prepend(got, b)) == Prepend(a + got, b)
  {
    assert a + (got + b.data) == (a + got) + b.data;
  }

  lemma NothingScanned(r: Scanned)
    ensures Longer(r, 0) == r
  {
  }

  /** The next byte of the ring, and the rest of what it holds. */
  lemma NextByte(d: seq<Char>, i: nat, w: nat)
    requires |d| > 0 && i < w
    ensures Window(d, i, w) == [d[Slot(i, |d|)]] + Window(d, i + 1, w)
  {
    WindowSplit(d, i, i + 1, w);
    assert Window(d, i, i + 1) == [d[Slot(i, |d|)]];
    assert Window(d, i, w) == Window(d, i, w)[..1] + Window(d, i, w)[1..];
  }

  function After(step: ScanStep, rest: seq<Char>): Scanned {
    match step
    case Go(st, val) => Longer(Scan(rest, st, val), 1)
    case Stop(v) => Line(v, 1)
    case Wrong => Malformed
  }

  lemma ScanUnrolled(cs: seq<Char>, rest: seq<Char>, c: Char, st: ChunkState, val: nat)
    requires cs == [c] + rest
    ensures Scan(cs, st, val) == After(ScanByte(st, val, c), rest)
  {
    hide ScanByte;
    assert cs[0] == c && cs[1..] == rest;
  }

  lemma ScanOver(cs: seq<Char>, st: ChunkState, val: nat)
    requires cs == []
    ensures Scan(cs, st, val) == Partial
  {
  }

  class Response {
    const input: Ring
    const src: Source
    const reader: HttpReader
    var pending: int

    constructor (input: Ring, src: Source, reader: HttpReader)
      ensures this.input == input && this.src == src && this.reader == reader && pending == 0
    {
      this.input, this.src, this.reader, this.pending := input, src, reader, 0;
    }

    ghost predicate Valid()
      reads this, input, src, reader, reader.text, reader.text.data
    {
      && input.Valid() && reader.Valid() && reader.text.Value().chars != []
      && input.data != reader.text.data
      && (input.eof ==> src.rest == [])
    }

    /** The input not yet read. */
    ghost function Input(): seq<Char>
      requires input.Valid()
      reads this, input, input.data, src
    {
      input.Contents() + src.rest
    }

    function IsChunked(): bool
      reads reader
    {
      CHUNKED in reader.rq.flags
    }

    /** What is left of the body. */
    ghost function Rest(): Body
      requires input.Valid()
      reads this, input, input.data, src, reader
    {
      BodyOf(pending, IsChunked(), Input(), input.Cap())
    }

    /** The scan of a size line, always from the start of what the ring holds. */
    method ScanLine() returns (s: Scanned)
      requires input.Valid()
      ensures s == Scan(input.Contents(), if pending == 0 then Previous else Size, 0)
    {
      hide Window, Scan, ScanByte;
      var i, val: nat, st := input.read, 0, if pending == 0 then Previous else Size;
      NothingScanned(Scan(input.Contents(), st, val));
      while i < input.write
        invariant input.read <= i <= input.write
        invariant Scan(input.Contents(), if pending == 0 then Previous else Size, 0)
               == Longer(Scan(input.From(i), st, val), i - input.read)
      {
        var c := input.data[Slot(i, input.data.Length)];
        NextByte(input.data[..], i, input.write);
        ScanUnrolled(input.From(i), input.From(i + 1), c, st, val);
        match ScanByte(st, val, c) {
          case Go(st', val') => st, val := st', val';
          case Stop(v) => return Line(v, i - input.read + 1);
          case Wrong => return Malformed;
        }
        i := i + 1;
      }
      ScanOver(input.From(i), st, val);
      return Partial;
    }

    /** What a call leaves when the body has no more bytes. `rest0`, `m0`, `rq0` and `text0` are the state before it. */
    ghost predicate Ended(end: BodyEnd, m0: nat, input0: seq<Char>, pending0: int, eof0: bool, rq0: Request,
                          text0: Text, fate: Fate, r: int, trailer: int)
      requires reader.Valid() && text0.chars != [] && text0.Fits()
      reads this, input, input.data, src, reader, reader.text, reader.text.data
    {
      match end
      case Over(rest) =>
        && fate == Returned && r == 0 && pending <= PENDING_EOF && Valid() && Input() == rest && reader.rq == rq0
        && (pending0 <= PENDING_EOF ==> pending == pending0 && Input() == input0)
      case Counted(rest) =>
        fate == Returned && r == 0 && pending == PENDING_EOF && Valid() && Input() == rest && reader.rq == rq0
      case Cut => fate == Returned && r == 0 && pending == PENDING_EOF && Valid() && input.eof && reader.rq == rq0
      case Broken => fate == Returned && r == -1 && pending == PENDING_ERROR && Valid() && reader.rq == rq0
      case Stalled => fate == Spins
      case LastChunk(rest) =>
        var m := m0 + |input0| - |rest|;
        && |rest| <= |input0| && pending == PENDING_EOF && (fate == Returned || fate == Strays)
        && HeadLeft(Trailers(m, rq0, text0, rest, input.Cap(), eof0), reader, input, src, m, rest, fate == Returned,
           trailer)
        && (fate == Returned ==> r == if trailer == 0 then 0 else -1)
    }

    lemma TrailersResumed(m: nat)
      requires reader.Valid() && input.Valid()
      requires reader.saved == Rqs(Header, Initial, START, m, 0, 0, 0, 0, false, ALL_HEADERS) && input.read == m
      ensures reader.Resumed(input) == InitTrailers(ALL_HEADERS, m, reader.rq, reader.text.Value())
    {
    }

    lemma TrailersAre(m: nat, rq0: Request, text0: Text, rest: seq<Char>, eof0: bool)
      requires text0.chars != [] && text0.Fits()
      ensures Suspendable(InitTrailers(ALL_HEADERS, m, rq0, text0))
      ensures Trailers(m, rq0, text0, rest, input.Cap(), eof0)
           == ForgetEnd(HeadOf(InitTrailers(ALL_HEADERS, m, rq0, text0), rest, input.Cap(), eof0))
    {
      hide HeadOf, ForgetEnd;
      TrailersSuspendable(ALL_HEADERS, m, rq0, text0);
    }

    /** What the trailers leave is what the call leaves. */
    lemma TrailersEnded(rest: seq<Char>, m0: nat, input0: seq<Char>, pending0: int, eof0: bool, rq0: Request,
                        text0: Text, fate: Fate, r: int, trailer: int)
      requires reader.Valid() && text0.chars != [] && text0.Fits() && |rest| <= |input0| && pending == PENDING_EOF
      requires (fate == Returned || fate == Strays) && (fate == Returned ==> r == if trailer == 0 then 0 else -1)
      requires var m := m0 + |input0| - |rest|;
               HeadLeft(Trailers(m, rq0, text0, rest, input.Cap(), eof0), reader, input, src, m, rest, fate == Returned,
                 trailer)
      requires input.data != reader.text.data && (input.eof ==> src.rest == [])
      ensures Ended(LastChunk(rest), m0, input0, pending0, eof0, rq0, text0, fate, r, trailer)
      ensures fate == Returned && input.read <= input.write ==> Valid()
    {
      hide HeadOf, ReadHead, Window;
    }

    /** `minute_http_init_trailers` and `minute_httpd_read_request` after a last-chunk line, in a call that began with
        `input0` at `m0`. */
    method ReadTrailers(ghost m0: nat, ghost input0: seq<Char>, ghost pending0: int, ghost eof0: bool)
      returns (fate: Fate, r: int, ghost trailer: int)
      requires Valid() && pending == PENDING_EOF && input.eof == eof0
      requires |Input()| <= |input0| && input.read + |Input()| == m0 + |input0|
      modifies input, input.data, src, reader, reader.text, reader.text.data
      ensures fate != Overruns
      ensures reader.Valid() && (fate == Returned && input.read <= input.write ==> Valid())
      ensures Ended(LastChunk(old(Input())), m0, input0, pending0, eof0, old(reader.rq), old(reader.text.Value()), fate,
              r, trailer)
    {
      hide HeadOf, ReadHead, Suspendable, Window, ForgetEnd, HeadLeft, Trailers, Ended;
      TrailersSuspendable(ALL_HEADERS, input.read, reader.rq, reader.text.Value());
      reader.saved := Rqs(Header, Initial, START, input.read, 0, 0, 0, 0, false, ALL_HEADERS);
      ghost var m, rest, rq0, text0 := input.read, Input(), reader.rq, reader.text.Value();
      TrailersResumed(m);
      TrailersAre(m, rq0, text0, rest, eof0);
      var ok, status := ReadRequest(reader, input, src);
      trailer := status;
      fate, r := if ok then Returned else Strays, if status == 0 then 0 else -1;
      TrailersEnded(rest, m0, input0, pending0, eof0, rq0, text0, fate, r, trailer);
    }

    /** What one call with room for `count` bytes comes to, by the body that was left: some of its bytes, or its end; or
        nothing, when there is no room for any of them. */
    ghost predicate Came(b: Body, m0: nat, input0: seq<Char>, pending0: int, eof0: bool, rq0: Request, text0: Text,
                         fate: Fate, r: int, got: seq<Char>, trailer: int, count: nat)
      requires reader.Valid() && text0.chars != [] && text0.Fits()
      reads this, input, input.data, src, reader, reader.text, reader.text.data
    {
      if got != [] || (count == 0 && b.data != []) then
        && fate == Returned && r == |got| && Valid() && reader.rq == rq0 && reader.text.Value() == text0
        && b == Prepend(got, Rest()) && input.eof == eof0
        && input.read + |Input()| == m0 + |input0| && |Input()| + |got| <= |input0|
      else
        b.data == [] && Ended(b.end, m0, input0, pending0, eof0, rq0, text0, fate, r, trailer)
    }

    /** The loop never ends exactly when the body that is left stalls before another byte of it. */
    lemma SpinsIff(b: Body, m0: nat, input0: seq<Char>, pending0: int, eof0: bool, rq0: Request, text0: Text,
                   fate: Fate, r: int, got: seq<Char>, trailer: int, count: nat)
      requires reader.Valid() && text0.chars != [] && text0.Fits()
      requires Came(b, m0, input0, pending0, eof0, rq0, text0, fate, r, got, trailer, count)
      ensures fate == Spins <==> b == Body([], Stalled)
    {
      hide Rest, Trailers, HeadLeft;
    }

    /** A call returns -1 for its chunks, and the body is in error from then on, exactly when the body that is left is
        rejected before another byte of it. */
    lemma RejectsIff(b: Body, m0: nat, input0: seq<Char>, pending0: int, eof0: bool, rq0: Request, text0: Text,
                     fate: Fate, r: int, got: seq<Char>, trailer: int, count: nat)
      requires reader.Valid() && text0.chars != [] && text0.Fits()
      requires Came(b, m0, input0, pending0, eof0, rq0, text0, fate, r, got, trailer, count)
      ensures fate == Returned && r == -1 && pending == -3 <==> b == Body([], Broken)
    {
      hide Rest, Trailers, HeadLeft;
    }

    /** A size line read in the same call changes nothing about what the call comes to. */
    lemma CameWidens(b: Body, m1: nat, input1: seq<Char>, pending1: int, m0: nat, input0: seq<Char>, pending0: int,
                     eof0: bool, rq0: Request, text0: Text, fate: Fate, r: int, got: seq<Char>, trailer: int,
                     count: nat)
      requires reader.Valid() && text0.chars != [] && text0.Fits() && pending0 > PENDING_EOF
      requires m1 + |input1| == m0 + |input0| && |input1| <= |input0|
      requires Came(b, m1, input1, pending1, eof0, rq0, text0, fate, r, got, trailer, count)
      ensures Came(b, m0, input0, pending0, eof0, rq0, text0, fate, r, got, trailer, count)
    {
      hide Rest, Trailers, HeadLeft;
    }

    /** Copying the rest of the chunk, as far as there is room, would leave the ring. */
    ghost predicate CopyOverruns(buf: array?<Char>, count: nat)
      requires input.Valid()
      reads this, input, input.data
    {
      && buf != null && count >= input.Cap() && pending >= input.Cap()
      && |input.Contents()| == input.Cap() && Slot(input.read, input.Cap()) != 0
    }

    /** The first bytes of the queue, copied to `buf`, or dropped when there is none. */
    method TakeBytes(buf: array?<Char>, toread: nat) returns (r: nat)
      requires Valid() && (buf != null ==> buf != input.data && buf != reader.text.data && toread <= buf.Length)
      requires buf != null ==>
                 toread < input.Cap() || |input.Contents()| < input.Cap() || Slot(input.read, input.Cap()) == 0
      modifies input, buf
      ensures Valid() && r == Min(toread, |old(input.Contents())|) && input.Contents() == old(input.Contents())[r..]
      ensures buf != null ==> buf[..] == old(input.Contents())[..r] + old(buf[r..])
      ensures input.eof == old(input.eof) && input.write == old(input.write)
    {
      hide Window, Slot;
      if buf != null {
        r := input.Read(buf, toread);
      } else {
        r := if input.read + toread > input.write then input.write - input.read else toread;
        input.Skip(r);
      }
    }

    /** Bytes of the current chunk that the ring holds: copied to `buf`, or dropped when there is none. */
    method TakeChunk(buf: array?<Char>, count: nat) returns (fate: Fate, r: nat, ghost got: seq<Char>)
      requires Valid() && pending > 0 && input.Contents() != []
      requires buf != null ==> buf != input.data && buf != reader.text.data && count <= buf.Length
      modifies input, this`pending, buf
      ensures fate == if old(CopyOverruns(buf, count)) then Overruns else Returned
      ensures Valid() && r == |got| <= count && (r == 0 ==> fate == Overruns || count == 0)
      ensures old(Rest()) == Prepend(got, Rest())
      ensures fate == Returned ==> r == Min(Min(old(pending), count), |old(input.Contents())|)
      ensures r <= |old(input.Contents())| && got == old(input.Contents())[..r]
      ensures input.Contents() == old(input.Contents())[r..] && pending == old(pending) - r
      ensures buf != null ==> buf[..] == got + old(buf[r..])
      ensures src.rest == old(src.rest) && input.eof == old(input.eof) && input.write == old(input.write)
    {
      hide BodyOf, Window, Slot, Prepend;
      ghost var q := input.Contents();
      var toread: nat := if pending > count then count else pending;
      NothingTaken();
      got := q[..0];
      if buf != null && toread >= input.data.Length && input.write - input.read == input.data.Length
         && Slot(input.read, input.data.Length) != 0 {
        return Overruns, 0, got;
      }
      fate := Returned;
      r := TakeBytes(buf, toread);
      got := q[..r];
      if r > 0 {
        BodyAdvances(pending, IsChunked(), q + src.rest, input.Cap(), r);
      }
      CutJoined(q, src.rest, r);
      pending := pending - r;
    }

    lemma NothingTaken()
      requires Valid()
      ensures Rest() == Prepend(input.Contents()[..0], Rest()) && input.Contents()[0..] == input.Contents()
    {
      hide BodyOf;
      assert [] + Rest().data == Rest().data;
    }

    /** Between chunks: a complete size line is consumed and says what is pending; an incomplete one is left alone. */
    method StartChunk() returns (s: Scanned)
      requires Valid() && PENDING_EOF < pending <= 0 && IsChunked()
      modifies input`read, this`pending
      ensures Valid() && input.eof == old(input.eof)
      ensures input.read + |Input()| == old(input.read) + |old(Input())| && |Input()| <= |old(Input())|
      ensures match s
              case Line(v, _) =>
                && |Input()| < |old(Input())|
                && (v == 0 ==> pending == PENDING_EOF && old(Rest()) == Body([], LastChunk(Input())))
                && (v != 0 ==> old(Rest()) == Rest())
              case Malformed => pending == PENDING_ERROR && old(Rest()) == Body([], Broken)
              case Partial =>
                && pending == old(pending) && input.read == old(input.read)
                && (|input.Contents()| == input.Cap() ==> Rest() == Body([], Stalled))
                && (|input.Contents()| < input.Cap() && src.rest == [] ==> Rest() == Body([], Cut))
    {
      hide BodyOf, Scan, Window;
      s := ScanLine();
      ScanTells(pending, input.Contents(), src.rest, input.Cap());
      match s {
        case Line(v, n) =>
          input.Skip(n);
          pending := if v == 0 then PENDING_EOF else Signed(v);
        case Malformed =>
          pending := PENDING_ERROR;
        case Partial =>
      }
    }

    /** A refill when the ring holds too little to go on. */
    method ReadMore() returns (fate: Fate, r: int, more: bool)
      requires Valid() && PENDING_EOF < pending && (pending <= 0 ==> IsChunked())
      requires pending > 0 ==> input.Contents() == []
      requires pending <= 0 && |input.Contents()| == input.Cap() ==> Rest() == Body([], Stalled)
      requires pending <= 0 && |input.Contents()| < input.Cap() && src.rest == [] ==> Rest() == Body([], Cut)
      modifies input, input.data, src, this`pending
      ensures Valid()
      ensures more ==> (
                && Input() == old(Input()) && Rest() == old(Rest()) && pending == old(pending)
                && input.read == old(input.read) && input.eof == old(input.eof) && |src.rest| < |old(src.rest)|)
      ensures !more ==> old(Rest()).data == [] && (fate == Returned || fate == Spins)
                        && Ended(old(Rest()).end, old(input.read), old(Input()), old(pending), old(input.eof),
                                 reader.rq, reader.text.Value(), fate, r, 0)
    {
      hide BodyOf, Window;
      BodyEnds(pending, IsChunked(), Input(), input.Cap());
      var rfd := input.ReadFd(src);
      if rfd == 0 && input.eof {
        pending := PENDING_EOF;
        return Returned, 0, false;
      } else if rfd < 0 {
        // The ring is full of one size line: nothing changes any more, and the loop goes on for ever.
        return Spins, 0, false;
      }
      return Returned, rfd, true;
    }

    /** A call that returns bytes has taken them off the front of the body. */
    lemma GotSome(b: Body, m0: nat, input0: seq<Char>, pending0: int, eof0: bool, rq0: Request, text0: Text,
                  fate: Fate, r: int, got: seq<Char>, trailer: int, count: nat)
      requires reader.Valid() && text0.chars != [] && text0.Fits() && fate == Returned && r > 0
      requires Came(b, m0, input0, pending0, eof0, rq0, text0, fate, r, got, trailer, count)
      ensures r == |got| && Valid() && reader.rq == rq0 && reader.text.Value() == text0
      ensures b == Prepend(got, Rest()) && input.eof == eof0
      ensures input.read + |Input()| == m0 + |input0| && |Input()| < |input0|
    {
      hide Rest, Trailers, HeadLeft, Input;
    }

    /** Any other call ends the body, whatever was read of it before. */
    lemma GotNone(b: Body, m1: nat, input1: seq<Char>, pending1: int, m0: nat, input0: seq<Char>, pending0: int,
                  eof0: bool, rq0: Request, text0: Text, fate: Fate, r: int, got: seq<Char>, trailer: int, count: nat)
      requires reader.Valid() && text0.chars != [] && text0.Fits() && (fate != Returned || r <= 0) && count > 0
      requires m1 + |input1| == m0 + |input0| && |input1| <= |input0|
      requires pending0 <= PENDING_EOF ==> pending1 == pending0 && input1 == input0
      requires Came(b, m1, input1, pending1, eof0, rq0, text0, fate, r, got, trailer, count)
      ensures got == [] && b.data == [] && Ended(b.end, m0, input0, pending0, eof0, rq0, text0, fate, r, trailer)
    {
      hide Rest, Trailers, HeadLeft;
    }

    /** Between chunks: a size line that ends the body, or cannot be one, is the end of the call. */
    method Boundary() returns (s: Scanned, fate: Fate, r: int, ghost trailer: int)
      requires Valid() && PENDING_EOF < pending <= 0 && IsChunked()
      modifies input, input.data, src, reader, reader.text, reader.text.data, this`pending
      ensures reader.Valid() && fate != Overruns
      ensures s == Malformed || (s.Line? && s.val == 0) ==>
                && (fate == Returned && input.read <= input.write ==> Valid()) && old(Rest()).data == []
                && Ended(old(Rest()).end, old(input.read), old(Input()), old(pending), old(input.eof), old(reader.rq),
                    old(reader.text.Value()), fate, r, trailer)
      ensures s == Partial || (s.Line? && s.val != 0) ==>
                && Valid() && input.eof == old(input.eof) && reader.rq == old(reader.rq)
                && reader.text.Value() == old(reader.text.Value())
                && input.read + |Input()| == old(input.read) + |old(Input())| && old(Rest()) == Rest()
      ensures s.Line? && s.val != 0 ==> |Input()| < |old(Input())|
      ensures s == Partial ==>
                && pending == old(pending) && input.read == old(input.read) && Input() == old(Input())
                && src.rest == old(src.rest)
                && (|input.Contents()| == input.Cap() ==> Rest() == Body([], Stalled))
                && (|input.Contents()| < input.Cap() && src.rest == [] ==> Rest() == Body([], Cut))
    {
      hide BodyOf, Window, HeadOf, HeadLeft, Trailers;
      trailer := 0;
      s := StartChunk();
      fate, r := Returned, -1;
      if s.Line? && s.val == 0 {
        fate, r, trailer := ReadTrailers(old(input.read), old(Input()), old(pending), old(input.eof));
      }
    }

    /** A body that is over gives nothing. */
    lemma OverEnds()
      requires Valid() && pending <= PENDING_EOF
      ensures Rest().data == []
      ensures Ended(Rest().end, input.read, Input(), pending, input.eof, reader.rq, reader.text.Value(), Returned, 0, 0)
    {
      hide BodyOf;
      BodyEnds(pending, IsChunked(), Input(), input.Cap());
    }

    /** The end of a body that is not chunked. */
    method EndCounted() returns (fate: Fate, r: int)
      requires Valid() && PENDING_EOF < pending <= 0 && !IsChunked()
      modifies this`pending
      ensures fate == Returned
      ensures Valid() && old(Rest()).data == []
      ensures Ended(old(Rest()).end, input.read, Input(), old(pending), input.eof, reader.rq, reader.text.Value(), fate,
              r, 0)
    {
      hide BodyOf;
      BodyEnds(pending, IsChunked(), Input(), input.Cap());
      pending := PENDING_EOF;
      return Returned, 0;
    }

    lemma EndCame(b: Body, m0: nat, input0: seq<Char>, pending0: int, eof0: bool, rq0: Request, text0: Text,
                  fate: Fate, r: int, trailer: int, count: nat)
      requires reader.Valid() && text0.chars != [] && text0.Fits()
      requires b.data == [] && Ended(b.end, m0, input0, pending0, eof0, rq0, text0, fate, r, trailer)
      ensures Came(b, m0, input0, pending0, eof0, rq0, text0, fate, r, [], trailer, count)
    {
      hide Ended;
    }

    lemma BytesCame(b: Body, m0: nat, input0: seq<Char>, pending0: int, r: nat, got: seq<Char>, count: nat)
      requires Valid() && r == |got| && b == Prepend(got, Rest()) && (r == 0 ==> count == 0 && b.data != [])
      requires input.read + |Input()| == m0 + |input0| && |Input()| + |got| <= |input0|
      ensures Came(b, m0, input0, pending0, input.eof, reader.rq, reader.text.Value(), Returned, r, got, 0, count)
    {
      hide Rest, Ended;
    }

    lemma DataLeft()
      requires Valid() && pending > 0 && Input() != []
      ensures Rest().data != []
    {
    }

    /** One turn of the loop between two chunks. It is not `done` when the size line is not complete yet. */
    method TurnBetween(buf: array?<Char>, count: nat)
        returns (done: bool, fate: Fate, r: int, ghost got: seq<Char>, ghost trailer: int)
      requires Valid() && PENDING_EOF < pending <= 0 && IsChunked()
      requires buf != null ==> buf != input.data && buf != reader.text.data && count <= buf.Length
      modifies input, input.data, src, reader, reader.text, reader.text.data, this`pending, buf
      ensures reader.Valid() && |got| <= count
      ensures done ==>
                && (fate == Returned && input.read <= input.write ==> Valid())
                && (buf != null ==> buf[..] == got + old(buf[|got|..]))
      ensures done ==> if fate == Overruns then buf != null && count >= input.Cap() else
                         Came(old(Rest()), old(input.read), old(Input()), old(pending), old(input.eof), old(reader.rq),
                           old(reader.text.Value()), fate, r, got, trailer, count)
      ensures !done ==>
                && Valid()
                && Unchanged(old(Rest()), old(input.read), old(Input()), old(pending), old(input.eof), old(reader.rq),
                             old(reader.text.Value()), old(src.rest))
                && (buf != null ==> buf[..] == old(buf[..]))
      ensures !done ==> && (|input.Contents()| == input.Cap() ==> Rest() == Body([], Stalled))
                        && (|input.Contents()| < input.Cap() && src.rest == [] ==> Rest() == Body([], Cut))
      decreases |Input()|, 0
    {
      hide BodyOf, Window, HeadOf, HeadLeft, Trailers, Ended, Came;
      ghost var b, m0, input0, pending0, eof0 := Rest(), input.read, Input(), pending, input.eof;
      ghost var rq0, text0 := reader.rq, reader.text.Value();
      done, got := true, [];
      var s;
      s, fate, r, trailer := Boundary();
      if s.Line? && s.val != 0 {
        ghost var m1, input1, pending1 := input.read, Input(), pending;
        fate, r, got, trailer := InRead(buf, count);
        if fate != Overruns {
          CameWidens(b, m1, input1, pending1, m0, input0, pending0, eof0, rq0, text0, fate, r, got, trailer, count);
        }
      } else if s == Partial {
        done := false;
      } else {
        EndCame(b, m0, input0, pending0, eof0, rq0, text0, fate, r, trailer, count);
      }
    }

    /** Nothing has been read or taken since. */
    ghost predicate Unchanged(b: Body, m0: nat, input0: seq<Char>, pending0: int, eof0: bool, rq0: Request, text0: Text,
                              rest0: seq<Char>)
      requires input.Valid() && reader.Valid()
      reads this, input, input.data, src, reader, reader.text, reader.text.data
    {
      && Rest() == b && input.read == m0 && Input() == input0 && pending == pending0 && input.eof == eof0
      && reader.rq == rq0 && reader.text.Value() == text0 && src.rest == rest0
    }

    /** One turn of the loop inside a chunk that the ring has bytes of. */
    method TurnChunk(buf: array?<Char>, count: nat) returns (fate: Fate, r: int, ghost got: seq<Char>)
      requires Valid() && pending > 0 && input.Contents() != []
      requires buf != null ==> buf != input.data && buf != reader.text.data && count <= buf.Length
      modifies input, this`pending, buf
      ensures Valid() && |got| <= count && (fate == Overruns <==> old(CopyOverruns(buf, count)))
      ensures fate == Overruns ==> buf != null && count >= input.Cap()
      ensures fate != Overruns ==>
                Came(old(Rest()), old(input.read), old(Input()), old(pending), old(input.eof), old(reader.rq),
                  old(reader.text.Value()), fate, r, got, 0, count)
      ensures buf != null ==> buf[..] == got + old(buf[|got|..])
    {
      hide BodyOf, Window, Came, Prepend, Slot;
      ghost var b, m0, input0, pending0 := Rest(), input.read, Input(), pending;
      DataLeft();
      fate, r, got := TakeChunk(buf, count);
      if fate != Overruns {
        BytesCame(b, m0, input0, pending0, r, got, count);
      }
    }

    /** One turn of the loop of `minute_httpd_in_read`, up to the refill. */
    method Turn(buf: array?<Char>, count: nat)
        returns (done: bool, fate: Fate, r: int, ghost got: seq<Char>, ghost trailer: int)
      requires Valid() && PENDING_EOF < pending
      requires buf != null ==> buf != input.data && buf != reader.text.data && count <= buf.Length
      modifies input, input.data, src, reader, reader.text, reader.text.data, this`pending, buf
      ensures reader.Valid() && |got| <= count
      ensures done ==>
                && (fate == Returned && input.read <= input.write ==> Valid())
                && (buf != null ==> buf[..] == got + old(buf[|got|..]))
      ensures done ==> if fate == Overruns then buf != null && count >= input.Cap() else
                         Came(old(Rest()), old(input.read), old(Input()), old(pending), old(input.eof), old(reader.rq),
                           old(reader.text.Value()), fate, r, got, trailer, count)
      ensures !done ==>
                && Valid()
                && Unchanged(old(Rest()), old(input.read), old(Input()), old(pending), old(input.eof), old(reader.rq),
                             old(reader.text.Value()), old(src.rest))
                && (buf != null ==> buf[..] == old(buf[..]))
      ensures old(pending) > 0 && old(input.Contents()) != [] ==>
                done && (fate == Overruns <==> old(CopyOverruns(buf, count)))
      ensures !done ==> pending > 0 || IsChunked()
      ensures !done && pending > 0 ==> input.Contents() == []
      ensures !done && pending <= 0 ==> && (|input.Contents()| == input.Cap() ==> Rest() == Body([], Stalled))
                                        && (|input.Contents()| < input.Cap() && src.rest == [] ==>
                                             Rest() == Body([], Cut))
      decreases |Input()|, 1
    {
      hide BodyOf, Window, HeadOf, HeadLeft, Trailers, Ended, Came, Prepend, CopyOverruns;
      ghost var b, m0, input0, pending0, eof0 := Rest(), input.read, Input(), pending, input.eof;
      ghost var rq0, text0 := reader.rq, reader.text.Value();
      done, got, trailer, fate, r := true, [], 0, Returned, 0;
      if pending > 0 {
        if input.read < input.write {
          fate, r, got := TurnChunk(buf, count);
        } else {
          done := false;
        }
      } else if IsChunked() {
        done, fate, r, got, trailer := TurnBetween(buf, count);
      } else {
        fate, r := EndCounted();
        EndCame(b, m0, input0, pending0, eof0, rq0, text0, fate, r, 0, count);
      }
    }

    /** `minute_httpd_in_read` with room for `count` bytes at `buf`, or dropping them. */
    method InRead(buf: array?<Char>, count: nat) returns (fate: Fate, r: int, ghost got: seq<Char>, ghost trailer: int)
      requires Valid()
      requires buf != null ==> buf != input.data && buf != reader.text.data && count <= buf.Length
      modifies input, input.data, src, reader, reader.text, reader.text.data, this`pending, buf
      ensures reader.Valid() && |got| <= count && (fate == Returned && input.read <= input.write ==> Valid())
      ensures if fate == Overruns then buf != null && count >= input.Cap() else
                Came(old(Rest()), old(input.read), old(Input()), old(pending), old(input.eof), old(reader.rq),
                  old(reader.text.Value()),
                  fate, r, got, trailer, count)
      ensures old(pending) > 0 && old(input.Contents()) != [] ==> (fate == Overruns <==> old(CopyOverruns(buf, count)))
      ensures buf != null ==> buf[..] == got + old(buf[|got|..])
      decreases |Input()|, 2
    {
      hide BodyOf, Window, HeadOf, HeadLeft, Trailers, Ended, Came, Prepend;
      got, trailer := [], 0;
      if pending <= PENDING_EOF {
        OverEnds();
        EndCame(Rest(), input.read, Input(), pending, input.eof, reader.rq, reader.text.Value(), Returned, 0, 0, count);
        return Returned, 0, got, trailer;
      }
      ghost var b, m0, input0, pending0, eof0 := Rest(), input.read, Input(), pending, input.eof;
      ghost var rq0, text0 := reader.rq, reader.text.Value();
      while true
        invariant Valid() && Input() == input0 && Rest() == b && pending == pending0
        invariant reader.rq == rq0 && reader.text.Value() == text0 && input.read == m0 && input.eof == eof0
        invariant buf != null ==> buf[..] == old(buf[..])
        invariant old(pending) > 0 && old(input.Contents()) != [] ==>
                    input.Contents() != [] && CopyOverruns(buf, count) == old(CopyOverruns(buf, count))
        decreases |src.rest|
      {
        var done;
        done, fate, r, got, trailer := Turn(buf, count);
        if done {
          return;
        }
        var more;
        fate, r, more := ReadMore();
        if !more {
          got, trailer := [], 0;
          EndCame(b, m0, input0, pending0, eof0, rq0, text0, fate, r, 0, count);
          return;
        }
      }
    }

    /** `minute_httpd_in_discard`: drops whatever is left of the body. */
    method Discard() returns (fate: Fate, r: int, ghost trailer: int)
      requires Valid()
      modifies input, input.data, src, reader, reader.text, reader.text.data, this`pending
      ensures reader.Valid() && (fate == Returned && input.read <= input.write ==> Valid())
      ensures Ended(old(Rest()).end, old(input.read), old(Input()), old(pending), old(input.eof), old(reader.rq),
                old(reader.text.Value()), fate, r, trailer)
    {
      hide BodyOf, Window, HeadOf, HeadLeft, Ended, Came;
      ghost var b, got: seq<Char> := Rest(), [];
      while true
        invariant Valid() && b.end == Rest().end && input.read + |Input()| == old(input.read + |Input()|)
        invariant |Input()| <= old(|Input()|) && input.eof == old(input.eof)
        invariant old(pending) <= PENDING_EOF ==> pending == old(pending) && Input() == old(Input())
        invariant reader.rq == old(reader.rq) && reader.text.Value() == old(reader.text.Value())
        decreases |Input()|
      {
        BodyEnds(pending, IsChunked(), Input(), input.Cap());
        ghost var rest, m1, input1, pending1 := Rest(), input.read, Input(), pending;
        var room := input.data.Length;
        fate, r, got, trailer := InRead(null, room);
        if fate != Returned || r <= 0 {
          GotNone(rest, m1, input1, pending1, old(input.read), old(Input()), old(pending), old(input.eof),
            old(reader.rq),
            old(reader.text.Value()), fate, r, got, trailer, room);
          return;
        }
        GotSome(rest, m1, input1, pending1, old(input.eof), old(reader.rq), old(reader.text.Value()), fate, r, got,
          trailer, room);
      }
    }

    /** A whole body read into `buf`, with the room for each call chosen by `counts`, and then as much as fits. */
    method ReadToEnd(buf: array<Char>, counts: seq<nat>)
        returns (all: seq<Char>, fate: Fate, r: int, ghost trailer: int)
      requires Valid() && buf != input.data && buf != reader.text.data
      requires 0 < buf.Length < input.Cap() && forall i :: 0 <= i < |counts| ==> 0 < counts[i] <= buf.Length
      modifies input, input.data, src, reader, reader.text, reader.text.data, this`pending, buf
      ensures reader.Valid() && all == old(Rest()).data
      ensures Ended(old(Rest()).end, old(input.read), old(Input()), old(pending), old(input.eof), old(reader.rq),
                old(reader.text.Value()), fate, r, trailer)
    {
      hide BodyOf, Window, HeadOf, HeadLeft, Ended, Came;
      ghost var b, got: seq<Char> := Rest(), [];
      all := [];
      var i := 0;
      while true
        invariant Valid() && b == Prepend(all, Rest()) && input.read + |Input()| == old(input.read + |Input()|)
        invariant |Input()| <= old(|Input()|) && input.eof == old(input.eof)
        invariant old(pending) <= PENDING_EOF ==> pending == old(pending) && Input() == old(Input())
        invariant reader.rq == old(reader.rq) && reader.text.Value() == old(reader.text.Value())
        decreases |Input()|
      {
        BodyEnds(pending, IsChunked(), Input(), input.Cap());
        ghost var rest, m1, input1, pending1 := Rest(), input.read, Input(), pending;
        var room := if i < |counts| then counts[i] else buf.Length;
        fate, r, got, trailer := InRead(buf, room);
        i := i + 1;
        if fate != Returned || r <= 0 {
          GotNone(rest, m1, input1, pending1, old(input.read), old(Input()), old(pending), old(input.eof),
            old(reader.rq),
            old(reader.text.Value()), fate, r, got, trailer, room);
          return;
        }
        GotSome(rest, m1, input1, pending1, old(input.eof), old(reader.rq), old(reader.text.Value()), fate, r, got,
          trailer, room);
        PrependTwice(all, got, Rest());
        all := all + buf[..r];
      }
    }
  }
}
