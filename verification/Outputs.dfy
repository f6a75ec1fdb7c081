/** Response output: the buffering, optionally chunked writer of libhttpd/httpd.c, and its round trip with the
    decoder. */
module Outputs {
  import opened Chars
  import opened Rings
  import opened Requests
  import opened Chunks

  const EOL: seq<Char> := [CR, LF]

  /** The digits `snprintf` prints for "%x". */
  function Hex(n: nat): (s: seq<Char>)
    ensures s != []
  {
    if n < 16 then [LowerHex(n)] else Hex(n / 16) + [LowerHex(n % 16)]
  }

  /** A chunk on the wire. */
  function Frame(d: seq<Char>): seq<Char> { Hex(|d|) + EOL + (d + EOL) }

  function Frames(ds: seq<seq<Char>>): seq<Char> {
    if ds == [] then [] else Frames(ds[..|ds| - 1]) + Frame(ds[|ds| - 1])
  }

  function Concat(ds: seq<seq<Char>>): seq<Char> {
    if ds == [] then [] else Concat(ds[..|ds| - 1]) + ds[|ds| - 1]
  }

  /** The size text fits its 8-byte buffer below this. */
  const SIZE_LIMIT := 0x10_0000

  /** What a framed vector of the payload `p` leaves on the wire when the first `writev` takes `n` bytes of it. */
  function Sent(p: seq<Char>, n: nat): seq<Char>
    requires n <= |Frame(p)|
  {
    var prefix := Hex(|p|) + EOL;
    if |prefix| <= n < |p| then prefix + p else Frame(p)[..n]
  }

  /** What of the ring's bytes `q` stays in the ring when a framed payload of `total` bytes is first written up to
      `n`. */
  function Kept(q: seq<Char>, total: nat, n: nat): seq<Char> {
    var prefix := |Hex(total)| + 2;
    if n < prefix then q else if n < total then [] else q[Min(n - prefix, |q|)..]
  }

  class Writer {
    const out: Ring
    const sink: Sink

    constructor (out: Ring, sink: Sink)
      ensures this.out == out && this.sink == sink
    {
      this.out, this.sink := out, sink;
    }

    /** The vectored write of `head`, the ring, `buf` and `tail`. What it takes of the ring leaves the ring;
        `taken` is how much it takes of `buf` (and perhaps of `tail`). */
    method Send(head: seq<Char>, buf: seq<Char>, tail: seq<Char>) returns (n: nat, taken: nat)
      requires out.Valid() && head + (out.Contents() + buf) + tail != []
      modifies out`read, sink
      ensures out.Valid() && out.write == old(out.write)
      ensures var v := head + (old(out.Contents()) + buf) + tail;
              1 <= n <= |v| && (sink.whole ==> n == |v|) && sink.sent == old(sink.sent) + v[..n]
      ensures var used := |old(out.Contents())|;
              if n < |head| then out.Contents() == old(out.Contents())
              else
                && out.Contents() == old(out.Contents())[Min(n - |head|, used)..]
                && taken == if n < |head| + used then 0 else n - |head| - used
    {
      hide Window;
      var a, b, segments := out.Gather();
      ghost var q := out.Contents();
      var used := out.write - out.read;
      var vector := head + (Stretch(out.data[..], a) + Stretch(out.data[..], b)) + buf + tail;
      assert vector == head + (q + buf) + tail;
      n := sink.Writev(vector);
      taken := 0;
      if n < |head| {
        return;
      }
      if n < |head| + used {
        out.Skip(n - |head|);
      } else {
        out.Skip(used);
        taken := n - |head| - used;
      }
    }

    /** `minute_httpd_chunk` on a plain connection: short writes are retried until everything is out. */
    method Plain(buf: seq<Char>) returns (r: nat)
      requires out.Valid()
      modifies out`read, sink
      ensures out.Valid() && out.write == old(out.write) && out.Contents() == []
      ensures r == |old(out.Contents()) + buf| && sink.sent == old(sink.sent) + (old(out.Contents()) + buf)
      decreases |out.Contents()| + |buf|
    {
      hide Window;
      ghost var q, sent := out.Contents(), sink.sent;
      var total := out.write - out.read + |buf|;
      if total == 0 {
        return 0;
      }
      NoFrame(q + buf);
      var n, taken := Send([], buf, []);
      r := n;
      if n < total {
        Retried(sent, [], q, buf, [], n);
        var rr := Plain(buf[taken..]);
        r := r + rr;
      }
    }

    /** `minute_httpd_chunk` with chunked coding: one frame in one vector. A short write is retried unframed. */
    method Chunk(buf: seq<Char>) returns (r: int, ghost first: nat)
      requires out.Valid() && |out.Contents()| + |buf| < SIZE_LIMIT
      modifies out`read, sink
      ensures out.Valid() && out.write == old(out.write)
      ensures var p := old(out.Contents()) + buf;
              if p == [] then r == 0 && sink.sent == old(sink.sent) && out.Contents() == []
              else
                && 1 <= first <= |Frame(p)| && (sink.whole ==> first == |Frame(p)|)
                && sink.sent == old(sink.sent) + Sent(p, first)
                && r == (if first < |Hex(|p|)| + 2 then -1 else if first < |p| then |Hex(|p|)| + 2 + |p| else first)
                && out.Contents() == Kept(old(out.Contents()), |p|, first)
    {
      hide Window, Hex;
      ghost var q, sent := out.Contents(), sink.sent;
      first := 0;
      var total := out.write - out.read + |buf|;
      if total == 0 {
        return 0, first;
      }
      var head := Hex(total) + EOL;
      ghost var v := head + (q + buf) + EOL;
      assert v == Frame(q + buf);
      var n, taken := Send(head, buf, EOL);
      first, r := n, n;
      if n < |head| {
        return -1, first;
      }
      if n < total {
        Retried(sent, head, q, buf, EOL, n);
        var rr := Plain(buf[taken..]);
        assert sink.sent == sent + (head + (q + buf));
        r := r + rr;
      }
    }

    /** `minute_httpd_output`: buffered while it fits, otherwise sent with the ring. */
    method Output(append: seq<Char>, chunked: bool) returns (ghost framed: seq<seq<Char>>)
      requires out.Valid() && append != [] && (chunked ==> sink.whole && out.Cap() + |append| < SIZE_LIMIT)
      modifies out, out.data, sink
      ensures out.Valid()
      ensures chunked ==>
                Emitted(old(sink.sent), framed) && old(out.Contents()) + append == Concat(framed) + out.Contents()
      ensures !chunked ==> framed == [] && sink.sent + out.Contents() == old(sink.sent + out.Contents()) + append
      ensures if |old(out.Contents())| + |append| <= out.Cap() then
                sink.sent == old(sink.sent) && out.Contents() == old(out.Contents()) + append
              else
                out.Contents() == [] && (chunked ==> framed == [old(out.Contents()) + append])
    {
      hide Window, Hex, Kept, Sent, Concat, Frame, Frames;
      ghost var q, sent := out.Contents(), sink.sent;
      framed := [];
      NoFrames();
      if out.data.Length - (out.write - out.read) < |append| {
        if chunked {
          ghost var first;
          var r: int;
          r, first := Chunk(append);
          framed := [q + append];
          OneFrame(q, append, first);
        } else {
          var r := Plain(append);
          assert sent + (q + append) + [] == sent + q + append;
        }
      } else {
        var r := out.Write(append);
        assert [] + (q + append) == q + append && sent + [] == sent && sent + q + append == sent + (q + append);
      }
    }

    /** `minute_httpd_flush`. */
    method Flush(chunked: bool) returns (ghost framed: seq<seq<Char>>)
      requires out.Valid() && (chunked ==> sink.whole && out.Cap() < SIZE_LIMIT)
      modifies out`read, sink
      ensures out.Valid() && out.Contents() == []
      ensures chunked ==> Emitted(old(sink.sent), framed) && old(out.Contents()) == Concat(framed)
      ensures !chunked ==> sink.sent == old(sink.sent) + old(out.Contents())
    {
      hide Window, Hex, Kept, Sent, Concat, Frame, Frames;
      ghost var q := out.Contents();
      framed := [];
      NoFrames();
      assert q + [] == q;
      if chunked {
        ghost var first;
        var r: int;
        r, first := Chunk([]);
        if q != [] {
          framed := [q];
          OneFrame(q, [], first);
        }
      } else {
        var r := Plain([]);
      }
    }

    /** Since `sent`, the non-empty chunks `framed` went out. */
    ghost predicate Emitted(sent: seq<Char>, framed: seq<seq<Char>>)
      reads sink
    {
      OnWire(sent, sink.sent, framed)
    }

    /** `minute_httpd_chunk_end`. */
    method ChunkEnd(chunked: bool)
      requires chunked ==> sink.whole
      modifies sink
      ensures sink.sent == old(sink.sent) + if chunked then LAST else []
    {
      if chunked {
        var n := sink.Writev(LAST);
        assert LAST[..n] == LAST;
      }
    }
  }

  /** Between `sent` and `sent'`, the non-empty chunks `framed` went out. */
  ghost predicate OnWire(sent: seq<Char>, sent': seq<Char>, framed: seq<seq<Char>>) {
    sent' == sent + Frames(framed) && [] !in framed && forall d :: d in framed ==> |d| < SIZE_LIMIT
  }

  const LAST: seq<Char> := ['0' as int, CR, LF, CR, LF]

  /** A frame that goes out whole is one chunk and empties the ring. */
  lemma OneFrame(q: seq<Char>, buf: seq<Char>, n: nat)
    requires q + buf != [] && n == |Frame(q + buf)|
    ensures Sent(q + buf, n) == Frames([q + buf]) && Concat([q + buf]) == q + buf
    ensures Kept(q, |q + buf|, n) == []
  {
    var p := q + buf;
    FrameWholeIff(p, n);
    var ps: seq<seq<Char>> := [p];
    assert |ps[..0]| == 0 && Frames(ps) == Frame(p) && Concat(ps) == p;
  }

  lemma NoFrame(p: seq<Char>)
    ensures [] + p + [] == p
  {
  }

  lemma NoFrames()
    ensures var none: seq<seq<Char>> := []; Frames(none) == [] && Concat(none) == []
  {
  }

  /** What a short write has not taken of the payload is what is left of the ring and the data. */
  lemma Retried(sent: seq<Char>, head: seq<Char>, q: seq<Char>, buf: seq<Char>, tail: seq<Char>, n: nat)
    requires |head| <= n < |q| + |buf|
    ensures var (v, k, taken) := (head + (q + buf) + tail, n - |head|,
            if n < |head| + |q| then 0 else n - |head| - |q|);
            && taken <= |buf| && q[Min(k, |q|)..] + buf[taken..] == (q + buf)[k..] != []
            && sent + v[..n] + (q + buf)[k..] == sent + (head + (q + buf))
  {
    var v, k, p := head + (q + buf) + tail, n - |head|, q + buf;
    assert v[..n] == head + p[..k];
    assert p[..k] + p[k..] == p;
    assert sent + v[..n] + p[k..] == sent + (v[..n] + p[k..]);
  }

  /** A frame goes out whole exactly when the first write takes all of it: a retry never sends the closing line end. */
  lemma FrameWholeIff(p: seq<Char>, n: nat)
    requires n <= |Frame(p)|
    ensures Sent(p, n) == Frame(p) <==> n == |Frame(p)|
  {
    assert |Frame(p)| == |Hex(|p|)| + 2 + |p| + 2;
    if n == |Frame(p)| {
      assert Frame(p)[..n] == Frame(p);
    }
  }

  // ---------------------------------------------------------------- a whole response body

  /** What an application does with its output: write some bytes, or flush. */
  datatype Op = Write(bytes: seq<Char>) | Flush

  function Written(ops: seq<Op>): seq<Char> {
    if ops == [] then []
    else Written(ops[..|ops| - 1]) + match ops[|ops| - 1] case Write(bytes) => bytes case Flush => []
  }

  ghost predicate ValidOps(ops: seq<Op>, cap: nat, chunked: bool) {
    forall op :: op in ops && op.Write? ==> op.bytes != [] && (chunked ==> cap + |op.bytes| < SIZE_LIMIT)
  }

  lemma Associates<T>(a: seq<T>, b: seq<T>, c: seq<T>)
    ensures (a + b) + c == a + (b + c)
  {
  }

  lemma {:induction false} FramesJoin(a: seq<seq<Char>>, b: seq<seq<Char>>)
    ensures Frames(a + b) == Frames(a) + Frames(b) && Concat(a + b) == Concat(a) + Concat(b)
    decreases |b|
  {
    hide Frame;
    if b == [] {
      assert a + b == a;
    } else {
      var b', d := b[..|b| - 1], b[|b| - 1];
      assert (a + b)[..|a + b| - 1] == a + b';
      FramesJoin(a, b');
      Associates(Frames(a), Frames(b'), Frame(d));
      Associates(Concat(a), Concat(b'), d);
    }
  }

  lemma Rotate(a: seq<Char>, q: seq<Char>, x: seq<Char>, b: seq<Char>, r: seq<Char>)
    requires q + x == b + r
    ensures (a + q) + x == (a + b) + r
  {
    assert (a + q) + x == a + (q + x) && (a + b) + r == a + (b + r);
  }

  /** A response body, whatever the application writes and when it flushes. Chunked, on a descriptor that takes whole
      vectors, it is non-empty chunks that hold exactly what was written, and one terminator; otherwise it is what was
      written. */
  method Respond(w: Writer, ops: seq<Op>, chunked: bool) returns (ghost framed: seq<seq<Char>>)
    requires w.out.Valid() && w.out.Contents() == [] && ValidOps(ops, w.out.Cap(), chunked)
    requires chunked ==> w.sink.whole && w.out.Cap() < SIZE_LIMIT
    modifies w.out, w.out.data, w.sink
    ensures chunked ==>
              && w.sink.sent == old(w.sink.sent) + Frames(framed) + LAST
              && Concat(framed) == Written(ops) && [] !in framed && forall d :: d in framed ==> |d| < SIZE_LIMIT
    ensures !chunked ==> w.sink.sent == old(w.sink.sent) + Written(ops)
  {
    hide Window, Frame, Frames, Concat, Written, OnWire;
    ghost var sent := w.sink.sent;
    framed := [];
    RespondStarts(w, sent);
    for i := 0 to |ops|
      invariant w.out.Valid() && Responded(w, sent, framed, Written(ops[..i]), chunked)
    {
      ghost var more: seq<seq<Char>>;
      ghost var q, sent1 := w.out.Contents(), w.sink.sent;
      ghost var x: seq<Char> := if ops[i].Write? then ops[i].bytes else [];
      WrittenOne(ops, i);
      assert q + [] == q && ops[i] in ops;
      match ops[i] {
        case Write(bytes) => more := w.Output(bytes, chunked);
        case Flush => more := w.Flush(chunked);
      }
      assert !chunked ==> w.sink.sent + w.out.Contents() == sent1 + q + x by { assert sent1 + q + [] == sent1 + q; }
      RespondGoesOn(w, sent, framed, Written(ops[..i]), chunked, sent1, q, x, more);
      framed := framed + more;
    }
    assert ops[..|ops|] == ops;
    ghost var q, sent1 := w.out.Contents(), w.sink.sent;
    ghost var more := w.Flush(chunked);
    assert q + [] == q == q + w.out.Contents() && Written(ops) + [] == Written(ops);
    RespondGoesOn(w, sent, framed, Written(ops), chunked, sent1, q, [], more);
    framed := framed + more;
    RespondEnds(w, sent, framed, Written(ops), chunked);
    w.ChunkEnd(chunked);
  }

  /** What has been written is out, in chunks or plain, but for what the ring holds. */
  ghost predicate Responded(w: Writer, sent: seq<Char>, framed: seq<seq<Char>>, written: seq<Char>, chunked: bool)
    requires w.out.Valid()
    reads w.out, w.out.data, w.sink
  {
    if chunked then w.Emitted(sent, framed) && Concat(framed) + w.out.Contents() == written
    else w.sink.sent + w.out.Contents() == sent + written
  }

  lemma RespondStarts(w: Writer, sent: seq<Char>)
    requires w.out.Valid() && w.out.Contents() == [] && sent == w.sink.sent
    ensures forall chunked :: Responded(w, sent, [], Written([]), chunked)
  {
    NoFrames();
    assert sent + [] == sent && [] + w.out.Contents() == [];
  }

  lemma WrittenOne(ops: seq<Op>, i: nat)
    requires i < |ops|
    ensures Written(ops[..i + 1]) == Written(ops[..i]) + if ops[i].Write? then ops[i].bytes else []
  {
    assert ops[..i + 1][..i] == ops[..i];
  }

  /** After another write of `x`, or a flush. `q` was in the ring, and `more` went out. */
  lemma RespondGoesOn(w: Writer, sent: seq<Char>, framed: seq<seq<Char>>, written: seq<Char>, chunked: bool,
                      sent1: seq<Char>, q: seq<Char>, x: seq<Char>, more: seq<seq<Char>>)
    requires w.out.Valid()
    requires if chunked then
               && OnWire(sent, sent1, framed) && w.Emitted(sent1, more) && Concat(framed) + q == written
               && q + x == Concat(more) + w.out.Contents()
             else sent1 + q == sent + written && w.sink.sent + w.out.Contents() == sent1 + q + x
    ensures Responded(w, sent, framed + more, written + x, chunked)
  {
    hide Frames, Concat;
    if chunked {
      FramesJoin(framed, more);
      assert sent + Frames(framed) + Frames(more) == sent + Frames(framed + more);
      Rotate(Concat(framed), q, x, Concat(more), w.out.Contents());
    } else {
      assert sent1 + q + x == sent + (written + x);
    }
  }

  lemma RespondEnds(w: Writer, sent: seq<Char>, framed: seq<seq<Char>>, written: seq<Char>, chunked: bool)
    requires w.out.Valid() && w.out.Contents() == [] && Responded(w, sent, framed, written, chunked)
    ensures if chunked then
              && w.sink.sent == sent + Frames(framed) && [] !in framed && (forall d :: d in framed ==> |d| < SIZE_LIMIT)
              && Concat(framed) == written
            else w.sink.sent == sent + written
  {
    assert Concat(framed) + [] == Concat(framed) && w.sink.sent + [] == w.sink.sent;
  }

  // ---------------------------------------------------------------- the decoder reads it back

  function ChunkOf(d: seq<Char>): Chunk { Chunk.Chunk(Hex(|d|), [], false, d, false) }

  function ChunksOf(ds: seq<seq<Char>>): seq<Chunk> {
    if ds == [] then [] else ChunksOf(ds[..|ds| - 1]) + [ChunkOf(ds[|ds| - 1])]
  }

  lemma {:induction false} HexAppends(v: nat, a: seq<Char>, c: Char)
    requires AllHex(a) && IsHex(c)
    ensures AllHex(a + [c]) && HexFrom(v, a + [c]) == HexFrom(v, a) * 16 + HexValue(c)
    decreases |a|
  {
    if a == [] {
      assert a + [c] == [c] && [c][1..] == [];
    } else {
      assert (a + [c])[1..] == a[1..] + [c];
      HexAppends(v * 16 + HexValue(a[0]), a[1..], c);
    }
  }

  /** Hex parsing undoes hex printing. */
  lemma {:induction false} HexParses(n: nat)
    ensures AllHex(Hex(n)) && HexFrom(0, Hex(n)) == n
    decreases n
  {
    if n < 16 {
      HexAppends(0, [], LowerHex(n));
      assert [] + [LowerHex(n)] == Hex(n);
    } else {
      HexParses(n / 16);
      HexAppends(0, Hex(n / 16), LowerHex(n % 16));
    }
  }

  function Pow16(k: nat): nat { if k == 0 then 1 else 16 * Pow16(k - 1) }

  lemma LowerHexIs(n: nat) requires n < 16 ensures LowerHex(n) == "0123456789abcdef"[n] as int {
  }

  /** What "%x" prints: digits in lower case, and no zero in front. With `HexParses`, there is one such text only. */
  lemma {:induction false} HexPlain(n: nat)
    ensures forall c :: c in Hex(n) ==> OneOf(c, "0123456789abcdef")
    ensures n > 0 ==> Hex(n)[0] != '0' as int
    decreases n
  {
    LowerHexIs(n % 16);
    if n >= 16 {
      HexPlain(n / 16);
    }
  }

  lemma {:induction false} HexShort(n: nat, k: nat)
    requires 0 < k && n < Pow16(k)
    ensures |Hex(n)| <= k
    decreases k
  {
    if n >= 16 {
      HexShort(n / 16, k - 1);
    }
  }

  lemma {:induction false} HexLong(n: nat, k: nat)
    requires n >= Pow16(k)
    ensures |Hex(n)| > k
    decreases k
  {
    if k > 0 {
      HexLong(n / 16, k - 1);
    }
  }

  /** The size line, with the NUL `snprintf` puts behind it, fits its buffer of 8 bytes exactly below the limit. */
  lemma SizeTextFitsIff(total: nat)
    ensures |Hex(total) + EOL| + 1 <= 8 <==> total < SIZE_LIMIT
  {
    assert Pow16(5) == SIZE_LIMIT;
    if total < SIZE_LIMIT {
      HexShort(total, 5);
    } else {
      HexLong(total, 5);
    }
  }

  lemma {:induction false} ChunksJoin(a: seq<Chunk>, c: Chunk)
    ensures PrintChunks(a + [c]) == PrintChunks(a) + PrintChunk(c) && ChunkData(a + [c]) == ChunkData(a) + c.data
    decreases |a|
  {
    hide PrintChunk;
    if a == [] {
      assert a + [c] == [c] && [c][1..] == [];
    } else {
      var t := a[1..];
      assert (a + [c])[1..] == t + [c];
      ChunksJoin(t, c);
      assert PrintChunk(a[0]) + (PrintChunks(t) + PrintChunk(c)) == PrintChunks(a) + PrintChunk(c);
      assert a[0].data + (ChunkData(t) + c.data) == ChunkData(a) + c.data;
    }
  }

  lemma {:induction false} FramesAreChunks(ds: seq<seq<Char>>)
    ensures PrintChunks(ChunksOf(ds)) == Frames(ds) && ChunkData(ChunksOf(ds)) == Concat(ds)
    decreases |ds|
  {
    if ds != [] {
      var d := ds[|ds| - 1];
      FramesAreChunks(ds[..|ds| - 1]);
      ChunksJoin(ChunksOf(ds[..|ds| - 1]), ChunkOf(d));
      assert PrintChunk(ChunkOf(d)) == Frame(d);
    }
  }

  lemma ChunkValid(d: seq<Char>, cap: nat)
    requires 0 < |d| < SIZE_LIMIT && cap >= 9
    ensures ValidChunk(ChunkOf(d), cap)
  {
    HexParses(|d|);
    assert Pow16(1) == 16;
    assert Pow16(2) == 0x100;
    assert Pow16(3) == 0x1000;
    assert Pow16(4) == 0x1_0000;
    assert Pow16(5) == 0x10_0000;
    HexShort(|d|, 5);
  }

  lemma {:induction false} ChunksValid(ds: seq<seq<Char>>, cap: nat)
    requires cap >= 9 && [] !in ds && forall d :: d in ds ==> |d| < SIZE_LIMIT
    ensures forall i :: 0 <= i < |ChunksOf(ds)| ==> ValidChunk(ChunksOf(ds)[i], cap)
    decreases |ds|
  {
    if ds != [] {
      assert ds[|ds| - 1] in ds;
      ChunksValid(ds[..|ds| - 1], cap);
      ChunkValid(ds[|ds| - 1], cap);
    }
  }

  /** What the writer emits, the decoder delivers: exactly the bytes written, up to the last-chunk line. */
  lemma EmittedBodyDecodes(framed: seq<seq<Char>>, rest: seq<Char>, cap: nat)
    requires cap >= 9 && [] !in framed && forall d :: d in framed ==> |d| < SIZE_LIMIT
    ensures BodyOf(PENDING_INIT, true, Frames(framed) + LAST + rest, cap) == Body(Concat(framed), LastChunk(EOL + rest))
  {
    var b := Chunked(ChunksOf(framed), ['0' as int], [], false);
    ChunksValid(framed, cap);
    FramesAreChunks(framed);
    assert b.size[1..] == [] && HexFrom(0, b.size) == 0;
    assert PrintBody(b) + (EOL + rest) == Frames(framed) + LAST + rest;
    ChunkedBodyDecodes(b, EOL + rest, cap);
  }
}
