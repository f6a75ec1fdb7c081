/** `minute_httpd_read_request`: reading a head through a ring of any size, from input cut anyhow. */
module Heads {
  import opened Chars
  import opened Rings
  import opened TextInts
  import opened Patricia
  import opened Requests
  import opened Reader

  /** How reading a head ends: complete, rejected with a status, held up by a full ring, cut short, or out of bounds. */
  datatype HeadEnd = Complete(k: Parser) | Rejected(status: nat, k: Parser) | TooLong(k: Parser) | Closed(k: Parser)
      | Faulted

  function EndOf(v: Verdict): HeadEnd {
    match v
    case More(k) => Closed(k)
    case Done(k) => Complete(k)
    case Fail(status, k) => Rejected(status, k)
    case OutOfBounds => Faulted
  }

  /** The bytes the parser still holds on to fill the ring. */
  predicate Full(k: Parser, cap: nat) { k.m >= k.b + cap }

  /** What a head at the start of `cs` comes to through a ring of `cap` bytes. It does not say how `cs` is cut. */
  function ReadHead(k: Parser, cs: seq<Char>, cap: nat): (e: HeadEnd)
    requires Suspendable(k)
    ensures e.Complete? ==> k.m < e.k.m <= k.m + |cs|
    ensures !e.Faulted? ==> e.k.text.chars != []
    ensures e.Rejected? ==> e.status >= 400
    decreases |cs|
  {
    if Full(k, cap) then TooLong(k)
    else if cs == [] then Closed(k)
    else
      var v := Step(k, cs[0]);
      if v.More? then ReadHead(v.k, cs[1..], cap) else EndOf(v)
  }

  /** The same when the ring may already be marked as the end of input. */
  function HeadOf(k: Parser, cs: seq<Char>, cap: nat, eof: bool): (e: HeadEnd)
    requires Suspendable(k)
    ensures !e.Faulted? ==> e.k.text.chars != []
    ensures e.Rejected? ==> e.status >= 400
  {
    if eof && cs != [] then EndOf(ReadVerdict(k, cs, true)) else ReadHead(k, cs, cap)
  }

  // ---------------------------------------------------------------- against one call over the whole input

  lemma {:induction false} HeadMatchesRun(k: Parser, cs: seq<Char>, cap: nat)
    requires Suspendable(k)
    ensures ReadHead(k, cs, cap).TooLong? || ReadHead(k, cs, cap) == EndOf(Run(k, cs))
    decreases |cs|
  {
    if !Full(k, cap) && cs != [] && Step(k, cs[0]).More? {
      HeadMatchesRun(Step(k, cs[0]).k, cs[1..], cap);
    }
  }

  // ---------------------------------------------------------------- resuming

  /** A read that stays inside the ring and then waits can be resumed. */
  lemma {:induction false} HeadResumes(k: Parser, a: seq<Char>, b: seq<Char>, cap: nat)
    requires Suspendable(k) && k.m - k.b + |a| <= cap
    ensures ReadHead(k, a + b, cap) == if Run(k, a).More? then ReadHead(Run(k, a).k, b, cap) else EndOf(Run(k, a))
    decreases |a|
  {
    if a == [] {
      assert a + b == b;
    } else {
      assert (a + b)[1..] == a[1..] + b;
      if Step(k, a[0]).More? {
        HeadResumes(Step(k, a[0]).k, a[1..], b, cap);
      }
    }
  }

  function ForgetEnd(e: HeadEnd): (r: HeadEnd)
    ensures !r.Faulted? ==> !e.Faulted? && r.k.text == e.k.text
    ensures r.Rejected? ==> e.Rejected? && r.status == e.status
  {
    match e
    case Complete(k) => Complete(k.(flag := Null))
    case Rejected(status, k) => Rejected(status, k.(flag := Null))
    case TooLong(k) => TooLong(k.(flag := Null))
    case Closed(k) => Closed(k.(flag := Null))
    case Faulted => Faulted
  }

  lemma {:induction false} HeadForgets(k: Parser, f: Entry, cs: seq<Char>, cap: nat)
    requires Suspendable(k)
    ensures Suspendable(k.(flag := f)) && ForgetEnd(ReadHead(k, cs, cap)) == ForgetEnd(ReadHead(k.(flag := f), cs, cap))
    decreases |cs|
  {
    if !Full(k, cap) && cs != [] {
      StepForgets(k, f, cs[0]);
      var v, v' := Step(k, cs[0]), Step(k.(flag := f), cs[0]);
      if v.More? {
        HeadForgets(v.k, v'.k.flag, cs[1..], cap);
        assert v'.k == v.k.(flag := v'.k.flag);
      }
    }
  }

  /** A read of the bytes `a` in the ring, and what it leaves to do. */
  lemma ReadThenResume(k: Parser, a: seq<Char>, b: seq<Char>, cap: nat)
    requires Suspendable(k) && k.m - k.b + |a| <= cap
    ensures var v := Run(k, a);
            if v.More? then
              Suspendable(v.k.(flag := Null)) && k.b <= v.k.b <= v.k.m &&
              ForgetEnd(ReadHead(k, a + b, cap)) == ForgetEnd(ReadHead(v.k.(flag := Null), b, cap))
            else ReadHead(k, a + b, cap) == EndOf(v)
  {
    HeadResumes(k, a, b, cap);
    var v := Run(k, a);
    if v.More? {
      HeadForgets(v.k, Null, b, cap);
    }
  }

  // ---------------------------------------------------------------- the loop

  /** What reading a head leaves in the reader, the ring and the descriptor. `total` is what there was to read. */
  ghost predicate HeadLeft(e: HeadEnd, r: HttpReader, io: Ring, src: Source, m: nat, total: seq<Char>, ok: bool,
                           status: int)
    requires r.Valid()
    reads r, r.text, r.text.data, io, io.data, src
  {
    match e
    case Complete(k) =>
      && ok && status == 0 && r.rq == k.rq && r.text.Value() == k.text && io.read == k.m
      && (if m <= k.m <= m + |total|
          then io.Valid() && io.Contents() + src.rest == total[k.m - m..]
          else io.read > io.write)
    case Rejected(code, k) => ok && status == code && r.rq == k.rq && r.text.Value() == k.text && io.Valid()
    case TooLong(k) => ok && status == 414 && r.rq == k.rq && r.text.Value() == k.text && io.Valid()
    case Closed(k) =>
      && ok && status == -1 && r.rq == k.rq && r.text.Value() == k.text
      && io.eof && src.rest == [] && io.Valid()
    case Faulted => !ok
  }

  /** What the head still to be read comes to. */
  ghost function Pending(r: HttpReader, io: Ring, src: Source): HeadEnd
    requires r.CanRead(io)
    reads r, r.text, r.text.data, io, io.data, src
  {
    ForgetEnd(ReadHead(r.Resumed(io), io.From(r.saved.m) + src.rest, io.Cap()))
  }

  /** The input not yet parsed is the end of `total`, which started at offset `m`. */
  ghost predicate Placed(r: HttpReader, io: Ring, src: Source, m: nat, total: seq<Char>)
    requires r.CanRead(io)
    reads r, r.text, r.text.data, io, io.data, src
  {
    m <= r.saved.m <= m + |total| && io.From(r.saved.m) + src.rest == total[r.saved.m - m..]
  }

  lemma CutJoined(a: seq<Char>, b: seq<Char>, n: nat)
    requires n <= |a|
    ensures (a + b)[..n] == a[..n] && (a + b)[n..] == a[n..] + b
  {
  }

  /** The first `n` bytes of `a + b` gone, where `a + b` is the end of `total`. */
  lemma DropJoined(a: seq<Char>, b: seq<Char>, n: nat, total: seq<Char>, at: nat)
    requires n <= |a| && at <= |total| && a + b == total[at..]
    ensures a[n..] + b == total[at + n..]
    ensures n == |a| ==> b == total[at + n..]
  {
    CutJoined(a, b, n);
    assert a[|a|..] + b == b;
    assert total[at..][n..] == total[at + n..];
  }

  /** A read that waits has taken in what the ring held; the rest of the head is still to come. */
  lemma ReadWaited(r: HttpReader, io: Ring, src: Source, k: Parser, m: nat, total: seq<Char>, e: HeadEnd)
    requires r.Valid() && r.Left(More(k), true, EAGAIN, io) && io.data != r.text.data
    requires Suspendable(k.(flag := Null)) && k.b <= k.m <= k.b + io.data.Length && io.data.Length > 0
    requires m <= k.m <= m + |total| && src.rest == total[k.m - m..]
    requires e == ForgetEnd(ReadHead(k.(flag := Null), src.rest, io.Cap()))
    ensures r.CanRead(io) && Placed(r, io, src, m, total) && r.saved.m == io.write && Pending(r, io, src) == e
  {
    hide Requests.Suspendable, ReadHead, ForgetEnd, Window;
    assert io.From(r.saved.m) + src.rest == src.rest;
  }

  /** A read that ends has left the rest of the input alone. `a` is what the ring held beyond offset `m1`. */
  lemma ReadEnded(r: HttpReader, io: Ring, src: Source, v: Verdict, a: seq<Char>, m1: nat, m: nat, total: seq<Char>,
                  ok: bool, status: nat)
    requires r.Valid() && r.Left(v, ok, status, io) && !v.More?
    requires m <= m1 <= io.write <= m1 + io.data.Length && io.data.Length > 0 && a == Window(io.data[..], m1, io.write)
    requires v.Done? ==>
               m1 < v.k.m <= m1 + |a| && v.k.m <= m + |total| && a[v.k.m - m1..] + src.rest == total[v.k.m - m..]
    ensures HeadLeft(ForgetEnd(EndOf(v)), r, io, src, m, total, ok, status)
  {
    hide Window;
    if v.Done? {
      WindowSplit(io.data[..], m1, v.k.m, io.write);
    }
  }

  /** What the bytes in the ring lead to when they do not end the head. */
  lemma WaitAhead(r: HttpReader, io: Ring, src: Source, m: nat, total: seq<Char>)
    requires r.CanRead(io) && Placed(r, io, src, m, total) && Run(r.Resumed(io), io.From(r.saved.m)).More?
    ensures var k := Run(r.Resumed(io), io.From(r.saved.m)).k;
            && Suspendable(k.(flag := Null)) && k.b <= k.m <= k.b + io.data.Length && m <= k.m <= m + |total|
            && src.rest == total[k.m - m..]
            && Pending(r, io, src) == ForgetEnd(ReadHead(k.(flag := Null), src.rest, io.Cap()))
  {
    hide Requests.Run, ReadHead, Window, Requests.Suspendable, ForgetEnd;
    var k, a := r.Resumed(io), io.From(r.saved.m);
    ReadThenResume(k, a, src.rest, io.Cap());
    DropJoined(a, src.rest, |a|, total, k.m - m);
  }

  /** The same when they do. */
  lemma EndAhead(r: HttpReader, io: Ring, src: Source, m: nat, total: seq<Char>)
    requires r.CanRead(io) && Placed(r, io, src, m, total) && !Run(r.Resumed(io), io.From(r.saved.m)).More?
    ensures var (v, a, m1) := (Run(r.Resumed(io), io.From(r.saved.m)), io.From(r.saved.m), r.saved.m);
            && Pending(r, io, src) == ForgetEnd(EndOf(v)) && (v.Fail? ==> v.status >= 400)
            && (v.Done? ==>
                  m1 < v.k.m <= m1 + |a| && v.k.m <= m + |total| && a[v.k.m - m1..] + src.rest == total[v.k.m - m..])
  {
    hide Requests.Run, ReadHead, Window, Requests.Suspendable, ForgetEnd, EndOf;
    var k, a := r.Resumed(io), io.From(r.saved.m);
    ReadThenResume(k, a, src.rest, io.Cap());
    var v := Run(k, a);
    if v.Done? {
      DropJoined(a, src.rest, v.k.m - k.m, total, k.m - m);
    }
  }

  /** One read of what the ring holds. */
  method ReadOnce(r: HttpReader, io: Ring, src: Source, ghost m: nat, ghost total: seq<Char>)
      returns (ok: bool, status: nat)
    requires r.CanRead(io) && !io.eof && Placed(r, io, src, m, total)
    modifies r, r.text, r.text.data, io`read
    ensures r.Valid() && io.eof == old(io.eof)
    ensures if ok && status == EAGAIN then
              r.CanRead(io) && Placed(r, io, src, m, total) && r.saved.m == io.write
                && Pending(r, io, src) == old(Pending(r, io, src))
            else HeadLeft(old(Pending(r, io, src)), r, io, src, m, total, ok, status)
  {
    hide Requests.Run, ReadHead, Pending, Window, Requests.Suspendable, ForgetEnd, EndOf, HeadLeft, HttpReader.Left;
    ghost var k, a, e := r.Resumed(io), io.From(r.saved.m), Pending(r, io, src);
    ghost var v := ReadVerdict(k, a, false);
    if v.More? {
      WaitAhead(r, io, src, m, total);
    } else {
      EndAhead(r, io, src, m, total);
    }
    ok, status := r.Read(io);
    Outcome(r, io, v, ok, status);
    if v.More? {
      ReadWaited(r, io, src, v.k, m, total, e);
    } else {
      ReadEnded(r, io, src, v, a, k.m, m, total, ok, status);
    }
  }

  /** Only a wait returns EAGAIN. */
  lemma Outcome(r: HttpReader, io: Ring, v: Verdict, ok: bool, status: nat)
    requires r.Valid() && r.Left(v, ok, status, io) && (v.Fail? ==> v.status >= 400)
    ensures v.More? <==> ok && status == EAGAIN
  {
  }

  /** One refill of a ring the parser has read to its end. */
  method RefillOnce(r: HttpReader, io: Ring, src: Source, ghost m: nat, ghost total: seq<Char>) returns (n: int)
    requires r.CanRead(io) && Placed(r, io, src, m, total) && r.saved.m == io.write
    modifies io, io.data, src
    ensures r.Valid()
    ensures n > 0 ==> r.CanRead(io) && Placed(r, io, src, m, total) && Pending(r, io, src) == old(Pending(r, io, src))
    ensures n > 0 ==> |src.rest| < |old(src.rest)| && io.eof == old(io.eof)
    ensures (io.eof ==> old(io.eof) || src.rest == []) && |src.rest| <= |old(src.rest)|
    ensures n == 0 ==> HeadLeft(old(Pending(r, io, src)), r, io, src, m, total, true, -1)
    ensures n < 0 ==> HeadLeft(old(Pending(r, io, src)), r, io, src, m, total, true, 414)
  {
    WindowSplit(io.data[..], io.read, io.write, io.write);
    n := io.ReadFd(src);
    if n > 0 {
      RefillKept(old(io.data[..]), io.data[..], io.read, old(io.write), io.write, old(src.rest), src.rest);
    }
  }

  /** A refill only moves bytes from the descriptor to the end of the queue. */
  lemma RefillKept(d: seq<Char>, d': seq<Char>, read: nat, w: nat, w': nat, rest: seq<Char>, rest': seq<Char>)
    requires |d| == |d'| > 0 && read <= w <= w'
    requires Window(d', read, w') + rest' == Window(d, read, w) + rest && |rest| - |rest'| == w' - w
    ensures Window(d', w, w') + rest' == Window(d, w, w) + rest
  {
    WindowSplit(d', read, w, w');
    var q := Window(d', read, w') + rest';
    assert q[w - read..] == Window(d', w, w') + rest';
    assert q[w - read..] == rest;
  }

  /** What is left of the last input: a single read, which ends with the end-of-input marker at the latest. */
  method ReadLast(r: HttpReader, io: Ring, src: Source) returns (ok: bool, status: nat)
    requires r.CanRead(io) && r.saved.m == io.read && io.eof && src.rest == []
    modifies r, r.text, r.text.data, io`read
    ensures r.Valid() && (io.eof ==> src.rest == [])
    ensures HeadLeft(ForgetEnd(EndOf(ReadVerdict(old(r.Resumed(io)), old(io.Contents()), true))),
              r, io, src, old(io.read), old(io.Contents() + src.rest), ok, status)
  {
    hide Requests.Suspendable, Requests.Run, Requests.Step, Window;
    ghost var k, a := r.Resumed(io), io.Contents();
    LastRead(k, a);
    ok, status := r.Read(io);
    ghost var v := ReadVerdict(k, a, true);
    if v.Done? && v.k.m <= io.write {
      WindowSplit(io.data[..], k.m, v.k.m, io.write);
    }
  }

  lemma LastRead(k: Parser, a: seq<Char>)
    requires Suspendable(k)
    ensures !ReadVerdict(k, a, true).More? && (ReadVerdict(k, a, true).Done? ==> k.m < ReadVerdict(k, a, true).k.m)
  {
    var v := Run(k, a);
    if v.More? {
      EofEnds(v.k);
    }
  }

  lemma PlacedFirst(r: HttpReader, io: Ring, src: Source)
    requires r.CanRead(io) && r.saved.m == io.read
    ensures Placed(r, io, src, io.read, io.Contents() + src.rest)
  {
    hide Window, Requests.Suspendable;
  }

  /** The loop: refill, read, until the parser stops waiting. */
  method ReadLoop(r: HttpReader, io: Ring, src: Source) returns (ok: bool, status: int)
    requires r.CanRead(io) && r.saved.m == io.read && (io.eof ==> io.Contents() == [] && src.rest == [])
    modifies r, r.text, r.text.data, io, io.data, src
    ensures r.Valid() && (io.eof ==> src.rest == [])
    ensures HeadLeft(old(Pending(r, io, src)), r, io, src, old(io.read), old(io.Contents() + src.rest), ok, status)
  {
    hide ReadHead, Requests.Suspendable, HeadLeft, Placed, Pending, Window;
    ghost var total, m, e := io.Contents() + src.rest, io.read, Pending(r, io, src);
    PlacedFirst(r, io, src);
    var prefilled := io.write - io.read > 0;
    while true
      invariant r.CanRead(io) && Placed(r, io, src, m, total) && Pending(r, io, src) == e
      invariant (io.eof ==> src.rest == []) && if prefilled then !io.eof else r.saved.m == io.write
      decreases |src.rest|, prefilled
    {
      if !prefilled {
        var n := RefillOnce(r, io, src, m, total);
        if n < 0 {
          return true, 414;
        } else if n == 0 {
          return true, -1;
        }
      }
      ok, status := ReadOnce(r, io, src, m, total);
      if !ok || status != EAGAIN {
        return;
      }
      prefilled := false;
    }
  }

  /** Reads a head. The ensures mention no fragment: every way of cutting the input has the same outcome. */
  method ReadRequest(r: HttpReader, io: Ring, src: Source) returns (ok: bool, status: int)
    requires r.CanRead(io) && r.saved.m == io.read && (io.eof ==> src.rest == [])
    modifies r, r.text, r.text.data, io, io.data, src
    ensures r.Valid() && (io.eof ==> src.rest == [])
    ensures var total := old(io.Contents() + src.rest);
            HeadLeft(ForgetEnd(HeadOf(old(r.Resumed(io)), total, io.Cap(), old(io.eof))), r, io, src, old(io.read),
              total, ok, status)
  {
    hide ReadHead, ReadVerdict, Requests.Suspendable, HeadLeft;
    if io.eof && io.write > io.read {
      assert io.Contents() + src.rest == io.Contents() != [];
      ok, status := ReadLast(r, io, src);
    } else {
      assert io.eof ==> io.Contents() + src.rest == [];
      ok, status := ReadLoop(r, io, src);
    }
  }
}
