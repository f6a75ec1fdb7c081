/** The ring buffer of libhttp/iobuf.c and the vectored transfers of libhttpd/iobuf-util.c. */
module Rings {
  import opened Chars

  /** Where the absolute offset `p` lands in a buffer of `cap` bytes; `p & mask` for a power-of-two size. */
  function Slot(p: nat, cap: nat): (s: nat)
    requires cap > 0
    ensures s < cap
    decreases p
  {
    if p < cap then p else Slot(p - cap, cap)
  }

  lemma {:induction false} SlotMove(p: nat, i: nat, cap: nat)
    requires cap > 0 && i <= cap
    ensures Slot(p + i, cap) == if Slot(p, cap) + i < cap then Slot(p, cap) + i else Slot(p, cap) + i - cap
    decreases p
  {
    if p >= cap {
      SlotMove(p - cap, i, cap);
    }
  }

  lemma SlotsDistinct(lo: nat, hi: nat, cap: nat)
    requires lo <= hi < lo + cap
    ensures forall p :: lo <= p < hi ==> Slot(p, cap) != Slot(hi, cap)
  {
    forall p | lo <= p < hi
      ensures Slot(p, cap) != Slot(hi, cap)
    {
      SlotMove(p, hi - p, cap);
    }
  }

  lemma RunDistinct(lo: nat, i: nat, hi: nat, cap: nat)
    requires lo + i < hi <= lo + cap
    ensures forall p :: lo <= p < hi && p != lo + i ==> Slot(p, cap) != Slot(lo + i, cap)
  {
    forall p | lo <= p < hi && p != lo + i
      ensures Slot(p, cap) != Slot(lo + i, cap)
    {
      if p < lo + i {
        SlotMove(p, lo + i - p, cap);
      } else {
        SlotMove(lo + i, p - lo - i, cap);
      }
    }
  }

  lemma {:induction false} SlotIsRemainder(p: nat, cap: nat)
    requires cap > 0
    ensures Slot(p, cap) == p % cap
    decreases p
  {
    if p >= cap {
      SlotIsRemainder(p - cap, cap);
      RemainderStep(p - cap, cap);
    }
  }

  lemma RemainderStep(p: nat, cap: nat)
    requires cap > 0
    ensures (p + cap) % cap == p % cap
  {
    var q, q' := p / cap, (p + cap) / cap;
    var d := q' - q - 1;
    assert cap * q' == cap * q + cap + cap * d;
    assert cap * d == p % cap - (p + cap) % cap;
    Multiple(cap, d);
  }

  lemma Multiple(cap: nat, d: int)
    ensures d >= 1 ==> cap * d >= cap
    ensures d <= -1 ==> cap * d <= -(cap as int)
  {
  }

  /** `memcpy` of `bytes` into `d` at `start`. */
  function Overlay(d: seq<Char>, start: nat, bytes: seq<Char>): (r: seq<Char>)
    requires start + |bytes| <= |d|
    ensures |r| == |d|
    ensures forall k :: 0 <= k < |d| ==> r[k] == if start <= k < start + |bytes| then bytes[k - start] else d[k]
  {
    d[..start] + bytes + d[start + |bytes|..]
  }

  /** The two copies that put `bytes` at `start` and, from index `n` of `bytes` on, at the start of the buffer. */
  function Deposit(d: seq<Char>, start: nat, bytes: seq<Char>, n: nat): (r: seq<Char>)
    requires n <= |bytes| && start + n <= |d| && |bytes| - n <= start
    ensures |r| == |d|
    ensures forall k :: 0 <= k < |d| ==> r[k] == if start <= k < start + n then bytes[k - start]
                                                 else if k < |bytes| - n then bytes[n + k] else d[k]
  {
    Overlay(Overlay(d, start, bytes[..n]), 0, bytes[n..])
  }

  /** The bytes a buffer `d` holds between two absolute offsets. */
  function Window(d: seq<Char>, lo: nat, hi: nat): (s: seq<Char>)
    requires |d| > 0 && lo <= hi
    ensures |s| == hi - lo
    ensures forall i :: 0 <= i < |s| ==> s[i] == d[Slot(lo + i, |d|)]
  {
    seq<Char>(hi - lo, i requires 0 <= i < hi - lo => d[Slot(lo + i, |d|)])
  }

  function FirstRun(w: nat, len: nat, cap: nat): (n: nat)
    requires cap > 0
    ensures n <= len && Slot(w, cap) + n <= cap
    ensures len <= cap ==> len - n <= Slot(w, cap)
  {
    if len <= cap - Slot(w, cap) then len else cap - Slot(w, cap)
  }

  /** The deposit lands behind the `w - r` queued bytes and spares them. */
  lemma DepositAt(d: seq<Char>, r: nat, w: nat, bytes: seq<Char>, p: nat)
    requires |d| > 0 && r <= w && w + |bytes| <= r + |d| && r <= p < w + |bytes|
    ensures Deposit(d, Slot(w, |d|), bytes, FirstRun(w, |bytes|, |d|))[Slot(p, |d|)]
         == if p < w then d[Slot(p, |d|)] else bytes[p - w]
  {
    hide Deposit, Slot;
    if p < w {
      SlotMove(p, w - p, |d|);
    } else {
      SlotMove(w, p - w, |d|);
    }
  }

  lemma DepositAppends(d: seq<Char>, r: nat, w: nat, bytes: seq<Char>)
    requires |d| > 0 && r <= w && w + |bytes| <= r + |d|
    ensures var d' := Deposit(d, Slot(w, |d|), bytes, FirstRun(w, |bytes|, |d|));
            Window(d', r, w + |bytes|) == Window(d, r, w) + bytes
  {
    var grown := Window(Deposit(d, Slot(w, |d|), bytes, FirstRun(w, |bytes|, |d|)), r, w + |bytes|);
    forall i | 0 <= i < |grown|
      ensures grown[i] == (Window(d, r, w) + bytes)[i]
    {
      DepositAt(d, r, w, bytes, r + i);
    }
  }

  /** A stretch of the buffer, as an `iovec` describes it. */
  datatype Segment = Segment(start: nat, len: nat)

  function Stretch(d: seq<Char>, g: Segment): seq<Char>
    requires g.start + g.len <= |d|
  {
    d[g.start..g.start + g.len]
  }

  /** The queued bytes [r, w) as one or two stretches of a buffer of `cap` bytes. */
  function UsedSegments(r: nat, w: nat, cap: nat): (g: (Segment, Segment))
    requires cap > 0 && r <= w <= r + cap
    ensures g.0.start + g.0.len <= cap && g.1.start + g.1.len <= cap
  {
    var bi, ei := Slot(r, cap), Slot(w, cap);
    if w > r then
      (Segment(bi, if bi < ei then ei - bi else cap - bi), Segment(0, if bi < ei then 0 else ei))
    else
      (Segment(0, 0), Segment(0, 0))
  }

  /** The free bytes behind the write offset as one or two stretches. */
  function FreeSegments(r: nat, w: nat, cap: nat): (g: (Segment, Segment))
    requires cap > 0 && r <= w <= r + cap
    ensures g.0.start + g.0.len <= cap && g.1.start + g.1.len <= cap
  {
    var bi, ei := Slot(r, cap), Slot(w, cap);
    (Segment(ei, if bi > ei then bi - ei else cap - ei), Segment(0, if bi > ei then 0 else bi))
  }

  /** The gathered stretches, in order, are the queue. */
  lemma UsedSegmentsHoldTheQueue(d: seq<Char>, r: nat, w: nat)
    requires |d| > 0 && r <= w <= r + |d|
    ensures var (a, b) := UsedSegments(r, w, |d|); Stretch(d, a) + Stretch(d, b) == Window(d, r, w)
  {
    var cap := |d|;
    var (a, b) := UsedSegments(r, w, cap);
    SlotMove(r, w - r, cap);
    var s := Stretch(d, a) + Stretch(d, b);
    forall i | 0 <= i < w - r
      ensures s[i] == d[Slot(r + i, cap)]
    {
      SlotMove(r, i, cap);
    }
  }

  /** The copies of a read: they stay inside the buffer unless a whole-capacity run starts past slot 0. */
  lemma ReadRuns(d: seq<Char>, b: nat, e: nat)
    requires |d| > 0 && b <= e <= b + |d|
    requires e - b < |d| || Slot(b, |d|) == 0 || Slot(e, |d|) < Slot(b, |d|)
    ensures var (bi, ei, l) := (Slot(b, |d|), Slot(e, |d|), e - b);
            if ei < bi then
              && |d| - bi <= l && l - (|d| - bi) <= |d|
              && Stretch(d, Segment(bi, |d| - bi)) + Stretch(d, Segment(0, l - (|d| - bi))) == Window(d, b, e)
            else
              && bi + l <= |d|
              && Stretch(d, Segment(bi, l)) == Window(d, b, e)
  {
    hide Window, Slot;
    UsedSegmentsHoldTheQueue(d, b, e);
    SlotMove(b, e - b, |d|);
  }

  /** The condition of `ReadRuns` is exact. */
  lemma ReadOverrunsIff(b: nat, e: nat, cap: nat)
    requires cap > 0 && b <= e <= b + cap
    ensures (Slot(e, cap) >= Slot(b, cap) && Slot(b, cap) + (e - b) > cap) <==> (e - b == cap && Slot(b, cap) != 0)
  {
    SlotMove(b, e - b, cap);
  }

  /** The split branch of a write copies from inside the caller's data exactly when there is something to write. */
  lemma WriteOverrunsIff(w: nat, sz: nat, cap: nat)
    requires cap > 0 && sz <= cap
    ensures (Slot(w + sz, cap) <= Slot(w, cap) && cap - Slot(w, cap) > sz) <==> sz == 0
  {
    SlotMove(w, sz, cap);
  }

  /** Unless the ring is full, the stretches offered to a refill are exactly its free slots, in order. */
  lemma FreeSegmentsAreTheFreeSlots(r: nat, w: nat, cap: nat, i: nat)
    requires cap > 0 && r <= w < r + cap
    ensures var (a, b) := FreeSegments(r, w, cap);
            && a.len + b.len == cap - (w - r)
            && (i < a.len ==> Slot(w + i, cap) == a.start + i)
            && (a.len <= i < a.len + b.len ==> Slot(w + i, cap) == b.start + (i - a.len))
  {
    SlotMove(r, w - r, cap);
    if i < cap {
      SlotMove(w, i, cap);
    }
  }

  lemma TwoRunsMeet(d: seq<Char>, a: seq<Char>, b: seq<Char>)
    requires |a| + |b| <= |d|
    ensures Overlay(Overlay(d, 0, a), |a|, b) == (a + b) + d[|a| + |b|..]
  {
  }

  /** The two runs of a wrapped stretch, copied one behind the other. */
  lemma WrappedMeets(d: seq<Char>, t: seq<Char>, b: nat, e: nat)
    requires |d| > 0 && b <= e <= b + |d| && e - b <= |t| && Slot(e, |d|) < Slot(b, |d|)
    ensures var (bi, l) := (Slot(b, |d|), e - b);
            var tail := |d| - bi;
            && 0 <= tail <= l && l - tail <= |d|
            && Overlay(Overlay(t, 0, Stretch(d, Segment(bi, tail))), tail, Stretch(d, Segment(0, l - tail)))
               == Window(d, b, e) + t[l..]
  {
    hide Window, Overlay, Slot;
    var bi, l := Slot(b, |d|), e - b;
    ReadRuns(d, b, e);
    TwoRunsMeet(t, Stretch(d, Segment(bi, |d| - bi)), Stretch(d, Segment(0, l - (|d| - bi))));
  }

  /** A descriptor to write to: `sent` is what the peer got. A `whole` one takes every vector at once. */
  class Sink {
    var sent: seq<Char>
    const whole: bool

    constructor (whole: bool)
      ensures sent == [] && this.whole == whole
    {
      sent := [];
      this.whole := whole;
    }

    /** `writev` of a non-empty vector: any positive count of its first bytes. */
    method Writev(bytes: seq<Char>) returns (n: nat)
      requires bytes != []
      modifies this
      ensures 1 <= n <= |bytes| && (whole ==> n == |bytes|)
      ensures sent == old(sent) + bytes[..n]
    {
      n :| 1 <= n <= |bytes| && (whole ==> n == |bytes|);
      sent := sent + bytes[..n];
    }
  }

  /** A descriptor to read from: `rest` is what the peer will still send, `asked` the room the last read offered. */
  class Source {
    var rest: seq<Char>
    ghost var asked: nat

    constructor (bytes: seq<Char>)
      ensures rest == bytes
    {
      rest, asked := bytes, 0;
    }

    /** `readv` with room for `space` bytes: any positive count up to the room, 0 only at the end of input. */
    method Readv(space: nat) returns (got: seq<Char>)
      requires space > 0
      modifies this
      ensures |got| <= space && asked == space
      ensures got + rest == old(rest)
      ensures got == [] <==> old(rest) == []
    {
      asked := space;
      if rest == [] {
        return [];
      }
      var n: nat :| 1 <= n <= space && n <= |rest|;
      got := rest[..n];
      rest := rest[n..];
    }
  }

  class Ring {
    var read: nat
    var write: nat
    var eof: bool
    const data: array<Char>

    ghost predicate Valid()
      reads this
    {
      data.Length > 0 && read <= write <= read + data.Length
    }

    function Cap(): nat { data.Length }

    /** The bytes from absolute offset `p` to the write offset. */
    ghost function From(p: nat): (s: seq<Char>)
      requires Valid() && p <= write
      reads this, data
    {
      Window(data[..], p, write)
    }

    /** The abstract queue. */
    ghost function Contents(): seq<Char>
      requires Valid()
      reads this, data
    {
      From(read)
    }

    constructor (size: nat)
      requires size > 0
      ensures Valid() && fresh(data) && Cap() == size && Contents() == [] && !eof
    {
      data := new Char[size];
      read, write, eof := 0, 0, false;
    }

    method Clear()
      requires Valid()
      modifies this
      ensures Valid() && Contents() == [] && eof == old(eof)
    {
      read, write := 0, 0;
    }

    method Put(c: Char) returns (r: int)
      requires Valid()
      modifies this, data
      ensures Valid() && read == old(read) && eof == old(eof)
      ensures r == if |old(Contents())| < Cap() then 1 else 0
      ensures Contents() == if r == 1 then old(Contents()) + [c] else old(Contents())
    {
      var ri, wi := Slot(read, data.Length), Slot(write, data.Length);
      SlotMove(read, write - read, data.Length);
      if read < write && ri == wi {
        return 0;
      }
      SlotsDistinct(read, write, data.Length);
      data[wi] := c;
      write := write + 1;
      r := 1;
    }

    /** `offset` counts from the read offset, or from the write offset when negative. */
    method Replace(offset: int, c: Char)
      requires Valid()
      requires if offset < 0 then -offset <= |Contents()| else offset < |Contents()|
      modifies data
      ensures Contents() == old(Contents())[(if offset < 0 then |old(Contents())| + offset else offset) := c]
    {
      var o := if offset < 0 then write else read;
      ghost var i := o + offset - read;
      RunDistinct(read, i, write, data.Length);
      data[Slot(o + offset, data.Length)] := c;
    }

    method MemCpy(start: nat, bytes: seq<Char>)
      requires start + |bytes| <= data.Length
      modifies data
      ensures data[..] == Overlay(old(data[..]), start, bytes)
    {
      forall i | 0 <= i < |bytes| {
        data[start + i] := bytes[i];
      }
    }

    /** Appends all of `bytes` or, when they do not fit, nothing. The split branch is only sound for a non-empty
        write. */
    method Write(bytes: seq<Char>) returns (r: int)
      requires Valid() && bytes != []
      modifies this, data
      ensures Valid() && read == old(read) && eof == old(eof)
      ensures r == if |old(Contents())| + |bytes| <= Cap() then |bytes| else -1
      ensures Contents() == if r == -1 then old(Contents()) else old(Contents()) + bytes
    {
      var cap := data.Length;
      var ne := write + |bytes|;
      var ei, nei := Slot(write, cap), Slot(ne, cap);
      if ne - read > cap {
        return -1;
      }
      ghost var d := data[..];
      DepositAppends(d, read, write, bytes);
      SlotMove(write, |bytes|, cap);
      if nei > ei {
        MemCpy(ei, bytes);
        OneRun(d, ei, bytes);
      } else {
        var split := cap - ei;
        MemCpy(ei, bytes[..split]);
        MemCpy(0, bytes[split..]);
      }
      write := ne;
      return |bytes|;
    }

    /** At most `sz` bytes to the start of `dst`. A run of the whole capacity is copied in one piece unless it wraps,
        so reading all of a full ring is only sound from slot 0. */
    method Read(dst: array<Char>, sz: nat) returns (l: nat)
      requires Valid() && dst != data && sz <= dst.Length
      requires sz < Cap() || |Contents()| < Cap() || Slot(read, Cap()) == 0
      modifies this, dst
      ensures Valid() && write == old(write) && eof == old(eof)
      ensures l == if |old(Contents())| < sz then |old(Contents())| else sz
      ensures dst[..] == old(Contents())[..l] + old(dst[l..])
      ensures Contents() == old(Contents())[l..]
    {
      hide Window, Slot;
      var b, e := read, write;
      if e - b > sz {
        e := b + sz;
      }
      l := e - b;
      WindowSplit(data[..], b, e, write);
      CopyQueue(dst, b, e);
      read := e;
    }

    /** The copies of a read. */
    method CopyQueue(dst: array<Char>, b: nat, e: nat)
      requires data.Length > 0 && b <= e <= b + data.Length && e - b <= dst.Length && dst != data
      requires e - b < Cap() || Slot(b, Cap()) == 0
      modifies dst
      ensures dst[..] == Window(data[..], b, e) + old(dst[e - b..])
    {
      hide Window, Slot;
      if Slot(e, data.Length) < Slot(b, data.Length) {
        CopyWrapped(dst, b, e);
      } else if e > b {
        CopyPlain(dst, b, e);
      } else {
        NothingCopied(data[..], b, dst[..]);
      }
    }

    /** The read in one piece. */
    method CopyPlain(dst: array<Char>, b: nat, e: nat)
      requires data.Length > 0 && b <= e <= b + data.Length && e - b <= dst.Length && dst != data
      requires Slot(e, Cap()) >= Slot(b, Cap()) && (e - b < Cap() || Slot(b, Cap()) == 0)
      modifies dst
      ensures dst[..] == Window(data[..], b, e) + old(dst[e - b..])
    {
      hide Window, Stretch, Slot;
      ReadRuns(data[..], b, e);
      CopyOut(dst, 0, Segment(Slot(b, data.Length), e - b));
    }

    /** The read that wraps: the tail of the buffer, then its start. */
    method CopyWrapped(dst: array<Char>, b: nat, e: nat)
      requires data.Length > 0 && b <= e <= b + data.Length && e - b <= dst.Length && dst != data
      requires Slot(e, Cap()) < Slot(b, Cap())
      modifies dst
      ensures dst[..] == Window(data[..], b, e) + old(dst[e - b..])
    {
      hide Window, Overlay, Slot, Stretch;
      var bi, l := Slot(b, data.Length), e - b;
      var tail := data.Length - bi;
      WrappedMeets(data[..], dst[..], b, e);
      CopyOut(dst, 0, Segment(bi, tail));
      CopyOut(dst, tail, Segment(0, l - tail));
    }

    /** `memcpy` of a stretch of the ring into `dst` at `at`. */
    method CopyOut(dst: array<Char>, at: nat, g: Segment)
      requires g.start + g.len <= data.Length && at + g.len <= dst.Length && dst != data
      modifies dst
      ensures dst[..] == Overlay(old(dst[..]), at, Stretch(data[..], g))
    {
      forall i | 0 <= i < g.len {
        dst[at + i] := data[g.start + i];
      }
    }

    /** Dropping what a read of `sz` bytes would have taken. */
    method Skip(sz: nat)
      requires Valid() && sz <= |Contents()|
      modifies this`read
      ensures Valid() && write == old(write) && eof == old(eof)
      ensures Contents() == old(Contents())[sz..]
    {
      WindowSplit(data[..], read, read + sz, write);
      read := read + sz;
    }

    /** Refills the free space from `src`, offering all of it: -1 on a full ring, 0 at the end of input, else the count
        read. */
    method ReadFd(src: Source) returns (r: int)
      requires Valid()
      modifies this, data, src
      ensures Valid() && read == old(read)
      ensures r == -1 <==> |old(Contents())| == Cap()
      ensures r == -1 ==> Contents() == old(Contents()) && src.rest == old(src.rest) && eof == old(eof)
      ensures r == 0 ==> Contents() == old(Contents()) && src.rest == old(src.rest) == [] && eof
      ensures r > 0 ==> eof == old(eof) && |Contents()| == |old(Contents())| + r && |src.rest| < |old(src.rest)|
      ensures r >= -1 && Contents() + src.rest == old(Contents() + src.rest)
      ensures r != -1 ==> src.asked == Cap() - |old(Contents())|
    {
      var cap := data.Length;
      var bi, ei := Slot(read, cap), Slot(write, cap);
      var (iov0, iov1) := FreeSegments(read, write, cap);
      SlotMove(read, write - read, cap);
      if read != write && ei == bi {
        return -1;
      }
      var got := src.Readv(iov0.len + iov1.len);
      if got == [] {
        eof := true;
        return 0;
      }
      Scatter(iov0, iov1, got);
      write := write + |got|;
      return |got|;
    }

    /** What `readv` does with the free stretches: fill the first, then the second. */
    method Scatter(iov0: Segment, iov1: Segment, got: seq<Char>)
      requires Valid() && |Contents()| + |got| <= Cap() && got != []
      requires (iov0, iov1) == FreeSegments(read, write, Cap())
      modifies data
      ensures Window(data[..], read, write + |got|) == old(Contents()) + got
    {
      SlotMove(read, write - read, data.Length);
      DepositAppends(data[..], read, write, got);
      var n := if |got| < iov0.len then |got| else iov0.len;
      assert n == FirstRun(write, |got|, data.Length);
      MemCpy(iov0.start, got[..n]);
      MemCpy(iov1.start, got[n..]);
    }

    method Gather() returns (a: Segment, b: Segment, n: nat)
      requires Valid()
      ensures (a, b) == UsedSegments(read, write, Cap())
      ensures Stretch(data[..], a) + Stretch(data[..], b) == Contents()
      ensures n <= 2 && (n == 0 <==> Contents() == []) && (n == 1 ==> Stretch(data[..], a) == Contents())
    {
      var bi, ei := Slot(read, data.Length), Slot(write, data.Length);
      UsedSegmentsHoldTheQueue(data[..], read, write);
      if write > read {
        a := Segment(bi, if bi < ei then ei - bi else data.Length - bi);
        b := Segment(0, if bi < ei then 0 else ei);
        n := if bi < ei then 1 else 2;
      } else {
        a, b, n := Segment(0, 0), Segment(0, 0), 0;
      }
    }

    /** Sends some of the queue; what was sent leaves it. */
    method FlushFd(out: Sink) returns (r: nat)
      requires Valid()
      modifies this, out
      ensures Valid() && r <= |old(Contents())| && (r == 0 <==> old(Contents()) == [])
      ensures out.sent == old(out.sent) + old(Contents())[..r]
      ensures Contents() == old(Contents())[r..]
    {
      var a, b, n := Gather();
      if n == 0 {
        assert Contents() == [];
        return 0;
      }
      assert |Contents()| > 0;
      r := out.Writev(if n == 1 then Stretch(data[..], a) else Stretch(data[..], a) + Stretch(data[..], b));
      WindowSplit(data[..], read, read + r, write);
      read := read + r;
    }
  }

  lemma WindowSplit(d: seq<Char>, lo: nat, mid: nat, hi: nat)
    requires |d| > 0 && lo <= mid <= hi
    ensures Window(d, lo, hi)[..mid - lo] == Window(d, lo, mid)
    ensures Window(d, lo, hi)[mid - lo..] == Window(d, mid, hi)
  {
    var tail := Window(d, lo, hi)[mid - lo..];
    forall i | 0 <= i < |tail|
      ensures tail[i] == Window(d, mid, hi)[i]
    {
      assert lo + (mid - lo + i) == mid + i;
    }
  }

  lemma NothingCopied(d: seq<Char>, b: nat, dst: seq<Char>)
    requires |d| > 0
    ensures Window(d, b, b) + dst[0..] == dst
  {
  }

  lemma OneRun(d: seq<Char>, start: nat, bytes: seq<Char>)
    requires start + |bytes| <= |d|
    ensures Overlay(d, start, bytes) == Deposit(d, start, bytes, |bytes|)
  {
  }
}
