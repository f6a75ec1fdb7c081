/** Which size lines the chunk decoder reads, which it waits for, and which it rejects: by their bytes alone. */
module SizeLines {
  import opened Chars
  import opened Requests
  import opened Chunks

  // ---------------------------------------------------------------- lines that are read

  /** A whole size line, with the line end of the chunk before it, that says `v`. */
  ghost predicate LineOf(line: seq<Char>, pending: int, v: nat) {
    exists pre, size, extension, lf :: Spells(line, pending, v, pre, size, extension, lf)
  }

  ghost predicate Spells(line: seq<Char>, pending: int, v: nat, pre: seq<Char>, size: seq<Char>, extension: seq<Char>,
                         lf: bool) {
    && Before(pending, pre) && AllHex(size) && ValidExtension(extension)
    && line == pre + PrintSizeLine(size, extension, lf) && v == HexFrom(0, size) % U32
  }

  lemma {:induction false} ExtensionFound(q: seq<Char>, v: nat) returns (e: seq<Char>, lf: bool)
    requires Scan(q, Extension, v).Line?
    ensures var l := Scan(q, Extension, v); l.val == v && q[..l.len] == e + Eol(lf)
    ensures forall i :: 0 <= i < |e| ==> e[i] != CR && e[i] != LF
    decreases |q|
  {
    var l := Scan(q, Extension, v);
    e := [];
    if q[0] == LF {
      lf := true;
    } else if q[0] == CR {
      lf := false;
      assert q[..2] == [CR, LF];
    } else {
      e, lf := ExtensionFound(q[1..], v);
      assert q[..l.len] == [q[0]] + q[1..][..l.len - 1];
      e := [q[0]] + e;
    }
  }

  /** A hex digit in front of a line. */
  lemma DigitInFront(q: seq<Char>, v: nat, size: seq<Char>, extension: seq<Char>, lf: bool)
    requires q != [] && IsHex(q[0]) && AllHex(size)
    ensures AllHex([q[0]] + size) && HexFrom(v, [q[0]] + size) == HexFrom(v * 16 + HexValue(q[0]), size)
    ensures PrintSizeLine([q[0]] + size, extension, lf) == [q[0]] + PrintSizeLine(size, extension, lf)
  {
    hide IsHex, HexValue, Eol;
    assert ([q[0]] + size)[1..] == size;
    assert [q[0]] + size + extension + Eol(lf) == [q[0]] + (size + extension + Eol(lf));
  }

  /** The end of a size line, behind its digits. */
  lemma DigitsEnd(q: seq<Char>, v: nat) returns (extension: seq<Char>, lf: bool)
    requires Scan(q, Size, v).Line? && !IsHex(q[0])
    ensures ValidExtension(extension)
    ensures var l := Scan(q, Size, v); q[..l.len] == PrintSizeLine([], extension, lf) && l.val == v
  {
    var l := Scan(q, Size, v);
    extension, lf := [], true;
    if q[0] == ';' as int {
      extension, lf := ExtensionFound(q[1..], v);
      assert q[..l.len] == [q[0]] + q[1..][..l.len - 1];
      extension := [q[0]] + extension;
    } else if q[0] == CR {
      lf := false;
      assert q[..2] == [CR, LF];
    }
  }

  lemma {:induction false} SizeFound(q: seq<Char>, v: nat) returns (size: seq<Char>, extension: seq<Char>, lf: bool)
    requires Scan(q, Size, v).Line?
    ensures AllHex(size) && ValidExtension(extension)
    ensures var l := Scan(q, Size, v);
            && q[..l.len] == PrintSizeLine(size, extension, lf)
            && l.val == if size == [] then v else HexFrom(v, size) % U32
    decreases |q|
  {
    hide HexValue, PrintSizeLine, HexFrom;
    var l := Scan(q, Size, v);
    if IsHex(q[0]) {
      var v' := v * 16 + HexValue(q[0]);
      size, extension, lf := SizeFound(q[1..], v' % U32);
      NoDigits(v');
      HexWraps(v', size);
      DigitInFront(q, v, size, extension, lf);
      assert q[..l.len] == [q[0]] + q[1..][..l.len - 1];
      size := [q[0]] + size;
    } else {
      size := [];
      extension, lf := DigitsEnd(q, v);
    }
  }

  /** Where the scan of a size line starts. */
  function Start(pending: int): ChunkState { if pending == 0 then Previous else Size }

  lemma PreFound(q: seq<Char>, pending: int) returns (pre: seq<Char>)
    requires pending in {0, PENDING_INIT} && Scan(q, Start(pending), 0).Line?
    ensures Before(pending, pre) && pre <= q && Scan(q[|pre|..], Size, 0).Line?
    ensures Scan(q, Start(pending), 0) == Longer(Scan(q[|pre|..], Size, 0), |pre|)
  {
    if pending != 0 {
      pre := [];
      assert q[0..] == q;
    } else if q[0] == LF {
      pre := [LF];
    } else {
      pre := [CR, LF];
      assert q[1..][1..] == q[2..] && q[..2] == [CR, LF];
    }
  }

  /** A scan finds a line exactly where there is one, and reads the size it says modulo 2^32. */
  lemma LineIff(pending: int, q: seq<Char>, v: nat, n: nat)
    requires pending in {0, PENDING_INIT}
    ensures Scan(q, Start(pending), 0) == Line(v, n) <==> n <= |q| && LineOf(q[..n], pending, v)
  {
    hide Scan, PrintSizeLine, HexFrom, Before;
    if Scan(q, Start(pending), 0) == Line(v, n) {
      var pre := PreFound(q, pending);
      var size, extension, lf := SizeFound(q[|pre|..], 0);
      NoDigits(0);
      assert q[..n] == pre + q[|pre|..][..n - |pre|];
      assert Spells(q[..n], pending, v, pre, size, extension, lf);
    }
    if n <= |q| && LineOf(q[..n], pending, v) {
      LineScanned(q[..n], pending, v);
      assert q == q[..n] + q[n..];
      ScanStable(q[..n], q[n..], Start(pending), 0);
    }
  }

  lemma LineScanned(line: seq<Char>, pending: int, v: nat)
    requires LineOf(line, pending, v)
    ensures Scan(line, Start(pending), 0) == Line(v, |line|)
  {
    hide Scan, PrintSizeLine, HexFrom;
    var pre, size, extension, lf :| Spells(line, pending, v, pre, size, extension, lf);
    ScanSizeLine(size, extension, lf);
    ScanBefore(pending, pre, PrintSizeLine(size, extension, lf));
  }

  // ---------------------------------------------------------------- lines that are rejected

  /** The bytes start with a size line, or more input makes them do so. */
  ghost predicate Completable(pending: int, q: seq<Char>) {
    exists more, v, n :: HasLine(q + more, pending, v, n)
  }

  ghost predicate HasLine(q: seq<Char>, pending: int, v: nat, n: nat) { n <= |q| && LineOf(q[..n], pending, v) }

  /** An unfinished scan can be finished. */
  lemma {:induction false} Finishes(q: seq<Char>, st: ChunkState, v: nat) returns (more: seq<Char>)
    requires Scan(q, st, v) == Partial
    ensures Scan(q + more, st, v).Line?
    decreases |q|
  {
    if q == [] {
      more := if st in {Previous, PreviousCr} then [LF, LF] else [LF];
      assert q + more == more && more[1..] == if st in {Previous, PreviousCr} then [LF] else [];
    } else {
      assert forall m: seq<Char> :: (q + m)[1..] == q[1..] + m;
      var step := ScanByte(st, v, q[0]);
      more := Finishes(q[1..], step.st, step.val);
    }
  }

  /** A scan rejects exactly the bytes that nothing can make a size line of. */
  lemma MalformedIff(pending: int, q: seq<Char>)
    requires pending in {0, PENDING_INIT}
    ensures Scan(q, Start(pending), 0) == Malformed <==> !Completable(pending, q)
  {
    hide Scan, LineOf, Start;
    match Scan(q, Start(pending), 0)
    case Malformed =>
      if more, v, n :| HasLine(q + more, pending, v, n) {
        LineIff(pending, q + more, v, n);
        ScanStable(q, more, Start(pending), 0);
      }
    case Line(v, n) =>
      LineIff(pending, q, v, n);
      assert q + [] == q;
      assert HasLine(q + [], pending, v, n);
    case Partial =>
      var more := Finishes(q, Start(pending), 0);
      var l := Scan(q + more, Start(pending), 0);
      LineIff(pending, q + more, l.val, l.len);
      assert HasLine(q + more, pending, l.val, l.len);
  }

  // ---------------------------------------------------------------- bodies that are rejected

  /** A size line and the chunk behind it. A size of 2^32 - 1 is taken for the mark of a body that has not begun. */
  datatype Block = Block(line: seq<Char>, size: nat, data: seq<Char>)

  ghost predicate IsBlock(b: Block, pending: int, cap: nat) {
    && |b.line| <= cap && LineOf(b.line, pending, b.size)
    && if b.size == U32 - 1 then b.data == [] else 0 < b.size < 0x8000_0000 && |b.data| == b.size
  }

  function PendingBehind(b: Block): int { if b.size == U32 - 1 then PENDING_INIT else 0 }

  ghost predicate Blocks(bs: seq<Block>, pending: int, cap: nat) {
    bs == [] || (IsBlock(bs[0], pending, cap) && Blocks(bs[1..], PendingBehind(bs[0]), cap))
  }

  function PendingAfter(bs: seq<Block>, pending: int): int {
    if bs == [] then pending else PendingBehind(bs[|bs| - 1])
  }

  function Joined(bs: seq<Block>): seq<Char> {
    if bs == [] then [] else bs[0].line + bs[0].data + Joined(bs[1..])
  }

  function BlockData(bs: seq<Block>): seq<Char> { if bs == [] then [] else bs[0].data + BlockData(bs[1..]) }

  /** The bytes of a size line that a ring can hold. */
  function Held(cs: seq<Char>, cap: nat): seq<Char> { cs[..Min(|cs|, cap)] }

  lemma BlockRead(b: Block, pending: int, rest: seq<Char>, cap: nat)
    requires pending in {0, PENDING_INIT} && IsBlock(b, pending, cap)
    ensures BodyOf(pending, true, b.line + b.data + rest, cap)
         == Prepend(b.data, BodyOf(PendingBehind(b), true, rest, cap))
  {
    hide BodyOf, LineOf, Scan;
    var cs := b.line + b.data + rest;
    var q := Held(cs, cap);
    assert q[..|b.line|] == b.line;
    LineIff(pending, q, b.size, |b.line|);
    assert cs[|b.line|..] == b.data + rest;
    SizeOpens(pending, cs, cap);
    if b.size == U32 - 1 {
      assert b.data + rest == rest;
      NothingPrepended(BodyOf(PENDING_INIT, true, rest, cap));
    } else {
      BodyAdvances(b.size, true, b.data + rest, cap, b.size);
      assert (b.data + rest)[..b.size] == b.data && (b.data + rest)[b.size..] == rest;
    }
  }

  lemma NothingPrepended(b: Body)
    ensures Prepend([], b) == b
  {
    assert [] + b.data == b.data;
  }

  lemma SizeOpens(pending: int, cs: seq<Char>, cap: nat)
    requires pending in {0, PENDING_INIT} && Scan(Held(cs, cap), Start(pending), 0).Line?
    requires Scan(Held(cs, cap), Start(pending), 0).val != 0
    ensures var l := Scan(Held(cs, cap), Start(pending), 0);
            BodyOf(pending, true, cs, cap) == BodyOf(Signed(l.val), true, cs[l.len..], cap)
  {
    hide Scan, Signed, Prepend;
  }

  /** Chunks are read off, whatever follows them. */
  lemma {:induction false} BlocksRead(bs: seq<Block>, pending: int, rest: seq<Char>, cap: nat)
    requires pending in {0, PENDING_INIT} && Blocks(bs, pending, cap)
    ensures BodyOf(pending, true, Joined(bs) + rest, cap)
         == Prepend(BlockData(bs), BodyOf(PendingAfter(bs, pending), true, rest, cap))
    decreases |bs|
  {
    hide BodyOf, IsBlock;
    if bs == [] {
      assert [] + rest == rest;
      NothingPrepended(BodyOf(pending, true, rest, cap));
    } else {
      var b, more := bs[0], Joined(bs[1..]) + rest;
      assert Joined(bs) + rest == b.line + b.data + more;
      BlockRead(b, pending, more, cap);
      BlocksRead(bs[1..], PendingBehind(b), rest, cap);
      var end := BodyOf(PendingAfter(bs, pending), true, rest, cap);
      assert b.data + (BlockData(bs[1..]) + end.data) == BlockData(bs) + end.data;
    }
  }

  /** Whole chunks, and then bytes that nothing makes a size line of. */
  ghost predicate BrokenBehind(bs: seq<Block>, rest: seq<Char>, pending: int, cs: seq<Char>, cap: nat) {
    Blocks(bs, pending, cap) && cs == Joined(bs) + rest && !Completable(PendingAfter(bs, pending), Held(rest, cap))
  }

  lemma BrokenHere(pending: int, cs: seq<Char>, cap: nat)
    requires pending in {0, PENDING_INIT}
    ensures BodyOf(pending, true, cs, cap) == Body([], Broken) <== !Completable(pending, Held(cs, cap))
  {
    hide Scan, Completable;
    MalformedIff(pending, Held(cs, cap));
  }

  lemma {:induction false} BrokenFound(pending: int, cs: seq<Char>, cap: nat) returns (bs: seq<Block>, rest: seq<Char>)
    requires pending in {0, PENDING_INIT} && BodyOf(pending, true, cs, cap).end == Broken
    ensures BrokenBehind(bs, rest, pending, cs, cap)
    decreases |cs|
  {
    hide Scan, LineOf, Completable, BodyOf;
    MalformedIff(pending, Held(cs, cap));
    bs, rest := [], cs;
    assert [] + cs == cs;
    LineOpens(pending, cs, cap);
    match Scan(Held(cs, cap), Start(pending), 0)
    case Line(v, n) =>
      LineIff(pending, Held(cs, cap), v, n);
      var d := if v == U32 - 1 then 0 else v;
      assert Held(cs, cap)[..n] == cs[..n];
      var b := Block(cs[..n], v, cs[n..][..d]);
      var bs', rest' := BrokenFound(PendingBehind(b), cs[n..][d..], cap);
      BlockInFront(b, bs', rest', pending, cs, cap);
      bs, rest := [b] + bs', rest';
    case _ =>
  }

  lemma BlockInFront(b: Block, bs: seq<Block>, rest: seq<Char>, pending: int, cs: seq<Char>, cap: nat)
    requires IsBlock(b, pending, cap) && |b.line| + |b.data| <= |cs|
    requires b.line == cs[..|b.line|] && b.data == cs[|b.line|..][..|b.data|]
    requires BrokenBehind(bs, rest, PendingBehind(b), cs[|b.line|..][|b.data|..], cap)
    ensures BrokenBehind([b] + bs, rest, pending, cs, cap)
  {
    hide IsBlock, Completable;
    assert ([b] + bs)[1..] == bs;
    assert bs != [] ==> ([b] + bs)[|bs|] == bs[|bs| - 1];
    assert cs == b.line + b.data + cs[|b.line|..][|b.data|..];
    assert b.line + b.data + (Joined(bs) + rest) == b.line + b.data + Joined(bs) + rest;
  }

  lemma ChunkWhole(n: nat, rest: seq<Char>, cap: nat)
    requires n > 0 && BodyOf(n, true, rest, cap).end == Broken
    ensures n <= |rest| && BodyOf(0, true, rest[n..], cap).end == Broken
  {
    if n <= |rest| {
      BodyAdvances(n, true, rest, cap, n);
    }
  }

  /** A line that a broken body goes on behind says a size that is whole in the input. */
  lemma LineOpens(pending: int, cs: seq<Char>, cap: nat)
    requires pending in {0, PENDING_INIT} && BodyOf(pending, true, cs, cap).end == Broken
    ensures match Scan(Held(cs, cap), Start(pending), 0)
            case Line(v, n) =>
              && (v == U32 - 1 || 0 < v < 0x8000_0000)
              && var d := if v == U32 - 1 then 0 else v;
                 && d <= |cs[n..]|
                 && BodyOf(if v == U32 - 1 then PENDING_INIT else 0, true, cs[n..][d..], cap).end == Broken
            case Malformed => true
            case Partial => false
  {
    hide Scan;
    var q := Held(cs, cap);
    if Scan(q, Start(pending), 0).Line? {
      var l := Scan(q, Start(pending), 0);
      SizeBound(q, Start(pending), 0);
      var rest := cs[l.len..];
      assert rest[0..] == rest;
      if 0 < l.val < 0x8000_0000 {
        ChunkWhole(l.val, rest, cap);
      }
    }
  }

  /** A chunked body is rejected exactly when, behind whole chunks, the bytes that a ring can hold are no size line and
      no more input makes them one; the data of those chunks is what is read of it. */
  lemma BrokenIff(pending: int, cs: seq<Char>, cap: nat)
    requires pending in {0, PENDING_INIT}
    ensures BodyOf(pending, true, cs, cap).end == Broken <==>
              exists bs, rest :: BrokenBehind(bs, rest, pending, cs, cap)
    ensures forall bs, rest :: BrokenBehind(bs, rest, pending, cs, cap) ==>
              BodyOf(pending, true, cs, cap) == Body(BlockData(bs), Broken)
  {
    hide BodyOf, Completable, Blocks;
    forall bs, rest | BrokenBehind(bs, rest, pending, cs, cap)
      ensures BodyOf(pending, true, cs, cap) == Body(BlockData(bs), Broken)
    {
      BlocksRead(bs, pending, rest, cap);
      BrokenHere(PendingAfter(bs, pending), rest, cap);
      assert BlockData(bs) + [] == BlockData(bs);
    }
    if BodyOf(pending, true, cs, cap).end == Broken {
      var bs, rest := BrokenFound(pending, cs, cap);
    }
  }
}
