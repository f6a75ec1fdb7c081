/** Chunked bodies (RFC 2616, section 3.6.1) and bodies of a given length: the decoder of libhttpd/httpd.c as a function
    of the input. */
module Chunks {
  import opened Chars
  import opened Requests

  // ---------------------------------------------------------------- the size line

  datatype ChunkState = Previous | PreviousCr | Size | Extension | LineCr

  /** A byte of a size line: go on, the line is complete, or it is malformed. */
  datatype ScanStep = Go(st: ChunkState, val: nat) | Stop(val: nat) | Wrong

  ghost predicate AllHex(s: seq<Char>) { forall i :: 0 <= i < |s| ==> IsHex(s[i]) }

  function HexValue(c: int): nat
    requires IsHex(c)
  {
    if IsDigit(c) then c - '0' as int
    else if 'a' as int <= c <= 'f' as int then c - 'a' as int + 10
    else c - 'A' as int + 10
  }

  /** The value of a hex digit, in either case. */
  lemma HexDigitIs(c: Char)
    requires IsHex(c)
    ensures HexValue(c) < 16
    ensures c == "0123456789abcdef"[HexValue(c)] as int || c == "0123456789ABCDEF"[HexValue(c)] as int
  {
  }

  function ScanByte(st: ChunkState, val: nat, c: Char): ScanStep {
    match st
    case Previous => if c == CR then Go(PreviousCr, val) else if c == LF then Go(Size, val) else Wrong
    case PreviousCr => if c == LF then Go(Size, val) else Wrong
    case Size =>
      if IsHex(c) then Go(Size, (val * 16 + HexValue(c)) % U32)
      else if c == ';' as int then Go(Extension, val)
      else if c == CR then Go(LineCr, val)
      else if c == LF then Stop(val)
      else Wrong
    case Extension => if c == CR then Go(LineCr, val) else if c == LF then Stop(val) else Go(Extension, val)
    case LineCr => if c == LF then Stop(val) else Wrong
  }

  /** A scan of the bytes at hand: not a whole line yet, malformed, or a size and the length of its line. */
  datatype Scanned = Partial | Malformed | Line(val: nat, len: nat)

  function Scan(cs: seq<Char>, st: ChunkState, val: nat): (r: Scanned)
    ensures r.Line? ==> 1 <= r.len <= |cs|
    decreases |cs|
  {
    if cs == [] then Partial
    else
      match ScanByte(st, val, cs[0])
      case Go(st', val') => (match Scan(cs[1..], st', val') case Line(v, n) => Line(v, n + 1) case r => r)
      case Stop(v) => Line(v, 1)
      case Wrong => Malformed
  }

  /** More input does not change a scan that has come to an end, so rescanning a line from its start is sound. */
  lemma {:induction false} ScanStable(a: seq<Char>, b: seq<Char>, st: ChunkState, val: nat)
    ensures Scan(a, st, val) != Partial ==> Scan(a + b, st, val) == Scan(a, st, val)
    decreases |a|
  {
    if a != [] {
      assert (a + b)[0] == a[0] && (a + b)[1..] == a[1..] + b;
      match ScanByte(st, val, a[0])
      case Go(st', val') => ScanStable(a[1..], b, st', val');
      case _ =>
    }
  }

  // ---------------------------------------------------------------- the body

  const PENDING_INIT := -1
  const PENDING_EOF := -2
  const PENDING_ERROR := -3

  /** An unsigned value stored in an `int`. */
  function Signed(v: nat): int { if v % U32 < 0x8000_0000 then v % U32 else v % U32 - U32 }

  /** What comes after the bytes of a body: a last-chunk line or the end of a counted body, with the input behind it;
      input cut short; a malformed line; a size line the ring cannot hold; or nothing, with all the input left, when
      reading was over already or a size is taken for the mark of that. */
  datatype BodyEnd = LastChunk(rest: seq<Char>) | Counted(rest: seq<Char>) | Cut | Broken | Stalled
      | Over(rest: seq<Char>)

  datatype Body = Body(data: seq<Char>, end: BodyEnd)

  function Prepend(d: seq<Char>, b: Body): Body { Body(d + b.data, b.end) }

  function Min(a: nat, b: nat): nat { if a < b then a else b }

  /** The size line at the start of `cs`, as far as a ring of `cap` bytes can hold it. */
  function SizeLine(pending: int, cs: seq<Char>, cap: nat): (r: Scanned)
    ensures r.Line? ==> 1 <= r.len <= |cs|
  {
    Scan(cs[..Min(|cs|, cap)], if pending == 0 then Previous else Size, 0)
  }

  /** The body at the start of `cs`. It does not say how `cs` is cut or how much is read at a time. */
  function BodyOf(pending: int, chunked: bool, cs: seq<Char>, cap: nat): Body
    decreases |cs|, pending
  {
    if pending <= PENDING_EOF then Body([], Over(cs))
    else if pending > 0 then
      if cs == [] then Body([], Cut)
      else var n := Min(pending, |cs|); Prepend(cs[..n], BodyOf(pending - n, chunked, cs[n..], cap))
    else if !chunked then Body([], Counted(cs))
    else
      match SizeLine(pending, cs, cap)
      case Malformed => Body([], Broken)
      case Partial => Body([], if |cs| >= cap then Stalled else Cut)
      case Line(v, n) => if v == 0 then Body([], LastChunk(cs[n..])) else BodyOf(Signed(v), chunked, cs[n..], cap)
  }

  /** Reading the first `r` bytes of a chunk leaves the rest of the body. */
  lemma BodyAdvances(pending: int, chunked: bool, cs: seq<Char>, cap: nat, r: nat)
    requires 1 <= r <= pending && r <= |cs|
    ensures BodyOf(pending, chunked, cs, cap) == Prepend(cs[..r], BodyOf(pending - r, chunked, cs[r..], cap))
  {
    var n := Min(pending, |cs|);
    assert cs[..n] == cs[..r] + cs[r..][..n - r] && cs[r..][n - r..] == cs[n..];
    if r == n {
      assert cs[..n] == cs[..r];
    } else {
      var b := BodyOf(pending - n, chunked, cs[n..], cap);
      assert cs[..r] + (cs[r..][..n - r] + b.data) == cs[..n] + b.data;
    }
  }

  lemma BodyEnds(pending: int, chunked: bool, cs: seq<Char>, cap: nat)
    ensures pending <= PENDING_EOF ==> BodyOf(pending, chunked, cs, cap) == Body([], Over(cs))
    ensures PENDING_EOF < pending <= 0 && !chunked ==> BodyOf(pending, chunked, cs, cap) == Body([], Counted(cs))
    ensures pending > 0 && cs == [] ==> BodyOf(pending, chunked, cs, cap) == Body([], Cut)
  {
  }

  /** What a scan of the bytes `q` in the ring says about the body. */
  lemma ScanTells(pending: int, q: seq<Char>, rest: seq<Char>, cap: nat)
    requires PENDING_EOF < pending <= 0 && |q| <= cap
    ensures var (cs, s) := (q + rest, Scan(q, if pending == 0 then Previous else Size, 0));
            var b := BodyOf(pending, true, cs, cap);
            && (s.Line? ==> cs[s.len..] == q[s.len..] + rest
                            && b == if s.val == 0 then Body([], LastChunk(cs[s.len..]))
                               else BodyOf(Signed(s.val), true, cs[s.len..], cap))
            && (s.Malformed? ==> b == Body([], Broken))
            && (s.Partial? && |q| == cap ==> b == Body([], Stalled))
            && (s.Partial? && |q| < cap && rest == [] ==> b == Body([], Cut))
  {
    hide Scan, ScanByte;
    var cs, n := q + rest, Min(|q + rest|, cap);
    assert cs[..n] == q + rest[..n - |q|];
    ScanStable(q, rest[..n - |q|], if pending == 0 then Previous else Size, 0);
    if |q| == cap || rest == [] {
      assert cs[..n] == q;
    }
  }

  // ---------------------------------------------------------------- size lines the ring cannot hold

  /** An extension, as far as it goes: no line end yet, but for a CR as the last byte. */
  predicate ExtensionPart(e: seq<Char>) {
    e != [] ==> e[|e| - 1] != LF && forall i :: 0 <= i < |e| - 1 ==> e[i] != CR && e[i] != LF
  }

  /** A size line, as far as it goes: hex digits, then nothing, a CR, or an extension. */
  ghost predicate SizePart(q: seq<Char>) {
    exists d :: 0 <= d <= |q| && SizePartAt(q, d)
  }

  ghost predicate SizePartAt(q: seq<Char>, d: nat)
    requires d <= |q|
  {
    AllHex(q[..d]) && (d == |q| || (q[d] == CR && d + 1 == |q|) || (q[d] == ';' as int && ExtensionPart(q[d + 1..])))
  }

  /** The same where the line end of a chunk comes first. */
  ghost predicate LinePart(pending: int, q: seq<Char>) {
    if pending == 0 then
      || q == [] || q == [CR] || (q[0] == LF && SizePart(q[1..]))
         || (|q| > 1 && q[0] == CR && q[1] == LF && SizePart(q[2..]))
    else SizePart(q)
  }

  lemma {:induction false} ExtensionIff(q: seq<Char>, v: nat)
    ensures Scan(q, Extension, v) == Partial <==> ExtensionPart(q)
    decreases |q|
  {
    if |q| > 1 {
      ExtensionIff(q[1..], v);
      assert q[|q| - 1] == q[1..][|q[1..]| - 1];
      assert forall i :: 0 <= i < |q[1..]| - 1 ==> q[1..][i] == q[i + 1];
      if q[0] != CR && q[0] != LF && ExtensionPart(q[1..]) {
        assert forall i :: 0 < i < |q| - 1 ==> q[i] == q[1..][i - 1];
      }
    }
  }

  lemma {:induction false} SizeIff(q: seq<Char>, v: nat)
    ensures Scan(q, Size, v) == Partial <==> SizePart(q)
    decreases |q|
  {
    assert q[..0] == [];
    if q == [] {
      assert SizePartAt(q, 0);
    } else if IsHex(q[0]) {
      SizeIff(q[1..], (v * 16 + HexValue(q[0])) % U32);
      SizeShift(q);
    } else {
      ExtensionIff(q[1..], v);
      assert forall d :: 0 < d <= |q| ==> q[..d][0] == q[0];
      assert SizePart(q) <==> SizePartAt(q, 0);
    }
  }

  /** One more hex digit in front. */
  lemma SizeShift(q: seq<Char>)
    requires q != [] && IsHex(q[0])
    ensures SizePart(q) <==> SizePart(q[1..])
  {
    var r := q[1..];
    forall d | 0 <= d <= |r|
      ensures SizePartAt(r, d) <==> SizePartAt(q, d + 1)
    {
      assert q[..d + 1] == [q[0]] + r[..d];
      assert r[..d] == q[..d + 1][1..];
      assert d < |r| ==> r[d + 1..] == q[d + 2..];
    }
    if SizePart(q) {
      var d :| 0 <= d <= |q| && SizePartAt(q, d);
      assert d > 0;
      assert SizePartAt(r, d - 1);
    }
    if SizePart(r) {
      var d :| 0 <= d <= |r| && SizePartAt(r, d);
      assert SizePartAt(q, d + 1);
    }
  }

  /** A size line is unfinished exactly when it is well formed as far as it goes and its LF has not come. */
  lemma PartialIff(pending: int, q: seq<Char>)
    ensures Scan(q, if pending == 0 then Previous else Size, 0) == Partial <==> LinePart(pending, q)
  {
    hide SizePart;
    if pending != 0 {
      SizeIff(q, 0);
    } else if q != [] && q[0] == LF {
      SizeIff(q[1..], 0);
    } else if |q| > 1 && q[0] == CR && q[1] == LF {
      SizeIff(q[2..], 0);
      assert q[1..][1..] == q[2..];
    }
  }

  /** Between chunks, a body stalls exactly when its first `cap` bytes are an unfinished size line, or when the line
      says 2^32 - 1, which is stored as -1, and what follows stalls. */
  lemma StallsIff(pending: int, cs: seq<Char>, cap: nat)
    requires PENDING_EOF < pending <= 0
    ensures BodyOf(pending, true, cs, cap) == Body([], Stalled)
       <==> || (|cs| >= cap && LinePart(pending, cs[..cap]))
            || (var l := SizeLine(pending, cs, cap);
                l.Line? && l.val == U32 - 1 && BodyOf(PENDING_INIT, true, cs[l.len..], cap) == Body([], Stalled))
  {
    hide Scan, LinePart, Signed;
    PartialIff(pending, cs[..Min(|cs|, cap)]);
    var l := SizeLine(pending, cs, cap);
    if l.Line? && l.val != 0 {
      SizeBound(cs[..Min(|cs|, cap)], if pending == 0 then Previous else Size, 0);
      SignedSize(l.val);
      if l.val != U32 - 1 {
        ChunkHasData(Signed(l.val), cs[l.len..], cap);
      }
    }
  }

  lemma SignedSize(v: nat)
    requires 0 < v < U32
    ensures Signed(v) != 0 && (Signed(v) == PENDING_INIT <==> v == U32 - 1)
  {
  }

  /** A chunk size from 2^31 to 2^32 - 2 is stored as a negative number that says the body is over, and only such a size
      is: the chunk is left unread. */
  lemma HugeSizeEndsIff(pending: int, cs: seq<Char>, cap: nat)
    requires PENDING_EOF < pending <= 0 && SizeLine(pending, cs, cap).Line?
    ensures var l := SizeLine(pending, cs, cap);
            BodyOf(pending, true, cs, cap) == Body([], Over(cs[l.len..])) <==> 0x8000_0000 <= l.val < U32 - 1
  {
    hide Scan;
    var l := SizeLine(pending, cs, cap);
    SizeBound(cs[..Min(|cs|, cap)], if pending == 0 then Previous else Size, 0);
    if 0 < l.val < U32 - 1 && Signed(l.val) > 0 {
      ChunkNotOver(l.val, cs[l.len..], cap);
    } else if l.val == U32 - 1 {
      OverShrinks(PENDING_INIT, cs[l.len..], cap);
    }
  }

  lemma ChunkNotOver(pending: int, cs: seq<Char>, cap: nat)
    requires pending > 0
    ensures BodyOf(pending, true, cs, cap).data != [] || BodyOf(pending, true, cs, cap).end == Cut
  {
  }

  /** A body that is over without data has lost a size line. */
  lemma {:induction false} OverShrinks(pending: int, cs: seq<Char>, cap: nat)
    requires PENDING_EOF < pending <= 0
    ensures var b := BodyOf(pending, true, cs, cap); b.data == [] && b.end.Over? ==> |b.end.rest| < |cs|
    decreases |cs|
  {
    var l := SizeLine(pending, cs, cap);
    if l.Line? && l.val != 0 {
      if Signed(l.val) > 0 {
        ChunkNotOver(Signed(l.val), cs[l.len..], cap);
      } else if Signed(l.val) > PENDING_EOF {
        OverShrinks(Signed(l.val), cs[l.len..], cap);
      }
    }
  }

  /** A size is below 2^32. */
  lemma {:induction false} SizeBound(cs: seq<Char>, st: ChunkState, v: nat)
    requires v < U32
    ensures Scan(cs, st, v).Line? ==> Scan(cs, st, v).val < U32
    decreases |cs|
  {
    if cs != [] {
      match ScanByte(st, v, cs[0])
      case Go(st', v') => SizeBound(cs[1..], st', v');
      case _ =>
    }
  }

  lemma ChunkHasData(pending: int, cs: seq<Char>, cap: nat)
    requires pending != 0 && pending != PENDING_INIT
    ensures BodyOf(pending, true, cs, cap) != Body([], Stalled)
  {
    if pending > 0 && cs != [] {
      assert cs[..Min(pending, |cs|)] != [];
    }
  }

  /** An instance: an extension without end. */
  lemma EndlessExtensionStalls(e: seq<Char>, cap: nat)
    requires |e| >= cap && forall i :: 0 <= i < |e| ==> e[i] != CR && e[i] != LF
    ensures BodyOf(PENDING_INIT, true, [';' as int] + e, cap) == Body([], Stalled)
  {
    var cs := [';' as int] + e;
    var q := cs[..cap];
    if cap > 0 {
      assert q[..0] == [] && SizePartAt(q, 0);
    } else {
      assert SizePartAt(q, 0);
    }
    StallsIff(PENDING_INIT, cs, cap);
  }

  // ---------------------------------------------------------------- well formed chunked bodies

  /** A chunk as it may be written: hex digits of either case, an extension, line ends with or without CR. */
  datatype Chunk = Chunk(size: seq<Char>, extension: seq<Char>, lf: bool, data: seq<Char>, endLf: bool)

  /** The number spelled by hex digits, read after `v`. */
  function HexFrom(v: nat, digits: seq<Char>): nat
    requires AllHex(digits)
    decreases |digits|
  {
    if digits == [] then v else HexFrom(v * 16 + HexValue(digits[0]), digits[1..])
  }

  predicate ValidExtension(s: seq<Char>) {
    s == [] || (s[0] == ';' as int && forall i :: 0 <= i < |s| ==> s[i] != CR && s[i] != LF)
  }

  /** The size line fits the ring, with the line end of the chunk before it. */
  ghost predicate ValidLine(size: seq<Char>, extension: seq<Char>, lf: bool, cap: nat) {
    && AllHex(size) && ValidExtension(extension)
    && 2 + |size| + |extension| + |Eol(lf)| <= cap
  }

  ghost predicate ValidChunk(c: Chunk, cap: nat) {
    && ValidLine(c.size, c.extension, c.lf, cap)
    && 0 < HexFrom(0, c.size) == |c.data| < 0x8000_0000
  }

  function PrintSizeLine(size: seq<Char>, extension: seq<Char>, lf: bool): seq<Char> { size + extension + Eol(lf) }

  function PrintChunk(c: Chunk): seq<Char> {
    PrintSizeLine(c.size, c.extension, c.lf) + (c.data + Eol(c.endLf))
  }

  function PrintChunks(cs: seq<Chunk>): seq<Char> {
    if cs == [] then [] else PrintChunk(cs[0]) + PrintChunks(cs[1..])
  }

  function ChunkData(cs: seq<Chunk>): seq<Char> {
    if cs == [] then [] else cs[0].data + ChunkData(cs[1..])
  }

  /** Chunks, then a size line that says 0. */
  datatype Chunked = Chunked(chunks: seq<Chunk>, size: seq<Char>, extension: seq<Char>, lf: bool)

  ghost predicate ValidBody(b: Chunked, cap: nat) {
    && (forall i :: 0 <= i < |b.chunks| ==> ValidChunk(b.chunks[i], cap))
    && ValidLine(b.size, b.extension, b.lf, cap) && HexFrom(0, b.size) == 0
  }

  function PrintBody(b: Chunked): seq<Char> { PrintChunks(b.chunks) + PrintSizeLine(b.size, b.extension, b.lf) }

  // ---------------------------------------------------------------- decoding undoes printing

  function Longer(r: Scanned, n: nat): Scanned { match r case Line(v, m) => Line(v, m + n) case r => r }

  /** Hex digits read modulo 2^32. */
  lemma {:induction false} HexWraps(v: nat, digits: seq<Char>)
    requires AllHex(digits)
    ensures HexFrom(v % U32, digits) % U32 == HexFrom(v, digits) % U32
    decreases |digits|
  {
    hide IsHex, HexValue;
    if digits != [] {
      var x := HexValue(digits[0]);
      HexWraps(v * 16 + x, digits[1..]);
      HexWraps(v % U32 * 16 + x, digits[1..]);
      DigitWraps(v, x);
    }
  }

  lemma DigitWraps(v: nat, x: nat)
    ensures (v % U32 * 16 + x) % U32 == (v * 16 + x) % U32
  {
    assert v == v / U32 * U32 + v % U32;
    assert v * 16 + x == (v / U32 * 16) * U32 + (v % U32 * 16 + x);
  }

  lemma NoDigits(v: nat)
    ensures HexFrom(v, []) == v
  {
  }

  lemma {:induction false} ScanDigits(digits: seq<Char>, rest: seq<Char>, v: nat)
    requires AllHex(digits) && v < U32
    ensures Scan(digits + rest, Size, v) == Longer(Scan(rest, Size, HexFrom(v, digits) % U32), |digits|)
    decreases |digits|
  {
    hide IsHex, HexValue;
    if digits == [] {
      assert digits + rest == rest;
    } else {
      var v' := v * 16 + HexValue(digits[0]);
      assert (digits + rest)[1..] == digits[1..] + rest;
      ScanDigits(digits[1..], rest, v' % U32);
      HexWraps(v', digits[1..]);
    }
  }

  lemma ScanLineEnd(lf: bool, st: ChunkState, v: nat)
    requires st in {Size, Extension}
    ensures Scan(Eol(lf), st, v) == Line(v, |Eol(lf)|)
  {
    if !lf {
      assert [CR, LF][1..] == [LF];
    }
  }

  lemma {:induction false} ScanExtension(s: seq<Char>, lf: bool, v: nat)
    requires forall i :: 0 <= i < |s| ==> s[i] != CR && s[i] != LF
    ensures Scan(s + Eol(lf), Extension, v) == Line(v, |s| + |Eol(lf)|)
    decreases |s|
  {
    if s == [] {
      assert s + Eol(lf) == Eol(lf);
      ScanLineEnd(lf, Extension, v);
    } else {
      assert (s + Eol(lf))[1..] == s[1..] + Eol(lf);
      ScanExtension(s[1..], lf, v);
    }
  }

  lemma ScanSizeLine(size: seq<Char>, extension: seq<Char>, lf: bool)
    requires AllHex(size) && ValidExtension(extension)
    ensures Scan(PrintSizeLine(size, extension, lf), Size, 0)
         == Line(HexFrom(0, size) % U32, |PrintSizeLine(size, extension, lf)|)
  {
    var v, tail := HexFrom(0, size) % U32, extension + Eol(lf);
    assert PrintSizeLine(size, extension, lf) == size + tail;
    ScanDigits(size, tail, 0);
    if extension == [] {
      assert tail == Eol(lf);
      ScanLineEnd(lf, Size, v);
    } else {
      assert tail[1..] == extension[1..] + Eol(lf);
      ScanExtension(extension[1..], lf, v);
    }
  }

  /** Where a size line is expected: at the start of a body, or after the line end of a chunk. */
  ghost predicate Before(pending: int, pre: seq<Char>) {
    (pending == PENDING_INIT && pre == []) || (pending == 0 && (pre == Eol(true) || pre == Eol(false)))
  }

  lemma ScanBefore(pending: int, pre: seq<Char>, line: seq<Char>)
    requires Before(pending, pre)
    ensures Scan(pre + line, if pending == 0 then Previous else Size, 0) == Longer(Scan(line, Size, 0), |pre|)
  {
    if pre == [] {
      assert pre + line == line;
    } else if pre == [LF] {
      assert (pre + line)[1..] == line;
    } else {
      assert (pre + line)[1..] == [LF] + line && ([LF] + line)[1..] == line;
    }
  }

  lemma SizeLineRead(pending: int, pre: seq<Char>, size: seq<Char>, extension: seq<Char>, lf: bool, rest: seq<Char>,
                     cap: nat)
    requires Before(pending, pre) && ValidLine(size, extension, lf, cap) && HexFrom(0, size) < U32
    ensures var line := pre + PrintSizeLine(size, extension, lf);
            SizeLine(pending, line + rest, cap) == Line(HexFrom(0, size), |line|)
  {
    var line := pre + PrintSizeLine(size, extension, lf);
    var st := if pending == 0 then Previous else Size;
    ScanSizeLine(size, extension, lf);
    ScanBefore(pending, pre, PrintSizeLine(size, extension, lf));
    var n := Min(|line + rest|, cap);
    assert (line + rest)[..n] == line + rest[..n - |line|];
    ScanStable(line, rest[..n - |line|], st, 0);
  }

  lemma LineOpensChunk(pending: int, cs: seq<Char>, cap: nat)
    requires pending in {0, PENDING_INIT} && SizeLine(pending, cs, cap).Line?
             && 0 < SizeLine(pending, cs, cap).val < 0x8000_0000
    ensures var l := SizeLine(pending, cs, cap); BodyOf(pending, true, cs, cap) == BodyOf(l.val, true, cs[l.len..], cap)
  {
    hide SizeLine, Prepend, Min;
  }

  lemma ChunkSplit(pre: seq<Char>, c: Chunk, rest: seq<Char>)
    ensures var (line, after) := (pre + PrintSizeLine(c.size, c.extension, c.lf), c.data + (Eol(c.endLf) + rest));
            && pre + (PrintChunk(c) + rest) == line + after
            && (line + after)[|line|..] == after
            && after[..|c.data|] == c.data && after[|c.data|..] == Eol(c.endLf) + rest
  {
    hide PrintSizeLine, Eol;
  }

  lemma ChunkRead(pending: int, pre: seq<Char>, c: Chunk, rest: seq<Char>, cap: nat)
    requires Before(pending, pre) && ValidChunk(c, cap)
    ensures BodyOf(pending, true, pre + (PrintChunk(c) + rest), cap)
         == Prepend(c.data, BodyOf(0, true, Eol(c.endLf) + rest, cap))
  {
    hide BodyOf, Prepend, PrintSizeLine, PrintChunk, SizeLine, Eol, ValidLine, HexFrom;
    var line := pre + PrintSizeLine(c.size, c.extension, c.lf);
    var after := c.data + (Eol(c.endLf) + rest);
    ChunkSplit(pre, c, rest);
    SizeLineRead(pending, pre, c.size, c.extension, c.lf, after, cap);
    LineOpensChunk(pending, line + after, cap);
    BodyAdvances(|c.data|, true, after, cap, |c.data|);
  }

  lemma LastLineRead(pending: int, pre: seq<Char>, b: Chunked, rest: seq<Char>, cap: nat)
    requires Before(pending, pre) && ValidBody(b, cap)
    ensures BodyOf(pending, true, pre + (PrintSizeLine(b.size, b.extension, b.lf) + rest), cap)
            == Body([], LastChunk(rest))
  {
    var line := pre + PrintSizeLine(b.size, b.extension, b.lf);
    assert pre + (PrintSizeLine(b.size, b.extension, b.lf) + rest) == line + rest;
    SizeLineRead(pending, pre, b.size, b.extension, b.lf, rest, cap);
    assert (line + rest)[|line|..] == rest;
  }

  lemma {:induction false} ChunksRead(pending: int, pre: seq<Char>, b: Chunked, rest: seq<Char>, cap: nat)
    requires Before(pending, pre) && ValidBody(b, cap)
    ensures BodyOf(pending, true, pre + (PrintBody(b) + rest), cap) == Body(ChunkData(b.chunks), LastChunk(rest))
    decreases |b.chunks|
  {
    var last := PrintSizeLine(b.size, b.extension, b.lf);
    if b.chunks == [] {
      assert PrintBody(b) == last;
      LastLineRead(pending, pre, b, rest, cap);
    } else {
      var c, b' := b.chunks[0], b.(chunks := b.chunks[1..]);
      assert PrintBody(b) + rest == PrintChunk(c) + (PrintBody(b') + rest);
      ChunkRead(pending, pre, c, PrintBody(b') + rest, cap);
      ChunksRead(0, Eol(c.endLf), b', rest, cap);
    }
  }

  /** A well formed chunked body decodes to its chunk data, and what follows its last-chunk line is untouched. */
  lemma ChunkedBodyDecodes(b: Chunked, rest: seq<Char>, cap: nat)
    requires ValidBody(b, cap)
    ensures BodyOf(PENDING_INIT, true, PrintBody(b) + rest, cap) == Body(ChunkData(b.chunks), LastChunk(rest))
  {
    assert [] + (PrintBody(b) + rest) == PrintBody(b) + rest;
    ChunksRead(PENDING_INIT, [], b, rest, cap);
  }

  /** A body of a given length is its first bytes, cut only by the end of input. */
  lemma CountedBodyDecodes(n: nat, cs: seq<Char>, cap: nat)
    ensures BodyOf(n, false, cs, cap) == if n <= |cs| then Body(cs[..n], Counted(cs[n..])) else Body(cs, Cut)
  {
    if n == 0 {
      assert cs[..0] == [] && cs[0..] == cs;
    } else if n <= |cs| {
      assert cs[..n] + [] == cs[..n];
    } else if cs != [] {
      assert cs[..|cs|] + [] == cs;
    }
  }
}
