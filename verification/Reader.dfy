/** `minute_http_read` and `minute_httpd_read_request`: the parser at work on a ring, a text buffer and a descriptor. */
module Reader {
  import opened Chars
  import opened Rings
  import opened TextInts
  import opened Patricia
  import opened Keywords
  import opened Requests

  /** The saved struct of the parser. */
  datatype Rqs = Rqs(
    st: State, est: State, ts: TrieState,
    m: nat, esc: nat, major: nat, minor: nat,
    nl: nat,
    collect: bool, hmask: set<nat>)

  function Assemble(s: Rqs, b: nat, flag: Entry, rq: Request, text: Text): Parser {
    Parser(s.st, s.est, s.ts, s.m, b, s.esc, s.major, s.minor, s.nl, s.collect, s.hmask, flag, rq, text)
  }

  /** How a pass ends: `goto top`, `break`, `return status`, `return EAGAIN`, or an access out of bounds. */
  datatype Control = Top | Break | Return(status: nat) | Wait | Bad

  class HttpReader {
    var saved: Rqs
    var rq: Request

    // The locals of one read.
    var s: Rqs
    var b: nat
    var flag: Entry

    const text: TextInt

    constructor (text: TextInt, s: Rqs, rq: Request)
      ensures this.text == text && saved == s && this.rq == rq
    {
      this.text := text;
      this.saved, this.s, this.rq := s, s, rq;
      this.b, this.flag := 0, Null;
    }

    ghost predicate Valid()
      reads this, text
    {
      text.Valid()
    }

    /** The parser as a value, while a read is under way. */
    ghost function K(): Parser
      requires Valid()
      reads this, text, text.data
    {
      Assemble(s, b, flag, rq, text.Value())
    }

    /** What a pass did, against one pass of the value machine. */
    ghost predicate Did(j: Control, c': Char, spec: Jump)
      requires Valid()
      reads this, text, text.data
    {
      match spec
      case Again(k, c) => j == Top && K() == k && c' == c
      case Next(k) => j == Break && K() == k
      case Exit(status, k) => j == Return(status) && K() == k
      case Crash => j == Bad
    }

    /** `walk_trie`, with the place kept in the saved struct. */
    method WalkTrie(c: int, offc: nat, t: Trie) returns (ok: bool, r: int)
      modifies this`s
      ensures match Patricia.WalkTrie(c, offc, t, old(s.ts))
              case Fault => !ok && s == old(s)
              case Walked(r', ts) => ok && r == r' && s == old(s).(ts := ts)
    {
      r := 0;
      var p := t.root;
      var pc := 0;
      if s.ts.poff > 0 {
        if s.ts.slot >= |t.tree| || t.tree[s.ts.slot].Null? || s.ts.poff > |t.tree[s.ts.slot].prefix| {
          return false, r;
        }
        p := t.tree[s.ts.slot];
        pc := PrefixAt(p, s.ts.poff);
        if pc == 0 && c == 0 {
          return true, p.terminal;
        }
      }
      if pc == 0 {
        if p.Null? {
          return false, r;
        }
        var slot := p.offset + offc;
        if slot >= |t.tree| {
          return false, r;
        }
        if t.tree[slot].Node? && PrefixAt(t.tree[slot], 0) == c && t.tree[slot].check == p.next {
          if t.tree[slot].prefix == "" {
            return false, r;
          }
          s := s.(ts := TrieState(1, slot));
        } else {
          return true, -1;
        }
      } else if pc == c {
        s := s.(ts := s.ts.(poff := s.ts.poff + 1));
      } else {
        return true, -1;
      }
      return true, 0;
    }

    method Lookup(c: Char, terminator: bool, t: Trie) returns (ok: bool, r: int)
      modifies this`s
      ensures match Look(t, old(s.ts), c, terminator)
              case Fault => !ok && s == old(s)
              case Walked(r', ts) => ok && r == r' && s == old(s).(ts := ts)
    {
      ok, r := WalkTrie(if terminator then 0 else c, IndexOf(t.alphabet, c), t);
    }

    method OnMethod(c: Char) returns (j: Control)
      requires Valid()
      modifies this`s, this`rq, this`b
      ensures Did(j, c, Requests.OnMethod(old(K()), c))
    {
      var ok, r := Lookup(c, c == SP, METHODS);
      if !ok {
        return Bad;
      }
      if 1 <= r <= 8 {
        rq := rq.(method_ := r);
        s := s.(st := MethodSp);
      } else if r == -1 {
        s := s.(st := ErrorBadRequest);
        return Top;
      } else if r != 0 {
        s := s.(st := ErrorInternal);
        return Top;
      }
      b := s.m;
      return Break;
    }

    method OnPath(c: Char) returns (j: Control)
      requires Valid()
      modifies this`s, this`rq, this`b, text, text.data
      ensures Valid() && Did(j, c, Requests.OnPath(old(K()), c))
    {
      if InPath(c) {
        var ok := text.PutC(c);
        if ok != 1 {
          return Return(414);
        }
        b := s.m;
      } else if c == '%' as int {
        s := s.(est := Path, st := Escaped1);
        b := s.m;
      } else if c == '?' as int {
        var ok := text.PutC(NUL);
        if ok != 1 {
          return Return(414);
        }
        b := s.m;
        rq := rq.(query := text.text);
        s := s.(st := Query);
      } else if c == SP {
        var ok := text.PutC(NUL);
        if ok != 1 {
          return Return(414);
        }
        b := s.m;
        s := s.(st := PathSp);
      } else {
        s := s.(st := ErrorBadRequest);
        return Top;
      }
      return Break;
    }

    method OnQuery(c: Char) returns (j: Control)
      requires Valid()
      modifies this`s, this`b, text, text.data
      ensures Valid() && Did(j, c, Requests.OnQuery(old(K()), c))
    {
      hide UriUric, Requests.Ready;
      if UriUric(c) {
        var ok := text.PutC(c);
        if ok != 1 {
          return Return(414);
        }
        b := s.m;
      } else if c == '%' as int {
        s := s.(est := Query, st := Escaped1);
        b := s.m;
      } else if c == SP {
        var ok := text.PutC(NUL);
        if ok != 1 {
          return Return(414);
        }
        b := s.m;
        s := s.(st := PathSp);
      } else {
        s := s.(st := ErrorBadRequest);
        return Top;
      }
      return Break;
    }

    method OnEscaped2(c: Char) returns (j: Control)
      requires Valid()
      modifies this`s, text, text.data
      ensures Valid() && Did(j, c, Requests.OnEscaped2(old(K()), c))
    {
      hide IsHex, Unescape, Requests.Ready;
      if !IsHex(c) {
        s := s.(st := ErrorBadRequest);
        return Top;
      }
      var escaped := Unescape(s.esc, c);
      var ok := text.PutC(escaped);
      if ok != 1 {
        return Return(414);
      }
      s := s.(esc := 0, st := s.est);
      return Break;
    }

    method OnProt(c: Char) returns (j: Control)
      requires Valid()
      modifies this`s, this`b
      ensures Did(j, c, Requests.OnProt(old(K()), c))
    {
      var ok, r := Lookup(c, c == '/' as int, PROTOCOL);
      if !ok {
        return Bad;
      }
      if r == 1 {
        s := s.(st := ProtSlash);
      } else if r == -1 {
        return Return(505);
      } else if r != 0 {
        s := s.(st := ErrorInternal);
        return Top;
      }
      b := s.m;
      return Break;
    }

    method OnProtEnd(c: Char) returns (j: Control)
      requires Valid()
      modifies this`s, this`rq
      ensures Did(j, c, Requests.OnProtEnd(old(K()), c))
    {
      if s.major == 0 {
        if s.minor == 9 {
          rq := rq.(version := 9);
        }
      } else if s.major == 1 {
        if s.minor == 0 {
          rq := rq.(version := 10);
        } else if s.minor == 1 {
          rq := rq.(version := 11);
        }
      }
      if rq.version == 0 {
        return Return(505);
      }
      if c == CR {
        s := s.(st := Cr);
      } else if c == LF {
        s := s.(nl := s.nl + 1, st := Nl);
      } else {
        s := s.(st := ErrorBadRequest);
        return Top;
      }
      return Break;
    }

    method DispatchLine(c: Char) returns (j: Control)
      requires Valid() && !IsHeadState(s.st)
      modifies this`s, this`rq, this`b, text, text.data
      ensures Valid() && Did(j, c, Requests.DispatchLine(old(K()), c))
    {
      hide Requests.OnMethod, Requests.OnPath, Requests.OnQuery, Requests.OnEscaped2, Requests.OnProt,
           Requests.OnProtEnd;
      j := Return(500);
      match s.st {
        case Initial =>
          if c == LF || c == CR {
            return Break;
          }
          s := s.(ts := START, esc := 0, st := Method);
          return Top;
        case Method => j := OnMethod(c);
        case MethodSp =>
          if c == SP {
            return Break;
          }
          b := s.m;
          rq := rq.(path := text.text);
          s := s.(st := Path);
          return Top;
        case Path => j := OnPath(c);
        case Escaped1 =>
          if !IsHex(c) {
            s := s.(st := ErrorBadRequest);
            return Top;
          }
          s := s.(esc := Unsigned(UriHexConv(c)), st := Escaped2);
          return Break;
        case Escaped2 => j := OnEscaped2(c);
        case Query => j := OnQuery(c);
        case PathSp =>
          if c == SP {
            return Break;
          }
          s := s.(ts := START, st := Prot);
          return Top;
        case Prot => j := OnProt(c);
        case ProtSlash =>
          if !IsDigit(c) {
            s := s.(st := ProtHttpX);
            return Top;
          }
          s := s.(major := Decimal(s.major, c));
          return Break;
        case ProtHttpX =>
          if c != '.' as int {
            s := s.(st := ErrorBadRequest);
            return Top;
          }
          s := s.(st := ProtHttpXDot);
          return Break;
        case ProtHttpXDot =>
          if !IsDigit(c) {
            s := s.(st := ProtHttpXX);
            return Top;
          }
          s := s.(minor := Decimal(s.minor, c));
          return Break;
        case ProtHttpXX => j := OnProtEnd(c);
        case ErrorNotImplemented => return Return(501);
        case ErrorBadRequest => return Return(400);
        case _ => // an internal error
      }
    }

    method OnNl(c: Char) returns (j: Control)
      requires Valid()
      modifies this`s, this`b
      ensures Did(j, c, Requests.OnNl(old(K()), c))
    {
      b := s.m;
      if c == CR {
        s := s.(st := Cr);
      } else if c == LF {
        s := s.(nl := s.nl + 1, st := Nl);
      } else if c == SP || c == HT {
        s := s.(nl := 0, st := Cont);
      } else {
        s := s.(nl := 0, ts := START, st := Header);
        return Top;
      }
      return Break;
    }

    method OnName(r: nat) returns (j: Control)
      requires Valid() && r < HEADER_NAMES
      modifies this`s, text, text.data
      ensures Valid() && Did(j, 0, Requests.OnName(old(K()), r))
    {
      if r == RQ_CONNECTION {
        s := s.(est := HeadConnection, st := ValueLead);
      } else if r == RQ_CONTENT_LENGTH {
        s := s.(est := HeadContentLength, esc := 0, st := ValueLead);
      } else if r == RQ_EXPECT {
        s := s.(est := HeadExpect, st := ValueLead);
      } else if r == RQ_TRANSFER_ENCODING {
        s := s.(est := HeadTransferEncoding, st := ValueLead);
      } else if r in s.hmask {
        ghost var t := text.Value();
        var ok := text.PutI(r);
        if ok != 1 {
          return Return(413);
        }
        ok := text.PutI(text.text);
        if ok != 1 {
          return Return(413);
        }
        assert t.ints + [r] + [|t.chars|] == t.ints + [r, |t.chars|];
        s := s.(collect := true, est := Value, st := ValueLead);
      } else {
        s := s.(collect := false, est := SkipLine, st := SkipLine);
      }
      return Break;
    }

    method OnHeader(c0: Char) returns (j: Control, c: Char)
      requires Valid()
      modifies this`s, this`b, text, text.data
      ensures Valid() && Did(j, c, Requests.OnHeader(old(K()), c0))
    {
      hide Patricia.WalkTrie, Requests.Ready, Requests.OnName;
      c := Lower(c0);
      HeaderCodeBound(s.ts, c);
      var ok, r := Lookup(c, c == COLON, HEADERS);
      if !ok {
        return Bad, c;
      }
      if r < 0 {
        s := s.(st := SkipLine);
        return Top, c;
      } else if r > 0 {
        s := s.(ts := START);
        NameKeepsMask(K(), r);
        j := OnName(r);
        if j != Break {
          return j, c;
        }
      }
      if 0 !in s.hmask {
        b := s.m;
      }
      return Break, c;
    }

    method OnContentLength(c: Char) returns (j: Control)
      requires Valid()
      modifies this`s, this`rq
      ensures Did(j, c, Requests.OnContentLength(old(K()), c))
    {
      if IsDigit(c) {
        s := s.(esc := Decimal(s.esc, c));
      } else if c == CR {
        rq := rq.(flags := rq.flags + {CONTENT_LENGTH});
        rq := rq.(contentLength := s.esc);
        s := s.(st := Cr);
      } else {
        s := s.(st := if c == LF then Cr else ErrorBadRequest);
        return Top;
      }
      return Break;
    }

    method OnFlag(c0: Char) returns (j: Control, c: Char)
      requires Valid()
      modifies this`s, this`rq, this`b
      ensures Did(j, c, Requests.OnFlag(old(K()), c0))
    {
      hide Patricia.WalkTrie, Requests.Ready;
      c := Lower(c0);
      var ok, r := Lookup(c, c == CR || c == LF, Trie(UTILITY, flag, UtilityAlphabet));
      if !ok {
        return Bad, c;
      }
      if r < 0 {
        s := s.(st := SkipLine);
        return Top, c;
      } else if r > 0 {
        rq := rq.(flags := rq.flags + Bits(r));
        b := s.m;
        s := s.(st := SkipLine);
        return Top, c;
      }
      return Break, c;
    }

    method OnValue(c: Char) returns (j: Control)
      requires Valid() && s.st == Value
      modifies this`s, this`b, text, text.data
      ensures Valid() && Did(j, c, Requests.OnValue(old(K()), c))
    {
      hide IsBlank, Requests.Ready;
      b := s.m;
      if c == CR {
        s := s.(st := Cr);
      } else if c == LF {
        s := s.(nl := s.nl + 1, st := Nl);
      } else if c == H_EOF {
        s := s.(nl := 99);
      } else {
        j := KeepChar(c);
        return j;
      }
      j := EndValue();
    }

    /** A character of a value; the first blank of a run as a space. */
    method KeepChar(c: Char) returns (j: Control)
      requires Valid() && s.st == Value && c != CR && c != LF && c != H_EOF && b == s.m
      modifies this`s, text, text.data
      ensures Valid() && Did(j, c, Requests.OnValue(old(K()), c))
    {
      hide IsBlank, Requests.Ready;
      var kept: Char := if IsBlank(c) then SP else c;
      var ok := text.PutC(kept);
      if ok != 1 {
        return Return(413);
      }
      if IsBlank(c) {
        s := s.(est := s.st, st := ValueLead);
      }
      return Break;
    }

    method EndValue() returns (j: Control)
      requires Valid()
      modifies text, text.data
      ensures Valid() && Did(j, 0, Requests.EndValue(old(K())))
    {
      var ok := text.PutC(NUL);
      if ok != 1 {
        return Return(413);
      }
      return Break;
    }

    method OnSkipLine(c: Char) returns (j: Control)
      requires Valid() && s.st == SkipLine
      modifies this`s, this`b
      ensures Did(j, c, Requests.DispatchHead(old(K()), c))
    {
      b := s.m;
      if c == CR {
        s := s.(st := Cr);
      } else if c == LF {
        s := s.(nl := s.nl + 1, st := Nl);
      } else if c == H_EOF {
        s := s.(nl := 99);
      }
      return Break;
    }

    method OnCont(c: Char) returns (j: Control)
      requires Valid() && s.st == Cont
      modifies this`s, text, text.data
      ensures Valid() && Did(j, c, Requests.DispatchHead(old(K()), c))
    {
      hide Requests.OnNl, Requests.OnHeader, Requests.OnContentLength, Requests.OnFlag, Requests.OnValue,
           Requests.Ready;
      if !s.collect {
        s := s.(st := SkipLine);
        return Top;
      }
      if text.text == 0 {
        return Bad;
      }
      text.ReplaceC(-1, SP);
      s := s.(st := ValueLead);
      return Top;
    }

    method OnCr(c: Char) returns (j: Control)
      requires Valid() && s.st == Cr
      modifies this`s
      ensures Did(j, c, Requests.DispatchHead(old(K()), c))
    {
      hide Requests.OnNl, Requests.OnHeader, Requests.OnContentLength, Requests.OnFlag, Requests.OnValue,
           Requests.Ready;
      if c == LF {
        s := s.(nl := s.nl + 1, st := Nl);
        return Break;
      }
      s := s.(st := ErrorBadRequest);
      return Top;
    }

    method StartFlag(start: Entry, c: Char) returns (j: Control)
      requires Valid()
      modifies this`s, this`flag
      ensures j == Top && K() == old(K()).(flag := start, st := HeadFlag)
    {
      flag := start;
      s := s.(st := HeadFlag);
      return Top;
    }

    method DispatchHead(c: Char) returns (j: Control, c': Char)
      requires Valid() && IsHeadState(s.st)
      modifies this`s, this`rq, this`b, this`flag, text, text.data
      ensures Valid() && Did(j, c', Requests.DispatchHead(old(K()), c))
    {
      hide Requests.OnNl, Requests.OnHeader, Requests.OnContentLength, Requests.OnFlag, Requests.OnValue, IsBlank;
      if s.st == SkipLine {
        j := OnSkipLine(c);
        return j, c;
      }
      j, c' := Break, c;
      match s.st {
        case Cr => j := OnCr(c);
        case Nl => j := OnNl(c);
        case Header => j, c' := OnHeader(c);
        case HeadConnection => j := StartFlag(CONNECTION.root, c);
        case HeadContentLength => j := OnContentLength(c);
        case HeadExpect => j := StartFlag(EXPECT.root, c);
        case HeadTransferEncoding => j := StartFlag(TRANSFER.root, c);
        case HeadFlag => j, c' := OnFlag(c);
        case Cont => j := OnCont(c);
        case ValueLead =>
          if IsBlank(c) {
            return Break, c;
          }
          b := s.m;
          s := s.(st := s.est);
          return Top, c;
        case Value => j := OnValue(c);
        case _ =>
      }
    }

    /** From `top` to the `break` or `return` that ends the byte. */
    method Switch(c0: Char) returns (j: Control)
      requires Valid() && Ready(K())
      modifies this`s, this`rq, this`b, this`flag, text, text.data
      ensures Valid() && j != Top
      ensures match Step(old(K()), c0)
              case More(k) => j == Break && Advanced() == k && s.nl <= 1
              case Done(k) => j == Break && Advanced() == k && s.nl > 1
              case Fail(status, k) => j == Return(status) && K() == k
              case OutOfBounds => j == Bad
    {
      hide Requests.DispatchLine, Requests.DispatchHead, Suspendable, InTree;
      var c := c0;
      while true
        invariant Valid() && Ready(K())
        invariant Step(K(), c) == Step(old(K()), c0)
        decreases Rank(s.st)
      {
        ghost var k := K();
        DispatchKeeps(k, c);
        if IsHeadState(s.st) {
          j, c := DispatchHead(c);
        } else {
          j := DispatchLine(c);
        }
        if j != Top {
          return;
        }
      }
    }

    /** The parser after `++s.m`. */
    ghost function Advanced(): Parser
      requires Valid()
      reads this, text, text.data
    {
      K().(m := s.m + 1)
    }

    /** The parser a read starts from. */
    ghost function Resumed(io: Ring): Parser
      requires Valid()
      reads this, text, text.data, io
    {
      Assemble(saved, io.read, Null, rq, text.Value())
    }

    ghost predicate CanRead(io: Ring)
      reads this, text, text.data, io
    {
      && Valid() && io.Valid() && io.data != text.data
      && io.read <= saved.m <= io.write
      && Suspendable(Resumed(io))
    }

    /** The character at `s.m`, or the end-of-input marker; `waits` when there is neither. */
    method Fetch(io: Ring) returns (waits: bool, c: Char)
      requires io.Valid() && s.m <= io.write
      ensures waits == (s.m == io.write && !io.eof)
      ensures s.m == io.write ==> c == H_EOF
      ensures s.m < io.write ==> io.From(s.m) == [c] + io.From(s.m + 1)
    {
      if s.m == io.write {
        return !io.eof, H_EOF;
      }
      WindowSplit(io.data[..], s.m, s.m + 1, io.write);
      return false, io.data[Slot(s.m, io.data.Length)];
    }

    /** What the bytes left from `s.m` on, and then perhaps the end of input, lead to. */
    ghost function Ahead(io: Ring): Verdict
      requires CanTurn(io)
      reads this, text, text.data, io, io.data
    {
      ReadVerdict(K(), io.From(s.m), io.eof)
    }

    ghost predicate CanTurn(io: Ring)
      reads this, text, text.data, io
    {
      Valid() && io.Valid() && io.data != text.data && Suspendable(K()) && s.m <= io.write
    }

    /** One turn of the loop of `minute_http_read`, up to and including `++s.m`. */
    method ReadByte(io: Ring) returns (j: Control)
      requires CanTurn(io)
      modifies this`s, this`rq, this`b, this`flag, text, text.data
      ensures Valid()
      ensures match j
              case Top => false
              case Break => if s.nl > 1 then old(Ahead(io)) == Done(K())
                            else CanTurn(io) && Ahead(io) == old(Ahead(io)) && s.m > old(s.m)
              case Return(status) => old(Ahead(io)) == Fail(status, K())
              case Wait => CanTurn(io) && s.m == io.write && old(Ahead(io)) == More(K())
              case Bad => old(Ahead(io)) == OutOfBounds
    {
      hide ReadVerdict, Requests.Step, Requests.Run, Requests.Suspendable, Window;
      var waits, c := Fetch(io);
      ghost var k, rest := K(), if s.m < io.write then io.From(s.m + 1) else [];
      ReadUnrolled(k, io.From(s.m), c, rest, io.eof);
      if waits {
        return Wait;
      }
      j := Turn(c);
    }

    /** The switch, then `++s.m`. */
    method Turn(c: Char) returns (j: Control)
      requires Valid() && Suspendable(K())
      modifies this`s, this`rq, this`b, this`flag, text, text.data
      ensures Valid()
      ensures match Step(old(K()), c)
              case More(k) => j == Break && K() == k && s.nl <= 1
              case Done(k) => j == Break && K() == k && s.nl > 1
              case Fail(status, k) => j == Return(status) && K() == k
              case OutOfBounds => j == Bad
    {
      j := Switch(c);
      if j == Break {
        s := s.(m := s.m + 1);
      }
    }

    /** What a read leaves, by its verdict. */
    ghost predicate Left(v: Verdict, ok: bool, status: nat, io: Ring)
      requires Valid()
      reads this, text, text.data, io
    {
      match v
      case More(k) => ok && status == EAGAIN && Resumed(io) == k.(flag := Null) && io.read == k.b && k.m == io.write
      case Done(k) => ok && status == 0 && io.read == k.m == saved.m && rq == k.rq && text.Value() == k.text
      case Fail(code, k) => ok && status == code && rq == k.rq && text.Value() == k.text && io.Valid()
      case OutOfBounds => !ok
    }

    /** `minute_http_read`. `ok` fails on an access out of bounds. */
    method Read(io: Ring) returns (ok: bool, status: nat)
      requires CanRead(io)
      modifies this, text, text.data, io`read
      ensures Valid() && Left(ReadVerdict(old(Resumed(io)), old(io.From(saved.m)), io.eof), ok, status, io)
    {
      hide ReadVerdict, Suspendable;
      s := saved;
      b := io.read;
      flag := Null;
      ghost var v := Ahead(io);
      while true
        invariant CanTurn(io) && Ahead(io) == v && io.read == old(io.read)
        decreases io.write - s.m
      {
        var j := ReadByte(io);
        if j == Bad {
          return false, 0;
        } else if j == Wait {
          io.read := b;
          saved := s;
          return true, EAGAIN;
        } else if j.Return? {
          return true, j.status;
        } else if s.nl > 1 {
          io.read := s.m;
          saved := s;
          return true, 0;
        }
      }
    }
  }

  /** The verdict of one read: the bytes at hand, then the end-of-input marker if that is all there will be. */
  function ReadVerdict(k: Parser, cs: seq<Char>, eof: bool): Verdict
    requires Suspendable(k)
  {
    var v := Run(k, cs);
    if v.More? && eof then Step(v.k, H_EOF) else v
  }

  lemma ReadUnrolled(k: Parser, cs: seq<Char>, c: Char, rest: seq<Char>, eof: bool)
    requires Suspendable(k) && (cs == [c] + rest || (cs == [] && c == H_EOF))
    ensures cs != [] || eof ==>
              ReadVerdict(k, cs, eof) == (if Step(k, c).More? then ReadVerdict(Step(k, c).k, rest, eof) else Step(k, c))
    ensures cs == [] ==> !Step(k, c).More?
    ensures cs == [] && !eof ==> ReadVerdict(k, cs, eof) == More(k)
  {
    EofEnds(k);
    if cs != [] {
      assert cs[0] == c && cs[1..] == rest;
    }
  }
}
