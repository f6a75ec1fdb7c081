/** The request parser of libhttp/http.c, one byte at a time: the switch of `minute_http_read` on its saved state. */
module Requests {
  import opened Chars
  import opened TextInts
  import opened Patricia
  import opened Keywords

  const U32 := 0x1_0000_0000

  datatype State =
    | Initial
    | Method | MethodSp
    | Path | Query | PathSp
    | Prot | ProtSlash | ProtHttpX | ProtHttpXDot | ProtHttpXX
    | Cr | Nl | SkipLine
    | Header | Escaped1 | Escaped2
    | ValueLead | Cont | Value
    | HeadConnection | HeadContentLength | HeadExpect | HeadTransferEncoding | HeadFlag
    | ErrorNotImplemented | ErrorBadRequest | ErrorInternal

  // Bits of the request flags.
  const CLOSE := 1
  const KEEP := 2
  const CONTINUE := 4
  const CHUNKED := 8
  const CONTENT_LENGTH := 16

  // Header codes with a meaning to the parser.
  const RQ_CONNECTION := 7
  const RQ_CONTENT_LENGTH := 10
  const RQ_EXPECT := 16
  const RQ_TRANSFER_ENCODING := 32

  // Results of a read.
  const EAGAIN := 11

  /** The parsed request. `path` and `query` are offsets into the text, 0 when unset. */
  datatype Request = Request(flags: set<nat>, version: nat, method_: nat, path: nat, query: nat, contentLength: nat)

  const NO_REQUEST := Request({}, 0, 0, 0, 0, 0)

  /** The parser: its saved struct, the locals `b` and `patinitial_flag` of one read, the request and the text. */
  datatype Parser = Parser(
    st: State, est: State, ts: TrieState,
    m: nat, b: nat,
    esc: nat, major: nat, minor: nat,
    nl: nat,
    collect: bool, hmask: set<nat>,
    flag: Entry,
    rq: Request, text: Text)

  const ALL_HEADERS := set k: nat | k < HEADER_NAMES

  /** `minute_http_rqs_init` at read offset `m`. */
  function Fresh(st: State, hmask: set<nat>, m: nat, rq: Request, text: Text): Parser {
    Parser(st, Initial, START, m, m, 0, 0, 0, 0, false, hmask, Null, rq, text)
  }

  /** `minute_http_init`: text offset 0 holds a NUL, so offset 0 can mean "unset". */
  function Init(hmask: set<nat>, m: nat, rq: Request, size: nat): Parser {
    Fresh(Initial, hmask, m, rq, Text([NUL], [], size))
  }

  /** `minute_http_init_trailers`. */
  function InitTrailers(hmask: set<nat>, m: nat, rq: Request, text: Text): Parser {
    Fresh(Header, hmask, m, rq, text)
  }

  // ---------------------------------------------------------------- character classes (RFC 2396, Appendix A)

  function UriHexConv(c: int): int {
    if 'a' as int <= c <= 'f' as int then c + 10 - 'a' as int
    else if 'A' as int <= c <= 'F' as int then c + 10 - 'a' as int
    else c - '0' as int
  }

  predicate UriAlphanum(c: int) { IsLower(c) || IsUpper(c) || IsDigit(c) }

  predicate UriMark(c: int) {
    c == '-' as int || c == '_' as int || c == '.' as int || c == '!' as int || c == '~' as int
    || c == '*' as int || c == '\'' as int || c == '(' as int || c == ')' as int
  }

  predicate UriUnreserved(c: int) { UriAlphanum(c) || UriMark(c) }

  predicate UriReserved(c: int) {
    c == ';' as int || c == '/' as int || c == '?' as int || c == ':' as int || c == '@' as int
    || c == '&' as int || c == '=' as int || c == '+' as int || c == '$' as int || c == ',' as int
  }

  predicate UriPchar(c: int) {
    UriUnreserved(c) || c == ':' as int || c == '@' as int || c == '&' as int
    || c == '=' as int || c == '+' as int || c == '$' as int || c == ',' as int
  }

  predicate UriUric(c: int) { UriUnreserved(c) || UriReserved(c) }

  predicate InPath(c: int) { UriPchar(c) || c == '/' as int || c == ';' as int }

  /** Bitwise or. */
  function BitOr(a: nat, b: nat): nat {
    if a == 0 && b == 0 then 0
    else (if a % 2 == 1 || b % 2 == 1 then 1 else 0) + 2 * BitOr(a / 2, b / 2)
  }

  /** The flags whose bits are set in `r`: or-ing `r` into a flags word adds them. */
  function Bits(r: nat): set<nat> { set b | b in {CLOSE, KEEP, CONTINUE, CHUNKED, CONTENT_LENGTH} && r / b % 2 == 1 }

  function Unsigned(d: int): nat { d % U32 }

  /** Another decimal digit, in an unsigned integer. */
  function Decimal(n: nat, c: int): nat
    requires IsDigit(c)
  {
    (n * 10 + (c - '0' as int)) % U32
  }

  /** `(char)((esc << 4) | uri_hex_conv(c))`. */
  function Unescape(esc: nat, c: int): Char {
    ToChar(BitOr(Unsigned(16 * esc), Unsigned(UriHexConv(c))))
  }

  // ---------------------------------------------------------------- one pass through the switch

  /** How a pass ends: `goto top` with the current character, `break`, `return`, or an access out of bounds. */
  datatype Jump = Again(k: Parser, c: Char) | Next(k: Parser) | Exit(status: nat, k: Parser) | Crash

  function Reset(k: Parser, st: State, c: Char): Jump { Again(k.(st := st), c) }

  function Put(k: Parser, c: Char): Parser { k.(text := k.text.(chars := k.text.chars + [c])) }

  /** The flag values are looked up from the start pointer of the current field. */
  function FlagTrie(k: Parser): Trie { Trie(UTILITY, k.flag, UtilityAlphabet) }

  function Look(t: Trie, ts: TrieState, c: int, terminator: bool): Walked {
    if terminator then Finish(t, ts, c) else Advance(t, ts, c)
  }

  function OnMethod(k: Parser, c: Char): Jump {
    match Look(METHODS, k.ts, c, c == SP)
    case Fault => Crash
    case Walked(r, ts) =>
      if 1 <= r <= 8 then Next(k.(ts := ts, rq := k.rq.(method_ := r), st := MethodSp, b := k.m))
      else if r == -1 then Reset(k.(ts := ts), ErrorBadRequest, c)
      else if r == 0 then Next(k.(ts := ts, b := k.m))
      else Reset(k.(ts := ts), ErrorInternal, c)
  }

  function OnPath(k: Parser, c: Char): Jump {
    if InPath(c) then
      if k.text.CharFits() then Next(Put(k, c).(b := k.m)) else Exit(414, k)
    else if c == '%' as int then Next(k.(est := Path, st := Escaped1, b := k.m))
    else if c == '?' as int then
      if k.text.CharFits() then
        Next(Put(k, NUL).(b := k.m, rq := k.rq.(query := |k.text.chars| + 1), st := Query))
      else Exit(414, k)
    else if c == SP then
      if k.text.CharFits() then Next(Put(k, NUL).(b := k.m, st := PathSp)) else Exit(414, k)
    else Reset(k, ErrorBadRequest, c)
  }

  function OnQuery(k: Parser, c: Char): Jump {
    if UriUric(c) then
      if k.text.CharFits() then Next(Put(k, c).(b := k.m)) else Exit(414, k)
    else if c == '%' as int then Next(k.(est := Query, st := Escaped1, b := k.m))
    else if c == SP then
      if k.text.CharFits() then Next(Put(k, NUL).(b := k.m, st := PathSp)) else Exit(414, k)
    else Reset(k, ErrorBadRequest, c)
  }

  function OnEscaped2(k: Parser, c: Char): Jump {
    if !IsHex(c) then Reset(k, ErrorBadRequest, c)
    else if k.text.CharFits() then Next(Put(k, Unescape(k.esc, c)).(esc := 0, st := k.est))
    else Exit(414, k)
  }

  function OnProt(k: Parser, c: Char): Jump {
    match Look(PROTOCOL, k.ts, c, c == '/' as int)
    case Fault => Crash
    case Walked(r, ts) =>
      if r == 1 then Next(k.(ts := ts, st := ProtSlash, b := k.m))
      else if r == -1 then Exit(505, k.(ts := ts))
      else if r == 0 then Next(k.(ts := ts, b := k.m))
      else Reset(k.(ts := ts), ErrorInternal, c)
  }

  function Version(rq: Request, major: nat, minor: nat): nat {
    if major == 0 && minor == 9 then 9
    else if major == 1 && minor == 0 then 10
    else if major == 1 && minor == 1 then 11
    else rq.version
  }

  function OnProtEnd(k: Parser, c: Char): Jump {
    var k' := k.(rq := k.rq.(version := Version(k.rq, k.major, k.minor)));
    if k'.rq.version == 0 then Exit(505, k')
    else if c == CR then Next(k'.(st := Cr))
    else if c == LF then Next(k'.(nl := k.nl + 1, st := Nl))
    else Reset(k', ErrorBadRequest, c)
  }

  /** The states of the request line. */
  function DispatchLine(k: Parser, c: Char): Jump {
    match k.st
    case Initial =>
      if c == LF || c == CR then Next(k) else Reset(k.(ts := START, esc := 0), Method, c)
    case Method => OnMethod(k, c)
    case MethodSp =>
      if c != SP then Reset(k.(b := k.m, rq := k.rq.(path := |k.text.chars|)), Path, c) else Next(k)
    case Path => OnPath(k, c)
    case Escaped1 =>
      if IsHex(c) then Next(k.(esc := Unsigned(UriHexConv(c)), st := Escaped2)) else Reset(k, ErrorBadRequest, c)
    case Escaped2 => OnEscaped2(k, c)
    case Query => OnQuery(k, c)
    case PathSp => if c == SP then Next(k) else Reset(k.(ts := START), Prot, c)
    case Prot => OnProt(k, c)
    case ProtSlash =>
      if IsDigit(c) then Next(k.(major := Decimal(k.major, c))) else Reset(k, ProtHttpX, c)
    case ProtHttpX =>
      if c == '.' as int then Next(k.(st := ProtHttpXDot)) else Reset(k, ErrorBadRequest, c)
    case ProtHttpXDot =>
      if IsDigit(c) then Next(k.(minor := Decimal(k.minor, c))) else Reset(k, ProtHttpXX, c)
    case ProtHttpXX => OnProtEnd(k, c)
    case ErrorNotImplemented => Exit(501, k)
    case ErrorBadRequest => Exit(400, k)
    case _ => Exit(500, k)
  }

  function OnNl(k: Parser, c: Char): Jump {
    var k' := k.(b := k.m);
    if c == CR then Next(k'.(st := Cr))
    else if c == LF then Next(k'.(nl := k.nl + 1, st := Nl))
    else if c == SP || c == HT then Next(k'.(nl := 0, st := Cont))
    else Reset(k'.(nl := 0, ts := START), Header, c)
  }

  lemma HeaderCodeBound(ts: TrieState, c: int)
    ensures Look(HEADERS, ts, c, c == COLON).Walked? ==> Look(HEADERS, ts, c, c == COLON).r < HEADER_NAMES
  {
    forall s: nat | s < 59 && HeaderRow(s).Node? && HeaderRow(s).terminal != 0
      ensures HeaderRow(s).terminal < HEADER_NAMES
    {
      SlotNamed(s);
    }
  }

  /** A complete field name with code `r`. */
  function OnName(k: Parser, r: nat): (j: Jump)
    ensures j.Next? || j.Exit?
    ensures j.Next? ==> j.k.st in {ValueLead, SkipLine}
  {
    if r == RQ_CONNECTION then Next(k.(est := HeadConnection, st := ValueLead))
    else if r == RQ_CONTENT_LENGTH then Next(k.(est := HeadContentLength, esc := 0, st := ValueLead))
    else if r == RQ_EXPECT then Next(k.(est := HeadExpect, st := ValueLead))
    else if r == RQ_TRANSFER_ENCODING then Next(k.(est := HeadTransferEncoding, st := ValueLead))
    else if r in k.hmask then
      var t := k.text;
      if !t.IntFits() then Exit(413, k)
      else if !t.(ints := t.ints + [r]).IntFits() then Exit(413, k.(text := t.(ints := t.ints + [r])))
      else Next(k.(text := t.(ints := t.ints + [r, |t.chars|]), collect := true, est := Value, st := ValueLead))
    else Next(k.(collect := false, est := SkipLine, st := SkipLine))
  }

  lemma NameKeepsMask(k: Parser, r: nat)
    ensures var j := OnName(k, r); j.Next? ==> j.k.hmask == k.hmask && j.k.m == k.m
  {
  }

  function KeepName(k: Parser, j: Jump): Jump {
    if j.Next? && 0 !in k.hmask then Next(j.k.(b := k.m)) else j
  }

  function OnHeader(k: Parser, c0: Char): Jump {
    var c: Char := Lower(c0);
    match Look(HEADERS, k.ts, c, c == COLON)
    case Fault => Crash
    case Walked(r, ts) =>
      if r < 0 then Reset(k.(ts := ts), SkipLine, c)
      else if r > 0 then KeepName(k, OnName(k.(ts := START), r))
      else KeepName(k, Next(k.(ts := ts)))
  }

  function OnContentLength(k: Parser, c: Char): Jump {
    if IsDigit(c) then Next(k.(esc := Decimal(k.esc, c)))
    else if c == CR then
      Next(k.(rq := k.rq.(flags := k.rq.flags + {CONTENT_LENGTH}, contentLength := k.esc), st := Cr))
    else if c == LF then Reset(k, Cr, c)
    else Reset(k, ErrorBadRequest, c)
  }

  function OnFlag(k: Parser, c0: Char): Jump {
    var c: Char := Lower(c0);
    match Look(FlagTrie(k), k.ts, c, c == CR || c == LF)
    case Fault => Crash
    case Walked(r, ts) =>
      if r < 0 then Reset(k.(ts := ts), SkipLine, c)
      else if r > 0 then Reset(k.(ts := ts, rq := k.rq.(flags := k.rq.flags + Bits(r)), b := k.m), SkipLine, c)
      else Next(k.(ts := ts))
  }

  /** The NUL that ends a value. */
  function EndValue(k: Parser): Jump {
    if k.text.CharFits() then Next(Put(k, NUL)) else Exit(413, k)
  }

  function OnValue(k: Parser, c: Char): Jump {
    var k' := k.(b := k.m);
    if c == CR then EndValue(k'.(st := Cr))
    else if c == LF then EndValue(k'.(nl := k.nl + 1, st := Nl))
    else if c == H_EOF then EndValue(k'.(nl := 99))
    else if !k.text.CharFits() then Exit(413, k')
    else if IsBlank(c) then Next(Put(k', SP).(est := Value, st := ValueLead))
    else Next(Put(k', c))
  }

  /** The states of the header fields. */
  function DispatchHead(k: Parser, c: Char): Jump {
    match k.st
    case Cr =>
      if c == LF then Next(k.(nl := k.nl + 1, st := Nl)) else Reset(k, ErrorBadRequest, c)
    case Nl => OnNl(k, c)
    case Header => OnHeader(k, c)
    case HeadConnection => Reset(k.(flag := CONNECTION.root), HeadFlag, c)
    case HeadContentLength => OnContentLength(k, c)
    case HeadExpect => Reset(k.(flag := EXPECT.root), HeadFlag, c)
    case HeadTransferEncoding => Reset(k.(flag := TRANSFER.root), HeadFlag, c)
    case HeadFlag => OnFlag(k, c)
    case Cont =>
      if !k.collect then Reset(k, SkipLine, c)
      else if k.text.chars == [] then Crash
      else Reset(k.(text := k.text.(chars := k.text.chars[|k.text.chars| - 1 := SP])), ValueLead, c)
    case ValueLead =>
      if IsBlank(c) then Next(k) else Reset(k.(b := k.m), k.est, c)
    case Value => OnValue(k, c)
    case _ => // SkipLine
      var k' := k.(b := k.m);
      if c == CR then Next(k'.(st := Cr))
      else if c == LF then Next(k'.(nl := k.nl + 1, st := Nl))
      else if c == H_EOF then Next(k'.(nl := 99))
      else Next(k')
  }

  predicate IsHeadState(st: State) {
    st in {Cr, Nl, SkipLine, Header, ValueLead, Cont, Value,
           HeadConnection, HeadContentLength, HeadExpect, HeadTransferEncoding, HeadFlag}
  }

  function Dispatch(k: Parser, c: Char): Jump {
    if IsHeadState(k.st) then DispatchHead(k, c) else DispatchLine(k, c)
  }

  // ---------------------------------------------------------------- the state between bytes

  predicate IsValueState(st: State) {
    st in {Value, SkipLine, HeadConnection, HeadContentLength, HeadExpect, HeadTransferEncoding}
  }

  predicate IsFlagState(st: State) { st in {HeadConnection, HeadExpect, HeadTransferEncoding} }

  /** What holds whenever control is at `top`, on any input. */
  ghost predicate Ready(k: Parser) {
    && k.b <= k.m
    && k.nl <= 1 && (k.nl == 1 ==> k.st in {Nl, Cr, ErrorBadRequest})
    && k.text.chars != [] && k.text.Fits()
    && (k.st in {Method, Prot} && k.ts.poff > 0 ==> InTree(METHODS, k.ts))
    && (k.st == Header && k.ts.poff > 0 ==> InTree(HEADERS, k.ts))
    && (k.st == HeadFlag && k.ts.poff == 0 ==> k.flag.Node? && k.flag.offset + 26 < 30)
    && (k.st in {Escaped1, Escaped2} ==> k.est in {Path, Query})
    && (k.st == ValueLead || k.collect ==> IsValueState(k.est))
    && (!IsHeadState(k.st) && !IsError(k.st) ==> !k.collect)
  }

  predicate IsError(st: State) { st in {ErrorNotImplemented, ErrorBadRequest, ErrorInternal} }

  /** What holds between bytes, on any input: the walk of a flag value is under way, so its start pointer is not
      needed. */
  ghost predicate Suspendable(k: Parser) {
    && Ready(k)
    && !IsError(k.st) && !IsFlagState(k.st)
    && (k.st == HeadFlag ==> k.ts.poff > 0 && InTree(METHODS, k.ts))
  }

  /** The order in which `goto top` visits states. */
  function Rank(st: State): nat {
    match st
    case Cont => 4
    case ValueLead => 3
    case HeadConnection => 2
    case HeadContentLength => 2
    case HeadExpect => 2
    case HeadTransferEncoding => 2
    case Nl => 2
    case Initial => 2
    case MethodSp => 2
    case PathSp => 2
    case ProtSlash => 2
    case ProtHttpXDot => 2
    case Method => 1
    case Path => 1
    case Query => 1
    case Escaped1 => 1
    case Escaped2 => 1
    case Prot => 1
    case ProtHttpX => 1
    case ProtHttpXX => 1
    case Cr => 1
    case Header => 1
    case HeadFlag => 1
    case _ => 0
  }

  ghost predicate Keeps(k: Parser, j: Jump) {
    match j
    case Crash => true
    case Exit(status, k') => status >= 400 && k'.m == k.m && k'.text.chars != []
    case Again(k', _) => Ready(k') && Rank(k'.st) < Rank(k.st) && k'.m == k.m && k.b <= k'.b
    case Next(k') => k'.m == k.m && k.b <= k'.b && k'.text.chars != [] && (k'.nl <= 1 ==> Suspendable(k'))
  }

  // Each arm of the switch keeps the invariant and only jumps to states of a lower rank.

  lemma MethodKeeps(k: Parser, c: Char)
    requires Ready(k) && k.st == Method
    ensures Keeps(k, OnMethod(k, c))
  {
    hide Patricia.WalkTrie;
  }

  lemma PathKeeps(k: Parser, c: Char)
    requires Ready(k) && k.st == Path
    ensures Keeps(k, OnPath(k, c))
  {
    hide InTree, InPath;
  }

  lemma QueryKeeps(k: Parser, c: Char)
    requires Ready(k) && k.st == Query
    ensures Keeps(k, OnQuery(k, c))
  {
    hide InTree, UriUric;
  }

  lemma EscapedKeeps(k: Parser, c: Char)
    requires Ready(k) && k.st == Escaped2
    ensures Keeps(k, OnEscaped2(k, c))
  {
    hide InTree, IsHex, Unescape;
  }

  lemma ProtKeeps(k: Parser, c: Char)
    requires Ready(k) && k.st == Prot
    ensures Keeps(k, OnProt(k, c))
  {
    hide Patricia.WalkTrie;
  }

  lemma ProtEndKeeps(k: Parser, c: Char)
    requires Ready(k) && k.st == ProtHttpXX
    ensures Keeps(k, OnProtEnd(k, c))
  {
    hide InTree, Version;
  }

  lemma NlKeeps(k: Parser, c: Char) requires Ready(k) && k.st == Nl ensures Keeps(k, OnNl(k, c)) { hide InTree; }

  lemma FlagKeeps(k: Parser, c: Char)
    requires Ready(k) && k.st == HeadFlag
    ensures Keeps(k, OnFlag(k, c))
  {
    hide Patricia.WalkTrie;
  }

  lemma LengthKeeps(k: Parser, c: Char)
    requires Ready(k) && k.st == HeadContentLength
    ensures Keeps(k, OnContentLength(k, c))
  {
    hide InTree, Decimal;
  }

  lemma ValueKeeps(k: Parser, c: Char)
    requires Ready(k) && k.st == Value
    ensures Keeps(k, OnValue(k, c))
  {
    hide InTree, IsBlank;
  }

  lemma ResolvedKeeps(k: Parser, r: nat)
    requires Ready(k) && k.st == Header
    ensures Keeps(k, OnName(k.(ts := START), r))
  {
  }

  lemma NameKeeps(k: Parser, c: Char)
    requires Ready(k) && k.st == Header
    ensures Keeps(k, OnHeader(k, c))
  {
    hide Patricia.WalkTrie, OnName;
    match Look(HEADERS, k.ts, Lower(c), Lower(c) == COLON)
    case Fault =>
    case Walked(r, ts) =>
      if r > 0 {
        ResolvedKeeps(k, r);
      }
  }

  lemma FlagStartKeeps(k: Parser, c: Char) requires Ready(k) && IsFlagState(k.st) ensures Keeps(k, DispatchHead(k, c)) {
    hide InTree, OnNl, OnHeader, OnContentLength, OnFlag, OnValue;
  }

  lemma CrKeeps(k: Parser, c: Char) requires Ready(k) && k.st == Cr ensures Keeps(k, DispatchHead(k, c)) {
    hide InTree, OnNl, OnHeader, OnContentLength, OnFlag, OnValue;
  }

  lemma ContKeeps(k: Parser, c: Char) requires Ready(k) && k.st == Cont ensures Keeps(k, DispatchHead(k, c)) {
    hide InTree, OnNl, OnHeader, OnContentLength, OnFlag, OnValue;
  }

  lemma LeadKeeps(k: Parser, c: Char) requires Ready(k) && k.st == ValueLead ensures Keeps(k, DispatchHead(k, c)) {
    hide InTree, OnNl, OnHeader, OnContentLength, OnFlag, OnValue;
  }

  lemma SkipKeeps(k: Parser, c: Char) requires Ready(k) && k.st == SkipLine ensures Keeps(k, DispatchHead(k, c)) {
    hide InTree, OnNl, OnHeader, OnContentLength, OnFlag, OnValue;
  }

  lemma GapKeeps(k: Parser, c: Char)
    requires Ready(k) && k.st in {Initial, MethodSp, PathSp, Escaped1}
    ensures Keeps(k, DispatchLine(k, c))
  {
    hide InTree, OnMethod, OnPath, OnQuery, OnEscaped2, OnProt, OnProtEnd, IsHex;
  }

  lemma VersionKeeps(k: Parser, c: Char)
    requires Ready(k) && k.st in {ProtSlash, ProtHttpX, ProtHttpXDot}
    ensures Keeps(k, DispatchLine(k, c))
  {
    hide InTree, OnMethod, OnPath, OnQuery, OnEscaped2, OnProt, OnProtEnd, IsHex;
  }

  lemma ErrorKeeps(k: Parser, c: Char)
    requires Ready(k) && IsError(k.st)
    ensures Keeps(k, DispatchLine(k, c))
  {
    hide InTree, OnMethod, OnPath, OnQuery, OnEscaped2, OnProt, OnProtEnd, IsHex;
  }

  lemma DispatchKeeps(k: Parser, c: Char)
    requires Ready(k)
    ensures Keeps(k, Dispatch(k, c))
  {
    hide Ready;
    match k.st
    case Method => MethodKeeps(k, c);
    case Path => PathKeeps(k, c);
    case Query => QueryKeeps(k, c);
    case Escaped2 => EscapedKeeps(k, c);
    case Prot => ProtKeeps(k, c);
    case ProtHttpXX => ProtEndKeeps(k, c);
    case Nl => NlKeeps(k, c);
    case Header => NameKeeps(k, c);
    case HeadFlag => FlagKeeps(k, c);
    case HeadContentLength => LengthKeeps(k, c);
    case Value => ValueKeeps(k, c);
    case Cr => CrKeeps(k, c);
    case Cont => ContKeeps(k, c);
    case ValueLead => LeadKeeps(k, c);
    case SkipLine => SkipKeeps(k, c);
    case _ =>
      if IsFlagState(k.st) {
        FlagStartKeeps(k, c);
      } else if IsError(k.st) {
        ErrorKeeps(k, c);
      } else if k.st in {ProtSlash, ProtHttpX, ProtHttpXDot} {
        VersionKeeps(k, c);
      } else {
        GapKeeps(k, c);
      }
  }

  // ---------------------------------------------------------------- whole bytes and whole inputs

  /** One byte, or a run of bytes: wait for more, a complete head, an error status, or an access out of bounds. */
  datatype Verdict = More(k: Parser) | Done(k: Parser) | Fail(status: nat, k: Parser) | OutOfBounds

  function Step(k: Parser, c: Char): (v: Verdict)
    requires Ready(k)
    ensures v.More? ==> Suspendable(v.k) && v.k.m == k.m + 1 && k.b <= v.k.b
    ensures v.Done? ==> v.k.m == k.m + 1 && v.k.text.chars != []
    ensures v.Fail? ==> v.status >= 400 && v.k.text.chars != []
    decreases Rank(k.st)
  {
    DispatchKeeps(k, c);
    match Dispatch(k, c)
    case Crash => OutOfBounds
    case Exit(status, k') => Fail(status, k')
    case Again(k', c') => Step(k', c')
    case Next(k') => if k'.nl > 1 then Done(k'.(m := k'.m + 1)) else More(k'.(m := k'.m + 1))
  }

  /** A pass that takes the byte. */
  lemma StepNext(k: Parser, c: Char)
    requires Ready(k) && Dispatch(k, c).Next?
    ensures var k' := Dispatch(k, c).k;
            Step(k, c) == if k'.nl > 1 then Done(k'.(m := k'.m + 1)) else More(k'.(m := k'.m + 1))
  {
    hide Dispatch, Ready;
  }

  /** A pass that hands the byte on to another state. */
  lemma StepAgain(k: Parser, c: Char)
    requires Ready(k) && Dispatch(k, c).Again?
    ensures var j := Dispatch(k, c); Ready(j.k) && Step(k, c) == Step(j.k, j.c)
  {
    hide Dispatch, Ready;
    DispatchKeeps(k, c);
  }

  function Run(k: Parser, cs: seq<Char>): (v: Verdict)
    requires Suspendable(k)
    ensures v.More? ==> Suspendable(v.k) && v.k.m == k.m + |cs| && k.b <= v.k.b
    ensures v.Done? ==> k.m < v.k.m <= k.m + |cs| && v.k.text.chars != []
    ensures v.Fail? ==> v.status >= 400 && v.k.text.chars != []
    decreases |cs|
  {
    if cs == [] then More(k)
    else
      match Step(k, cs[0])
      case More(k') => Run(k', cs[1..])
      case v => v
  }

  function Onward(v: Verdict, cs: seq<Char>): Verdict
    requires v.More? ==> Suspendable(v.k)
  {
    if v.More? then Run(v.k, cs) else v
  }

  lemma {:induction false} RunConcat(k: Parser, a: seq<Char>, b: seq<Char>)
    requires Suspendable(k)
    ensures Run(k, a + b) == Onward(Run(k, a), b)
    decreases |a|
  {
    if a == [] {
      assert a + b == b;
    } else {
      assert (a + b)[0] == a[0] && (a + b)[1..] == a[1..] + b;
      match Step(k, a[0])
      case More(k') => RunConcat(k', a[1..], b);
      case _ =>
    }
  }

  lemma InitSuspendable(hmask: set<nat>, m: nat, rq: Request, size: nat)
    requires size > 0
    ensures Suspendable(Init(hmask, m, rq, size))
  {
  }

  lemma TrailersSuspendable(hmask: set<nat>, m: nat, rq: Request, text: Text)
    requires text.chars != [] && text.Fits()
    ensures Suspendable(InitTrailers(hmask, m, rq, text))
  {
  }

  // ---------------------------------------------------------------- end of input

  /** The end-of-input marker ends the parse in every state: the parser never waits for more after it. */
  lemma EofEnds(k: Parser)
    requires Suspendable(k)
    ensures !Step(k, H_EOF).More?
  {
    EofEndsAt(k);
  }

  lemma {:induction false} EofEndsAt(k: Parser)
    requires Ready(k)
    ensures !Step(k, H_EOF).More?
    decreases Rank(k.st)
  {
    DispatchKeeps(k, H_EOF);
    if IsHeadState(k.st) { EofLeavesHead(k); } else { EofLeavesLine(k); }
    match Dispatch(k, H_EOF)
    case Again(k', c') => EofEndsAt(k');
    case _ =>
  }

  predicate EofEndsBy(j: Jump) {
    match j
    case Again(_, c) => c == H_EOF
    case Next(k) => k.nl > 1
    case _ => true
  }

  lemma EofLeavesLine(k: Parser)
    requires Ready(k)
    ensures EofEndsBy(DispatchLine(k, H_EOF))
  {
    hide Suspendable, InTree, Keeps;
  }

  lemma EofLeavesHead(k: Parser)
    requires Ready(k) && IsHeadState(k.st)
    ensures EofEndsBy(DispatchHead(k, H_EOF))
  {
    hide Suspendable, InTree, OnName;
  }

  // ---------------------------------------------------------------- suspension

  /** A verdict without the start pointer that a return through EAGAIN forgets. */
  function Forget(v: Verdict): Verdict {
    match v
    case More(k) => More(k.(flag := Null))
    case Done(k) => Done(k.(flag := Null))
    case Fail(status, k) => Fail(status, k.(flag := Null))
    case OutOfBounds => OutOfBounds
  }

  /** The jump with the start pointer replaced, unless this pass has just set it. */
  function Refit(j: Jump, f: Entry, fresh_: bool): Jump {
    if fresh_ then j else
    match j
    case Again(k, c) => Again(k.(flag := f), c)
    case Next(k) => Next(k.(flag := f))
    case Exit(status, k) => Exit(status, k.(flag := f))
    case Crash => Crash
  }

  // No arm of the switch but the flag walk looks at the start pointer.

  lemma MethodIgnoresFlag(k: Parser, f: Entry, c: Char)
    ensures OnMethod(k.(flag := f), c) == Refit(OnMethod(k, c), f, false)
  {
  }

  lemma PathIgnoresFlag(k: Parser, f: Entry, c: Char)
    ensures OnPath(k.(flag := f), c) == Refit(OnPath(k, c), f, false)
  {
  }

  lemma QueryIgnoresFlag(k: Parser, f: Entry, c: Char)
    ensures OnQuery(k.(flag := f), c) == Refit(OnQuery(k, c), f, false)
  {
  }

  lemma Escaped2IgnoresFlag(k: Parser, f: Entry, c: Char)
    ensures OnEscaped2(k.(flag := f), c) == Refit(OnEscaped2(k, c), f, false)
  {
  }

  lemma ProtIgnoresFlag(k: Parser, f: Entry, c: Char)
    ensures OnProt(k.(flag := f), c) == Refit(OnProt(k, c), f, false)
  {
  }

  lemma ProtEndIgnoresFlag(k: Parser, f: Entry, c: Char)
    ensures OnProtEnd(k.(flag := f), c) == Refit(OnProtEnd(k, c), f, false)
  {
  }

  lemma NlIgnoresFlag(k: Parser, f: Entry, c: Char) ensures OnNl(k.(flag := f), c) == Refit(OnNl(k, c), f, false) {}

  lemma NameIgnoresFlag(k: Parser, f: Entry, r: nat)
    ensures OnName(k.(flag := f), r) == Refit(OnName(k, r), f, false)
  {
  }

  lemma ContentLengthIgnoresFlag(k: Parser, f: Entry, c: Char)
    ensures OnContentLength(k.(flag := f), c) == Refit(OnContentLength(k, c), f, false)
  {
  }

  lemma ValueIgnoresFlag(k: Parser, f: Entry, c: Char)
    ensures OnValue(k.(flag := f), c) == Refit(OnValue(k, c), f, false)
  {
  }

  lemma HeaderIgnoresFlag(k: Parser, f: Entry, c: Char)
    ensures OnHeader(k.(flag := f), c) == Refit(OnHeader(k, c), f, false)
  {
    hide Look, OnName;
    match Look(HEADERS, k.ts, Lower(c), Lower(c) == COLON)
    case Fault =>
    case Walked(r, ts) =>
      if r > 0 {
        NameIgnoresFlag(k.(ts := START), f, r);
      }
  }

  lemma FlagWalkIgnoresStart(k: Parser, f: Entry, c: Char)
    requires k.ts.poff > 0
    ensures OnFlag(k.(flag := f), c) == Refit(OnFlag(k, c), f, false)
  {
    assert FlagTrie(k.(flag := f)) == FlagTrie(k).(root := f);
    StartUnused(FlagTrie(k), f, k.ts, Lower(c));
  }

  lemma FlagUnusedLine(k: Parser, f: Entry, c: Char)
    requires !IsHeadState(k.st)
    ensures DispatchLine(k.(flag := f), c) == Refit(DispatchLine(k, c), f, false)
  {
    match k.st
    case Method => MethodIgnoresFlag(k, f, c);
    case Path => PathIgnoresFlag(k, f, c);
    case Query => QueryIgnoresFlag(k, f, c);
    case Escaped2 => Escaped2IgnoresFlag(k, f, c);
    case Prot => ProtIgnoresFlag(k, f, c);
    case ProtHttpXX => ProtEndIgnoresFlag(k, f, c);
    case _ => OtherLineIgnoresFlag(k, f, c);
  }

  lemma OtherLineIgnoresFlag(k: Parser, f: Entry, c: Char)
    requires !IsHeadState(k.st) && k.st !in {Method, Path, Query, Escaped2, Prot, ProtHttpXX}
    ensures DispatchLine(k.(flag := f), c) == Refit(DispatchLine(k, c), f, false)
  {
    hide OnMethod, OnPath, OnQuery, OnEscaped2, OnProt, OnProtEnd, IsHex;
  }

  lemma OtherHeadIgnoresFlag(k: Parser, f: Entry, c: Char)
    requires IsHeadState(k.st) && k.st !in {Nl, Header, HeadContentLength, Value, HeadFlag}
    ensures DispatchHead(k.(flag := f), c) == Refit(DispatchHead(k, c), f, IsFlagState(k.st))
  {
    hide OnNl, OnHeader, OnContentLength, OnFlag, OnValue;
  }

  lemma FlagUnusedHead(k: Parser, f: Entry, c: Char)
    requires IsHeadState(k.st) && (k.st == HeadFlag ==> k.ts.poff > 0)
    ensures DispatchHead(k.(flag := f), c) == Refit(DispatchHead(k, c), f, IsFlagState(k.st))
  {
    match k.st
    case Nl => NlIgnoresFlag(k, f, c);
    case Header => HeaderIgnoresFlag(k, f, c);
    case HeadContentLength => ContentLengthIgnoresFlag(k, f, c);
    case Value => ValueIgnoresFlag(k, f, c);
    case HeadFlag => FlagWalkIgnoresStart(k, f, c);
    case _ => OtherHeadIgnoresFlag(k, f, c);
  }

  lemma {:induction false} StepForgets(k: Parser, f: Entry, c: Char)
    requires Ready(k) && Ready(k.(flag := f)) && (k.st == HeadFlag && k.ts.poff == 0 ==> k.flag == f)
    ensures Forget(Step(k, c)) == Forget(Step(k.(flag := f), c))
    decreases Rank(k.st)
  {
    hide DispatchLine, DispatchHead;
    DispatchKeeps(k, c);
    DispatchKeeps(k.(flag := f), c);
    if k.st == HeadFlag && k.ts.poff == 0 {
      assert k.(flag := f) == k;
    } else {
      if IsHeadState(k.st) {
        FlagUnusedHead(k, f, c);
      } else {
        FlagUnusedLine(k, f, c);
      }
      match Dispatch(k, c)
      case Again(k', c') =>
        if !IsFlagState(k.st) {
          AgainNotFlag(k, c);
          StepForgets(k', f, c');
        }
      case _ =>
    }
  }

  lemma AgainNotFlag(k: Parser, c: Char)
    requires Ready(k) && !IsFlagState(k.st) && Dispatch(k, c).Again?
    ensures Dispatch(k, c).k.st != HeadFlag
  {
    if IsHeadState(k.st) { AgainFromHead(k, c); } else { AgainFromLine(k, c); }
  }

  lemma AgainFromHead(k: Parser, c: Char)
    requires Ready(k) && IsHeadState(k.st) && !IsFlagState(k.st) && DispatchHead(k, c).Again?
    ensures DispatchHead(k, c).k.st != HeadFlag
  {
    hide Look, OnName, InTree, Decimal;
  }

  /** The request line is only left at its end. */
  lemma AgainFromLine(k: Parser, c: Char)
    requires !IsHeadState(k.st) && DispatchLine(k, c).Again?
    ensures !IsHeadState(DispatchLine(k, c).k.st)
  {
    hide OnMethod, OnPath, OnQuery, OnEscaped2, OnProt, OnProtEnd, IsHex, Decimal;
    AgainFromArm(k, c);
  }

  lemma AgainFromArm(k: Parser, c: Char)
    ensures forall j ::
              j in {OnMethod(k, c), OnPath(k, c), OnQuery(k, c), OnEscaped2(k, c), OnProt(k, c), OnProtEnd(k, c)} ==>
                j.Again? ==> !IsHeadState(j.k.st)
  {
    hide Look, InPath, UriUric, IsHex, Version, Unescape;
  }

  /** Suspending is invisible: what follows a return through EAGAIN does not depend on the forgotten pointer. */
  lemma {:induction false} RunForgets(k: Parser, f: Entry, cs: seq<Char>)
    requires Suspendable(k)
    ensures Suspendable(k.(flag := f)) && Forget(Run(k, cs)) == Forget(Run(k.(flag := f), cs))
    decreases |cs|
  {
    if cs != [] {
      StepForgets(k, f, cs[0]);
      match Step(k, cs[0])
      case More(k') =>
        var f' := Step(k.(flag := f), cs[0]).k.flag;
        RunForgets(k', f', cs[1..]);
        assert Step(k.(flag := f), cs[0]).k == k'.(flag := f');
      case _ =>
    }
  }
}
