/** Request heads as they are written on the wire, and what reading one should leave behind (RFC 2616, sections 4.2 and
    5.1). */
module Syntax {
  import opened Chars
  import opened TextInts
  import opened Patricia
  import opened Keywords
  import opened Requests

  /** A stretch of a line, and whether a lone LF ends it instead of CR LF. */
  datatype Line = Line(raw: seq<Char>, lf: bool)

  /** A continuation line: a blank and the rest. */
  datatype Fold = Fold(blank: Char, line: Line)

  datatype Field =
    | Text_(name: seq<Char>, code: nat, first: Line, more: seq<Fold>)
    | Flag_(name: seq<Char>, code: nat, lead: seq<Char>, word: seq<Char>, bit: nat, lf: bool)
    | Length_(name: seq<Char>, lead: seq<Char>, digits: seq<Char>, lf: bool)
    | Other_(name: seq<Char>, rest: Line)

  /** How a byte of a target is written: as it is, or as an escape with the letters of its hex digits in either case. */
  datatype Style = AsIs | Percent(upperHigh: bool, upperLow: bool)

  datatype Octet = Octet(byte: Char, style: Style)

  datatype Message = Message(
    before: seq<Char>,
    method_: nat, path: seq<Octet>, query: Option<seq<Octet>>, version: nat, lf: bool,
    fields: seq<Field>,
    endLf: bool)

  // ---------------------------------------------------------------- printing

  function Digit(n: nat, upper: bool): Char
    requires n < 16
  {
    if upper && n >= 10 then 'A' as int + n - 10 else LowerHex(n)
  }

  function Escape(c: Char, upperHigh: bool, upperLow: bool): seq<Char> {
    ['%' as int, Digit(Byte(c) / 16, upperHigh), Digit(Byte(c) % 16, upperLow)]
  }

  function PrintOctet(o: Octet): seq<Char> {
    match o.style
    case AsIs => [o.byte]
    case Percent(high, low) => Escape(o.byte, high, low)
  }

  function PrintOctets(p: seq<Octet>): seq<Char> {
    if p == [] then [] else PrintOctet(p[0]) + PrintOctets(p[1..])
  }

  function PrintVersion(v: nat): seq<Char> {
    if v == 9 then ['0' as int, '.' as int, '9' as int]
    else if v == 10 then ['1' as int, '.' as int, '0' as int]
    else ['1' as int, '.' as int, '1' as int]
  }

  const HTTP_SLASH: seq<Char> := ['H' as int, 'T' as int, 'T' as int, 'P' as int, '/' as int]

  function PrintMethod(k: nat): seq<Char>
  {
    seq<Char>(|MethodName(k)|, i requires 0 <= i < |MethodName(k)| => ToChar(MethodName(k)[i] as int))
  }

  function PrintTarget(g: Message): seq<Char> {
    PrintOctets(g.path) + match g.query case None => [] case Some(q) => ['?' as int] + PrintOctets(q)
  }

  function PrintRequestLine(g: Message): seq<Char> {
    (PrintMethod(g.method_) + [SP]) + ((PrintTarget(g) + [SP]) + (HTTP_SLASH + PrintVersion(g.version) + Eol(g.lf)))
  }

  function PrintLine(l: Line): seq<Char> { l.raw + Eol(l.lf) }

  function PrintFolds(fs: seq<Fold>): seq<Char> {
    if fs == [] then []
    else PrintFolds(fs[..|fs| - 1]) + ([fs[|fs| - 1].blank] + PrintLine(fs[|fs| - 1].line))
  }

  function PrintField(f: Field): seq<Char> {
    f.name + [COLON] +
      match f
      case Text_(_, _, first, more) => PrintLine(first) + PrintFolds(more)
      case Flag_(_, _, lead, word, _, lf) => lead + (word + Eol(lf))
      case Length_(_, lead, digits, lf) => lead + (digits + Eol(lf))
      case Other_(_, rest) => PrintLine(rest)
  }

  function PrintFields(fs: seq<Field>): seq<Char> {
    if fs == [] then [] else PrintField(fs[0]) + PrintFields(fs[1..])
  }

  function Print(g: Message): seq<Char> {
    g.before + (PrintRequestLine(g) + (PrintFields(g.fields) + Eol(g.endLf)))
  }

  // ---------------------------------------------------------------- meaning

  /** What is left of `c` after `t`: a blank counts only as the first of its run, as a space, and not at the start. */
  function Kept(t: seq<Char>, c: Char): seq<Char> {
    if !IsBlank(c) then [c]
    else if t == [] || IsBlank(t[|t| - 1]) then []
    else [SP]
  }

  /** A run of blanks becomes one space; leading blanks go. */
  function Squeeze(s: seq<Char>): seq<Char> {
    if s == [] then [] else Squeeze(s[..|s| - 1]) + Kept(s[..|s| - 1], s[|s| - 1])
  }

  /** The words of a line: its longest stretches without a blank. */
  function Words(s: seq<Char>): (ws: seq<seq<Char>>)
    ensures s != [] && !IsBlank(s[|s| - 1]) ==> ws != []
  {
    if s == [] then []
    else
      var t, c, ws := s[..|s| - 1], s[|s| - 1], Words(s[..|s| - 1]);
      if IsBlank(c) then ws
      else if t == [] || IsBlank(t[|t| - 1]) then ws + [[c]]
      else ws[..|ws| - 1] + [ws[|ws| - 1] + [c]]
  }

  /** No tab, no space at the start, no two spaces in a row. */
  predicate Normal(u: seq<Char>) {
    forall i :: 0 <= i < |u| && IsBlank(u[i]) ==> u[i] == SP && i > 0 && !IsBlank(u[i - 1])
  }

  predicate EndsBlank(s: seq<Char>) { s != [] && IsBlank(s[|s| - 1]) }

  lemma WordsOfBlank(u: seq<Char>, c: Char)
    requires IsBlank(c)
    ensures Words(u + [c]) == Words(u)
  {
    assert (u + [c])[..|u|] == u;
  }

  lemma WordsOfChar(u: seq<Char>, c: Char)
    requires !IsBlank(c)
    ensures Words(u + [c]) == if u == [] || EndsBlank(u) then Words(u) + [[c]]
                              else Words(u)[..|Words(u)| - 1] + [Words(u)[|Words(u)| - 1] + [c]]
  {
    assert (u + [c])[..|u|] == u;
  }

  /** The text so far is normal, has the words of the line, and ends as the line does. */
  ghost predicate Squeezed(u: seq<Char>, s: seq<Char>) {
    Normal(u) && Words(u) == Words(s) && (u == [] <==> Words(s) == []) && (u != [] ==> EndsBlank(u) == EndsBlank(s))
  }

  lemma KeptSqueezes(u: seq<Char>, t: seq<Char>, c: Char)
    requires Squeezed(u, t)
    ensures Squeezed(u + Kept(t, c), t + [c])
  {
    hide Words;
    if Kept(t, c) == [] {
      WordsOfBlank(t, c);
      NoWords(t);
      assert u + Kept(t, c) == u;
    } else if IsBlank(c) {
      WordsOfBlank(t, c);
      WordsOfBlank(u, SP);
      LastWord(t);
    } else {
      WordsOfChar(t, c);
      WordsOfChar(u, c);
      NoWords(t);
    }
  }

  lemma LastWord(t: seq<Char>)
    requires t != [] && !EndsBlank(t)
    ensures Words(t) != []
  {
  }

  lemma {:induction false} NoWords(t: seq<Char>)
    ensures Words(t) == [] ==> t == [] || EndsBlank(t)
    ensures t == [] ==> Words(t) == []
  {
    if t != [] && !EndsBlank(t) {
      LastWord(t);
    }
  }

  lemma NothingSqueezed()
    ensures Squeezed([], [])
  {
  }

  /** Squeezing is a normal form: the words stay, and what is between them becomes one space. */
  lemma {:induction false} SqueezeNormal(s: seq<Char>)
    ensures Squeezed(Squeeze(s), s)
    decreases |s|
  {
    hide Words, Squeezed, Kept;
    NothingSqueezed();
    if s != [] {
      var t, c := s[..|s| - 1], s[|s| - 1];
      SqueezeNormal(t);
      KeptSqueezes(Squeeze(t), t, c);
      assert s == t + [c];
    }
  }

  /** The squeezed lines, one space between two of them. */
  function Unfold(first: Line, more: seq<Fold>): seq<Char> {
    if more == [] then Squeeze(first.raw)
    else Unfold(first, more[..|more| - 1]) + [SP] + Squeeze(more[|more| - 1].line.raw)
  }

  /** A stretch with something on it and no blank at its end. */
  predicate Solid(s: seq<Char>) { s != [] && !IsBlank(s[|s| - 1]) }

  lemma SqueezeSolid(s: seq<Char>)
    ensures Normal(Squeeze(s)) && (Solid(Squeeze(s)) <==> Solid(s))
  {
    hide Words, Normal, Squeeze;
    SqueezeNormal(s);
    NoWords(s);
    if Solid(s) {
      LastWord(s);
    }
  }

  lemma JoinNormal(u: seq<Char>, s: seq<Char>)
    requires Normal(s)
    ensures Normal(u + [SP] + s) <==> Normal(u) && Solid(u)
    ensures Solid(u + [SP] + s) <==> Solid(s)
  {
    var t := u + [SP] + s;
    assert t[|u|] == SP && forall i :: 0 <= i < |u| ==> t[i] == u[i];
    assert forall i :: 0 <= i < |s| ==> t[|u| + 1 + i] == s[i];
    if Normal(u) && Solid(u) {
      forall i | 0 <= i < |t| && IsBlank(t[i])
        ensures t[i] == SP && i > 0 && !IsBlank(t[i - 1])
      {
        if i > |u| {
          assert t[i] == s[i - |u| - 1];
        }
      }
    }
  }

  /** A folded value is stored in normal form exactly when every line but its last has something on it and no blank at
      its end: a blank before a line end, or an empty line, doubles the space. */
  lemma {:induction false} UnfoldNormalIff(first: Line, more: seq<Fold>)
    ensures Normal(Unfold(first, more))
       <==> more == [] || (Solid(first.raw) && forall i :: 0 <= i < |more| - 1 ==> Solid(more[i].line.raw))
    ensures Solid(Unfold(first, more)) <==> Solid(if more == [] then first.raw else more[|more| - 1].line.raw)
    decreases |more|
  {
    hide Normal, Squeeze, Solid;
    if more == [] {
      SqueezeSolid(first.raw);
    } else {
      var rest, l := more[..|more| - 1], more[|more| - 1].line;
      UnfoldNormalIff(first, rest);
      SqueezeSolid(l.raw);
      JoinNormal(Unfold(first, rest), Squeeze(l.raw));
    }
  }

  function Number(digits: seq<Char>): int {
    if digits == [] then 0 else Number(digits[..|digits| - 1]) * 10 + (digits[|digits| - 1] - '0' as int)
  }

  /** What a field does to the text: a collected one adds its code, the offset of its value, and the value with a
      NUL. */
  function FieldText(f: Field, hmask: set<nat>, t: Text): Text {
    if f.Text_? && f.code in hmask then
      t.(ints := t.ints + [f.code, |t.chars|], chars := t.chars + Unfold(f.first, f.more) + [NUL])
    else t
  }

  /** What a field does to the request. A length ended by a lone LF is not recorded. */
  function FieldRequest(f: Field, rq: Request): Request {
    match f
    case Flag_(_, _, _, _, bit, _) => rq.(flags := rq.flags + {bit})
    case Length_(_, _, digits, lf) =>
      if lf then rq else rq.(flags := rq.flags + {CONTENT_LENGTH}, contentLength := Number(digits) % U32)
    case _ => rq
  }

  function FieldsText(fs: seq<Field>, hmask: set<nat>, t: Text): Text {
    if fs == [] then t else FieldsText(fs[1..], hmask, FieldText(fs[0], hmask, t))
  }

  function FieldsRequest(fs: seq<Field>, rq: Request): Request {
    if fs == [] then rq else FieldsRequest(fs[1..], FieldRequest(fs[0], rq))
  }

  function Bytes(p: seq<Octet>): (s: seq<Char>)
    ensures |s| == |p| && forall i :: 0 <= i < |p| ==> s[i] == p[i].byte
  {
    seq(|p|, i requires 0 <= i < |p| => p[i].byte)
  }

  function TargetText(g: Message): seq<Char> {
    Bytes(g.path) + [NUL] + match g.query case None => [] case Some(q) => Bytes(q) + [NUL]
  }

  /** The text a parse leaves: a NUL, the path, the query, the collected values. */
  function MessageText(g: Message, hmask: set<nat>, size: nat): Text {
    FieldsText(g.fields, hmask, Text([NUL] + TargetText(g), [], size))
  }

  function MessageRequest(g: Message): Request {
    FieldsRequest(g.fields,
      Request({}, g.version, g.method_, 1, if g.query.None? then 0 else 1 + |g.path| + 1, 0))
  }

  // ---------------------------------------------------------------- validity

  /** No line end, and not the byte the parser takes for the end of input. */
  predicate Plain(s: seq<Char>) { forall i :: 0 <= i < |s| ==> s[i] != CR && s[i] != LF && s[i] != H_EOF }

  /** The escapes the parser decodes: a letter in upper case as the low digit spoils the high one, unless that is 14 or
      15. */
  predicate Decodes(c: Char, upperLow: bool) { upperLow ==> Byte(c) % 16 < 10 || Byte(c) / 16 >= 14 }

  /** A byte of a target. `raw` says whether it may stand for itself. */
  predicate ValidOctet(o: Octet, raw: bool) {
    match o.style
    case AsIs => raw
    case Percent(_, low) => Decodes(o.byte, low)
  }

  /** The bytes of a target that stand for themselves (RFC 2396, Appendix A), among them the mark of a query. */
  const LETTERS := "abcdefghijklmnopqrstuvwxyz"
  const CAPITALS := "ABCDEFGHIJKLMNOPQRSTUVWXYZ"
  const MARKS := "0123456789-_.!~*'();/?:@&=+$,"
  const TARGET_BYTES := LETTERS + CAPITALS + MARKS

  lemma LetterBytes(c: Char) ensures OneOf(c, LETTERS) <==> IsLower(c) {
  }

  lemma CapitalBytes(c: Char) ensures OneOf(c, CAPITALS) <==> IsUpper(c) {
  }

  lemma MarkBytes(c: Char) ensures OneOf(c, MARKS) <==> IsDigit(c) || UriMark(c) || UriReserved(c) {
  }

  lemma ListsJoin(c: Char, a: string, b: string)
    ensures OneOf(c, a + b) <==> OneOf(c, a) || OneOf(c, b)
  {
  }

  lemma TargetBytes(c: Char)
    ensures OneOf(c, TARGET_BYTES) <==> UriUric(c)
    ensures UriUric(c) <==> InPath(c) || c == '?' as int
  {
    hide OneOf;
    LetterBytes(c);
    CapitalBytes(c);
    MarkBytes(c);
    ListsJoin(c, LETTERS, CAPITALS);
    ListsJoin(c, LETTERS + CAPITALS, MARKS);
  }

  predicate ValidPath(p: seq<Octet>) {
    forall i :: 0 <= i < |p| ==> ValidOctet(p[i], OneOf(p[i].byte, TARGET_BYTES) && p[i].byte != '?' as int)
  }

  predicate ValidQuery(p: seq<Octet>) {
    forall i :: 0 <= i < |p| ==> ValidOctet(p[i], OneOf(p[i].byte, TARGET_BYTES))
  }

  predicate Blanks(s: seq<Char>) { forall i :: 0 <= i < |s| ==> IsBlank(s[i]) }

  predicate Digits(s: seq<Char>) { forall i :: 0 <= i < |s| ==> IsDigit(s[i]) }

  predicate ValidFold(f: Fold) { IsBlank(f.blank) && Plain(f.line.raw) }

  function FlagWord(bit: nat): string {
    if bit == CLOSE then "close" else if bit == KEEP then "keep-alive" else if bit == CONTINUE then "100-continue"
      else "chunked"
  }

  function FlagHeader(bit: nat): nat {
    if bit == CLOSE || bit == KEEP then RQ_CONNECTION else if bit == CONTINUE then RQ_EXPECT else RQ_TRANSFER_ENCODING
  }

  function FlagName(bit: nat): string {
    if bit == CLOSE || bit == KEEP then "Connection" else if bit == CONTINUE then "Expect" else "Transfer-Encoding"
  }

  predicate IsInterpreted(code: nat) {
    code in {RQ_CONNECTION, RQ_CONTENT_LENGTH, RQ_EXPECT, RQ_TRANSFER_ENCODING}
  }

  /** The codes that the parser interprets are those of four names. */
  lemma InterpretedNames(code: nat)
    requires 0 < code < HEADER_NAMES
    ensures IsInterpreted(code) <==>
              HeaderName(code) in {"Connection", "Content-Length", "Expect", "Transfer-Encoding"}
  {
  }

  lemma FlagNamed(bit: nat)
    ensures HeaderName(FlagHeader(bit)) == FlagName(bit)
    ensures HeaderName(RQ_CONTENT_LENGTH) == "Content-Length"
  {
  }

  /** A name that spells no row of the header table. */
  ghost predicate Unrecognised(name: seq<Char>) {
    forall s :: s in HEADER_SHAPE.text ==> HEADER_SHAPE.text[s] != LowerAll(name)
  }

  ghost predicate ValidField(f: Field) {
    match f
    case Text_(name, code, first, more) =>
      && 1 <= code < HEADER_NAMES && SameName(name, HeaderName(code))
      && HeaderName(code) !in {"Connection", "Content-Length", "Expect", "Transfer-Encoding"}
      && Plain(first.raw) && (forall i :: 0 <= i < |more| ==> ValidFold(more[i]))
    case Flag_(name, code, lead, word, bit, _) =>
      && bit in {CLOSE, KEEP, CONTINUE, CHUNKED} && code == FlagHeader(bit)
      && SameName(name, FlagName(bit)) && Blanks(lead) && SameName(word, FlagWord(bit))
    case Length_(name, lead, digits, _) =>
      SameName(name, "Content-Length") && Blanks(lead) && Digits(digits)
    case Other_(name, rest) =>
      && Plain(name) && name != [] && !IsBlank(name[0]) && COLON !in name && NulFree(name) && Unrecognised(name)
      && Plain(rest.raw)
  }

  predicate ValidTarget(g: Message) { ValidPath(g.path) && (g.query.Some? ==> ValidQuery(g.query.value)) }

  ghost predicate ValidMessage(g: Message) {
    && (forall i :: 0 <= i < |g.before| ==> g.before[i] == CR || g.before[i] == LF)
    && 1 <= g.method_ <= 8
    && (g.path != [] || g.query.Some?) && ValidTarget(g)
    && g.version in {9, 10, 11}
    && forall i :: 0 <= i < |g.fields| ==> ValidField(g.fields[i])
  }
}
