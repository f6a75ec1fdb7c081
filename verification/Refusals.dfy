/** Request lines that are refused, and with which status: for every input, by the bytes of the line alone. */
module Refusals {
  import opened Chars
  import opened TextInts
  import opened Patricia
  import opened Keywords
  import opened Requests
  import opened Syntax
  import opened RoundTrip
  import opened Fields

  // ---------------------------------------------------------------- the parts of a request line

  /** The bytes that the parser takes for the end of a method or a protocol name. */
  predicate EndsMethod(c: int) { c == SP || c == NUL }

  predicate EndsProtocol(c: int) { c == '/' as int || c == NUL }

  /** A method as the walk hears it: without the terminators it swallows. */
  function Sounded(w: seq<Char>): seq<int> {
    if w == [] then []
    else if EndsMethod(w[|w| - 1]) then Sounded(w[..|w| - 1])
    else Sounded(w[..|w| - 1]) + [w[|w| - 1]]
  }

  ghost predicate BeginsMethod(u: seq<int>) { exists j :: 1 <= j <= 8 && u <= Codes(MethodName(j)) }

  /** The start of one of the eight methods, with terminators swallowed behind "P", where a row of the table ends. */
  ghost predicate MethodBegun(w: seq<Char>) {
    && w != [] && !EndsMethod(w[0]) && BeginsMethod(Sounded(w))
    && forall i :: 0 <= i < |w| && EndsMethod(w[i]) ==> Sounded(w[..i]) == ['P' as int]
  }

  ghost predicate IsMethod(w: seq<Char>, j: nat) { 1 <= j <= 8 && Sounded(w) == Codes(MethodName(j)) }

  /** Listed bytes and escapes; the last escape need not be complete. */
  predicate TargetBegun(t: seq<Char>) {
    && t != []
    && (forall i :: 0 <= i < |t| ==> t[i] == '%' as int || OneOf(t[i], TARGET_BYTES))
    && (forall i :: 0 < i < |t| && t[i - 1] == '%' as int ==> OneOf(t[i], HEX_BYTES))
    && (forall i :: 1 < i < |t| && t[i - 2] == '%' as int ==> OneOf(t[i], HEX_BYTES))
  }

  /** How far into an escape the end of a target is. */
  function Pending(t: seq<Char>): nat {
    if t != [] && t[|t| - 1] == '%' as int then 2
    else if |t| > 1 && t[|t| - 2] == '%' as int then 1
    else 0
  }

  /** How many bytes of text a target takes: one for each byte and each complete escape. */
  function Letters(t: seq<Char>): nat {
    if t == [] then 0 else Letters(t[..|t| - 1]) + if Pending(t) > 0 then 0 else 1
  }

  predicate Spaces(s: seq<Char>) { forall i :: 0 <= i < |s| ==> s[i] == SP }

  /** Part `i` of a request line, as far as it goes: line ends before it, a method, its end, a target, a gap, a
      protocol name, its end with the major version, a dot with the minor version, a line end. */
  ghost predicate Begun(i: nat, s: seq<Char>) {
    match i
    case 0 => forall i :: 0 <= i < |s| ==> s[i] == CR || s[i] == LF
    case 1 => MethodBegun(s)
    case 2 => s != [] && EndsMethod(s[0]) && Spaces(s[1..])
    case 3 => TargetBegun(s)
    case 4 => s != [] && Spaces(s)
    case 5 => s != [] && s <= HTTP
    case 6 => s != [] && EndsProtocol(s[0]) && Digits(s[1..])
    case 7 => s != [] && s[0] == '.' as int && Digits(s[1..])
    case _ => s == [CR] || s == [LF] || s == [CR, LF]
  }

  /** The part can end there. */
  ghost predicate Whole(i: nat, s: seq<Char>) {
    match i
    case 1 => exists j :: IsMethod(s, j)
    case 3 => Pending(s) == 0
    case 5 => s == HTTP
    case 8 => s == [LF] || s == [CR, LF]
    case _ => true
  }

  predicate Speaks(version: nat, major: int, minor: int) {
    (version == 9 && major == 0 && minor == 9) || (version == 10 && major == 1 && minor == 0)
    || (version == 11 && major == 1 && minor == 1)
  }

  function MajorOf(ps: seq<seq<Char>>): int { if |ps| > 6 && ps[6] != [] then Number(ps[6][1..]) % U32 else 0 }

  function MinorOf(ps: seq<seq<Char>>): int { if |ps| > 7 && ps[7] != [] then Number(ps[7][1..]) % U32 else 0 }

  /** The version numbers, modulo 2^32, are 0.9, 1.0 or 1.1. */
  predicate Supported(ps: seq<seq<Char>>) {
    (MajorOf(ps) == 0 && MinorOf(ps) == 9) || (MajorOf(ps) == 1 && (MinorOf(ps) == 0 || MinorOf(ps) == 1))
  }

  /** How many bytes of text the parts take, with the NUL in front of them and the one behind the target. */
  function Stored(ps: seq<seq<Char>>): nat {
    1 + (if |ps| > 3 then Letters(ps[3]) else 0) + (if |ps| > 4 then 1 else 0)
  }

  /** A request line, as far as it goes. */
  ghost predicate Parts(ps: seq<seq<Char>>) {
    && 1 <= |ps| <= 9 && Begun(|ps| - 1, ps[|ps| - 1])
    && (forall i :: 0 <= i < |ps| - 1 ==> Begun(i, ps[i]) && Whole(i, ps[i]))
    && (|ps| == 9 ==> Supported(ps))
  }

  ghost predicate Complete(ps: seq<seq<Char>>) { Parts(ps) && |ps| == 9 && Whole(8, ps[8]) }

  function Flat(ps: seq<seq<Char>>): seq<Char> {
    if ps == [] then [] else Flat(ps[..|ps| - 1]) + ps[|ps| - 1]
  }

  /** The line with one byte more: in its last part, or as the first byte of the next one. */
  ghost function Grown(ps: seq<seq<Char>>, c: Char): Option<seq<seq<Char>>>
    requires ps != []
  {
    var n := |ps|;
    if Begun(n - 1, ps[n - 1] + [c]) then Some(ps[n - 1 := ps[n - 1] + [c]])
    else if n < 9 && Whole(n - 1, ps[n - 1]) && Begun(n, [c]) && (n == 8 ==> Supported(ps)) then Some(ps + [[c]])
    else None
  }

  /** The status of a refusal at byte `c`. */
  ghost function Offence(ps: seq<seq<Char>>, c: Char, size: nat): Option<nat>
    requires ps != []
  {
    match Grown(ps, c)
    case Some(ps') => if Stored(ps') > size then Some(414) else None
    case None => if |ps| == 5 || |ps| == 6 || (|ps| == 8 && !Supported(ps)) then Some(505) else Some(400)
  }

  // ---------------------------------------------------------------- growing

  lemma FlatSnoc(ps: seq<seq<Char>>, s: seq<Char>)
    ensures Flat(ps + [s]) == Flat(ps) + s
  {
    assert (ps + [s])[..|ps|] == ps;
  }

  lemma FlatGrown(ps: seq<seq<Char>>, c: Char)
    requires ps != [] && Grown(ps, c).Some?
    ensures Flat(Grown(ps, c).value) == Flat(ps) + [c]
  {
    hide Begun, Whole, Supported, Flat;
    var n, s := |ps|, ps[|ps| - 1];
    if Begun(n - 1, s + [c]) {
      assert ps[n - 1 := s + [c]] == ps[..n - 1] + [s + [c]];
      assert ps == ps[..n - 1] + [s];
      FlatSnoc(ps[..n - 1], s);
      FlatSnoc(ps[..n - 1], s + [c]);
    } else {
      FlatSnoc(ps, [c]);
    }
  }

  lemma SameVersion(ps: seq<seq<Char>>, ps': seq<seq<Char>>)
    requires |ps| >= 8 && |ps'| >= 8 && ps[6] == ps'[6] && ps[7] == ps'[7]
    ensures Supported(ps) <==> Supported(ps')
  {
  }

  lemma GrownParts(ps: seq<seq<Char>>, c: Char)
    requires Parts(ps) && Grown(ps, c).Some?
    ensures Parts(Grown(ps, c).value)
  {
    hide Begun, Whole, Supported;
    if |Grown(ps, c).value| == 9 {
      SameVersion(ps, Grown(ps, c).value);
    }
  }

  // ---------------------------------------------------------------- the walks

  ghost predicate MethodAt(u: seq<int>, ts: TrieState) {
    UtilityWellFormed(0);
    At(METHODS, UtilityShape(0), u, ts)
  }

  ghost predicate ProtocolAt(u: seq<int>, ts: TrieState) {
    UtilityWellFormed(10);
    At(PROTOCOL, UtilityShape(10), u, ts)
  }

  lemma MethodRows(s: nat)
    requires s in UtilityShape(0).text
    ensures s < 30 && UtilityTrie(0).tree[s] == UtilityRow(s)
    ensures UtilityRow(s).terminal <= 8
    ensures UtilityShape(0).text[s]
         == Codes(if UtilityRow(s).terminal == 0 then "P" else MethodName(UtilityRow(s).terminal))
  {
  }

  lemma MethodNamesApart(i: nat, j: nat)
    requires 1 <= i <= 8 && 1 <= j <= 8 && Codes(MethodName(i)) == Codes(MethodName(j))
    ensures i == j
  {
    var a, b := MethodName(i), MethodName(j);
    assert Codes(a)[0] == a[0] as int && Codes(b)[0] == b[0] as int;
    assert Codes(a)[1] == a[1] as int && Codes(b)[1] == b[1] as int;
  }

  /** What the walk over the methods hears in a byte that ends no name. */
  lemma MethodHeard(u: seq<int>, ts: TrieState, c: Char)
    requires MethodAt(u, ts) && !EndsMethod(c)
    ensures var w := Look(METHODS, ts, c, c == SP);
            w.Walked? && if BeginsMethod(u + [c]) then w.r == 0 && MethodAt(u + [c], w.ts) else w.r == -1
  {
    hide WellFormed, WalkTrie, MethodName, At, UtilityRow;
    UtilityWellFormed(0);
    AdvanceFollows(METHODS, UtilityShape(0), u, ts, c);
    MethodsOnTrie(u + [c]);
  }

  lemma MethodsOnTrie(v: seq<int>)
    ensures OnTrie(UtilityShape(0), v) <==> BeginsMethod(v)
  {
    hide MethodName, UtilityRow;
    var sh := UtilityShape(0);
    if OnTrie(sh, v) {
      var s :| s in sh.text && v <= sh.text[s];
      MethodRows(s);
      PostStarts();
      assert v <= Codes(MethodName(if UtilityRow(s).terminal == 0 then 3 else UtilityRow(s).terminal));
    }
    if BeginsMethod(v) {
      var j :| 1 <= j <= 8 && v <= Codes(MethodName(j));
      MethodRow(j);
      MethodNamed(j);
      assert sh.text[MethodSlot(j)] == Codes(MethodName(j));
    }
  }

  lemma PostStarts()
    ensures Codes("P") == ['P' as int] && Codes("P") <= Codes(MethodName(3))
    ensures forall j :: 1 <= j <= 8 ==> Codes(MethodName(j)) != ['P' as int] && Codes(MethodName(j)) != []
  {
  }

  /** What it reports at a byte that may end a name. */
  lemma MethodReported(u: seq<int>, ts: TrieState, c: Char)
    requires MethodAt(u, ts) && EndsMethod(c)
    ensures var w := Look(METHODS, ts, c, c == SP);
            && w.Walked? && w.ts == ts && -1 <= w.r <= 8 && (w.r == 0 <==> u == ['P' as int])
            && forall j :: 1 <= j <= 8 ==> (w.r == j <==> u == Codes(MethodName(j)))
  {
    hide WellFormed, WalkTrie, MethodName, At, UtilityRow;
    var sh := UtilityShape(0);
    UtilityWellFormed(0);
    FinishReports(METHODS, sh, u, ts, c);
    PostStarts();
    if s :| s in sh.text && sh.text[s] == u {
      MethodRows(s);
      forall j | 1 <= j <= 8 && u == Codes(MethodName(j))
        ensures UtilityRow(s).terminal == j
      {
        MethodNamesApart(UtilityRow(s).terminal, j);
      }
    }
    forall j | 1 <= j <= 8
      ensures MethodSlot(j) in sh.text && sh.text[MethodSlot(j)] == Codes(MethodName(j))
    {
      MethodRow(j);
      MethodNamed(j);
    }
    PRow();
  }

  lemma PRow()
    ensures 15 in UtilityShape(0).text && UtilityShape(0).text[15] == Codes("P")
  {
  }

  lemma ProtocolHeard(u: seq<int>, ts: TrieState, c: Char)
    requires ProtocolAt(u, ts)
    ensures var w := Look(PROTOCOL, ts, c, c == '/' as int);
            && w.Walked?
            && if EndsProtocol(c) then w.ts == ts && w.r == (if u == HTTP then 1 else -1)
               else if u + [c] <= HTTP then w.r == 0 && ProtocolAt(u + [c], w.ts)
               else w.r == -1
  {
    hide WellFormed, WalkTrie, At;
    UtilityWellFormed(10);
    HttpRow();
    if EndsProtocol(c) {
      FinishReports(PROTOCOL, UtilityShape(10), u, ts, c);
    } else {
      AdvanceFollows(PROTOCOL, UtilityShape(10), u, ts, c);
    }
  }

  lemma HttpRow()
    ensures forall s :: s in UtilityShape(10).text <==> s == 8
    ensures UtilityShape(10).text[8] == HTTP && PROTOCOL.tree[8].terminal == 1
  {
  }

  // ---------------------------------------------------------------- the parser keeps to the parts

  ghost predicate InTarget(k: Parser, t: seq<Char>) {
    var st := if '?' as int in t then Query else Path;
    match Pending(t)
    case 0 => k.st == st
    case 1 => k.st == Escaped2 && k.est == st
    case _ => k.st == Escaped1 && k.est == st
  }

  ghost predicate InState(k: Parser, ps: seq<seq<Char>>)
    requires 1 <= |ps| <= 9
  {
    match |ps|
    case 1 => k.st == Initial
    case 2 => k.st == Method && MethodAt(Sounded(ps[1]), k.ts)
    case 3 => k.st == MethodSp
    case 4 => InTarget(k, ps[3])
    case 5 => k.st == PathSp
    case 6 => k.st == Prot && ProtocolAt(ps[5], k.ts)
    case 7 => k.st == ProtSlash
    case 8 => k.st == ProtHttpXDot
    case _ => k.st == if ps[8] == [CR] then Cr else Nl
  }

  /** The parser has read the line so far. */
  ghost predicate AtPlace(k: Parser, ps: seq<seq<Char>>, size: nat) {
    && Parts(ps) && Stored(ps) <= size && InState(k, ps)
    && k.text.size == size && k.text.ints == [] && |k.text.chars| == Stored(ps)
    && k.nl == (if Complete(ps) then 1 else 0) && k.major == MajorOf(ps) && k.minor == MinorOf(ps)
    && (|ps| > 2 ==> IsMethod(ps[1], k.rq.method_))
    && if |ps| == 9 then Speaks(k.rq.version, k.major, k.minor) else k.rq.version == 0
  }

  /** A byte takes the parser to the longer line, or it is refused. */
  ghost predicate Follows(ps: seq<seq<Char>>, c: Char, size: nat, v: Verdict)
    requires ps != []
  {
    match Offence(ps, c, size)
    case Some(status) => v.Fail? && v.status == status
    case None => v.More? && AtPlace(v.k, Grown(ps, c).value, size)
  }

  lemma StepExit(k: Parser, c: Char)
    requires Ready(k) && Dispatch(k, c).Exit?
    ensures var j := Dispatch(k, c); Step(k, c) == Fail(j.status, j.k)
  {
    hide Dispatch, Ready;
  }

  lemma StepCrash(k: Parser, c: Char)
    requires Ready(k) && Dispatch(k, c).Crash?
    ensures Step(k, c) == OutOfBounds
  {
    hide Dispatch, Ready;
  }

  /** A byte handed to the error state is refused with 400. */
  lemma BadRequest(k: Parser, c: Char)
    requires Ready(k) && Dispatch(k, c).Again? && Dispatch(k, c).k.st == ErrorBadRequest
    ensures Step(k, c).Fail? && Step(k, c).status == 400
  {
    hide Requests.Step, Ready, DispatchHead;
    var j := Dispatch(k, c);
    StepAgain(k, c);
    assert Dispatch(j.k, j.c) == Exit(400, j.k) by {
      hide OnMethod, OnPath;
    }
    StepExit(j.k, j.c);
  }

  /** What most bytes leave alone. */
  predicate SameLine(k: Parser, k': Parser) {
    && k'.nl == k.nl && k'.major == k.major && k'.minor == k.minor
    && k'.rq.version == k.rq.version && k'.rq.method_ == k.rq.method_
    && k'.text.ints == k.text.ints && k'.text.size == k.text.size
  }

  // ---------------------------------------------------------------- the method

  lemma MethodGoesOn(k: Parser, u: seq<int>, c: Char)
    requires Ready(k) && k.st == Method && k.nl == 0 && MethodAt(u, k.ts) && !EndsMethod(c)
    ensures var v := Step(k, c);
            if BeginsMethod(u + [c]) then
              v.More? && v.k.st == Method && MethodAt(u + [c], v.k.ts) && SameLine(k, v.k) && v.k.text == k.text
            else v.Fail? && v.status == 400
  {
    hide Requests.Step, Ready, MethodAt, BeginsMethod, Look, DispatchHead;
    MethodHeard(u, k.ts, c);
    if BeginsMethod(u + [c]) {
      StepNext(k, c);
    } else {
      BadRequest(k, c);
    }
  }

  lemma MethodDone(k: Parser, u: seq<int>, c: Char)
    requires Ready(k) && k.st == Method && k.nl == 0 && MethodAt(u, k.ts) && EndsMethod(c)
    ensures var v := Step(k, c);
            if u == ['P' as int] then
              v.More? && v.k.st == Method && MethodAt(u, v.k.ts) && SameLine(k, v.k) && v.k.text == k.text
            else if exists j :: 1 <= j <= 8 && u == Codes(MethodName(j)) then
              && v.More? && v.k.st == MethodSp && 1 <= v.k.rq.method_ <= 8 && u == Codes(MethodName(v.k.rq.method_))
              && SameLine(k.(rq := k.rq.(method_ := v.k.rq.method_)), v.k) && v.k.text == k.text
            else v.Fail? && v.status == 400
  {
    hide Requests.Step, Ready, MethodAt, Look, DispatchHead, MethodName;
    MethodReported(u, k.ts, c);
    PostStarts();
    var r := Look(METHODS, k.ts, c, c == SP).r;
    assert 1 <= r <= 8 ==> u == Codes(MethodName(r));
    if u == ['P' as int] || exists j :: 1 <= j <= 8 && u == Codes(MethodName(j)) {
      StepNext(k, c);
    } else {
      BadRequest(k, c);
    }
  }

  lemma SoundedSnoc(w: seq<Char>, c: Char)
    ensures Sounded(w + [c]) == if EndsMethod(c) then Sounded(w) else Sounded(w) + [c]
  {
    assert (w + [c])[..|w|] == w;
  }

  lemma MethodGrows(w: seq<Char>, c: Char)
    requires w == [] || MethodBegun(w)
    ensures MethodBegun(w + [c]) <==>
              if EndsMethod(c) then Sounded(w) == ['P' as int] else BeginsMethod(Sounded(w) + [c])
  {
    hide BeginsMethod, Sounded;
    SoundedSnoc(w, c);
    NothingSounded();
    var t := w + [c];
    assert forall i :: 0 <= i < |w| ==> t[i] == w[i] && t[..i] == w[..i];
    assert t[..|w|] == w;
  }

  lemma NothingSounded()
    ensures Sounded([]) == []
  {
  }

  lemma WordFollows(k: Parser, ps: seq<seq<Char>>, c: Char, size: nat)
    requires Suspendable(k) && AtPlace(k, ps, size) && |ps| == 2
    ensures Follows(ps, c, size, Step(k, c))
  {
    hide Requests.Step, Ready, MethodAt, BeginsMethod, MethodBegun, Sounded, MethodName, Letters;
    var w := ps[1];
    MethodGrows(w, c);
    SoundedSnoc(w, c);
    if EndsMethod(c) {
      MethodDone(k, Sounded(w), c);
      PostStarts();
      assert Whole(1, w) <==> exists j :: 1 <= j <= 8 && Sounded(w) == Codes(MethodName(j)) by {
        assert forall j :: IsMethod(w, j) <==> 1 <= j <= 8 && Sounded(w) == Codes(MethodName(j));
      }
      assert [c][1..] == [];
      assert Begun(2, [c]);
    } else {
      MethodGoesOn(k, Sounded(w), c);
    }
    if Grown(ps, c).Some? {
      GrownParts(ps, c);
    }
  }

  // ---------------------------------------------------------------- the target

  lemma PendingSnoc(t: seq<Char>, c: Char)
    ensures Pending(t + [c]) == if c == '%' as int then 2 else if Pending(t) == 2 then 1 else 0
    ensures Letters(t + [c]) == Letters(t) + if Pending(t + [c]) > 0 then 0 else 1
    ensures '?' as int in t + [c] <==> '?' as int in t || c == '?' as int
  {
    assert (t + [c])[..|t|] == t;
  }

  /** A target may go on with a listed byte or an escape, but with a hex digit only inside one. */
  lemma TargetGrows(t: seq<Char>, c: Char)
    requires t == [] || TargetBegun(t)
    ensures TargetBegun(t + [c]) <==>
              if Pending(t) > 0 then IsHex(c) else c == '%' as int || UriUric(c)
  {
    hide OneOf, IsHex, UriUric;
    HexBytes(c);
    TargetBytes(c);
    PercentNotHex();
    HexInTarget(c);
    var u, n := t + [c], |t|;
    assert u[n] == c && forall i :: 0 <= i < n ==> u[i] == t[i];
    if TargetBegun(u) {
      assert u[n] == '%' as int || OneOf(u[n], TARGET_BYTES);
      assert n > 0 && u[n - 1] == '%' as int ==> OneOf(u[n], HEX_BYTES);
      assert n > 1 && u[n - 2] == '%' as int ==> OneOf(u[n], HEX_BYTES);
    }
  }

  lemma HexInTarget(c: Char) ensures IsHex(c) ==> UriUric(c) && c != '%' as int && c != '?' as int {
  }

  lemma PercentNotHex() ensures !IsHex('%' as int) && !UriUric('%' as int) && !UriUric(SP) && !InPath('?' as int) {
  }

  /** One byte more of text. */
  ghost predicate Lengthens(k: Parser, v: Verdict) {
    if k.text.CharFits() then v.More? && SameLine(k, v.k) && |v.k.text.chars| == |k.text.chars| + 1
    else v.Fail? && v.status == 414
  }

  ghost predicate TargetFollows(k: Parser, t: seq<Char>, c: Char, v: Verdict) {
    if TargetBegun(t + [c]) then
      if Pending(t + [c]) > 0 then v.More? && InTarget(v.k, t + [c]) && SameLine(k, v.k) && v.k.text == k.text
      else Lengthens(k, v) && (v.More? ==> InTarget(v.k, t + [c]))
    else if Pending(t) == 0 && c == SP then Lengthens(k, v) && (v.More? ==> v.k.st == PathSp)
    else v.Fail? && v.status == 400
  }

  lemma PathFollows(k: Parser, t: seq<Char>, c: Char)
    requires Ready(k) && k.nl == 0 && InTarget(k, t) && Pending(t) == 0 && '?' as int !in t
    requires t == [] || TargetBegun(t)
    ensures TargetFollows(k, t, c, Step(k, c))
  {
    hide Requests.Step, Ready, TargetBegun, Pending, InPath, UriUric, Dispatch, Letters;
    PendingSnoc(t, c);
    TargetGrows(t, c);
    TargetBytes(c);
    PercentNotHex();
    PathDispatched(k, c);
    match OnPath(k, c)
    case Next(_) => StepNext(k, c);
    case Exit(_, _) => StepExit(k, c);
    case _ => BadRequest(k, c);
  }

  lemma PathDispatched(k: Parser, c: Char)
    requires k.st == Path
    ensures Dispatch(k, c) == OnPath(k, c)
  {
    hide OnPath, DispatchHead;
  }

  lemma QueryFollows(k: Parser, t: seq<Char>, c: Char)
    requires Ready(k) && k.nl == 0 && InTarget(k, t) && Pending(t) == 0 && '?' as int in t && TargetBegun(t)
    ensures TargetFollows(k, t, c, Step(k, c))
  {
    hide Requests.Step, Ready, TargetBegun, Pending, InPath, UriUric, DispatchHead;
    PendingSnoc(t, c);
    TargetGrows(t, c);
    PercentNotHex();
    if OnQuery(k, c).Next? {
      StepNext(k, c);
    } else if OnQuery(k, c).Exit? {
      StepExit(k, c);
    } else {
      BadRequest(k, c);
    }
  }

  lemma EscapeFollows(k: Parser, t: seq<Char>, c: Char)
    requires Ready(k) && k.nl == 0 && InTarget(k, t) && Pending(t) > 0 && TargetBegun(t)
    ensures TargetFollows(k, t, c, Step(k, c))
  {
    hide Requests.Step, Ready, TargetBegun, Pending, InPath, UriUric, IsHex, DispatchHead, Unescape, UriHexConv;
    PendingSnoc(t, c);
    TargetGrows(t, c);
    HexInTarget(c);
    PendingBound(t);
    if Dispatch(k, c).Next? {
      StepNext(k, c);
    } else if Dispatch(k, c).Exit? {
      StepExit(k, c);
    } else {
      BadRequest(k, c);
    }
  }

  lemma PendingBound(t: seq<Char>) ensures Pending(t) <= 2 {
  }

  lemma GrownWithin(ps: seq<seq<Char>>, c: Char)
    requires 1 <= |ps| <= 9 && Begun(|ps| - 1, ps[|ps| - 1] + [c])
    ensures Grown(ps, c) == Some(ps[|ps| - 1 := ps[|ps| - 1] + [c]])
  {
    hide Begun, Whole, Supported;
  }

  lemma GrownBehind(ps: seq<seq<Char>>, c: Char)
    requires 1 <= |ps| <= 8 && !Begun(|ps| - 1, ps[|ps| - 1] + [c]) && Whole(|ps| - 1, ps[|ps| - 1])
    ensures Grown(ps, c) == if Begun(|ps|, [c]) && (|ps| == 8 ==> Supported(ps)) then Some(ps + [[c]]) else None
  {
    hide Begun, Whole, Supported;
  }

  lemma SpacesSnoc(s: seq<Char>, c: Char)
    ensures Spaces(s + [c]) <==> Spaces(s) && c == SP
    ensures Digits(s + [c]) <==> Digits(s) && IsDigit(c)
  {
    var t := s + [c];
    assert t[|s|] == c && forall i :: 0 <= i < |s| ==> t[i] == s[i];
  }

  /** Up to the protocol, a byte changes the place and the length of the text only. */
  lemma Moves(k: Parser, ps: seq<seq<Char>>, c: Char, size: nat, v: Verdict)
    requires AtPlace(k, ps, size) && 3 <= |ps| <= 6 && Grown(ps, c).Some?
    requires var ps' := Grown(ps, c).value;
             if Stored(ps') > size then v.Fail? && v.status == 414
             else v.More? && SameLine(k, v.k) && |v.k.text.chars| == Stored(ps') && InState(v.k, ps')
    ensures Follows(ps, c, size, v)
  {
    hide Begun, Whole, IsMethod, Stored, InState;
    GrownParts(ps, c);
    var ps' := Grown(ps, c).value;
    assert ps'[1] == ps[1];
    NoVersion(ps);
    NoVersion(ps');
  }

  lemma NoVersion(ps: seq<seq<Char>>)
    requires |ps| <= 7 && (|ps| == 7 ==> |ps[6]| <= 1)
    ensures MajorOf(ps) == 0 && MinorOf(ps) == 0
  {
  }

  /** The gap, the target and the gap behind it. */
  lemma GapFollows(k: Parser, ps: seq<seq<Char>>, c: Char, size: nat)
    requires Suspendable(k) && AtPlace(k, ps, size) && |ps| == 3
    ensures Follows(ps, c, size, Step(k, c))
  {
    hide Requests.Step, Ready, TargetBegun, DispatchHead, Letters, IsMethod, Parts;
    var s := ps[2];
    if c == SP {
      GapGoesOn(ps);
      StepNext(k, c);
      Moves(k, ps, c, size, Step(k, c));
    } else {
      GapEnds(ps, c);
      StepAgain(k, c);
      var k1 := Dispatch(k, c).k;
      PathFollows(k1, [], c);
      if TargetBegun([c]) {
        Moves(k, ps, c, size, Step(k, c));
      }
    }
  }

  lemma GapGoesOn(ps: seq<seq<Char>>)
    requires Parts(ps) && |ps| == 3
    ensures Grown(ps, SP) == Some(ps[2 := ps[2] + [SP]])
  {
    assert (ps[2] + [SP])[1..] == ps[2][1..] + [SP];
    SpacesSnoc(ps[2][1..], SP);
    GrownWithin(ps, SP);
  }

  lemma GapEnds(ps: seq<seq<Char>>, c: Char)
    requires Parts(ps) && |ps| == 3 && c != SP
    ensures Grown(ps, c) == if TargetBegun([c]) then Some(ps + [[c]]) else None
    ensures [] + [c] == [c] && Pending([c]) == (if c == '%' as int then 2 else 0)
    ensures Letters([c]) == if c == '%' as int then 0 else 1
  {
    hide TargetBegun;
    assert (ps[2] + [c])[1..] == ps[2][1..] + [c];
    SpacesSnoc(ps[2][1..], c);
    GrownBehind(ps, c);
    PendingSnoc([], c);
    assert [] + [c] == [c];
  }

  lemma TargetFollowsOn(k: Parser, ps: seq<seq<Char>>, c: Char, size: nat)
    requires Suspendable(k) && AtPlace(k, ps, size) && |ps| == 4
    ensures Follows(ps, c, size, Step(k, c))
  {
    hide Requests.Step, Ready, TargetBegun, Letters, IsMethod, Pending, Parts;
    var t := ps[3];
    PendingBound(t);
    PendingSnoc(t, c);
    TargetGrown(ps, c);
    if Pending(t) > 0 {
      EscapeFollows(k, t, c);
    } else if '?' as int in t {
      QueryFollows(k, t, c);
    } else {
      PathFollows(k, t, c);
    }
    if Grown(ps, c).Some? {
      Moves(k, ps, c, size, Step(k, c));
    }
  }

  lemma TargetGrown(ps: seq<seq<Char>>, c: Char)
    requires Parts(ps) && |ps| == 4
    ensures TargetBegun(ps[3])
    ensures Grown(ps, c) == if TargetBegun(ps[3] + [c]) then Some(ps[3 := ps[3] + [c]])
                            else if Pending(ps[3]) == 0 && c == SP then Some(ps + [[SP]]) else None
  {
    hide TargetBegun, Pending;
    if TargetBegun(ps[3] + [c]) {
      GrownWithin(ps, c);
    } else if Pending(ps[3]) == 0 {
      GrownBehind(ps, c);
      assert [] + [c] == [c];
      SpacesSnoc([], c);
    }
  }

  // ---------------------------------------------------------------- the protocol and the version

  /** A byte of the protocol name, at its start or inside it. */
  lemma NameFollows(k: Parser, u: seq<Char>, c: Char)
    requires Ready(k) && k.st == Prot && k.nl == 0 && ProtocolAt(u, k.ts)
    ensures var v := Step(k, c);
            if EndsProtocol(c) && u == HTTP then
              v.More? && v.k.st == ProtSlash && SameLine(k, v.k) && v.k.text == k.text
            else if !EndsProtocol(c) && u + [c] <= HTTP then
              v.More? && v.k.st == Prot && ProtocolAt(u + [c], v.k.ts) && SameLine(k, v.k) && v.k.text == k.text
            else v.Fail? && v.status == 505
  {
    hide Requests.Step, Ready, ProtocolAt, Look, DispatchHead;
    ProtocolHeard(u, k.ts, c);
    if OnProt(k, c).Next? {
      StepNext(k, c);
    } else {
      StepExit(k, c);
    }
  }

  lemma HttpBytes(s: seq<Char>, c: Char)
    requires s <= HTTP
    ensures s + [c] <= HTTP ==> !EndsProtocol(c) && c != SP
    ensures [c] <= HTTP ==> !EndsProtocol(c) && c != SP
    ensures ProtocolAt([], START)
  {
    hide WellFormed;
    if s + [c] <= HTTP {
      assert HTTP[|s|] == c;
    }
    if [c] <= HTTP {
      assert HTTP[0] == c;
    }
    UtilityWellFormed(10);
  }

  lemma SpaceFollows(k: Parser, ps: seq<seq<Char>>, c: Char, size: nat)
    requires Suspendable(k) && AtPlace(k, ps, size) && |ps| == 5
    ensures Follows(ps, c, size, Step(k, c))
  {
    hide Requests.Step, Ready, Letters, IsMethod, Parts, ProtocolAt;
    HttpBytes([], c);
    SpaceGrown(ps, c);
    if c == SP {
      StepNext(k, c);
    } else {
      ProtStarts(k, c);
      NameFollows(k.(st := Prot, ts := START), [], c);
      assert [] + [c] == [c];
    }
    if Grown(ps, c).Some? {
      Moves(k, ps, c, size, Step(k, c));
    }
  }

  lemma SpaceGrown(ps: seq<seq<Char>>, c: Char)
    requires Parts(ps) && |ps| == 5
    ensures Grown(ps, c) == if c == SP then Some(ps[4 := ps[4] + [c]])
                            else if [c] <= HTTP then Some(ps + [[c]]) else None
  {
    SpacesSnoc(ps[4], c);
    if c == SP {
      GrownWithin(ps, c);
    } else {
      GrownBehind(ps, c);
    }
  }

  lemma ProtocolFollows(k: Parser, ps: seq<seq<Char>>, c: Char, size: nat)
    requires Suspendable(k) && AtPlace(k, ps, size) && |ps| == 6
    ensures Follows(ps, c, size, Step(k, c))
  {
    hide Requests.Step, Ready, Letters, IsMethod, Parts, ProtocolAt;
    ProtocolGrown(ps, c);
    NameFollows(k, ps[5], c);
    if Grown(ps, c).Some? {
      Moves(k, ps, c, size, Step(k, c));
    }
  }

  lemma ProtocolGrown(ps: seq<seq<Char>>, c: Char)
    requires Parts(ps) && |ps| == 6
    ensures ps[5] <= HTTP
    ensures Grown(ps, c) == if !EndsProtocol(c) && ps[5] + [c] <= HTTP then Some(ps[5 := ps[5] + [c]])
                            else if EndsProtocol(c) && ps[5] == HTTP then Some(ps + [[c]]) else None
  {
    HttpBytes(ps[5], c);
    assert [c][1..] == [];
    if ps[5] + [c] <= HTTP {
      GrownWithin(ps, c);
    } else if ps[5] == HTTP {
      GrownBehind(ps, c);
    }
  }

  /** A version number with one digit more. */
  lemma NumberGrows(s: seq<Char>, c: Char)
    requires s != [] && Digits(s[1..]) && IsDigit(c)
    ensures (s + [c])[1..] == s[1..] + [c]
    ensures Number((s + [c])[1..]) % U32 == Decimal(Number(s[1..]) % U32, c)
  {
    var d := s[1..];
    NumberNat(d);
    DecimalAppends(Number(d), c);
    assert (d + [c])[..|d|] == d && (s + [c])[1..] == d + [c];
  }

  /** Behind the protocol name the text is complete. */
  lemma Counts(k: Parser, ps: seq<seq<Char>>, c: Char, size: nat, v: Verdict)
    requires AtPlace(k, ps, size) && |ps| >= 7 && Grown(ps, c).Some?
    requires var ps' := Grown(ps, c).value;
             && v.More? && v.k.text == k.text && v.k.rq.method_ == k.rq.method_ && InState(v.k, ps')
             && v.k.nl == (if Complete(ps') then 1 else 0)
             && v.k.major == MajorOf(ps') && v.k.minor == MinorOf(ps')
             && if |ps'| == 9 then Speaks(v.k.rq.version, v.k.major, v.k.minor) else v.k.rq.version == 0
    ensures Follows(ps, c, size, v)
  {
    hide Begun, Whole, IsMethod, InState, Complete;
    GrownParts(ps, c);
    var ps' := Grown(ps, c).value;
    assert ps'[1] == ps[1] && ps'[3] == ps[3];
  }

  lemma MajorFollows(k: Parser, ps: seq<seq<Char>>, c: Char, size: nat)
    requires Suspendable(k) && AtPlace(k, ps, size) && |ps| == 7
    ensures Follows(ps, c, size, Step(k, c))
  {
    hide Requests.Step, Ready, Letters, IsMethod, Parts, Number, Decimal, Digits, DispatchHead, InTarget;
    MajorGrown(ps, c);
    if IsDigit(c) {
      NumberGrows(ps[6], c);
      StepNext(k, c);
      Counts(k, ps, c, size, Step(k, c));
    } else {
      StepAgain(k, c);
      var k1 := k.(st := ProtHttpX);
      if c == '.' as int {
        StepNext(k1, c);
        Counts(k, ps, c, size, Step(k, c));
      } else {
        BadRequest(k1, c);
      }
    }
  }

  lemma MajorGrown(ps: seq<seq<Char>>, c: Char)
    requires Parts(ps) && |ps| == 7
    ensures ps[6] != [] && Digits(ps[6][1..]) && Number([]) == 0 && [c][1..] == []
    ensures Grown(ps, c) == if IsDigit(c) then Some(ps[6 := ps[6] + [c]])
                            else if c == '.' as int then Some(ps + [[c]]) else None
  {
    assert (ps[6] + [c])[1..] == ps[6][1..] + [c];
    SpacesSnoc(ps[6][1..], c);
    if IsDigit(c) {
      GrownWithin(ps, c);
    } else {
      GrownBehind(ps, c);
    }
  }

  lemma MinorFollows(k: Parser, ps: seq<seq<Char>>, c: Char, size: nat)
    requires Suspendable(k) && AtPlace(k, ps, size) && |ps| == 8
    ensures Follows(ps, c, size, Step(k, c))
  {
    hide Requests.Step, Ready, Letters, IsMethod, Parts, Number, Decimal, Digits, DispatchHead, InTarget;
    MinorGrown(ps, c);
    if IsDigit(c) {
      NumberGrows(ps[7], c);
      StepNext(k, c);
      Counts(k, ps, c, size, Step(k, c));
    } else {
      StepAgain(k, c);
      VersionFollows(k.(st := ProtHttpXX), c);
      if Grown(ps, c).Some? {
        GrownParts(ps, c);
        Counts(k, ps, c, size, Step(k, c));
      }
    }
  }

  /** The byte behind the version. */
  lemma VersionFollows(k: Parser, c: Char)
    requires Ready(k) && k.st == ProtHttpXX && k.nl == 0 && k.rq.version == 0
    ensures var v := Step(k, c);
            var ok := (k.major == 0 && k.minor == 9) || (k.major == 1 && (k.minor == 0 || k.minor == 1));
            if !ok then v.Fail? && v.status == 505
            else if c == CR || c == LF then
              && v.More? && v.k.st == (if c == CR then Cr else Nl) && v.k.nl == (if c == CR then 0 else 1)
              && v.k.text == k.text && v.k.major == k.major && v.k.minor == k.minor
              && v.k.rq.method_ == k.rq.method_ && Speaks(v.k.rq.version, k.major, k.minor)
            else v.Fail? && v.status == 400
  {
    hide Requests.Step, Ready, DispatchHead;
    match OnProtEnd(k, c)
    case Next(_) => StepNext(k, c);
    case Exit(_, _) => StepExit(k, c);
    case _ => BadRequest(k, c);
  }

  lemma MinorGrown(ps: seq<seq<Char>>, c: Char)
    requires Parts(ps) && |ps| == 8
    ensures ps[7] != [] && Digits(ps[7][1..])
    ensures (Whole(8, [c]) <==> c == LF) && ([c] == [CR] <==> c == CR)
    ensures Grown(ps, c) == if IsDigit(c) then Some(ps[7 := ps[7] + [c]])
                            else if (c == CR || c == LF) && Supported(ps) then Some(ps + [[c]]) else None
  {
    hide Supported;
    assert (ps[7] + [c])[1..] == ps[7][1..] + [c];
    SpacesSnoc(ps[7][1..], c);
    if IsDigit(c) {
      GrownWithin(ps, c);
    } else {
      GrownBehind(ps, c);
      assert [c] != [CR, LF] by {
        assert |[c]| != |[CR, LF]|;
      }
    }
  }

  lemma CrFollows(k: Parser, ps: seq<seq<Char>>, c: Char, size: nat)
    requires Suspendable(k) && AtPlace(k, ps, size) && |ps| == 9 && !Complete(ps)
    ensures Follows(ps, c, size, Step(k, c))
  {
    hide Requests.Step, Ready, Letters, IsMethod, Number, Digits, Begun, DispatchLine;
    EndGrown(ps, c);
    if c == LF {
      StepNext(k, c);
      GrownParts(ps, c);
      Counts(k, ps, c, size, Step(k, c));
    } else {
      BadRequest(k, c);
    }
  }

  lemma EndGrown(ps: seq<seq<Char>>, c: Char)
    requires Parts(ps) && |ps| == 9 && !Complete(ps)
    ensures ps[8] == [CR]
    ensures Grown(ps, c) == if c == LF then Some(ps[8 := [CR, LF]]) else None
  {
    assert |[CR] + [c]| == 2 && ([CR] + [c])[1] == c;
    if c == LF {
      GrownWithin(ps, c);
    }
  }

  lemma LeadFollows(k: Parser, ps: seq<seq<Char>>, c: Char, size: nat)
    requires Suspendable(k) && AtPlace(k, ps, size) && |ps| == 1
    ensures Follows(ps, c, size, Step(k, c))
  {
    hide Requests.Step, Ready, Letters, MethodAt, MethodName, BeginsMethod, Sounded;
    LeadGrown(ps, c);
    if c == CR || c == LF {
      StepNext(k, c);
      GrownParts(ps, c);
    } else {
      NothingWalked();
      MethodStarts(k, c);
      var k1 := k.(st := Method, ts := START, esc := 0);
      SoundedSnoc([], c);
      assert [] + [c] == [c];
      if EndsMethod(c) {
        PostStarts();
        MethodDone(k1, [], c);
      } else {
        MethodGoesOn(k1, [], c);
      }
      if Grown(ps, c).Some? {
        GrownParts(ps, c);
      }
    }
  }

  lemma NothingWalked()
    ensures MethodAt([], START) && Sounded([]) == []
  {
    hide WellFormed;
    UtilityWellFormed(0);
  }

  lemma LeadGrown(ps: seq<seq<Char>>, c: Char)
    requires Parts(ps) && |ps| == 1
    ensures Grown(ps, c) == if c == CR || c == LF then Some(ps[0 := ps[0] + [c]])
                            else if !EndsMethod(c) && BeginsMethod([c]) then Some(ps + [[c]]) else None
  {
    hide BeginsMethod, Sounded;
    NothingSounded();
    MethodGrows([], c);
    assert [] + [c] == [c];
    var s := ps[0] + [c];
    assert s[|ps[0]|] == c;
    if c == CR || c == LF {
      GrownWithin(ps, c);
    } else {
      GrownBehind(ps, c);
    }
  }

  /** A byte behind part of a request line: the line grows, or the status is the one given. */
  lemma LineFollows(k: Parser, ps: seq<seq<Char>>, c: Char, size: nat)
    requires Suspendable(k) && AtPlace(k, ps, size) && !Complete(ps)
    ensures Follows(ps, c, size, Step(k, c))
  {
    hide Requests.Step, Ready, Follows, InState, Begun;
    match |ps|
    case 1 => LeadFollows(k, ps, c, size);
    case 2 => WordFollows(k, ps, c, size);
    case 3 => GapFollows(k, ps, c, size);
    case 4 => TargetFollowsOn(k, ps, c, size);
    case 5 => SpaceFollows(k, ps, c, size);
    case 6 => ProtocolFollows(k, ps, c, size);
    case 7 => MajorFollows(k, ps, c, size);
    case 8 => MinorFollows(k, ps, c, size);
    case _ => CrFollows(k, ps, c, size);
  }

  // ---------------------------------------------------------------- whole inputs

  lemma StartPlace(hmask: set<nat>, m: nat, size: nat)
    requires size > 0
    ensures var k := Init(hmask, m, NO_REQUEST, size); Suspendable(k) && AtPlace(k, [[]], size)
    ensures Flat([[]]) == []
  {
  }

  lemma MethodShrinks(w: seq<Char>)
    requires MethodBegun(w) && |w| > 1
    ensures MethodBegun(w[..|w| - 1])
  {
    hide BeginsMethod;
    var t := w[..|w| - 1];
    assert w == t + [w[|w| - 1]];
    SoundedSnoc(t, w[|w| - 1]);
    assert forall i :: 0 <= i < |t| ==> t[i] == w[i] && t[..i] == w[..i];
    BeginsShorter(Sounded(t), Sounded(w));
  }

  lemma BeginsShorter(u: seq<int>, v: seq<int>)
    requires BeginsMethod(v) && u <= v
    ensures BeginsMethod(u)
  {
  }

  /** A part of more than one byte was a part before its last byte. */
  lemma PartShrinks(i: nat, s: seq<Char>)
    requires i <= 8 && Begun(i, s) && |s| > (if i == 0 then 0 else 1)
    ensures Begun(i, s[..|s| - 1]) && (i == 8 ==> s == [CR, LF])
  {
    hide MethodBegun, OneOf, Spaces, Digits;
    var t, c := s[..|s| - 1], s[|s| - 1];
    assert s == t + [c];
    if i == 1 {
      MethodShrinks(s);
    } else if i in {2, 4, 6, 7} {
      assert i != 4 ==> s[1..] == t[1..] + [c];
      SpacesSnoc(if i == 4 then t else t[1..], c);
    }
  }

  lemma MethodLetter(c: Char)
    requires MethodBegun([c])
    ensures IsUpper(c)
  {
    NothingSounded();
    SoundedSnoc([], c);
    assert [] + [c] == [c];
    var j :| 1 <= j <= 8 && Sounded([c]) <= Codes(MethodName(j));
    MethodNamed(j);
    assert Sounded([c])[0] == c;
  }

  /** No part goes on with the byte that the next one begins with. */
  lemma PartsApart(i: nat, s: seq<Char>, c: Char)
    requires i < 8 && Begun(i, s) && Whole(i, s) && Begun(i + 1, [c])
    ensures !Begun(i, s + [c])
  {
    hide OneOf, BeginsMethod, MethodBegun, MethodName, TargetBegun, UriUric, IsHex;
    assert [] + [c] == [c];
    SpacesSnoc(if i in {2, 6, 7} then s[1..] else s, c);
    match i
    case 0 =>
      assert (s + [c])[|s|] == c;
      MethodLetter(c);
    case 1 =>
      PostStarts();
      MethodGrows(s, c);
    case 2 =>
      assert (s + [c])[1..] == s[1..] + [c];
      TargetGrows([], c);
      PercentNotHex();
    case 3 =>
      SpacesSnoc([], c);
      TargetGrows(s, c);
      PercentNotHex();
    case 4 => HttpBytes([], c);
    case 5 =>
    case _ => assert (s + [c])[1..] == s[1..] + [c];
  }

  /** Every line but the empty one has come from a shorter one. */
  lemma Shrunk(ps: seq<seq<Char>>) returns (qs: seq<seq<Char>>, c: Char)
    requires Parts(ps) && ps != [[]]
    ensures Parts(qs) && !Complete(qs) && Grown(qs, c) == Some(ps) && Stored(qs) <= Stored(ps)
    ensures Flat(ps) == Flat(qs) + [c]
  {
    hide Begun, Whole, Supported, Letters, Flat;
    var n, s := |ps|, ps[|ps| - 1];
    SomeBytes(n - 1, s);
    c := s[|s| - 1];
    var t := s[..|s| - 1];
    assert s == t + [c];
    if |s| > 1 || n == 1 {
      PartShrinks(n - 1, s);
      qs := ps[n - 1 := t];
      assert qs[n - 1 := t + [c]] == ps;
      GrownWithin(qs, c);
      CrNotWhole(qs);
      LettersGrow(t, c);
      if n == 9 {
        SameVersion(ps, qs);
      }
    } else {
      qs := ps[..n - 1];
      assert qs + [[c]] == ps && s == [c];
      PartsApart(n - 2, ps[n - 2], c);
      if n == 9 {
        SameVersion(ps, qs);
      }
      GrownBehind(qs, c);
    }
    FlatGrown(qs, c);
  }

  lemma SomeBytes(i: nat, s: seq<Char>)
    requires Begun(i, s)
    ensures i > 0 ==> s != []
  {
  }

  lemma CrNotWhole(qs: seq<seq<Char>>)
    ensures |qs| == 9 && qs[8] == [CR, LF][..1] ==> !Complete(qs)
  {
    assert [CR, LF][..1] == [CR];
  }

  lemma LettersGrow(t: seq<Char>, c: Char)
    ensures Letters(t + [c]) >= Letters(t)
  {
    PendingSnoc(t, c);
  }

  /** A line is split into parts in one way only. */
  lemma {:induction false} PartsUnique(ps: seq<seq<Char>>, qs: seq<seq<Char>>)
    requires Parts(ps) && Parts(qs) && Flat(ps) == Flat(qs)
    ensures ps == qs
    decreases |Flat(ps)|
  {
    hide Parts, Complete, Grown, Flat;
    StartEmpty(ps);
    StartEmpty(qs);
    if ps != [[]] {
      var ps', c := Shrunk(ps);
      var qs', d := Shrunk(qs);
      assert Flat(ps)[..|Flat(ps')|] == Flat(ps') && Flat(qs)[..|Flat(qs')|] == Flat(qs');
      assert c == Flat(ps)[|Flat(ps')|] && d == Flat(qs)[|Flat(qs')|];
      PartsUnique(ps', qs');
    }
  }

  lemma StartEmpty(ps: seq<seq<Char>>)
    requires Parts(ps)
    ensures Flat(ps) == [] <==> ps == [[]]
  {
    hide Parts, Complete, Grown;
    if ps != [[]] {
      var qs, c := Shrunk(ps);
    }
  }

  /** Every shorter stretch of a line is an unfinished line. */
  lemma {:induction false} LineShortens(ps: seq<seq<Char>>, n: nat) returns (qs: seq<seq<Char>>)
    requires Parts(ps) && n < |Flat(ps)|
    ensures Parts(qs) && Flat(qs) == Flat(ps)[..n] && !Complete(qs)
    decreases |Flat(ps)|
  {
    hide Parts, Complete, Grown, Flat;
    StartEmpty(ps);
    var ps', c := Shrunk(ps);
    if n == |Flat(ps')| {
      qs := ps';
      assert Flat(ps)[..n] == Flat(ps');
    } else {
      qs := LineShortens(ps', n);
      assert Flat(ps)[..n] == Flat(ps')[..n];
    }
  }

  /** Every request line, as far as it goes, is read to its last byte. */
  lemma {:induction false} LineRead(hmask: set<nat>, m: nat, size: nat, ps: seq<seq<Char>>)
    requires size > 0 && Parts(ps) && Stored(ps) <= size
    ensures var v := Run(Init(hmask, m, NO_REQUEST, size), Flat(ps)); v.More? && AtPlace(v.k, ps, size)
    decreases |Flat(ps)|
  {
    hide Requests.Run, Requests.Step, AtPlace, Init, Stored, Parts, Complete, Grown, Flat;
    StartPlace(hmask, m, size);
    var k := Init(hmask, m, NO_REQUEST, size);
    StartEmpty(ps);
    if ps == [[]] {
      NothingRun(k);
    } else {
      var qs, c := Shrunk(ps);
      LineRead(hmask, m, size, qs);
      Snoc(k, Flat(qs), c);
      LineFollows(Run(k, Flat(qs)).k, qs, c, size);
    }
  }

  /** A byte that cannot follow is refused. */
  lemma LineRefused(hmask: set<nat>, m: nat, size: nat, ps: seq<seq<Char>>, c: Char, rest: seq<Char>)
    requires size > 0 && Parts(ps) && Stored(ps) <= size && !Complete(ps) && Offence(ps, c, size).Some?
    ensures var v := Run(Init(hmask, m, NO_REQUEST, size), Flat(ps) + ([c] + rest));
            v.Fail? && v.status == Offence(ps, c, size).value
  {
    hide Requests.Run, Requests.Step, AtPlace, Init, Stored, Parts, Complete, Offence, Flat;
    StartPlace(hmask, m, size);
    var k := Init(hmask, m, NO_REQUEST, size);
    LineRead(hmask, m, size, ps);
    RunConcat(k, Flat(ps), [c] + rest);
    var k1 := Run(k, Flat(ps)).k;
    Cons(k1, c, rest);
    LineFollows(k1, ps, c, size);
  }

  /** Every input starts with a line as far as it goes. */
  lemma {:induction false} LineSplit(cs: seq<Char>, ps: seq<seq<Char>>, rest: seq<Char>, size: nat)
    returns (qs: seq<seq<Char>>, left: seq<Char>)
    requires Parts(ps) && Stored(ps) <= size && cs == Flat(ps) + rest
    ensures Parts(qs) && Stored(qs) <= size && cs == Flat(qs) + left
    ensures left == [] || Complete(qs) || Offence(qs, left[0], size).Some?
    decreases |rest|
  {
    hide Begun, Whole, Supported, Complete, Stored, Flat;
    if rest == [] || Complete(ps) || Offence(ps, rest[0], size).Some? {
      qs, left := ps, rest;
    } else {
      var ps' := Grown(ps, rest[0]).value;
      GrownParts(ps, rest[0]);
      FlatGrown(ps, rest[0]);
      assert rest == [rest[0]] + rest[1..];
      qs, left := LineSplit(cs, ps', rest[1..], size);
    }
  }

  /** A whole request line is at the start of the input. */
  ghost predicate HasLine(cs: seq<Char>, size: nat) {
    exists ps :: Complete(ps) && Stored(ps) <= size && Flat(ps) <= cs
  }

  /** The input is refused in its request line. */
  ghost predicate LineRefuses(cs: seq<Char>, size: nat, status: nat) {
    exists ps, c, rest :: RefusedAt(ps, c, rest, cs, size, status)
  }

  ghost predicate RefusedAt(ps: seq<seq<Char>>, c: Char, rest: seq<Char>, cs: seq<Char>, size: nat, status: nat) {
    && Parts(ps) && !Complete(ps) && Stored(ps) <= size && cs == Flat(ps) + ([c] + rest)
    && Offence(ps, c, size) == Some(status)
  }

  /** One line cannot go on where another is refused. */
  lemma RefusedHasNoLine(hmask: set<nat>, m: nat, size: nat, ps: seq<seq<Char>>, c: Char, rest: seq<Char>,
                         cs: seq<Char>, status: nat)
    requires size > 0 && RefusedAt(ps, c, rest, cs, size, status)
    ensures !HasLine(cs, size)
  {
    hide Requests.Run, Requests.Step, AtPlace, Init, Stored, Parts, Offence, Flat, Complete;
    if HasLine(cs, size) {
      var qs :| Complete(qs) && Stored(qs) <= size && Flat(qs) <= cs;
      CompleteParts(qs);
      StartPlace(hmask, m, size);
      var k, f, g := Init(hmask, m, NO_REQUEST, size), Flat(ps), Flat(qs);
      assert g == cs[..|g|];
      if |g| > |f| {
        assert g == f + ([c] + g[|f| + 1..]);
        LineRead(hmask, m, size, qs);
        LineRefused(hmask, m, size, ps, c, g[|f| + 1..]);
      } else if |g| < |f| {
        var q := LineShortens(ps, |g|);
        assert g == f[..|g|];
        PartsUnique(q, qs);
      } else {
        assert g == f;
        PartsUnique(ps, qs);
      }
    }
  }

  lemma CompleteParts(ps: seq<seq<Char>>)
    requires Complete(ps)
    ensures Parts(ps)
  {
    hide Parts;
  }

  /** An input without a whole request line is refused exactly when, and with the status that, its bytes say. */
  lemma LineRefusedIff(hmask: set<nat>, m: nat, size: nat, cs: seq<Char>, status: nat)
    requires size > 0
    ensures LineRefuses(cs, size, status) <==>
              var v := Run(Init(hmask, m, NO_REQUEST, size), cs); !HasLine(cs, size) && v.Fail? && v.status == status
  {
    hide Requests.Run, Requests.Step, AtPlace, Init, Stored, Parts, Offence, Flat, HasLine;
    StartPlace(hmask, m, size);
    if LineRefuses(cs, size, status) {
      var ps, c, rest :| RefusedAt(ps, c, rest, cs, size, status);
      LineRefused(hmask, m, size, ps, c, rest);
      RefusedHasNoLine(hmask, m, size, ps, c, rest, cs, status);
    }
    var ps, rest := Split(cs, size);
    if Complete(ps) {
      assert HasLine(cs, size) by { LineAtStart(ps, rest, size); }
    } else if rest == [] {
      LineRead(hmask, m, size, ps);
      assert cs == Flat(ps);
    } else {
      assert rest == [rest[0]] + rest[1..];
      LineRefused(hmask, m, size, ps, rest[0], rest[1..]);
      assert RefusedAt(ps, rest[0], rest[1..], cs, size, Offence(ps, rest[0], size).value);
    }
  }

  lemma LineAtStart(ps: seq<seq<Char>>, rest: seq<Char>, size: nat)
    requires Complete(ps) && Stored(ps) <= size
    ensures HasLine(Flat(ps) + rest, size)
  {
    hide Complete, Stored, Flat;
  }

  lemma Split(cs: seq<Char>, size: nat) returns (ps: seq<seq<Char>>, rest: seq<Char>)
    requires size > 0
    ensures Parts(ps) && Stored(ps) <= size && cs == Flat(ps) + rest
    ensures rest == [] || Complete(ps) || Offence(ps, rest[0], size).Some?
  {
    assert Flat([[]]) == [] && [] + cs == cs;
    ps, rest := LineSplit(cs, [[]], cs, size);
  }

  /** "P OST", a method in two pieces. */
  const TORN_METHOD: seq<Char> := ['P' as int, SP, 'O' as int, 'S' as int, 'T' as int]

  const TORN_LINE: seq<seq<Char>> :=
    [[], TORN_METHOD, [SP], ['/' as int], [SP], HTTP, ['/' as int, '1' as int], ['.' as int, '1' as int], [LF]]

  lemma TornSounds()
    ensures MethodBegun(TORN_METHOD) && Sounded(TORN_METHOD) == Codes(MethodName(3))
  {
    hide BeginsMethod;
    var a, b, c, d := ['P' as int], ['P' as int, SP], ['P' as int, SP, 'O' as int], TORN_METHOD[..4];
    SoundedSnoc([], 'P' as int);
    SoundedSnoc(a, SP);
    SoundedSnoc(b, 'O' as int);
    SoundedSnoc(c, 'S' as int);
    SoundedSnoc(d, 'T' as int);
    assert a == [] + a && b == a + [SP] && c == b + ['O' as int] && d == c + ['S' as int];
    assert TORN_METHOD == d + ['T' as int] && TORN_METHOD[..1] == a;
    assert Codes("POST") == ['P' as int, 'O' as int, 'S' as int, 'T' as int];
    SelfBegins(3);
    forall w | w in {a, b, c, d}
      ensures BeginsMethod(Sounded(w))
    {
      BeginsShorter(Sounded(w), Codes(MethodName(3)));
    }
    NothingSounded();
    assert Sounded(a) == Sounded(b) == ['P' as int];
    MethodGrows([], 'P' as int);
    assert MethodBegun(a);
    MethodGrows(a, SP);
    assert MethodBegun(b);
    MethodGrows(b, 'O' as int);
    assert MethodBegun(c);
    MethodGrows(c, 'S' as int);
    assert MethodBegun(d);
    MethodGrows(d, 'T' as int);
    assert Sounded(TORN_METHOD) == Codes(MethodName(3));
    assert MethodBegun(d + ['T' as int]);
  }

  lemma SelfBegins(j: nat) requires 1 <= j <= 8 ensures BeginsMethod(Codes(MethodName(j))) {
  }

  lemma NoLetters() ensures Letters([]) == 0 {
  }

  lemma TornParts()
    ensures Parts(TORN_LINE) && Stored(TORN_LINE) == 3
  {
    hide MethodBegun, Sounded, OneOf, Letters;
    TornSounds();
    PendingSnoc([], '/' as int);
    NoLetters();
    assert [] + ['/' as int] == ['/' as int];
    assert IsMethod(TORN_METHOD, 3);
    TargetBytes('/' as int);
    assert ['/' as int, '1' as int][1..] == ['1' as int] && ['.' as int, '1' as int][1..] == ['1' as int];
    assert ['1' as int][..0] == [] && ['/' as int][..0] == [] && [SP][1..] == [];
    assert Number(['1' as int]) == 1;
  }

  /** An instance of a line that RFC 2616 has no method for: it is read as a POST. */
  lemma TornMethodRead(hmask: set<nat>, m: nat, size: nat)
    requires size >= 3
    ensures var v := Run(Init(hmask, m, NO_REQUEST, size), Flat(TORN_LINE));
            v.More? && AtLine(v.k) && v.k.rq.method_ == 3
  {
    hide Requests.Run, Parts, Flat, MethodBegun, MethodName;
    TornParts();
    TornSounds();
    LineRead(hmask, m, size, TORN_LINE);
    MethodNamesApart(Run(Init(hmask, m, NO_REQUEST, size), Flat(TORN_LINE)).k.rq.method_, 3);
  }

  // ---------------------------------------------------------------- the fields

  /** The state that takes byte `c`: a value starts, or goes on, at its first byte that is no blank. */
  function Taking(k: Parser, c: Char): State {
    match k.st
    case ValueLead => if IsBlank(c) then ValueLead else k.est
    case Cont => if !k.collect then SkipLine else if IsBlank(c) then ValueLead else k.est
    case _ => k.st
  }

  /** Byte `c` ends the name of a field that is collected. */
  predicate Collects(k: Parser, c: Char) {
    && k.st == Header && Look(HEADERS, k.ts, Lower(c), Lower(c) == COLON).Walked?
    && var r := Look(HEADERS, k.ts, Lower(c), Lower(c) == COLON).r;
       r > 0 && r in k.hmask && HeaderName(r) !in {"Connection", "Content-Length", "Expect", "Transfer-Encoding"}
  }

  /** The status of a refusal in the fields. */
  function FieldOffence(k: Parser, c: Char): Option<nat> {
    match Taking(k, c)
    case Cr => if c != LF then Some(400) else None
    case HeadContentLength => if !IsDigit(c) && c != CR && c != LF then Some(400) else None
    case Value => if k.text.size < |k.text.chars| + 4 * |k.text.ints| + 1 then Some(413) else None
    case _ => if Collects(k, c) && k.text.size <= |k.text.chars| + 4 * |k.text.ints| + 8 then Some(413) else None
  }

  ghost predicate FieldFollows(k: Parser, c: Char, v: Verdict) {
    match FieldOffence(k, c)
    case Some(status) => v.Fail? && v.status == status
    case None => v.OutOfBounds? || v.Done? || (v.More? && IsHeadState(v.k.st))
  }

  lemma EndFollows(k: Parser, c: Char)
    requires Ready(k) && k.st in {Cr, SkipLine}
    ensures FieldFollows(k, c, Step(k, c))
  {
    hide Requests.Step, Ready, DispatchLine;
    if Dispatch(k, c).Next? {
      StepNext(k, c);
    } else {
      BadRequest(k, c);
    }
  }

  lemma LengthFollows(k: Parser, c: Char)
    requires Ready(k) && k.st == HeadContentLength
    ensures FieldFollows(k, c, Step(k, c))
  {
    hide Requests.Step, Ready, DispatchLine, Decimal;
    if Dispatch(k, c).Next? {
      StepNext(k, c);
    } else if c == LF {
      StepAgain(k, c);
      EndFollows(Dispatch(k, c).k, c);
    } else {
      BadRequest(k, c);
    }
  }

  lemma ValueFollows(k: Parser, c: Char)
    requires Ready(k) && k.st == Value
    ensures FieldFollows(k, c, Step(k, c))
  {
    hide Requests.Step, Ready, DispatchLine;
    if Dispatch(k, c).Next? {
      StepNext(k, c);
    } else {
      StepExit(k, c);
    }
  }

  lemma HeaderFollows(k: Parser, c: Char)
    requires Ready(k) && k.st == Header
    ensures FieldFollows(k, c, Step(k, c))
  {
    hide Requests.Step, Ready, DispatchLine, Look, HeaderName;
    HeaderCodeBound(k.ts, Lower(c));
    var w := Look(HEADERS, k.ts, Lower(c), Lower(c) == COLON);
    if w.Walked? && w.r > 0 {
      InterpretedNames(w.r);
    }
    match OnHeader(k, c)
    case Crash => StepCrash(k, c);
    case Next(_) =>
      StepNext(k, c);
    case Exit(_, _) =>
      StepExit(k, c);
    case Again(k', c') =>
      StepAgain(k, c);
      EndFollows(k', c');
  }

  lemma NoOffence(k: Parser, c: Char)
    requires k.st in {SkipLine, HeadFlag} || IsFlagState(k.st)
    ensures FieldOffence(k, c) == None
  {
  }

  lemma FlagFollows(k: Parser, c: Char)
    requires Ready(k) && (k.st == HeadFlag || IsFlagState(k.st))
    ensures FieldFollows(k, c, Step(k, c))
    decreases k.st != HeadFlag
  {
    hide Requests.Step, Ready, DispatchLine, Look, Bits, FieldOffence;
    NoOffence(k, c);
    match Dispatch(k, c)
    case Crash => StepCrash(k, c);
    case Next(_) => StepNext(k, c);
    case Again(k', c') =>
      StepAgain(k, c);
      NoOffence(k', c');
      if k'.st == HeadFlag {
        FlagFollows(k', c');
      } else {
        EndFollows(k', c');
      }
  }

  /** The states that a value starts in. */
  lemma EstFollows(k: Parser, c: Char)
    requires Ready(k) && IsValueState(k.st)
    ensures FieldFollows(k, c, Step(k, c))
  {
    hide Requests.Step, Ready, FieldFollows;
    match k.st
    case Value => ValueFollows(k, c);
    case SkipLine => EndFollows(k, c);
    case HeadContentLength => LengthFollows(k, c);
    case _ => FlagFollows(k, c);
  }

  lemma LeadFieldFollows(k: Parser, c: Char)
    requires Ready(k) && k.st == ValueLead
    ensures FieldFollows(k, c, Step(k, c))
  {
    hide Requests.Step, DispatchLine, Look, InTree;
    if IsBlank(c) {
      StepNext(k, c);
    } else {
      StepAgain(k, c);
      EstFollows(Dispatch(k, c).k, c);
    }
  }

  /** A continuation line is refused as the value that goes on in it, or the rest of the line, would be. */
  lemma SameOffence(k: Parser, c: Char)
    requires Ready(k) && k.st == Cont
    ensures Dispatch(k, c).Again? && FieldOffence(Dispatch(k, c).k, c) == FieldOffence(k, c)
  {
    hide DispatchLine, InTree, Look;
  }

  lemma ContFollows(k: Parser, c: Char)
    requires Ready(k) && k.st == Cont
    ensures FieldFollows(k, c, Step(k, c))
  {
    hide Requests.Step, DispatchLine, InTree, FieldOffence;
    StepAgain(k, c);
    var k' := Dispatch(k, c).k;
    SameOffence(k, c);
    if k.collect {
      LeadFieldFollows(k', c);
    } else {
      EndFollows(k', c);
    }
  }

  lemma NlFollows(k: Parser, c: Char)
    requires Ready(k) && k.st == Nl
    ensures FieldFollows(k, c, Step(k, c))
  {
    hide Requests.Step, DispatchLine, Look, InTree;
    if Dispatch(k, c).Next? {
      StepNext(k, c);
    } else {
      StepAgain(k, c);
      var k' := Dispatch(k, c).k;
      HeaderFollows(k', c);
      NothingNamed(c);
    }
  }

  /** The first byte of a line is no name. */
  lemma NothingNamed(c: Char)
    ensures Look(HEADERS, START, Lower(c), Lower(c) == COLON).Walked? ==>
              Look(HEADERS, START, Lower(c), Lower(c) == COLON).r <= 0
  {
  }

  /** In the fields, a byte is refused exactly when, and with the status that, the line above says; and the fields do
      not lead back into the request line. */
  lemma FieldRefusedIff(k: Parser, c: Char)
    requires Suspendable(k) && IsHeadState(k.st)
    ensures FieldFollows(k, c, Step(k, c))
  {
    hide Requests.Step, Ready, FieldFollows;
    match k.st
    case Nl => NlFollows(k, c);
    case Header => HeaderFollows(k, c);
    case ValueLead => LeadFieldFollows(k, c);
    case Cont => ContFollows(k, c);
    case Value => ValueFollows(k, c);
    case HeadContentLength => LengthFollows(k, c);
    case HeadFlag => FlagFollows(k, c);
    case _ => EndFollows(k, c);
  }

  /** The byte behind the first `n` is refused by a field. */
  ghost predicate RefusedByField(k: Parser, cs: seq<Char>, n: nat, status: nat)
    requires Suspendable(k)
  {
    && n < |cs| && Run(k, cs[..n]).More? && IsHeadState(Run(k, cs[..n]).k.st)
    && FieldOffence(Run(k, cs[..n]).k, cs[n]) == Some(status)
  }

  lemma {:induction false} FieldsRun(k: Parser, cs: seq<Char>) returns (n: nat)
    requires Suspendable(k) && IsHeadState(k.st)
    ensures Run(k, cs).Fail? ==> RefusedByField(k, cs, n, Run(k, cs).status)
    ensures Run(k, cs).More? ==> IsHeadState(Run(k, cs).k.st)
    decreases |cs|
  {
    hide Requests.Step, Ready, FieldOffence;
    n := 0;
    if cs != [] {
      FieldRefusedIff(k, cs[0]);
      assert cs[..0] == [];
      if Step(k, cs[0]).More? {
        n := FieldsRun(Step(k, cs[0]).k, cs[1..]);
        if Run(k, cs).Fail? {
          assert cs[..n + 1] == [cs[0]] + cs[1..][..n];
          Cons(k, cs[0], cs[1..][..n]);
          n := n + 1;
        }
      }
    }
  }

  /** A byte that a field refuses is the last one of the run. */
  lemma FieldRefuses(k: Parser, cs: seq<Char>, n: nat, status: nat)
    requires Suspendable(k) && RefusedByField(k, cs, n, status)
    ensures Run(k, cs).Fail? && Run(k, cs).status == status
  {
    hide Requests.Step, Requests.Run, Ready, FieldOffence;
    assert cs == cs[..n] + ([cs[n]] + cs[n + 1..]);
    var k1 := Run(k, cs[..n]).k;
    RunConcat(k, cs[..n], [cs[n]] + cs[n + 1..]);
    Cons(k1, cs[n], cs[n + 1..]);
    FieldRefusedIff(k1, cs[n]);
  }

  /** Every head is refused by its request line or behind it, with the status given for that, or not at all. */
  lemma HeadRefusedIff(hmask: set<nat>, m: nat, size: nat, cs: seq<Char>, status: nat)
    requires size > 0
    ensures var k := Init(hmask, m, NO_REQUEST, size);
            Run(k, cs).Fail? && Run(k, cs).status == status <==>
              LineRefuses(cs, size, status)
              || exists n :: 0 <= n <= |cs| && HasLine(cs[..n], size) && RefusedByField(k, cs, n, status)
  {
    hide Requests.Run, Requests.Step, Init, Parts, Offence, Complete, AtPlace;
    var k := Init(hmask, m, NO_REQUEST, size);
    StartPlace(hmask, m, size);
    LineRefusedIff(hmask, m, size, cs, status);
    if n :| 0 <= n <= |cs| && HasLine(cs[..n], size) && RefusedByField(k, cs, n, status) {
      FieldRefuses(k, cs, n, status);
    }
    if Run(k, cs).Fail? && Run(k, cs).status == status && !LineRefuses(cs, size, status) {
      var n := RefusedBehindLine(hmask, m, size, cs);
    }
  }

  lemma RefusedBehindLine(hmask: set<nat>, m: nat, size: nat, cs: seq<Char>) returns (n: nat)
    requires size > 0 && HasLine(cs, size) && Run(Init(hmask, m, NO_REQUEST, size), cs).Fail?
    ensures n < |cs| && HasLine(cs[..n], size)
    ensures var k := Init(hmask, m, NO_REQUEST, size); RefusedByField(k, cs, n, Run(k, cs).status)
  {
    hide Requests.Run, Requests.Step, Init, Parts, FieldOffence, Complete, Stored, Flat;
    StartPlace(hmask, m, size);
    var k := Init(hmask, m, NO_REQUEST, size);
    var ps :| Complete(ps) && Stored(ps) <= size && Flat(ps) <= cs;
    CompleteParts(ps);
    var f := Flat(ps);
    var rest := cs[|f|..];
    assert cs == f + rest;
    LineRead(hmask, m, size, ps);
    RunConcat(k, f, rest);
    InHead(Run(k, f).k, ps, size);
    var i := FieldsRun(Run(k, f).k, rest);
    n := |f| + i;
    assert cs[..n] == f + rest[..i] && cs[n] == rest[i];
    RunConcat(k, f, rest[..i]);
    LineAtStart(ps, rest[..i], size);
  }

  lemma InHead(k: Parser, ps: seq<seq<Char>>, size: nat)
    requires AtPlace(k, ps, size) && Complete(ps)
    ensures IsHeadState(k.st)
  {
    hide Parts, Whole, Stored, IsMethod, Speaks;
  }

  /** No head is refused with another status than these four, and none is answered as unimplemented or as a failure of
      the server: 414 and 505 come from the request line only, 413 from the fields only. */
  lemma OnlyFourStatuses(hmask: set<nat>, m: nat, size: nat, cs: seq<Char>)
    requires size > 0 && Run(Init(hmask, m, NO_REQUEST, size), cs).Fail?
    ensures var status := Run(Init(hmask, m, NO_REQUEST, size), cs).status;
            && status in {400, 413, 414, 505}
            && (HasLine(cs, size) ==> status in {400, 413}) && (!HasLine(cs, size) ==> status in {400, 414, 505})
  {
    hide Requests.Run, Requests.Step, Init, Parts, Complete, HasLine;
    StartPlace(hmask, m, size);
    var status := Run(Init(hmask, m, NO_REQUEST, size), cs).status;
    if HasLine(cs, size) {
      var n := RefusedBehindLine(hmask, m, size, cs);
    } else {
      LineRefusedIff(hmask, m, size, cs, status);
    }
  }

  /** A length is refused at the first byte behind its digits that ends no line: a blank, too. */
  lemma LengthRefused(k: Parser, name: seq<Char>, lead: seq<Char>, digits: seq<Char>, c: Char)
    requires AtLine(k) && SameName(name, "Content-Length") && Blanks(lead) && Digits(digits)
    requires !IsDigit(c) && c != CR && c != LF && (digits == [] ==> !IsBlank(c))
    ensures var v := Run(k, (name + ([COLON] + lead)) + (digits + [c])); v.Fail? && v.status == 400
  {
    hide Requests.Step, Requests.Run, Ready, Number, Decimal, SameName, Digits;
    var start, value := name + ([COLON] + lead), digits + [c];
    FlagNamed(CLOSE);
    InterpretedRead(k, name, RQ_CONTENT_LENGTH, lead);
    RunConcat(k, start, value);
    LengthValueRefused(Run(k, start).k, k, digits, c);
  }

  lemma LengthValueRefused(k: Parser, k0: Parser, digits: seq<Char>, c: Char)
    requires AtInterpreted(More(k), k0, RQ_CONTENT_LENGTH) && Digits(digits)
    requires !IsDigit(c) && c != CR && c != LF && (digits == [] ==> !IsBlank(c))
    ensures var v := Run(k, digits + [c]); v.Fail? && v.status == 400
  {
    hide Requests.Step, Requests.Run, Ready, Number, Decimal;
    var value := digits + [c];
    assert value[0] == if digits == [] then c else digits[0];
    var k1 := k.(b := k.m, st := HeadContentLength);
    LengthStarts(k, value[0]);
    SameStart(k, k1, value);
    DigitsRead(k1, digits);
    Snoc(k1, digits, c);
    FieldRefusedIff(Run(k1, digits).k, c);
  }
}
