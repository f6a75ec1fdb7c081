/** How many bytes of a head the parser holds on to, and so how large a ring has to be to take a head of any length. */
module Lookbehind {
  import opened Chars
  import opened TextInts
  import opened Patricia
  import opened Keywords
  import opened Requests
  import opened Heads

  // ---------------------------------------------------------------- runs of bytes

  /** Bytes that may come in any number without the parser letting go: blanks, line ends and digits; and the two
      terminators of a field name, which an inner node of the trie swallows. */
  datatype Kind = Idle | Stop

  predicate Of(kind: Kind, c: int) {
    match kind
    case Idle => c == NUL || IsBlank(c) || c == LF || c == CR || IsDigit(c)
    case Stop => c == NUL || c == COLON
  }

  function Grown(kind: Kind, n: nat, c: int): nat { if Of(kind, c) then n + 1 else 0 }

  /** The longest such run in `cs`, a run of `n` before it included. */
  function Longest(kind: Kind, n: nat, cs: seq<Char>): (l: nat)
    ensures n <= l
    decreases |cs|
  {
    if cs == [] then n else
      var l := Longest(kind, Grown(kind, n, cs[0]), cs[1..]);
      if l < n then n else l
  }

  ghost predicate IsRun(kind: Kind, cs: seq<Char>, i: nat, j: nat) {
    i <= j <= |cs| && forall x :: i <= x < j ==> Of(kind, cs[x])
  }

  /** No run is longer, also one that starts with the `n` bytes before. */
  lemma {:induction false} LongestCovers(kind: Kind, n: nat, cs: seq<Char>, i: nat, j: nat)
    requires IsRun(kind, cs, i, j)
    ensures j - i <= Longest(kind, n, cs) && (i == 0 ==> n + j <= Longest(kind, n, cs))
    decreases |cs|
  {
    if j > 0 {
      var n' := Grown(kind, n, cs[0]);
      LongestCovers(kind, n', cs[1..], if i == 0 then 0 else i - 1, j - 1);
    }
  }

  lemma {:induction false} LongestFound(kind: Kind, n: nat, cs: seq<Char>) returns (i: nat, j: nat)
    ensures IsRun(kind, cs, i, j) && Longest(kind, n, cs) == if i == 0 then n + j else j - i
    decreases |cs|
  {
    i, j := 0, 0;
    if cs != [] && Longest(kind, n, cs) > n {
      i, j := LongestFound(kind, Grown(kind, n, cs[0]), cs[1..]);
      i, j := if i == 0 && Of(kind, cs[0]) then 0 else i + 1, j + 1;
    }
  }

  /** `Longest` is the length of the longest run. */
  lemma LongestIff(kind: Kind, cs: seq<Char>, l: nat)
    ensures Longest(kind, 0, cs) <= l <==> forall i: nat, j: nat :: IsRun(kind, cs, i, j) ==> j - i <= l
  {
    forall i: nat, j: nat | IsRun(kind, cs, i, j)
      ensures j - i <= Longest(kind, 0, cs)
    {
      LongestCovers(kind, 0, cs, i, j);
    }
    var i, j := LongestFound(kind, 0, cs);
    assert IsRun(kind, cs, i, j);
  }

  // ---------------------------------------------------------------- places in the tables

  /** How many rows lead to the rows with this check number. */
  function Level(check: nat): nat {
    match check
    case 1 => 1
    case 8 => 1
    case 26 => 1
    case 35 => 1
    case 38 => 1
    case 41 => 1
    case 46 => 1
    case 2 => 2
    case 10 => 2
    case 27 => 2
    case 43 => 2
    case 3 => 3
    case 11 => 3
    case 13 => 4
    case 15 => 5
    case _ => 0
  }

  const LONGEST_NAME := 19

  lemma RowLevel(i: nat)
    requires i < 59 && HeaderRow(i).Node?
    ensures HeaderRow(i).next != 99 ==> Level(HeaderRow(i).next) == Level(HeaderRow(i).check) + 1
  {
  }

  lemma RowLength(i: nat)
    requires i < 59 && HeaderRow(i).Node?
    ensures Level(HeaderRow(i).check) <= 5 && |HeaderText(i)| <= LONGEST_NAME
  {
    hide HeaderRow;
  }

  /** The part of a field name that has been matched. */
  function Matched(ts: TrieState): int {
    if ts.poff > 0 && ts.slot < 59 && HeaderRow(ts.slot).Node? then
      |HeaderText(ts.slot)| - |HeaderRow(ts.slot).prefix| + ts.poff
    else 0
  }

  function RowsBefore(ts: TrieState): nat {
    if ts.poff > 0 && ts.slot < 59 && HeaderRow(ts.slot).Node? then Level(HeaderRow(ts.slot).check) else 0
  }

  predicate AtRowEnd(ts: TrieState) {
    ts.poff > 0 && ts.slot < 59 && HeaderRow(ts.slot).Node? && ts.poff == |HeaderRow(ts.slot).prefix|
  }

  /** Another character of a field name: the match grows, perhaps into a new row; or a terminator changes nothing at the
      end of an inner row. */
  lemma HeaderMoves(ts: TrieState, c: int)
    requires ts.poff > 0 ==> InTree(HEADERS, ts)
    requires Look(HEADERS, ts, c, c == COLON).Walked? && Look(HEADERS, ts, c, c == COLON).r == 0
    ensures var ts' := Look(HEADERS, ts, c, c == COLON).ts;
            if ts' == ts && AtRowEnd(ts) && Of(Stop, c) then true
            else Matched(ts') == Matched(ts) + 1 <= LONGEST_NAME
                 && RowsBefore(ts') == RowsBefore(ts) + (if AtRowEnd(ts) then 1 else 0) <= 5
  {
    hide HeaderText, HeaderRow, HeaderOwner, Level, IndexOf;
    var w := Look(HEADERS, ts, c, c == COLON);
    if w.ts == ts {
      RowOk(ts.slot);
      RowLevel(ts.slot);
      RowLength(ts.slot);
      RowLinks(ts.slot);
    } else {
      RowContinues(w.ts.slot);
      if ts.poff > 0 {
        RowLinks(ts.slot);
        RowOk(ts.slot);
        RowLevel(ts.slot);
        RowLength(ts.slot);
        RowContinues(ts.slot);
        if w.ts != ts.(poff := ts.poff + 1) {
          assert w.ts.poff == 1 && HeaderRow(w.ts.slot).check == HeaderRow(ts.slot).next;
          assert ts.poff == |HeaderRow(ts.slot).prefix|;
        }
      }
    }
  }

  lemma RowContinues(x: nat)
    requires x < 59 && HeaderRow(x).Node?
    ensures HeaderRow(x).check != 99 && Level(0) == 0 && Level(HeaderRow(x).check) <= 5
            && |HeaderText(x)| <= LONGEST_NAME
    ensures |HeaderText(x)| == (if HeaderRow(x).check == 0 then 0 else |HeaderText(HeaderOwner(HeaderRow(x).check))|)
            + |HeaderRow(x).prefix|
  {
    hide HeaderText, HeaderRow, HeaderOwner;
    RowsSpelled(x);
    RowLevel(x);
    RowLength(x);
    RowLinks(x);
  }

  predicate AtUtilityEnd(ts: TrieState) {
    ts.poff > 0 && ts.slot < 30 && UtilityRow(ts.slot).Node? && ts.poff == |UtilityRow(ts.slot).prefix|
  }

  /** The same for a flag value, which never leaves its row. */
  lemma FlagMoves(t: Trie, ts: TrieState, c: int)
    requires t.tree == UTILITY && t.alphabet == UtilityAlphabet && !IsUpper(c) && ts.poff > 0 && InTree(METHODS, ts)
    requires var w := Look(t, ts, c, c == CR || c == LF); w.Walked? && w.r == 0
    ensures var ts' := Look(t, ts, c, c == CR || c == LF).ts;
            if ts' == ts && AtUtilityEnd(ts) && Of(Idle, c) then true
            else ts' == ts.(poff := ts.poff + 1) && !AtUtilityEnd(ts) && InTree(METHODS, ts')
  {
    hide UtilityRow, IndexOf;
    UtilityRows(ts.slot);
    UtilityPlaced(ts.slot);
    UtilityBelow(ts.slot);
    var w := Look(t, ts, c, c == CR || c == LF);
    assert ts.poff < |UtilityRow(ts.slot).prefix| ==> UtilityRow(ts.slot).prefix[ts.poff] != '\0';
    if w.ts != ts && w.ts != ts.(poff := ts.poff + 1) {
      UtilityRows(w.ts.slot);
      UtilityPlaced(w.ts.slot);
      assert UtilityRow(w.ts.slot).check == UtilityRow(ts.slot).next;
      UtilityBelow(w.ts.slot);
    }
  }

  lemma UtilityBelow(x: nat)
    requires x < 30 && UtilityRow(x).Node? && UtilityRow(x).prefix != ""
    ensures UtilityRow(x).check != UtilityRow(x).next
            && (UtilityRow(x).check == 1 ==> IsUpper(UtilityRow(x).prefix[0] as int))
  {
  }

  lemma UtilityShort(x: nat)
    requires x < 30 && UtilityRow(x).Node?
    ensures |UtilityRow(x).prefix| <= 12
  {
  }

  // ---------------------------------------------------------------- the bound, state by state

  /** What the parser ever holds, when no run of idle bytes is longer than `idle` and no run of terminators longer than
      `stop`. */
  function Limit(idle: nat, stop: nat): nat { 20 + 2 * idle + 6 * stop }

  /** What it holds in this state, with `r` idle bytes and `s` terminators just behind it. */
  function Bound(k: Parser, idle: nat, stop: nat, r: nat, s: nat): int {
    match k.st
    case Initial => r
    case MethodSp => r
    case PathSp => r
    case Method => 1 + idle
    case Prot => 1 + idle
    case ProtHttpX => 1 + idle
    case Path => 3
    case Query => 3
    case Escaped1 => 1
    case Escaped2 => 2
    case ProtSlash => 1 + r
    case ProtHttpXDot => 2 + idle + r
    case ProtHttpXX => 2 + idle + r
    case Cr => 2 + idle + r
    case Nl => 2 + idle + r
    case Header => NameBound(k.ts, stop, s)
    case ValueLead => 20 + 6 * stop + r
    case HeadFlag => FlagBound(k.ts, r)
    case HeadContentLength => r
    case HeadConnection => 0
    case HeadExpect => 0
    case HeadTransferEncoding => 0
    case Cont => 1
    case _ => Limit(idle, stop)
  }

  predicate Holds(k: Parser, idle: nat, stop: nat, r: nat, s: nat) {
    k.m - k.b <= Bound(k, idle, stop, r, s) && r <= idle && s <= stop
  }

  /** What a pass through the switch keeps, on byte `c`. */
  ghost predicate KeepsHold(j: Jump, c: Char, idle: nat, stop: nat, r: nat, s: nat) {
    match j
    case Again(k', c') => Holds(k', idle, stop, r, s) && Of(Idle, c') == Of(Idle, c) && Of(Stop, c') == Of(Stop, c)
    case Next(k') =>
      Grown(Idle, r, c) <= idle && Grown(Stop, s, c) <= stop && k'.nl <= 1 ==>
        Holds(k'.(m := k'.m + 1), idle, stop, Grown(Idle, r, c), Grown(Stop, s, c))
    case _ => true
  }

  /** A method is reported at its space, or at a NUL. */
  lemma TerminatorReports(ts: TrieState, c: int)
    ensures var w := Look(METHODS, ts, c, c == SP); w.Walked? && w.r > 0 ==> c == SP || c == NUL
  {
    hide InTree, UtilityRow;
  }

  lemma MethodHolds(k: Parser, c: Char, idle: nat, stop: nat, r: nat, s: nat)
    requires Ready(k) && k.st == Method && Holds(k, idle, stop, r, s)
    ensures KeepsHold(OnMethod(k, c), c, idle, stop, r, s)
  {
    hide Look, InTree, NameBound, FlagBound;
    TerminatorReports(k.ts, c);
  }

  lemma ProtHolds(k: Parser, c: Char, idle: nat, stop: nat, r: nat, s: nat)
    requires Ready(k) && k.st == Prot && Holds(k, idle, stop, r, s)
    ensures KeepsHold(OnProt(k, c), c, idle, stop, r, s)
  {
    hide Look, InTree, NameBound, FlagBound;
  }

  lemma TargetHolds(k: Parser, c: Char, idle: nat, stop: nat, r: nat, s: nat)
    requires Ready(k) && k.st in {Path, Query, Escaped1, Escaped2} && Holds(k, idle, stop, r, s)
    ensures KeepsHold(DispatchLine(k, c), c, idle, stop, r, s)
  {
    hide InTree, NameBound, FlagBound, InPath, UriUric, Unescape, UriHexConv;
  }

  lemma LineHolds(k: Parser, c: Char, idle: nat, stop: nat, r: nat, s: nat)
    requires Ready(k) && !IsHeadState(k.st) && k.st !in {Method, Prot, Path, Query, Escaped1, Escaped2}
    requires Holds(k, idle, stop, r, s)
    ensures KeepsHold(DispatchLine(k, c), c, idle, stop, r, s)
  {
    hide OnMethod, OnProt, OnPath, OnQuery, OnEscaped2, InTree, NameBound, FlagBound, UriHexConv;
  }

  /** The bound for a name. */
  function NameBound(ts: TrieState, stop: nat, s: nat): int {
    Matched(ts) + RowsBefore(ts) * stop + if AtRowEnd(ts) then s else 0
  }

  lemma HeaderHolds(k: Parser, c: Char, idle: nat, stop: nat, r: nat, s: nat)
    requires Ready(k) && k.st == Header && Holds(k, idle, stop, r, s)
    ensures KeepsHold(OnHeader(k, c), c, idle, stop, r, s)
  {
    hide Look, NameBound, Suspendable, InTree, OnName, FlagBound;
    NameRoom(k.ts, stop, s);
    var w := Look(HEADERS, k.ts, Lower(c), Lower(c) == COLON);
    if w.Walked? && w.r == 0 {
      NameGrows(k.ts, Lower(c), stop, s);
    } else if w.Walked? && w.r > 0 {
      NamedKeepsPlace(k.(ts := START), w.r);
    }
  }

  lemma NamedKeepsPlace(k: Parser, r: nat)
    ensures var j := OnName(k, r); j.Next? ==> j.k.m == k.m && j.k.b == k.b
  {
  }

  /** However much of a name has been matched. */
  lemma NameRoom(ts: TrieState, stop: nat, s: nat)
    requires s <= stop && (ts.poff > 0 ==> InTree(HEADERS, ts))
    ensures NameBound(ts, stop, s) <= 19 + 6 * stop
  {
    hide HeaderText, HeaderRow, HeaderOwner, Level;
    if ts.poff > 0 {
      RowContinues(ts.slot);
      Times(RowsBefore(ts), 5, stop);
    }
  }

  lemma NameGrows(ts: TrieState, c: int, stop: nat, s: nat)
    requires s <= stop && (ts.poff > 0 ==> InTree(HEADERS, ts))
    requires Look(HEADERS, ts, c, c == COLON).Walked? && Look(HEADERS, ts, c, c == COLON).r == 0
    ensures NameBound(ts, stop, s) + 1 <= NameBound(Look(HEADERS, ts, c, c == COLON).ts, stop, Grown(Stop, s, c))
  {
    hide Look, Matched, RowsBefore, AtRowEnd, InTree;
    HeaderMoves(ts, c);
    var ts' := Look(HEADERS, ts, c, c == COLON).ts;
    Distribute(RowsBefore(ts), RowsBefore(ts') - RowsBefore(ts), stop);
  }

  lemma Distribute(a: nat, d: int, c: nat)
    requires a + d >= 0
    ensures (a + d) * c == a * c + d * c
  {
  }

  lemma Times(a: nat, b: nat, c: nat)
    requires a <= b
    ensures a * c <= b * c
  {
  }

  lemma FlagHolds(k: Parser, c: Char, idle: nat, stop: nat, r: nat, s: nat)
    requires Ready(k) && k.st == HeadFlag && Holds(k, idle, stop, r, s)
    ensures KeepsHold(OnFlag(k, c), c, idle, stop, r, s)
  {
    hide Look, UtilityRow, AtUtilityEnd, Suspendable, Requests.Ready;
    var t := FlagTrie(k);
    var w := Look(t, k.ts, Lower(c), Lower(c) == CR || Lower(c) == LF);
    FlagStray(t, k.ts, Lower(c));
    if w.Walked? {
      FlagRoom(k.ts, idle, r);
      if w.r == 0 {
        FlagGrows(t, k.ts, Lower(c), r);
      }
    }
  }

  /** A stray place is a fault. */
  lemma FlagStray(t: Trie, ts: TrieState, c: int)
    requires t.tree == UTILITY
    ensures Look(t, ts, c, c == CR || c == LF).Walked? && ts.poff > 0 ==> InTree(METHODS, ts)
  {
    hide UtilityRow;
  }

  function FlagBound(ts: TrieState, r: nat): int { ts.poff + if AtUtilityEnd(ts) then r else 0 }

  lemma FlagRoom(ts: TrieState, idle: nat, r: nat)
    requires r <= idle && (ts.poff > 0 ==> InTree(METHODS, ts))
    ensures FlagBound(ts, r) <= 12 + idle
  {
    hide UtilityRow;
    if ts.poff > 0 {
      UtilityShort(ts.slot);
    }
  }

  lemma FlagGrows(t: Trie, ts: TrieState, c: int, r: nat)
    requires t.tree == UTILITY && t.alphabet == UtilityAlphabet && !IsUpper(c) && (ts.poff > 0 ==> InTree(METHODS, ts))
    requires var w := Look(t, ts, c, c == CR || c == LF); w.Walked? && w.r == 0
    ensures FlagBound(ts, r) + 1 <= FlagBound(Look(t, ts, c, c == CR || c == LF).ts, Grown(Idle, r, c))
  {
    hide Look, AtUtilityEnd;
    if ts.poff > 0 {
      FlagMoves(t, ts, c);
    } else {
      FlagStarts(t, ts, c);
    }
  }

  lemma FlagStarts(t: Trie, ts: TrieState, c: int)
    requires ts.poff == 0 && Look(t, ts, c, c == CR || c == LF).Walked? && Look(t, ts, c, c == CR || c == LF).r == 0
    ensures Look(t, ts, c, c == CR || c == LF).ts.poff == 1 && !AtUtilityEnd(ts)
  {
  }

  lemma EndHolds(k: Parser, c: Char, idle: nat, stop: nat, r: nat, s: nat)
    requires Ready(k) && k.st in {Cr, Nl, SkipLine} && Holds(k, idle, stop, r, s)
    ensures KeepsHold(DispatchHead(k, c), c, idle, stop, r, s)
  {
    hide OnHeader, OnFlag, OnValue, OnContentLength, InTree, FlagBound;
  }

  lemma ValueHolds(k: Parser, c: Char, idle: nat, stop: nat, r: nat, s: nat)
    requires Ready(k) && k.st in {Value, HeadContentLength} && Holds(k, idle, stop, r, s)
    ensures KeepsHold(DispatchHead(k, c), c, idle, stop, r, s)
  {
    hide OnHeader, OnFlag, OnNl, InTree, NameBound, FlagBound;
  }

  lemma LeadHolds(k: Parser, c: Char, idle: nat, stop: nat, r: nat, s: nat)
    requires Ready(k) && IsHeadState(k.st) && k.st !in {Header, HeadFlag, Cr, Nl, SkipLine, Value, HeadContentLength}
    requires Holds(k, idle, stop, r, s)
    ensures KeepsHold(DispatchHead(k, c), c, idle, stop, r, s)
  {
    hide OnHeader, OnFlag, OnNl, OnValue, OnContentLength, InTree, NameBound;
  }

  lemma DispatchHolds(k: Parser, c: Char, idle: nat, stop: nat, r: nat, s: nat)
    requires Ready(k) && Holds(k, idle, stop, r, s)
    ensures KeepsHold(Dispatch(k, c), c, idle, stop, r, s)
  {
    hide DispatchHead, DispatchLine, OnMethod, OnProt, OnHeader, OnFlag, Holds, KeepsHold;
    match k.st
    case Method => MethodHolds(k, c, idle, stop, r, s); LineArms(k, c);
    case Prot => ProtHolds(k, c, idle, stop, r, s); LineArms(k, c);
    case Header => HeaderHolds(k, c, idle, stop, r, s); HeadArms(k, c);
    case HeadFlag => FlagHolds(k, c, idle, stop, r, s); HeadArms(k, c);
    case _ =>
      if IsHeadState(k.st) {
        if k.st in {Cr, Nl, SkipLine} { EndHolds(k, c, idle, stop, r, s); }
        else if k.st in {Value, HeadContentLength} { ValueHolds(k, c, idle, stop, r, s); }
        else { LeadHolds(k, c, idle, stop, r, s); }
      } else if k.st in {Path, Query, Escaped1, Escaped2} {
        TargetHolds(k, c, idle, stop, r, s);
      } else {
        LineHolds(k, c, idle, stop, r, s);
      }
  }

  lemma LineArms(k: Parser, c: Char)
    ensures k.st == Method ==> Dispatch(k, c) == OnMethod(k, c)
    ensures k.st == Prot ==> Dispatch(k, c) == OnProt(k, c)
  {
    hide OnMethod, OnProt;
  }

  lemma HeadArms(k: Parser, c: Char)
    ensures k.st == Header ==> Dispatch(k, c) == OnHeader(k, c)
    ensures k.st == HeadFlag ==> Dispatch(k, c) == OnFlag(k, c)
  {
    hide OnHeader, OnFlag;
  }

  /** What a byte keeps. */
  lemma {:induction false} StepHolds(k: Parser, c: Char, idle: nat, stop: nat, r: nat, s: nat)
    requires Ready(k) && Holds(k, idle, stop, r, s) && Grown(Idle, r, c) <= idle && Grown(Stop, s, c) <= stop
    ensures Step(k, c).More? ==> Holds(Step(k, c).k, idle, stop, Grown(Idle, r, c), Grown(Stop, s, c))
    decreases Rank(k.st)
  {
    hide Dispatch, Holds, Of;
    DispatchKeeps(k, c);
    DispatchHolds(k, c, idle, stop, r, s);
    match Dispatch(k, c)
    case Again(k', c') => StepHolds(k', c', idle, stop, r, s);
    case _ =>
  }

  lemma HoldsLittle(k: Parser, idle: nat, stop: nat, r: nat, s: nat)
    requires Suspendable(k) && Holds(k, idle, stop, r, s)
    ensures k.m - k.b <= Limit(idle, stop)
  {
    hide Matched, RowsBefore, AtRowEnd, AtUtilityEnd, NameBound, FlagBound;
    if k.st == Header {
      NameRoom(k.ts, stop, s);
    } else if k.st == HeadFlag {
      FlagRoom(k.ts, idle, r);
    }
  }

  lemma {:induction false} LimitHolds(k: Parser, cs: seq<Char>, cap: nat, idle: nat, stop: nat, r: nat, s: nat)
    requires Suspendable(k) && Holds(k, idle, stop, r, s) && Limit(idle, stop) < cap
    requires Longest(Idle, r, cs) <= idle && Longest(Stop, s, cs) <= stop
    ensures !ReadHead(k, cs, cap).TooLong?
    decreases |cs|
  {
    hide Requests.Step, Ready, Holds, Limit;
    HoldsLittle(k, idle, stop, r, s);
    if cs != [] {
      StepHolds(k, cs[0], idle, stop, r, s);
      if Step(k, cs[0]).More? {
        LimitHolds(Step(k, cs[0]).k, cs[1..], cap, idle, stop, Grown(Idle, r, cs[0]), Grown(Stop, s, cs[0]));
      }
    }
  }

  // ---------------------------------------------------------------- rings that take any such head

  /** The ring is larger than what the parser may hold on to, going by the runs of bytes in `cs` alone. */
  predicate Roomy(cs: seq<Char>, cap: nat) { Limit(Longest(Idle, 0, cs), Longest(Stop, 0, cs)) < cap }

  /** A ring with room for the longest runs takes a head of any length, as one call over the whole input would. */
  lemma RoomyTakesHead(hmask: set<nat>, m: nat, rq: Request, size: nat, cs: seq<Char>, cap: nat)
    requires size > 0 && Roomy(cs, cap)
    ensures var k := Requests.Init(hmask, m, rq, size);
            Suspendable(k) && ReadHead(k, cs, cap) == EndOf(Run(k, cs))
  {
    var k := Requests.Init(hmask, m, rq, size);
    InitSuspendable(hmask, m, rq, size);
    LimitHolds(k, cs, cap, Longest(Idle, 0, cs), Longest(Stop, 0, cs), 0, 0);
    HeadMatchesRun(k, cs, cap);
  }

  /** The same for trailers. */
  lemma RoomyTakesTrailers(hmask: set<nat>, m: nat, rq: Request, text: Text, cs: seq<Char>, cap: nat)
    requires text.chars != [] && text.Fits() && Roomy(cs, cap)
    ensures var k := InitTrailers(hmask, m, rq, text);
            Suspendable(k) && ReadHead(k, cs, cap) == EndOf(Run(k, cs))
  {
    var k := InitTrailers(hmask, m, rq, text);
    TrailersSuspendable(hmask, m, rq, text);
    LimitHolds(k, cs, cap, Longest(Idle, 0, cs), Longest(Stop, 0, cs), 0, 0);
    HeadMatchesRun(k, cs, cap);
  }
}
