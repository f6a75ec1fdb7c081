/** Memory safety of the request parser: exactly when a byte makes it leave its tables, and why well folded input never
    does. */
module Safety {
  import opened Chars
  import opened TextInts
  import opened Patricia
  import opened Keywords
  import opened Requests
  import opened Heads

  /** The trie place left behind by an earlier walk means nothing in the table of flag values. */
  predicate StalePlace(k: Parser) { k.ts.poff > 0 && !InTree(METHODS, k.ts) }

  /** Byte `c` takes the parser into a flag walk, or on with one. */
  predicate Enters(k: Parser, c: int) {
    match k.st
    case HeadFlag => true
    case ValueLead => !IsBlank(c) && IsFlagState(k.est)
    case Cont => k.collect && !IsBlank(c) && IsFlagState(k.est)
    case _ => IsFlagState(k.st)
  }

  /** Byte `c` takes the parser into a flag walk from a stale place. */
  predicate Stale(k: Parser, c: int) { StalePlace(k) && Enters(k, c) }

  predicate StalePasses(k: Parser, c: Char, j: Jump) {
    match j
    case Crash => k.st == HeadFlag && StalePlace(k)
    case Again(k', c') => Stale(k, c) <==> Stale(k', c')
    case _ => !Stale(k, c)
  }

  lemma LinePasses(k: Parser, c: Char)
    requires Ready(k) && !IsHeadState(k.st) && k.st !in {Method, Prot}
    ensures StalePasses(k, c, DispatchLine(k, c))
  {
    hide InTree, IsHex, InPath, UriUric, Requests.Unescape, Requests.Version;
  }

  lemma MethodPasses(k: Parser, c: Char)
    requires Ready(k) && k.st == Method
    ensures StalePasses(k, c, OnMethod(k, c))
  {
    hide Patricia.WalkTrie;
    UtilityRowsOk(0);
    WalkIsSafe(METHODS, k.ts, c, c);
  }

  lemma ProtPasses(k: Parser, c: Char)
    requires Ready(k) && k.st == Prot
    ensures StalePasses(k, c, OnProt(k, c))
  {
    hide Patricia.WalkTrie;
    UtilityRowsOk(10);
    WalkIsSafe(PROTOCOL, k.ts, c, c);
  }

  lemma HeaderWalkIsSafe(ts: TrieState, c: int)
    requires ts.poff > 0 ==> InTree(HEADERS, ts)
    ensures Look(HEADERS, ts, c, c == COLON).Walked?
  {
    HeaderRowsOk();
    WalkIsSafe(HEADERS, ts, c, c);
  }

  lemma HeaderPasses(k: Parser, c: Char)
    requires Ready(k) && k.st == Header
    ensures StalePasses(k, c, OnHeader(k, c))
  {
    hide WalkTrie, OnName;
    HeaderWalkIsSafe(k.ts, Lower(c));
  }

  lemma FlagPasses(k: Parser, c: Char)
    requires Ready(k) && k.st == HeadFlag
    ensures StalePasses(k, c, OnFlag(k, c))
  {
    UtilityRowsOk(0);
    if !StalePlace(k) {
      WalkIsSafe(FlagTrie(k), k.ts, Lower(c), Lower(c));
    }
  }

  lemma HeadPasses(k: Parser, c: Char)
    requires Ready(k) && IsHeadState(k.st) && k.st !in {Header, HeadFlag}
    ensures StalePasses(k, c, DispatchHead(k, c))
  {
    hide InTree, Requests.OnHeader, Requests.OnFlag;
  }

  lemma DispatchPasses(k: Parser, c: Char)
    requires Ready(k)
    ensures StalePasses(k, c, Dispatch(k, c))
  {
    hide Ready, Stale;
    match k.st
    case Method => MethodPasses(k, c);
    case Prot => ProtPasses(k, c);
    case Header => HeaderPasses(k, c);
    case HeadFlag => FlagPasses(k, c);
    case _ => if IsHeadState(k.st) { HeadPasses(k, c); } else { LinePasses(k, c); }
  }

  /** A byte makes the parser access memory out of bounds exactly when it resumes a flag value from a stale place. */
  lemma {:induction false} OutOfBoundsIff(k: Parser, c: Char)
    requires Ready(k)
    ensures Step(k, c) == OutOfBounds <==> Stale(k, c)
    decreases Rank(k.st)
  {
    DispatchKeeps(k, c);
    DispatchPasses(k, c);
    match Dispatch(k, c)
    case Again(k', c') => OutOfBoundsIff(k', c');
    case _ =>
  }

  /** The same for a whole input: some byte resumes a flag value from the place left by a walk over the other table. */
  lemma {:induction false} RunOutOfBoundsIff(k: Parser, cs: seq<Char>)
    requires Suspendable(k)
    ensures Run(k, cs) == OutOfBounds
       <==> exists n :: 0 <= n < |cs| && Run(k, cs[..n]).More? && Stale(Run(k, cs[..n]).k, cs[n])
    decreases |cs|
  {
    hide Requests.Step, Stale, Ready;
    if cs != [] {
      OutOfBoundsIff(k, cs[0]);
      assert cs[..0] == [];
      forall n | 1 <= n <= |cs|
        ensures Run(k, cs[..n]) == Onward(Step(k, cs[0]), cs[1..][..n - 1])
      {
        assert cs[..n][1..] == cs[1..][..n - 1];
      }
      if Step(k, cs[0]).More? {
        var k' := Step(k, cs[0]).k;
        RunOutOfBoundsIff(k', cs[1..]);
        if Run(k', cs[1..]) == OutOfBounds {
          var n :| 0 <= n < |cs[1..]| && Run(k', cs[1..][..n]).More? && Stale(Run(k', cs[1..][..n]).k, cs[1..][n]);
          assert Run(k, cs[..n + 1]) == Run(k', cs[1..][..n]);
        }
      } else {
        assert Run(k, cs[..0]) == More(k);
      }
    }
  }

  // ---------------------------------------------------------------- flags

  /** The place is the end of a row of the table of flag values, and the byte is a terminator of one: a line end or a
      NUL. */
  predicate Reports(k: Parser, c: int) {
    && k.ts.poff > 0 && k.ts.slot < 30 && UtilityRow(k.ts.slot).Node? && k.ts.poff == |UtilityRow(k.ts.slot).prefix|
    && (c == CR || c == LF || c == NUL)
  }

  /** The flags that byte `c` sets: those of the row the place is at the end of, whatever field that row belongs to. */
  function SetBy(k: Parser, c: int): set<nat> {
    if Enters(k, c) && Reports(k, c) then Bits(UtilityRow(k.ts.slot).terminal) else {}
  }

  /** The flags that values set. */
  function ValueFlags(k: Parser): set<nat> { k.rq.flags - {CONTENT_LENGTH} }

  predicate FlagsPass(k: Parser, c: Char, j: Jump) {
    match j
    case Crash => true
    case Exit(_, k') => ValueFlags(k') == ValueFlags(k) + SetBy(k, c)
    case Next(k') => ValueFlags(k') == ValueFlags(k) + SetBy(k, c)
    case Again(k', c') => ValueFlags(k') + SetBy(k', c') == ValueFlags(k) + SetBy(k, c)
  }

  lemma TerminalsSmall(x: nat)
    requires x < 30 && UtilityRow(x).Node?
    ensures UtilityRow(x).terminal <= 8 && CONTENT_LENGTH !in Bits(UtilityRow(x).terminal) && Bits(0) == {}
    ensures '\0' !in UtilityRow(x).prefix
  {
    hide Bits;
    TerminalAtMost(x);
    PrefixNulFree(x);
    SmallBits(UtilityRow(x).terminal);
  }

  lemma TerminalAtMost(x: nat) requires x < 30 && UtilityRow(x).Node? ensures UtilityRow(x).terminal <= 8 {
  }

  lemma PrefixNulFree(x: nat)
    requires x < 30 && UtilityRow(x).Node?
    ensures '\0' !in UtilityRow(x).prefix
  {
    hide UtilityRow;
    UtilityRowsOk(0);
    assert PrefixOk(UTILITY[x]);
  }

  lemma SmallBits(r: nat) requires r <= 8 ensures CONTENT_LENGTH !in Bits(r) && Bits(0) == {} {
  }

  lemma NameKeepsFlags(k: Parser, r: nat)
    ensures var j := OnName(k, r); (j.Next? || j.Exit?) && j.k.rq == k.rq
  {
  }

  lemma FlagsPassLine(k: Parser, c: Char)
    requires !IsHeadState(k.st)
    ensures FlagsPass(k, c, DispatchLine(k, c))
  {
    hide Look, InPath, UriUric, IsHex, Bits, Reports;
    if DispatchLine(k, c).Again? {
      AgainFromLine(k, c);
    }
  }

  lemma FlagsPassHeader(k: Parser, c: Char)
    requires k.st == Header
    ensures FlagsPass(k, c, OnHeader(k, c))
  {
    hide Look, OnName, Bits, Reports;
    match Look(HEADERS, k.ts, Lower(c), Lower(c) == COLON)
    case Fault =>
    case Walked(r, ts) =>
      if r > 0 {
        NameKeepsFlags(k.(ts := START), r);
      }
  }

  /** What a flag walk reports. */
  lemma FlagReports(k: Parser, c: Char)
    requires Look(FlagTrie(k), k.ts, Lower(c), Lower(c) == CR || Lower(c) == LF).Walked?
    ensures var r := Look(FlagTrie(k), k.ts, Lower(c), Lower(c) == CR || Lower(c) == LF).r;
            if Reports(k, c) then r == UtilityRow(k.ts.slot).terminal else r <= 0
  {
    if k.ts.poff > 0 {
      TerminalsSmall(k.ts.slot);
      if k.ts.poff < |UtilityRow(k.ts.slot).prefix| {
        assert UtilityRow(k.ts.slot).prefix[k.ts.poff] in UtilityRow(k.ts.slot).prefix;
      }
    }
  }

  lemma FlagsPassFlag(k: Parser, c: Char)
    requires k.st == HeadFlag
    ensures FlagsPass(k, c, OnFlag(k, c))
  {
    hide Look, Reports, Bits;
    match Look(FlagTrie(k), k.ts, Lower(c), Lower(c) == CR || Lower(c) == LF)
    case Fault =>
    case Walked(r, ts) =>
      FlagReports(k, c);
      if Reports(k, c) {
        ReportsRow(k, c);
      }
  }

  lemma ReportsRow(k: Parser, c: Char)
    requires Reports(k, c)
    ensures k.ts.slot < 30 && UtilityRow(k.ts.slot).Node? && CONTENT_LENGTH !in Bits(UtilityRow(k.ts.slot).terminal)
            && Bits(0) == {}
  {
    hide Bits, UtilityRow;
    TerminalsSmall(k.ts.slot);
  }

  lemma LengthFlags(k: Parser, c: Char)
    requires k.st == HeadContentLength
    ensures FlagsPass(k, c, OnContentLength(k, c))
  {
    hide InTree, Bits, Requests.Decimal, Reports;
  }

  lemma NlFlags(k: Parser, c: Char)
    requires k.st == Nl
    ensures FlagsPass(k, c, OnNl(k, c))
  {
    hide InTree, Bits, Reports;
  }

  lemma ValueFlagsPass(k: Parser, c: Char)
    requires k.st == Value
    ensures FlagsPass(k, c, OnValue(k, c))
  {
    hide InTree, Bits, Reports;
  }

  lemma ContFlags(k: Parser, c: Char)
    requires Ready(k) && k.st in {Cont, ValueLead}
    ensures FlagsPass(k, c, DispatchHead(k, c))
  {
    hide InTree, Bits, UtilityRow;
  }

  lemma FlagsPassHead(k: Parser, c: Char)
    requires Ready(k) && IsHeadState(k.st) && k.st !in {Header, HeadFlag}
    ensures FlagsPass(k, c, DispatchHead(k, c))
  {
    hide InTree, OnHeader, OnFlag, OnContentLength, OnNl, OnValue, Bits, UtilityRow, Ready;
    match k.st
    case HeadContentLength => LengthFlags(k, c);
    case Nl => NlFlags(k, c);
    case Value => ValueFlagsPass(k, c);
    case Cont => ContFlags(k, c);
    case ValueLead => ContFlags(k, c);
    case _ =>
  }

  lemma DispatchFlags(k: Parser, c: Char)
    requires Ready(k)
    ensures FlagsPass(k, c, Dispatch(k, c))
  {
    hide Ready, SetBy, ValueFlags;
    match k.st
    case Header => FlagsPassHeader(k, c);
    case HeadFlag => FlagsPassFlag(k, c);
    case _ => if IsHeadState(k.st) { FlagsPassHead(k, c); } else { FlagsPassLine(k, c); }
  }

  /** Exactly when a byte sets flags, and which: when it ends a flag value at the end of a row. The row need not be one
      of the field's: a place left behind by a field name counts like one that a flag value led to. */
  lemma {:induction false} FlagsSet(k: Parser, c: Char)
    requires Ready(k)
    ensures match Step(k, c)
            case OutOfBounds => true
            case More(k') => ValueFlags(k') == ValueFlags(k) + SetBy(k, c)
            case Done(k') => ValueFlags(k') == ValueFlags(k) + SetBy(k, c)
            case Fail(_, k') => ValueFlags(k') == ValueFlags(k) + SetBy(k, c)
    decreases Rank(k.st)
  {
    hide Dispatch, SetBy, Ready;
    DispatchKeeps(k, c);
    DispatchFlags(k, c);
    match Dispatch(k, c)
    case Again(k', c') => FlagsSet(k', c');
    case _ =>
  }

  // ---------------------------------------------------------------- heads cut off by the end of input

  /** The end of input completes the head in the state that a value starts in. */
  predicate EofCompletesIn(k: Parser, st: State) {
    match st
    case SkipLine => true
    case Value => k.text.CharFits()
    case HeadContentLength => false
    case _ => (st == HeadFlag || IsFlagState(st)) && !StalePlace(k)
  }

  /** The end of input completes the head from here: anywhere behind the request line but after a CR, in a length, or
      where there is no room for the NUL of a value. */
  predicate EofCompletes(k: Parser) {
    match k.st
    case Nl => true
    case Header => true
    case Cont => if k.collect then EofCompletesIn(k, k.est) else true
    case ValueLead => EofCompletesIn(k, k.est)
    case _ => EofCompletesIn(k, k.st)
  }

  predicate EofPasses(k: Parser, j: Jump) {
    match j
    case Crash => !EofCompletes(k)
    case Exit(_, _) => !EofCompletes(k)
    case Again(k', c) => c == H_EOF && (EofCompletes(k') <==> EofCompletes(k))
    case Next(k') => k'.nl > 1 && EofCompletes(k)
  }

  lemma EofPassesLine(k: Parser)
    requires Ready(k) && !IsHeadState(k.st)
    ensures EofPasses(k, DispatchLine(k, H_EOF))
  {
    hide InTree, StalePlace;
    EofLeavesLine(k);
    if DispatchLine(k, H_EOF).Again? {
      AgainFromLine(k, H_EOF);
    }
  }

  lemma EofPassesWalk(k: Parser)
    requires Ready(k) && k.st in {Header, HeadFlag}
    ensures EofPasses(k, DispatchHead(k, H_EOF))
  {
    hide WalkTrie, OnName;
    EofLeavesHead(k);
    EofWalkFails(HEADERS, k.ts);
    EofWalkFails(FlagTrie(k), k.ts);
    if k.st == Header {
      HeaderWalkIsSafe(k.ts, H_EOF);
    } else if !StalePlace(k) {
      UtilityRowsOk(0);
      WalkIsSafe(FlagTrie(k), k.ts, H_EOF, H_EOF);
    } else {
      StaleFaults(k);
    }
  }

  /** No row has a character -1. */
  lemma EofWalkFails(t: Trie, ts: TrieState)
    ensures Advance(t, ts, H_EOF) == Fault || Advance(t, ts, H_EOF).r == -1
  {
  }

  lemma StaleFaults(k: Parser)
    requires StalePlace(k)
    ensures Advance(FlagTrie(k), k.ts, H_EOF) == Fault
  {
  }

  lemma EofPassesFlag(k: Parser) requires IsFlagState(k.st) ensures EofPasses(k, DispatchHead(k, H_EOF)) {
    hide InTree, Requests.OnHeader, Requests.OnFlag, Requests.OnNl, Requests.OnValue, Requests.OnContentLength;
  }

  lemma EofPassesCont(k: Parser) requires Ready(k) && k.st == Cont ensures EofPasses(k, DispatchHead(k, H_EOF)) {
    hide InTree, Requests.OnHeader, Requests.OnFlag, Requests.OnNl, Requests.OnValue, Requests.OnContentLength;
  }

  lemma EofPassesLead(k: Parser) requires Ready(k) && k.st == ValueLead ensures EofPasses(k, DispatchHead(k, H_EOF)) {
    hide InTree, Requests.OnHeader, Requests.OnFlag, Requests.OnNl, Requests.OnValue, Requests.OnContentLength;
  }

  lemma EofPassesEnd(k: Parser)
    requires Ready(k) && k.st in {Cr, Nl, SkipLine, HeadContentLength, Value}
    ensures EofPasses(k, DispatchHead(k, H_EOF))
  {
    hide InTree, Requests.OnHeader, Requests.OnFlag, Requests.OnNl, Requests.Decimal;
    EofPassesNl(k);
  }

  lemma EofPassesNl(k: Parser)
    ensures OnNl(k, H_EOF) == Again(k.(b := k.m, nl := 0, ts := START, st := Header), H_EOF)
  {
  }

  /** The end of input is taken for the end of a head exactly there. */
  lemma {:induction false} EofCompletesIff(k: Parser)
    requires Ready(k)
    ensures Step(k, H_EOF).Done? <==> EofCompletes(k)
    decreases Rank(k.st)
  {
    hide Requests.Ready, EofCompletes, DispatchLine, DispatchHead;
    DispatchKeeps(k, H_EOF);
    if !IsHeadState(k.st) {
      EofPassesLine(k);
    } else if k.st in {Header, HeadFlag} {
      EofPassesWalk(k);
    } else if k.st in {Cr, Nl, SkipLine, HeadContentLength, Value} {
      EofPassesEnd(k);
    } else if IsFlagState(k.st) {
      EofPassesFlag(k);
    } else if k.st == Cont {
      EofPassesCont(k);
    } else {
      EofPassesLead(k);
    }
    match Dispatch(k, H_EOF)
    case Again(k', c') => EofCompletesIff(k');
    case _ =>
  }

  /** A head in a ring that is marked as the end of input is never waited for: it is complete when the parse of all the
      input is, or when the end of input completes it. */
  lemma MarkedHeadEnds(k: Parser, cs: seq<Char>, cap: nat)
    requires Suspendable(k) && cs != []
    ensures var v, e := Run(k, cs), HeadOf(k, cs, cap, true);
            && (e.Complete? <==> v.Done? || (v.More? && EofCompletes(v.k)))
            && (v.Done? ==> e.k == v.k) && (v.Fail? ==> e == Rejected(v.status, v.k))
            && !e.TooLong? && !e.Closed?
  {
    hide Requests.Run, Requests.Step, EofCompletes, Ready;
    if Run(k, cs).More? {
      EofEnds(Run(k, cs).k);
      EofCompletesIff(Run(k, cs).k);
    }
  }

  // ---------------------------------------------------------------- well folded input and the field index

  /** Whether a collected field is under way once the parser has reached `k`. */
  predicate StillCollecting(k: Parser, current: bool) {
    match k.st
    case ValueLead => k.est == Value
    case Value => true
    case Cont => true
    case Cr => current
    case Nl => current
    case _ => false
  }

  /** Every line that starts with a blank continues a collected field. `current` says whether such a field is under
      way. */
  ghost predicate WellFolded(k: Parser, current: bool, cs: seq<Char>)
    requires Suspendable(k)
    decreases |cs|
  {
    cs == [] || (
      && (k.st == Nl && IsBlank(cs[0]) ==> current)
      && match Step(k, cs[0])
         case More(k') => WellFolded(k', StillCollecting(k', current), cs[1..])
         case _ => true)
  }

  function Fields(t: Text): nat { |t.ints| / 2 }

  function FieldCode(t: Text, j: nat): int
    requires j < Fields(t)
  {
    t.ints[2 * j]
  }

  function FieldStart(t: Text, j: nat): int
    requires j < Fields(t)
  {
    t.ints[2 * j + 1]
  }

  /** The integers are pairs of a header code and an offset; the offsets ascend and each follows a NUL. */
  ghost predicate Indexed(t: Text) {
    && |t.ints| % 2 == 0
    && (forall j :: 0 <= j < Fields(t) ==>
          1 <= FieldCode(t, j) < HEADER_NAMES && 1 <= FieldStart(t, j) <= |t.chars|
            && t.chars[FieldStart(t, j) - 1] == NUL)
    && (forall i, j :: 0 <= i < j < Fields(t) ==> FieldStart(t, i) < FieldStart(t, j))
  }

  /** The last run of text has its NUL. */
  ghost predicate Closed(t: Text) {
    && t.chars != [] && t.chars[|t.chars| - 1] == NUL
    && forall j :: 0 <= j < Fields(t) ==> FieldStart(t, j) < |t.chars|
  }

  /** The parser is in the middle of a run of text. */
  predicate InText(k: Parser, current: bool) {
    k.st in {Path, Query, Escaped1, Escaped2, Value} || (k.st == ValueLead && current)
  }

  /** What well folded input keeps. */
  ghost predicate Tidy(k: Parser, current: bool) {
    && (current ==> k.collect && k.est == Value && k.text.ints != [] && k.st in {ValueLead, Value, Cr, Nl, Cont})
    && (k.st in {Cont, Value} ==> current)
    && (k.st == ValueLead && !current ==> k.est in {HeadConnection, HeadContentLength, HeadExpect, HeadTransferEncoding}
                                          && k.ts.poff == 0)
    && (IsFlagState(k.st) ==> k.ts.poff == 0)
    && (k.st == HeadFlag ==> !StalePlace(k))
    && Indexed(k.text)
    && (InText(k, current) || IsError(k.st) || Closed(k.text))
  }

  ghost predicate KeepsTidy(k: Parser, j: Jump, current: bool) {
    match j
    case Crash => false
    case Exit(_, _) => true
    case Again(k', _) => k'.st != Nl && Tidy(k', StillCollecting(k', current))
      && (k.st == Nl || IsError(k'.st) || StillCollecting(k', current) == current)
    case Next(k') =>
      if k'.nl > 1 then Indexed(k'.text) && Closed(k'.text) else Tidy(k', StillCollecting(k', current))
  }

  predicate SameFields(t: Text, t': Text) {
    forall j :: 0 <= j < Fields(t) && j < Fields(t') ==>
        FieldCode(t', j) == FieldCode(t, j) && FieldStart(t', j) == FieldStart(t, j)
  }

  lemma IndexGrows(t: Text, c: Char)
    requires Indexed(t)
    ensures Indexed(t.(chars := t.chars + [c]))
    ensures c == NUL ==> Closed(t.(chars := t.chars + [c]))
  {
    assert SameFields(t, t.(chars := t.chars + [c]));
  }

  lemma FieldAdded(t: Text, r: nat)
    requires Indexed(t) && Closed(t) && 1 <= r < HEADER_NAMES
    ensures Indexed(t.(ints := t.ints + [r, |t.chars|]))
  {
    assert SameFields(t, t.(ints := t.ints + [r, |t.chars|]));
  }

  lemma NulReplaced(t: Text)
    requires Indexed(t) && Closed(t)
    ensures Indexed(t.(chars := t.chars[|t.chars| - 1 := SP]))
  {
    assert SameFields(t, t.(chars := t.chars[|t.chars| - 1 := SP]));
  }

  lemma PathTidy(k: Parser, c: Char)
    requires Ready(k) && Tidy(k, false) && k.st == Path
    ensures KeepsTidy(k, OnPath(k, c), false)
  {
    hide Indexed, Closed, InTree, InPath, UriUric;
    IndexGrows(k.text, c);
    IndexGrows(k.text, NUL);
  }

  lemma QueryTidy(k: Parser, c: Char)
    requires Ready(k) && Tidy(k, false) && k.st == Query
    ensures KeepsTidy(k, OnQuery(k, c), false)
  {
    hide Indexed, Closed, InTree, InPath, UriUric;
    IndexGrows(k.text, c);
    IndexGrows(k.text, NUL);
  }

  lemma EscapeTidy(k: Parser, c: Char)
    requires Ready(k) && Tidy(k, false) && k.st == Escaped2
    ensures KeepsTidy(k, OnEscaped2(k, c), false)
  {
    hide Indexed, Closed, InTree, IsHex, Requests.Unescape;
    IndexGrows(k.text, Unescape(k.esc, c));
  }

  lemma MethodTidy(k: Parser, c: Char)
    requires Ready(k) && Tidy(k, false) && k.st == Method
    ensures KeepsTidy(k, OnMethod(k, c), false)
  {
    hide Patricia.WalkTrie, Indexed, Closed, InTree;
    MethodPasses(k, c);
  }

  lemma ProtTidy(k: Parser, c: Char)
    requires Ready(k) && Tidy(k, false) && k.st == Prot
    ensures KeepsTidy(k, OnProt(k, c), false)
  {
    hide Patricia.WalkTrie, Indexed, Closed, InTree;
    ProtPasses(k, c);
  }

  lemma OtherLineTidy(k: Parser, c: Char)
    requires Ready(k) && Tidy(k, false) && !IsHeadState(k.st) && k.st !in {Path, Query, Escaped2, Method, Prot}
    ensures KeepsTidy(k, DispatchLine(k, c), false)
  {
    hide Indexed, Closed;
  }

  lemma NameTidy(k: Parser, r: nat, current: bool)
    requires Ready(k) && Tidy(k, false) && k.st == Header && 1 <= r < HEADER_NAMES
    ensures KeepsTidy(k, KeepName(k, OnName(k.(ts := START), r)), false)
  {
    hide Requests.Suspendable;
    FieldAdded(k.text, r);
  }

  lemma HeaderTidy(k: Parser, c: Char)
    requires Ready(k) && Tidy(k, false) && k.st == Header
    ensures KeepsTidy(k, OnHeader(k, c), false)
  {
    hide Patricia.WalkTrie;
    HeaderWalkIsSafe(k.ts, Lower(c));
    HeaderCodeBound(k.ts, Lower(c));
    var r := Look(HEADERS, k.ts, Lower(c), Lower(c) == COLON).r;
    if r > 0 {
      NameTidy(k, r, false);
    }
  }

  lemma FlagTidy(k: Parser, c: Char)
    requires Ready(k) && Tidy(k, false) && k.st == HeadFlag
    ensures KeepsTidy(k, OnFlag(k, c), false)
  {
    hide Patricia.WalkTrie, Indexed, Closed;
    FlagPasses(k, c);
  }

  lemma ValueTidy(k: Parser, c: Char)
    requires Ready(k) && Tidy(k, true) && k.st == Value
    ensures KeepsTidy(k, OnValue(k, c), true)
  {
    hide InTree, Indexed, Closed, IsBlank;
    IndexGrows(k.text, if c == CR || c == LF || c == H_EOF then NUL else if IsBlank(c) then SP else c);
  }

  lemma LeadTidy(k: Parser, c: Char, current: bool)
    requires Ready(k) && Tidy(k, current) && k.st in {Cont, ValueLead}
    ensures KeepsTidy(k, DispatchHead(k, c), current)
  {
    hide Requests.Suspendable;
    if k.st == Cont {
      NulReplaced(k.text);
    }
  }

  lemma LineEndTidy(k: Parser, c: Char, current: bool)
    requires Ready(k) && Tidy(k, current) && k.st in {Cr, Nl, SkipLine}
    requires k.st == Nl && IsBlank(c) ==> current
    ensures KeepsTidy(k, DispatchHead(k, c), current)
  {
    hide Indexed, Closed;
  }

  lemma FlagStartTidy(k: Parser, c: Char)
    requires Ready(k) && Tidy(k, false) && IsFlagState(k.st)
    ensures KeepsTidy(k, DispatchHead(k, c), false)
  {
    hide Indexed, Closed, InTree;
  }

  lemma LengthTidy(k: Parser, c: Char)
    requires Ready(k) && Tidy(k, false) && k.st == HeadContentLength
    ensures KeepsTidy(k, OnContentLength(k, c), false)
  {
    hide Indexed, Closed, InTree, Requests.Decimal;
  }

  lemma DispatchTidy(k: Parser, c: Char, current: bool)
    requires Ready(k) && Tidy(k, current)
    requires k.st == Nl && IsBlank(c) ==> current
    ensures KeepsTidy(k, Dispatch(k, c), current)
  {
    hide Requests.Ready, Indexed, Closed, StalePlace;
    match k.st
    case Path => PathTidy(k, c);
    case Query => QueryTidy(k, c);
    case Escaped2 => EscapeTidy(k, c);
    case Method => MethodTidy(k, c);
    case Prot => ProtTidy(k, c);
    case Header => HeaderTidy(k, c);
    case HeadFlag => FlagTidy(k, c);
    case Value => ValueTidy(k, c);
    case Cont => LeadTidy(k, c, current);
    case ValueLead => LeadTidy(k, c, current);
    case Cr => LineEndTidy(k, c, current);
    case Nl => LineEndTidy(k, c, current);
    case SkipLine => LineEndTidy(k, c, current);
    case HeadContentLength => LengthTidy(k, c);
    case _ => if IsHeadState(k.st) { FlagStartTidy(k, c); } else { OtherLineTidy(k, c); }
  }

  lemma SkipStaysOnLine(k: Parser, c: Char)
    requires Ready(k) && k.st == SkipLine && c != CR && c != LF
    ensures Step(k, c).More? ==> Step(k, c).k.st == SkipLine
  {
  }

  lemma HeaderJumps(k: Parser, c: Char)
    requires k.st == Header
    ensures match OnHeader(k, c)
            case Next(k') => k'.st in {Header, ValueLead, SkipLine}
            case Again(k', c') => k'.st == SkipLine && c' == Lower(c)
            case _ => true
  {
  }

  /** The first byte of a field name does not end the line. */
  lemma NameStaysOnLine(k: Parser, c: Char)
    requires Ready(k) && k.st == Header && c != CR && c != LF
    ensures Step(k, c).More? ==> Step(k, c).k.st !in {Cr, Nl}
  {
    DispatchKeeps(k, c);
    HeaderJumps(k, c);
    match Dispatch(k, c)
    case Again(k', c') => SkipStaysOnLine(k', c');
    case _ =>
  }

  lemma ErrorEnds(k: Parser, c: Char)
    requires Ready(k) && IsError(k.st)
    ensures Step(k, c).Fail?
  {
  }

  lemma NlJumps(k: Parser, c: Char)
    requires k.st == Nl
    ensures match Dispatch(k, c)
            case Again(k', c') => k'.st == Header && c' == c && c != CR && c != LF
            case _ => true
  {
  }

  /** What a byte of well folded input keeps. */
  lemma {:induction false} StepTidy(k: Parser, c: Char, current: bool)
    requires Ready(k) && Tidy(k, current)
    requires k.st == Nl && IsBlank(c) ==> current
    ensures match Step(k, c)
            case OutOfBounds => false
            case Fail(_, _) => true
            case Done(k') => Indexed(k'.text) && Closed(k'.text)
            case More(k') => Tidy(k', StillCollecting(k', current))
    decreases Rank(k.st)
  {
    hide Dispatch, Indexed, Closed;
    DispatchKeeps(k, c);
    DispatchTidy(k, c, current);
    match Dispatch(k, c)
    case Again(k', c') =>
      StepTidy(k', c', StillCollecting(k', current));
      if k.st == Nl {
        NlJumps(k, c);
        NameStaysOnLine(k', c');
      } else if IsError(k'.st) {
        ErrorEnds(k', c');
      }
    case _ =>
  }

  /** Well folded input never makes the parser leave its tables, and a parse that completes leaves an index of
      NUL-terminated values. */
  lemma {:induction false} WellFoldedRun(k: Parser, cs: seq<Char>, current: bool)
    requires Suspendable(k) && Tidy(k, current) && WellFolded(k, current, cs)
    ensures match Run(k, cs)
            case OutOfBounds => false
            case Fail(_, _) => true
            case Done(k') => Indexed(k'.text) && Closed(k'.text)
            case More(k') => Indexed(k'.text)
    decreases |cs|
  {
    if cs != [] {
      StepTidy(k, cs[0], current);
      match Step(k, cs[0])
      case More(k') => WellFoldedRun(k', cs[1..], StillCollecting(k', current));
      case _ =>
    }
  }

  /** The same for a whole request head. */
  lemma WellFoldedHead(hmask: set<nat>, m: nat, rq: Request, size: nat, cs: seq<Char>)
    requires size > 0 && WellFolded(Init(hmask, m, rq, size), false, cs)
    ensures match Run(Init(hmask, m, rq, size), cs)
            case OutOfBounds => false
            case Fail(_, _) => true
            case Done(k) => Indexed(k.text) && Closed(k.text)
            case More(k) => Indexed(k.text)
  {
    WellFoldedRun(Init(hmask, m, rq, size), cs, false);
  }
}
