/** Requests that take the parser out of its tables: a continuation line after a field that was not collected. */
module Strays {
  import opened Chars
  import opened TextInts
  import opened Patricia
  import opened Keywords
  import opened Requests
  import opened Syntax
  import opened RoundTrip
  import opened Fields
  import Safety

  /** A collected field is still on record, though the field before this line was an interpreted one. */
  ghost predicate OnRecord(k: Parser) { AtLine(k) && k.collect && k.est == HeadExpect }

  const EXPECT_NAME: seq<Char> := ['e' as int, 'x' as int, 'p' as int, 'e' as int, 'c' as int, 't' as int]

  /** A field with no value that the parser interprets. */
  const EXPECT_LINE: seq<Char> := EXPECT_NAME + [COLON, LF]

  /** The start of a field name, cut short, and a continuation line. */
  const CUT_NAME: seq<Char> := ['u' as int, 's' as int, LF]

  const CONTINUATION: seq<Char> := [SP, 'a' as int]

  // ---------------------------------------------------------------- a place in the wrong table

  lemma FirstStep()
    ensures Advance(HEADERS, START, 'u' as int) == Walked(0, TrieState(1, 20)) && Lower('u' as int) == 'u' as int
  {
  }

  lemma NameGoesOn(k: Parser, c: Char, ts: TrieState)
    requires Suspendable(k) && k.st == Header && Lower(c) == c != COLON && Advance(HEADERS, k.ts, c) == Walked(0, ts)
    ensures Step(k, c) == More((if 0 !in k.hmask then k.(b := k.m) else k).(ts := ts, m := k.m + 1))
  {
    hide Requests.Step, DispatchLine, WalkTrie, OnName;
    StepNext(k, c);
  }

  lemma FirstLetter(k: Parser)
    requires OnRecord(k)
    ensures var v := Step(k, 'u' as int);
            && v.More? && v.k.st == Header && v.k.ts == TrieState(1, 20) && v.k.nl == 0 && v.k.collect
            && v.k.est == HeadExpect
            && v.k.text == k.text
  {
    hide Requests.Step, Dispatch, WalkTrie;
    var k1 := k.(b := k.m, nl := 0, ts := START, st := Header);
    NameStarts(k, 'u' as int);
    FirstStep();
    NameGoesOn(k1, 'u' as int, TrieState(1, 20));
  }

  /** The parser after the cut name: at a line, still on record, with a place in the header table that the table of flag
      values does not have. */
  ghost predicate Displaced(k: Parser) { OnRecord(k) && k.ts == TrieState(1, 49) }

  lemma SecondLetter(k: Parser)
    requires Suspendable(k) && k.st == Header && k.ts == TrieState(1, 20) && k.nl == 0 && k.collect
             && k.est == HeadExpect
    ensures var v := Step(k, 's' as int);
            && v.More? && v.k.st == Header && v.k.ts == TrieState(1, 49) && v.k.nl == 0 && v.k.collect
            && v.k.est == HeadExpect
  {
    hide Requests.Step, Dispatch, WalkTrie;
    SecondStep(k.ts);
    NameGoesOn(k, 's' as int, TrieState(1, 49));
  }

  lemma SecondStep(ts: TrieState)
    requires ts == TrieState(1, 20)
    ensures Advance(HEADERS, ts, 's' as int) == Walked(0, TrieState(1, 49)) && Lower('s' as int) == 's' as int
  {
  }

  /** A name cut short by a line end leaves its place behind. */
  lemma NameCut(k: Parser)
    requires Suspendable(k) && k.st == Header && k.nl == 0 && k.collect && k.est == HeadExpect
    requires Advance(HEADERS, k.ts, LF) == Walked(-1, k.ts)
    ensures var v := Step(k, LF); v.More? && OnRecord(v.k) && v.k.ts == k.ts && v.k.rq == k.rq && v.k.text == k.text
  {
    hide Requests.Step, DispatchLine, WalkTrie, OnName;
    StepAgain(k, LF);
    SkipEndStarts(k.(st := SkipLine), LF);
  }

  lemma CutFails(ts: TrieState)
    requires ts == TrieState(1, 49) || ts == TrieState(3, 16)
    ensures Advance(HEADERS, ts, LF) == Walked(-1, ts)
  {
  }

  lemma ContinuationStrays(k: Parser)
    requires Displaced(k)
    ensures Run(k, CONTINUATION) == OutOfBounds
  {
    hide Requests.Step, Requests.Run;
    assert CONTINUATION == [SP] + ['a' as int];
    FoldBlank(k, SP);
    Cons(k, SP, ['a' as int]);
    var k1 := Step(k, SP).k;
    One(k1, 'a' as int);
    Safety.OutOfBoundsIff(k1, 'a' as int);
  }

  /** From there, `us`, a line end and a continuation line leave the tables. */
  lemma OnRecordStrays(k: Parser)
    requires OnRecord(k)
    ensures Run(k, CUT_NAME + CONTINUATION) == OutOfBounds
  {
    hide Requests.Step, Requests.Run;
    assert CUT_NAME + CONTINUATION == ['u' as int] + (['s' as int] + ([LF] + CONTINUATION));
    FirstLetter(k);
    Cons(k, 'u' as int, ['s' as int] + ([LF] + CONTINUATION));
    var k1 := Step(k, 'u' as int).k;
    SecondLetter(k1);
    Cons(k1, 's' as int, [LF] + CONTINUATION);
    var k2 := Step(k1, 's' as int).k;
    CutFails(k2.ts);
    NameCut(k2);
    Cons(k2, LF, CONTINUATION);
    ContinuationStrays(Step(k2, LF).k);
  }

  // ---------------------------------------------------------------- how a field stays on record

  lemma HeaderStepCollects(k: Parser, c: Char)
    requires Suspendable(k) && k.st == Header && c != COLON
    requires Advance(HEADERS, k.ts, Lower(c)).Walked? && Advance(HEADERS, k.ts, Lower(c)).r == 0
    ensures Step(k, c).More? && Step(k, c).k.collect == k.collect && Step(k, c).k.est == k.est
  {
    hide Requests.Step, DispatchLine, WalkTrie;
    StepNext(k, c);
  }

  lemma {:induction false} HeaderWalkCollects(k: Parser, w: seq<Char>)
    requires Suspendable(k) && k.st == Header && COLON !in w && NulFree(LowerAll(w))
    requires WalkWord(HEADERS, k.ts, LowerAll(w)).Walked? && WalkWord(HEADERS, k.ts, LowerAll(w)).r == 0
    ensures Run(k, w).More? && Run(k, w).k.collect == k.collect && Run(k, w).k.est == k.est
    decreases |w|
  {
    hide Requests.Step;
    if w != [] {
      assert LowerAll(w)[1..] == LowerAll(w[1..]);
      AdvanceResult(HEADERS, k.ts, LowerAll(w));
      HeaderStepCollects(k, w[0]);
      HeaderStep(k, w[0]);
      One(k, w[0]);
      HeaderWalkCollects(Step(k, w[0]).k, w[1..]);
    }
  }

  /** Reading a name does not end the field before it. */
  lemma NameCollects(k: Parser, name: seq<Char>, code: nat)
    requires AtLine(k) && 1 <= code < HEADER_NAMES && SameName(name, HeaderName(code))
    ensures Run(k, name).More? && Run(k, name).k.collect == k.collect
  {
    hide Requests.Step, Requests.Run;
    var k1 := k.(b := k.m, nl := 0, ts := START, st := Header);
    NameChars(name, code);
    SlotSpellsName(name, code);
    HeadersWellFormed();
    KnownWord(HEADERS, HEADER_SHAPE, LowerAll(name), HeaderSlot(code), COLON);
    NameStarts(k, name[0]);
    SameStart(k, k1, name);
    HeaderWalkCollects(k1, name);
  }

  lemma ExpectNamed()
    ensures SameName(EXPECT_NAME, HeaderName(RQ_EXPECT))
  {
    assert HeaderName(RQ_EXPECT) == "Expect";
  }

  lemma ExpectColon(k: Parser)
    requires Suspendable(k) && k.st == Header && k.nl == 0 && Finish(HEADERS, k.ts, COLON) == Walked(RQ_EXPECT, k.ts)
    ensures var v := Step(k, COLON);
            v.More? && v.k.st == ValueLead && v.k.est == HeadExpect && v.k.ts == START && v.k.nl == 0
              && v.k.collect == k.collect && v.k.rq == k.rq
  {
    hide Requests.Step, Dispatch, WalkTrie;
    ColonRead(k, RQ_EXPECT);
    StepNext(k, COLON);
  }

  /** An empty value is no flag: the rest of the line is skipped. */
  lemma EmptyValueEnds(k: Parser)
    requires Suspendable(k) && k.st == ValueLead && k.est == HeadExpect && k.ts == START && k.nl == 0 && k.collect
    ensures Step(k, LF).More? && OnRecord(Step(k, LF).k) && Step(k, LF).k.rq == k.rq
  {
    var k1 := k.(b := k.m, flag := EXPECT.root, st := HeadFlag);
    FlagEnters(k, LF, 30);
    UnmatchedEnds(k1);
  }

  lemma NoFlagStarts()
    ensures Finish(EXPECT, START, LF) == Walked(-1, START) && EXPECT == Trie(UTILITY, EXPECT.root, UtilityAlphabet)
  {
  }

  lemma UnmatchedEnds(k: Parser)
    requires Ready(k) && k.st == HeadFlag && k.est == HeadExpect && k.ts == START && k.nl == 0 && k.collect
             && k.flag == EXPECT.root
    ensures Step(k, LF).More? && OnRecord(Step(k, LF).k) && Step(k, LF).k.rq == k.rq
  {
    hide Requests.Step, DispatchLine, WalkTrie;
    NoFlagStarts();
    StepAgain(k, LF);
    SkipEndStarts(k.(st := SkipLine), LF);
  }

  /** The flag of a collected field is not cleared by the field that follows it. */
  lemma ExpectKeepsRecord(k: Parser)
    requires AtLine(k) && k.collect
    ensures Run(k, EXPECT_LINE).More? && OnRecord(Run(k, EXPECT_LINE).k) && Run(k, EXPECT_LINE).k.rq == k.rq
  {
    hide Requests.Step, Requests.Run;
    ExpectNamed();
    NameRead(k, EXPECT_NAME, RQ_EXPECT);
    NameCollects(k, EXPECT_NAME, RQ_EXPECT);
    RunConcat(k, EXPECT_NAME, [COLON, LF]);
    var k1 := Run(k, EXPECT_NAME).k;
    assert [COLON, LF] == [COLON] + [LF];
    ExpectColon(k1);
    Cons(k1, COLON, [LF]);
    var k2 := Step(k1, COLON).k;
    EmptyValueEnds(k2);
    One(k2, LF);
  }

  // ---------------------------------------------------------------- a place in the wrong row

  const IF_MATC: seq<Char> := ['i' as int, 'f' as int, '-' as int, 'm' as int, 'a' as int, 't' as int, 'c' as int]

  lemma IfRows()
    ensures Advance(HEADERS, START, 'i' as int) == Walked(0, TrieState(1, 8))
    ensures Advance(HEADERS, TrieState(1, 8), 'f' as int) == Walked(0, TrieState(2, 8))
    ensures Advance(HEADERS, TrieState(2, 8), '-' as int) == Walked(0, TrieState(3, 8))
    ensures Advance(HEADERS, TrieState(3, 8), 'm' as int) == Walked(0, TrieState(1, 42))
  {
  }

  lemma MatcRows()
    ensures Advance(HEADERS, TrieState(1, 42), 'a' as int) == Walked(0, TrieState(1, 16))
    ensures Advance(HEADERS, TrieState(1, 16), 't' as int) == Walked(0, TrieState(2, 16))
    ensures Advance(HEADERS, TrieState(2, 16), 'c' as int) == Walked(0, TrieState(3, 16))
  {
  }

  lemma WalkOn(ts: TrieState, c: int, ts': TrieState, rest: seq<int>)
    requires Advance(HEADERS, ts, c) == Walked(0, ts')
    ensures WalkWord(HEADERS, ts, [c] + rest) == WalkWord(HEADERS, ts', rest)
  {
    hide WalkTrie;
    assert ([c] + rest)[1..] == rest;
  }

  lemma IfMatcWalks()
    ensures WalkWord(HEADERS, START, IF_MATC) == Walked(0, TrieState(3, 16))
  {
    hide Advance;
    IfRows();
    MatcRows();
    var none: seq<int> := [];
    var c, t, a := ['c' as int] + none, ['t' as int] + (['c' as int] + none),
      ['a' as int] + (['t' as int] + (['c' as int] + none));
    assert IF_MATC == ['i' as int] + (['f' as int] + (['-' as int] + (['m' as int] + a)));
    WalkOn(START, 'i' as int, TrieState(1, 8), ['f' as int] + (['-' as int] + (['m' as int] + a)));
    WalkOn(TrieState(1, 8), 'f' as int, TrieState(2, 8), ['-' as int] + (['m' as int] + a));
    WalkOn(TrieState(2, 8), '-' as int, TrieState(3, 8), ['m' as int] + a);
    WalkOn(TrieState(3, 8), 'm' as int, TrieState(1, 42), a);
    WalkOn(TrieState(1, 42), 'a' as int, TrieState(1, 16), t);
    WalkOn(TrieState(1, 16), 't' as int, TrieState(2, 16), c);
    WalkOn(TrieState(2, 16), 'c' as int, TrieState(3, 16), none);
  }

  lemma IfMatcPlain()
    ensures LowerAll(IF_MATC) == IF_MATC && COLON !in IF_MATC && NulFree(IF_MATC)
  {
    assert forall i :: 0 <= i < |IF_MATC| ==> Lower(IF_MATC[i]) == IF_MATC[i];
  }

  /** The end of "OST" in the table of flag values, where "if-matc" leads in the table of header names. */
  ghost predicate Misplaced(k: Parser) { OnRecord(k) && k.ts == TrieState(3, 16) }

  lemma IfMatcMisplaces(k: Parser)
    requires OnRecord(k)
    ensures var v := Run(k, IF_MATC + [LF]); v.More? && Misplaced(v.k) && v.k.rq == k.rq && v.k.text == k.text
  {
    hide Requests.Step, Requests.Run, LowerAll;
    var k1 := k.(b := k.m, nl := 0, ts := START, st := Header);
    IfMatcWalks();
    IfMatcPlain();
    NameStarts(k, IF_MATC[0]);
    SameStart(k, k1, IF_MATC);
    HeaderWalk(k1, IF_MATC);
    HeaderWalkCollects(k1, IF_MATC);
    var k2 := Run(k1, IF_MATC).k;
    Snoc(k, IF_MATC, LF);
    CutFails(k2.ts);
    NameCut(k2);
  }

  lemma PostReports(k: Parser)
    requires k.ts == TrieState(3, 16)
    ensures Finish(FlagTrie(k), k.ts, LF) == Walked(3, k.ts) && Bits(3) == {CLOSE, KEEP}
  {
  }

  /** A continuation line resumes the value of the last interpreted field. */
  lemma ContResumes(k: Parser)
    requires Suspendable(k) && k.st == Cont && k.collect && k.est == HeadExpect
    ensures var t := k.text.(chars := k.text.chars[|k.text.chars| - 1 := SP]);
            var k' := k.(st := HeadExpect, b := k.m, text := t);
            Ready(k') && Step(k, LF) == Step(k', LF)
  {
    hide Requests.Step, DispatchLine, OnHeader, OnNl, OnValue, OnContentLength, OnFlag, InTree;
    StepAgain(k, LF);
    StepAgain(Dispatch(k, LF).k, LF);
  }

  /** An empty continuation line there resumes a flag value at the end of "OST", and takes POST for two flags. */
  lemma BlankMisflags(k: Parser)
    requires Suspendable(k) && k.st == Cont && k.collect && k.est == HeadExpect && k.ts == TrieState(3, 16) && k.nl == 0
    ensures var v := Step(k, LF); v.More? && AtLine(v.k) && v.k.rq == k.rq.(flags := k.rq.flags + {CLOSE, KEEP})
  {
    hide Requests.Step, DispatchLine, WalkTrie, OnHeader, OnNl, OnValue, OnContentLength, OnFlag, FlagTrie;
    ContResumes(k);
    var k2 := k.(st := HeadExpect, b := k.m, text := k.text.(chars := k.text.chars[|k.text.chars| - 1 := SP]));
    StepAgain(k2, LF);
    var k3 := k2.(st := HeadFlag, flag := EXPECT.root);
    PostReports(k3);
    FlagResolves(k3, 3, LF);
    StepAgain(k3, LF);
    SkipEndStarts(Dispatch(k3, LF).k, LF);
  }

  /** `if-matc`, an empty continuation line, and the empty line that ends the head. */
  const MISFLAG_LINES: seq<Char> := ((IF_MATC + [LF]) + ([SP] + [LF])) + Eol(true)

  /** From there, `if-matc` and an empty continuation line set two flags that no field states. */
  lemma OnRecordMisflags(k: Parser)
    requires OnRecord(k)
    ensures var v := Run(k, (IF_MATC + [LF]) + ([SP] + [LF]));
            v.More? && AtLine(v.k) && v.k.rq == k.rq.(flags := k.rq.flags + {CLOSE, KEEP})
  {
    hide Requests.Step, Requests.Run;
    IfMatcMisplaces(k);
    RunConcat(k, IF_MATC + [LF], [SP] + [LF]);
    var k1 := Run(k, IF_MATC + [LF]).k;
    FoldBlank(k1, SP);
    Cons(k1, SP, [LF]);
    var k2 := Step(k1, SP).k;
    BlankMisflags(k2);
    One(k2, LF);
  }

  // ---------------------------------------------------------------- from the start of a request

  /** A valid request line and a valid field that is collected, with room for both in the text buffer. */
  ghost predicate Collectable(g: Message, f: Field, hmask: set<nat>, size: nat) {
    && size > 0 && 1 <= g.method_ <= 8 && (g.path != [] || g.query.Some?) && ValidTarget(g) && g.version in {9, 10, 11}
    && f.Text_? && ValidField(f) && f.code in hmask
    && FieldText(f, hmask, Text([NUL] + TargetText(g), [], size)).Fits()
  }

  /** A request line, a collected field and an empty `Expect` line lead there. */
  lemma ReachesRecord(g: Message, f: Field, hmask: set<nat>, m: nat, size: nat, tail: seq<Char>) returns (k: Parser)
    requires Collectable(g, f, hmask, size)
    ensures OnRecord(k) && k.rq.flags == {} && k.rq.version == g.version
    ensures Run(Init(hmask, m, NO_REQUEST, size), PrintRequestLine(g) + (PrintField(f) + (EXPECT_LINE + tail)))
            == Run(k, tail)
  {
    hide Requests.Step, Requests.Run, PrintRequestLine, PrintField;
    var k0 := Init(hmask, m, NO_REQUEST, size);
    InitSuspendable(hmask, m, NO_REQUEST, size);
    FieldsGrow([f], hmask, Text([NUL] + TargetText(g), [], size));
    RequestLineRead(k0, g);
    RunConcat(k0, PrintRequestLine(g), PrintField(f) + (EXPECT_LINE + tail));
    var k1 := Run(k0, PrintRequestLine(g)).k;
    CollectedRead(k1, f);
    RunConcat(k1, PrintField(f), EXPECT_LINE + tail);
    var k2 := Run(k1, PrintField(f)).k;
    ExpectKeepsRecord(k2);
    RunConcat(k2, EXPECT_LINE, tail);
    k := Run(k2, EXPECT_LINE).k;
  }

  /** After any request line and any collected field, these lines make the parser read outside its tables. */
  lemma HeadStrays(g: Message, f: Field, hmask: set<nat>, m: nat, size: nat)
    requires Collectable(g, f, hmask, size)
    ensures Run(Init(hmask, m, NO_REQUEST, size),
            PrintRequestLine(g) + (PrintField(f) + (EXPECT_LINE + (CUT_NAME + CONTINUATION))))
         == OutOfBounds
  {
    hide Requests.Step, Requests.Run, PrintRequestLine, PrintField, Collectable;
    var k := ReachesRecord(g, f, hmask, m, size, CUT_NAME + CONTINUATION);
    OnRecordStrays(k);
  }

  /** And these lines complete a head with two flags that no field states. */
  lemma HeadMisflags(g: Message, f: Field, hmask: set<nat>, m: nat, size: nat)
    requires Collectable(g, f, hmask, size)
    ensures var v := Run(Init(hmask, m, NO_REQUEST, size),
            PrintRequestLine(g) + (PrintField(f) + (EXPECT_LINE + MISFLAG_LINES)));
            v.Done? && v.k.rq.flags == {CLOSE, KEEP} && v.k.rq.version == g.version
  {
    hide Requests.Step, Requests.Run, PrintRequestLine, PrintField, Collectable;
    var lines := (IF_MATC + [LF]) + ([SP] + [LF]);
    var k := ReachesRecord(g, f, hmask, m, size, MISFLAG_LINES);
    OnRecordMisflags(k);
    RunConcat(k, lines, Eol(true));
    EmptyLineEnds(Run(k, lines).k, true);
  }

  /** "GET / HTTP/1.0". */
  const ROOT_REQUEST := Message([], 1, [Octet('/' as int, AsIs)], None, 10, true, [], true)

  /** "date:", with nothing behind it. */
  const DATE_FIELD := Text_(['d' as int, 'a' as int, 't' as int, 'e' as int], 15, Line([], true), [])

  /** An instance: "GET / HTTP/1.0", "date:", "expect:", "us" and " a", on lines of their own. */
  lemma DatedRequestStrays(m: nat, size: nat)
    requires size >= 64
    ensures Run(Init(ALL_HEADERS, m, NO_REQUEST, size),
                PrintRequestLine(ROOT_REQUEST) + (PrintField(DATE_FIELD) + (EXPECT_LINE + (CUT_NAME + CONTINUATION))))
                  == OutOfBounds
  {
    hide PrintRequestLine, PrintField, Requests.Run;
    assert HeaderName(15) == "Date";
    assert SameName(DATE_FIELD.name, HeaderName(15));
    HeadStrays(ROOT_REQUEST, DATE_FIELD, ALL_HEADERS, m, size);
  }

  /** An instance: "GET / HTTP/1.1", "date:", "expect:", "if-matc", a line of one space, and the empty line. */
  lemma DatedRequestMisflagged(m: nat, size: nat)
    requires size >= 64
    ensures var v := Run(Init(ALL_HEADERS, m, NO_REQUEST, size),
                         PrintRequestLine(ROOT_REQUEST.(version := 11))
                           + (PrintField(DATE_FIELD) + (EXPECT_LINE + MISFLAG_LINES)));
            v.Done? && v.k.rq.flags == {CLOSE, KEEP} && v.k.rq.version == 11
  {
    hide PrintRequestLine, PrintField, Requests.Run;
    assert HeaderName(15) == "Date";
    assert SameName(DATE_FIELD.name, HeaderName(15));
    HeadMisflags(ROOT_REQUEST.(version := 11), DATE_FIELD, ALL_HEADERS, m, size);
  }
}
