/** Flag values in two pieces: what an unknown value leaves behind, and how a continuation line goes on with it. */
module TornValues {
  import opened Chars
  import opened TextInts
  import opened Patricia
  import opened Keywords
  import opened Requests
  import opened Syntax
  import opened RoundTrip
  import opened Fields
  import opened Strays

  /** A value that the table does not have leaves the place where its walk stopped. */
  lemma FailedKeepsPlace(k: Parser)
    requires Suspendable(k) && k.st == HeadFlag && k.nl == 0 && Finish(FlagTrie(k), k.ts, LF) == Walked(-1, k.ts)
    ensures var v := Step(k, LF);
            && v.More? && AtLine(v.k) && v.k.collect == k.collect && v.k.est == k.est && v.k.ts == k.ts
            && v.k.rq == k.rq && v.k.text == k.text
  {
    hide Requests.Step, DispatchLine, WalkTrie, FlagTrie;
    StepAgain(k, LF);
    SkipEndStarts(k.(st := SkipLine), LF);
  }

  /** A continuation line goes on from there. */
  lemma FlagResumes(k: Parser, c: Char, start: nat)
    requires Suspendable(k) && k.st == Cont && k.collect && IsFlagState(k.est) && c > 32
    requires start == (if k.est == HeadConnection then 20 else if k.est == HeadExpect then 30 else 25)
    ensures var t := k.text.(chars := k.text.chars[|k.text.chars| - 1 := SP]);
            var k' := k.(st := HeadFlag, b := k.m, text := t, flag := UtilityTrie(start).root);
            Ready(k') && Step(k, c) == Step(k', c)
  {
    hide Requests.Step, DispatchLine, OnHeader, OnNl, OnValue, OnContentLength, OnFlag, InTree;
    StepAgain(k, c);
    var k1 := Dispatch(k, c).k;
    StepAgain(k1, c);
    StepAgain(Dispatch(k1, c).k, c);
  }

  /** The first part of a word is no word. */
  lemma WordsNoPrefix(bit: nat, other: nat)
    requires IsFlagBit(bit) && IsFlagBit(other) && Codes(FlagWord(other)) <= Codes(FlagWord(bit))
    ensures bit == other
  {
    var a, b := FlagWord(other), FlagWord(bit);
    assert Codes(a)[0] == Codes(b)[0] && Codes(a)[1] == Codes(b)[1];
    assert a[0] == b[0] && a[1] == b[1];
  }

  lemma RowBits(start: nat, x: nat)
    requires start in {20, 25, 30} && x in UtilityShape(start).text
    ensures x < 30 && UtilityRow(x).Node? && UtilityTrie(start).tree[x] == UtilityRow(x)
    ensures IsFlagBit(UtilityRow(x).terminal)
    ensures UtilityShape(start).text[x] == Codes(FlagWord(UtilityRow(x).terminal))
  {
  }

  /** The walks over the two parts of a word. */
  lemma PartsWalked(a: seq<Char>, b: seq<Char>, bit: nat)
    requires IsFlagBit(bit) && SameName(a + b, FlagWord(bit)) && a != [] && b != []
    ensures NulFree(LowerAll(a)) && NulFree(LowerAll(b))
    ensures var t := UtilityTrie(FlagStart(bit));
            var r := WalkWord(t, START, LowerAll(a));
            && r.Walked? && r.r == 0 && r.ts.poff > 0 && Finish(t, r.ts, LF) == Walked(-1, r.ts)
            && var r' := WalkWord(t, r.ts, LowerAll(b));
               r'.Walked? && r'.r == 0 && forall sep :: Finish(t, r'.ts, sep) == Walked(bit, r'.ts)
  {
    hide WellFormed, WalkWord, WalkTrie, UtilityShape, UtilityTrie, FlagWord, SameName;
    var t, sh := UtilityTrie(FlagStart(bit)), UtilityShape(FlagStart(bit));
    var u, w := LowerAll(a), LowerAll(b);
    PartsSpell(a, b, bit);
    FlagWords(bit);
    UtilityWellFormed(FlagStart(bit));
    assert OnTrie(sh, u) && OnTrie(sh, u + w) && [] + u == u;
    WalkWordFollows(t, sh, [], START, u);
    var ts := WalkWord(t, START, u).ts;
    FinishReports(t, sh, u, ts, LF);
    forall s | s in sh.text
      ensures sh.text[s] != u
    {
      RowBits(FlagStart(bit), s);
      if sh.text[s] == u {
        WordsNoPrefix(bit, UtilityRow(s).terminal);
      }
    }
    WalkWordFollows(t, sh, u, ts, w);
    var ts' := WalkWord(t, ts, w).ts;
    RowBits(FlagStart(bit), FlagSlot(bit));
    forall sep
      ensures Finish(t, ts', sep) == Walked(bit, ts')
    {
      FinishReports(t, sh, u + w, ts', sep);
    }
  }

  lemma PartsSpell(a: seq<Char>, b: seq<Char>, bit: nat)
    requires IsFlagBit(bit) && SameName(a + b, FlagWord(bit))
    ensures LowerAll(a) + LowerAll(b) == Codes(FlagWord(bit)) && NulFree(LowerAll(a)) && NulFree(LowerAll(b))
    ensures (forall i :: 0 <= i < |a| ==> a[i] > 32) && forall i :: 0 <= i < |b| ==> b[i] > 32
  {
    hide FlagWord, SameName, NulFree;
    FlagWordKnown(a + b, bit);
    assert LowerAll(a + b) == LowerAll(a) + LowerAll(b);
    NulFreeParts(LowerAll(a), LowerAll(b));
    assert forall i :: 0 <= i < |a| ==> (a + b)[i] == a[i];
    assert forall i :: 0 <= i < |b| ==> (a + b)[|a| + i] == b[i];
  }

  lemma NulFreeParts(u: seq<int>, w: seq<int>)
    requires NulFree(u + w)
    ensures NulFree(u) && NulFree(w)
  {
    assert forall i :: 0 <= i < |u| ==> (u + w)[i] == u[i];
    assert forall i :: 0 <= i < |w| ==> (u + w)[|u| + i] == w[i];
  }

  /** Reading a name and its colon does not end the field before it. */
  lemma NamedCollects(k: Parser, name: seq<Char>, code: nat)
    requires AtLine(k) && IsInterpreted(code) && SameName(name, HeaderName(code))
    ensures var v := Run(k, name + [COLON]); AtInterpreted(v, k, code) && v.k.collect == k.collect
  {
    hide Requests.Step, Requests.Run;
    InterpretedRead(k, name, code, []);
    NameRead(k, name, code);
    NameCollects(k, name, code);
    var k1 := Run(k, name).k;
    assert [COLON] + [] == [COLON];
    RunConcat(k, name, [COLON]);
    ColonCollects(k1, code);
    One(k1, COLON);
  }

  lemma ColonCollects(k: Parser, code: nat)
    requires Suspendable(k) && k.st == Header && k.nl == 0 && Finish(HEADERS, k.ts, COLON) == Walked(code, k.ts)
    requires IsInterpreted(code)
    ensures Step(k, COLON).More? && Step(k, COLON).k.collect == k.collect
  {
    hide Requests.Step, Requests.Dispatch, WalkTrie;
    ColonRead(k, code);
    StepNext(k, COLON);
  }

  lemma {:induction false} FlagWalkCollects(k: Parser, w: seq<Char>)
    requires Suspendable(k) && k.st == HeadFlag && k.nl == 0 && forall i :: 0 <= i < |w| ==> w[i] > 32
    requires NulFree(LowerAll(w))
    requires WalkWord(FlagTrie(k), k.ts, LowerAll(w)).Walked? && WalkWord(FlagTrie(k), k.ts, LowerAll(w)).r == 0
    ensures Run(k, w).More? && Run(k, w).k.collect == k.collect && Run(k, w).k.est == k.est
    decreases |w|
  {
    hide Requests.Step, WalkTrie;
    if w != [] {
      assert LowerAll(w)[1..] == LowerAll(w[1..]);
      AdvanceResult(FlagTrie(k), k.ts, LowerAll(w));
      FlagStep(k, w[0]);
      FlagWalkCollects(Step(k, w[0]).k, w[1..]);
    }
  }

  /** The first part of a word, and a line end. */
  lemma FirstPartRead(k: Parser, k0: Parser, a: seq<Char>, b: seq<Char>, bit: nat)
    requires AtInterpreted(More(k), k0, FlagHeader(bit)) && k.collect
    requires IsFlagBit(bit) && SameName(a + b, FlagWord(bit)) && a != [] && b != []
    ensures var v := Run(k, a + [LF]);
            && v.More? && AtLine(v.k) && v.k.collect && v.k.est == k.est && v.k.rq == k.rq && v.k.text == k.text
            && WalkWord(UtilityTrie(FlagStart(bit)), START, LowerAll(a)) == Walked(0, v.k.ts)
  {
    hide Requests.Step, Requests.Run, Ready, WalkTrie, WalkWord, SameName, FlagWord, LowerAll, UtilityTrie;
    var t := UtilityTrie(FlagStart(bit));
    PartsWalked(a, b, bit);
    PartsSpell(a, b, bit);
    var k1 := k.(b := k.m, flag := t.root, st := HeadFlag);
    FlagTrieOf(k1, FlagStart(bit));
    FlagEnters(k, a[0], FlagStart(bit));
    LowerTail(a);
    AdvanceResult(t, START, LowerAll(a));
    FlagStep(k1, a[0]);
    assert a == [a[0]] + a[1..];
    Cons(k, a[0], a[1..]);
    FlagWalk(Step(k1, a[0]).k, a[1..]);
    FlagWalkCollects(Step(k1, a[0]).k, a[1..]);
    Snoc(k, a, LF);
    FailedKeepsPlace(Run(k, a).k);
  }

  /** The rest of the word, on a continuation line. */
  lemma SecondPartRead(k: Parser, a: seq<Char>, b: seq<Char>, bit: nat)
    requires Suspendable(k) && k.st == Cont && k.nl == 0 && k.collect && k.est == InterpretedState(FlagHeader(bit))
    requires IsFlagBit(bit) && SameName(a + b, FlagWord(bit)) && a != [] && b != []
    requires WalkWord(UtilityTrie(FlagStart(bit)), START, LowerAll(a)) == Walked(0, k.ts)
    ensures var v := Run(k, b + [LF]); v.More? && AtLine(v.k) && v.k.rq == k.rq.(flags := k.rq.flags + {bit})
  {
    hide Requests.Step, Requests.Run, WalkTrie, WalkWord, SameName, FlagWord, LowerAll, UtilityTrie, InTree;
    var t := UtilityTrie(FlagStart(bit));
    PartsWalked(a, b, bit);
    PartsSpell(a, b, bit);
    FlagResumes(k, b[0], FlagStart(bit));
    var k1 := k.(st := HeadFlag, b := k.m, text := k.text.(chars := k.text.chars[|k.text.chars| - 1 := SP]),
                 flag := t.root);
    FlagTrieOf(k1, FlagStart(bit));
    LowerTail(b);
    AdvanceResult(t, k1.ts, LowerAll(b));
    FlagStep(k1, b[0]);
    assert b == [b[0]] + b[1..];
    Cons(k, b[0], b[1..]);
    FlagWalk(Step(k1, b[0]).k, b[1..]);
    RunConcat(k, b, Eol(true));
    FlagEnds(Run(k, b).k, bit, true);
  }

  /** With a collected field on record, a flag value in two pieces, the second one on a continuation line, sets its
      flag: a value that is not known is not done with. */
  lemma TornValueSets(k: Parser, name: seq<Char>, a: seq<Char>, b: seq<Char>, bit: nat)
    requires AtLine(k) && k.collect && IsFlagBit(bit) && SameName(name, FlagName(bit))
    requires SameName(a + b, FlagWord(bit)) && a != [] && b != []
    ensures var v := Run(k, (name + [COLON]) + ((a + [LF]) + ([SP] + (b + [LF]))));
            v.More? && AtLine(v.k) && v.k.rq == k.rq.(flags := k.rq.flags + {bit})
  {
    hide Requests.Step, Requests.Run, Ready, SameName, WalkWord, LowerAll, UtilityTrie;
    FlagNamed(bit);
    NamedCollects(k, name, FlagHeader(bit));
    RunConcat(k, name + [COLON], (a + [LF]) + ([SP] + (b + [LF])));
    var k1 := Run(k, name + [COLON]).k;
    FirstPartRead(k1, k, a, b, bit);
    RunConcat(k1, a + [LF], [SP] + (b + [LF]));
    var k2 := Run(k1, a + [LF]).k;
    FoldBlank(k2, SP);
    Cons(k2, SP, b + [LF]);
    SecondPartRead(Step(k2, SP).k, a, b, bit);
  }
}
