/** Reading header fields: names, folded values in normal form, flags, lengths and skipped lines (RFC 2616, section
    4.2). */
module Fields {
  import opened Chars
  import opened TextInts
  import opened Patricia
  import opened Keywords
  import opened Requests
  import opened Syntax
  import opened RoundTrip

  /** At the start of a line, after the end of another one. */
  ghost predicate AtLine(k: Parser) { Suspendable(k) && k.st == Nl && k.nl == 1 }

  /** `cs` takes the parser from one line start to another with the given request and text. */
  ghost predicate ReadsLines(k: Parser, cs: seq<Char>, rq: Request, text: Text)
    requires Suspendable(k)
  {
    var v := Run(k, cs);
    v.More? && AtLine(v.k) && v.k.hmask == k.hmask && v.k.rq == rq && v.k.text == text
  }

  // ---------------------------------------------------------------- names

  lemma NameStarts(k: Parser, c: Char)
    requires AtLine(k) && c != CR && c != LF && !IsBlank(c)
    ensures var k' := k.(b := k.m, nl := 0, ts := START, st := Header); Suspendable(k') && Step(k, c) == Step(k', c)
  {
    hide Requests.Step, Requests.DispatchLine;
    StepAgain(k, c);
  }

  lemma HeaderStep(k: Parser, c: Char)
    requires Suspendable(k) && k.st == Header && c != COLON
    requires Advance(HEADERS, k.ts, Lower(c)).Walked? && Advance(HEADERS, k.ts, Lower(c)).r == 0
    ensures Reads(k, [c], CoreOf(k)) && Run(k, [c]).k.ts == Advance(HEADERS, k.ts, Lower(c)).ts
  {
    hide Requests.Step, Requests.DispatchLine, WalkTrie;
    StepNext(k, c);
    One(k, c);
  }

  lemma {:induction false} HeaderWalk(k: Parser, w: seq<Char>)
    requires Suspendable(k) && k.st == Header && COLON !in w
    requires WalkWord(HEADERS, k.ts, LowerAll(w)).Walked? && WalkWord(HEADERS, k.ts, LowerAll(w)).r == 0
    requires NulFree(LowerAll(w))
    ensures Reads(k, w, CoreOf(k)) && Run(k, w).k.ts == WalkWord(HEADERS, k.ts, LowerAll(w)).ts
    decreases |w|
  {
    hide Requests.Ready;
    if w != [] {
      assert LowerAll(w)[1..] == LowerAll(w[1..]);
      AdvanceResult(HEADERS, k.ts, LowerAll(w));
      HeaderStep(k, w[0]);
      assert w == [w[0]] + w[1..];
      RunConcat(k, [w[0]], w[1..]);
      HeaderWalk(Run(k, [w[0]]).k, w[1..]);
    }
  }

  /** On a character that is no terminator a walk goes on or stops. */
  lemma AdvanceResult(t: Trie, ts: TrieState, w: seq<int>)
    requires w != [] && NulFree(w) && WalkWord(t, ts, w).Walked?
    ensures var a := Advance(t, ts, w[0]);
            a.Walked? && a.r in {0, -1} && (a.r == 0 ==> WalkWord(t, ts, w) == WalkWord(t, a.ts, w[1..]))
            && (a.r == -1 ==> WalkWord(t, ts, w).r == -1)
  {
  }

  lemma NameChars(name: seq<Char>, code: nat)
    requires 1 <= code < HEADER_NAMES && SameName(name, HeaderName(code))
    ensures name != [] && COLON !in name && NulFree(LowerAll(name))
    ensures name[0] != CR && name[0] != LF && !IsBlank(name[0])
  {
    NamesClean(code);
    forall j | 0 <= j < |name|
      ensures name[j] != COLON && name[j] != CR && name[j] != LF && !IsBlank(name[j]) && Lower(name[j]) != 0
    {
      assert Lower(name[j]) == Lower(HeaderName(code)[j] as int) && IsNameChar(HeaderName(code)[j]);
    }
  }

  lemma NameRead(k: Parser, name: seq<Char>, code: nat)
    requires AtLine(k) && 1 <= code < HEADER_NAMES && SameName(name, HeaderName(code))
    ensures Reads(k, name, CoreOf(k).(st := Header, nl := 0))
    ensures Finish(HEADERS, Run(k, name).k.ts, COLON) == Walked(code, Run(k, name).k.ts)
  {
    var k1 := k.(b := k.m, nl := 0, ts := START, st := Header);
    NameChars(name, code);
    SlotSpellsName(name, code);
    HeadersWellFormed();
    KnownWord(HEADERS, HEADER_SHAPE, LowerAll(name), HeaderSlot(code), COLON);
    NameStarts(k, name[0]);
    SameStart(k, k1, name);
    HeaderWalk(k1, name);
  }

  /** The colon resolves the name. */
  lemma ColonRead(k: Parser, code: nat)
    requires Suspendable(k) && k.st == Header && Finish(HEADERS, k.ts, COLON) == Walked(code, k.ts) && code > 0
    ensures Dispatch(k, COLON) == KeepName(k.(ts := START), OnName(k.(ts := START), code))
  {
    hide Requests.DispatchLine, WalkTrie;
  }

  // ---------------------------------------------------------------- collected values

  /** Inside a collected value, after the stretch `raw` of a line. */
  predicate InValue(k: Parser, raw: seq<Char>) {
    && k.est == Value && k.collect && k.nl == 0
    && k.st == if raw == [] || IsBlank(raw[|raw| - 1]) then ValueLead else Value
  }

  /** A line of a collected value has been read from `k` on; the text is now `t`. */
  ghost predicate Stored(v: Verdict, k: Parser, t: Text) {
    v.More? && AtLine(v.k) && v.k.est == Value && v.k.collect && v.k.hmask == k.hmask && v.k.rq == k.rq && v.k.text == t
  }

  lemma BlankKept(k: Parser, raw: seq<Char>, c: Char)
    requires Suspendable(k) && InValue(k, raw) && IsBlank(c) && (Kept(raw, c) != [] ==> k.text.CharFits())
    ensures var v := Step(k, c);
            && v.More? && v.k.st == ValueLead && v.k.est == Value && v.k.collect && v.k.nl == 0
            && v.k.hmask == k.hmask && v.k.rq == k.rq && v.k.text == WithChars(k.text, Kept(raw, c))
  {
    hide Requests.Step, Requests.DispatchLine;
    StepNext(k, c);
    assert k.text.chars + [] == k.text.chars;
  }

  lemma CharKept(k: Parser, raw: seq<Char>, c: Char)
    requires Suspendable(k) && InValue(k, raw) && !IsBlank(c) && c != CR && c != LF && c != H_EOF && k.text.CharFits()
    ensures var v := Step(k, c);
            && v.More? && v.k.st == Value && v.k.est == Value && v.k.collect && v.k.nl == 0
            && v.k.hmask == k.hmask && v.k.rq == k.rq && v.k.text == WithChars(k.text, [c])
  {
    hide Requests.Step, Requests.DispatchLine;
    if k.st == ValueLead {
      LeadEnds(k, c);
      StepNext(k.(b := k.m, st := Value), c);
    } else {
      StepNext(k, c);
    }
  }

  lemma ValueStep(k: Parser, raw: seq<Char>, c: Char)
    requires Suspendable(k) && InValue(k, raw) && c != CR && c != LF && c != H_EOF
    requires WithChars(k.text, Kept(raw, c)).Fits()
    ensures var v := Step(k, c);
            && v.More? && InValue(v.k, raw + [c]) && v.k.hmask == k.hmask && v.k.rq == k.rq
            && v.k.text == WithChars(k.text, Kept(raw, c))
  {
    if IsBlank(c) {
      BlankKept(k, raw, c);
    } else {
      CharKept(k, raw, c);
    }
  }

  /** A stretch of a value is stored squeezed. */
  lemma {:induction false} ValueRead(k: Parser, raw: seq<Char>)
    requires Suspendable(k) && InValue(k, []) && Plain(raw) && WithChars(k.text, Squeeze(raw)).Fits()
    ensures var v := Run(k, raw);
            && v.More? && InValue(v.k, raw) && v.k.hmask == k.hmask && v.k.rq == k.rq
            && v.k.text == WithChars(k.text, Squeeze(raw))
    decreases |raw|
  {
    hide Requests.Step, Suspendable;
    if raw == [] {
      assert k.text.chars + [] == k.text.chars;
    } else {
      var t, c := raw[..|raw| - 1], raw[|raw| - 1];
      assert raw == t + [c];
      ValueRead(k, t);
      Snoc(k, t, c);
      assert k.text.chars + Squeeze(t) + Kept(t, c) == k.text.chars + Squeeze(raw);
      ValueStep(Run(k, t).k, t, c);
    }
  }

  /** Leading blanks are over: the value state takes the byte. */
  lemma LeadEnds(k: Parser, c: Char)
    requires Suspendable(k) && k.st == ValueLead && k.est == Value && k.nl == 0 && k.collect && !IsBlank(c)
    ensures var k' := k.(b := k.m, st := Value); Suspendable(k') && Step(k, c) == Step(k', c)
  {
    hide Requests.Step, Requests.DispatchLine;
    StepAgain(k, c);
  }

  lemma ValueEndStarts(k: Parser, c: Char)
    requires Suspendable(k) && k.st == Value && k.est == Value && k.collect && k.nl == 0 && k.text.CharFits()
             && (c == CR || c == LF)
    ensures Step(k, c)
         == More(k.(b := k.m, st := if c == CR then Cr else Nl, nl := if c == CR then 0 else 1, m := k.m + 1,
                    text := WithChars(k.text, [NUL])))
  {
    hide Requests.Step, Requests.DispatchLine, InTree;
    StepNext(k, c);
  }

  lemma ValueEndsAt(k: Parser, lf: bool)
    requires Suspendable(k) && k.st == Value && k.est == Value && k.collect && k.nl == 0 && k.text.CharFits()
    ensures Stored(Run(k, Eol(lf)), k, WithChars(k.text, [NUL]))
  {
    hide Requests.Step, Requests.Run;
    ValueEndStarts(k, if lf then LF else CR);
    LineEnds(k, lf);
  }

  lemma ValueEnds(k: Parser, raw: seq<Char>, lf: bool)
    requires Suspendable(k) && InValue(k, raw) && k.text.CharFits()
    ensures Stored(Run(k, Eol(lf)), k, WithChars(k.text, [NUL]))
  {
    var k' := k.(b := k.m, st := Value);
    if k.st == ValueLead {
      LeadEnds(k, Eol(lf)[0]);
      SameStart(k, k', Eol(lf));
      ValueEndsAt(k', lf);
    } else {
      ValueEndsAt(k, lf);
    }
  }

  /** A line of a value is stored squeezed and closed with a NUL. */
  lemma ValueLineRead(k: Parser, l: Line)
    requires Suspendable(k) && InValue(k, []) && Plain(l.raw) && WithChars(k.text, Squeeze(l.raw) + [NUL]).Fits()
    ensures Stored(Run(k, PrintLine(l)), k, WithChars(k.text, Squeeze(l.raw) + [NUL]))
  {
    hide Requests.Step, Requests.Run;
    ValueRead(k, l.raw);
    RunConcat(k, l.raw, Eol(l.lf));
    ValueEnds(Run(k, l.raw).k, l.raw, l.lf);
    assert k.text.chars + Squeeze(l.raw) + [NUL] == k.text.chars + (Squeeze(l.raw) + [NUL]);
  }

  lemma ContinuationStarts(k: Parser, c: Char)
    requires Suspendable(k) && k.st == Cont && k.collect && k.est == Value && k.nl == 0
    ensures var k' := k.(st := ValueLead, text := k.text.(chars := k.text.chars[|k.text.chars| - 1 := SP]));
            Suspendable(k') && Step(k, c) == Step(k', c)
  {
    hide Requests.Step, Requests.DispatchLine;
    StepAgain(k, c);
  }

  lemma FoldBlank(k: Parser, blank: Char)
    requires AtLine(k) && IsBlank(blank)
    ensures Step(k, blank) == More(k.(b := k.m, nl := 0, st := Cont, m := k.m + 1))
  {
    hide Requests.Step, Requests.DispatchLine;
    StepNext(k, blank);
  }

  lemma ContinuationRead(k: Parser, l: Line, u: Text)
    requires Suspendable(k) && k.st == Cont && k.collect && k.est == Value && k.nl == 0 && k.text == WithChars(u, [NUL])
    requires Plain(l.raw) && WithChars(u, [SP] + (Squeeze(l.raw) + [NUL])).Fits()
    ensures Stored(Run(k, PrintLine(l)), k, WithChars(u, [SP] + (Squeeze(l.raw) + [NUL])))
  {
    var k' := k.(st := ValueLead, text := WithChars(u, [SP]));
    assert k.text.chars[|k.text.chars| - 1 := SP] == u.chars + [SP];
    ContinuationStarts(k, PrintLine(l)[0]);
    SameStart(k, k', PrintLine(l));
    TextJoins(u, [SP], Squeeze(l.raw) + [NUL]);
    ValueLineRead(k', l);
  }

  /** A continuation line turns the NUL before it into a space and goes on. */
  lemma FoldRead(k: Parser, f: Fold, u: Text)
    requires AtLine(k) && k.collect && k.est == Value && ValidFold(f) && k.text == WithChars(u, [NUL])
    requires WithChars(u, [SP] + (Squeeze(f.line.raw) + [NUL])).Fits()
    ensures Stored(Run(k, [f.blank] + PrintLine(f.line)), k, WithChars(u, [SP] + (Squeeze(f.line.raw) + [NUL])))
  {
    hide Requests.Step, Requests.Run;
    FoldBlank(k, f.blank);
    Cons(k, f.blank, PrintLine(f.line));
    ContinuationRead(Step(k, f.blank).k, f.line, u);
  }

  lemma {:induction false} UnfoldGrows(first: Line, more: seq<Fold>)
    requires more != []
    ensures |Unfold(first, more[..|more| - 1])| + 1 <= |Unfold(first, more)|
  {
  }

  lemma TextJoins(t: Text, a: seq<Char>, b: seq<Char>)
    ensures WithChars(WithChars(t, a), b) == WithChars(t, a + b)
  {
    assert t.chars + a + b == t.chars + (a + b);
  }

  lemma FoldsSplit(first: Line, more: seq<Fold>)
    requires more != []
    ensures var (rest, f) := (more[..|more| - 1], more[|more| - 1]);
            && PrintLine(first) + PrintFolds(more) == (PrintLine(first) + PrintFolds(rest))
               + ([f.blank] + PrintLine(f.line))
            && Unfold(first, more) + [NUL] == Unfold(first, rest) + ([SP] + (Squeeze(f.line.raw) + [NUL]))
  {
  }

  /** Folding normal form: the stored value is the squeezed lines joined by single spaces, with a NUL. */
  lemma {:induction false} ValueFoldsRead(k: Parser, first: Line, more: seq<Fold>)
    requires Suspendable(k) && InValue(k, []) && Plain(first.raw) && forall i :: 0 <= i < |more| ==> ValidFold(more[i])
    requires WithChars(k.text, Unfold(first, more) + [NUL]).Fits()
    ensures Stored(Run(k, PrintLine(first) + PrintFolds(more)), k, WithChars(k.text, Unfold(first, more) + [NUL]))
    decreases |more|
  {
    if more == [] {
      assert PrintLine(first) + [] == PrintLine(first);
      ValueLineRead(k, first);
    } else {
      var rest, f := more[..|more| - 1], more[|more| - 1];
      FoldsSplit(first, more);
      UnfoldGrows(first, more);
      ValueFoldsRead(k, first, rest);
      LastFoldRead(k, PrintLine(first) + PrintFolds(rest), f, Unfold(first, rest));
    }
  }

  lemma LastFoldRead(k: Parser, cs: seq<Char>, f: Fold, u: seq<Char>)
    requires Suspendable(k) && ValidFold(f) && Stored(Run(k, cs), k, WithChars(k.text, u + [NUL]))
    requires WithChars(k.text, u + ([SP] + (Squeeze(f.line.raw) + [NUL]))).Fits()
    ensures Stored(Run(k, cs + ([f.blank] + PrintLine(f.line))), k,
            WithChars(k.text, u + ([SP] + (Squeeze(f.line.raw) + [NUL]))))
  {
    hide Requests.Step, Requests.Run;
    RunConcat(k, cs, [f.blank] + PrintLine(f.line));
    TextJoins(k.text, u, [NUL]);
    TextJoins(k.text, u, [SP] + (Squeeze(f.line.raw) + [NUL]));
    FoldRead(Run(k, cs).k, f, WithChars(k.text, u));
  }

  /** The colon of a collected field stores its code and where its value starts. */
  lemma CollectedColon(k: Parser, code: nat)
    requires Suspendable(k) && k.st == Header && k.nl == 0 && Finish(HEADERS, k.ts, COLON) == Walked(code, k.ts)
    requires code > 0 && !IsInterpreted(code) && code in k.hmask
    requires |k.text.chars| + 4 * (|k.text.ints| + 2) < k.text.size
    ensures var v := Step(k, COLON);
            && v.More? && InValue(v.k, []) && v.k.hmask == k.hmask && v.k.rq == k.rq
            && v.k.text == k.text.(ints := k.text.ints + [code, |k.text.chars|])
  {
    hide Requests.Step, Requests.Dispatch, WalkTrie;
    ColonRead(k, code);
    StepNext(k, COLON);
  }

  lemma CollectedPrinted(f: Field, hmask: set<nat>, t: Text)
    requires f.Text_? && f.code in hmask
    ensures PrintField(f) == f.name + ([COLON] + (PrintLine(f.first) + PrintFolds(f.more)))
    ensures WithChars(t.(ints := t.ints + [f.code, |t.chars|]), Unfold(f.first, f.more) + [NUL])
            == FieldText(f, hmask, t)
  {
    assert t.chars + (Unfold(f.first, f.more) + [NUL]) == t.chars + Unfold(f.first, f.more) + [NUL];
  }

  lemma CollectedRead(k: Parser, f: Field)
    requires AtLine(k) && f.Text_? && ValidField(f) && f.code in k.hmask && FieldText(f, k.hmask, k.text).Fits()
    ensures ReadsLines(k, PrintField(f), k.rq, FieldText(f, k.hmask, k.text)) && Run(k, PrintField(f)).k.collect
  {
    hide Requests.Step, Requests.Run, Requests.Ready, PrintField, FieldText, PrintLine, PrintFolds, Unfold;
    var rest := PrintLine(f.first) + PrintFolds(f.more);
    CollectedPrinted(f, k.hmask, k.text);
    NameRead(k, f.name, f.code);
    var k1 := Run(k, f.name).k;
    RunConcat(k, f.name, [COLON] + rest);
    CollectedColon(k1, f.code);
    Cons(k1, COLON, rest);
    ValueFoldsRead(Step(k1, COLON).k, f.first, f.more);
  }

  // ---------------------------------------------------------------- skipped lines

  lemma {:induction false} SkipRead(k: Parser, raw: seq<Char>)
    requires Suspendable(k) && k.st == SkipLine && k.nl == 0 && Plain(raw)
    ensures Reads(k, raw, CoreOf(k)) && Run(k, raw).k.collect == k.collect
    decreases |raw|
  {
    hide Requests.DispatchLine, Requests.Step;
    if raw != [] {
      StepNext(k, raw[0]);
      SkipRead(k.(b := k.m, m := k.m + 1), raw[1..]);
    }
  }

  lemma SkipEndStarts(k: Parser, c: Char)
    requires Ready(k) && k.st == SkipLine && k.nl == 0 && (c == CR || c == LF)
    ensures Step(k, c)
         == More(k.(b := k.m, st := if c == CR then Cr else Nl, nl := if c == CR then 0 else 1, m := k.m + 1))
  {
    hide Requests.Step, Requests.DispatchLine;
    StepNext(k, c);
  }

  lemma SkipEnds(k: Parser, lf: bool)
    requires Suspendable(k) && k.st == SkipLine && k.nl == 0
    ensures ReadsLines(k, Eol(lf), k.rq, k.text) && Run(k, Eol(lf)).k.collect == k.collect
  {
    hide Requests.Step, Requests.Run;
    SkipEndStarts(k, if lf then LF else CR);
    LineEnds(k, lf);
  }

  lemma SkipLineRead(k: Parser, l: Line)
    requires Suspendable(k) && k.st == SkipLine && k.nl == 0 && Plain(l.raw)
    ensures ReadsLines(k, PrintLine(l), k.rq, k.text) && Run(k, PrintLine(l)).k.collect == k.collect
  {
    hide Requests.Step, Requests.Run;
    SkipRead(k, l.raw);
    RunConcat(k, l.raw, Eol(l.lf));
    SkipEnds(Run(k, l.raw).k, l.lf);
  }

  lemma SkippedFoldStarts(k: Parser, c: Char)
    requires Suspendable(k) && k.st == Cont && !k.collect && k.nl == 0
    ensures var k' := k.(st := SkipLine); Suspendable(k') && Step(k, c) == Step(k', c)
  {
    hide Requests.Step, Requests.DispatchLine;
    StepAgain(k, c);
  }

  lemma SkippedFoldRead(k: Parser, f: Fold)
    requires AtLine(k) && !k.collect && ValidFold(f)
    ensures ReadsLines(k, [f.blank] + PrintLine(f.line), k.rq, k.text)
            && !Run(k, [f.blank] + PrintLine(f.line)).k.collect
  {
    Cons(k, f.blank, PrintLine(f.line));
    var k1 := Step(k, f.blank).k;
    SkippedFoldStarts(k1, PrintLine(f.line)[0]);
    SameStart(k1, k1.(st := SkipLine), PrintLine(f.line));
    SkipLineRead(k1.(st := SkipLine), f.line);
  }

  lemma {:induction false} SkippedFoldsRead(k: Parser, first: Line, more: seq<Fold>)
    requires Suspendable(k) && k.st == SkipLine && k.nl == 0 && !k.collect
    requires Plain(first.raw) && forall i :: 0 <= i < |more| ==> ValidFold(more[i])
    ensures var cs := PrintLine(first) + PrintFolds(more); ReadsLines(k, cs, k.rq, k.text) && !Run(k, cs).k.collect
    decreases |more|
  {
    if more == [] {
      assert PrintLine(first) + [] == PrintLine(first);
      SkipLineRead(k, first);
    } else {
      var rest, f := more[..|more| - 1], more[|more| - 1];
      var cs := PrintLine(first) + PrintFolds(rest);
      assert PrintLine(first) + PrintFolds(more) == cs + ([f.blank] + PrintLine(f.line));
      SkippedFoldsRead(k, first, rest);
      RunConcat(k, cs, [f.blank] + PrintLine(f.line));
      SkippedFoldRead(Run(k, cs).k, f);
    }
  }

  lemma UncollectedColon(k: Parser, code: nat)
    requires Suspendable(k) && k.st == Header && k.nl == 0 && Finish(HEADERS, k.ts, COLON) == Walked(code, k.ts)
    requires code > 0 && !IsInterpreted(code) && code !in k.hmask
    ensures Reads(k, [COLON], CoreOf(k).(st := SkipLine)) && !Run(k, [COLON]).k.collect
  {
    hide Requests.Step, Requests.Dispatch, WalkTrie;
    ColonRead(k, code);
    StepNext(k, COLON);
    One(k, COLON);
  }

  lemma UncollectedRead(k: Parser, f: Field)
    requires AtLine(k) && f.Text_? && ValidField(f) && f.code !in k.hmask
    ensures ReadsLines(k, PrintField(f), k.rq, k.text)
  {
    hide Requests.Step, Requests.Run;
    var rest := PrintLine(f.first) + PrintFolds(f.more);
    NameRead(k, f.name, f.code);
    var k1 := Run(k, f.name).k;
    assert PrintField(f) == f.name + ([COLON] + rest);
    RunConcat(k, f.name, [COLON] + rest);
    UncollectedColon(k1, f.code);
    RunConcat(k1, [COLON], rest);
    SkippedFoldsRead(Run(k1, [COLON]).k, f.first, f.more);
  }

  /** A name the table does not hold stops the walk, at the colon at the latest. */
  ghost predicate Stops(ts: TrieState, w: seq<int>) {
    var r := WalkWord(HEADERS, ts, w);
    r.Walked?
      && (r.r == -1 || (r.r == 0 && Finish(HEADERS, r.ts, COLON).Walked? && Finish(HEADERS, r.ts, COLON).r == -1))
  }

  lemma WalkFails(k: Parser, c: Char)
    requires Suspendable(k) && k.st == Header && k.nl == 0 && c != CR && c != LF && c != H_EOF
    requires Look(HEADERS, k.ts, Lower(c), Lower(c) == COLON).Walked?
             && Look(HEADERS, k.ts, Lower(c), Lower(c) == COLON).r == -1
    ensures Reads(k, [c], CoreOf(k).(st := SkipLine))
  {
    hide Requests.Step, Requests.DispatchLine, WalkTrie;
    StepAgain(k, c);
    StepNext(Dispatch(k, c).k, Lower(c));
    One(k, c);
  }

  lemma {:induction false} OtherNameRead(k: Parser, w: seq<Char>)
    requires Suspendable(k) && k.st == Header && k.nl == 0 && Plain(w) && COLON !in w && NulFree(LowerAll(w))
    requires Stops(k.ts, LowerAll(w))
    ensures Reads(k, w + [COLON], CoreOf(k).(st := SkipLine))
    decreases |w|
  {
    hide Requests.Step, WalkTrie;
    if w == [] {
      assert w + [COLON] == [COLON];
      WalkFails(k, COLON);
    } else {
      var rest := w[1..] + [COLON];
      assert w + [COLON] == [w[0]] + rest && LowerAll(w)[1..] == LowerAll(w[1..]);
      AdvanceResult(HEADERS, k.ts, LowerAll(w));
      RunConcat(k, [w[0]], rest);
      if Advance(HEADERS, k.ts, Lower(w[0])).r == 0 {
        HeaderStep(k, w[0]);
        OtherNameRead(Run(k, [w[0]]).k, w[1..]);
      } else {
        WalkFails(k, w[0]);
        SkipRead(Run(k, [w[0]]).k, rest);
      }
    }
  }

  lemma UnrecognisedStops(name: seq<Char>)
    requires Unrecognised(name) && NulFree(LowerAll(name))
    ensures Stops(START, LowerAll(name))
  {
    HeadersWellFormed();
    LookupReports(HEADERS, HEADER_SHAPE, LowerAll(name), COLON);
    WalkWordFollows(HEADERS, HEADER_SHAPE, [], START, LowerAll(name));
  }

  lemma OtherRead(k: Parser, f: Field)
    requires AtLine(k) && f.Other_? && ValidField(f)
    ensures ReadsLines(k, PrintField(f), k.rq, k.text)
  {
    hide Requests.Step, Requests.Run;
    var k1 := k.(b := k.m, nl := 0, ts := START, st := Header);
    var cs := f.name + [COLON];
    UnrecognisedStops(f.name);
    NameStarts(k, f.name[0]);
    SameStart(k, k1, cs);
    OtherNameRead(k1, f.name);
    RunConcat(k, cs, PrintLine(f.rest));
    SkipLineRead(Run(k1, cs).k, f.rest);
  }

  // ---------------------------------------------------------------- flags and lengths

  /** The fields the parser interprets start by skipping blanks. */
  function InterpretedState(code: nat): State {
    if code == RQ_CONNECTION then HeadConnection
    else if code == RQ_EXPECT then HeadExpect
    else if code == RQ_TRANSFER_ENCODING then HeadTransferEncoding
    else HeadContentLength
  }

  ghost predicate AtInterpreted(v: Verdict, k: Parser, code: nat) {
    && v.More? && Suspendable(v.k) && v.k.st == ValueLead && v.k.est == InterpretedState(code) && v.k.ts == START
    && v.k.nl == 0 && (code == RQ_CONTENT_LENGTH ==> v.k.esc == 0)
    && v.k.hmask == k.hmask && v.k.rq == k.rq && v.k.text == k.text
  }

  lemma InterpretedColon(k: Parser, code: nat)
    requires Suspendable(k) && k.st == Header && k.nl == 0 && Finish(HEADERS, k.ts, COLON) == Walked(code, k.ts)
    requires IsInterpreted(code)
    ensures AtInterpreted(Run(k, [COLON]), k, code)
  {
    hide Requests.Step, Requests.Dispatch, WalkTrie;
    ColonRead(k, code);
    StepNext(k, COLON);
    One(k, COLON);
  }

  lemma {:induction false} LeadRead(k: Parser, lead: seq<Char>, code: nat)
    requires Suspendable(k) && AtInterpreted(More(k), k, code) && Blanks(lead)
    ensures AtInterpreted(Run(k, lead), k, code)
    decreases |lead|
  {
    if lead != [] {
      LeadRead(k.(m := k.m + 1), lead[1..], code);
    }
  }

  lemma InterpretedRead(k: Parser, name: seq<Char>, code: nat, lead: seq<Char>)
    requires AtLine(k) && IsInterpreted(code) && SameName(name, HeaderName(code)) && Blanks(lead)
    ensures AtInterpreted(Run(k, name + ([COLON] + lead)), k, code)
  {
    hide Requests.Step, Requests.Run;
    NameRead(k, name, code);
    var k1 := Run(k, name).k;
    RunConcat(k, name, [COLON] + lead);
    InterpretedColon(k1, code);
    RunConcat(k1, [COLON], lead);
    LeadRead(Run(k1, [COLON]).k, lead, code);
  }

  lemma LengthStarts(k: Parser, c: Char)
    requires Suspendable(k) && k.st == ValueLead && k.est == HeadContentLength && k.nl == 0 && !IsBlank(c)
    ensures var k' := k.(b := k.m, st := HeadContentLength); Suspendable(k') && Step(k, c) == Step(k', c)
  {
    hide Requests.Step, Requests.DispatchLine;
    StepAgain(k, c);
  }

  lemma MultiplesVanish(x: int, q: int)
    ensures (x + q * U32) % U32 == x % U32
  {
  }

  lemma DecimalAppends(n: nat, c: Char)
    requires IsDigit(c)
    ensures Decimal(n % U32, c) == (n * 10 + (c - '0' as int)) % U32
  {
    var q, d := n / U32, c - '0' as int;
    MultiplesVanish(n % U32 * 10 + d, 10 * q);
  }

  lemma {:induction false} NumberNat(digits: seq<Char>)
    requires Digits(digits)
    ensures Number(digits) >= 0
    decreases |digits|
  {
    if digits != [] {
      NumberNat(digits[..|digits| - 1]);
    }
  }

  lemma DigitRead(k: Parser, c: Char)
    requires Suspendable(k) && k.st == HeadContentLength && IsDigit(c)
    ensures Step(k, c) == More(k.(esc := Decimal(k.esc, c), m := k.m + 1))
  {
    hide Decimal, Requests.Step, Requests.DispatchLine;
    StepNext(k, c);
  }

  lemma {:induction false} DigitsRead(k: Parser, digits: seq<Char>)
    requires Suspendable(k) && k.st == HeadContentLength && k.esc == 0 && Digits(digits)
    ensures Reads(k, digits, CoreOf(k)) && Run(k, digits).k.esc == Number(digits) % U32
    decreases |digits|
  {
    hide Requests.Step, Decimal, Ready;
    if digits != [] {
      var t, c := digits[..|digits| - 1], digits[|digits| - 1];
      assert digits == t + [c];
      NumberNat(t);
      DigitsRead(k, t);
      DecimalAppends(Number(t), c);
      Snoc(k, t, c);
      DigitRead(Run(k, t).k, c);
    }
  }

  lemma LengthCounts(k: Parser)
    requires Suspendable(k) && k.st == HeadContentLength && k.nl == 0
    ensures Step(k, CR)
         == More(k.(st := Cr, m := k.m + 1, rq := k.rq.(flags := k.rq.flags + {CONTENT_LENGTH},
           contentLength := k.esc)))
  {
    hide Requests.Step, Requests.DispatchLine, InTree, OnNl, OnHeader, OnFlag, OnValue;
    StepNext(k, CR);
  }

  lemma LengthIsLost(k: Parser)
    requires Suspendable(k) && k.st == HeadContentLength && k.nl == 0
    ensures Step(k, LF) == More(k.(st := Nl, nl := 1, m := k.m + 1))
  {
    hide Requests.Step, Requests.DispatchLine, InTree;
    StepAgain(k, LF);
    StepNext(k.(st := Cr), LF);
  }

  /** A length is recorded at CR; a lone LF ends the line without recording it. */
  lemma LengthEnds(k: Parser, lf: bool)
    requires Suspendable(k) && k.st == HeadContentLength && k.nl == 0
    ensures ReadsLines(k, Eol(lf),
              if lf then k.rq else k.rq.(flags := k.rq.flags + {CONTENT_LENGTH}, contentLength := k.esc), k.text)
  {
    hide Requests.Step, Requests.Run;
    if lf {
      LengthIsLost(k);
    } else {
      LengthCounts(k);
    }
    LineEnds(k, lf);
  }

  lemma LengthRead(k: Parser, f: Field)
    requires AtLine(k) && f.Length_? && ValidField(f)
    ensures ReadsLines(k, PrintField(f), FieldRequest(f, k.rq), k.text)
  {
    hide Requests.Step, Requests.Run;
    var start, value := f.name + ([COLON] + f.lead), f.digits + Eol(f.lf);
    assert PrintField(f) == start + value;
    InterpretedRead(k, f.name, RQ_CONTENT_LENGTH, f.lead);
    RunConcat(k, start, value);
    var k1 := Run(k, start).k;
    var k2 := k1.(b := k1.m, st := HeadContentLength);
    LengthStarts(k1, value[0]);
    SameStart(k1, k2, value);
    DigitsRead(k2, f.digits);
    RunConcat(k2, f.digits, Eol(f.lf));
    LengthEnds(Run(k2, f.digits).k, f.lf);
  }

  function FlagStart(bit: nat): nat { if bit == CLOSE || bit == KEEP then 20 else if bit == CONTINUE then 30 else 25 }

  function FlagSlot(bit: nat): nat {
    if bit == CLOSE then 4 else if bit == KEEP then 12 else if bit == CONTINUE then 26 else 5
  }

  predicate IsFlagBit(bit: nat) { bit in {CLOSE, KEEP, CONTINUE, CHUNKED} }

  lemma FlagWords(bit: nat)
    requires IsFlagBit(bit)
    ensures var (s, sh) := (FlagSlot(bit), UtilityShape(FlagStart(bit)));
            s in sh.text && sh.text[s] == Codes(FlagWord(bit)) && UTILITY[s].terminal == bit
    ensures FlagWord(bit) != ""
    ensures forall i :: 0 <= i < |FlagWord(bit)| ==> Lower(FlagWord(bit)[i] as int) == FlagWord(bit)[i] as int > 32
  {
  }

  lemma FlagWordKnown(word: seq<Char>, bit: nat)
    requires IsFlagBit(bit) && SameName(word, FlagWord(bit))
    ensures LowerAll(word) == Codes(FlagWord(bit)) && word != [] && NulFree(LowerAll(word))
    ensures forall i :: 0 <= i < |word| ==> word[i] > 32
  {
    FlagWords(bit);
    forall i | 0 <= i < |word|
      ensures Lower(word[i]) == FlagWord(bit)[i] as int
    {
    }
  }

  /** The value is walked to its end, and whatever terminates it reports the bit. */
  lemma FlagWordWalked(word: seq<Char>, bit: nat)
    requires IsFlagBit(bit) && SameName(word, FlagWord(bit))
    ensures var t := UtilityTrie(FlagStart(bit));
            var r := WalkWord(t, START, LowerAll(word));
            && r.Walked? && r.r == 0
            && (forall sep :: Finish(t, r.ts, sep) == Walked(bit, r.ts))
            && word != [] && NulFree(LowerAll(word))
  {
    var t, sh, w := UtilityTrie(FlagStart(bit)), UtilityShape(FlagStart(bit)), LowerAll(word);
    FlagWords(bit);
    FlagWordKnown(word, bit);
    UtilityWellFormed(FlagStart(bit));
    forall sep
      ensures WalkWord(t, START, w).Walked? && WalkWord(t, START, w).r == 0
      ensures Finish(t, WalkWord(t, START, w).ts, sep) == Walked(bit, WalkWord(t, START, w).ts)
    {
      KnownWord(t, sh, w, FlagSlot(bit), sep);
    }
    KnownWord(t, sh, w, FlagSlot(bit), CR);
  }

  /** From the blanks before a value to its first character: the start pointer is set and used at once. */
  lemma FlagEnters(k: Parser, c: Char, start: nat)
    requires Suspendable(k) && k.st == ValueLead && IsFlagState(k.est) && k.nl == 0 && k.ts == START && !IsBlank(c)
    requires start == (if k.est == HeadConnection then 20 else if k.est == HeadExpect then 30 else 25)
    ensures var k' := k.(b := k.m, flag := UtilityTrie(start).root, st := HeadFlag);
            Ready(k') && Step(k, c) == Step(k', c)
  {
    hide Requests.Step, Requests.DispatchLine;
    StepAgain(k, c);
    StepAgain(k.(b := k.m, st := k.est), c);
  }

  lemma FlagStep(k: Parser, c: Char)
    requires Ready(k) && k.st == HeadFlag && k.nl == 0 && c > 32
    requires Advance(FlagTrie(k), k.ts, Lower(c)).Walked? && Advance(FlagTrie(k), k.ts, Lower(c)).r == 0
    ensures Step(k, c) == More(k.(ts := Advance(FlagTrie(k), k.ts, Lower(c)).ts, m := k.m + 1))
  {
    hide Requests.Step, Requests.DispatchLine, WalkTrie;
    StepNext(k, c);
  }

  lemma {:induction false} FlagWalk(k: Parser, w: seq<Char>)
    requires Suspendable(k) && k.st == HeadFlag && k.nl == 0 && forall i :: 0 <= i < |w| ==> w[i] > 32
    requires NulFree(LowerAll(w))
    requires WalkWord(FlagTrie(k), k.ts, LowerAll(w)).Walked? && WalkWord(FlagTrie(k), k.ts, LowerAll(w)).r == 0
    ensures Reads(k, w, CoreOf(k)) && Run(k, w).k.flag == k.flag
    ensures Run(k, w).k.ts == WalkWord(FlagTrie(k), k.ts, LowerAll(w)).ts
    decreases |w|
  {
    if w != [] {
      assert LowerAll(w)[1..] == LowerAll(w[1..]);
      AdvanceResult(FlagTrie(k), k.ts, LowerAll(w));
      FlagStep(k, w[0]);
      FlagWalk(Step(k, w[0]).k, w[1..]);
    }
  }

  lemma OneBit(bit: nat)
    requires IsFlagBit(bit)
    ensures Bits(bit) == {bit}
  {
  }

  /** The end of the line resolves the value and skips the rest of the line. */
  lemma FlagResolves(k: Parser, bit: nat, c: Char)
    requires Ready(k) && k.st == HeadFlag && bit > 0 && (c == CR || c == LF)
             && Finish(FlagTrie(k), k.ts, c) == Walked(bit, k.ts)
    ensures Dispatch(k, c) == Again(k.(rq := k.rq.(flags := k.rq.flags + Bits(bit)), b := k.m, st := SkipLine), c)
  {
    hide Requests.Ready, Requests.DispatchLine, WalkTrie;
  }

  lemma FlagEnds(k: Parser, bit: nat, lf: bool)
    requires Suspendable(k) && k.st == HeadFlag && k.nl == 0 && IsFlagBit(bit)
    requires forall sep :: Finish(FlagTrie(k), k.ts, sep) == Walked(bit, k.ts)
    ensures ReadsLines(k, Eol(lf), k.rq.(flags := k.rq.flags + {bit}), k.text)
  {
    hide Requests.Step, Requests.Run, Requests.Dispatch, FlagTrie;
    var c := if lf then LF else CR;
    OneBit(bit);
    FlagResolves(k, bit, c);
    StepAgain(k, c);
    SkipEndStarts(k.(rq := k.rq.(flags := k.rq.flags + Bits(bit)), b := k.m, st := SkipLine), c);
    LineEnds(k, lf);
  }

  lemma FlagTrieOf(k: Parser, start: nat)
    requires k.flag == UtilityTrie(start).root
    ensures FlagTrie(k) == UtilityTrie(start)
  {
  }

  lemma LowerTail(w: seq<Char>)
    requires w != []
    ensures LowerAll(w)[1..] == LowerAll(w[1..]) && LowerAll(w)[0] == Lower(w[0])
  {
  }

  lemma FlagWordRead(k: Parser, word: seq<Char>, bit: nat)
    requires Suspendable(k) && AtInterpreted(More(k), k, FlagHeader(bit)) && IsFlagBit(bit)
             && SameName(word, FlagWord(bit))
    ensures var v := Run(k, word);
            && Reads(k, word, CoreOf(k).(st := HeadFlag))
            && forall sep :: Finish(FlagTrie(v.k), v.k.ts, sep) == Walked(bit, v.k.ts)
  {
    hide Requests.Ready, Requests.Step, Requests.Run, WalkTrie, SameName, FlagWord, LowerAll, UtilityTrie;
    var t, w := UtilityTrie(FlagStart(bit)), LowerAll(word);
    FlagWordWalked(word, bit);
    FlagWordKnown(word, bit);
    var k' := k.(b := k.m, flag := t.root, st := HeadFlag);
    FlagTrieOf(k', FlagStart(bit));
    LowerTail(word);
    FlagEnters(k, word[0], FlagStart(bit));
    AdvanceResult(t, START, w);
    FlagStep(k', word[0]);
    assert word == [word[0]] + word[1..];
    Cons(k, word[0], word[1..]);
    FlagWalk(Step(k', word[0]).k, word[1..]);
  }

  lemma FlagRead(k: Parser, f: Field)
    requires AtLine(k) && f.Flag_? && ValidField(f)
    ensures ReadsLines(k, PrintField(f), FieldRequest(f, k.rq), k.text)
  {
    hide Requests.Step, Requests.Run;
    var start := f.name + ([COLON] + f.lead);
    assert PrintField(f) == start + (f.word + Eol(f.lf));
    InterpretedRead(k, f.name, f.code, f.lead);
    RunConcat(k, start, f.word + Eol(f.lf));
    var k1 := Run(k, start).k;
    FlagWordRead(k1, f.word, f.bit);
    RunConcat(k1, f.word, Eol(f.lf));
    FlagEnds(Run(k1, f.word).k, f.bit, f.lf);
  }

  // ---------------------------------------------------------------- all fields, the whole head

  lemma FieldRead(k: Parser, f: Field)
    requires AtLine(k) && ValidField(f) && FieldText(f, k.hmask, k.text).Fits()
    ensures ReadsLines(k, PrintField(f), FieldRequest(f, k.rq), FieldText(f, k.hmask, k.text))
  {
    match f
    case Text_(_, code, _, _) => if code in k.hmask { CollectedRead(k, f); } else { UncollectedRead(k, f); }
    case Flag_(_, _, _, _, _, _) => FlagRead(k, f);
    case Length_(_, _, _, _) => LengthRead(k, f);
    case Other_(_, _) => OtherRead(k, f);
  }

  lemma {:induction false} FieldsGrow(fs: seq<Field>, hmask: set<nat>, t: Text)
    requires FieldsText(fs, hmask, t).Fits()
    ensures t.Fits()
    decreases |fs|
  {
    if fs != [] {
      FieldsGrow(fs[1..], hmask, FieldText(fs[0], hmask, t));
    }
  }

  lemma {:induction false} FieldsRead(k: Parser, fs: seq<Field>)
    requires AtLine(k) && forall i :: 0 <= i < |fs| ==> ValidField(fs[i])
    requires FieldsText(fs, k.hmask, k.text).Fits()
    ensures ReadsLines(k, PrintFields(fs), FieldsRequest(fs, k.rq), FieldsText(fs, k.hmask, k.text))
    decreases |fs|
  {
    hide Requests.Step;
    if fs != [] {
      FieldsGrow(fs[1..], k.hmask, FieldText(fs[0], k.hmask, k.text));
      FieldRead(k, fs[0]);
      RunConcat(k, PrintField(fs[0]), PrintFields(fs[1..]));
      FieldsRead(Run(k, PrintField(fs[0])).k, fs[1..]);
    }
  }

  /** An empty line completes the head. */
  lemma EmptyLineEnds(k: Parser, lf: bool)
    requires AtLine(k)
    ensures var v := Run(k, Eol(lf)); v.Done? && v.k.rq == k.rq && v.k.text == k.text && v.k.m == k.m + |Eol(lf)|
  {
    hide Requests.Step, Requests.Run, Requests.DispatchLine, InTree;
    if lf {
      StepNext(k, LF);
      One(k, LF);
    } else {
      StepNext(k, CR);
      assert Eol(lf) == [CR] + [LF];
      Cons(k, CR, [LF]);
      var k1 := Step(k, CR).k;
      StepNext(k1, LF);
      One(k1, LF);
    }
  }

  lemma FieldsEnd(k: Parser, fs: seq<Field>, lf: bool)
    requires AtLine(k) && forall i :: 0 <= i < |fs| ==> ValidField(fs[i])
    requires FieldsText(fs, k.hmask, k.text).Fits()
    ensures var cs := PrintFields(fs) + Eol(lf);
            var v := Run(k, cs);
            && v.Done? && v.k.m == k.m + |cs|
            && v.k.rq == FieldsRequest(fs, k.rq) && v.k.text == FieldsText(fs, k.hmask, k.text)
  {
    hide Requests.Step, Requests.Run;
    FieldsRead(k, fs);
    RunConcat(k, PrintFields(fs), Eol(lf));
    EmptyLineEnds(Run(k, PrintFields(fs)).k, lf);
  }

  lemma MessageFits(g: Message, hmask: set<nat>, size: nat)
    requires MessageText(g, hmask, size).Fits()
    ensures WithChars(Text([NUL], [], size), TargetText(g)).Fits()
  {
    FieldsGrow(g.fields, hmask, Text([NUL] + TargetText(g), [], size));
  }

  /** Parsing undoes printing: a printed head is read to its last byte, and leaves exactly what it means. */
  lemma PrintedHeadParses(g: Message, hmask: set<nat>, m: nat, size: nat)
    requires size > 0 && ValidMessage(g) && MessageText(g, hmask, size).Fits()
    ensures var v := Run(Init(hmask, m, NO_REQUEST, size), Print(g));
            && v.Done? && v.k.m == m + |Print(g)|
            && v.k.rq == MessageRequest(g)
            && v.k.text == MessageText(g, hmask, size)
  {
    hide Requests.Step, Requests.Run, Ready, Dispatch, PrintRequestLine, PrintFields, FieldsText, FieldsRequest;
    var k := Init(hmask, m, NO_REQUEST, size);
    InitSuspendable(hmask, m, NO_REQUEST, size);
    MessageFits(g, hmask, size);
    BeforeSkipped(k, g.before);
    var line, rest := PrintRequestLine(g), PrintFields(g.fields) + Eol(g.endLf);
    RunConcat(k, g.before, line + rest);
    var k1 := Run(k, g.before).k;
    RequestLineRead(k1, g);
    RunConcat(k1, line, rest);
    FieldsEnd(Run(k1, line).k, g.fields, g.endLf);
  }

  // ---------------------------------------------------------------- trailers

  lemma FieldStarts(f: Field)
    requires ValidField(f)
    ensures f.name != [] && f.name[0] != CR && f.name[0] != LF && !IsBlank(f.name[0])
  {
    hide LowerAll, Unrecognised;
    match f
    case Text_(name, code, _, _) => NameChars(name, code);
    case Flag_(name, code, _, _, _, _) => NameChars(name, code);
    case Length_(name, _, _, _) => NameChars(name, RQ_CONTENT_LENGTH);
    case Other_(_, _) =>
  }

  /** Trailers with a field are read like the fields of a head, to their empty line. */
  lemma TrailersParse(hmask: set<nat>, m: nat, rq: Request, text: Text, fs: seq<Field>, lf: bool)
    requires text.chars != [] && fs != [] && (forall i :: 0 <= i < |fs| ==> ValidField(fs[i]))
    requires FieldsText(fs, hmask, text).Fits() && text.Fits()
    ensures var cs := PrintFields(fs) + Eol(lf);
            var v := Run(InitTrailers(hmask, m, rq, text), cs);
            && v.Done? && v.k.m == m + |cs| && v.k.rq == FieldsRequest(fs, rq)
            && v.k.text == FieldsText(fs, hmask, text)
  {
    hide Requests.Step, Requests.Run, ValidField, FieldsText, FieldsRequest, Dispatch;
    var k := InitTrailers(hmask, m, rq, text);
    TrailersSuspendable(hmask, m, rq, text);
    var k', cs := k.(st := Nl, nl := 1), PrintFields(fs) + Eol(lf);
    FieldStarts(fs[0]);
    assert cs[0] == fs[0].name[0];
    NameStarts(k', cs[0]);
    SameStart(k', k, cs);
    FieldsEnd(k', fs, lf);
  }

  lemma NoNameStarts(c: Char)
    requires c == CR || c == LF
    ensures Advance(HEADERS, START, c) == Walked(-1, START) && Lower(c) == c
  {
  }

  /** A line end where the first trailer could be starts a line of its own: it does not end the trailers. */
  lemma TrailerLineEnds(hmask: set<nat>, m: nat, rq: Request, text: Text, lf: bool)
    requires text.chars != [] && text.Fits()
    ensures var v := Run(InitTrailers(hmask, m, rq, text), Eol(lf));
            v.More? && AtLine(v.k) && v.k.rq == rq && v.k.text == text && v.k.m == m + |Eol(lf)| && v.k.hmask == hmask
  {
    hide Requests.Step, Requests.Run, Dispatch;
    var k := InitTrailers(hmask, m, rq, text);
    TrailersSuspendable(hmask, m, rq, text);
    var k' := k.(st := SkipLine);
    TrailerLineSkipped(k, Eol(lf)[0]);
    SameStart(k, k', Eol(lf));
    SkipEnds(k', lf);
  }

  lemma TrailerLineSkipped(k: Parser, c: Char)
    requires Suspendable(k) && k.st == Header && k.ts == START && k.nl == 0 && (c == CR || c == LF)
    ensures Suspendable(k.(st := SkipLine)) && Step(k, c) == Step(k.(st := SkipLine), c)
  {
    NoNameStarts(c);
    assert Dispatch(k, c) == Again(k.(st := SkipLine), c);
  }

  /** Trailers without a field end one line end later than they should (RFC 2616, section 3.6.1). */
  lemma EmptyTrailersParse(hmask: set<nat>, m: nat, rq: Request, text: Text, lf: bool, lf2: bool)
    requires text.chars != [] && text.Fits()
    ensures var v := Run(InitTrailers(hmask, m, rq, text), Eol(lf) + Eol(lf2));
            v.Done? && v.k.m == m + |Eol(lf) + Eol(lf2)| && v.k.rq == rq && v.k.text == text
  {
    hide Requests.Step, Requests.Run;
    var k := InitTrailers(hmask, m, rq, text);
    TrailersSuspendable(hmask, m, rq, text);
    TrailerLineEnds(hmask, m, rq, text, lf);
    RunConcat(k, Eol(lf), Eol(lf2));
    EmptyLineEnds(Run(k, Eol(lf)).k, lf2);
  }

  /** The trailers of RFC 2616 are complete at their empty line exactly when there is a field in them. */
  lemma TrailersEndIff(hmask: set<nat>, m: nat, rq: Request, text: Text, fs: seq<Field>, lf: bool)
    requires text.chars != [] && text.Fits() && (forall i :: 0 <= i < |fs| ==> ValidField(fs[i]))
    requires FieldsText(fs, hmask, text).Fits()
    ensures Suspendable(InitTrailers(hmask, m, rq, text))
    ensures Run(InitTrailers(hmask, m, rq, text), PrintFields(fs) + Eol(lf)).Done? <==> fs != []
  {
    hide Requests.Step, Requests.Run, ValidField;
    TrailersSuspendable(hmask, m, rq, text);
    if fs == [] {
      assert PrintFields(fs) + Eol(lf) == Eol(lf);
      TrailerLineEnds(hmask, m, rq, text, lf);
    } else {
      TrailersParse(hmask, m, rq, text, fs, lf);
    }
  }
}
