/** Where flags come from: on well folded input, a flag is only set by a line of its own field that states it. */
module Origins {
  import opened Chars
  import opened TextInts
  import opened Patricia
  import opened Keywords
  import opened Requests
  import opened Syntax
  import opened RoundTrip
  import opened Fields
  import opened Refusals
  import opened Safety

  // ---------------------------------------------------------------- names and values as the walks hear them

  predicate IsStop(c: int) { c == COLON || c == NUL }

  function Hearing(u: seq<int>, c: Char): seq<int> { if IsStop(c) then u else u + [Lower(c)] }

  /** A field name as the walk hears it: in lower case, and without the terminators that an inner row swallows. */
  function Heard(name: seq<Char>): (u: seq<int>)
    ensures LowerAll(u) == u
  {
    if name == [] then [] else Hearing(Heard(name[..|name| - 1]), name[|name| - 1])
  }

  ghost predicate HeaderAt(u: seq<int>, ts: TrieState) {
    HeadersWellFormed();
    At(HEADERS, HEADER_SHAPE, u, ts)
  }

  ghost predicate FlagAt(start: nat, u: seq<int>, ts: TrieState)
    requires IsRoot(start)
  {
    UtilityWellFormed(start);
    At(UtilityTrie(start), UtilityShape(start), u, ts)
  }

  lemma HeardSnoc(name: seq<Char>, c: Char)
    ensures Heard(name + [c]) == Hearing(Heard(name), c)
  {
    assert (name + [c])[..|name|] == name;
  }

  /** A terminator resolves a name that is in the table, and only there. */
  lemma NameResolved(u: seq<int>, ts: TrieState, sep: int)
    requires HeaderAt(u, ts) && LowerAll(u) == u
    ensures var w := Finish(HEADERS, ts, sep);
            w.Walked? && w.ts == ts && (w.r > 0 ==> w.r < HEADER_NAMES && SameName(u, HeaderName(w.r)))
  {
    hide WellFormed, WalkTrie, HeaderRow, HeaderText, SameName;
    HeadersWellFormed();
    FinishReports(HEADERS, HEADER_SHAPE, u, ts, sep);
    var r := Finish(HEADERS, ts, sep).r;
    if r > 0 {
      var s :| s in HEADER_SHAPE.text && HEADER_SHAPE.text[s] == u;
      SlotNamed(s);
      SlotSpellsName(u, r);
    }
  }

  /** A byte of a name. */
  lemma NameHeard(u: seq<int>, ts: TrieState, c: Char)
    requires HeaderAt(u, ts) && LowerAll(u) == u
    ensures var w := Look(HEADERS, ts, Lower(c), Lower(c) == COLON);
            && w.Walked? && (w.r == 0 ==> HeaderAt(Hearing(u, c), w.ts))
            && (w.r > 0 ==> IsStop(c) && w.r < HEADER_NAMES && SameName(u, HeaderName(w.r)))
  {
    hide WellFormed, WalkTrie, HeaderName, SameName;
    HeadersWellFormed();
    if IsStop(c) {
      NameResolved(u, ts, c);
    } else {
      AdvanceFollows(HEADERS, HEADER_SHAPE, u, ts, Lower(c));
    }
  }

  function StartOf(st: State): nat { if st == HeadConnection then 20 else if st == HeadExpect then 30 else 25 }

  /** A state that reads the word of an interpreted field. */
  predicate IsWordState(st: State) { IsFlagState(st) || st == HeadContentLength }

  function CodeOf(st: State): nat {
    match st
    case HeadConnection => RQ_CONNECTION
    case HeadContentLength => RQ_CONTENT_LENGTH
    case HeadExpect => RQ_EXPECT
    case _ => RQ_TRANSFER_ENCODING
  }

  /** The rows of a flag value's trie are its words. */
  lemma FlagRows(st: State, x: nat)
    requires IsFlagState(st) && x in UtilityShape(StartOf(st)).text
    ensures x < 30 && UtilityRow(x).Node?
    ensures var bit := UtilityRow(x).terminal;
            && IsFlagBit(bit) && FlagHeader(bit) == CodeOf(st)
            && UtilityShape(StartOf(st)).text[x] == Codes(FlagWord(bit))
            && |UtilityRow(x).prefix| == |FlagWord(bit)|
  {
  }

  /** A byte of a flag value: it goes on with a word, or ends one. */
  lemma ValueHeard(st: State, u: seq<int>, ts: TrieState, c: Char)
    requires IsFlagState(st) && FlagAt(StartOf(st), u, ts)
    ensures var w := Look(UtilityTrie(StartOf(st)), ts, Lower(c), Lower(c) == CR || Lower(c) == LF);
            w.Walked? && (w.r == 0 ==> FlagAt(StartOf(st), u + [Lower(c)], w.ts))
  {
    hide WellFormed, WalkTrie, UtilityShape, UtilityTrie;
    var t, sh := UtilityTrie(StartOf(st)), UtilityShape(StartOf(st));
    UtilityWellFormed(StartOf(st));
    if c == CR || c == LF || c == NUL {
      FinishReports(t, sh, u, ts, Lower(c));
      if s :| s in sh.text && sh.text[s] == u {
        FlagRows(st, s);
        RowTerminal(StartOf(st), s);
      }
    } else {
      AdvanceFollows(t, sh, u, ts, Lower(c));
    }
  }

  lemma RowTerminal(start: nat, x: nat)
    requires x < 30
    ensures UtilityTrie(start).tree[x] == UtilityRow(x) && UtilityTrie(start).alphabet == UtilityAlphabet
  {
  }

  /** At the end of a row, the whole word has been heard. */
  lemma WordHeard(st: State, word: seq<Char>, ts: TrieState)
    requires IsFlagState(st) && FlagAt(StartOf(st), LowerAll(word), ts) && ts.poff > 0
    requires ts.slot < 30 && UtilityRow(ts.slot).Node? && ts.poff == |UtilityRow(ts.slot).prefix|
    ensures var bit := UtilityRow(ts.slot).terminal;
            IsFlagBit(bit) && FlagHeader(bit) == CodeOf(st) && SameName(word, FlagWord(bit))
  {
    hide WellFormed, UtilityShape, UtilityRow, FlagWord;
    var t, sh, s := UtilityTrie(StartOf(st)), UtilityShape(StartOf(st)), ts.slot;
    UtilityWellFormed(StartOf(st));
    RowTerminal(StartOf(st), s);
    assert Owns(t, sh, s, LowerAll(word));
    assert LowerAll(word) == sh.text[s];
    FlagRows(st, s);
    var bit := UtilityRow(s).terminal;
    FlagWords(bit);
    forall j | 0 <= j < |word|
      ensures Lower(word[j]) == Lower(FlagWord(bit)[j] as int)
    {
      assert LowerAll(word)[j] == Codes(FlagWord(bit))[j];
    }
  }

  // ---------------------------------------------------------------- the line so far

  /** What the line has been so far, where it matters: a name, or a name with its terminator, blanks, and a word. */
  datatype History =
    | Elsewhere
    | Naming(name: seq<Char>)
    | Valuing(name: seq<Char>, stop: Char, lead: seq<Char>, word: seq<Char>)

  function TextOf(h: History): seq<Char> {
    match h
    case Elsewhere => []
    case Naming(name) => name
    case Valuing(name, stop, lead, word) => name + [stop] + lead + word
  }

  /** The history after byte `c` has led to `k`. */
  function Further(h: History, k: Parser, c: Char): History {
    match k.st
    case Nl => Naming([])
    case Header => if h.Naming? then Naming(h.name + [c]) else Elsewhere
    case ValueLead =>
      if !IsWordState(k.est) then Elsewhere
      else if h.Naming? then Valuing(h.name, c, [], [])
      else if h.Valuing? then h.(lead := h.lead + [c])
      else Elsewhere
    case HeadFlag => if h.Valuing? then h.(word := h.word + [c]) else Elsewhere
    case HeadContentLength => if h.Valuing? then h.(word := h.word + [c]) else Elsewhere
    case _ => Elsewhere
  }

  /** The line names the field with a flag value, and only blanks are between the name and the word. */
  predicate NamesField(h: History, st: State) {
    h.Valuing? && IsStop(h.stop) && SameName(Heard(h.name), HeaderName(CodeOf(st))) && Blanks(h.lead)
  }

  /** In front of a word of the field that state `st` reads. */
  predicate BeforeWord(k: Parser, h: History, st: State) { NamesField(h, st) && h.word == [] && k.ts == START }

  /** The state agrees with the line. */
  ghost predicate Agrees(k: Parser, h: History) {
    if k.st == Nl then h == Naming([])
    else if k.st == Header then h.Naming? && HeaderAt(Heard(h.name), k.ts)
    else if k.st == ValueLead then IsWordState(k.est) ==> BeforeWord(k, h, k.est)
    else if k.st == HeadFlag then
      && IsFlagState(k.est) && NamesField(h, k.est) && FlagAt(StartOf(k.est), LowerAll(h.word), k.ts)
      && (k.ts.poff == 0 ==> k.flag == UtilityTrie(StartOf(k.est)).root)
    else if k.st == HeadContentLength then NamesField(h, k.st) && Digits(h.word)
    else IsFlagState(k.st) ==> k.est == k.st && BeforeWord(k, h, k.st)
  }

  /** A line ends at its line end only. */
  predicate Ended(st: State, c: Char) { (st == Nl ==> c == LF) && (st == Cr ==> c == CR) }

  ghost predicate KeepsLine(h: History, c: Char, j: Jump) {
    match j
    case Again(k, c') => Agrees(k, h) && (c' == c || (k.st == SkipLine && c' == Lower(c)))
    case Next(k) => k.nl <= 1 ==> Agrees(k, Further(h, k, c)) && Ended(k.st, c)
    case _ => true
  }

  /** A state in which the history matters. */
  predicate InLine(st: State) { st in {Nl, Header, ValueLead, HeadFlag} || IsWordState(st) }

  /** The request line ends at the start of a line, behind a line end. */
  lemma LineLeads(k: Parser, c: Char)
    requires Ready(k) && !IsHeadState(k.st)
    ensures match DispatchLine(k, c)
            case Next(k') => k'.nl <= 1 ==> Ended(k'.st, c) && (InLine(k'.st) ==> k'.st == Nl)
            case Again(k', c') => c' == c && !InLine(k'.st)
            case _ => true
  {
    hide Look, InPath, UriUric, IsHex, InTree, Requests.Version, Requests.Decimal, Unescape;
    if DispatchLine(k, c).Again? {
      AgainFromLine(k, c);
    }
  }

  lemma LineKeepsLine(k: Parser, h: History, c: Char)
    requires Ready(k) && !IsHeadState(k.st)
    ensures KeepsLine(h, c, DispatchLine(k, c))
  {
    hide DispatchLine, HeaderAt, FlagAt, BeforeWord, Ready;
    LineLeads(k, c);
  }

  lemma NlKeepsLine(k: Parser, h: History, c: Char)
    requires k.st == Nl && Agrees(k, h)
    ensures KeepsLine(h, c, OnNl(k, c))
  {
    hide FlagAt, NamesField, WellFormed;
    HeadersWellFormed();
  }

  lemma ResolvedKeepsLine(k: Parser, h: History, c: Char, r: nat)
    requires k.st == Header && Agrees(k, h) && IsStop(c) && 0 < r < HEADER_NAMES
             && SameName(Heard(h.name), HeaderName(r))
    ensures var j := KeepName(k, OnName(k.(ts := START), r));
            j.Next? ==> Agrees(j.k, Further(h, j.k, c)) && j.k.st != Nl
  {
    hide HeaderAt, FlagAt, SameName, HeaderName, Heard;
  }

  lemma HeaderKeepsLine(k: Parser, h: History, c: Char)
    requires k.st == Header && Agrees(k, h)
    ensures KeepsLine(h, c, OnHeader(k, c))
  {
    hide Look, OnName, HeaderAt, FlagAt, SameName, HeaderName, Heard;
    NameHeard(Heard(h.name), k.ts, c);
    match Look(HEADERS, k.ts, Lower(c), Lower(c) == COLON)
    case Fault =>
    case Walked(r, ts) =>
      if r > 0 {
        ResolvedKeepsLine(k, h, c, r);
      } else if r == 0 {
        HeardSnoc(h.name, c);
      }
  }

  lemma FlagKeepsLine(k: Parser, h: History, c: Char)
    requires k.st == HeadFlag && Agrees(k, h)
    ensures KeepsLine(h, c, OnFlag(k, c))
  {
    hide WalkTrie, HeaderAt, FlagAt, UtilityTrie, Heard, SameName, HeaderName;
    SameWalk(k, c);
    ValueHeard(k.est, LowerAll(h.word), k.ts, c);
    assert LowerAll(h.word + [c]) == LowerAll(h.word) + [Lower(c)];
  }

  lemma SameWalk(k: Parser, c: Char)
    requires k.st == HeadFlag && IsFlagState(k.est) && (k.ts.poff == 0 ==> k.flag == UtilityTrie(StartOf(k.est)).root)
    ensures Look(FlagTrie(k), k.ts, Lower(c), Lower(c) == CR || Lower(c) == LF)
         == Look(UtilityTrie(StartOf(k.est)), k.ts, Lower(c), Lower(c) == CR || Lower(c) == LF)
  {
    hide WalkTrie;
    var t := UtilityTrie(StartOf(k.est));
    assert FlagTrie(k) == t.(root := k.flag);
    if k.ts.poff > 0 {
      StartUnused(t, k.flag, k.ts, Lower(c));
    } else {
      assert FlagTrie(k) == t;
    }
  }

  lemma StartKeepsLine(k: Parser, h: History, c: Char)
    requires IsFlagState(k.st) && Agrees(k, h)
    ensures KeepsLine(h, c, DispatchHead(k, c))
  {
    hide WellFormed, NamesField, HeaderAt;
    UtilityWellFormed(StartOf(k.st));
    assert LowerAll([]) == [];
  }

  lemma LeadKeepsLine(k: Parser, h: History, c: Char)
    requires Ready(k) && k.st == ValueLead && Agrees(k, h)
    ensures KeepsLine(h, c, DispatchHead(k, c))
  {
    hide InTree, SameName, HeaderName, Heard, HeaderAt, FlagAt, OnNl, OnHeader, OnFlag, OnValue, OnContentLength;
  }

  lemma LengthKeepsLine(k: Parser, h: History, c: Char)
    requires k.st == HeadContentLength && Agrees(k, h)
    ensures KeepsLine(h, c, OnContentLength(k, c))
  {
    hide SameName, HeaderName, Heard, HeaderAt, FlagAt, Requests.Decimal;
  }

  lemma RestKeepsLine(k: Parser, h: History, c: Char, current: bool)
    requires Tidy(k, current) && k.st in {Cr, Cont, Value, SkipLine}
    ensures KeepsLine(h, c, DispatchHead(k, c))
  {
    hide BeforeWord, NamesField, HeaderAt, FlagAt, OnNl, OnHeader, OnFlag, Indexed, Closed, StalePlace,
         Requests.Decimal;
  }

  lemma DispatchKeepsLine(k: Parser, h: History, c: Char, current: bool)
    requires Ready(k) && Tidy(k, current) && Agrees(k, h)
    ensures KeepsLine(h, c, Dispatch(k, c))
  {
    hide Ready, Tidy, KeepsLine, Agrees;
    match k.st
    case Nl => NlKeepsLine(k, h, c);
    case Header => HeaderKeepsLine(k, h, c);
    case HeadFlag => FlagKeepsLine(k, h, c);
    case ValueLead => LeadKeepsLine(k, h, c);
    case Cr => RestKeepsLine(k, h, c, current);
    case Cont => RestKeepsLine(k, h, c, current);
    case Value => RestKeepsLine(k, h, c, current);
    case SkipLine => RestKeepsLine(k, h, c, current);
    case HeadContentLength => LengthKeepsLine(k, h, c);
    case _ => if IsFlagState(k.st) { StartKeepsLine(k, h, c); } else { LineKeepsLine(k, h, c); }
  }

  /** From a skipped line only its end leads on. */
  lemma SkipEndsLine(k: Parser, h: History, c: Char, c': Char)
    requires Ready(k) && k.st == SkipLine && (c' == c || c' == Lower(c))
    ensures Step(k, c').More? ==>
              Agrees(Step(k, c').k, Further(h, Step(k, c').k, c)) && Ended(Step(k, c').k.st, c)
  {
    hide Requests.Step, DispatchLine;
    StepNext(k, c');
  }

  lemma {:induction false} StepKeepsLine(k: Parser, h: History, c: Char, current: bool)
    requires Ready(k) && Tidy(k, current) && Agrees(k, h) && (k.st == Nl && IsBlank(c) ==> current)
    ensures Step(k, c).More? ==>
              Agrees(Step(k, c).k, Further(h, Step(k, c).k, c)) && Ended(Step(k, c).k.st, c)
    decreases Rank(k.st)
  {
    hide Dispatch, Ready, Tidy, BeforeWord, NamesField, HeaderAt, FlagAt;
    DispatchKeeps(k, c);
    DispatchTidy(k, c, current);
    DispatchKeepsLine(k, h, c, current);
    match Dispatch(k, c)
    case Again(k', c') =>
      if k'.st == SkipLine {
        SkipEndsLine(k', h, c, c');
      } else {
        StepKeepsLine(k', h, c, StillCollecting(k', current));
      }
    case Next(k') => if k'.nl <= 1 { AgreesMoved(k', Further(h, k', c)); }
    case _ =>
  }

  lemma AgreesMoved(k: Parser, h: History)
    requires Agrees(k, h)
    ensures Agrees(k.(m := k.m + 1), h)
  {
    hide NamesField, HeaderAt, FlagAt;
  }

  // ---------------------------------------------------------------- whole inputs

  /** `seen` ends with the line so far, which starts behind a line end or at the start. */
  predicate EndsWith(seen: seq<Char>, h: History) {
    var n := |TextOf(h)|;
    h != Elsewhere ==> n <= |seen| && seen[|seen| - n..] == TextOf(h) && (|seen| > n ==> seen[|seen| - n - 1] == LF)
  }

  lemma EndsSnoc(seen: seq<Char>, t: seq<Char>, c: Char)
    requires |t| <= |seen| && seen[|seen| - |t|..] == t
    ensures (seen + [c])[|seen| - |t|..] == t + [c]
    ensures |seen| > |t| ==> (seen + [c])[|seen| - |t| - 1] == seen[|seen| - |t| - 1]
  {
  }

  lemma EndsFurther(seen: seq<Char>, h: History, k: Parser, c: Char)
    requires EndsWith(seen, h) && (k.st == Nl ==> c == LF)
    requires k.st == ValueLead && h.Valuing? && Further(h, k, c).Valuing? ==> h.word == []
    ensures EndsWith(seen + [c], Further(h, k, c))
  {
    hide TextOf, Further;
    var h' := Further(h, k, c);
    TextFurther(h, k, c);
    if h' == Naming([]) {
      EndsFresh(seen);
    } else if h' != Elsewhere {
      EndsSnoc(seen, TextOf(h), c);
    }
  }

  lemma EndsFresh(seen: seq<Char>)
    ensures EndsWith(seen + [LF], Naming([]))
  {
  }

  lemma TextFurther(h: History, k: Parser, c: Char)
    requires k.st == ValueLead && h.Valuing? && Further(h, k, c).Valuing? ==> h.word == []
    ensures var h' := Further(h, k, c);
            h' == Elsewhere || (k.st == Nl && h' == Naming([])) || (h != Elsewhere && TextOf(h') == TextOf(h) + [c])
    ensures Further(h, k, c) == Naming([]) ==> k.st == Nl
  {
    if h.Naming? {
      assert h.name + [c] + [] + [] == h.name + [c];
    } else if h.Valuing? {
      var a := h.name + [h.stop];
      assert a + h.lead + (h.word + [c]) == a + h.lead + h.word + [c];
      assert a + (h.lead + [c]) + [] == a + h.lead + [] + [c];
    }
  }

  lemma LeadEmpty(h: History, k: Parser, c: Char)
    requires Agrees(k, Further(h, k, c))
    ensures k.st == ValueLead && h.Valuing? && Further(h, k, c).Valuing? ==> h.word == []
  {
    hide NamesField, HeaderAt, FlagAt;
  }

  lemma NothingSeen(hmask: set<nat>, m: nat, rq: Request, size: nat)
    requires size > 0
    ensures EndsWith([], Elsewhere) && Suspendable(Init(hmask, m, rq, size)) && Tidy(Init(hmask, m, rq, size), false)
    ensures Agrees(Init(hmask, m, rq, size), Elsewhere)
  {
  }

  lemma SplitLine(seen: seq<Char>, h: History) returns (before: seq<Char>)
    requires EndsWith(seen, h) && h != Elsewhere
    ensures seen == before + TextOf(h) && (before != [] ==> before[|before| - 1] == LF)
  {
    before := seen[..|seen| - |TextOf(h)|];
  }

  /** A byte that sets a flag ends the word of the line. */
  lemma SetInLine(k: Parser, h: History, c: Char, current: bool) returns (bit: nat)
    requires Tidy(k, current) && Agrees(k, h) && SetBy(k, c) != {}
    ensures IsFlagBit(bit) && SetBy(k, c) == {bit} && h.Valuing?
    ensures SameName(Heard(h.name), FlagName(bit)) && IsStop(h.stop) && Blanks(h.lead)
            && SameName(h.word, FlagWord(bit))
  {
    hide SameName, Heard, HeaderAt, FlagAt, UtilityRow, Indexed, Closed, StalePlace, HeaderName, FlagWord, Bits;
    assert k.st == HeadFlag;
    WordHeard(k.est, h.word, k.ts);
    bit := UtilityRow(k.ts.slot).terminal;
    OneBit(bit);
    FlagNamed(bit);
  }

  /** The line that a run over the first `n` bytes ends in. */
  lemma {:induction false} RunLine(k: Parser, cs: seq<Char>, n: nat, current: bool, h: History, seen: seq<Char>)
    returns (h': History, current': bool)
    requires Suspendable(k) && Tidy(k, current) && Agrees(k, h) && EndsWith(seen, h) && WellFolded(k, current, cs)
    requires n <= |cs| && Run(k, cs[..n]).More?
    ensures var k' := Run(k, cs[..n]).k;
            && Tidy(k', current') && Agrees(k', h') && EndsWith(seen + cs[..n], h')
            && (n > 0 ==> Ended(k'.st, cs[n - 1]))
    decreases n
  {
    hide Requests.Step, Requests.Run, Tidy, Further, EndsWith, Ready, Agrees, StillCollecting;
    if n == 0 {
      assert cs[..0] == [] && seen + [] == seen;
      NothingRun(k);
      h', current' := h, current;
    } else {
      var c := cs[0];
      assert cs[..n] == [c] + cs[1..][..n - 1];
      Cons(k, c, cs[1..][..n - 1]);
      StepTidy(k, c, current);
      StepKeepsLine(k, h, c, current);
      var k1 := Step(k, c).k;
      LeadEmpty(h, k1, c);
      EndsFurther(seen, h, k1, c);
      h', current' := RunLine(k1, cs[1..], n - 1, StillCollecting(k1, current), Further(h, k1, c), seen + [c]);
      NothingRun(k1);
      assert cs[1..][..0] == [];
      assert seen + [c] + cs[1..][..n - 1] == seen + cs[..n];
    }
  }

  /** On well folded input from the start of a request, a flag is set only by a line that names its field, as the parser
      hears names, and states it: the bytes up to the one that sets it end with that line. */
  lemma FlagsAreStated(hmask: set<nat>, m: nat, rq: Request, size: nat, cs: seq<Char>, n: nat)
    returns (before: seq<Char>, h: History, bit: nat)
    requires size > 0 && WellFolded(Init(hmask, m, rq, size), false, cs)
    requires n < |cs| && Run(Init(hmask, m, rq, size), cs[..n]).More?
    requires SetBy(Run(Init(hmask, m, rq, size), cs[..n]).k, cs[n]) != {}
    ensures IsFlagBit(bit) && SetBy(Run(Init(hmask, m, rq, size), cs[..n]).k, cs[n]) == {bit}
    ensures h.Valuing? && cs[..n] == before + (h.name + [h.stop] + h.lead + h.word)
            && (before != [] ==> before[|before| - 1] == LF)
    ensures SameName(Heard(h.name), FlagName(bit)) && IsStop(h.stop) && Blanks(h.lead)
            && SameName(h.word, FlagWord(bit))
  {
    hide WellFolded, EndsWith, Requests.Run, Heard, SameName, Tidy, Agrees, SetBy, Blanks, HeaderName, FlagWord;
    var k0 := Init(hmask, m, rq, size);
    var current;
    NothingSeen(hmask, m, rq, size);
    h, current := RunLine(k0, cs, n, false, Elsewhere, []);
    var k := Run(k0, cs[..n]).k;
    assert [] + cs[..n] == cs[..n];
    bit := SetInLine(k, h, cs[n], current);
    before := SplitLine(cs[..n], h);
  }

  // ---------------------------------------------------------------- refusals in the fields

  /** On well folded input, the fields are refused with 400 for two reasons only: a CR without its LF, or a line that
      names Content-Length and states, behind blanks and digits, something else. */
  lemma RefusalIsStated(hmask: set<nat>, m: nat, rq: Request, size: nat, cs: seq<Char>, n: nat)
    returns (before: seq<Char>, h: History)
    requires size > 0 && WellFolded(Init(hmask, m, rq, size), false, cs)
    requires n < |cs| && Run(Init(hmask, m, rq, size), cs[..n]).More?
    requires IsHeadState(Run(Init(hmask, m, rq, size), cs[..n]).k.st)
    requires FieldOffence(Run(Init(hmask, m, rq, size), cs[..n]).k, cs[n]) == Some(400)
    ensures || (n > 0 && cs[n - 1] == CR && cs[n] != LF)
            || (&& !IsDigit(cs[n]) && cs[n] != CR && cs[n] != LF
                && h.Valuing? && cs[..n] == before + (h.name + [h.stop] + h.lead + h.word)
                && (before != [] ==> before[|before| - 1] == LF)
                && SameName(Heard(h.name), "Content-Length") && IsStop(h.stop) && Blanks(h.lead) && Digits(h.word))
  {
    hide WellFolded, EndsWith, Requests.Run, Heard, SameName, Agrees, Blanks, HeaderName, Digits, Indexed, Closed;
    var k0 := Init(hmask, m, rq, size);
    var current;
    NothingSeen(hmask, m, rq, size);
    assert cs[..0] == [] && [] + cs[..n] == cs[..n];
    NothingRun(k0);
    h, current := RunLine(k0, cs, n, false, Elsewhere, []);
    var k := Run(k0, cs[..n]).k;
    if k.st == Cr {
      assert n > 0;
      before := [];
    } else {
      LengthInLine(k, h, cs[n], current);
      before := SplitLine(cs[..n], h);
    }
  }

  lemma LengthInLine(k: Parser, h: History, c: Char, current: bool)
    requires Tidy(k, current) && Agrees(k, h) && FieldOffence(k, c) == Some(400) && k.st != Cr
    ensures !IsDigit(c) && c != CR && c != LF && h.Valuing? && IsStop(h.stop) && Blanks(h.lead) && Digits(h.word)
    ensures SameName(Heard(h.name), "Content-Length")
  {
    hide SameName, Heard, HeaderAt, FlagAt, Indexed, Closed, StalePlace, Collects;
    assert HeaderName(RQ_CONTENT_LENGTH) == "Content-Length";
  }

  lemma CrEndsSkip(k: Parser)
    requires Ready(k) && k.st == SkipLine
    ensures Step(k, CR).More? ==> Step(k, CR).k.st == Cr
  {
    hide Requests.Step, Requests.DispatchLine;
    StepNext(k, CR);
  }

  /** A name has no CR. */
  lemma CrEndsName(k: Parser, u: seq<int>)
    requires Ready(k) && k.st == Header && HeaderAt(u, k.ts)
    ensures Step(k, CR).More? ==> Step(k, CR).k.st == Cr
  {
    hide Requests.Step, Requests.DispatchLine, WellFormed, WalkTrie, HeaderRow, HeaderText;
    HeadersWellFormed();
    AdvanceFollows(HEADERS, HEADER_SHAPE, u, k.ts, CR);
    if OnTrie(HEADER_SHAPE, u + [CR]) {
      var s :| s in HEADER_SHAPE.text && u + [CR] <= HEADER_SHAPE.text[s];
      assert HEADER_SHAPE.text[s][|u|] == CR;
      TextClean(s);
    }
    StepAgain(k, CR);
    CrEndsSkip(Dispatch(k, CR).k);
  }

  /** Every word of a flag value sets a flag, so its line end ends it. */
  lemma CrEndsFlag(k: Parser, u: seq<int>)
    requires Ready(k) && k.st == HeadFlag && IsFlagState(k.est) && FlagAt(StartOf(k.est), u, k.ts)
    requires k.ts.poff == 0 ==> k.flag == UtilityTrie(StartOf(k.est)).root
    ensures Step(k, CR).More? ==> Step(k, CR).k.st == Cr
  {
    hide Requests.Step, Requests.DispatchLine, WellFormed, WalkTrie, UtilityShape, UtilityTrie, FlagTrie, Bits;
    UtilityWellFormed(StartOf(k.est));
    SameWalk(k, CR);
    ValueHeard(k.est, u, k.ts, CR);
    FinishReports(UtilityTrie(StartOf(k.est)), UtilityShape(StartOf(k.est)), u, k.ts, CR);
    StepAgain(k, CR);
    CrEndsSkip(Dispatch(k, CR).k);
  }

  lemma CrEndsValue(k: Parser)
    requires Ready(k) && k.st in {Value, HeadContentLength, Nl}
    ensures Step(k, CR).More? ==> Step(k, CR).k.st == Cr
  {
    hide Requests.Step, Requests.DispatchLine;
    if Dispatch(k, CR).Next? {
      StepNext(k, CR);
    } else {
      StepExit(k, CR);
    }
  }

  lemma CrEndsFlagStart(k: Parser)
    requires Ready(k) && IsFlagState(k.st) && k.est == k.st && k.ts == START
    ensures Step(k, CR).More? ==> Step(k, CR).k.st == Cr
  {
    hide Requests.Step, Requests.DispatchLine, WellFormed, HeaderAt, InTree;
    UtilityWellFormed(StartOf(k.st));
    StepAgain(k, CR);
    CrEndsFlag(Dispatch(k, CR).k, []);
  }

  lemma CrEndsLead(k: Parser, h: History)
    requires Ready(k) && k.st == ValueLead && Agrees(k, h)
    ensures Step(k, CR).More? ==> Step(k, CR).k.st == Cr
  {
    hide Requests.Step, Requests.DispatchLine, NamesField, FlagAt, HeaderAt, InTree;
    StepAgain(k, CR);
    var k1 := Dispatch(k, CR).k;
    if IsFlagState(k1.st) {
      CrEndsFlagStart(k1);
    } else if k1.st == SkipLine {
      CrEndsSkip(k1);
    } else {
      CrEndsValue(k1);
    }
  }

  lemma CrEndsCont(k: Parser, h: History)
    requires Ready(k) && k.st == Cont && k.est == Value
    ensures Step(k, CR).More? ==> Step(k, CR).k.st == Cr
  {
    hide Requests.Step, Requests.DispatchLine;
    StepAgain(k, CR);
    if k.collect {
      CrEndsLead(Dispatch(k, CR).k, h);
    } else {
      CrEndsSkip(Dispatch(k, CR).k);
    }
  }

  lemma CrEnds(k: Parser, h: History, current: bool)
    requires Suspendable(k) && Tidy(k, current) && Agrees(k, h) && IsHeadState(k.st)
    ensures Step(k, CR).More? ==> Step(k, CR).k.st == Cr
  {
    hide Requests.Step, Ready, HeaderAt, FlagAt, Indexed, Closed, StalePlace, BeforeWord, InText, UtilityTrie;
    match k.st
    case Header => CrEndsName(k, Heard(h.name));
    case HeadFlag => CrEndsFlag(k, LowerAll(h.word));
    case ValueLead => CrEndsLead(k, h);
    case Cont => CrEndsCont(k, h);
    case SkipLine => CrEndsSkip(k);
    case Cr => CrTwice(k);
    case _ => CrEndsValue(k);
  }

  lemma CrTwice(k: Parser) requires Ready(k) && k.st == Cr ensures Step(k, CR).Fail? {
    hide Requests.Step, Ready, DispatchLine;
    BadRequest(k, CR);
  }

  /** On well folded input, a CR in the fields ends a line: whatever comes behind it is refused, unless it is LF. */
  lemma CrNeedsLf(hmask: set<nat>, m: nat, rq: Request, size: nat, cs: seq<Char>, n: nat)
    requires size > 0 && WellFolded(Init(hmask, m, rq, size), false, cs) && 0 < n < |cs| && cs[n - 1] == CR
    requires Run(Init(hmask, m, rq, size), cs[..n - 1]).More?
             && IsHeadState(Run(Init(hmask, m, rq, size), cs[..n - 1]).k.st)
    requires Run(Init(hmask, m, rq, size), cs[..n]).More?
    ensures FieldOffence(Run(Init(hmask, m, rq, size), cs[..n]).k, cs[n]) == if cs[n] == LF then None else Some(400)
  {
    hide WellFolded, EndsWith, Requests.Run, Requests.Step, Agrees, Tidy, Requests.Ready;
    var k0 := Init(hmask, m, rq, size);
    NothingSeen(hmask, m, rq, size);
    var h, current := RunLine(k0, cs, n - 1, false, Elsewhere, []);
    assert cs[..n] == cs[..n - 1] + [CR];
    Snoc(k0, cs[..n - 1], CR);
    CrEnds(Run(k0, cs[..n - 1]).k, h, current);
  }

  // ---------------------------------------------------------------- colons inside names

  lemma LowerJoins(a: seq<Char>, b: seq<Char>)
    ensures LowerAll(a + b) == LowerAll(a) + LowerAll(b)
  {
  }

  /** The walk over a part of a name, from where another part has led. */
  lemma PartWalked(u: seq<int>, ts: TrieState, w: seq<int>, s: nat)
    requires HeaderAt(u, ts) && NulFree(w) && s in HEADER_SHAPE.text && u + w <= HEADER_SHAPE.text[s]
    ensures var r := WalkWord(HEADERS, ts, w); r.Walked? && r.r == 0 && HeaderAt(u + w, r.ts)
  {
    hide WellFormed, WalkWord, At;
    HeadersWellFormed();
    WalkWordFollows(HEADERS, HEADER_SHAPE, u, ts, w);
    if w == [] {
      assert u + w == u;
    } else {
      assert OnTrie(HEADER_SHAPE, u + w);
    }
  }

  lemma PartReports(u: seq<int>, ts: TrieState, s: nat)
    requires HeaderAt(u, ts) && s in HEADER_SHAPE.text && HEADER_SHAPE.text[s] == u
    ensures s < 59 && HeaderRow(s).Node? && Finish(HEADERS, ts, COLON) == Walked(HeaderRow(s).terminal, ts)
  {
    hide WalkTrie, At, HeaderRow;
    HeadersWellFormed();
    FinishReports(HEADERS, HEADER_SHAPE, u, ts, COLON);
    assert SlotIn(HEADERS, HEADER_SHAPE, s);
  }

  lemma NothingHeard()
    ensures HeaderAt([], START)
  {
    hide WellFormed;
    HeadersWellFormed();
  }

  lemma ColonSwallowed(k: Parser)
    requires Suspendable(k) && k.st == Header && Finish(HEADERS, k.ts, COLON) == Walked(0, k.ts)
    ensures Reads(k, [COLON], CoreOf(k)) && Run(k, [COLON]).k.ts == k.ts
  {
    hide Requests.Step, DispatchLine, WalkTrie, OnName;
    StepNext(k, COLON);
    One(k, COLON);
  }

  /** A colon where an inner row of the table ends is no end of the name: what is in front of it and what is behind it
      are one name. */
  lemma ColonInName(k: Parser, a: seq<Char>, b: seq<Char>, code: nat, s: nat)
    requires AtLine(k) && 1 <= code < HEADER_NAMES && SameName(a + b, HeaderName(code))
    requires s in HEADER_SHAPE.text && HEADER_SHAPE.text[s] == LowerAll(a) && HeaderRow(s).terminal == 0
    ensures var w := a + ([COLON] + b);
            && Reads(k, w, CoreOf(k).(st := Header, nl := 0))
            && Finish(HEADERS, Run(k, w).k.ts, COLON) == Walked(code, Run(k, w).k.ts)
  {
    hide Requests.Step, Requests.Run, WalkTrie, WalkWord, HeaderAt, SameName, Ready, HeaderName, HeaderRow, LowerAll;
    var k1 := k.(b := k.m, nl := 0, ts := START, st := Header);
    var slot := HeaderSlot(code);
    NameParts(a, b, code, s);
    NothingHeard();
    PartWalked([], START, LowerAll(a), slot);
    assert [] + LowerAll(a) == LowerAll(a);
    NameStarts(k, a[0]);
    SameStart(k, k1, a);
    HeaderWalk(k1, a);
    var k2 := Run(k, a).k;
    PartReports(LowerAll(a), k2.ts, s);
    RunConcat(k, a, [COLON] + b);
    ColonSwallowed(k2);
    RunConcat(k2, [COLON], b);
    var k3 := Run(k2, [COLON]).k;
    PartWalked(LowerAll(a), k3.ts, LowerAll(b), slot);
    HeaderWalk(k3, b);
    PartReports(LowerAll(a) + LowerAll(b), Run(k3, b).k.ts, slot);
  }

  lemma NameParts(a: seq<Char>, b: seq<Char>, code: nat, s: nat)
    requires 1 <= code < HEADER_NAMES && SameName(a + b, HeaderName(code))
    requires s in HEADER_SHAPE.text && HEADER_SHAPE.text[s] == LowerAll(a)
    ensures var slot := HeaderSlot(code);
            && slot in HEADER_SHAPE.text && HEADER_SHAPE.text[slot] == LowerAll(a) + LowerAll(b)
            && HeaderRow(slot).terminal == code
    ensures NulFree(LowerAll(a)) && NulFree(LowerAll(b)) && COLON !in a && COLON !in b
    ensures a != [] && a[0] != CR && a[0] != LF && !IsBlank(a[0])
  {
    hide HeaderRow, HeaderName, HeaderText, NulFree, SameName, LowerAll;
    NameChars(a + b, code);
    SlotSpellsName(a + b, code);
    LowerJoins(a, b);
    PartsPlain(a, b);
    RowLonger(s);
    assert |LowerAll(a)| == |a| && a[0] == (a + b)[0];
  }

  lemma PartsPlain(a: seq<Char>, b: seq<Char>)
    requires NulFree(LowerAll(a + b)) && COLON !in a + b
    ensures NulFree(LowerAll(a)) && NulFree(LowerAll(b)) && COLON !in a && COLON !in b
  {
    forall i | 0 <= i < |a|
      ensures LowerAll(a)[i] != 0 && a[i] != COLON
    {
      assert (a + b)[i] == a[i] && LowerAll(a + b)[i] == LowerAll(a)[i];
    }
    forall i | 0 <= i < |b|
      ensures LowerAll(b)[i] != 0 && b[i] != COLON
    {
      assert (a + b)[|a| + i] == b[i] && LowerAll(a + b)[|a| + i] == LowerAll(b)[i];
    }
  }

  lemma RowLonger(s: nat)
    requires s in HEADER_SHAPE.text
    ensures HEADER_SHAPE.text[s] != []
  {
    hide HeaderRow, HeaderText;
    TextClean(s);
    assert |Codes(HeaderText(s))| == |HeaderText(s)| > 0 && HEADER_SHAPE.text[s] == Codes(HeaderText(s));
  }
}
