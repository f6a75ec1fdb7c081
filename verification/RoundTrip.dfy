/** Parsing undoes printing: the parser, run over a printed request head, ends with what the head means. */
module RoundTrip {
  import opened Chars
  import opened TextInts
  import opened Patricia
  import opened Keywords
  import opened Requests
  import opened Syntax

  /** The part of the parser that outlives the item being read. */
  datatype Core = Core(st: State, major: nat, minor: nat, nl: nat, hmask: set<nat>, rq: Request, text: Text)

  function CoreOf(k: Parser): Core { Core(k.st, k.major, k.minor, k.nl, k.hmask, k.rq, k.text) }

  /** `cs` takes the parser from `k` to a state whose core is `c`, still waiting for more. */
  ghost predicate Reads(k: Parser, cs: seq<Char>, c: Core)
    requires Suspendable(k)
  {
    Run(k, cs).More? && CoreOf(Run(k, cs).k) == c
  }

  lemma One(k: Parser, c: Char)
    requires Suspendable(k)
    ensures Run(k, [c]) == Step(k, c)
  {
    if Step(k, c).More? {
      assert [c][1..] == [];
    }
  }

  lemma NothingRun(k: Parser) requires Suspendable(k) ensures Run(k, []) == More(k) {
  }

  lemma Cons(k: Parser, c: Char, cs: seq<Char>)
    requires Suspendable(k)
    ensures Run(k, [c] + cs) == Onward(Step(k, c), cs)
  {
    assert ([c] + cs)[1..] == cs;
  }

  lemma Snoc(k: Parser, cs: seq<Char>, c: Char)
    requires Suspendable(k)
    ensures Run(k, cs + [c]) == if Run(k, cs).More? then Step(Run(k, cs).k, c) else Run(k, cs)
  {
    RunConcat(k, cs, [c]);
    if Run(k, cs).More? {
      One(Run(k, cs).k, c);
    }
  }

  // ---------------------------------------------------------------- escapes

  lemma BitOrEven(a: nat, b: nat)
    ensures BitOr(2 * a, b) == b % 2 + 2 * BitOr(a, b / 2)
  {
  }

  lemma BitOrHigh(a: nat, b: nat)
    ensures BitOr(16 * a, b) == b % 16 + 16 * BitOr(a, b / 16)
  {
    hide BitOr;
    BitOrEven(8 * a, b);
    BitOrEven(4 * a, b / 2);
    BitOrEven(2 * a, b / 4);
    BitOrEven(a, b / 8);
  }

  lemma BitOrZero(a: nat)
    ensures BitOr(a, 0) == a
  {
  }

  function Pow2(n: nat): (p: nat)
    ensures p > 0
  {
    if n == 0 then 1 else 2 * Pow2(n - 1)
  }

  lemma RemainderOfDouble(x: nat, y: nat, m: nat)
    requires m > 0 && x < 2
    ensures (x + 2 * y) % (2 * m) == x + 2 * (y % m)
  {
    var q := y / m;
    assert x + 2 * y == x + 2 * (y % m) + q * (2 * m);
    Remainder(x + 2 * (y % m), q, 2 * m);
  }

  lemma Remainder(r: nat, q: nat, m: nat)
    requires r < m
    ensures (r + q * m) % m == r
  {
    var x := r + q * m;
    var d, e := x / m, x % m;
    assert x == d * m + e;
    assert (q - d) * m == e - r;
    AtLeastOnce(q - d, m);
    AtLeastOnce(d - q, m);
  }

  lemma AtLeastOnce(k: int, m: nat)
    ensures k > 0 ==> k * m >= m
  {
  }

  lemma Halves(a: nat, m: nat)
    requires m > 0
    ensures a % (2 * m) / 2 == a / 2 % m && a % (2 * m) % 2 == a % 2
  {
    RemainderOfDouble(a % 2, a / 2, m);
  }

  /** The low bits of an or depend on the low bits of its operands. */
  lemma {:induction false} BitOrLow(a: nat, b: nat, n: nat)
    ensures BitOr(a, b) % Pow2(n) == BitOr(a % Pow2(n), b % Pow2(n))
    decreases n
  {
    if n > 0 {
      var m := Pow2(n - 1);
      BitOrLow(a / 2, b / 2, n - 1);
      Halves(a, m);
      Halves(b, m);
      var x := if a % 2 == 1 || b % 2 == 1 then 1 else 0;
      BitOrStep(a, b);
      BitOrStep(a % (2 * m), b % (2 * m));
      RemainderOfDouble(x, BitOr(a / 2, b / 2), m);
    }
  }

  lemma BitOrStep(a: nat, b: nat)
    ensures BitOr(a, b) == (if a % 2 == 1 || b % 2 == 1 then 1 else 0) + 2 * BitOr(a / 2, b / 2)
  {
  }

  /** A bit of an or is a bit of one of its operands. */
  lemma BitOfOr(a: nat, b: nat)
    ensures BitOr(a, b) % 2 == 1 <==> a % 2 == 1 || b % 2 == 1
    ensures BitOr(a, b) / 2 == BitOr(a / 2, b / 2)
  {
    hide BitOr;
    var x, y := if a % 2 == 1 || b % 2 == 1 then 1 else 0, BitOr(a / 2, b / 2);
    BitOrStep(a, b);
    assert BitOr(a, b) == x + 2 * y;
  }

  lemma Halvings(a: nat)
    ensures a / 2 / 2 == a / 4 && a / 4 / 2 == a / 8 && a / 8 / 2 == a / 16
  {
  }

  lemma OrBit(a: nat, b: nat, bit: nat)
    requires bit in {CLOSE, KEEP, CONTINUE, CHUNKED, CONTENT_LENGTH}
    ensures BitOr(a, b) / bit % 2 == 1 <==> a / bit % 2 == 1 || b / bit % 2 == 1
  {
    hide BitOr;
    Halvings(a);
    Halvings(b);
    Halvings(BitOr(a, b));
    BitOfOr(a, b);
    BitOfOr(a / 2, b / 2);
    BitOfOr(a / 4, b / 4);
    BitOfOr(a / 8, b / 8);
    BitOfOr(a / 16, b / 16);
  }

  /** The flags as a set are the flags as a word: `|=` on the word is union on the set. */
  lemma OrAddsBits(flags: nat, r: nat)
    ensures Bits(BitOr(flags, r)) == Bits(flags) + Bits(r)
  {
    hide BitOr;
    forall bit | bit in {CLOSE, KEEP, CONTINUE, CHUNKED, CONTENT_LENGTH}
      ensures bit in Bits(BitOr(flags, r)) <==> bit in Bits(flags) + Bits(r)
    {
      OrBit(flags, r, bit);
    }
  }

  lemma CharOfByte(c: Char)
    ensures Byte(c) < 256 && ToChar(Byte(c)) == c
  {
  }

  /** A hex digit in lower case has its value; a letter in upper case has 32 less. */
  lemma DigitValue(n: nat, upper: bool)
    requires n < 16
    ensures IsHex(Digit(n, upper)) && UriHexConv(Digit(n, upper)) == if upper && n >= 10 then n - 32 else n
  {
  }

  /** What the low digit adds to the byte. */
  function LowByte(n: nat, upper: bool): nat { if upper && n >= 10 then 224 + n else n }

  lemma DigitBytes(n: nat, upper: bool)
    requires n < 16
    ensures Unsigned(16 * Unsigned(UriHexConv(Digit(n, upper)))) % 256 == 16 * n
    ensures Unsigned(UriHexConv(Digit(n, upper))) % 256 == LowByte(n, upper)
  {
    hide Unsigned, Digit, UriHexConv;
    DigitValue(n, upper);
    UpperBytes(n);
    LowerBytes(n);
  }

  lemma LowerBytes(n: nat)
    requires n < 16
    ensures Unsigned(n) == n && Unsigned(16 * n) == 16 * n
  {
  }

  lemma UpperBytes(n: nat)
    requires n < 16
    ensures Unsigned(n - 32) == U32 - 32 + n && Unsigned(n - 32) % 256 == 224 + n
    ensures Unsigned(16 * Unsigned(n - 32)) % 256 == 16 * n
  {
    assert 16 * (U32 - 32 + n) == (U32 - 512 + 16 * n) + 15 * U32;
    Remainder(U32 - 512 + 16 * n, 15, U32);
    Remainder(16 * n, 0xFF_FFFE, 256);
    Remainder(224 + n, 0xFF_FFFF, 256);
  }

  lemma Pow2Is256()
    ensures Pow2(8) == 256
  {
    assert Pow2(4) == 16;
    assert Pow2(6) == 64;
  }

  lemma SameByte(x: nat, y: nat)
    requires x % 256 == y % 256
    ensures ToChar(x) == ToChar(y)
  {
  }

  lemma BitOrFourteen(h: nat)
    requires h < 16
    ensures BitOr(h, 14) == 14 + h % 2
  {
    BitOrStep(h, 14);
    BitOrStep(h / 2, 7);
    BitOrStep(h / 4, 3);
    BitOrStep(h / 8, 1);
    BitOrZero(0);
  }

  /** The byte that two hex digits come to. */
  lemma Unescaped(h: nat, upperHigh: bool, l: nat, upperLow: bool)
    requires h < 16 && l < 16
    ensures Unescape(Unsigned(UriHexConv(Digit(h, upperHigh))), Digit(l, upperLow))
         == ToChar(16 * (if upperLow && l >= 10 then 14 + h % 2 else h) + l)
  {
    hide BitOr, ToChar, Unsigned, UriHexConv, Pow2;
    var a, b := Unsigned(16 * Unsigned(UriHexConv(Digit(h, upperHigh)))), Unsigned(UriHexConv(Digit(l, upperLow)));
    DigitBytes(h, upperHigh);
    DigitBytes(l, upperLow);
    BitOrLow(a, b, 8);
    Pow2Is256();
    BitOrHigh(h, b % 256);
    BitOrZero(h);
    BitOrFourteen(h);
    var y := 16 * (if upperLow && l >= 10 then 14 + h % 2 else h) + l;
    assert BitOr(a, b) % 256 == y;
    SameByte(BitOr(a, b), y);
  }

  /** An escape is read back as the byte it was printed for, exactly when the low digit is not a letter in upper case,
      or the high digit is 14 or 15. */
  lemma EscapeDecodesIff(c: Char, upperHigh: bool, upperLow: bool)
    ensures var (h, l) := (Byte(c) / 16, Byte(c) % 16);
            Unescape(Unsigned(UriHexConv(Digit(h, upperHigh))), Digit(l, upperLow)) == c <==> Decodes(c, upperLow)
  {
    hide Unescape, UriHexConv;
    var h, l := Byte(c) / 16, Byte(c) % 16;
    CharOfByte(c);
    Unescaped(h, upperHigh, l, upperLow);
  }

  // ---------------------------------------------------------------- words

  /** A word the table knows is walked to its end, and its separator reports it. */
  lemma KnownWord(t: Trie, sh: Shape, w: seq<int>, s: nat, sep: int)
    requires WellFormed(t, sh) && NulFree(w) && s in sh.text && sh.text[s] == w && t.tree[s].terminal > 0
    ensures var r := WalkWord(t, START, w);
            r.Walked? && r.r == 0 && Finish(t, r.ts, sep) == Walked(t.tree[s].terminal, r.ts)
  {
    LookupReports(t, sh, w, sep);
    WalkWordFollows(t, sh, [], START, w);
    assert [] + w == w;
    if WalkWord(t, START, w).r == 0 {
      FinishReports(t, sh, w, WalkWord(t, START, w).ts, sep);
    }
  }

  lemma MethodStep(k: Parser, c: Char)
    requires Suspendable(k) && k.st == Method && c != SP
    requires Advance(METHODS, k.ts, c).Walked? && Advance(METHODS, k.ts, c).r == 0
    ensures Step(k, c) == More(k.(ts := Advance(METHODS, k.ts, c).ts, b := k.m, m := k.m + 1))
  {
    hide Requests.Step, Requests.DispatchHead, WalkTrie;
    StepNext(k, c);
  }

  lemma {:induction false} MethodWalk(k: Parser, w: seq<Char>)
    requires Suspendable(k) && k.st == Method && SP !in w && NulFree(w)
    requires WalkWord(METHODS, k.ts, w).Walked? && WalkWord(METHODS, k.ts, w).r == 0
    ensures Reads(k, w, CoreOf(k)) && Run(k, w).k.ts == WalkWord(METHODS, k.ts, w).ts
    decreases |w|
  {
    if w != [] {
      MethodStep(k, w[0]);
      MethodWalk(Step(k, w[0]).k, w[1..]);
    }
  }

  lemma ProtStep(k: Parser, c: Char)
    requires Suspendable(k) && k.st == Prot && c != '/' as int
    requires Advance(PROTOCOL, k.ts, c).Walked? && Advance(PROTOCOL, k.ts, c).r == 0
    ensures Step(k, c) == More(k.(ts := Advance(PROTOCOL, k.ts, c).ts, b := k.m, m := k.m + 1))
  {
    hide Requests.Step, Requests.DispatchHead, WalkTrie;
    StepNext(k, c);
  }

  lemma {:induction false} ProtWalk(k: Parser, w: seq<Char>)
    requires Suspendable(k) && k.st == Prot && '/' as int !in w && NulFree(w)
    requires WalkWord(PROTOCOL, k.ts, w).Walked? && WalkWord(PROTOCOL, k.ts, w).r == 0
    ensures Reads(k, w, CoreOf(k)) && Run(k, w).k.ts == WalkWord(PROTOCOL, k.ts, w).ts
    decreases |w|
  {
    if w != [] {
      ProtStep(k, w[0]);
      ProtWalk(Step(k, w[0]).k, w[1..]);
    }
  }

  lemma MethodRow(i: nat)
    requires 1 <= i <= 8
    ensures var s := MethodSlot(i);
            s < 30 && UtilityRow(s).Node? && UtilityRow(s).terminal == i && s in UtilityShape(0).text
  {
  }

  ghost predicate MethodSpelledWell(i: nat) {
    var w := PrintMethod(i);
    Codes(UtilityText(MethodSlot(i))) == w && w != [] && forall j :: 0 <= j < |w| ==> IsUpper(w[j])
  }

  lemma MethodNamed(i: nat)
    requires 1 <= i <= 8
    ensures var name := MethodName(i);
            UtilityText(MethodSlot(i)) == name && name != "" && forall j :: 0 <= j < |name| ==> 'A' <= name[j] <= 'Z'
  {
    hide ToChar;
  }

  lemma MethodSpelled(i: nat)
    requires 1 <= i <= 8
    ensures MethodSpelledWell(i)
  {
    hide UtilityText, MethodSlot, MethodName;
    MethodNamed(i);
    assert |Codes(MethodName(i))| == |PrintMethod(i)|;
  }

  /** The line ends a client may leave before a request are skipped. */
  lemma {:induction false} BeforeSkipped(k: Parser, s: seq<Char>)
    requires Suspendable(k) && k.st == Initial && forall i :: 0 <= i < |s| ==> s[i] == CR || s[i] == LF
    ensures Reads(k, s, CoreOf(k))
    decreases |s|
  {
    if s != [] {
      BeforeSkipped(k.(m := k.m + 1), s[1..]);
    }
  }

  lemma MethodStarts(k: Parser, c: Char)
    requires Suspendable(k) && k.st == Initial && c != CR && c != LF
    ensures var k' := k.(st := Method, ts := START, esc := 0); Suspendable(k') && Step(k, c) == Step(k', c)
  {
    hide Requests.Step, Requests.DispatchHead;
    StepAgain(k, c);
  }

  lemma MethodEnds(k: Parser, i: nat)
    requires Suspendable(k) && k.st == Method && Finish(METHODS, k.ts, SP) == Walked(i, k.ts) && 1 <= i <= 8
    ensures Reads(k, [SP], CoreOf(k).(st := MethodSp, rq := k.rq.(method_ := i)))
  {
    hide Requests.Step, Requests.DispatchHead, WalkTrie;
    StepNext(k, SP);
    One(k, SP);
  }

  lemma MethodRead(k: Parser, i: nat)
    requires Suspendable(k) && k.st == Initial && 1 <= i <= 8
    ensures Reads(k, PrintMethod(i) + [SP], CoreOf(k).(st := MethodSp, rq := k.rq.(method_ := i)))
  {
    var w := PrintMethod(i);
    var k1 := k.(st := Method, ts := START, esc := 0);
    MethodRow(i);
    MethodSpelled(i);
    UtilityWellFormed(0);
    KnownWord(METHODS, UtilityShape(0), w, MethodSlot(i), SP);
    MethodStarts(k, w[0]);
    SameStart(k, k1, w);
    MethodWalk(k1, w);
    RunConcat(k, w, [SP]);
    MethodEnds(Run(k1, w).k, i);
  }

  // ---------------------------------------------------------------- the target

  function WithChars(t: Text, s: seq<Char>): Text { t.(chars := t.chars + s) }

  /** The first byte of the target sets the path offset. */
  lemma TargetStarts(k: Parser, c: Char)
    requires Suspendable(k) && k.st == MethodSp && c != SP
    ensures var k' := k.(st := Path, b := k.m, rq := k.rq.(path := |k.text.chars|));
            Suspendable(k') && Step(k, c) == Step(k', c)
  {
    hide Requests.Step, Requests.DispatchHead;
    StepAgain(k, c);
  }

  lemma EscapeStarts(k: Parser)
    requires Suspendable(k) && k.st in {Path, Query}
    ensures Step(k, '%' as int) == More(k.(est := k.st, st := Escaped1, b := k.m, m := k.m + 1))
  {
    hide InPath, UriUric, Requests.Step, Requests.DispatchHead;
    Delimiters();
    StepNext(k, '%' as int);
  }

  /** The characters that end a path or query, or start an escape or a query, are not part of them. */
  lemma Delimiters()
    ensures !InPath('%' as int) && !UriUric('%' as int) && !InPath(SP) && !UriUric(SP) && !InPath('?' as int)
  {
  }

  lemma EscapeDigit1(k: Parser, c: Char)
    requires Suspendable(k) && k.st == Escaped1 && IsHex(c)
    ensures Step(k, c) == More(k.(esc := Unsigned(UriHexConv(c)), st := Escaped2, m := k.m + 1))
  {
    hide IsHex, UriHexConv, Requests.Step, Requests.DispatchHead;
    StepNext(k, c);
  }

  lemma EscapeDigit2(k: Parser, c: Char)
    requires Suspendable(k) && k.st == Escaped2 && IsHex(c) && k.text.CharFits()
    ensures Step(k, c) == More(k.(esc := 0, st := k.est, m := k.m + 1, text := WithChars(k.text, [Unescape(k.esc, c)])))
  {
    hide IsHex, Unescape, Requests.Step, Requests.DispatchHead;
    StepNext(k, c);
  }

  lemma EscapeRead(k: Parser, c: Char, upperHigh: bool, upperLow: bool)
    requires Suspendable(k) && k.st in {Path, Query} && k.text.CharFits() && Decodes(c, upperLow)
    ensures Reads(k, Escape(c, upperHigh, upperLow), CoreOf(k).(text := WithChars(k.text, [c])))
  {
    hide Requests.Step, Requests.Run, Unescape, IsHex, UriHexConv, Digit;
    var hi, lo := Digit(Byte(c) / 16, upperHigh), Digit(Byte(c) % 16, upperLow);
    EscapeDecodesIff(c, upperHigh, upperLow);
    DigitValue(Byte(c) / 16, upperHigh);
    DigitValue(Byte(c) % 16, upperLow);
    assert Escape(c, upperHigh, upperLow) == ['%' as int] + [hi, lo] && [hi, lo] == [hi] + [lo];
    EscapeStarts(k);
    Cons(k, '%' as int, [hi, lo]);
    var k1 := Step(k, '%' as int).k;
    EscapeDigit1(k1, hi);
    Cons(k1, hi, [lo]);
    var k2 := Step(k1, hi).k;
    EscapeDigit2(k2, lo);
    One(k2, lo);
  }

  /** What may stand for itself in this state. */
  predicate RawHere(k: Parser, c: Char) { OneOf(c, TARGET_BYTES) && (k.st == Path ==> c != '?' as int) }

  lemma OctetRead(k: Parser, o: Octet)
    requires Suspendable(k) && k.st in {Path, Query} && k.text.CharFits() && ValidOctet(o, RawHere(k, o.byte))
    ensures Reads(k, PrintOctet(o), CoreOf(k).(text := WithChars(k.text, [o.byte])))
  {
    match o.style
    case AsIs => RawRead(k, o.byte);
    case Percent(high, low) => EscapeRead(k, o.byte, high, low);
  }

  lemma RawRead(k: Parser, c: Char)
    requires Suspendable(k) && k.st in {Path, Query} && k.text.CharFits() && RawHere(k, c)
    ensures Reads(k, [c], CoreOf(k).(text := WithChars(k.text, [c])))
  {
    hide Requests.Step, Requests.DispatchHead, InPath, UriUric, OneOf;
    Delimiters();
    TargetBytes(c);
    StepNext(k, c);
    One(k, c);
  }

  lemma NothingRead(k: Parser)
    requires Suspendable(k)
    ensures Reads(k, [], CoreOf(k))
  {
  }

  lemma OctetsSplit(t: Text, p: seq<Octet>)
    requires p != []
    ensures PrintOctets(p) == PrintOctet(p[0]) + PrintOctets(p[1..])
    ensures WithChars(WithChars(t, [p[0].byte]), Bytes(p[1..])) == WithChars(t, Bytes(p))
    ensures WithChars(t, Bytes(p)).Fits() ==> t.CharFits()
  {
    assert Bytes(p) == [p[0].byte] + Bytes(p[1..]);
    assert t.chars + [p[0].byte] + Bytes(p[1..]) == t.chars + Bytes(p);
  }

  lemma {:induction false} OctetsRead(k: Parser, p: seq<Octet>)
    requires Suspendable(k) && k.st in {Path, Query} && WithChars(k.text, Bytes(p)).Fits()
    requires if k.st == Path then ValidPath(p) else ValidQuery(p)
    ensures Reads(k, PrintOctets(p), CoreOf(k).(text := WithChars(k.text, Bytes(p))))
    decreases |p|
  {
    hide Requests.Step, Requests.Run, Ready, InPath, UriUric, PrintOctet, PrintOctets, Bytes;
    if p == [] {
      assert Bytes(p) == [] == PrintOctets(p) && k.text.chars + [] == k.text.chars by { NoOctets(); }
      NothingRead(k);
    } else {
      OctetsSplit(k.text, p);
      OctetRead(k, p[0]);
      RunConcat(k, PrintOctet(p[0]), PrintOctets(p[1..]));
      OctetsRead(Run(k, PrintOctet(p[0])).k, p[1..]);
    }
  }

  lemma NoOctets()
    ensures Bytes([]) == [] && PrintOctets([]) == []
  {
  }

  /** A space ends the path, or the query. */
  lemma TargetEnds(k: Parser)
    requires Suspendable(k) && k.st in {Path, Query} && k.text.CharFits()
    ensures Step(k, SP) == More(k.(b := k.m, st := PathSp, m := k.m + 1, text := WithChars(k.text, [NUL])))
  {
    hide Requests.Step, Requests.DispatchHead, InPath, UriUric;
    Delimiters();
    StepNext(k, SP);
  }

  lemma QueryStarts(k: Parser)
    requires Suspendable(k) && k.st == Path && k.text.CharFits()
    ensures Step(k, '?' as int)
         == More(k.(b := k.m, st := Query, m := k.m + 1, text := WithChars(k.text, [NUL]),
           rq := k.rq.(query := |k.text.chars| + 1)))
  {
    hide Requests.Step, Requests.DispatchHead, InPath, UriUric;
    Delimiters();
    StepNext(k, '?' as int);
  }

  /** A question mark and a query. */
  lemma QueryRead(k: Parser, q: seq<Octet>)
    requires Suspendable(k) && k.st == Path && ValidQuery(q) && WithChars(k.text, [NUL] + (Bytes(q) + [NUL])).Fits()
    ensures Reads(k, ['?' as int] + (PrintOctets(q) + [SP]),
              CoreOf(k).(st := PathSp, text := WithChars(k.text, [NUL] + (Bytes(q) + [NUL])),
                rq := k.rq.(query := |k.text.chars| + 1)))
  {
    hide Requests.Run, Requests.Step, Requests.Ready, PrintOctets, Bytes, ValidQuery;
    var t := k.text.chars;
    assert (t + [NUL]) + Bytes(q) + [NUL] == t + ([NUL] + (Bytes(q) + [NUL]));
    QueryStarts(k);
    Cons(k, '?' as int, PrintOctets(q) + [SP]);
    var k1 := Step(k, '?' as int).k;
    OctetsRead(k1, q);
    Snoc(k1, PrintOctets(q), SP);
    TargetEnds(Run(k1, PrintOctets(q)).k);
  }

  /** The rest of a path: its end, or a question mark and a query. */
  lemma PathEnds(k: Parser, query: Option<seq<Octet>>)
    requires Suspendable(k) && k.st == Path && (query.Some? ==> ValidQuery(query.value))
    requires WithChars(k.text, [NUL] + match query case None => [] case Some(q) => Bytes(q) + [NUL]).Fits()
    ensures var cs := (match query case None => [] case Some(q) => ['?' as int] + PrintOctets(q)) + [SP];
            var t := [NUL] + match query case None => [] case Some(q) => Bytes(q) + [NUL];
            Reads(k, cs, CoreOf(k).(st := PathSp, text := WithChars(k.text, t),
              rq := if query.None? then k.rq else k.rq.(query := |k.text.chars| + 1)))
  {
    hide Requests.Run, Requests.Step, Requests.Ready, PrintOctets, Bytes, ValidQuery;
    match query
    case None =>
      assert [] + [SP] == [SP] && [NUL] + [] == [NUL];
      TargetEnds(k);
      One(k, SP);
    case Some(q) =>
      assert (['?' as int] + PrintOctets(q)) + [SP] == ['?' as int] + (PrintOctets(q) + [SP]);
      QueryRead(k, q);
  }

  /** A state that treats the first byte alike reads the rest alike. */
  lemma SameStart(k: Parser, k': Parser, cs: seq<Char>)
    requires Suspendable(k) && Suspendable(k') && cs != [] && Step(k, cs[0]) == Step(k', cs[0])
    ensures Run(k, cs) == Run(k', cs)
  {
  }

  lemma TargetPrinted(g: Message)
    requires (g.path != [] || g.query.Some?) && ValidTarget(g)
    ensures var rest := (match g.query case None => [] case Some(q) => ['?' as int] + PrintOctets(q)) + [SP];
            PrintTarget(g) + [SP] == PrintOctets(g.path) + rest
    ensures (PrintTarget(g) + [SP])[0] != SP
    ensures TargetText(g) == Bytes(g.path) + ([NUL] + match g.query case None => [] case Some(q) => Bytes(q) + [NUL])
  {
    hide OneOf, Escape, Bytes;
    Delimiters();
    if g.path != [] {
      TargetBytes(g.path[0].byte);
      EscapeFirst(g.path[0].byte);
    }
  }

  lemma EscapeFirst(c: Char)
    ensures forall high, low :: Escape(c, high, low) != [] && Escape(c, high, low)[0] == '%' as int
  {
  }

  lemma TargetRead(k: Parser, g: Message)
    requires Suspendable(k) && k.st == MethodSp && (g.path != [] || g.query.Some?) && ValidTarget(g)
    requires WithChars(k.text, TargetText(g)).Fits()
    ensures var n := |k.text.chars|;
            Reads(k, PrintTarget(g) + [SP], CoreOf(k).(st := PathSp, text := WithChars(k.text, TargetText(g)),
              rq := k.rq.(path := n, query := if g.query.None? then k.rq.query else n + |g.path| + 1)))
  {
    hide Requests.Step, Requests.Run, Suspendable, Dispatch, PrintTarget, PrintOctets, TargetText, Bytes;
    var k' := k.(st := Path, b := k.m, rq := k.rq.(path := |k.text.chars|));
    var rest := (match g.query case None => [] case Some(q) => ['?' as int] + PrintOctets(q)) + [SP];
    var t := [NUL] + match g.query case None => [] case Some(q) => Bytes(q) + [NUL];
    var cs := PrintTarget(g) + [SP];
    TargetPrinted(g);
    TargetStarts(k, cs[0]);
    SameStart(k, k', cs);
    OctetsRead(k', g.path);
    RunConcat(k', PrintOctets(g.path), rest);
    assert k.text.chars + Bytes(g.path) + t == k.text.chars + TargetText(g);
    PathEnds(Run(k', PrintOctets(g.path)).k, g.query);
  }

  // ---------------------------------------------------------------- the version

  lemma ProtStarts(k: Parser, c: Char)
    requires Suspendable(k) && k.st == PathSp && c != SP
    ensures var k' := k.(st := Prot, ts := START); Suspendable(k') && Step(k, c) == Step(k', c)
  {
    hide Requests.Step, Requests.DispatchHead;
    StepAgain(k, c);
  }

  lemma ProtEnds(k: Parser)
    requires Suspendable(k) && k.st == Prot && Finish(PROTOCOL, k.ts, '/' as int) == Walked(1, k.ts)
    ensures Reads(k, ['/' as int], CoreOf(k).(st := ProtSlash))
  {
    hide Requests.Step, Requests.DispatchHead, WalkTrie;
    StepNext(k, '/' as int);
    One(k, '/' as int);
  }

  const HTTP: seq<Char> := ['H' as int, 'T' as int, 'T' as int, 'P' as int]

  lemma HttpKnown()
    ensures 8 in UtilityShape(10).text && UtilityShape(10).text[8] == HTTP && UTILITY[8].terminal == 1
    ensures NulFree(HTTP) && HTTP_SLASH == HTTP + ['/' as int]
  {
  }

  lemma HttpRead(k: Parser)
    requires Suspendable(k) && k.st == PathSp
    ensures Reads(k, HTTP_SLASH, CoreOf(k).(st := ProtSlash))
  {
    hide Requests.Suspendable;
    var k1 := k.(st := Prot, ts := START);
    UtilityWellFormed(10);
    HttpKnown();
    KnownWord(PROTOCOL, UtilityShape(10), HTTP, 8, '/' as int);
    ProtStarts(k, HTTP[0]);
    SameStart(k, k1, HTTP);
    ProtWalk(k1, HTTP);
    RunConcat(k, HTTP, ['/' as int]);
    ProtEnds(Run(k1, HTTP).k);
  }

  /** A line ended by CR and LF, or by LF alone. */
  lemma LineEnds(k: Parser, lf: bool)
    requires Suspendable(k)
    requires if lf then Step(k, LF).More? else Step(k, CR).More? && Step(k, CR).k.st == Cr && Step(k, CR).k.nl == 0
    ensures Run(k, Eol(lf)) == if lf then Step(k, LF) else
              var k' := Step(k, CR).k; More(k'.(nl := 1, st := Nl, m := k'.m + 1))
  {
    hide Requests.Step, Requests.Run, Requests.Ready;
    if lf {
      One(k, LF);
    } else {
      assert Eol(lf) == [CR] + [LF];
      Cons(k, CR, [LF]);
      CrEnds(Step(k, CR).k);
    }
  }

  lemma CrEnds(k: Parser)
    requires Suspendable(k) && k.st == Cr && k.nl == 0
    ensures Run(k, [LF]) == More(k.(nl := 1, st := Nl, m := k.m + 1))
  {
    hide Requests.Step, Requests.Run, Requests.DispatchLine;
    StepNext(k, LF);
    One(k, LF);
  }

  lemma VersionEndStarts(k: Parser, c: Char)
    requires Suspendable(k) && k.st == ProtHttpXDot && (c == CR || c == LF)
    ensures Dispatch(k, c) == Again(k.(st := ProtHttpXX), c)
  {
    hide Requests.Suspendable, Requests.DispatchHead;
  }

  lemma VersionEndsAt(k: Parser, v: nat, c: Char)
    requires Ready(k) && k.st == ProtHttpXX && k.nl == 0 && v in {9, 10, 11} && (c == CR || c == LF)
    requires k.major == (if v == 9 then 0 else 1) && k.minor == (if v == 9 then 9 else v - 10)
    ensures Dispatch(k, c) == Next(k.(rq := k.rq.(version := v), st := if c == CR then Cr else Nl,
            nl := if c == CR then 0 else 1))
  {
    hide Requests.Ready, Requests.DispatchHead;
  }

  lemma VersionEnds(k: Parser, v: nat, lf: bool)
    requires Suspendable(k) && k.st == ProtHttpXDot && k.nl == 0 && v in {9, 10, 11}
    requires k.major == (if v == 9 then 0 else 1) && k.minor == (if v == 9 then 9 else v - 10)
    ensures Reads(k, Eol(lf), CoreOf(k).(st := Nl, nl := 1, rq := k.rq.(version := v)))
  {
    hide Requests.Step, Requests.Run, Requests.Dispatch;
    var c := if lf then LF else CR;
    VersionEndStarts(k, c);
    StepAgain(k, c);
    VersionEndsAt(k.(st := ProtHttpXX), v, c);
    StepNext(k.(st := ProtHttpXX), c);
    LineEnds(k, lf);
  }

  lemma MajorRead(k: Parser, c: Char)
    requires Suspendable(k) && k.st == ProtSlash && k.major == 0 && k.nl == 0 && IsDigit(c)
    ensures Step(k, c) == More(k.(major := c - '0' as int, m := k.m + 1))
  {
    hide Requests.Step, Requests.DispatchHead;
    StepNext(k, c);
  }

  lemma DotRead(k: Parser)
    requires Suspendable(k) && k.st == ProtSlash && k.nl == 0
    ensures Step(k, '.' as int) == More(k.(st := ProtHttpXDot, m := k.m + 1))
  {
    hide Requests.Step, Requests.DispatchHead;
    StepAgain(k, '.' as int);
    StepNext(k.(st := ProtHttpX), '.' as int);
  }

  lemma MinorRead(k: Parser, c: Char)
    requires Suspendable(k) && k.st == ProtHttpXDot && k.minor == 0 && k.nl == 0 && IsDigit(c)
    ensures Step(k, c) == More(k.(minor := c - '0' as int, m := k.m + 1))
  {
    hide Requests.Step, Requests.DispatchHead;
    StepNext(k, c);
  }

  lemma VersionPrinted(v: nat)
    requires v in {9, 10, 11}
    ensures var (a, b) := ('0' as int + (if v == 9 then 0 else 1), '0' as int + (if v == 9 then 9 else v - 10));
            PrintVersion(v) == [a] + (['.' as int] + [b])
  {
  }

  lemma VersionRead(k: Parser, v: nat, lf: bool)
    requires Suspendable(k) && k.st == ProtSlash && k.nl == 0 && k.major == 0 && k.minor == 0 && v in {9, 10, 11}
    ensures var major := if v == 9 then 0 else 1; var minor := if v == 9 then 9 else v - 10;
            Reads(k, PrintVersion(v) + Eol(lf),
              CoreOf(k).(st := Nl, nl := 1, major := major, minor := minor, rq := k.rq.(version := v)))
  {
    hide Requests.Run, Requests.Step, Requests.Ready, PrintVersion, Eol;
    var p, a, b := PrintVersion(v), '0' as int + (if v == 9 then 0 else 1), '0' as int + (if v == 9 then 9 else v - 10);
    VersionPrinted(v);
    MajorRead(k, a);
    Cons(k, a, ['.' as int] + [b]);
    var k1 := Step(k, a).k;
    DotRead(k1);
    Cons(k1, '.' as int, [b]);
    var k2 := Step(k1, '.' as int).k;
    MinorRead(k2, b);
    One(k2, b);
    RunConcat(k, p, Eol(lf));
    VersionEnds(Run(k, p).k, v, lf);
  }

  lemma ProtocolRead(k: Parser, v: nat, lf: bool)
    requires Suspendable(k) && k.st == PathSp && k.nl == 0 && k.major == 0 && k.minor == 0 && v in {9, 10, 11}
    ensures var r := Run(k, HTTP_SLASH + PrintVersion(v) + Eol(lf));
            && r.More? && r.k.st == Nl && r.k.nl == 1 && r.k.hmask == k.hmask
            && r.k.text == k.text && r.k.rq == k.rq.(version := v)
  {
    hide Requests.Step, Requests.Run;
    assert HTTP_SLASH + PrintVersion(v) + Eol(lf) == HTTP_SLASH + (PrintVersion(v) + Eol(lf));
    HttpRead(k);
    RunConcat(k, HTTP_SLASH, PrintVersion(v) + Eol(lf));
    VersionRead(Run(k, HTTP_SLASH).k, v, lf);
  }

  lemma RequestLineRead(k: Parser, g: Message)
    requires Suspendable(k) && k.st == Initial && k.nl == 0 && k.major == 0 && k.minor == 0
    requires 1 <= g.method_ <= 8 && (g.path != [] || g.query.Some?) && ValidTarget(g) && g.version in {9, 10, 11}
    requires WithChars(k.text, TargetText(g)).Fits()
    ensures var n := |k.text.chars|;
            var r := Run(k, PrintRequestLine(g));
            && r.More? && r.k.st == Nl && r.k.nl == 1 && r.k.hmask == k.hmask
            && r.k.text == WithChars(k.text, TargetText(g))
            && r.k.rq == k.rq.(method_ := g.method_, version := g.version, path := n,
                               query := if g.query.None? then k.rq.query else n + |g.path| + 1)
  {
    hide Requests.Step, Requests.Run, Requests.Ready;
    var a, b, c := PrintMethod(g.method_) + [SP], PrintTarget(g) + [SP],
      HTTP_SLASH + PrintVersion(g.version) + Eol(g.lf);
    MethodRead(k, g.method_);
    RunConcat(k, a, b + c);
    var k1 := Run(k, a).k;
    TargetRead(k1, g);
    RunConcat(k1, b, c);
    ProtocolRead(Run(k1, b).k, g.version, g.lf);
  }
}
