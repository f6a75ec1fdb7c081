/** The two keyword tables shipped in libhttp/http.c, what each of their rows spells, and the linear search they stand
    for. */
module Keywords {
  import opened Chars
  import opened Patricia

  // ---------------------------------------------------------------- header names

  function HeaderRow(i: nat): Entry {
    match i
    case 0 => Node("a", 0, 1, 4, 0)
    case 2 => Node("c", 0, 8, 13, 0)
    case 3 => Node("date", 0, 99, 0, 15)
    case 4 => Node("expect", 0, 99, 0, 16)
    case 5 => Node("from", 0, 99, 0, 17)
    case 6 => Node("ccept", 1, 2, 0, 1)
    case 7 => Node("host", 0, 99, 0, 18)
    case 8 => Node("if-", 0, 26, 30, 0)
    case 9 => Node("charset", 3, 99, 0, 2)
    case 10 => Node("e", 41, 99, 0, 30)
    case 11 => Node("encoding", 3, 99, 0, 3)
    case 12 => Node("max-forwards", 0, 99, 0, 24)
    case 13 => Node("ache-control", 8, 99, 0, 6)
    case 14 => Node("origin", 0, 99, 0, 25)
    case 15 => Node("pr", 0, 35, 25, 0)
    case 16 => Node("atch", 27, 99, 0, 19)
    case 17 => Node("r", 0, 38, 28, 0)
    case 18 => Node("language", 3, 99, 0, 4)
    case 19 => Node("t", 0, 41, 6, 0)
    case 20 => Node("u", 0, 46, 31, 0)
    case 21 => Node("via", 0, 99, 0, 35)
    case 22 => Node("warning", 0, 99, 0, 36)
    case 23 => Node("ra", 41, 43, 21, 0)
    case 24 => Node("uthorization", 1, 99, 0, 5)
    case 25 => Node("agma", 35, 99, 0, 26)
    case 26 => Node("-", 2, 3, 7, 0)
    case 27 => Node("o", 8, 10, 23, 0)
    case 28 => Node("ange", 38, 99, 0, 28)
    case 29 => Node("iler", 43, 99, 0, 31)
    case 30 => Node("odified-since", 27, 99, 0, 20)
    case 31 => Node("anguage", 15, 99, 0, 9)
    case 32 => Node("eferer", 38, 99, 0, 29)
    case 33 => Node("encoding", 13, 99, 0, 8)
    case 34 => Node("nsfer-encoding", 43, 99, 0, 32)
    case 35 => Node("ength", 15, 99, 0, 10)
    case 36 => Node("n", 10, 11, 25, 0)
    case 37 => Node("okie", 10, 99, 0, 14)
    case 38 => Node("nection", 11, 99, 0, 7)
    case 39 => Node("oxy-authorization", 35, 99, 0, 27)
    case 40 => Node("l", 13, 15, 31, 0)
    case 41 => Node("md5", 13, 99, 0, 12)
    case 42 => Node("m", 26, 27, 16, 0)
    case 43 => Node("none-match", 26, 99, 0, 21)
    case 44 => Node("tent-", 11, 13, 29, 0)
    case 45 => Node("ocation", 15, 99, 0, 11)
    case 46 => Node("pgrade", 46, 99, 0, 33)
    case 47 => Node("range", 26, 99, 0, 22)
    case 48 => Node("type", 13, 99, 0, 13)
    case 49 => Node("ser-agent", 46, 99, 0, 34)
    case 50 => Node("unmodified-since", 26, 99, 0, 23)
    case _ => Null
  }

  function HeaderTable(n: nat): (t: seq<Entry>)
    ensures |t| == n && forall i :: 0 <= i < n ==> t[i] == HeaderRow(i)
  {
    seq(n, i requires 0 <= i => HeaderRow(i))
  }

  const HEADERS := Trie(HeaderTable(59), Node("", 0, 0, 0, 0), HeaderAlphabet)

  /** The text spelled from the start of the walk through row `i`. */
  function HeaderText(i: nat): string {
    match i
    case 0 => "a"
    case 2 => "c"
    case 3 => "date"
    case 4 => "expect"
    case 5 => "from"
    case 6 => "accept"
    case 7 => "host"
    case 8 => "if-"
    case 9 => "accept-charset"
    case 10 => "te"
    case 11 => "accept-encoding"
    case 12 => "max-forwards"
    case 13 => "cache-control"
    case 14 => "origin"
    case 15 => "pr"
    case 16 => "if-match"
    case 17 => "r"
    case 18 => "accept-language"
    case 19 => "t"
    case 20 => "u"
    case 21 => "via"
    case 22 => "warning"
    case 23 => "tra"
    case 24 => "authorization"
    case 25 => "pragma"
    case 26 => "accept-"
    case 27 => "co"
    case 28 => "range"
    case 29 => "trailer"
    case 30 => "if-modified-since"
    case 31 => "content-language"
    case 32 => "referer"
    case 33 => "content-encoding"
    case 34 => "transfer-encoding"
    case 35 => "content-length"
    case 36 => "con"
    case 37 => "cookie"
    case 38 => "connection"
    case 39 => "proxy-authorization"
    case 40 => "content-l"
    case 41 => "content-md5"
    case 42 => "if-m"
    case 43 => "if-none-match"
    case 44 => "content-"
    case 45 => "content-location"
    case 46 => "upgrade"
    case 47 => "if-range"
    case 48 => "content-type"
    case 49 => "user-agent"
    case 50 => "if-unmodified-since"
    case _ => ""
  }

  /** The row whose `next` is `n`. */
  function HeaderOwner(n: nat): nat {
    match n
    case 1 => 0
    case 2 => 6
    case 3 => 26
    case 8 => 2
    case 10 => 27
    case 11 => 36
    case 13 => 44
    case 15 => 40
    case 26 => 8
    case 27 => 42
    case 35 => 15
    case 38 => 17
    case 41 => 19
    case 43 => 23
    case 46 => 20
    case _ => 59
  }

  ghost const HEADER_SHAPE := Shape(
    map i: nat | i < 59 && HeaderRow(i).Node? :: Codes(HeaderText(i)),
    map i: nat | i < 59 && HeaderRow(i).Node? && HeaderRow(i).check != 0 :: HeaderOwner(HeaderRow(i).check))

  /** The header names, by their codes. */
  function HeaderName(k: nat): string {
    match k
    case 0 => "X-Unknown-Header"
    case 1 => "Accept"
    case 2 => "Accept-Charset"
    case 3 => "Accept-Encoding"
    case 4 => "Accept-Language"
    case 5 => "Authorization"
    case 6 => "Cache-Control"
    case 7 => "Connection"
    case 8 => "Content-Encoding"
    case 9 => "Content-Language"
    case 10 => "Content-Length"
    case 11 => "Content-Location"
    case 12 => "Content-MD5"
    case 13 => "Content-Type"
    case 14 => "Cookie"
    case 15 => "Date"
    case 16 => "Expect"
    case 17 => "From"
    case 18 => "Host"
    case 19 => "If-Match"
    case 20 => "If-Modified-Since"
    case 21 => "If-None-Match"
    case 22 => "If-Range"
    case 23 => "If-Unmodified-Since"
    case 24 => "Max-Forwards"
    case 25 => "Origin"
    case 26 => "Pragma"
    case 27 => "Proxy-Authorization"
    case 28 => "Range"
    case 29 => "Referer"
    case 30 => "TE"
    case 31 => "Trailer"
    case 32 => "Transfer-Encoding"
    case 33 => "Upgrade"
    case 34 => "User-Agent"
    case 35 => "Via"
    case 36 => "Warning"
    case _ => ""
  }

  const HEADER_NAMES := 37

  function HeaderSlot(k: nat): nat {
    match k
    case 1 => 6
    case 2 => 9
    case 3 => 11
    case 4 => 18
    case 5 => 24
    case 6 => 13
    case 7 => 38
    case 8 => 33
    case 9 => 31
    case 10 => 35
    case 11 => 45
    case 12 => 41
    case 13 => 48
    case 14 => 37
    case 15 => 3
    case 16 => 4
    case 17 => 5
    case 18 => 7
    case 19 => 16
    case 20 => 30
    case 21 => 43
    case 22 => 47
    case 23 => 50
    case 24 => 12
    case 25 => 14
    case 26 => 25
    case 27 => 39
    case 28 => 28
    case 29 => 32
    case 30 => 10
    case 31 => 29
    case 32 => 34
    case 33 => 46
    case 34 => 49
    case 35 => 21
    case 36 => 22
    case _ => 59
  }

  // ---------------------------------------------------------------- finite facts about the rows and names

  /** A label of the table: letters in lower case, dashes and the 5 of "md5". */
  predicate IsCleanChar(c: char) { 'a' <= c <= 'z' || c == '-' || c == '5' }

  predicate Clean(s: string) { s != "" && forall i :: 0 <= i < |s| ==> IsCleanChar(s[i]) }

  predicate RowSpelled(i: nat) {
    HeaderRow(i).Node? ==>
      if HeaderRow(i).check == 0 then HeaderText(i) == HeaderRow(i).prefix
      else HeaderText(i) == HeaderText(HeaderOwner(HeaderRow(i).check)) + HeaderRow(i).prefix
  }

  predicate Folds(name: string, text: string) {
    |name| == |text| && forall j :: 0 <= j < |text| ==> Lower(name[j] as int) == text[j] as int
  }

  predicate NameSpelled(k: nat) {
    && HeaderSlot(k) < 59 && HeaderRow(HeaderSlot(k)).Node? && HeaderRow(HeaderSlot(k)).terminal == k
    && Folds(HeaderName(k), HeaderText(HeaderSlot(k)))
  }

  function First(p: string): nat { if p == "" then 0 else IndexOf(HeaderAlphabet, p[0] as int) }

  lemma RowTexts0()
    ensures "a" + "ccept" == "accept" && "accept-" + "charset" == "accept-charset" && "t" + "e" == "te"
    ensures "accept-" + "encoding" == "accept-encoding" && "c" + "ache-control" == "cache-control"
    ensures "if-m" + "atch" == "if-match" && "accept-" + "language" == "accept-language"
  {
  }

  lemma RowTexts1()
    ensures "t" + "ra" == "tra" && "a" + "uthorization" == "authorization" && "pr" + "agma" == "pragma"
    ensures "accept" + "-" == "accept-" && "c" + "o" == "co" && "r" + "ange" == "range" && "tra" + "iler" == "trailer"
    ensures "if-m" + "odified-since" == "if-modified-since" && "content-l" + "anguage" == "content-language"
  {
  }

  lemma RowTexts2()
    ensures "r" + "eferer" == "referer" && "content-" + "encoding" == "content-encoding"
    ensures "tra" + "nsfer-encoding" == "transfer-encoding" && "content-l" + "ength" == "content-length"
    ensures "co" + "n" == "con" && "co" + "okie" == "cookie" && "con" + "nection" == "connection"
    ensures "pr" + "oxy-authorization" == "proxy-authorization" && "content-" + "l" == "content-l"
    ensures "content-" + "md5" == "content-md5"
  {
  }

  lemma RowTexts3()
    ensures "if-" + "m" == "if-m" && "if-" + "none-match" == "if-none-match" && "con" + "tent-" == "content-"
    ensures "content-l" + "ocation" == "content-location" && "u" + "pgrade" == "upgrade"
    ensures "if-" + "range" == "if-range" && "content-" + "type" == "content-type"
    ensures "u" + "ser-agent" == "user-agent" && "if-" + "unmodified-since" == "if-unmodified-since"
  {
  }

  lemma Clean0()
    ensures Clean("-") && Clean("a") && Clean("ache-control") && Clean("agma") && Clean("ange") && Clean("anguage")
    ensures Clean("atch") && Clean("c") && Clean("ccept") && Clean("charset") && Clean("date") && Clean("e")
    ensures Clean("eferer") && Clean("encoding") && Clean("ength") && Clean("expect") && Clean("from")
    ensures Clean("host") && Clean("if-") && Clean("iler") && Clean("l") && Clean("language")
  {
  }

  lemma Clean1()
    ensures Clean("m") && Clean("max-forwards") && Clean("md5") && Clean("n") && Clean("nection")
    ensures Clean("none-match") && Clean("nsfer-encoding") && Clean("o") && Clean("ocation")
    ensures Clean("odified-since") && Clean("okie") && Clean("origin") && Clean("oxy-authorization")
  {
  }

  lemma Clean2()
    ensures Clean("pgrade") && Clean("pr") && Clean("r") && Clean("ra") && Clean("range") && Clean("ser-agent")
    ensures Clean("t") && Clean("tent-") && Clean("type") && Clean("u") && Clean("unmodified-since")
    ensures Clean("uthorization") && Clean("via") && Clean("warning")
  {
  }

  lemma Names0()
    ensures Folds("Accept", "accept") && Folds("Accept-Charset", "accept-charset")
    ensures Folds("Accept-Encoding", "accept-encoding") && Folds("Accept-Language", "accept-language")
    ensures Folds("Authorization", "authorization") && Folds("From", "from") && Folds("Host", "host")
            && Folds("If-Match", "if-match")
  {
  }

  lemma Names1()
    ensures Folds("Cache-Control", "cache-control") && Folds("Connection", "connection")
    ensures Folds("Content-Encoding", "content-encoding") && Folds("Content-Language", "content-language")
  {
  }

  lemma Names2()
    ensures Folds("Content-Length", "content-length") && Folds("Content-Location", "content-location")
    ensures Folds("Content-MD5", "content-md5") && Folds("Content-Type", "content-type")
    ensures Folds("Cookie", "cookie") && Folds("Date", "date") && Folds("Expect", "expect")
  {
  }

  lemma Names3()
    ensures Folds("If-Modified-Since", "if-modified-since") && Folds("If-None-Match", "if-none-match")
    ensures Folds("If-Range", "if-range") && Folds("If-Unmodified-Since", "if-unmodified-since")
  {
  }

  lemma Names4()
    ensures Folds("Max-Forwards", "max-forwards") && Folds("Origin", "origin") && Folds("Pragma", "pragma")
    ensures Folds("Proxy-Authorization", "proxy-authorization") && Folds("Range", "range")
    ensures Folds("Referer", "referer") && Folds("TE", "te") && Folds("Trailer", "trailer")
  {
  }

  lemma Names5()
    ensures Folds("Transfer-Encoding", "transfer-encoding") && Folds("Upgrade", "upgrade")
    ensures Folds("User-Agent", "user-agent") && Folds("Via", "via") && Folds("Warning", "warning")
  {
  }

  lemma Rows0(i: nat) requires i < 20 ensures RowSpelled(i) { RowTexts0(); }
  lemma Rows1(i: nat) requires 20 <= i < 32 ensures RowSpelled(i) { RowTexts1(); }
  lemma Rows2(i: nat) requires 32 <= i < 42 ensures RowSpelled(i) { RowTexts2(); }
  lemma Rows3(i: nat) requires 42 <= i < 59 ensures RowSpelled(i) { RowTexts3(); }

  lemma RowsSpelled(i: nat)
    requires i < 59
    ensures RowSpelled(i)
  {
    hide RowSpelled;
    if i < 20 { Rows0(i); } else if i < 32 { Rows1(i); } else if i < 42 { Rows2(i); } else { Rows3(i); }
  }

  lemma RowsClean(i: nat)
    requires i < 59 && HeaderRow(i).Node?
    ensures Clean(HeaderRow(i).prefix)
  {
    hide Clean;
    Clean0();
    Clean1();
    Clean2();
  }

  lemma LowNames(k: nat)
    requires 1 <= k < 20
    ensures NameSpelled(k)
  {
    hide Folds;
    Names0();
    Names1();
    Names2();
  }

  lemma HighNames(k: nat)
    requires 20 <= k < HEADER_NAMES
    ensures NameSpelled(k)
  {
    hide Folds;
    Names3();
    Names4();
    Names5();
  }

  lemma NamesSpelled(k: nat)
    requires 1 <= k < HEADER_NAMES
    ensures NameSpelled(k)
  {
    hide NameSpelled;
    if k < 20 { LowNames(k); } else { HighNames(k); }
  }

  lemma Firsts()
    ensures First("-") == 26 && First("a") == 0 && First("ache-control") == 0 && First("agma") == 0
    ensures First("ange") == 0 && First("anguage") == 0 && First("atch") == 0 && First("c") == 2
    ensures First("ccept") == 2 && First("charset") == 2 && First("date") == 3 && First("e") == 4
    ensures First("eferer") == 4 && First("encoding") == 4 && First("ength") == 4 && First("expect") == 4
    ensures First("from") == 5 && First("host") == 7 && First("if-") == 8 && First("iler") == 8 && First("l") == 11
    ensures First("language") == 11 && First("m") == 12 && First("max-forwards") == 12 && First("md5") == 12
    ensures First("n") == 13 && First("nection") == 13 && First("none-match") == 13 && First("nsfer-encoding") == 13
    ensures First("o") == 14 && First("ocation") == 14 && First("odified-since") == 14 && First("okie") == 14
    ensures First("origin") == 14 && First("oxy-authorization") == 14 && First("pgrade") == 15 && First("pr") == 15
    ensures First("r") == 17 && First("ra") == 17 && First("range") == 17 && First("ser-agent") == 18
    ensures First("t") == 19 && First("tent-") == 19 && First("type") == 19 && First("u") == 20
    ensures First("unmodified-since") == 20 && First("uthorization") == 20 && First("via") == 21
    ensures First("warning") == 22
  {
  }

  lemma RowRange(i: nat)
    requires i < 59 && HeaderRow(i).Node?
    ensures HeaderRow(i).offset + 27 < 59 && HeaderRow(i).check != 99 && HeaderRow(i).prefix != ""
  {
  }

  lemma RowLinks(i: nat)
    requires i < 59 && HeaderRow(i).Node?
    ensures HeaderRow(i).offset + 27 < 59 && HeaderRow(i).check != 99 && HeaderRow(i).prefix != ""
    ensures HeaderRow(i).next != 99 ==> HeaderRow(i).next != 0 && HeaderOwner(HeaderRow(i).next) == i
  {
    RowRange(i);
  }

  lemma RowOwned(i: nat)
    requires i < 59 && HeaderRow(i).Node? && HeaderRow(i).check != 0
    ensures var o := HeaderOwner(HeaderRow(i).check);
            o < 59 && HeaderRow(o).Node? && HeaderRow(o).next == HeaderRow(i).check
  {
  }

  /** Each row is where the offset of the row before it and its first letter say. */
  lemma RowPlaced(i: nat)
    requires i < 59 && HeaderRow(i).Node? && (HeaderRow(i).check != 0 ==>
               HeaderRow(HeaderOwner(HeaderRow(i).check)).Node?)
    ensures var e, o := HeaderRow(i), HeaderOwner(HeaderRow(i).check);
            i == (if e.check != 0 then HeaderRow(o).offset else 0) + First(e.prefix)
  {
    hide First;
    Firsts();
  }

  lemma {:induction false} TextClean(i: nat)
    requires i < 59 && HeaderRow(i).Node?
    ensures Clean(HeaderText(i))
    decreases |HeaderText(i)|
  {
    hide HeaderText;
    RowsSpelled(i);
    RowsClean(i);
    if HeaderRow(i).check != 0 {
      RowOwned(i);
      TextClean(HeaderOwner(HeaderRow(i).check));
    }
  }

  predicate IsNameChar(c: char) { 'A' <= c <= 'Z' || 'a' <= c <= 'z' || c == '-' || c == '5' }

  lemma NamesClean(k: nat)
    requires 1 <= k < HEADER_NAMES
    ensures HeaderName(k) != "" && forall c :: c in HeaderName(k) ==> IsNameChar(c)
  {
    hide HeaderText, HeaderName;
    NamesSpelled(k);
    TextClean(HeaderSlot(k));
    forall c | c in HeaderName(k)
      ensures IsNameChar(c)
    {
      var j :| 0 <= j < |HeaderName(k)| && HeaderName(k)[j] == c;
      assert IsCleanChar(HeaderText(HeaderSlot(k))[j]);
    }
  }

  lemma SlotNamed(i: nat)
    requires i < 59 && HeaderRow(i).Node? && HeaderRow(i).terminal != 0
    ensures 1 <= HeaderRow(i).terminal < HEADER_NAMES && HeaderSlot(HeaderRow(i).terminal) == i
  {
  }

  lemma RowOk(x: nat)
    requires x < 59
    ensures PrefixOk(HeaderRow(x)) && (HeaderRow(x).Node? ==> HeaderRow(x).offset + 27 < 59)
  {
    hide HeaderRow;
    if HeaderRow(x).Node? {
      RowsClean(x);
      assert !IsCleanChar('\0');
      RowLinks(x);
    }
  }

  lemma HeaderRowsOk()
    ensures RowsOk(HEADERS)
  {
    hide HeaderRow;
    forall x | 0 <= x < |HEADERS.tree|
      ensures PrefixOk(HEADERS.tree[x]) && (HEADERS.tree[x].Node? ==> HEADERS.tree[x].offset + 27 < 59)
    {
      RowOk(x);
    }
  }

  lemma HeaderSlotIn(s: nat)
    requires s in HEADER_SHAPE.text
    ensures SlotIn(HEADERS, HEADER_SHAPE, s)
  {
    hide HeaderRow, HeaderText;
    RowsSpelled(s);
  }

  lemma HeaderFollows(s: nat)
    requires RowsOk(HEADERS) && s in HEADER_SHAPE.text
    ensures if s in HEADER_SHAPE.parent then
              var p := HEADER_SHAPE.parent[s]; p in HEADER_SHAPE.text && Follows(HEADERS, HEADERS.tree[p], s)
            else Follows(HEADERS, HEADERS.root, s)
  {
    if HeaderRow(s).check != 0 {
      RowOwned(s);
    }
    assert PrefixOk(HEADERS.tree[s]);
    RowPlaced(s);
  }

  lemma HeaderSlotOk(s: nat)
    requires RowsOk(HEADERS) && s in HEADER_SHAPE.text
    ensures SlotIn(HEADERS, HEADER_SHAPE, s) && SlotOk(HEADERS, HEADER_SHAPE, s)
  {
    HeaderSlotIn(s);
    HeaderFollows(s);
    if s in HEADER_SHAPE.parent {
      HeaderSlotIn(HEADER_SHAPE.parent[s]);
    }
    TextContinues(s);
  }

  lemma TextContinues(i: nat)
    requires i < 59 && HeaderRow(i).Node?
    ensures var e := HeaderRow(i);
            Codes(HeaderText(i)) == (if e.check != 0 then Codes(HeaderText(HeaderOwner(e.check))) else [])
              + Codes(e.prefix)
  {
    RowsSpelled(i);
  }

  lemma HeaderFollower(x: nat)
    requires RowsOk(HEADERS) && x < 59 && HeaderRow(x).Node?
    ensures Follows(HEADERS, HEADERS.root, x) ==> x !in HEADER_SHAPE.parent
    ensures forall p :: p in HEADER_SHAPE.text && Follows(HEADERS, HeaderRow(p), x) ==>
              x in HEADER_SHAPE.parent && HEADER_SHAPE.parent[x] == p
  {
    RowLinks(x);
    forall p | p in HEADER_SHAPE.text && Follows(HEADERS, HeaderRow(p), x)
      ensures x in HEADER_SHAPE.parent && HEADER_SHAPE.parent[x] == p
    {
      RowLinks(p);
    }
  }

  lemma HeadersWellFormed()
    ensures WellFormed(HEADERS, HEADER_SHAPE)
  {
    HeaderRowsOk();
    forall s | s in HEADER_SHAPE.text
      ensures SlotIn(HEADERS, HEADER_SHAPE, s) && SlotOk(HEADERS, HEADER_SHAPE, s)
    {
      HeaderSlotOk(s);
    }
    forall x | 0 <= x < 59 && HEADERS.tree[x].Node?
      ensures Follows(HEADERS, HEADERS.root, x) ==> x !in HEADER_SHAPE.parent
      ensures forall p :: p in HEADER_SHAPE.text && Follows(HEADERS, HEADERS.tree[p], x) ==>
                x in HEADER_SHAPE.parent && HEADER_SHAPE.parent[x] == p
    {
      HeaderFollower(x);
    }
  }

  // ---------------------------------------------------------------- the linear search

  predicate SameName(w: seq<int>, name: string) {
    |w| == |name| && forall j :: 0 <= j < |w| ==> Lower(w[j]) == Lower(name[j] as int)
  }

  function LowerAll(w: seq<int>): (r: seq<int>)
    ensures |r| == |w| && forall j :: 0 <= j < |w| ==> r[j] == Lower(w[j])
  {
    seq(|w|, j requires 0 <= j < |w| => Lower(w[j]))
  }

  lemma SlotSpellsName(w: seq<int>, k: nat)
    requires 1 <= k < HEADER_NAMES
    ensures HeaderSlot(k) in HEADER_SHAPE.text && HeaderRow(HeaderSlot(k)).terminal == k
    ensures SameName(w, HeaderName(k)) <==> LowerAll(w) == HEADER_SHAPE.text[HeaderSlot(k)]
  {
    NamesSpelled(k);
    var name, text := HeaderName(k), HeaderText(HeaderSlot(k));
    assert forall c :: Lower(Lower(c)) == Lower(c);
    if |w| == |name| {
      forall j | 0 <= j < |w|
        ensures Lower(w[j]) == Lower(name[j] as int) <==> LowerAll(w)[j] == Codes(text)[j]
      {
      }
    }
  }

  /** The shipped header trie finds exactly what a linear search of the header names finds, ignoring case. */
  lemma HeaderTrieIsLinearSearch(w: seq<int>, sep: int)
    requires NulFree(w)
    ensures var r := Lookup(HEADERS, LowerAll(w), sep);
            && r.Walked?
            && (forall k :: 1 <= k < HEADER_NAMES ==> (r.r == k <==> SameName(w, HeaderName(k))))
            && (r.r == 0 <==> exists s ::
                 s in HEADER_SHAPE.text && HeaderRow(s).terminal == 0 && LowerAll(w) == HEADER_SHAPE.text[s])
            && -1 <= r.r < HEADER_NAMES
  {
    HeadersWellFormed();
    LookupReports(HEADERS, HEADER_SHAPE, LowerAll(w), sep);
    var r := Lookup(HEADERS, LowerAll(w), sep).r;
    if s :| s in HEADER_SHAPE.text && HEADER_SHAPE.text[s] == LowerAll(w) {
      assert r == HeaderRow(s).terminal;
      if r != 0 {
        SlotNamed(s);
      }
    }
    forall k | 1 <= k < HEADER_NAMES
      ensures r == k <==> SameName(w, HeaderName(k))
    {
      SlotSpellsName(w, k);
    }
  }

  // ---------------------------------------------------------------- methods, protocol and flag values

  function UtilityRow(i: nat): Entry {
    match i
    case 2 => Node("CONNECT", 0, 99, 0, 8)
    case 3 => Node("DELETE", 0, 99, 0, 6)
    case 4 => Node("close", 20, 99, 0, 1)
    case 5 => Node("chunked", 25, 99, 0, 8)
    case 6 => Node("GET", 0, 99, 0, 1)
    case 7 => Node("HEAD", 0, 99, 0, 2)
    case 8 => Node("HTTP", 10, 99, 0, 1)
    case 12 => Node("keep-alive", 20, 99, 0, 2)
    case 14 => Node("OPTIONS", 0, 99, 0, 5)
    case 15 => Node("P", 0, 1, 2, 0)
    case 16 => Node("OST", 1, 99, 0, 3)
    case 19 => Node("TRACE", 0, 99, 0, 7)
    case 22 => Node("UT", 1, 99, 0, 4)
    case 26 => Node("100-continue", 30, 99, 0, 4)
    case _ => Null
  }

  function UtilityTable(n: nat): (t: seq<Entry>)
    ensures |t| == n && forall i :: 0 <= i < n ==> t[i] == UtilityRow(i)
  {
    seq(n, i requires 0 <= i => UtilityRow(i))
  }

  const UTILITY := UtilityTable(30)

  function UtilityTrie(start: nat): Trie {
    Trie(UtilityTable(30), Node("", 0, start, RootOffset(start), 0), UtilityAlphabet)
  }

  function RootOffset(start: nat): nat {
    if start == 10 then 1 else if start == 20 then 2 else if start == 25 then 3 else 0
  }

  const METHODS := UtilityTrie(0)
  const PROTOCOL := UtilityTrie(10)
  const CONNECTION := UtilityTrie(20)
  const TRANSFER := UtilityTrie(25)
  const EXPECT := UtilityTrie(30)

  function MethodName(k: nat): string {
    match k
    case 1 => "GET"
    case 2 => "HEAD"
    case 3 => "POST"
    case 4 => "PUT"
    case 5 => "OPTIONS"
    case 6 => "DELETE"
    case 7 => "TRACE"
    case 8 => "CONNECT"
    case _ => ""
  }

  function MethodSlot(k: nat): nat {
    match k
    case 1 => 6
    case 2 => 7
    case 3 => 16
    case 4 => 22
    case 5 => 14
    case 6 => 3
    case 7 => 19
    case 8 => 2
    case _ => 15
  }

  function UtilityText(i: nat): string {
    if i == 16 then "POST" else if i == 22 then "PUT" else if UtilityRow(i).Node? then UtilityRow(i).prefix else ""
  }

  /** The rows of one of the five tries. Those with check 1 continue row 15. */
  ghost function UtilityShape(start: nat): Shape {
    Shape(map i: nat | i < 30 && UtilityRow(i).Node? && InUtility(start, UtilityRow(i).check) :: Codes(UtilityText(i)),
          map i: nat | i < 30 && UtilityRow(i).Node? && InUtility(start, UtilityRow(i).check)
            && UtilityRow(i).check == 1 :: UtilityOwner(i))
  }

  function UtilityOwner(i: nat): nat { 15 }

  predicate InUtility(start: nat, check: nat) { check == start || (start == 0 && check == 1) }

  predicate IsRoot(start: nat) { start == 0 || start == 10 || start == 20 || start == 25 || start == 30 }

  lemma UtilityRows(x: nat)
    requires x < 30 && UtilityRow(x).Node?
    ensures PrefixOk(UtilityRow(x)) && UtilityRow(x).offset + 26 < 30
  {
  }

  lemma UtilityPlaced(x: nat)
    requires x < 30 && UtilityRow(x).Node? && UtilityRow(x).prefix != ""
    ensures var e := UtilityRow(x);
            && (x == if e.check == 1 then 2 + IndexOf(UtilityAlphabet, e.prefix[0] as int)
                     else RootOffset(e.check) + IndexOf(UtilityAlphabet, e.prefix[0] as int))
            && (if x == 15 then e.next == 1 else e.next == 99)
            && (e.check == 1 || IsRoot(e.check))
  {
  }

  lemma UtilityTextContinues(x: nat)
    requires x < 30 && UtilityRow(x).Node?
    ensures UtilityRow(x).check != 1 ==> UtilityText(x) == UtilityRow(x).prefix
    ensures UtilityRow(x).check == 1 ==> Codes(UtilityText(x)) == Codes(UtilityText(15)) + Codes(UtilityRow(x).prefix)
  {
  }

  lemma UtilityRowsOk(start: nat)
    ensures RowsOk(UtilityTrie(start))
  {
    forall x | 0 <= x < |UTILITY|
      ensures PrefixOk(UTILITY[x]) && (UtilityRow(x).Node? ==> UtilityRow(x).offset + 26 < 30)
    {
      if UtilityRow(x).Node? {
        UtilityRows(x);
      }
    }
  }

  lemma UtilitySlotIn(start: nat, s: nat)
    requires IsRoot(start) && s in UtilityShape(start).text
    ensures SlotIn(UtilityTrie(start), UtilityShape(start), s)
  {
    UtilityRows(s);
    UtilityTextContinues(s);
  }

  lemma UtilityFollows(start: nat, s: nat)
    requires IsRoot(start) && s in UtilityShape(start).text && RowsOk(UtilityTrie(start))
    ensures if s in UtilityShape(start).parent then
              15 in UtilityShape(start).text && Follows(UtilityTrie(start), UTILITY[15], s)
            else Follows(UtilityTrie(start), UtilityTrie(start).root, s)
  {
    assert PrefixOk(UTILITY[s]);
    UtilityPlaced(s);
  }

  lemma UtilitySlotOk(start: nat, s: nat)
    requires IsRoot(start) && s in UtilityShape(start).text && RowsOk(UtilityTrie(start))
    ensures SlotIn(UtilityTrie(start), UtilityShape(start), s) && SlotOk(UtilityTrie(start), UtilityShape(start), s)
  {
    UtilitySlotIn(start, s);
    UtilityFollows(start, s);
    if s in UtilityShape(start).parent {
      UtilitySlotIn(start, 15);
    }
    UtilityTextContinues(s);
  }

  lemma UtilityFollower(start: nat, x: nat)
    requires IsRoot(start) && RowsOk(UtilityTrie(start)) && x < 30 && UtilityRow(x).Node?
    ensures Follows(UtilityTrie(start), UtilityTrie(start).root, x) ==>
              x in UtilityShape(start).text && x !in UtilityShape(start).parent
    ensures forall p :: p in UtilityShape(start).text && Follows(UtilityTrie(start), UTILITY[p], x) ==>
              x in UtilityShape(start).parent && p == 15
  {
    UtilityRows(x);
    UtilityPlaced(x);
    forall p | p in UtilityShape(start).text && Follows(UtilityTrie(start), UTILITY[p], x)
      ensures x in UtilityShape(start).parent && p == 15
    {
      UtilityRows(p);
      UtilityPlaced(p);
    }
  }

  /** Each of the five tries that share the utility table is well formed. */
  lemma UtilityWellFormed(start: nat)
    requires IsRoot(start)
    ensures WellFormed(UtilityTrie(start), UtilityShape(start))
  {
    var t, sh := UtilityTrie(start), UtilityShape(start);
    UtilityRowsOk(start);
    forall s | s in sh.text
      ensures SlotIn(t, sh, s) && SlotOk(t, sh, s)
    {
      UtilitySlotOk(start, s);
    }
    forall x | 0 <= x < 30 && UTILITY[x].Node?
      ensures Follows(t, t.root, x) ==> x in sh.text && x !in sh.parent
      ensures forall p :: p in sh.text && Follows(t, UTILITY[p], x) ==>
                x in sh.text && x in sh.parent && sh.parent[x] == p
    {
      UtilityFollower(start, x);
    }
  }
}
