/** The compacted radix trie of libhttp/http.c: its table format, its interpreter, and what a walk over a well formed
    table finds. */
module Patricia {
  import opened Chars

  /** A table row; an unused row has a null prefix. */
  datatype Entry = Null | Node(prefix: string, check: nat, next: nat, offset: nat, terminal: nat)

  /** The parser's place in a trie: how much of which row's prefix has been matched. */
  datatype TrieState = TrieState(poff: nat, slot: nat)

  const START := TrieState(0, 0)

  /** A walk step: an access outside the table or through a null pointer, or a result and the new place. */
  datatype Walked = Fault | Walked(r: int, ts: TrieState)

  datatype Alphabet = UtilityAlphabet | HeaderAlphabet

  function MaxIndex(a: Alphabet): nat { if a == UtilityAlphabet then 26 else 27 }

  function IndexOf(a: Alphabet, c: int): (i: nat)
    ensures i <= MaxIndex(a)
  {
    match a
    case UtilityAlphabet =>
      if IsUpper(c) then c - 'A' as int
      else if IsLower(c) then c - 'a' as int
      else 26
    case HeaderAlphabet =>
      if IsLower(c) then c - 'a' as int
      else if c == '-' as int then 26
      else 27
  }

  /** A table with the entry a walk starts from. `Null` stands for a null start pointer. */
  datatype Trie = Trie(tree: seq<Entry>, root: Entry, alphabet: Alphabet)

  /** Character `i` of a row's prefix, 0 at its end. */
  function PrefixAt(e: Entry, i: nat): int
    requires e.Node? && i <= |e.prefix|
  {
    if i < |e.prefix| then e.prefix[i] as int else 0
  }

  predicate InTree(t: Trie, ts: TrieState) {
    ts.slot < |t.tree| && t.tree[ts.slot].Node? && ts.poff <= |t.tree[ts.slot].prefix|
  }

  /** One step on character `c` (0 for a terminator), looked up as `offc`. */
  function WalkTrie(c: int, offc: nat, t: Trie, ts: TrieState): (w: Walked)
    ensures w.Walked? && w.r == 0 && ts.poff == 0 ==> w.ts.poff == 1
    ensures w.Walked? && w.r == 0 && ts.poff > 0 ==> w.ts.poff > 0
    ensures w.Walked? && w.r != 0 ==> w.ts == ts
    ensures w.Walked? && w.ts.poff > 0 ==> InTree(t, w.ts)
  {
    if ts.poff > 0 && !InTree(t, ts) then Fault
    else
      var p := if ts.poff > 0 then t.tree[ts.slot] else t.root;
      var pc := if ts.poff > 0 then PrefixAt(p, ts.poff) else 0;
      if ts.poff > 0 && pc == 0 && c == 0 then Walked(p.terminal, ts)
      else if pc == 0 then
        if p.Null? then Fault
        else
          var slot := p.offset + offc;
          if slot >= |t.tree| then Fault
          else if t.tree[slot].Node? && PrefixAt(t.tree[slot], 0) == c && t.tree[slot].check == p.next then
            if t.tree[slot].prefix == "" then Fault else Walked(0, TrieState(1, slot))
          else Walked(-1, ts)
      else if pc == c then Walked(0, ts.(poff := ts.poff + 1))
      else Walked(-1, ts)
  }

  function Advance(t: Trie, ts: TrieState, c: int): Walked {
    WalkTrie(c, IndexOf(t.alphabet, c), t, ts)
  }

  /** The step on a separator, which the parser passes as 0. */
  function Finish(t: Trie, ts: TrieState, sep: int): Walked {
    WalkTrie(0, IndexOf(t.alphabet, sep), t, ts)
  }

  lemma StartUnused(t: Trie, root: Entry, ts: TrieState, c: int)
    requires ts.poff > 0
    ensures Advance(t.(root := root), ts, c) == Advance(t, ts, c)
    ensures Finish(t.(root := root), ts, c) == Finish(t, ts, c)
  {
  }

  function WalkWord(t: Trie, ts: TrieState, w: seq<int>): Walked
    decreases |w|
  {
    if w == [] then Walked(0, ts)
    else
      match Advance(t, ts, w[0])
      case Fault => Fault
      case Walked(r, ts') => if r == 0 then WalkWord(t, ts', w[1..]) else Walked(r, ts')
  }

  /** What walking a word and then a separator reports. */
  function Lookup(t: Trie, w: seq<int>, sep: int): Walked {
    match WalkWord(t, START, w)
    case Fault => Fault
    case Walked(r, ts) => if r == 0 then Finish(t, ts, sep) else Walked(r, ts)
  }

  // ---------------------------------------------------------------- well formed tables

  /** What a table means: the text spelled from the start through each row, and the row each one continues. */
  datatype Shape = Shape(text: map<nat, seq<int>>, parent: map<nat, nat>)

  function Codes(s: string): (r: seq<int>)
    ensures |r| == |s| && forall i :: 0 <= i < |s| ==> r[i] == s[i] as int
  {
    seq(|s|, i requires 0 <= i < |s| => s[i] as int)
  }

  predicate NulFree(w: seq<int>) { forall i :: 0 <= i < |w| ==> w[i] != 0 }

  predicate PrefixOk(e: Entry) {
    e.Node? ==> e.prefix != "" && '\0' !in e.prefix
  }

  /** Row `x` is where row or root `p` leads on the first character of `x`'s prefix. */
  predicate Follows(t: Trie, p: Entry, x: nat)
    requires p.Node? && x < |t.tree| && t.tree[x].Node? && PrefixOk(t.tree[x])
  {
    x == p.offset + IndexOf(t.alphabet, t.tree[x].prefix[0] as int) && t.tree[x].check == p.next
  }

  /** Every row has a proper prefix and leads inside the table. */
  ghost predicate TableOk(t: Trie) {
    forall x :: 0 <= x < |t.tree| ==>
      PrefixOk(t.tree[x]) && (t.tree[x].Node? ==> t.tree[x].offset + MaxIndex(t.alphabet) < |t.tree|)
  }

  ghost predicate RowsOk(t: Trie) {
    t.root.Node? && t.root.offset + MaxIndex(t.alphabet) < |t.tree| && TableOk(t)
  }

  /** A walk stays inside the table; past its first step it never looks at the start pointer. */
  lemma WalkIsSafe(t: Trie, ts: TrieState, c: int, sep: int)
    requires TableOk(t) && if ts.poff == 0 then RowsOk(t) else InTree(t, ts)
    ensures Advance(t, ts, c).Walked? && Finish(t, ts, sep).Walked?
    ensures ts.poff > 0 ==> InTree(t, Advance(t, ts, c).ts)
    ensures Advance(t, ts, c).r == 0 && ts.poff == 0 ==> InTree(t, Advance(t, ts, c).ts)
    ensures ts.poff == 0 ==> Finish(t, ts, sep) == Walked(-1, ts)
  {
  }

  ghost predicate SlotIn(t: Trie, sh: Shape, s: nat)
    requires s in sh.text
  {
    s < |t.tree| && t.tree[s].Node? && |t.tree[s].prefix| <= |sh.text[s]|
  }

  /** Row `s` continues the row or root before it. */
  ghost predicate SlotOk(t: Trie, sh: Shape, s: nat)
    requires RowsOk(t) && s in sh.text && SlotIn(t, sh, s)
  {
    if s in sh.parent then
      var p := sh.parent[s];
      && p in sh.text && SlotIn(t, sh, p) && Follows(t, t.tree[p], s)
      && sh.text[s] == sh.text[p] + Codes(t.tree[s].prefix)
    else
      && Follows(t, t.root, s)
      && sh.text[s] == Codes(t.tree[s].prefix)
  }

  ghost predicate WellFormed(t: Trie, sh: Shape) {
    && RowsOk(t)
    && (forall s :: s in sh.text ==> SlotIn(t, sh, s))
    && (forall s {:trigger SlotOk(t, sh, s)} :: s in sh.text ==> SlotOk(t, sh, s))
    && (forall x :: 0 <= x < |t.tree| && t.tree[x].Node? && Follows(t, t.root, x) ==> x in sh.text && x !in sh.parent)
    && (forall x, p :: 0 <= x < |t.tree| && t.tree[x].Node? && p in sh.text && Follows(t, t.tree[p], x) ==>
          x in sh.text && x in sh.parent && sh.parent[x] == p)
  }

  /** How much text is spelled before row `s` starts. */
  function Begin(t: Trie, sh: Shape, s: nat): (n: nat)
    requires s in sh.text && s < |t.tree| && t.tree[s].Node? && |t.tree[s].prefix| <= |sh.text[s]|
  {
    |sh.text[s]| - |t.tree[s].prefix|
  }

  /** The last character of `u` lies in the prefix of row `s`. */
  ghost predicate Owns(t: Trie, sh: Shape, s: nat, u: seq<int>)
    requires WellFormed(t, sh)
  {
    s in sh.text && Begin(t, sh, s) < |u| && u <= sh.text[s]
  }

  /** What the rows up to the one before `s` spell is what `s` continues. */
  lemma ParentOwns(t: Trie, sh: Shape, s: nat, u: seq<int>)
    requires WellFormed(t, sh) && Owns(t, sh, s, u)
    ensures u[Begin(t, sh, s)] == t.tree[s].prefix[0] as int
    ensures s !in sh.parent ==> Begin(t, sh, s) == 0
    ensures s in sh.parent ==> var p, k := sh.parent[s], Begin(t, sh, s);
                               0 < k && p in sh.text && sh.text[p] == u[..k] && Owns(t, sh, p, u[..k])
  {
    assert SlotOk(t, sh, s);
    assert Follows(t, if s in sh.parent then t.tree[sh.parent[s]] else t.root, s);
    if s in sh.parent {
      assert SlotOk(t, sh, sh.parent[s]);
    }
  }

  lemma PrefixOwned(t: Trie, sh: Shape, s: nat, u: seq<int>, k: nat)
    requires WellFormed(t, sh) && Owns(t, sh, s, u) && Begin(t, sh, s) < k <= |u|
    ensures Owns(t, sh, s, u[..k])
  {
  }

  lemma {:induction false} OwnerExists(t: Trie, sh: Shape, s: nat, u: seq<int>) returns (o: nat)
    requires WellFormed(t, sh) && s in sh.text && u != [] && u <= sh.text[s]
    ensures Owns(t, sh, o, u)
    decreases |sh.text[s]|
  {
    assert SlotOk(t, sh, s);
    if Begin(t, sh, s) < |u| {
      o := s;
    } else {
      o := OwnerExists(t, sh, sh.parent[s], u);
    }
  }

  lemma {:induction false} OwnerUnique(t: Trie, sh: Shape, s: nat, s': nat, u: seq<int>)
    requires WellFormed(t, sh) && Owns(t, sh, s, u) && Owns(t, sh, s', u)
    ensures s == s'
    decreases |u|
  {
    var k, k' := Begin(t, sh, s), Begin(t, sh, s');
    ParentOwns(t, sh, s, u);
    ParentOwns(t, sh, s', u);
    if k == k' {
      if k > 0 {
        OwnerUnique(t, sh, sh.parent[s], sh.parent[s'], u[..k]);
      }
      assert SlotOk(t, sh, s) && SlotOk(t, sh, s');
    } else if k < k' {
      PrefixOwned(t, sh, s, u, k');
      OwnerUnique(t, sh, s, sh.parent[s'], u[..k']);
    } else {
      PrefixOwned(t, sh, s', u, k);
      OwnerUnique(t, sh, s', sh.parent[s], u[..k]);
    }
  }

  /** The place `ts` is where the text `u` leads. */
  ghost predicate At(t: Trie, sh: Shape, u: seq<int>, ts: TrieState)
    requires WellFormed(t, sh)
  {
    if u == [] then ts.poff == 0
    else ts.poff > 0 && Owns(t, sh, ts.slot, u) && ts.poff == |u| - Begin(t, sh, ts.slot)
  }

  ghost predicate OnTrie(sh: Shape, u: seq<int>) {
    exists s :: s in sh.text && u <= sh.text[s]
  }

  /** The interpreter enters a row that follows the one it has finished. */
  lemma StepDown(t: Trie, p: Entry, ts: TrieState, c: int, s: nat)
    requires s < |t.tree| && t.tree[s].Node? && PrefixOk(t.tree[s]) && t.tree[s].prefix[0] as int == c && p.Node?
    requires Follows(t, p, s)
    requires if ts.poff == 0 then p == t.root
             else InTree(t, ts) && p == t.tree[ts.slot] && ts.poff == |t.tree[ts.slot].prefix|
    ensures Advance(t, ts, c) == Walked(0, TrieState(1, s))
  {
  }

  lemma EntersChild(t: Trie, sh: Shape, u: seq<int>, ts: TrieState, c: int, s: nat)
    requires WellFormed(t, sh) && At(t, sh, u, ts) && Owns(t, sh, s, u + [c]) && Begin(t, sh, s) == |u|
    requires c != 0
    ensures Advance(t, ts, c) == Walked(0, TrieState(1, s))
  {
    var v := u + [c];
    assert v[..|u|] == u;
    ParentOwns(t, sh, s, v);
    assert SlotOk(t, sh, s);
    if u != [] {
      OwnerUnique(t, sh, ts.slot, sh.parent[s], u);
      assert SlotOk(t, sh, ts.slot);
      StepDown(t, t.tree[ts.slot], ts, c, s);
    } else {
      StepDown(t, t.root, ts, c, s);
    }
  }

  lemma StaysInRow(t: Trie, sh: Shape, u: seq<int>, ts: TrieState, c: int, s: nat)
    requires WellFormed(t, sh) && At(t, sh, u, ts) && Owns(t, sh, s, u + [c]) && Begin(t, sh, s) < |u|
    requires c != 0
    ensures Advance(t, ts, c) == Walked(0, TrieState(ts.poff + 1, s)) && ts.poff == |u| - Begin(t, sh, s)
  {
    var v := u + [c];
    assert v[..|u|] == u;
    assert SlotOk(t, sh, s);
    PrefixOwned(t, sh, s, v, |u|);
    OwnerUnique(t, sh, ts.slot, s, u);
    PrefixTail(t, sh, s, ts.poff);
  }

  lemma AdvanceGoes(t: Trie, sh: Shape, u: seq<int>, ts: TrieState, c: int, s: nat)
    requires WellFormed(t, sh) && At(t, sh, u, ts) && Owns(t, sh, s, u + [c]) && c != 0
    ensures Advance(t, ts, c) == Walked(0, TrieState(|u| + 1 - Begin(t, sh, s), s))
  {
    if |u| == Begin(t, sh, s) {
      EntersChild(t, sh, u, ts, c, s);
    } else {
      StaysInRow(t, sh, u, ts, c, s);
    }
  }

  lemma PrefixTail(t: Trie, sh: Shape, s: nat, i: nat)
    requires WellFormed(t, sh) && s in sh.text && SlotOk(t, sh, s) && i < |t.tree[s].prefix|
    ensures sh.text[s][Begin(t, sh, s) + i] == t.tree[s].prefix[i] as int
  {
  }

  lemma StopsInRow(t: Trie, sh: Shape, u: seq<int>, ts: TrieState, c: int)
    requires WellFormed(t, sh) && At(t, sh, u, ts) && u != [] && c != 0 && !OnTrie(sh, u + [c])
    requires ts.poff < |t.tree[ts.slot].prefix|
    ensures t.tree[ts.slot].prefix[ts.poff] as int != c
  {
    assert SlotOk(t, sh, ts.slot);
    PrefixTail(t, sh, ts.slot, ts.poff);
    assert u + [c] <= sh.text[ts.slot] <==> t.tree[ts.slot].prefix[ts.poff] as int == c;
  }

  lemma AdvanceStops(t: Trie, sh: Shape, u: seq<int>, ts: TrieState, c: int)
    requires WellFormed(t, sh) && At(t, sh, u, ts) && c != 0 && !OnTrie(sh, u + [c])
    ensures Advance(t, ts, c) == Walked(-1, ts)
  {
    if u == [] {
      NoChild(t, sh, t.root, u, c);
    } else if ts.poff < |t.tree[ts.slot].prefix| {
      StopsInRow(t, sh, u, ts, c);
    } else {
      assert SlotOk(t, sh, ts.slot);
      NoChild(t, sh, t.tree[ts.slot], u, c);
    }
  }

  /** A row that continues the text `u` of row or root `p` spells a longer text. */
  lemma ChildContinues(t: Trie, sh: Shape, p: Entry, u: seq<int>, x: nat)
    requires WellFormed(t, sh) && p.Node? && x < |t.tree| && t.tree[x].Node? && Follows(t, p, x)
    requires (u == [] && p == t.root) || exists s :: s in sh.text && sh.text[s] == u && p == t.tree[s]
    ensures OnTrie(sh, u + [t.tree[x].prefix[0] as int])
  {
    assert x in sh.text && SlotOk(t, sh, x);
    assert u + [t.tree[x].prefix[0] as int] <= sh.text[x];
  }

  lemma NoChild(t: Trie, sh: Shape, p: Entry, u: seq<int>, c: int)
    requires WellFormed(t, sh) && c != 0 && !OnTrie(sh, u + [c]) && p.Node?
    requires (u == [] && p == t.root) || exists s :: s in sh.text && sh.text[s] == u && p == t.tree[s]
    ensures var x := p.offset + IndexOf(t.alphabet, c);
            x < |t.tree| && !(t.tree[x].Node? && PrefixAt(t.tree[x], 0) == c && t.tree[x].check == p.next)
  {
    var x := p.offset + IndexOf(t.alphabet, c);
    assert u != [] ==> forall s :: s in sh.text ==> SlotOk(t, sh, s);
    if t.tree[x].Node? && PrefixAt(t.tree[x], 0) == c && t.tree[x].check == p.next {
      ChildContinues(t, sh, p, u, x);
    }
  }

  /** A walk follows the text exactly as long as some row's text continues it. */
  lemma AdvanceFollows(t: Trie, sh: Shape, u: seq<int>, ts: TrieState, c: int)
    requires WellFormed(t, sh) && At(t, sh, u, ts) && c != 0
    ensures var w := Advance(t, ts, c);
            && w.Walked?
            && if OnTrie(sh, u + [c]) then w.r == 0 && At(t, sh, u + [c], w.ts) else w.r == -1
  {
    if OnTrie(sh, u + [c]) {
      var s0 :| s0 in sh.text && u + [c] <= sh.text[s0];
      var s := OwnerExists(t, sh, s0, u + [c]);
      AdvanceGoes(t, sh, u, ts, c, s);
    } else {
      AdvanceStops(t, sh, u, ts, c);
    }
  }

  lemma FinishReports(t: Trie, sh: Shape, u: seq<int>, ts: TrieState, sep: int)
    requires WellFormed(t, sh) && At(t, sh, u, ts)
    ensures var w := Finish(t, ts, sep);
            && w.Walked? && w.ts == ts
            && (forall s :: s in sh.text && sh.text[s] == u ==> u != [] && w.r == t.tree[s].terminal)
            && ((forall s :: s in sh.text ==> sh.text[s] != u) ==> w.r == -1)
  {
    forall s | s in sh.text && sh.text[s] == u
      ensures u != [] && s == ts.slot
    {
      OwnerUnique(t, sh, ts.slot, s, u);
    }
  }

  lemma {:induction false} WalkWordFollows(t: Trie, sh: Shape, u: seq<int>, ts: TrieState, w: seq<int>)
    requires WellFormed(t, sh) && At(t, sh, u, ts) && NulFree(w)
    ensures var r := WalkWord(t, ts, w);
            && r.Walked?
            && if w == [] || OnTrie(sh, u + w) then r.r == 0 && At(t, sh, u + w, r.ts) else r.r == -1
    decreases |w|
  {
    if w == [] {
      assert u + w == u;
    } else {
      var v := u + [w[0]];
      AdvanceFollows(t, sh, u, ts, w[0]);
      assert v + w[1..] == u + w;
      if OnTrie(sh, u + w) {
        var s :| s in sh.text && u + w <= sh.text[s];
        assert v == (u + w)[..|v|];
        assert OnTrie(sh, v);
      }
      var a := Advance(t, ts, w[0]);
      if a.r == 0 {
        WalkWordFollows(t, sh, v, a.ts, w[1..]);
        if |w| == 1 {
          assert u + w == v;
        }
      }
    }
  }

  /** Looking a word up reports the terminal of the row that spells it, and -1 when none does. */
  lemma LookupReports(t: Trie, sh: Shape, w: seq<int>, sep: int)
    requires WellFormed(t, sh) && NulFree(w)
    ensures Lookup(t, w, sep).Walked?
    ensures forall s :: s in sh.text && sh.text[s] == w ==> Lookup(t, w, sep).r == t.tree[s].terminal
    ensures (forall s :: s in sh.text ==> sh.text[s] != w) ==> Lookup(t, w, sep).r == -1
  {
    WalkWordFollows(t, sh, [], START, w);
    assert [] + w == w;
    var r := WalkWord(t, START, w);
    if r.r == 0 {
      FinishReports(t, sh, w, r.ts, sep);
    } else {
      assert forall s :: s in sh.text && w <= sh.text[s] ==> OnTrie(sh, w);
    }
  }
}
