/** The radix tree that tools/patricia-build.c builds, as a value: what it stores, and what an insertion does to it. */
module RadixTrees {
  const TBLSZ := 28
  const MAXSZ := 64

  function Ctoi(c: char): (i: nat)
    ensures i < TBLSZ
  {
    if 'a' <= c <= 'z' then c as int - 'a' as int
    else if 'A' <= c <= 'Z' then c as int - 'A' as int
    else if c == '-' then 26
    else 27
  }

  /** A tree; `Nil` stands for a null child. Bit `i` of the source's mask is `i in mask`. */
  datatype Tree = Nil | Branch(elem: string, terminal: nat, limit: nat, mask: set<nat>, kids: seq<Tree>)

  function NoKids(): (ks: seq<Tree>)
    ensures |ks| == TBLSZ && forall i :: 0 <= i < TBLSZ ==> ks[i] == Nil
  {
    seq(TBLSZ, _ => Nil)
  }

  /** The root that `main` starts from. */
  function EmptyRoot(): Tree { Branch("", 0, 1, {}, NoKids()) }

  function Leaf(w: string, x: nat): Tree { Branch(w, x, 0, {}, NoKids()) }

  function Max(a: nat, b: nat): nat { if a < b then b else a }

  function Kid(t: Tree, c: char): (k: Tree)
    requires t.Branch?
    ensures k.Nil? || k < t
  {
    if Ctoi(c) < |t.kids| then t.kids[Ctoi(c)] else Nil
  }

  /** The terminal stored for `w`, 0 for none. */
  function Find(t: Tree, w: string): nat
    decreases t
  {
    if t.Nil? || !(t.elem <= w) then 0
    else
      var rest := w[|t.elem|..];
      if rest == "" then t.terminal else if Kid(t, rest[0]).Nil? then 0 else Find(Kid(t, rest[0]), rest)
  }

  // ---------------------------------------------------------------- insertion

  /** How far two words agree. */
  function Common(a: string, b: string): (n: nat)
    ensures n <= |a| && n <= |b| && a[..n] == b[..n]
    ensures n < |a| && n < |b| ==> a[n] != b[n]
  {
    if a == "" || b == "" || a[0] != b[0] then 0 else 1 + Common(a[1..], b[1..])
  }

  /** Where a word splits a label: its character there, or the NUL at its end. */
  function SplitAt(elem: string, offs: nat): nat
    requires offs <= |elem|
  {
    if offs < |elem| then Ctoi(elem[offs]) else Ctoi('\0')
  }

  function Split(t: Tree, offs: nat): Tree
    requires t.Branch? && offs <= |t.elem|
  {
    var i := SplitAt(t.elem, offs);
    Branch(t.elem[..offs], 0, i + 1, {i}, NoKids()[i := t.(elem := t.elem[offs..])])
  }

  /** Puts a leaf at `i`. */
  function Hang(t: Tree, i: nat, w: string, x: nat): Tree
    requires t.Branch? && i < |t.kids|
  {
    t.(kids := t.kids[i := Leaf(w, x)], mask := t.mask + {i}, limit := Max(t.limit, i + 1))
  }

  function Insert(t: Tree, w: string, x: nat): (t': Tree)
    requires t.Branch? && Deep(t)
    ensures t'.Branch?
    decreases t
  {
    var n := Common(t.elem, w);
    if n == |w| then Split(t, n)
    else
      var i := Ctoi(w[n]);
      if n < |t.elem| then Hang(Split(t, n), i, w[n..], x)
      else if t.kids[i] == Nil then Hang(t, i, w[n..], x)
      else t.(kids := t.kids[i := Insert(t.kids[i], w[n..], x)])
  }

  /** Every node has its full child array. */
  ghost predicate Deep(t: Tree) {
    t.Branch? ==> |t.kids| == TBLSZ && forall i :: 0 <= i < TBLSZ ==> Deep(t.kids[i])
  }

  // ---------------------------------------------------------------- well formed trees

  /** Different letters have different places, and none is the terminator. */
  ghost predicate Separates(letters: set<char>) {
    '\0' !in letters && forall c, d :: c in letters && d in letters && Ctoi(c) == Ctoi(d) ==> c == d
  }

  ghost predicate Spells(letters: set<char>, w: string) { forall i :: 0 <= i < |w| ==> w[i] in letters }

  /** `limit` ends the child array just after its last child, or at `low` when there is none. */
  ghost predicate LimitOk(t: Tree, low: nat)
    requires t.Branch? && |t.kids| == TBLSZ
  {
    && low <= t.limit <= TBLSZ && (forall i :: 0 <= i < TBLSZ && t.kids[i].Branch? ==> i < t.limit)
    && (t.limit > low ==> t.kids[t.limit - 1].Branch?)
  }

  /** `mask` says which children there are; each is filed under the first character of its label. */
  ghost predicate KidsOk(t: Tree, letters: set<char>)
    requires t.Branch?
    decreases t, 0
  {
    && |t.kids| == TBLSZ
    && (forall i :: i in t.mask <==> 0 <= i < TBLSZ && t.kids[i].Branch?)
    && (forall i :: 0 <= i < TBLSZ && t.kids[i].Branch? ==> Inner(t.kids[i], i, letters))
  }

  /** A node below the root. */
  ghost predicate Inner(t: Tree, i: nat, letters: set<char>)
    decreases t, 1
  {
    && t.Branch? && t.elem != "" && Ctoi(t.elem[0]) == i && Spells(letters, t.elem)
    && KidsOk(t, letters) && LimitOk(t, 0) && (t.limit == 0 ==> t.terminal > 0)
  }

  ghost predicate Rooted(t: Tree, letters: set<char>) {
    t.Branch? && t.elem == "" && t.terminal == 0 && KidsOk(t, letters) && LimitOk(t, 1)
  }

  // ---------------------------------------------------------------- what an insertion does

  /** `w` ends inside or at the end of a label. */
  ghost predicate Spelled(t: Tree, w: string)
    requires t.Branch?
    decreases t
  {
    var n := Common(t.elem, w);
    n == |w| || (n == |t.elem| && Kid(t, w[n]).Branch? && Spelled(Kid(t, w[n]), w[n..]))
  }

  /** The map from words to terminals changes at `w` and nowhere else. */
  ghost predicate Adds(t: Tree, t': Tree, w: string, x: nat) {
    forall v :: Find(t', v) == if v == w then x else Find(t, v)
  }

  lemma LeafFinds(w: string, x: nat, v: string)
    ensures Find(Leaf(w, x), v) == if v == w then x else 0
  {
    if w <= v && v[|w|..] != "" {
      assert Kid(Leaf(w, x), v[|w|..][0]) == Nil;
    } else if w <= v {
      assert v == w + v[|w|..];
    }
  }

  lemma HangFinds(t: Tree, w: string, x: nat)
    requires t.Branch? && |t.kids| == TBLSZ && t.elem <= w && w != t.elem && Kid(t, w[|t.elem|]) == Nil
    ensures Adds(t, Hang(t, Ctoi(w[|t.elem|]), w[|t.elem|..], x), w, x)
  {
    var n := |t.elem|;
    var t' := Hang(t, Ctoi(w[n]), w[n..], x);
    forall v
      ensures Find(t', v) == if v == w then x else Find(t, v)
    {
      if t.elem <= v && v[n..] != "" && Ctoi(v[n]) == Ctoi(w[n]) {
        LeafFinds(w[n..], x, v[n..]);
        assert v == v[..n] + v[n..] && w == w[..n] + w[n..];
      }
    }
  }

  /** A split by itself only makes room: no word is found that was not, and none is lost but one that ends at the
      split. */
  lemma SplitFinds(t: Tree, n: nat, v: string)
    requires t.Branch? && n < |t.elem|
    ensures Find(Split(t, n), v) == Find(t, v)
  {
    var s := Split(t, n);
    if t.elem[..n] <= v && n < |v| {
      assert t.elem <= v <==> t.elem[n..] <= v[n..] by {
        assert t.elem == t.elem[..n] + t.elem[n..] && v == v[..n] + v[n..];
      }
      if Ctoi(v[n]) == Ctoi(t.elem[n]) {
        var low := t.(elem := t.elem[n..]);
        assert t.elem <= v ==> v[n..][|low.elem|..] == v[|t.elem|..];
        assert Find(low, v[n..]) == Find(t, v);
      }
    }
  }

  lemma SplitOk(t: Tree, i: nat, n: nat, letters: set<char>)
    requires Inner(t, i, letters) && 0 < n < |t.elem|
    ensures Inner(t.(elem := t.elem[n..]), Ctoi(t.elem[n]), letters)
    ensures KidsOk(Split(t, n), letters) && LimitOk(Split(t, n), 0) && Spells(letters, t.elem[..n])
  {
    var low := t.(elem := t.elem[n..]);
    assert KidsOk(low, letters);
  }

  lemma HangOk(t: Tree, low: nat, w: string, x: nat, letters: set<char>)
    requires t.Branch? && KidsOk(t, letters) && LimitOk(t, low) && low <= TBLSZ
    requires w != "" && Spells(letters, w) && Kid(t, w[0]) == Nil && x > 0
    ensures KidsOk(Hang(t, Ctoi(w[0]), w, x), letters) && LimitOk(Hang(t, Ctoi(w[0]), w, x), low)
  {
    assert KidsOk(Leaf(w, x), letters);
    assert Inner(Leaf(w, x), Ctoi(w[0]), letters);
  }

  /** A new leaf beside the rest of a split label. */
  lemma SplitInsert(t: Tree, i: nat, w: string, x: nat, letters: set<char>)
    requires Separates(letters) && Inner(t, i, letters) && Spells(letters, w) && x > 0
    requires 0 < Common(t.elem, w) < |t.elem| && Common(t.elem, w) < |w|
    ensures var n := Common(t.elem, w);
            var t' := Hang(Split(t, n), Ctoi(w[n]), w[n..], x);
            Inner(t', i, letters) && Adds(t, t', w, x)
  {
    hide Find, Adds, KidsOk, LimitOk, Common;
    var n := Common(t.elem, w);
    var s := Split(t, n);
    SplitOk(t, i, n, letters);
    assert t.elem[n] in letters && w[n] in letters;
    assert Kid(s, w[n]) == Nil;
    HangOk(s, 0, w[n..], x, letters);
    HangFinds(s, w, x);
    forall v ensures Find(s, v) == Find(t, v) { SplitFinds(t, n, v); }
    AddsSame(t, s, Hang(s, Ctoi(w[n]), w[n..], x), w, x);
  }

  lemma AddsSame(t: Tree, s: Tree, t': Tree, w: string, x: nat)
    requires Adds(s, t', w, x) && forall v :: Find(s, v) == Find(t, v)
    ensures Adds(t, t', w, x)
  {
    hide Find;
  }

  /** An insertion below the root keeps the tree well formed and adds its word. */
  lemma {:induction false} InnerInsert(t: Tree, i: nat, w: string, x: nat, letters: set<char>)
    requires Separates(letters) && Inner(t, i, letters) && Deep(t)
    requires w != "" && Ctoi(w[0]) == i && Spells(letters, w) && x > 0 && !Spelled(t, w)
    ensures Inner(Insert(t, w, x), i, letters) && Adds(t, Insert(t, w, x), w, x)
    decreases t, 1
  {
    hide Find, Adds, KidsOk, Common;
    var n := Common(t.elem, w);
    assert w[0] == t.elem[0] && n > 0;
    if n == |t.elem| {
      InsertBelow(t, 0, w, x, letters);
    } else {
      SplitInsert(t, i, w, x, letters);
    }
  }

  /** The part of an insertion that the root and the nodes below it share: the label has been read. */
  lemma {:induction false} InsertBelow(t: Tree, low: nat, w: string, x: nat, letters: set<char>)
    requires Separates(letters) && t.Branch? && KidsOk(t, letters) && LimitOk(t, low) && low <= 1 && Deep(t)
    requires Common(t.elem, w) == |t.elem| < |w| && Spells(letters, w) && x > 0 && !Spelled(t, w)
    ensures var t' := Insert(t, w, x);
            && t'.Branch? && t'.elem == t.elem && t'.terminal == t.terminal && t'.limit > 0
            && KidsOk(t', letters) && LimitOk(t', low) && Adds(t, t', w, x)
    decreases t, 0
  {
    hide Find, Adds, Inner, Ctoi, Common;
    var n := |t.elem|;
    var i, rest := Ctoi(w[n]), w[n..];
    if t.kids[i] == Nil {
      HangOk(t, low, rest, x, letters);
      HangFinds(t, w, x);
    } else {
      InnerInsert(t.kids[i], i, rest, x, letters);
      KidReplaced(t, i, Insert(t.kids[i], rest, x), letters);
      KidAdds(t, i, Insert(t.kids[i], rest, x), w, x);
    }
  }

  /** A word added to the child it leads to is added to the tree. */
  lemma KidAdds(t: Tree, i: nat, k: Tree, w: string, x: nat)
    requires t.Branch? && t.elem <= w && w != t.elem && |t.kids| == TBLSZ && i == Ctoi(w[|t.elem|])
    requires t.kids[i].Branch? && k.Branch? && Adds(t.kids[i], k, w[|t.elem|..], x)
    ensures Adds(t, t.(kids := t.kids[i := k]), w, x)
  {
    var n, t' := |t.elem|, t.(kids := t.kids[i := k]);
    forall v
      ensures Find(t', v) == if v == w then x else Find(t, v)
    {
      if t.elem <= v {
        assert v == t.elem + v[n..] && w == t.elem + w[n..];
        if v[n..] != "" && Ctoi(v[n]) == i {
          assert Kid(t', v[n]) == k && Kid(t, v[n]) == t.kids[i];
        }
      }
    }
  }

  lemma KidReplaced(t: Tree, i: nat, k: Tree, letters: set<char>)
    requires t.Branch? && KidsOk(t, letters) && i < TBLSZ && t.kids[i].Branch? && k.Branch? && Inner(k, i, letters)
    ensures KidsOk(t.(kids := t.kids[i := k]), letters)
  {
    hide Inner;
  }

  /** A word that ends inside a label or at its end is not stored; its own split removes it. */
  lemma {:induction false} SpelledLost(t: Tree, w: string, x: nat)
    requires t.Branch? && Deep(t) && Spelled(t, w)
    ensures Find(Insert(t, w, x), w) == 0
    decreases t
  {
    hide Common, Ctoi;
    var n := Common(t.elem, w);
    if n < |w| {
      SpelledLost(Kid(t, w[n]), w[n..], x);
    } else {
      assert w[..n] == w && t.elem[..n] == w;
    }
  }

  /** The word ends inside a label, so that inserting it splits one. */
  ghost predicate EndsInside(t: Tree, w: string)
    requires t.Branch? && Spelled(t, w)
    decreases t
  {
    var n := Common(t.elem, w);
    if n == |w| then n < |t.elem| else EndsInside(Kid(t, w[n]), w[n..])
  }

  /** What stays of the word `v` when `w`, which ends at a label, is inserted: the split files the node under the
      terminator, where words that go on with another letter do not look for it. */
  ghost predicate Stays(w: string, v: string) { w <= v ==> |w| < |v| && Ctoi(v[|w|]) == Ctoi('\0') }

  /** Splitting a label at its end. */
  lemma EndSplitFinds(t: Tree, v: string)
    requires t.Branch?
    ensures Find(Split(t, |t.elem|), v) == if Stays(t.elem, v) then Find(t, v) else 0
  {
    var n := |t.elem|;
    assert t.elem[..n] == t.elem && t.elem[n..] == "";
    if t.elem <= v && n < |v| && Ctoi(v[n]) == Ctoi('\0') {
      assert v[n..][0..] == v[n..];
      assert Kid(Split(t, n), v[n]) == t.(elem := "");
    }
  }

  /** Inserting a word that is a prefix of a stored one never stores it. It changes nothing when the word ends inside a
      label; when it ends at a label, exactly the words that start with it are lost, but for those filed under the
      terminator. */
  lemma {:induction false} PrefixInserted(t: Tree, w: string, x: nat, v: string)
    requires t.Branch? && Deep(t) && Spelled(t, w)
    ensures Find(Insert(t, w, x), v) == if EndsInside(t, w) || Stays(w, v) then Find(t, v) else 0
    decreases t
  {
    hide Common, Ctoi, Split, Find;
    var n := Common(t.elem, w);
    if n == |w| {
      assert w[..n] == w;
      if n < |t.elem| {
        SplitFinds(t, n, v);
      } else {
        assert t.elem[..n] == t.elem;
        EndSplitFinds(t, v);
      }
    } else {
      PrefixBelow(t, w, x, v);
    }
  }

  lemma {:induction false} PrefixBelow(t: Tree, w: string, x: nat, v: string)
    requires t.Branch? && Deep(t) && Spelled(t, w) && Common(t.elem, w) < |w|
    ensures Find(Insert(t, w, x), v) == if EndsInside(t, w) || Stays(w, v) then Find(t, v) else 0
    decreases t, 0
  {
    hide Common, Ctoi, Stays;
    var n := |t.elem|;
    assert w == t.elem + w[n..];
    if t.elem <= v && n < |v| && Ctoi(v[n]) == Ctoi(w[n]) {
      PrefixInserted(Kid(t, w[n]), w[n..], x, v[n..]);
      assert v == t.elem + v[n..];
      StaysBelow(t.elem, w[n..], v[n..]);
    } else {
      StaysElsewhere(w, n, v);
    }
  }

  lemma StaysBelow(a: string, w: string, v: string)
    ensures Stays(a + w, a + v) <==> Stays(w, v)
  {
    var m := |a + w|;
    if |w| <= |v| {
      assert (a + v)[..m] == a + v[..|w|];
      assert (a + v)[..m][|a|..] == v[..|w|] && (a + w)[|a|..] == w;
    }
  }

  /** A word that leaves the path is not touched. */
  lemma StaysElsewhere(w: string, n: nat, v: string)
    requires n < |w| && !(w[..n] <= v && n < |v| && Ctoi(v[n]) == Ctoi(w[n]))
    ensures Stays(w, v)
  {
    hide Ctoi;
  }

  /** Some word is stored in every subtree. */
  lemma {:induction false} SomeStored(t: Tree, i: nat, letters: set<char>) returns (v: string)
    requires Inner(t, i, letters)
    ensures t.elem <= v && Find(t, v) > 0
    decreases t
  {
    if t.terminal > 0 {
      v := t.elem;
    } else {
      var k := t.kids[t.limit - 1];
      var u := SomeStored(k, t.limit - 1, letters);
      v := t.elem + u;
      assert v[|t.elem|..] == u;
    }
  }

  lemma {:induction false} SpelledStored(t: Tree, i: nat, w: string, letters: set<char>) returns (v: string)
    requires Inner(t, i, letters) && Spelled(t, w)
    ensures w <= v && Find(t, v) > 0
    decreases t
  {
    hide Common, Find, KidsOk, Ctoi;
    var n := Common(t.elem, w);
    if n == |w| {
      v := SomeStored(t, i, letters);
      assert w <= v;
    } else {
      v := SpelledBelow(t, w, letters);
    }
  }

  /** The word goes on past the label. */
  lemma {:induction false} SpelledBelow(t: Tree, w: string, letters: set<char>) returns (v: string)
    requires t.Branch? && KidsOk(t, letters) && Spelled(t, w) && Common(t.elem, w) < |w|
    ensures w <= v && Find(t, v) > 0
    decreases t, 0
  {
    hide Common, Find, Ctoi;
    var n := Common(t.elem, w);
    var u := SpelledStored(Kid(t, w[n]), Ctoi(w[n]), w[n..], letters);
    v := t.elem + u;
    assert w == t.elem + w[n..];
    FoundBelow(t, u);
  }

  lemma FoundBelow(t: Tree, u: string)
    requires t.Branch? && u != "" && Kid(t, u[0]).Branch? && Find(Kid(t, u[0]), u) > 0
    ensures Find(t, t.elem + u) > 0
  {
    hide Kid;
    assert (t.elem + u)[|t.elem|..] == u;
  }

  lemma {:induction false} StoredSpelled(t: Tree, w: string, v: string)
    requires t.Branch? && w <= v && Find(t, v) > 0
    ensures Spelled(t, w)
    decreases t
  {
    hide Common;
    var n := Common(t.elem, w);
    if n < |w| {
      assert t.elem <= v && w[..n] == v[..n] && v[n] == w[n];
      assert n == |t.elem|;
      assert w[n..] <= v[n..];
      StoredSpelled(Kid(t, v[n]), w[n..], v[n..]);
    }
  }

  /** Inserting into a tree adds exactly the new word, exactly when that word is not a prefix of a stored one. */
  lemma InsertAddsIff(t: Tree, w: string, x: nat, letters: set<char>)
    requires Separates(letters) && Rooted(t, letters) && Deep(t)
    requires w != "" && Spells(letters, w) && x > 0
    ensures Adds(t, Insert(t, w, x), w, x) <==> !exists v :: w <= v && Find(t, v) > 0
    ensures Adds(t, Insert(t, w, x), w, x) ==> Rooted(Insert(t, w, x), letters)
  {
    hide Common;
    if Spelled(t, w) {
      var v := SpelledBelow(t, w, letters);
      SpelledLost(t, w, x);
    } else {
      forall v | w <= v && Find(t, v) > 0
        ensures false
      {
        StoredSpelled(t, w, v);
      }
      InsertBelow(t, 1, w, x, letters);
    }
  }

  // ---------------------------------------------------------------- a list of words

  datatype Keyword = Keyword(word: string, terminal: nat)

  function Build(ks: seq<Keyword>): (t: Tree)
    ensures t.Branch? && Deep(t)
  {
    if ks == [] then EmptyRoot() else
      var t, k := Build(ks[..|ks| - 1]), ks[|ks| - 1];
      InsertDeep(t, k.word, k.terminal);
      Insert(t, k.word, k.terminal)
  }

  lemma {:induction false} InsertDeep(t: Tree, w: string, x: nat)
    requires t.Branch? && Deep(t)
    ensures Insert(t, w, x).Branch? && Deep(Insert(t, w, x))
    decreases t
  {
    hide Common;
    var n := Common(t.elem, w);
    assert forall u, y :: Deep(Leaf(u, y));
    assert Deep(t.(elem := t.elem[n..]));
    if n < |w| && n == |t.elem| && t.kids[Ctoi(w[n])] != Nil {
      InsertDeep(t.kids[Ctoi(w[n])], w[n..], x);
    }
  }

  /** Proper words, none a prefix of an earlier one. */
  ghost predicate Insertable(ks: seq<Keyword>, letters: set<char>) {
    && (forall i :: 0 <= i < |ks| ==> ks[i].word != "" && Spells(letters, ks[i].word) && ks[i].terminal > 0)
    && (forall i, j :: 0 <= i < j < |ks| ==> !(ks[j].word <= ks[i].word))
  }

  /** A linear search of the list. */
  function Listed(ks: seq<Keyword>, w: string): nat {
    if ks == [] then 0
    else if ks[|ks| - 1].word == w then ks[|ks| - 1].terminal
    else Listed(ks[..|ks| - 1], w)
  }

  lemma {:induction false} ListedMember(ks: seq<Keyword>, w: string)
    ensures Listed(ks, w) > 0 ==> exists i :: 0 <= i < |ks| && ks[i].word == w
    decreases |ks|
  {
    if ks != [] && ks[|ks| - 1].word != w {
      ListedMember(ks[..|ks| - 1], w);
    }
  }

  /** The tree built from a list of words finds what a search of the list finds. */
  lemma {:induction false} BuildFinds(ks: seq<Keyword>, letters: set<char>)
    requires Separates(letters) && Insertable(ks, letters)
    ensures Rooted(Build(ks), letters) && forall w :: Find(Build(ks), w) == Listed(ks, w)
    decreases |ks|
  {
    if ks == [] {
      forall w ensures Find(Build(ks), w) == 0 {
        if w != "" {
          assert Kid(EmptyRoot(), w[0]) == Nil;
        }
      }
    } else {
      var ks', k := ks[..|ks| - 1], ks[|ks| - 1];
      BuildFinds(ks', letters);
      forall v | k.word <= v
        ensures Find(Build(ks'), v) == 0
      {
        ListedMember(ks', v);
      }
      InsertAddsIff(Build(ks'), k.word, k.terminal, letters);
    }
  }

  // ---------------------------------------------------------------- counting nodes

  function Size(t: Tree): nat
    decreases t, if t.Branch? then |t.kids| + 1 else 0
  {
    if t.Nil? then 0 else 1 + KidSizes(t, |t.kids|)
  }

  /** The nodes of the first `k` subtrees. */
  function KidSizes(t: Tree, k: nat): nat
    requires t.Branch? && k <= |t.kids|
    decreases t, k
  {
    if k == 0 then 0 else KidSizes(t, k - 1) + Size(t.kids[k - 1])
  }

  /** `limit` covers every child, here and below. */
  ghost predicate Covers(t: Tree) {
    t.Branch? ==>
      |t.kids| == TBLSZ && t.limit <= TBLSZ &&
      forall i :: 0 <= i < TBLSZ ==> Covers(t.kids[i]) && (t.kids[i].Branch? ==> i < t.limit)
  }

  lemma {:induction false} OkCovers(t: Tree, low: nat, letters: set<char>)
    requires t.Branch? && KidsOk(t, letters) && LimitOk(t, low)
    ensures Covers(t)
    decreases t
  {
    forall i | 0 <= i < TBLSZ && t.kids[i].Branch?
      ensures Covers(t.kids[i])
    {
      assert Inner(t.kids[i], i, letters);
      OkCovers(t.kids[i], 0, letters);
    }
  }

  lemma {:induction false} KidSizesGrow(t: Tree, k: nat, k': nat)
    requires t.Branch? && k <= k' <= |t.kids|
    ensures KidSizes(t, k) <= KidSizes(t, k')
    decreases k'
  {
    if k < k' {
      KidSizesGrow(t, k, k' - 1);
    }
  }
}
