/** Three words whose rows end before the child array of the root does. */
module ShortRows {
  import opened Patricia
  import opened RadixTrees
  import opened Packing
  import opened TrieTables
  import opened Compiler

  const LETTERS := {'a', 'b', 'c'}

  const WORDS := [Keyword("aa", 1), Keyword("ab", 2), Keyword("c", 3)]

  /** The node that "aa" and "ab" share. */
  const SHARED := Branch("a", 0, 2, {0, 1}, NoKids()[0 := Leaf("a", 1)][1 := Leaf("b", 2)])

  const ROOT := Branch("", 0, 3, {0, 2}, NoKids()[0 := SHARED][2 := Leaf("c", 3)])

  lemma Built1()
    ensures Build(WORDS[..1]) == Branch("", 0, 1, {0}, NoKids()[0 := Leaf("aa", 1)])
  {
    var k := WORDS[0];
    assert WORDS[..1] == [k] && [k][..0] == [];
    assert Build([k]) == Insert(EmptyRoot(), "aa", 1);
    assert {} + {0} == {0};
  }

  lemma SecondWord()
    ensures Insert(Leaf("aa", 1), "ab", 2) == SHARED
  {
    assert Common("aa", "ab") == 1 by {
      assert "aa"[1..] == "a" && "ab"[1..] == "b";
    }
    assert "ab"[1..] == "b" && "aa"[1..] == "a" && "aa"[..1] == "a";
    assert {0} + {1} == {0, 1};
  }

  lemma Built2()
    ensures Build(WORDS[..2]) == Branch("", 0, 1, {0}, NoKids()[0 := SHARED])
  {
    Built1();
    SecondWord();
    assert WORDS[..2][..1] == WORDS[..1] && WORDS[..2][1] == WORDS[1];
    var t := Build(WORDS[..1]);
    assert Build(WORDS[..2]) == Insert(t, "ab", 2);
    assert Common("", "ab") == 0 && "ab"[0..] == "ab";
    assert t.kids[0 := SHARED] == NoKids()[0 := SHARED];
  }

  lemma Built3()
    ensures Build(WORDS) == ROOT
  {
    Built2();
    assert WORDS[..3] == WORDS && WORDS[..2] == WORDS[..|WORDS| - 1];
    var t := Build(WORDS[..2]);
    assert Build(WORDS) == Insert(t, "c", 3);
    assert Common("", "c") == 0 && "c"[0..] == "c";
    assert {0} + {2} == {0, 2};
  }

  lemma {:induction false} NilKids(t: Tree, low: nat, k: nat)
    requires t.Branch? && low <= k <= |t.kids| && forall i :: low <= i < k ==> t.kids[i] == Nil
    ensures KidSizes(t, k) == KidSizes(t, low)
    decreases k
  {
    if k > low {
      NilKids(t, low, k - 1);
    }
  }

  lemma Sizes()
    ensures Size(ROOT) == 5
  {
    NilKids(ROOT, 3, TBLSZ);
    NilKids(ROOT, 1, 2);
    NilKids(SHARED, 2, TBLSZ);
    forall w, x
      ensures Size(Leaf(w, x)) == 1
    {
      NilKids(Leaf(w, x), 0, TBLSZ);
    }
    assert SHARED.kids[0] == Leaf("a", 1) && SHARED.kids[1] == Leaf("b", 2);
    assert KidSizes(SHARED, 1) == 1 && KidSizes(SHARED, 2) == 2;
    assert ROOT.kids[0] == SHARED && ROOT.kids[2] == Leaf("c", 3);
    assert KidSizes(ROOT, 1) == 3 && KidSizes(ROOT, 3) == 4;
  }

  /** The words can be compiled. */
  lemma Compilable()
    ensures Separates(LETTERS) && Insertable(WORDS, LETTERS) && Size(Build(WORDS)) < MAXSZ
    ensures Agrees(HeaderAlphabet, LETTERS)
  {
    hide Build, Size, Insertable, Agrees;
    Built3();
    Sizes();
    InOrder();
    SamePlaces();
  }

  lemma SamePlaces() ensures Agrees(HeaderAlphabet, LETTERS) {
  }

  lemma InOrder() ensures Insertable(WORDS, LETTERS) {
    forall i, j | 0 <= i < j < |WORDS|
      ensures !(WORDS[j].word <= WORDS[i].word)
    {
      assert WORDS[0].word[1] == 'a' && WORDS[1].word[1] == 'b' && WORDS[2].word[0] == 'c';
    }
  }

  // ---------------------------------------------------------------- what a compilation of them comes to

  predicate IsLeaf(t: Tree) { t == Leaf("a", 1) || t == Leaf("b", 2) || t == Leaf("c", 3) }

  lemma {:induction false} NodeTree(fs: seq<Numbered>, m: nat)
    requires Listing(fs, LETTERS) && fs[0].tree == ROOT && m < |fs|
    ensures fs[m].tree == ROOT || fs[m].tree == SHARED || IsLeaf(fs[m].tree)
    ensures (fs[m].tree == ROOT ==> m == 0) && (fs[m].tree == SHARED ==> 0 in fs[0].kids && m == fs[0].kids[0])
    decreases m
  {
    if m > 0 {
      ListedInner(fs, m, LETTERS);
      NodeTree(fs, fs[m].check);
      KidTree(fs[fs[m].check].tree, Place(fs[m]));
    }
  }

  lemma KidTree(t: Tree, i: nat)
    requires (t == ROOT || t == SHARED || IsLeaf(t)) && i < TBLSZ && t.kids[i].Branch?
    ensures t.kids[i] == SHARED || IsLeaf(t.kids[i])
    ensures t.kids[i] == SHARED ==> t == ROOT && i == 0
    ensures t.kids[i] != ROOT
  {
  }

  /** The two nodes with children. */
  lemma Placed(fs: seq<Numbered>) returns (p: nat)
    requires Listing(fs, LETTERS) && fs[0].tree == ROOT
    ensures 0 < p < |fs| && Parents(fs) == {0, p} && fs[p].tree == SHARED
    ensures fs[0].kids.Keys == {0, 2} && fs[p].kids.Keys == {0, 1}
  {
    assert KidsListed(fs, 0) && ROOT.kids[0] == SHARED;
    p := fs[0].kids[0];
    assert KidsListed(fs, p);
    forall m | 0 <= m < |fs|
      ensures m in Parents(fs) <==> m == 0 || m == p
    {
      NodeTree(fs, m);
    }
    forall j
      ensures j in fs[0].kids <==> j == 0 || j == 2
      ensures j in fs[p].kids <==> j == 0 || j == 1
    {
    }
  }

  /** Placing the root last is better: the arrays then end at 30, and otherwise at 31. */
  lemma RootLastFits(fs: seq<Numbered>, p: nat)
    requires p < |fs| && p != 0 && Arrays(ArraysOf(fs)) && Parents(fs) == {0, p}
    requires fs[0].kids.Keys == {0, 2} && fs[p].kids.Keys == {0, 1}
    ensures IsOrder([p, 0], Parents(fs)) && OrderSize(ArraysOf(fs), [p, 0], {}, 0) == 30
  {
    var all := ArraysOf(fs);
    var none: set<nat> := {};
    var used: set<nat> := {0, 1};
    assert Shift(all[p].Keys, 0) == used;
    assert Spot(all, p, none) == 0;
    assert UsedBy(all, p, none) == used;
    assert 0 in Shift(all[0].Keys, 0) && 1 in Shift(all[0].Keys, 1);
    assert Shift(all[0].Keys, 2) == {2, 4};
    assert Spot(all, 0, used) == 2;
    assert [p, 0][1..] == [0] && [0][1..] == [];
  }

  /** Two child arrays that both end at 30 leave one way to place them. */
  lemma OneWay(a: nat, b: nat)
    requires a <= 2 && b <= 2 && Shift({0, 1}, a) !! Shift({0, 2}, b)
    ensures a == 0 && b == 2
  {
    assert a in Shift({0, 1}, a) && a + 1 in Shift({0, 1}, a) by {
      assert 0 + a == a && 1 + a == a + 1;
    }
    assert b in Shift({0, 2}, b) && b + 2 in Shift({0, 2}, b) by {
      assert 0 + b == b && 2 + b == b + 2;
    }
  }

  /** A compilation of the three words succeeds, and its rows end before the root's child array does. */
  lemma EmitsShortRows(fs: seq<Numbered>, cells: seq<Cell<nat>>, offs: map<nat, nat>, size: nat, ok: bool, at: nat,
                       rows: seq<Entry>)
    requires Compiled(WORDS, fs, cells, offs, size, ok, at, rows, LETTERS)
    ensures ok && |rows| == TBLSZ && at == 2
    ensures !Recognises(rows, at, WORDS, LETTERS)
  {
    hide OrderSize, Build, Rooted, Recognises;
    Built3();
    Compilable();
    var p := Placed(fs);
    RootLastFits(fs, p);
    assert Shift(ArraysOf(fs)[p].Keys, offs[p]) !! Shift(ArraysOf(fs)[0].Keys, offs[0]);
    OneWay(offs[p], offs[0]);
    if |rows| != TBLSZ {
      var x :| 0 <= x < |rows| && cells[x].Taken? && rows[x].Node? && rows[x].offset + TBLSZ == |rows|;
      SlotHolds(fs, cells, offs, size, x, LETTERS);
      NoneReachesFar(fs, offs, p, cells[x].node);
    }
    ShortRowsFail(rows, at, WORDS, LETTERS);
  }

  lemma NoneReachesFar(fs: seq<Numbered>, offs: map<nat, nat>, p: nat, m: nat)
    requires p in offs && offs[p] == 0 && offs.Keys == {0, p} && 0 < m < |fs|
    ensures OffsetOf(fs, offs, m) == 0
  {
  }
}
