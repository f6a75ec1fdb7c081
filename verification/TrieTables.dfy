/** The emitted table: from a numbered tree and its packing to a table the interpreter of libhttp/http.c can walk. */
module TrieTables {
  import opened Chars
  import opened Patricia
  import opened RadixTrees
  import opened Packing

  /** A listed node: its tree, the number of its parent, and the numbers of its children. */
  datatype Numbered = Numbered(tree: Tree, check: nat, kids: Kids<nat>)

  /** Where a node is filed in its parent's child array. */
  function Place(n: Numbered): nat
    requires n.tree.Branch? && n.tree.elem != ""
  {
    Ctoi(n.tree.elem[0])
  }

  ghost predicate KidsListed(fs: seq<Numbered>, m: nat)
    requires m < |fs|
  {
    && fs[m].tree.Branch?
    && (forall j :: j in fs[m].kids <==> 0 <= j < |fs[m].tree.kids| && fs[m].tree.kids[j].Branch?)
    && (forall j :: j in fs[m].kids ==>
          m < fs[m].kids[j] < |fs| && fs[fs[m].kids[j]].tree == fs[m].tree.kids[j] && fs[fs[m].kids[j]].check == m)
  }

  ghost predicate HasParent(fs: seq<Numbered>, m: nat)
    requires m < |fs|
  {
    && fs[m].check < m && fs[m].tree.Branch? && fs[m].tree.elem != ""
    && Place(fs[m]) in fs[fs[m].check].kids && fs[fs[m].check].kids[Place(fs[m])] == m
  }

  /** The nodes of a tree, the root first, each before its children. */
  ghost predicate Listing(fs: seq<Numbered>, letters: set<char>) {
    && 0 < |fs| < MAXSZ && Rooted(fs[0].tree, letters) && (forall m :: 0 <= m < |fs| ==> fs[m].tree.Branch?)
    && (forall m {:trigger KidsListed(fs, m)} :: 0 <= m < |fs| ==> KidsListed(fs, m))
    && (forall m {:trigger HasParent(fs, m)} :: 0 < m < |fs| ==> HasParent(fs, m))
  }

  lemma {:induction false} ListedInner(fs: seq<Numbered>, m: nat, letters: set<char>)
    requires Listing(fs, letters) && 0 < m < |fs|
    ensures HasParent(fs, m) && KidsListed(fs, fs[m].check) && Inner(fs[m].tree, Place(fs[m]), letters)
    ensures fs[fs[m].check].tree.kids[Place(fs[m])] == fs[m].tree
    decreases m
  {
    assert HasParent(fs, m) && KidsListed(fs, fs[m].check);
    if fs[m].check > 0 {
      ListedInner(fs, fs[m].check, letters);
    }
  }

  // ---------------------------------------------------------------- what the nodes spell

  function Path(fs: seq<Numbered>, m: nat): string
    requires m < |fs| && forall k :: 0 < k < |fs| ==> HasParent(fs, k)
    decreases m
  {
    if m == 0 then "" else
      assert HasParent(fs, m);
      Path(fs, fs[m].check) + fs[m].tree.elem
  }

  /** What is spelled before a node's own label. */
  function Base(fs: seq<Numbered>, m: nat): string
    requires m < |fs| && forall k :: 0 < k < |fs| ==> HasParent(fs, k)
  {
    if m == 0 then "" else
      assert HasParent(fs, m);
      Path(fs, fs[m].check)
  }

  /** Looking up what leads to a node, and more, goes on from that node. */
  lemma {:induction false} PathFinds(fs: seq<Numbered>, m: nat, u: string, letters: set<char>)
    requires Listing(fs, letters) && m < |fs|
    ensures Find(fs[0].tree, Path(fs, m) + u) == Find(fs[m].tree, fs[m].tree.elem + u)
    decreases m
  {
    if m == 0 {
      assert "" + u == u;
    } else {
      ListedInner(fs, m, letters);
      var p, v := fs[m].check, fs[m].tree.elem + u;
      PathFinds(fs, p, v, letters);
      assert Path(fs, m) + u == Path(fs, p) + v;
      assert (fs[p].tree.elem + v)[|fs[p].tree.elem|..] == v;
    }
  }

  lemma NodeFinds(fs: seq<Numbered>, m: nat, letters: set<char>)
    requires Listing(fs, letters) && m < |fs|
    ensures Find(fs[0].tree, Path(fs, m)) == fs[m].tree.terminal
  {
    PathFinds(fs, m, "", letters);
    assert Path(fs, m) + "" == Path(fs, m) && fs[m].tree.elem + "" == fs[m].tree.elem;
  }

  /** Every word found below node `m` is spelled by a node. */
  lemma {:induction false} FoundListed(fs: seq<Numbered>, m: nat, v: string, letters: set<char>) returns (k: nat)
    requires Listing(fs, letters) && m < |fs| && Find(fs[m].tree, v) > 0
    ensures k < |fs| && Path(fs, k) == Base(fs, m) + v
    decreases |fs| - m
  {
    hide HasParent, KidsListed, Rooted, Find, Path;
    var elem := fs[m].tree.elem;
    FoundSplit(fs[m].tree, v);
    var rest := v[|elem|..];
    PathIsBase(fs, m, letters);
    if rest == "" {
      k := m;
      assert Path(fs, m) + rest == Path(fs, m);
    } else {
      var c := KidListed(fs, m, rest[0], letters);
      k := FoundListed(fs, c, rest, letters);
    }
    Joined(Base(fs, m), elem, rest);
  }

  lemma Joined(a: string, b: string, c: string)
    ensures a + (b + c) == (a + b) + c
  {
  }

  lemma FoundSplit(t: Tree, v: string)
    requires t.Branch? && Find(t, v) > 0
    ensures t.elem <= v && v == t.elem + v[|t.elem|..]
    ensures var rest := v[|t.elem|..]; rest != "" ==> Kid(t, rest[0]).Branch? && Find(Kid(t, rest[0]), rest) > 0
  {
  }

  lemma PathIsBase(fs: seq<Numbered>, m: nat, letters: set<char>)
    requires Listing(fs, letters) && m < |fs|
    ensures fs[m].tree.Branch? && Path(fs, m) == Base(fs, m) + fs[m].tree.elem
  {
    if m > 0 { ListedInner(fs, m, letters); }
  }

  /** The number of a child, and what leads to it. */
  lemma KidListed(fs: seq<Numbered>, m: nat, c: char, letters: set<char>) returns (k: nat)
    requires Listing(fs, letters) && m < |fs| && fs[m].tree.Branch? && Kid(fs[m].tree, c).Branch?
    ensures m < k < |fs| && fs[k].tree == Kid(fs[m].tree, c) && Base(fs, k) == Path(fs, m)
  {
    hide KidsOk, LimitOk;
    assert KidsListed(fs, m);
    k := fs[m].kids[Ctoi(c)];
  }

  // ---------------------------------------------------------------- the table

  /** The child arrays the search places. */
  function ArraysOf(fs: seq<Numbered>): (all: seq<Kids<nat>>)
    ensures |all| == |fs| && forall m :: 0 <= m < |fs| ==> all[m] == fs[m].kids
  {
    seq(|fs|, m requires 0 <= m < |fs| => fs[m].kids)
  }

  ghost function Parents(fs: seq<Numbered>): set<nat> {
    set m: nat | m < |fs| && fs[m].tree.Branch? && fs[m].tree.limit > 0
  }

  /** `size` is the least that any order of placing gives, or `MAXSZ` when none stays below. */
  ghost predicate Best(fs: seq<Numbered>, size: nat) {
    && Arrays(ArraysOf(fs)) && size <= MAXSZ
    && (forall o :: IsOrder(o, Parents(fs)) ==> size <= OrderSize(ArraysOf(fs), o, {}, 0))
    && (size < MAXSZ ==> exists o :: IsOrder(o, Parents(fs)) && OrderSize(ArraysOf(fs), o, {}, 0) == size)
  }

  /** The whole tree packed into an empty table. */
  ghost predicate Laid(fs: seq<Numbered>, cells: seq<Cell<nat>>, offs: map<nat, nat>, size: nat) {
    Packed(cells, NoCells(), ArraysOf(fs), Parents(fs), {}, offs, size) && size < MAXSZ
  }

  /** The slot of a node. */
  function SlotOf(fs: seq<Numbered>, offs: map<nat, nat>, m: nat): nat
    requires 0 < m < |fs| && HasParent(fs, m) && fs[m].check in offs
  {
    offs[fs[m].check] + Place(fs[m])
  }

  /** A node and its slot determine each other. */
  lemma SlotsMatch(fs: seq<Numbered>, cells: seq<Cell<nat>>, offs: map<nat, nat>, size: nat, m: nat, letters: set<char>)
    requires Listing(fs, letters) && Laid(fs, cells, offs, size) && 0 < m < |fs|
    ensures HasParent(fs, m) && fs[m].check in offs && SlotOf(fs, offs, m) < size < MAXSZ
    ensures cells[SlotOf(fs, offs, m)] == Taken(m, offs[fs[m].check])
  {
    ListedInner(fs, m, letters);
    var p, j := fs[m].check, Place(fs[m]);
    assert fs[p].tree.kids[j].Branch?;
    assert fs[p].tree.limit > 0 by {
      if p > 0 {
        ListedInner(fs, p, letters);
      }
    }
    assert p in Parents(fs) && j in ArraysOf(fs)[p];
  }

  lemma SlotHolds(fs: seq<Numbered>, cells: seq<Cell<nat>>, offs: map<nat, nat>, size: nat, x: nat, letters: set<char>)
    requires Listing(fs, letters) && Laid(fs, cells, offs, size) && x < MAXSZ && cells[x].Taken?
    ensures var m := cells[x].node;
            0 < m < |fs| && HasParent(fs, m) && fs[m].check in offs && x == SlotOf(fs, offs, m)
              && cells[x].offset == offs[fs[m].check]
  {
    hide Listing, Clear, Apart, HasParent, KidsListed, Inner, Path;
    var n, j := TakenFrom(cells, ArraysOf(fs), Parents(fs), offs, size, x);
    KidPlace(fs, n, j, letters);
  }

  /** A slot taken in an empty table holds a child of one of the nodes placed. */
  lemma TakenFrom<N>(t: seq<Cell<N>>, all: seq<Kids<N>>, todo: set<nat>, offs: map<nat, nat>, size: nat, x: nat)
    returns (n: nat, j: nat)
    requires Packed(t, NoCells(), all, todo, {}, offs, size) && x < MAXSZ && t[x].Taken?
    ensures n in offs && n in todo && n < |all| && j in all[n] && x == j + offs[n] && t[x] == Taken(all[n][j], offs[n])
  {
    hide Apart;
    n :| n in offs && x in Shift(all[n].Keys, offs[n]);
    j :| j in all[n].Keys && x == j + offs[n];
  }

  lemma KidPlace(fs: seq<Numbered>, n: nat, j: nat, letters: set<char>)
    requires Listing(fs, letters) && n < |fs| && j in fs[n].kids
    ensures var m := fs[n].kids[j]; 0 < m < |fs| && HasParent(fs, m) && fs[m].check == n && Place(fs[m]) == j
  {
    assert KidsListed(fs, n);
    if n > 0 { ListedInner(fs, n, letters); }
    assert Inner(fs[n].tree.kids[j], j, letters) && HasParent(fs, fs[n].kids[j]);
  }

  // ---------------------------------------------------------------- the emitted rows

  /** `_dumptbloffset`: where the child array of a node is, 0 when it has none. */
  ghost function OffsetOf(fs: seq<Numbered>, offs: map<nat, nat>, m: nat): nat {
    if m < |fs| && fs[m].kids != map[] && m in offs then offs[m] else 0
  }

  ghost function RowOf(fs: seq<Numbered>, offs: map<nat, nat>, m: nat): Entry
    requires m < |fs| && fs[m].tree.Branch?
  {
    Node(fs[m].tree.elem, fs[m].check, if fs[m].tree.limit > 0 then m else 99, OffsetOf(fs, offs, m),
      fs[m].tree.terminal)
  }

  /** The rows end with the last child array that a row points to, or with the first array of the table. */
  ghost predicate Reaching(cells: seq<Cell<nat>>, rows: seq<Entry>, n: nat)
    requires |rows| <= |cells|
  {
    n == TBLSZ || exists x :: 0 <= x < |rows| && cells[x].Taken? && rows[x].Node? && rows[x].offset + TBLSZ == n
  }

  /** The rows follow the cells, and go on to the end of the last child array that a row points to, no further. */
  ghost predicate Dumped(fs: seq<Numbered>, cells: seq<Cell<nat>>, offs: map<nat, nat>, rows: seq<Entry>)
    requires |cells| == MAXSZ
  {
    && TBLSZ <= |rows| <= MAXSZ && Reaching(cells, rows, |rows|)
    && forall x :: 0 <= x < |rows| ==>
         if cells[x].Free? then rows[x] == Null
         else cells[x].node < |fs| && fs[cells[x].node].tree.Branch? && rows[x] == RowOf(fs, offs, cells[x].node)
              && rows[x].offset + TBLSZ <= |rows|
  }

  /** The interpreter starts from an entry that only says where the root's children are. */
  function Outset(at: nat): Entry { Node("", 0, 0, at, 0) }

  /** The emitted rows, entered where the root's child array was placed. */
  ghost function TrieOf(fs: seq<Numbered>, offs: map<nat, nat>, rows: seq<Entry>, al: Alphabet): Trie {
    Trie(rows, Outset(OffsetOf(fs, offs, 0)), al)
  }

  ghost function ShapeOf(fs: seq<Numbered>, cells: seq<Cell<nat>>, offs: map<nat, nat>, size: nat, n: nat,
                         letters: set<char>): Shape
    requires Listing(fs, letters) && Laid(fs, cells, offs, size) && n <= MAXSZ
  {
    assert forall x :: 0 <= x < n && cells[x].Taken? ==>
        0 < cells[x].node < |fs| && HasParent(fs, cells[x].node) && fs[cells[x].node].check in offs by {
      forall x | 0 <= x < n && cells[x].Taken?
        ensures 0 < cells[x].node < |fs| && HasParent(fs, cells[x].node) && fs[cells[x].node].check in offs
      {
        SlotHolds(fs, cells, offs, size, x, letters);
      }
    }
    Shape(map x: nat | x < n && cells[x].Taken? :: Codes(Path(fs, cells[x].node)),
          map x: nat | x < n && cells[x].Taken? && fs[cells[x].node].check > 0 :: SlotOfParent(fs, offs, cells[x].node))
  }

  ghost function SlotOfParent(fs: seq<Numbered>, offs: map<nat, nat>, m: nat): nat
    requires 0 < m < |fs| && HasParent(fs, m) && fs[m].check > 0
  {
    var p := fs[m].check;
    if HasParent(fs, p) && fs[p].check in offs then SlotOf(fs, offs, p) else 0
  }

  // ---------------------------------------------------------------- the emitted table is well formed

  /** A whole compilation, with rows that go on to the end of the root's child array. */
  ghost predicate Emitted(fs: seq<Numbered>, cells: seq<Cell<nat>>, offs: map<nat, nat>, size: nat, rows: seq<Entry>,
                          letters: set<char>) {
    && Listing(fs, letters) && Laid(fs, cells, offs, size) && Dumped(fs, cells, offs, rows)
    && OffsetOf(fs, offs, 0) + TBLSZ <= |rows| <= |cells| == MAXSZ
  }

  /** The runtime's alphabet agrees with the compiler's on the letters in use. */
  ghost predicate Agrees(al: Alphabet, letters: set<char>) {
    forall c :: c in letters ==> Ctoi(c) == IndexOf(al, c as int)
  }

  /** Where the two sides file a character alike: the compiler knows both cases and the hyphen, the header table no
      upper case, and the table of methods and flag values nothing but letters and one place for the rest. */
  lemma FiledAlikeIff(c: char)
    ensures Ctoi(c) == IndexOf(HeaderAlphabet, c as int) <==> !('A' <= c <= 'Z')
    ensures Ctoi(c) == IndexOf(UtilityAlphabet, c as int) <==> 'a' <= c <= 'z' || 'A' <= c <= 'Z' || c == '-'
  {
  }

  /** The entry a walk leaves node `m` through. */
  ghost function EntryOf(fs: seq<Numbered>, offs: map<nat, nat>, m: nat): Entry
    requires m < |fs| && fs[m].tree.Branch?
  {
    if m == 0 then Outset(OffsetOf(fs, offs, 0)) else RowOf(fs, offs, m)
  }

  /** A parent's number and offset are in its entry. */
  lemma ParentEntry(fs: seq<Numbered>, cells: seq<Cell<nat>>, offs: map<nat, nat>, size: nat, rows: seq<Entry>, m: nat,
                    letters: set<char>)
    requires Emitted(fs, cells, offs, size, rows, letters) && 0 < m < |fs|
    ensures var p := fs[m].check;
            && HasParent(fs, m) && p in offs && p < |fs|
            && EntryOf(fs, offs, p).next == p && EntryOf(fs, offs, p).offset == offs[p]
  {
    hide Laid, Dumped, Inner;
    var p := fs[m].check;
    ListedInner(fs, m, letters);
    SlotsMatch(fs, cells, offs, size, m, letters);
    assert Place(fs[m]) in fs[p].kids;
    LimitPositive(fs, p, Place(fs[m]), letters);
  }

  lemma LimitPositive(fs: seq<Numbered>, p: nat, j: nat, letters: set<char>)
    requires Listing(fs, letters) && p < |fs| && j in fs[p].kids
    ensures fs[p].tree.limit > 0
  {
    assert KidsListed(fs, p);
    if p > 0 { ListedInner(fs, p, letters); }
  }

  /** Every node but the root has its row. */
  lemma {:induction false} HasRow(fs: seq<Numbered>, cells: seq<Cell<nat>>, offs: map<nat, nat>, size: nat,
                                  rows: seq<Entry>, m: nat, letters: set<char>)
    requires Emitted(fs, cells, offs, size, rows, letters) && 0 < m < |fs|
    ensures HasParent(fs, m) && fs[m].check in offs && SlotOf(fs, offs, m) < |rows|
    ensures rows[SlotOf(fs, offs, m)] == RowOf(fs, offs, m) && cells[SlotOf(fs, offs, m)] == Taken(m, offs[fs[m].check])
    decreases m
  {
    hide Laid, Listing;
    SlotsMatch(fs, cells, offs, size, m, letters);
    ParentEntry(fs, cells, offs, size, rows, m, letters);
    if fs[m].check > 0 {
      HasRow(fs, cells, offs, size, rows, fs[m].check, letters);
    }
  }

  /** The row at a slot is that of the node placed there. */
  lemma RowHolds(fs: seq<Numbered>, cells: seq<Cell<nat>>, offs: map<nat, nat>, size: nat, rows: seq<Entry>, x: nat,
                 letters: set<char>)
    requires Emitted(fs, cells, offs, size, rows, letters) && x < |rows|
    ensures rows[x].Node? <==> cells[x].Taken?
    ensures rows[x].Node? ==> var m := cells[x].node;
              && 0 < m < |fs| && HasParent(fs, m) && fs[m].check in offs && x == SlotOf(fs, offs, m)
              && rows[x] == RowOf(fs, offs, m) && Inner(fs[m].tree, Place(fs[m]), letters)
  {
    hide Laid, Listing;
    if cells[x].Taken? {
      SlotHolds(fs, cells, offs, size, x, letters);
      ListedInner(fs, cells[x].node, letters);
    }
  }

  /** A row follows an entry exactly when its node is a child of the entry's. */
  lemma FollowsIff(fs: seq<Numbered>, cells: seq<Cell<nat>>, offs: map<nat, nat>, size: nat, rows: seq<Entry>, p: nat,
                   m: nat, al: Alphabet, letters: set<char>)
    requires Emitted(fs, cells, offs, size, rows, letters) && Agrees(al, letters) && Separates(letters)
    requires p < |fs| && fs[p].tree.Branch? && 0 < m < |fs|
    ensures HasParent(fs, m) && fs[m].check in offs
    ensures var (t, x) := (TrieOf(fs, offs, rows, al), SlotOf(fs, offs, m));
            x < |rows| && rows[x].Node? && PrefixOk(rows[x])
              && (Follows(t, EntryOf(fs, offs, p), x) <==> fs[m].check == p)
  {
    hide Laid, Dumped, KidsOk, LimitOk;
    HasRow(fs, cells, offs, size, rows, m, letters);
    ParentEntry(fs, cells, offs, size, rows, m, letters);
    ListedInner(fs, m, letters);
    assert fs[m].tree.elem[0] in letters;
  }

  lemma EmittedRowsOk(fs: seq<Numbered>, cells: seq<Cell<nat>>, offs: map<nat, nat>, size: nat, rows: seq<Entry>,
                      al: Alphabet, letters: set<char>)
    requires Emitted(fs, cells, offs, size, rows, letters) && Separates(letters)
    ensures RowsOk(TrieOf(fs, offs, rows, al))
  {
    hide Laid, Listing, KidsOk, LimitOk;
    forall x | 0 <= x < |rows|
      ensures PrefixOk(rows[x]) && (rows[x].Node? ==> rows[x].offset + MaxIndex(al) < |rows|)
    {
      RowHolds(fs, cells, offs, size, rows, x, letters);
    }
  }

  /** The emitted table means what the tree stores. */
  lemma EmittedWellFormed(fs: seq<Numbered>, cells: seq<Cell<nat>>, offs: map<nat, nat>, size: nat, rows: seq<Entry>,
                          al: Alphabet, letters: set<char>)
    requires Emitted(fs, cells, offs, size, rows, letters) && Separates(letters) && Agrees(al, letters)
    ensures WellFormed(TrieOf(fs, offs, rows, al), ShapeOf(fs, cells, offs, size, |rows|, letters))
  {
    hide Laid, Dumped, Listing, RowOf, OffsetOf, ShapeOf, SlotOk, Follows;
    var t, sh := TrieOf(fs, offs, rows, al), ShapeOf(fs, cells, offs, size, |rows|, letters);
    EmittedRowsOk(fs, cells, offs, size, rows, al, letters);
    forall s | s in sh.text
      ensures SlotIn(t, sh, s) && SlotOk(t, sh, s)
    {
      EmittedSlotOk(fs, cells, offs, size, rows, al, letters, s);
    }
    forall x | 0 <= x < |t.tree| && t.tree[x].Node?
      ensures x in sh.text && (Follows(t, t.root, x) ==> x !in sh.parent)
      ensures forall p :: p in sh.text && SlotIn(t, sh, p) && Follows(t, t.tree[p], x) ==>
                x in sh.parent && sh.parent[x] == p
    {
      EmittedFollows(fs, cells, offs, size, rows, al, letters, x);
    }
  }

  lemma CodesJoin(a: string, b: string)
    ensures Codes(a + b) == Codes(a) + Codes(b) && "" + b == b
  {
  }

  /** The label of a node ends the text of the path to it. */
  lemma PathSplits(fs: seq<Numbered>, m: nat, letters: set<char>)
    requires Listing(fs, letters) && 0 < m < |fs|
    ensures var p := fs[m].check;
            p < m && fs[p].tree.Branch? && Codes(Path(fs, m)) == Codes(Path(fs, p)) + Codes(fs[m].tree.elem)
    ensures fs[m].check == 0 ==> Codes(Path(fs, m)) == Codes(fs[m].tree.elem)
  {
    hide Inner, KidsOk, LimitOk, Codes;
    var p := fs[m].check;
    assert HasParent(fs, m);
    if p > 0 {
      assert HasParent(fs, p);
    }
    CodesJoin(Path(fs, p), fs[m].tree.elem);
  }

  lemma EmittedSlotOk(fs: seq<Numbered>, cells: seq<Cell<nat>>, offs: map<nat, nat>, size: nat, rows: seq<Entry>,
                      al: Alphabet, letters: set<char>, s: nat)
    requires Emitted(fs, cells, offs, size, rows, letters) && Separates(letters) && Agrees(al, letters)
    requires s in ShapeOf(fs, cells, offs, size, |rows|, letters).text && RowsOk(TrieOf(fs, offs, rows, al))
    ensures var (t, sh) := (TrieOf(fs, offs, rows, al), ShapeOf(fs, cells, offs, size, |rows|, letters));
            SlotIn(t, sh, s) && SlotOk(t, sh, s)
  {
    hide Laid, Dumped, RowsOk, Inner, Listing;
    var m := cells[s].node;
    RowHolds(fs, cells, offs, size, rows, s, letters);
    var p := fs[m].check;
    PathSplits(fs, m, letters);
    FollowsIff(fs, cells, offs, size, rows, p, m, al, letters);
    if p > 0 {
      HasRow(fs, cells, offs, size, rows, p, letters);
    }
  }

  lemma EmittedFollows(fs: seq<Numbered>, cells: seq<Cell<nat>>, offs: map<nat, nat>, size: nat, rows: seq<Entry>,
                       al: Alphabet, letters: set<char>, x: nat)
    requires Emitted(fs, cells, offs, size, rows, letters) && Separates(letters) && Agrees(al, letters)
    requires x < |rows| && rows[x].Node? && RowsOk(TrieOf(fs, offs, rows, al))
    ensures var (t, sh) := (TrieOf(fs, offs, rows, al), ShapeOf(fs, cells, offs, size, |rows|, letters));
            && x in sh.text && (Follows(t, t.root, x) ==> x !in sh.parent)
            && forall p :: p in sh.text && SlotIn(t, sh, p) && Follows(t, t.tree[p], x) ==>
                 x in sh.parent && sh.parent[x] == p
  {
    hide Laid, Dumped;
    var t, sh := TrieOf(fs, offs, rows, al), ShapeOf(fs, cells, offs, size, |rows|, letters);
    RowHolds(fs, cells, offs, size, rows, x, letters);
    var m := cells[x].node;
    FollowsIff(fs, cells, offs, size, rows, 0, m, al, letters);
    forall p | p in sh.text && SlotIn(t, sh, p) && Follows(t, t.tree[p], x)
      ensures x in sh.parent && sh.parent[x] == p
    {
      RowHolds(fs, cells, offs, size, rows, p, letters);
      FollowsIff(fs, cells, offs, size, rows, cells[p].node, m, al, letters);
    }
  }

  // ---------------------------------------------------------------- correctness of the compiler

  lemma CodesInjective(a: string, b: string)
    requires Codes(a) == Codes(b)
    ensures a == b
  {
    assert forall i :: 0 <= i < |a| ==> a[i] as int == Codes(a)[i];
    assert forall i :: 0 <= i < |a| ==> a[i] == b[i];
  }

  /** Walking the emitted table over a word and a separator reports the terminal that the tree stores for the word,
      exactly when it stores one. Every access is inside the table. */
  lemma EmittedLookup(fs: seq<Numbered>, cells: seq<Cell<nat>>, offs: map<nat, nat>, size: nat, rows: seq<Entry>,
                      al: Alphabet, letters: set<char>, w: string, sep: int)
    requires Emitted(fs, cells, offs, size, rows, letters) && Separates(letters) && Agrees(al, letters)
             && NulFree(Codes(w))
    ensures var r := Lookup(TrieOf(fs, offs, rows, al), Codes(w), sep);
            && r.Walked?
            && if exists m ::
                 0 < m < |fs| && Path(fs, m) == w then r.r == Find(fs[0].tree, w)
                 else r.r == -1 && Find(fs[0].tree, w) == 0
  {
    hide Laid, Dumped, WellFormed, Lookup;
    var t, sh := TrieOf(fs, offs, rows, al), ShapeOf(fs, cells, offs, size, |rows|, letters);
    EmittedWellFormed(fs, cells, offs, size, rows, al, letters);
    LookupReports(t, sh, Codes(w), sep);
    if m :| 0 < m < |fs| && Path(fs, m) == w {
      HasRow(fs, cells, offs, size, rows, m, letters);
      NodeFinds(fs, m, letters);
    } else {
      forall s | s in sh.text
        ensures sh.text[s] != Codes(w)
      {
        RowHolds(fs, cells, offs, size, rows, s, letters);
        if sh.text[s] == Codes(w) {
          CodesInjective(Path(fs, cells[s].node), w);
        }
      }
      if Find(fs[0].tree, w) > 0 {
        var k := FoundListed(fs, 0, w, letters);
        assert false;
      }
    }
  }
}
