/** `main` of tools/patricia-build.c: from a list of words to the table, and what the interpreter finds in it. */
module Compiler {
  import opened Chars
  import opened Patricia
  import opened RadixTrees
  import opened TrieNodes
  import opened Packing
  import opened Fitting
  import opened TrieTables

  ghost function ViewOf(n: Node): TrieTables.Numbered
    requires |n.tbl| == TBLSZ
    reads n`tbl, n`val, n`check, (set j | 0 <= j < |n.tbl| && n.tbl[j] != null :: n.tbl[j])`next
  {
    TrieTables.Numbered(n.val, n.check, map j: nat | j < TBLSZ && n.tbl[j] != null :: n.tbl[j].next)
  }

  /** What the list of nodes looks like from outside the heap. */
  ghost function View(ns: seq<Node>): (fs: seq<TrieTables.Numbered>)
    requires forall a :: 0 <= a < |ns| ==> |ns[a].tbl| == TBLSZ
    reads ns`tbl, ns`val, ns`check, (set n: Node, j: nat | n in ns && j < |n.tbl| && n.tbl[j] != null :: n.tbl[j])`next
    ensures |fs| == |ns| && forall a :: 0 <= a < |ns| ==> fs[a] == ViewOf(ns[a])
  {
    if ns == [] then [] else View(ns[..|ns| - 1]) + [ViewOf(ns[|ns| - 1])]
  }

  lemma ViewListing(root: Node, letters: set<char>)
    requires root.Valid() && Rooted(root.val, letters) && |root.Nodes()| < MAXSZ && root.check == 0
    requires TrieNodes.Numbered(root.Nodes(), |root.Nodes()|)
    ensures forall a :: 0 <= a < |root.Nodes()| ==> |root.Nodes()[a].tbl| == TBLSZ
    ensures Listing(View(root.Nodes()), letters)
  {
    var ns := root.Nodes();
    forall a | 0 <= a < |ns|
      ensures ns[a].Valid()
    {
      root.NodesOwned(ns[a]);
    }
    var fs := View(ns);
    forall a | 0 <= a < |ns|
      ensures KidsListed(fs, a)
    {
      forall j | j in fs[a].kids
        ensures a < fs[a].kids[j] < |fs| && fs[fs[a].kids[j]].tree == fs[a].tree.kids[j] && fs[fs[a].kids[j]].check == a
      {
        var b := root.KidFollows(a, j);
      }
    }
    forall b | 0 < b < |ns|
      ensures HasParent(fs, b)
    {
      var a, j := root.ParentPrecedes(b);
      root.NodesOk(ns[a], letters);
      assert Inner(ns[a].val.kids[j], j, letters);
      assert ns[a].tbl[j].check == a;
    }
  }

  /** A table slot with numbers for nodes. */
  ghost function CellOf(c: Cell<Node>): Cell<nat>
    reads (if c.Taken? then {c.node} else {})`next
  {
    if c.Free? then Free else Taken(c.node.next, c.offset)
  }

  ghost function CellsOf(t: seq<Cell<Node>>): (cells: seq<Cell<nat>>)
    reads (set x | 0 <= x < |t| && t[x].Taken? :: t[x].node)`next
    ensures |cells| == |t| && forall x :: 0 <= x < |t| ==> cells[x] == CellOf(t[x])
  {
    if t == [] then [] else CellsOf(t[..|t| - 1]) + [CellOf(t[|t| - 1])]
  }

  /** Numbering the nodes does not change how they are packed. */
  lemma CellsPacked(t: seq<Cell<Node>>, ns: seq<Node>, all: seq<Kids<Node>>, todo: set<nat>, offs: map<nat, nat>,
                    size: nat)
    requires forall a :: 0 <= a < |ns| ==> |ns[a].tbl| == TBLSZ
    requires |all| == |ns| && forall a :: 0 <= a < |ns| ==> all[a] == KidsOf(ns[a])
    requires Packed(t, NoCells(), all, todo, {}, offs, size)
    ensures Packed(CellsOf(t), NoCells(), ArraysOf(View(ns)), todo, {}, offs, size)
  {
    hide Apart, Untouched, Shift;
    var all', cells := ArraysOf(View(ns)), CellsOf(t);
    forall n | 0 <= n < |all|
      ensures all'[n].Keys == all[n].Keys
    {
      assert all'[n] == ViewOf(ns[n]).kids && all[n] == KidsOf(ns[n]);
    }
    assert Written(cells, all', offs);
    PackedAlike(t, cells, all, all', todo, offs, size);
  }

  // ---------------------------------------------------------------- the table as rows

  /** A node's fields are those of its tree, and `limit` covers its children. */
  ghost predicate Faithful(n: Node)
    reads n`elem, n`terminal, n`limit, n`tbl, n`val
  {
    && n.val.Branch? && n.val.elem == n.elem && n.val.terminal == n.terminal && n.val.limit == n.limit
    && n.limit <= |n.tbl| == TBLSZ && forall j :: n.limit <= j < TBLSZ ==> n.tbl[j] == null
  }

  /** Every listed node is faithful, and its children are listed. */
  ghost predicate Whole(ns: seq<Node>)
    reads ns`elem, ns`terminal, ns`limit, ns`tbl, ns`val
  {
    && (forall a :: 0 <= a < |ns| ==> |ns[a].tbl| == TBLSZ && Faithful(ns[a]))
    && (forall a, j :: 0 <= a < |ns| && 0 <= j < TBLSZ && ns[a].tbl[j] != null ==> ns[a].tbl[j] in ns)
  }

  /** A listed, numbered and packed tree in the heap. */
  ghost predicate Ready(t: seq<Cell<Node>>, ns: seq<Node>, fs: seq<TrieTables.Numbered>, offs: map<nat, nat>, size: nat,
                        letters: set<char>)
    reads ns`elem, ns`terminal, ns`limit, ns`tbl, ns`val, ns`check, ns`next
    reads (set n: Node, j: nat | n in ns && j < |n.tbl| && n.tbl[j] != null :: n.tbl[j])`check
    reads (set n: Node, j: nat | n in ns && j < |n.tbl| && n.tbl[j] != null :: n.tbl[j])`next
    reads (set x | 0 <= x < |t| && t[x].Taken? :: t[x].node)`next
  {
    && |t| == MAXSZ && Whole(ns) && fs == View(ns)
    && TrieNodes.Numbered(ns, |ns|) && Listing(fs, letters)
    && (forall x :: 0 <= x < MAXSZ && t[x].Taken? ==> t[x].node in ns)
    && Laid(fs, CellsOf(t), offs, size)
  }

  /** A node remembers a slot it is in. */
  ghost predicate Remembers(t: seq<Cell<Node>>, n: Node)
    reads n`te
  {
    n.te < |t| && t[n.te].Taken? && t[n.te].node == n
  }

  ghost predicate Fixed(t: seq<Cell<Node>>, i: nat)
    requires i <= |t|
    reads (set x | 0 <= x < |t| && t[x].Taken? :: t[x].node)`te
  {
    forall x :: 0 <= x < i && t[x].Taken? ==> Remembers(t, t[x].node)
  }

  method Fixate(table: array<Cell<Node>>)
    modifies (set x | 0 <= x < table.Length && table[x].Taken? :: table[x].node)`te
    ensures Fixed(table[..], table.Length)
  {
    ghost var t := table[..];
    for i := 0 to table.Length
      invariant Fixed(t, i)
    {
      if table[i].Taken? {
        Mark(t, table[i].node, i);
      }
    }
  }

  method Mark(ghost t: seq<Cell<Node>>, n: Node, i: nat)
    requires i < |t| && t[i].Taken? && t[i].node == n && Fixed(t, i)
    modifies n`te
    ensures Fixed(t, i + 1)
  {
    n.te := i;
    assert Remembers(t, n);
    forall x | 0 <= x < i && t[x].Taken?
      ensures Remembers(t, t[x].node)
    {
    }
  }

  /** Every listed node but the root is in the table. */
  lemma Placed(t: seq<Cell<Node>>, ns: seq<Node>, fs: seq<TrieTables.Numbered>, offs: map<nat, nat>, size: nat,
               letters: set<char>, b: nat)
    returns (x: nat)
    requires Ready(t, ns, fs, offs, size, letters) && 0 < b < |ns|
    ensures x < |t| && t[x].Taken? && t[x].node == ns[b]
  {
    hide Laid, HasParent, Faithful;
    SlotsMatch(fs, CellsOf(t), offs, size, b, letters);
    x := SlotOf(fs, offs, b);
    assert CellsOf(t)[x] == CellOf(t[x]);
    var d :| 0 <= d < |ns| && ns[d] == t[x].node;
  }

  /** A child is in the slot it remembers, at the offset of its parent's child array. */
  lemma KidCell(t: seq<Cell<Node>>, ns: seq<Node>, fs: seq<TrieTables.Numbered>, offs: map<nat, nat>, size: nat,
                letters: set<char>, a: nat, j: nat)
    requires Ready(t, ns, fs, offs, size, letters) && Fixed(t, |t|)
    requires a < |ns| && |ns[a].tbl| == TBLSZ && j < TBLSZ && ns[a].tbl[j] != null
    ensures var c := ns[a].tbl[j]; c.te < |t| && t[c.te].Taken? && t[c.te].offset == OffsetOf(fs, offs, a)
  {
    hide Laid, HasParent, Faithful, Fixed;
    var c := ns[a].tbl[j];
    assert KidsListed(fs, a) && fs[a] == ViewOf(ns[a]);
    var b :| 0 <= b < |ns| && ns[b] == c;
    assert fs[a].kids[j] == b;
    var x := Placed(t, ns, fs, offs, size, letters, b);
    Kept(t, c, x);
    assert CellsOf(t)[c.te] == CellOf(t[c.te]);
    SlotHolds(fs, CellsOf(t), offs, size, c.te, letters);
  }

  lemma Kept(t: seq<Cell<Node>>, n: Node, x: nat)
    requires Fixed(t, |t|) && x < |t| && t[x].Taken? && t[x].node == n
    ensures Remembers(t, n)
  {
  }

  /** `_dumptbloffset` */
  method DumpOffset(table: array<Cell<Node>>, n: Node, ghost ns: seq<Node>, ghost fs: seq<TrieTables.Numbered>,
                    ghost offs: map<nat, nat>, ghost size: nat, ghost letters: set<char>) returns (o: nat)
    requires Ready(table[..], ns, fs, offs, size, letters) && Fixed(table[..], table.Length)
    requires n in ns && n.next < |fs|
    ensures o == OffsetOf(fs, offs, n.next)
  {
    hide Laid, Listing;
    assert Faithful(n) && ns[n.next] == n;
    ghost var t := table[..];
    for i := 0 to n.limit
      invariant forall j :: 0 <= j < i ==> n.tbl[j] == null
    {
      if n.tbl[i] != null {
        KidCell(t, ns, fs, offs, size, letters, n.next, i);
        assert t[n.tbl[i].te] == table[n.tbl[i].te];
        return table[n.tbl[i].te].offset;
      }
    }
    assert fs[n.next] == ViewOf(n) && fs[n.next].kids == map[];
    return 0;
  }

  /** One row of `dumptbl`, and where the child array it points to ends. */
  method DumpRow(table: array<Cell<Node>>, i: nat, ghost ns: seq<Node>, ghost fs: seq<TrieTables.Numbered>,
                 ghost offs: map<nat, nat>, ghost size: nat, ghost letters: set<char>) returns (row: Entry, reach: nat)
    requires Ready(table[..], ns, fs, offs, size, letters) && Fixed(table[..], table.Length) && i < table.Length
    ensures reach <= MAXSZ && RowOk(fs, CellsOf(table[..])[i], offs, row, reach)
    ensures reach > 0 ==> CellsOf(table[..])[i].Taken? && row.Node? && row.offset + TBLSZ == reach
  {
    hide Laid, Listing, Fixed;
    ghost var t := table[..];
    assert t[i] == table[i] && CellsOf(t)[i] == CellOf(t[i]);
    if table[i].Free? {
      return Null, 0;
    }
    var n := table[i].node;
    NodeRow(t, ns, fs, offs, size, letters, n);
    var offset := DumpOffset(table, n, ns, fs, offs, size, letters);
    row := Node(n.elem, n.check, if n.limit > 0 then n.next else 99, offset, n.terminal);
    reach := offset + TBLSZ;
  }

  /** `dumptbl`: the rows, to the end of the last child array that a row points to. */
  method Dump(table: array<Cell<Node>>, ghost ns: seq<Node>, ghost fs: seq<TrieTables.Numbered>,
              ghost offs: map<nat, nat>, ghost size: nat, ghost letters: set<char>) returns (rows: seq<Entry>)
    requires Ready(table[..], ns, fs, offs, size, letters) && Fixed(table[..], table.Length) && table.Length == MAXSZ
    ensures Dumped(fs, CellsOf(table[..]), offs, rows)
  {
    hide Ready, Fixed, RowOf, Reaching;
    ghost var cells := CellsOf(table[..]);
    var sz := TBLSZ;
    rows := [];
    NothingReaches(cells);
    while |rows| < sz
      invariant |rows| <= sz && TBLSZ <= sz <= MAXSZ
      invariant forall x :: 0 <= x < |rows| ==> RowOk(fs, cells[x], offs, rows[x], sz)
      invariant Reaching(cells, rows, sz)
      decreases MAXSZ - |rows|
    {
      var row, reach := DumpRow(table, |rows|, ns, fs, offs, size, letters);
      ReachGrows(cells, rows, row, sz, reach);
      if reach > sz {
        sz := reach;
      }
      rows := rows + [row];
    }
  }

  lemma NothingReaches(cells: seq<Cell<nat>>) ensures Reaching(cells, [], TBLSZ) {
  }

  lemma ReachGrows(cells: seq<Cell<nat>>, rows: seq<Entry>, row: Entry, sz: nat, reach: nat)
    requires |rows| < |cells| && Reaching(cells, rows, sz)
    requires reach > 0 ==> cells[|rows|].Taken? && row.Node? && row.offset + TBLSZ == reach
    ensures Reaching(cells, rows + [row], Max(sz, reach))
  {
    var rows' := rows + [row];
    assert rows'[|rows|] == row && forall x :: 0 <= x < |rows| ==> rows'[x] == rows[x];
  }

  ghost predicate RowOk(fs: seq<TrieTables.Numbered>, c: Cell<nat>, offs: map<nat, nat>, row: Entry, sz: nat) {
    if c.Free? then row == Null
    else c.node < |fs| && fs[c.node].tree.Branch? && row == RowOf(fs, offs, c.node) && row.offset + TBLSZ <= sz
  }

  /** What a row needs to know of a placed node. */
  lemma NodeRow(t: seq<Cell<Node>>, ns: seq<Node>, fs: seq<TrieTables.Numbered>, offs: map<nat, nat>, size: nat,
                letters: set<char>, n: Node)
    requires Ready(t, ns, fs, offs, size, letters) && n in ns
    ensures n.next < |fs| && fs[n.next].tree.Branch? && OffsetOf(fs, offs, n.next) + TBLSZ <= MAXSZ
    ensures RowOf(fs, offs, n.next)
         == Node(n.elem, n.check, if n.limit > 0 then n.next else 99, OffsetOf(fs, offs, n.next), n.terminal)
  {
    hide Listing, Apart, Written, Untouched;
    var a :| 0 <= a < |ns| && ns[a] == n;
    assert fs[a] == ViewOf(n) && Faithful(n);
  }

  // ---------------------------------------------------------------- main

  /** Walking the rows over any word, and then a separator, reports the terminal of the word exactly when the list has
      it. */
  ghost predicate Recognises(rows: seq<Entry>, at: nat, ws: seq<Keyword>, letters: set<char>) {
    forall al, w: string, sep :: Agrees(al, letters) && NulFree(Codes(w)) ==>
      var r := Lookup(Trie(rows, Outset(at), al), Codes(w), sep);
      && r.Walked? && (Listed(ws, w) > 0 ==> r.r == Listed(ws, w)) && (r.r > 0 ==> r.r == Listed(ws, w))
  }

  /** The tree of all the words. */
  method Grow(ws: seq<Keyword>) returns (root: Node)
    ensures root.Valid() && fresh(root.Repr) && root.Unmarked() && root.val == Build(ws) && root.check == 0
  {
    root := new Node.Root();
    for i := 0 to |ws|
      invariant root.Valid() && fresh(root.Repr) && root.Unmarked() && root.val == Build(ws[..i]) && root.check == 0
    {
      assert ws[..i + 1][..i] == ws[..i];
      root.Insert(ws[i].terminal, ws[i].word);
    }
    assert ws[..|ws|] == ws;
  }

  ghost function AllKids(ns: seq<Node>): (all: seq<Kids<Node>>)
    requires forall a :: 0 <= a < |ns| ==> |ns[a].tbl| == TBLSZ
    reads ns`tbl
    ensures |all| == |ns| && forall a :: 0 <= a < |ns| ==> all[a] == KidsOf(ns[a])
  {
    if ns == [] then [] else AllKids(ns[..|ns| - 1]) + [KidsOf(ns[|ns| - 1])]
  }

  /** The listed nodes are ready for the search, and their children are listed. */
  lemma Searchable(root: Node, list: array<Node?>, letters: set<char>)
    requires root.Valid() && Rooted(root.val, letters) && Covers(root.val) && |root.Nodes()| < MAXSZ
             && list.Length == MAXSZ
    requires list[..|root.Nodes()|] == root.Nodes() && forall x :: |root.Nodes()| <= x < MAXSZ ==> list[x] == null
    ensures var ns := root.Nodes();
            Whole(ns) && Indexed(list, ns, AllKids(ns))
  {
    var ns := root.Nodes();
    forall a | 0 <= a < |ns|
      ensures Faithful(ns[a]) && Array(ns[a], KidsOf(ns[a]))
    {
      NodeReady(root, ns[a], letters);
    }
    root.NodesDistinct();
    assert forall x :: 0 <= x < |ns| ==> list[x] == list[..|ns|][x];
    forall a, j | 0 <= a < |ns| && 0 <= j < TBLSZ && ns[a].tbl[j] != null
      ensures ns[a].tbl[j] in ns
    {
      var b := root.KidFollows(a, j);
    }
  }

  lemma NodeReady(root: Node, n: Node, letters: set<char>)
    requires root.Valid() && Rooted(root.val, letters) && Covers(root.val) && n in root.Nodes()
    ensures Faithful(n) && Array(n, KidsOf(n))
  {
    root.NodesOwned(n);
    root.NodesOk(n, letters);
    assert forall j :: n.limit <= j < TBLSZ ==> n.val.kids[j] == Nil;
  }

  /** The nodes to be placed are those with children, when no flag is set. */
  lemma TodoAll(root: Node)
    requires root.Valid() && root.Unmarked() && Whole(root.Nodes())
    ensures Todo(root.Nodes()) == Parents(View(root.Nodes()))
  {
    var ns := root.Nodes();
    forall a | 0 <= a < |ns|
      ensures !ns[a].visited && View(ns)[a].tree == ns[a].val
    {
      root.NodesOwned(ns[a]);
    }
  }

  /** A packed table holds listed nodes only. */
  lemma TableReady(t: seq<Cell<Node>>, ns: seq<Node>, offs: map<nat, nat>, size: nat, letters: set<char>)
    requires Whole(ns) && TrieNodes.Numbered(ns, |ns|) && Listing(View(ns), letters)
    requires Packed(t, NoCells(), AllKids(ns), Parents(View(ns)), {}, offs, size) && size < MAXSZ
    ensures Ready(t, ns, View(ns), offs, size, letters)
  {
    hide Listing, TrieNodes.Numbered, Packed;
    var all := AllKids(ns);
    forall x | 0 <= x < |t| == MAXSZ && t[x].Taken?
      ensures t[x].node in ns
    {
      var n, j := TakenFrom(t, all, Parents(View(ns)), offs, size, x);
      assert all[n] == KidsOf(ns[n]);
    }
    PackedSize(t, all, Parents(View(ns)), offs, size);
    CellsPacked(t, ns, all, Parents(View(ns)), offs, size);
  }

  lemma PackedSize<N>(t: seq<Cell<N>>, all: seq<Kids<N>>, todo: set<nat>, offs: map<nat, nat>, size: nat)
    requires Packed(t, NoCells(), all, todo, {}, offs, size)
    ensures |t| == MAXSZ
  {
  }

  lemma AllRecognised(fs: seq<TrieTables.Numbered>, cells: seq<Cell<nat>>, offs: map<nat, nat>, size: nat,
                      rows: seq<Entry>, at: nat, ws: seq<Keyword>, letters: set<char>)
    requires Emitted(fs, cells, offs, size, rows, letters) && Separates(letters) && fs != []
             && at == OffsetOf(fs, offs, 0)
    requires forall w :: Find(fs[0].tree, w) == Listed(ws, w)
    ensures Recognises(rows, at, ws, letters)
  {
    hide Emitted, Agrees, Lookup, OffsetOf;
    forall al, w: string, sep | Agrees(al, letters) && NulFree(Codes(w))
      ensures var r := Lookup(Trie(rows, Outset(at), al), Codes(w), sep);
              r.Walked? && (Listed(ws, w) > 0 ==> r.r == Listed(ws, w)) && (r.r > 0 ==> r.r == Listed(ws, w))
    {
      EmittedLookup(fs, cells, offs, size, rows, al, letters, w, sep);
      assert Find(fs[0].tree, w) == Listed(ws, w);
    }
  }

  /** What the search finds over the nodes holds of the listed tree. */
  lemma BestFound(ns: seq<Node>, fs: seq<TrieTables.Numbered>, limit: nat, ord: seq<nat>)
    requires forall a :: 0 <= a < |ns| ==> |ns[a].tbl| == TBLSZ
    requires fs == View(ns) && Arrays(AllKids(ns))
    requires Smallest(AllKids(ns), Parents(fs), {}, 0, MAXSZ, limit, ord)
    ensures Best(fs, limit)
  {
    hide OrderSize;
    var all, all' := AllKids(ns), ArraysOf(fs);
    forall n | 0 <= n < |all|
      ensures all'[n].Keys == all[n].Keys
    {
      assert all'[n] == fs[n].kids && all[n] == KidsOf(ns[n]);
    }
    assert forall n :: 0 <= n < |all| ==> InArray(all[n].Keys);
    forall o | IsOrder(o, Parents(fs))
      ensures limit <= OrderSize(all', o, {}, 0)
    {
      SizeAlike(all, all', o, {}, 0);
    }
    if limit < MAXSZ {
      SizeAlike(all, all', ord, {}, 0);
      assert IsOrder(ord, Parents(fs)) && OrderSize(all', ord, {}, 0) == limit;
    }
  }

  /** The search: the least size of all orders of placing, and a table packed to that size when it is below `MAXSZ`. */
  method Search(list: array<Node?>, ghost ns: seq<Node>, ghost fs: seq<TrieTables.Numbered>, ghost letters: set<char>)
    returns (limit: nat, table: array<Cell<Node>>, ghost offs: map<nat, nat>)
    requires Searched(list, ns, fs, letters)
    modifies ns`visited
    ensures Best(fs, limit) && fresh(table) && table.Length == MAXSZ
    ensures limit < MAXSZ ==> Ready(table[..], ns, fs, offs, limit, letters)
  {
    hide Listing, Ready, Packed, Indexed, TrieNodes.Numbered, Faithful, View, AllKids, Best, Smallest, Searched, Whole;
    hide IsOrder, OrderSize, OrderTable, OrderOffsets, Arrays, Indexes, InTable, Todo, Parents;
    SearchStarts(list, ns, fs, letters);
    ghost var all := AllKids(ns);
    table := new Cell<Node>[MAXSZ](_ => Free);
    assert table[..] == NoCells();
    ghost var ord;
    limit, ord := Fit(list, table, {}, 0, MAXSZ, ns, all);
    SmallestTells(all, Parents(fs), limit, ord);
    BestFound(ns, fs, limit, ord);
    offs := map[];
    if limit < MAXSZ {
      offs := OrderOffsets(all, ord, {});
      PackingFound(table[..], ns, fs, limit, ord, letters);
    }
  }

  /** What the search starts from. */
  lemma SearchStarts(list: array<Node?>, ns: seq<Node>, fs: seq<TrieTables.Numbered>, letters: set<char>)
    requires Searched(list, ns, fs, letters)
    ensures Whole(ns) && fs == View(ns) && |AllKids(ns)| == |ns| == |fs| && Todo(ns) == Parents(fs) && InTable({})
    ensures Indexed(list, ns, AllKids(ns)) && TrieNodes.Numbered(ns, |ns|) && Listing(fs, letters)
    ensures forall a :: 0 <= a < |ns| ==> |ns[a].tbl| == TBLSZ
    ensures forall n :: n in Parents(fs) ==> n < |ns|
  {
    hide Indexed, TrieNodes.Numbered, Listing, Todo;
  }

  /** The table of an order of the least size is a packing of the listed tree. */
  lemma PackingFound(t: seq<Cell<Node>>, ns: seq<Node>, fs: seq<TrieTables.Numbered>, limit: nat, ord: seq<nat>,
                     letters: set<char>)
    requires Whole(ns) && fs == View(ns) && TrieNodes.Numbered(ns, |ns|) && Listing(fs, letters)
    requires Arrays(AllKids(ns)) && Indexes(AllKids(ns), ord) && IsOrder(ord, Parents(fs)) && InTable({})
    requires OrderSize(AllKids(ns), ord, {}, 0) == limit < MAXSZ && t == OrderTable(AllKids(ns), ord, {}, NoCells())
    ensures Ready(t, ns, fs, OrderOffsets(AllKids(ns), ord, {}), limit, letters)
  {
    hide Listing, Ready, Packed, TrieNodes.Numbered, Faithful, View, AllKids, OrderSize, OrderTable, OrderOffsets;
    OrderPacks(AllKids(ns), ord, Parents(fs), {}, 0, NoCells());
    TableReady(t, ns, OrderOffsets(AllKids(ns), ord, {}), limit, letters);
  }

  lemma SmallestTells(all: seq<Kids<Node>>, todo: set<nat>, limit: nat, ord: seq<nat>)
    requires Arrays(all) && (forall n :: n in todo ==> n < |all|) && Smallest(all, todo, {}, 0, MAXSZ, limit, ord)
    ensures limit <= MAXSZ && (limit < MAXSZ ==>
              IsOrder(ord, todo) && Indexes(all, ord) && OrderSize(all, ord, {}, 0) == limit)
  {
  }

  /** A tree listed and numbered, before the search. */
  ghost predicate Searched(list: array<Node?>, ns: seq<Node>, fs: seq<TrieTables.Numbered>, letters: set<char>)
    reads list, ns`elem, ns`terminal, ns`limit, ns`tbl, ns`val, ns`check, ns`next, ns`mask, ns`visited
    reads (set n: Node, j: nat | n in ns && j < |n.tbl| && n.tbl[j] != null :: n.tbl[j])`check
    reads (set n: Node, j: nat | n in ns && j < |n.tbl| && n.tbl[j] != null :: n.tbl[j])`next
  {
    && Whole(ns) && Indexed(list, ns, AllKids(ns)) && fs == View(ns) && Todo(ns) == Parents(fs)
    && TrieNodes.Numbered(ns, |ns|) && Listing(fs, letters)
  }

  /** A tree listed and numbered. */
  method List(root: Node, ghost letters: set<char>)
    returns (list: array<Node?>, ghost ns: seq<Node>, ghost fs: seq<TrieTables.Numbered>)
    requires root.Valid() && Rooted(root.val, letters) && root.Unmarked() && root.check == 0 && Size(root.val) < MAXSZ
    modifies root.Repr`next, root.Repr`check
    ensures Searched(list, ns, fs, letters) && ns != [] && ns[0] == root && fs != [] && fs[0].tree == old(root.val)
    ensures fresh(list) && forall a :: 0 <= a < |ns| ==> ns[a] in old(root.Repr)
  {
    hide Listing, Indexed, TrieNodes.Numbered, Rooted, Node.Valid, Node.Unmarked, Node.Nodes, Whole, Faithful, Covers,
         AllKids, Parents, Todo, Size;
    RootCovered(root.val, letters);
    list := new Node?[MAXSZ](_ => null);
    var end := root.Walk(list, 0);
    ns := root.Nodes();
    Searchable(root, list, letters);
    WholeTables(ns);
    ViewListing(root, letters);
    TodoAll(root);
    fs := View(ns);
    forall a | 0 <= a < |ns|
      ensures ns[a] in root.Repr
    {
      root.NodesOwned(ns[a]);
    }
  }

  lemma RootCovered(t: Tree, letters: set<char>)
    requires Rooted(t, letters)
    ensures Covers(t)
  {
    OkCovers(t, 1, letters);
  }

  lemma WholeTables(ns: seq<Node>)
    requires Whole(ns)
    ensures forall a :: 0 <= a < |ns| ==> |ns[a].tbl| == TBLSZ
  {
  }

  /** The tree of the words, listed and numbered. */
  method Plant(ws: seq<Keyword>, ghost letters: set<char>)
    returns (root: Node, list: array<Node?>, ghost ns: seq<Node>, ghost fs: seq<TrieTables.Numbered>)
    requires Separates(letters) && Insertable(ws, letters) && Size(Build(ws)) < MAXSZ
    ensures Searched(list, ns, fs, letters) && ns != [] && ns[0] == root && fs != [] && fs[0].tree == Build(ws)
    ensures fresh(list) && forall a :: 0 <= a < |ns| ==> fresh(ns[a])
  {
    hide Searched, Rooted, Node.Valid, Node.Unmarked, Build, Find, Size, Insertable;
    BuildFinds(ws, letters);
    root := Grow(ws);
    list, ns, fs := List(root, letters);
  }

  /** `fixate` and `dumptbl`. */
  method Emit(table: array<Cell<Node>>, root: Node, ghost ns: seq<Node>, ghost fs: seq<TrieTables.Numbered>,
              ghost offs: map<nat, nat>, ghost size: nat, ghost letters: set<char>)
    returns (at: nat, rows: seq<Entry>, ghost cells: seq<Cell<nat>>)
    requires Ready(table[..], ns, fs, offs, size, letters) && table.Length == MAXSZ && ns != [] && root == ns[0]
    modifies ns`te
    ensures Laid(fs, cells, offs, size) && |cells| == MAXSZ && Dumped(fs, cells, offs, rows)
            && at == OffsetOf(fs, offs, 0)
    ensures at + TBLSZ <= |rows| ==> Emitted(fs, cells, offs, size, rows, letters)
  {
    hide Listing, Fixed, RowOk, Ready, Laid, Dumped, OffsetOf;
    ReadyTells(table, ns, fs, offs, size, letters);
    Fixate(table);
    cells := CellsOf(table[..]);
    at := DumpOffset(table, root, ns, fs, offs, size, letters);
    rows := Dump(table, ns, fs, offs, size, letters);
    DumpedSize(fs, cells, offs, rows);
  }

  lemma ReadyTells(table: array<Cell<Node>>, ns: seq<Node>, fs: seq<TrieTables.Numbered>, offs: map<nat, nat>,
                   size: nat, letters: set<char>)
    requires Ready(table[..], ns, fs, offs, size, letters)
    ensures Listing(fs, letters) && Laid(fs, CellsOf(table[..]), offs, size) && |fs| == |ns|
    ensures forall a :: 0 <= a < |ns| ==> ns[a].next == a
    ensures forall x :: 0 <= x < table.Length && table[x].Taken? ==> table[x].node in ns
  {
    assert forall x :: 0 <= x < table.Length ==> table[x] == table[..][x];
  }

  lemma DumpedSize(fs: seq<TrieTables.Numbered>, cells: seq<Cell<nat>>, offs: map<nat, nat>, rows: seq<Entry>)
    requires |cells| == MAXSZ && Dumped(fs, cells, offs, rows)
    ensures |rows| <= MAXSZ
  {
  }

  /** What a compilation comes to: the listed tree `fs`, the least size, and, when that is below `MAXSZ`, a packing of
      that size with its rows and the place `at` of the root's child array. */
  ghost predicate Compiled(ws: seq<Keyword>, fs: seq<TrieTables.Numbered>, cells: seq<Cell<nat>>, offs: map<nat, nat>,
                           size: nat, ok: bool, at: nat, rows: seq<Entry>, letters: set<char>) {
    && Listing(fs, letters) && fs[0].tree == Build(ws) && Best(fs, size)
    && (ok <==> exists o :: IsOrder(o, Parents(fs)) && OrderSize(ArraysOf(fs), o, {}, 0) < MAXSZ)
    && (ok ==>
         Laid(fs, cells, offs, size) && |cells| == MAXSZ && Dumped(fs, cells, offs, rows)
         && at == OffsetOf(fs, offs, 0))
  }

  lemma CompiledHolds(ws: seq<Keyword>, fs: seq<TrieTables.Numbered>, cells: seq<Cell<nat>>, offs: map<nat, nat>,
                      size: nat, ok: bool, at: nat, rows: seq<Entry>, letters: set<char>)
    requires Listing(fs, letters) && fs[0].tree == Build(ws) && Best(fs, size) && (ok <==> size < MAXSZ)
    requires ok ==>
               Laid(fs, cells, offs, size) && |cells| == MAXSZ && Dumped(fs, cells, offs, rows)
               && at == OffsetOf(fs, offs, 0)
    ensures Compiled(ws, fs, cells, offs, size, ok, at, rows, letters)
  {
    hide Listing, Laid, Dumped, OffsetOf, OrderSize, IsOrder;
  }

  lemma SearchedLists(list: array<Node?>, ns: seq<Node>, fs: seq<TrieTables.Numbered>, letters: set<char>)
    requires Searched(list, ns, fs, letters)
    ensures Listing(fs, letters)
  {
  }

  /** `main`, but for reading the words and printing the rows. The rows are entered at `at`. */
  method Compile(ws: seq<Keyword>, ghost letters: set<char>)
    returns (ok: bool, at: nat, rows: seq<Entry>,
             ghost fs: seq<TrieTables.Numbered>, ghost cells: seq<Cell<nat>>, ghost offs: map<nat, nat>,
               ghost size: nat)
    requires Separates(letters) && Insertable(ws, letters) && Size(Build(ws)) < MAXSZ
    ensures Compiled(ws, fs, cells, offs, size, ok, at, rows, letters)
    ensures ok && at + TBLSZ <= |rows| ==> Recognises(rows, at, ws, letters)
  {
    hide *;
    ghost var ns;
    var root, list, limit, table;
    root, list, ns, fs := Plant(ws, letters);
    SearchedLists(list, ns, fs, letters);
    limit, table, offs := Search(list, ns, fs, letters);
    ok, at, rows, cells, size := limit < MAXSZ, 0, [], [], limit;
    if ok {
      at, rows, cells := Emit(table, root, ns, fs, offs, limit, letters);
      if at + TBLSZ <= |rows| {
        BuildFinds(ws, letters);
        AllRecognised(fs, cells, offs, limit, rows, at, ws, letters);
      }
    }
    CompiledHolds(ws, fs, cells, offs, size, ok, at, rows, letters);
  }

  /** Rows that end before the root's child array does send a walk out of the table on some character. */
  lemma ShortRowsFail(rows: seq<Entry>, at: nat, ws: seq<Keyword>, letters: set<char>)
    requires at + TBLSZ > |rows| && Agrees(HeaderAlphabet, letters)
    ensures exists w: string, sep ::
              NulFree(Codes(w)) && Lookup(Trie(rows, Outset(at), HeaderAlphabet), Codes(w), sep).Fault?
    ensures !Recognises(rows, at, ws, letters)
  {
    var w := "?";
    assert WalkWord(Trie(rows, Outset(at), HeaderAlphabet), START, Codes(w)) == Fault;
    assert Lookup(Trie(rows, Outset(at), HeaderAlphabet), Codes(w), 0) == Fault;
  }
}
