/** `fit` of tools/patricia-build.c: the branch-and-bound search for the smallest table. */
module Fitting {
  import opened RadixTrees
  import opened TrieNodes
  import opened Packing

  ghost function KidsOf(n: Node): (k: Kids<Node>)
    requires |n.tbl| == TBLSZ
    reads n`tbl
  {
    map j: nat | j < TBLSZ && n.tbl[j] != null :: n.tbl[j]
  }

  /** The list of all nodes, and the child arrays they have. */
  ghost predicate Indexed(list: array<Node?>, ns: seq<Node>, all: seq<Kids<Node>>)
    reads list, ns`tbl, ns`mask, ns`limit
  {
    && list.Length == MAXSZ && |ns| == |all| < MAXSZ
    && (forall x :: 0 <= x < MAXSZ ==> list[x] == if x < |ns| then ns[x] else null)
    && (forall a, b :: 0 <= a < b < |ns| ==> ns[a] != ns[b])
    && forall a :: 0 <= a < |ns| ==> Array(ns[a], all[a])
  }

  ghost predicate Array(n: Node, kids: Kids<Node>)
    reads n`tbl, n`mask, n`limit
  {
    && |n.tbl| == TBLSZ && n.limit <= TBLSZ && kids == KidsOf(n) && n.mask == kids.Keys
    && forall j :: j in kids ==> j < n.limit
  }

  /** The nodes with children to be placed. */
  ghost function Todo(ns: seq<Node>): (todo: set<nat>)
    reads ns`visited, ns`limit
  {
    set a: nat | a < |ns| && !ns[a].visited && ns[a].limit > 0
  }

  /** No order of `todo` gives a table below `r`; when `r` is below `hi`, `ord` gives exactly that. */
  ghost predicate Smallest(all: seq<Kids<Node>>, todo: set<nat>, used: set<nat>, lo: nat, hi: nat, r: nat,
                           ord: seq<nat>)
    requires Arrays(all) && InTable(used) && forall n :: n in todo ==> n < |all|
  {
    && r <= hi && (forall o :: IsOrder(o, todo) ==> r <= OrderSize(all, o, used, lo))
    && (r < hi ==> IsOrder(ord, todo) && OrderSize(all, ord, used, lo) == r)
  }

  /** The same for the orders that start with a node before `i`. */
  ghost predicate SmallestBefore(all: seq<Kids<Node>>, todo: set<nat>, used: set<nat>, lo: nat, hi: nat, r: nat,
                                 ord: seq<nat>, i: nat)
    requires Arrays(all) && InTable(used) && forall n :: n in todo ==> n < |all|
  {
    && r <= hi && (forall o :: IsOrder(o, todo) && o != [] && o[0] < i ==> r <= OrderSize(all, o, used, lo))
    && (r < hi ==> IsOrder(ord, todo) && OrderSize(all, ord, used, lo) == r)
  }

  /** The same for the orders that start with node `i`. */
  ghost predicate SmallestFrom(all: seq<Kids<Node>>, todo: set<nat>, used: set<nat>, lo: nat, hi: nat, r: nat,
                               ord: seq<nat>, i: nat)
    requires Arrays(all) && InTable(used) && forall n :: n in todo ==> n < |all|
  {
    && r <= hi && (forall o :: IsOrder(o, todo) && o != [] && o[0] == i ==> r <= OrderSize(all, o, used, lo))
    && (r < hi ==> IsOrder(ord, todo) && OrderSize(all, ord, used, lo) == r)
  }

  lemma NextStart(all: seq<Kids<Node>>, todo: set<nat>, used: set<nat>, lo: nat, hi: nat, r: nat, ord: seq<nat>, i: nat,
                  sz: nat, ord1: seq<nat>)
    requires Arrays(all) && InTable(used) && forall n :: n in todo ==> n < |all|
    requires SmallestBefore(all, todo, used, lo, hi, r, ord, i)
    ensures i !in todo ==> SmallestBefore(all, todo, used, lo, hi, r, ord, i + 1)
    ensures i in todo && SmallestFrom(all, todo, used, lo, r, sz, ord1, i) ==>
              SmallestBefore(all, todo, used, lo, hi, sz, if sz < r then ord1 else ord, i + 1)
  {
    forall o | IsOrder(o, todo) && o != [] && o[0] < i + 1 && i !in todo
      ensures o[0] < i
    {
      assert o[0] in todo;
    }
  }

  lemma IndexedArrays(list: array<Node?>, ns: seq<Node>, all: seq<Kids<Node>>)
    requires Indexed(list, ns, all)
    ensures Arrays(all)
  {
    forall n | 0 <= n < |all|
      ensures InArray(all[n].Keys)
    {
      assert Array(ns[n], all[n]);
    }
  }

  /** The children of a node written into a copy of the table. */
  method Overlay(n: Node, table: array<Cell<Node>>, o: nat, ghost kids: Kids<Node>) returns (ntbl: array<Cell<Node>>)
    requires Array(n, kids) && table.Length == MAXSZ && o + TBLSZ < MAXSZ
    ensures fresh(ntbl) && ntbl.Length == MAXSZ && ntbl[..] == PlaceKids(table[..], kids, o)
  {
    ntbl := new Cell<Node>[MAXSZ](x requires 0 <= x < table.Length reads table => table[x]);
    for j := 0 to n.limit
      invariant forall x :: 0 <= x < MAXSZ ==>
                  ntbl[x] == if o <= x < o + j && x - o in kids then Taken(kids[x - o], o) else table[x]
    {
      if n.tbl[j] != null {
        ntbl[j + o] := Taken(n.tbl[j], o);
      }
    }
  }

  /** The orders that start with node `i`: it goes to its first free offset, if that leaves the table below `limit`. */
  method FitNode(list: array<Node?>, table: array<Cell<Node>>, i: nat, mask: set<nat>, lo: nat, limit: nat,
                 ghost ns: seq<Node>, ghost all: seq<Kids<Node>>)
                 returns (sz: nat, ntbl: seq<Cell<Node>>, ghost ord: seq<nat>)
    requires Indexed(list, ns, all) && i < |ns| && ns[i].visited && InTable(mask) && lo <= limit <= MAXSZ
             && table.Length == MAXSZ
    modifies ns`visited
    ensures forall a :: 0 <= a < |ns| ==> ns[a].visited == old(ns[a].visited)
    ensures Arrays(all)
    ensures SmallestFrom(all, old(Todo(ns)) + {i}, mask, lo, limit, sz, ord, i) && lo <= sz <= limit
    ensures sz < limit ==> Indexes(all, ord) && ntbl == OrderTable(all, ord, mask, table[..])
    decreases Todo(ns), 2
  {
    hide Smallest, SmallestFrom, OrderSize, OrderTable, IsOrder, PlaceKids, KidsOf;
    IndexedArrays(list, ns, all);
    var n := list[i];
    assert Array(n, all[i]);
    ghost var todo := Todo(ns);
    sz, ntbl, ord := limit, [], [];
    var o := 0;
    while o + TBLSZ < limit && !(Shift(n.mask, o) !! mask)
      invariant forall q :: 0 <= q < o ==> !(Shift(n.mask, q) !! mask)
    {
      o := o + 1;
    }
    if o + TBLSZ < limit {
      var t := Overlay(n, table, o, all[i]);
      var nlow := if TBLSZ + o < lo then lo else TBLSZ + o;
      assert o == Spot(all, i, mask);
      var r;
      r, ord := Fit(list, t, mask + Shift(n.mask, o), nlow, limit, ns, all);
      FirstNode(all, todo, mask, lo, limit, r, ord, i);
      if r < limit {
        OrderTableCons(all, i, ord, mask, table[..]);
      }
      sz, ntbl, ord := r, t[..], [i] + ord;
    } else {
      assert Spot(all, i, mask) >= o;
      NoRoom(all, todo + {i}, mask, lo, limit, i);
    }
  }

  lemma NoRoom(all: seq<Kids<Node>>, todo: set<nat>, used: set<nat>, lo: nat, limit: nat, i: nat)
    requires Arrays(all) && InTable(used) && i < |all| && (forall n :: n in todo ==> n < |all|)
    requires Spot(all, i, used) + TBLSZ >= limit
    ensures SmallestFrom(all, todo, used, lo, limit, limit, [], i)
  {
  }

  /** The least size of the orders that start with `i`, from the least size of the orders of the others. */
  lemma FirstNode(all: seq<Kids<Node>>, rest: set<nat>, used: set<nat>, lo: nat, hi: nat, r: nat, ord: seq<nat>, i: nat)
    requires Arrays(all) && InTable(used) && i < |all| && i !in rest && forall n :: n in rest ==> n < |all|
    requires Spot(all, i, used) + TBLSZ < MAXSZ
    requires Smallest(all, rest, UsedBy(all, i, used), Max(lo, Spot(all, i, used) + TBLSZ), hi, r, ord)
    ensures SmallestFrom(all, rest + {i}, used, lo, hi, r, [i] + ord, i) && r <= hi
            && (r < hi ==> Indexes(all, [i] + ord) && Indexes(all, ord))
  {
    hide Spot, UsedBy, InArray, InTable;
    assert rest + {i} - {i} == rest;
    forall o | IsOrder(o, rest + {i}) && o != [] && o[0] == i
      ensures r <= OrderSize(all, o, used, lo)
    {
      OrderTail(o, rest + {i});
    }
    if r < hi {
      OrderCons(i, ord, rest + {i});
      assert ([i] + ord)[1..] == ord;
    }
  }

  /** An order is laid out node by node. */
  lemma OrderTableCons(all: seq<Kids<Node>>, i: nat, ord: seq<nat>, used: set<nat>, t: seq<Cell<Node>>)
    requires Arrays(all) && InTable(used) && i < |all| && Spot(all, i, used) + TBLSZ < MAXSZ && Indexes(all, ord)
    ensures OrderTable(all, [i] + ord, used, t)
         == OrderTable(all, ord, UsedBy(all, i, used), PlaceKids(t, all[i], Spot(all, i, used)))
  {
    hide Spot, UsedBy, InArray, InTable, PlaceKids;
    assert ([i] + ord)[1..] == ord;
  }

  /** The same with the node marked while the others are placed. */
  method FitMarked(list: array<Node?>, table: array<Cell<Node>>, i: nat, mask: set<nat>, lo: nat, limit: nat,
                   ghost ns: seq<Node>, ghost all: seq<Kids<Node>>)
                   returns (sz: nat, ntbl: seq<Cell<Node>>, ghost ord: seq<nat>)
    requires Indexed(list, ns, all) && i in Todo(ns) && InTable(mask) && lo <= limit <= MAXSZ && table.Length == MAXSZ
    modifies ns`visited
    ensures (forall a :: 0 <= a < |ns| ==> ns[a].visited == old(ns[a].visited)) && Todo(ns) == old(Todo(ns))
    ensures Arrays(all) && SmallestFrom(all, old(Todo(ns)), mask, lo, limit, sz, ord, i) && lo <= sz <= limit
    ensures sz < limit ==> Indexes(all, ord) && ntbl == OrderTable(all, ord, mask, table[..])
    decreases Todo(ns), 0
  {
    hide SmallestFrom, OrderTable, Array, Arrays;
    ghost var todo := Todo(ns);
    var n := list[i];
    n.visited := true;
    assert Todo(ns) == todo - {i} && todo - {i} + {i} == todo;
    sz, ntbl, ord := FitNode(list, table, i, mask, lo, limit, ns, all);
    n.visited := false;
  }

  /** The search: the smaller of `hi` and the least table size over all orders of first-fit placement. The flags come
      back as they were, and the table is changed only for a size below `hi`, to the table of an order with that
      size. */
  method Fit(list: array<Node?>, table: array<Cell<Node>>, mask: set<nat>, lo: nat, hi: nat,
             ghost ns: seq<Node>, ghost all: seq<Kids<Node>>) returns (r: nat, ghost ord: seq<nat>)
    requires Indexed(list, ns, all) && InTable(mask) && lo <= hi <= MAXSZ && table.Length == MAXSZ
    modifies table, ns`visited
    ensures forall a :: 0 <= a < |ns| ==> ns[a].visited == old(ns[a].visited)
    ensures Arrays(all) && Smallest(all, old(Todo(ns)), mask, lo, hi, r, ord) && lo <= r
    ensures table[..] == if r < hi then OrderTable(all, ord, mask, old(table[..])) else old(table[..])
    decreases Todo(ns), 1
  {
    hide SmallestBefore, SmallestFrom, Smallest, OrderSize, OrderTable, IsOrder, Array, Arrays;
    IndexedArrays(list, ns, all);
    ghost var todo := Todo(ns);
    NoStarts(all, todo, mask, lo, hi);
    var limit, accepted, empty := hi, false, true;
    var mintbl: seq<Cell<Node>> := [];
    ord := [];
    var i := 0;
    while i < MAXSZ && list[i] != null
      invariant i <= |ns| && forall a :: 0 <= a < |ns| ==> ns[a].visited == old(ns[a].visited)
      invariant lo <= limit && SmallestBefore(all, todo, mask, lo, hi, limit, ord, i)
      invariant accepted == (limit < hi) && limit <= hi
                && (accepted ==> Indexes(all, ord) && mintbl == OrderTable(all, ord, mask, table[..]))
      invariant empty == forall a :: a in todo ==> a >= i
      invariant table[..] == old(table[..])
    {
      var n := list[i];
      if !n.visited && n.limit > 0 {
        empty := false;
        ghost var ord1;
        var sz, ntbl;
        sz, ntbl, ord1 := FitMarked(list, table, i, mask, lo, limit, ns, all);
        NextStart(all, todo, mask, lo, hi, limit, ord, i, sz, ord1);
        if sz < limit {
          accepted, limit, mintbl, ord := true, sz, ntbl, ord1;
        }
      } else {
        NextStart(all, todo, mask, lo, hi, limit, ord, i, limit, ord);
      }
      i := i + 1;
    }
    AllStarts(all, todo, mask, lo, hi, limit, ord, i);
    if empty {
      return lo, [];
    } else if accepted {
      forall x | 0 <= x < MAXSZ { table[x] := mintbl[x]; }
    }
    return limit, ord;
  }

  lemma NoStarts(all: seq<Kids<Node>>, todo: set<nat>, used: set<nat>, lo: nat, hi: nat)
    requires Arrays(all) && InTable(used) && (forall n :: n in todo ==> n < |all|) && lo <= hi
    ensures SmallestBefore(all, todo, used, lo, hi, hi, [], 0)
    ensures forall t: seq<Cell<Node>> :: OrderTable(all, [], used, t) == t
  {
  }

  lemma AllStarts(all: seq<Kids<Node>>, todo: set<nat>, used: set<nat>, lo: nat, hi: nat, r: nat, ord: seq<nat>, i: nat)
    requires Arrays(all) && InTable(used) && (forall n :: n in todo ==> n < |all|) && lo <= hi
    requires SmallestBefore(all, todo, used, lo, hi, r, ord, i) && forall n :: n in todo ==> n < i
    ensures if todo == {} then Smallest(all, todo, used, lo, hi, lo, []) else Smallest(all, todo, used, lo, hi, r, ord)
  {
    forall o | IsOrder(o, todo)
      ensures if todo == {} then o == [] else r <= OrderSize(all, o, used, lo)
    {
      OrderTail(o, todo);
    }
  }
}
