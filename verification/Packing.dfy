/** Overlaying the child arrays of a trie in one table: what placing the nodes in an order comes to. */
module Packing {
  import opened RadixTrees

  /** A table slot: a node, and the offset of the child array it belongs to. */
  datatype Cell<N> = Free | Taken(node: N, offset: nat)

  /** The children of a node, by their place in its child array. */
  type Kids<N> = map<nat, N>

  function Shift(mask: set<nat>, o: nat): set<nat> { set j | j in mask :: j + o }

  ghost predicate InTable(used: set<nat>) { forall x :: x in used ==> x < MAXSZ }

  ghost predicate InArray(mask: set<nat>) { forall j :: j in mask ==> j < TBLSZ }

  /** The first offset from `o` on where the places in `mask` are all free. */
  function FirstFit(used: set<nat>, mask: set<nat>, o: nat): (p: nat)
    requires InTable(used)
    ensures o <= p && Shift(mask, p) !! used
    ensures forall q :: o <= q < p ==> !(Shift(mask, q) !! used)
    decreases if o < MAXSZ then MAXSZ - o else 0
  {
    if Shift(mask, o) !! used then o
    else
      assert o < MAXSZ by {
        var x :| x in Shift(mask, o) && x in used;
      }
      FirstFit(used, mask, o + 1)
  }

  function PlaceKids<N>(t: seq<Cell<N>>, kids: Kids<N>, o: nat): (t': seq<Cell<N>>)
    ensures |t'| == |t|
    ensures forall x :: 0 <= x < |t| ==> t'[x] == if x >= o && x - o in kids then Taken(kids[x - o], o) else t[x]
  {
    seq(|t|, x requires 0 <= x < |t| => if x >= o && x - o in kids then Taken(kids[x - o], o) else t[x])
  }

  // ---------------------------------------------------------------- placing nodes in an order

  ghost predicate IsOrder(ord: seq<nat>, todo: set<nat>) {
    && (forall i :: 0 <= i < |ord| ==> ord[i] in todo)
    && (forall n :: n in todo ==> n in ord)
    && forall i, j :: 0 <= i < j < |ord| ==> ord[i] != ord[j]
  }

  /** The children arrays at hand, indexed by node, each inside `TBLSZ`. */
  ghost predicate Arrays<N>(all: seq<Kids<N>>) { forall n :: 0 <= n < |all| ==> InArray(all[n].Keys) }

  ghost predicate Indexes<N>(all: seq<Kids<N>>, ord: seq<nat>) { forall i :: 0 <= i < |ord| ==> ord[i] < |all| }

  /** Where a node goes. */
  function Spot<N>(all: seq<Kids<N>>, n: nat, used: set<nat>): (o: nat)
    requires n < |all| && InTable(used)
    ensures Shift(all[n].Keys, o) !! used
    ensures forall q :: 0 <= q < o ==> !(Shift(all[n].Keys, q) !! used)
  {
    FirstFit(used, all[n].Keys, 0)
  }

  /** The slots in use after that. */
  function UsedBy<N>(all: seq<Kids<N>>, n: nat, used: set<nat>): (used': set<nat>)
    requires n < |all| && InTable(used)
    ensures Arrays(all) && Spot(all, n, used) + TBLSZ < MAXSZ ==> InTable(used')
  {
    used + Shift(all[n].Keys, Spot(all, n, used))
  }

  /** The size of the table when each node in turn goes where it first fits; `MAXSZ` or more when they do not all
      fit. */
  function OrderSize<N>(all: seq<Kids<N>>, ord: seq<nat>, used: set<nat>, lo: nat): (size: nat)
    requires Arrays(all) && Indexes(all, ord) && InTable(used)
    ensures size >= lo
    decreases |ord|
  {
    if ord == [] then lo
    else
      var o := Spot(all, ord[0], used);
      if o + TBLSZ >= MAXSZ then Max(lo, o + TBLSZ)
      else OrderSize(all, ord[1..], UsedBy(all, ord[0], used), Max(lo, o + TBLSZ))
  }

  /** The table they leave. */
  function OrderTable<N>(all: seq<Kids<N>>, ord: seq<nat>, used: set<nat>, t: seq<Cell<N>>): (t': seq<Cell<N>>)
    requires Arrays(all) && Indexes(all, ord) && InTable(used)
    ensures |t'| == |t|
    decreases |ord|
  {
    if ord == [] || Spot(all, ord[0], used) + TBLSZ >= MAXSZ then t
    else
      var o := Spot(all, ord[0], used);
      OrderTable(all, ord[1..], UsedBy(all, ord[0], used), PlaceKids(t, all[ord[0]], o))
  }

  /** The offsets they get. */
  function OrderOffsets<N>(all: seq<Kids<N>>, ord: seq<nat>, used: set<nat>): (offs: map<nat, nat>)
    requires Arrays(all) && Indexes(all, ord) && InTable(used)
    decreases |ord|
  {
    if ord == [] || Spot(all, ord[0], used) + TBLSZ >= MAXSZ then map[]
    else
      OrderOffsets(all, ord[1..], UsedBy(all, ord[0], used))[ord[0] := Spot(all, ord[0], used)]
  }

  // ---------------------------------------------------------------- no overlap

  /** Every node of `todo` has its child array at one offset below `size`, clear of the slots used before. */
  ghost predicate Clear<N>(all: seq<Kids<N>>, todo: set<nat>, used: set<nat>, offs: map<nat, nat>, size: nat) {
    todo == offs.Keys && forall n :: n in todo ==>
        n < |all| && offs[n] + TBLSZ <= size && Shift(all[n].Keys, offs[n]) !! used
  }

  ghost predicate Apart<N>(all: seq<Kids<N>>, offs: map<nat, nat>)
    requires forall n :: n in offs ==> n < |all|
  {
    forall n, m :: n in offs && m in offs && n != m ==> Shift(all[n].Keys, offs[n]) !! Shift(all[m].Keys, offs[m])
  }

  /** The whole child array of each is in the table. */
  ghost predicate Written<N>(t: seq<Cell<N>>, all: seq<Kids<N>>, offs: map<nat, nat>)
    requires forall n :: n in offs ==> n < |all|
  {
    forall n, j :: n in offs && j in all[n] ==> j + offs[n] < |t| && t[j + offs[n]] == Taken(all[n][j], offs[n])
  }

  /** Nothing else has changed. */
  ghost predicate Untouched<N>(t': seq<Cell<N>>, t: seq<Cell<N>>, all: seq<Kids<N>>, offs: map<nat, nat>)
    requires |t'| == |t| && forall n :: n in offs ==> n < |all|
  {
    forall x :: 0 <= x < |t| && t'[x] != t[x] ==> exists n :: n in offs && x in Shift(all[n].Keys, offs[n])
  }

  ghost predicate Packed<N>(t': seq<Cell<N>>, t: seq<Cell<N>>, all: seq<Kids<N>>, todo: set<nat>, used: set<nat>,
                            offs: map<nat, nat>, size: nat)
  {
    |t'| == |t| && Clear(all, todo, used, offs, size) && Apart(all, offs) && Written(t', all, offs)
      && Untouched(t', t, all, offs)
  }

  lemma OrderTail(ord: seq<nat>, todo: set<nat>)
    requires IsOrder(ord, todo)
    ensures ord == [] <==> todo == {}
    ensures ord != [] ==> ord[0] in todo && IsOrder(ord[1..], todo - {ord[0]})
  {
    if ord == [] {
      assert forall n :: n in todo ==> n in ord;
    } else {
      forall n | n in todo - {ord[0]}
        ensures n in ord[1..]
      {
        var i :| 0 <= i < |ord| && ord[i] == n;
        assert ord[1..][i - 1] == n;
      }
    }
  }

  lemma OrderCons(n: nat, ord: seq<nat>, todo: set<nat>)
    requires n in todo && IsOrder(ord, todo - {n})
    ensures IsOrder([n] + ord, todo)
  {
    forall m | m in todo
      ensures m in [n] + ord
    {
      if m != n {
        assert m in ord;
      }
    }
  }

  /** Placing nodes in an order that fits packs them. */
  lemma {:induction false} OrderPacks<N>(all: seq<Kids<N>>, ord: seq<nat>, todo: set<nat>, used: set<nat>, lo: nat,
                                         t: seq<Cell<N>>)
    requires Arrays(all) && Indexes(all, ord) && InTable(used) && IsOrder(ord, todo) && |t| == MAXSZ
    requires OrderSize(all, ord, used, lo) < MAXSZ
    ensures Packed(OrderTable(all, ord, used, t), t, all, todo, used, OrderOffsets(all, ord, used),
            OrderSize(all, ord, used, lo))
    decreases |ord|
  {
    OrderTail(ord, todo);
    if ord != [] {
      var n := ord[0];
      var o, used' := Spot(all, n, used), UsedBy(all, n, used);
      OrderPacks(all, ord[1..], todo - {n}, used', Max(lo, o + TBLSZ), PlaceKids(t, all[n], o));
      PackOne(OrderTable(all, ord, used, t), t, all, n, todo, used, OrderOffsets(all, ord[1..], used'), o,
        OrderSize(all, ord, used, lo));
    }
  }

  lemma PackOne<N>(t': seq<Cell<N>>, t: seq<Cell<N>>, all: seq<Kids<N>>, n: nat, todo: set<nat>, used: set<nat>,
                   offs: map<nat, nat>, o: nat, size: nat)
    requires n in todo && n < |all| && InArray(all[n].Keys) && o + TBLSZ <= size && o + TBLSZ < |t|
    requires Shift(all[n].Keys, o) !! used
    requires Packed(t', PlaceKids(t, all[n], o), all, todo - {n}, used + Shift(all[n].Keys, o), offs, size)
    ensures Packed(t', t, all, todo, used, offs[n := o], size)
  {
    hide Shift, PlaceKids;
    PackClear(all, n, todo, used, offs, o, size);
    PackWritten(t', t, all, n, todo, used, offs, o, size);
    PackUntouched(t', t, all, n, offs, o);
  }

  lemma PackClear<N>(all: seq<Kids<N>>, n: nat, todo: set<nat>, used: set<nat>, offs: map<nat, nat>, o: nat, size: nat)
    requires n in todo && n < |all| && o + TBLSZ <= size && Shift(all[n].Keys, o) !! used
    requires Clear(all, todo - {n}, used + Shift(all[n].Keys, o), offs, size) && Apart(all, offs)
    ensures Clear(all, todo, used, offs[n := o], size) && Apart(all, offs[n := o])
  {
  }

  lemma PackWritten<N>(t': seq<Cell<N>>, t: seq<Cell<N>>, all: seq<Kids<N>>, n: nat, todo: set<nat>, used: set<nat>,
                       offs: map<nat, nat>, o: nat, size: nat)
    requires n in todo && n < |all| && InArray(all[n].Keys) && o + TBLSZ < |t| == |t'|
    requires Clear(all, todo - {n}, used + Shift(all[n].Keys, o), offs, size)
             && Clear(all, todo, used, offs[n := o], size)
    requires Written(t', all, offs) && Untouched(t', PlaceKids(t, all[n], o), all, offs)
    ensures Written(t', all, offs[n := o])
  {
    hide PlaceKids, Shift, Untouched;
    forall j | j in all[n]
      ensures j + o < |t| && t'[j + o] == Taken(all[n][j], o)
    {
      KidWritten(t', t, all, n, todo, used, offs, o, size, j);
    }
  }

  lemma KidWritten<N>(t': seq<Cell<N>>, t: seq<Cell<N>>, all: seq<Kids<N>>, n: nat, todo: set<nat>, used: set<nat>,
                      offs: map<nat, nat>, o: nat, size: nat, j: nat)
    requires n in todo && n < |all| && InArray(all[n].Keys) && o + TBLSZ < |t| == |t'| && j in all[n]
    requires Clear(all, todo - {n}, used + Shift(all[n].Keys, o), offs, size)
    requires Untouched(t', PlaceKids(t, all[n], o), all, offs)
    ensures j + o < |t| && t'[j + o] == Taken(all[n][j], o)
  {
    hide PlaceKids;
    var x, t1 := j + o, PlaceKids(t, all[n], o);
    assert x in Shift(all[n].Keys, o) && t1[x] == Taken(all[n][j], o);
    assert forall m :: m in offs ==> x !in Shift(all[m].Keys, offs[m]);
  }

  lemma PackUntouched<N>(t': seq<Cell<N>>, t: seq<Cell<N>>, all: seq<Kids<N>>, n: nat, offs: map<nat, nat>, o: nat)
    requires |t'| == |t| && n < |all| && n !in offs && (forall m :: m in offs ==> m < |all|)
    requires Untouched(t', PlaceKids(t, all[n], o), all, offs)
    ensures Untouched(t', t, all, offs[n := o])
  {
    var offs' := offs[n := o];
    forall x | 0 <= x < |t| && t'[x] != t[x]
      ensures exists m :: m in offs' && x in Shift(all[m].Keys, offs'[m])
    {
      var t1 := PlaceKids(t, all[n], o);
      if t'[x] != t1[x] {
        var m :| m in offs && x in Shift(all[m].Keys, offs[m]);
        assert m in offs' && x in Shift(all[m].Keys, offs'[m]);
      } else {
        assert (x - o) + o in Shift(all[n].Keys, offs'[n]);
      }
    }
  }

  function NoCells<N>(): (t: seq<Cell<N>>)
    ensures |t| == MAXSZ && forall x :: 0 <= x < MAXSZ ==> t[x] == Free
  {
    seq(MAXSZ, _ => Free)
  }

  /** The size does not depend on what the nodes are. */
  lemma {:induction false} SizeAlike<N, M>(all: seq<Kids<N>>, all': seq<Kids<M>>, ord: seq<nat>, used: set<nat>,
                                           lo: nat)
    requires Arrays(all) && Indexes(all, ord) && InTable(used)
    requires |all'| == |all| && forall n :: 0 <= n < |all| ==> all'[n].Keys == all[n].Keys
    ensures Arrays(all') && OrderSize(all', ord, used, lo) == OrderSize(all, ord, used, lo)
    decreases |ord|
  {
    hide FirstFit, Shift;
    if ord != [] && Spot(all, ord[0], used) + TBLSZ < MAXSZ {
      SizeAlike(all, all', ord[1..], UsedBy(all, ord[0], used), Max(lo, Spot(all, ord[0], used) + TBLSZ));
    }
  }

  /** Neither does the packing. */
  lemma PackedAlike<N, M>(t: seq<Cell<N>>, t': seq<Cell<M>>, all: seq<Kids<N>>, all': seq<Kids<M>>,
                          todo: set<nat>, offs: map<nat, nat>, size: nat)
    requires Packed(t, NoCells(), all, todo, {}, offs, size)
    requires |all'| == |all| && forall n :: 0 <= n < |all| ==> all'[n].Keys == all[n].Keys
    requires |t'| == |t| && (forall x :: 0 <= x < |t| && t[x].Free? ==> t'[x].Free?) && Written(t', all', offs)
    ensures Packed(t', NoCells(), all', todo, {}, offs, size)
  {
    hide Shift;
    forall x | 0 <= x < |t'| && t'[x] != NoCells<M>()[x]
      ensures exists n :: n in offs && x in Shift(all'[n].Keys, offs[n])
    {
      var n :| n in offs && x in Shift(all[n].Keys, offs[n]);
      assert x in Shift(all'[n].Keys, offs[n]);
    }
  }
}
