/** The nodes of tools/patricia-build.c: insertion in place, and the numbered list of all nodes. */
module TrieNodes {
  import opened RadixTrees

  function NoNodes(): (ns: seq<Node?>)
    ensures |ns| == TBLSZ && forall i :: 0 <= i < TBLSZ ==> ns[i] == null
  {
    seq(TBLSZ, _ => null)
  }

  /** The first `k` listed nodes have their place as their number, and their children have it too. */
  ghost predicate Numbered(ns: seq<Node>, k: nat)
    requires k <= |ns|
    reads ns`next, ns`tbl, (set n: Node, j: nat | n in ns && j < |n.tbl| && n.tbl[j] != null :: n.tbl[j])`check
  {
    forall a :: 0 <= a < k ==>
      ns[a].next == a && forall j :: 0 <= j < |ns[a].tbl| && ns[a].tbl[j] != null ==> ns[a].tbl[j].check == a
  }

  lemma SlicesJoin<T>(l: seq<T>, l': seq<T>, a: nat, b: nat, c: nat)
    requires a <= b <= c <= |l'| == |l| && l'[..b] == l[..b]
    ensures l'[..a] == l[..a] && l'[a..c] == l[a..b] + l'[b..c]
  {
    assert l'[..a] == l'[..b][..a] && l[..a] == l[..b][..a];
    assert l'[a..b] == l'[..b][a..] && l[a..b] == l[..b][a..];
  }

  class Node {
    var elem: string
    var limit: nat
    var visited: bool
    var next: nat
    var check: nat
    var mask: set<nat>
    var terminal: nat
    var te: nat
    // The embedded child array: copying a node copies it.
    var tbl: seq<Node?>
    ghost var Repr: set<Node>
    ghost var val: Tree

    ghost predicate Valid()
      reads this`Repr, Repr`Repr, Repr`elem, Repr`limit, Repr`mask, Repr`terminal, Repr`tbl, Repr`val
      decreases Repr
    {
      && this in Repr && |tbl| == TBLSZ
      && (forall i :: 0 <= i < TBLSZ && tbl[i] != null ==>
            tbl[i] in Repr && tbl[i].Repr <= Repr && this !in tbl[i].Repr && tbl[i].Valid())
      && (forall i, j :: 0 <= i < j < TBLSZ && tbl[i] != null && tbl[j] != null ==> tbl[i].Repr !! tbl[j].Repr)
      && val.Branch? && val.elem == elem && val.terminal == terminal && val.limit == limit && val.mask == mask
      && |val.kids| == TBLSZ
      && forall i :: 0 <= i < TBLSZ ==> val.kids[i] == if tbl[i] == null then Nil else tbl[i].val
    }

    /** No VISITED flag is set. */
    ghost predicate Unmarked()
      reads this`Repr, Repr`visited
    {
      forall n :: n in Repr ==> !n.visited
    }

    /** `calloc`, then a label and a terminal. */
    constructor (w: string, x: nat)
      ensures Valid() && fresh(this) && Repr == {this} && val == Leaf(w, x) && Unmarked()
    {
      elem, terminal, limit, mask, tbl := w, x, 0, {}, NoNodes();
      visited, next, check, te := false, 0, 0, 0;
      Repr, val := {this}, Leaf(w, x);
    }

    /** The root of `main`, with no children and a limit of 1. */
    constructor Root()
      ensures Valid() && fresh(this) && Repr == {this} && val == EmptyRoot() && Unmarked() && check == 0
    {
      elem, terminal, limit, mask, tbl := "", 0, 1, {}, NoNodes();
      visited, next, check, te := false, 0, 0, 0;
      Repr, val := {this}, EmptyRoot();
    }

    /** `memcpy` of a node, then the end of its label from `offs`. */
    constructor Tail(n: Node, offs: nat)
      requires n.Valid() && offs <= |n.elem|
      ensures Valid() && fresh(this) && Repr == n.Repr - {n} + {this} && val == n.val.(elem := n.elem[offs..])
      ensures n.Unmarked() ==> Unmarked()
    {
      elem, limit, mask, terminal, tbl := n.elem[offs..], n.limit, n.mask, n.terminal, n.tbl;
      visited, next, check, te := n.visited, n.next, n.check, n.te;
      Repr, val := n.Repr - {n} + {this}, n.val.(elem := n.elem[offs..]);
    }

    /** The node's label cut at `offs`; the rest of the node moves into a new one below it. */
    method Split(offs: nat)
      requires Valid() && offs <= |elem|
      modifies this`elem, this`limit, this`mask, this`terminal, this`tbl, this`Repr, this`val
      ensures Valid() && fresh(Repr - old(Repr)) && val == RadixTrees.Split(old(val), offs)
      ensures old(Repr) <= Repr && (old(Unmarked()) ==> Unmarked())
    {
      hide NoNodes, NoKids, Ctoi;
      var i := SplitAt(elem, offs);
      var n := new Node.Tail(this, offs);
      Above(n, i, offs);
    }

    /** The node as the parent of what `Tail` made of it. */
    method Above(n: Node, i: nat, offs: nat)
      requires n.Valid() && this !in n.Repr && this in Repr && offs <= |elem| && i == SplitAt(elem, offs) && val.Branch?
      requires val.elem == elem && n.val == val.(elem := elem[offs..]) && Repr <= n.Repr + {this}
      modifies this`elem, this`limit, this`mask, this`terminal, this`tbl, this`Repr, this`val
      ensures Valid() && Repr == n.Repr + {this} && val == RadixTrees.Split(old(val), offs)
    {
      hide NoNodes, NoKids, Ctoi;
      elem, mask, terminal, limit := elem[..offs], {i}, 0, i + 1;
      tbl := NoNodes()[i := n];
      assert tbl[i] == n && forall j :: 0 <= j < TBLSZ && j != i ==> tbl[j] == null;
      Repr, val := n.Repr + {this}, RadixTrees.Split(val, offs);
    }

    /** A new leaf as child `i`. */
    method HangLeaf(i: nat, w: string, x: nat)
      requires Valid() && i < TBLSZ
      modifies this`elem, this`limit, this`mask, this`terminal, this`tbl, this`Repr, this`val
      ensures Valid() && fresh(Repr - old(Repr)) && val == Hang(old(val), i, w, x)
      ensures old(Repr) <= Repr && (old(Unmarked()) ==> Unmarked())
    {
      var n := new Node(w, x);
      Adopt(n, i);
    }

    method Adopt(n: Node, i: nat)
      requires Valid() && i < TBLSZ && n.Valid() && n.Repr == {n} && n !in Repr && n.val.Branch?
      requires n.val == Leaf(n.val.elem, n.val.terminal)
      modifies this`limit, this`mask, this`tbl, this`Repr, this`val
      ensures Valid() && Repr == old(Repr) + {n} && val == Hang(old(val), i, n.val.elem, n.val.terminal)
    {
      hide Leaf, NoKids, NoNodes;
      mask := mask + {i};
      if i + 1 > limit {
        limit := i + 1;
      }
      tbl, Repr, val := tbl[i := n], Repr + {n}, Hang(val, i, n.val.elem, n.val.terminal);
    }

    method InsertKid(i: nat, x: nat, w: string)
      requires Valid() && i < TBLSZ && tbl[i] != null && val.kids[i].Branch? && Deep(val.kids[i])
      modifies Repr`elem, Repr`limit, Repr`mask, Repr`terminal, Repr`tbl, Repr`Repr, Repr`val
      ensures Valid() && fresh(Repr - old(Repr))
      ensures val == old(val).(kids := old(val.kids)[i := RadixTrees.Insert(old(val.kids[i]), w, x)])
      ensures old(Repr) <= Repr && (old(Unmarked()) ==> Unmarked())
      decreases Repr, 0
    {
      hide RadixTrees.Insert, Deep;
      var k := tbl[i];
      assert Unmarked() ==> k.Unmarked();
      k.Insert(x, w);
      forall j | 0 <= j < TBLSZ && j != i && tbl[j] != null
        ensures tbl[j].Valid() && tbl[j].Repr !! k.Repr && this !in tbl[j].Repr && tbl[j].val == old(tbl[j].val)
      {
      }
      Regrow(i);
    }

    /** Subtree `i` has grown: this node's footprint and value with it. */
    ghost method Regrow(i: nat)
      requires this in Repr && |tbl| == TBLSZ && i < TBLSZ && tbl[i] != null && tbl[i].Valid() && this !in tbl[i].Repr
      requires forall j :: 0 <= j < TBLSZ && j != i && tbl[j] != null ==>
                 tbl[j] in Repr && tbl[j].Repr <= Repr && this !in tbl[j].Repr && tbl[j].Valid()
                   && tbl[j].Repr !! tbl[i].Repr
      requires forall j, k :: 0 <= j < k < TBLSZ && j != i && k != i && tbl[j] != null && tbl[k] != null ==>
                 tbl[j].Repr !! tbl[k].Repr
      requires val.Branch? && val.elem == elem && val.terminal == terminal && val.limit == limit && val.mask == mask
      requires |val.kids| == TBLSZ
      requires forall j :: 0 <= j < TBLSZ && j != i ==> val.kids[j] == if tbl[j] == null then Nil else tbl[j].val
      modifies this`Repr, this`val
      ensures Valid() && Repr == old(Repr) + tbl[i].Repr && val == old(val).(kids := old(val.kids)[i := tbl[i].val])
    {
      Repr, val := Repr + tbl[i].Repr, val.(kids := val.kids[i := tbl[i].val]);
    }

    method Insert(x: nat, w: string)
      requires Valid() && Deep(val)
      modifies Repr`elem, Repr`limit, Repr`mask, Repr`terminal, Repr`tbl, Repr`Repr, Repr`val
      ensures Valid() && fresh(Repr - old(Repr)) && val == RadixTrees.Insert(old(val), w, x)
      ensures old(Repr) <= Repr && (old(Unmarked()) ==> Unmarked())
      decreases Repr, 1
    {
      hide RadixTrees.Split, Hang, NoKids, SplitAt;
      var s := 0;
      while s < |elem| && s < |w| && elem[s] == w[s]
        invariant s <= |elem| && s <= |w| && s + Common(elem[s..], w[s..]) == Common(elem, w)
      {
        s := s + 1;
      }
      assert s == Common(elem, w);
      if s == |w| {
        Split(s);
      } else {
        var i := Ctoi(w[s]);
        if s == |elem| {
          if tbl[i] == null {
            HangLeaf(i, w[s..], x);
          } else {
            InsertKid(i, x, w[s..]);
          }
        } else {
          Split(s);
          HangLeaf(i, w[s..], x);
        }
      }
    }

    // -------------------------------------------------------------- the list of nodes

    /** The nodes from here down, each before its children, children in order. */
    ghost function Nodes(): (ns: seq<Node>)
      requires Valid()
      reads this`Repr, Repr`Repr, Repr`elem, Repr`limit, Repr`mask, Repr`terminal, Repr`tbl, Repr`val
      ensures |ns| == Size(val) && ns[0] == this
      decreases Repr, TBLSZ + 1
    {
      [this] + KidNodes(TBLSZ)
    }

    /** The nodes of the first `k` subtrees. */
    ghost function KidNodes(k: nat): (ns: seq<Node>)
      requires Valid() && k <= TBLSZ
      reads this`Repr, Repr`Repr, Repr`elem, Repr`limit, Repr`mask, Repr`terminal, Repr`tbl, Repr`val
      ensures |ns| == KidSizes(val, k)
      decreases Repr, k
    {
      if k == 0 then [] else KidNodes(k - 1) + if tbl[k - 1] == null then [] else tbl[k - 1].Nodes()
    }

    /** Every listed node is a well formed part of this one. */
    lemma {:induction false} NodesOwned(n: Node)
      requires Valid() && n in Nodes()
      ensures n in Repr && n.Valid() && n.Repr <= Repr && (Covers(val) ==> Covers(n.val))
      decreases Repr, TBLSZ + 1
    {
      if n != this {
        var j := KidNodesOwned(TBLSZ, n);
      }
    }

    lemma {:induction false} KidNodesOwned(k: nat, n: Node) returns (j: nat)
      requires Valid() && k <= TBLSZ && n in KidNodes(k)
      ensures j < k && tbl[j] != null && n in tbl[j].Nodes() && n in tbl[j].Repr
      ensures n in Repr && n.Valid() && n.Repr <= tbl[j].Repr && (Covers(val) ==> Covers(n.val))
      decreases Repr, k
    {
      if n in KidNodes(k - 1) {
        j := KidNodesOwned(k - 1, n);
      } else {
        j := k - 1;
        tbl[j].NodesOwned(n);
      }
    }

    lemma {:induction false} NodesOk(n: Node, letters: set<char>)
      requires Valid() && n in Nodes() && KidsOk(val, letters)
      ensures n.Valid() && KidsOk(n.val, letters)
      decreases Repr
    {
      if n != this {
        var j := KidNodesOwned(TBLSZ, n);
        assert Inner(val.kids[j], j, letters);
        tbl[j].NodesOk(n, letters);
      }
    }

    /** No node is listed twice. */
    lemma {:induction false} NodesDistinct()
      requires Valid()
      ensures forall a, b :: 0 <= a < b < |Nodes()| ==> Nodes()[a] != Nodes()[b]
      decreases Repr, TBLSZ + 1
    {
      KidNodesDistinct(TBLSZ);
    }

    lemma {:induction false} KidNodesDistinct(k: nat)
      requires Valid() && k <= TBLSZ
      ensures forall a, b :: 0 <= a < b < |KidNodes(k)| ==> KidNodes(k)[a] != KidNodes(k)[b]
      ensures this !in KidNodes(k)
      decreases Repr, k
    {
      if k > 0 {
        KidNodesDistinct(k - 1);
        if tbl[k - 1] != null {
          tbl[k - 1].NodesDistinct();
          var xs, ys := KidNodes(k - 1), tbl[k - 1].Nodes();
          forall a | 0 <= a < |xs|
            ensures xs[a] !in tbl[k - 1].Repr
          {
            var j := KidNodesOwned(k - 1, xs[a]);
          }
          forall b | 0 <= b < |ys|
            ensures ys[b] in tbl[k - 1].Repr
          {
            tbl[k - 1].NodesOwned(ys[b]);
          }
        }
      }
    }

    /** A child of a listed node is listed, after it. */
    lemma {:induction false} KidFollows(a: nat, j: nat) returns (b: nat)
      requires Valid() && a < |Nodes()| && j < TBLSZ && |Nodes()[a].tbl| == TBLSZ && Nodes()[a].tbl[j] != null
      ensures a < b < |Nodes()| && Nodes()[b] == Nodes()[a].tbl[j]
      decreases Repr, TBLSZ + 1
    {
      if a == 0 {
        b := KidListed(TBLSZ, j);
      } else {
        b := KidFollowsBelow(TBLSZ, a - 1, j);
      }
      b := b + 1;
    }

    lemma {:induction false} KidListed(k: nat, j: nat) returns (b: nat)
      requires Valid() && j < k <= TBLSZ && tbl[j] != null
      ensures b < |KidNodes(k)| && KidNodes(k)[b] == tbl[j]
      decreases Repr, k
    {
      if j < k - 1 {
        b := KidListed(k - 1, j);
      } else {
        b := |KidNodes(k - 1)|;
      }
    }

    /** The nodes of the first `k` subtrees are those of the first `k - 1` and then those of the last one. */
    lemma KidsJoin(k: nat)
      requires Valid() && 0 < k <= TBLSZ
      ensures var xs, ys := KidNodes(k - 1), KidNodes(k);
              && |xs| <= |ys| && (forall a :: 0 <= a < |xs| ==> ys[a] == xs[a])
              && (tbl[k - 1] == null ==> |ys| == |xs|)
              && (tbl[k - 1] != null ==>
                    && tbl[k - 1].Valid() && tbl[k - 1].Repr < Repr && |ys| == |xs| + |tbl[k - 1].Nodes()|
                    && forall a :: |xs| <= a < |ys| ==> ys[a] == tbl[k - 1].Nodes()[a - |xs|])
    {
      hide Nodes;
    }

    lemma {:induction false} KidFollowsBelow(k: nat, a: nat, j: nat) returns (b: nat)
      requires Valid() && k <= TBLSZ && a < |KidNodes(k)| && j < TBLSZ
      requires |KidNodes(k)[a].tbl| == TBLSZ && KidNodes(k)[a].tbl[j] != null
      ensures a < b < |KidNodes(k)| && KidNodes(k)[b] == KidNodes(k)[a].tbl[j]
      decreases Repr, k
    {
      KidsJoin(k);
      var n := |KidNodes(k - 1)|;
      if a < n {
        b := KidFollowsBelow(k - 1, a, j);
      } else {
        b := tbl[k - 1].KidFollows(a - n, j);
        b := b + n;
      }
    }

    /** Every listed node but the first is a child of one listed before it. */
    lemma {:induction false} ParentPrecedes(b: nat) returns (a: nat, j: nat)
      requires Valid() && 0 < b < |Nodes()|
      ensures a < b && j < TBLSZ && |Nodes()[a].tbl| == TBLSZ && Nodes()[a].tbl[j] == Nodes()[b]
      decreases Repr, TBLSZ + 1
    {
      var below;
      below, a, j := ParentBelow(TBLSZ, b - 1);
      a := if below then a + 1 else 0;
    }

    lemma {:induction false} ParentBelow(k: nat, b: nat) returns (below: bool, a: nat, j: nat)
      requires Valid() && k <= TBLSZ && b < |KidNodes(k)|
      ensures j < TBLSZ
      ensures if below then a < b && |KidNodes(k)[a].tbl| == TBLSZ && KidNodes(k)[a].tbl[j] == KidNodes(k)[b]
              else tbl[j] == KidNodes(k)[b]
      decreases Repr, k
    {
      KidsJoin(k);
      var n := |KidNodes(k - 1)|;
      if b < n {
        below, a, j := ParentBelow(k - 1, b);
      } else if b == n {
        below, a, j := false, 0, k - 1;
      } else {
        a, j := tbl[k - 1].ParentPrecedes(b - n);
        below, a := true, a + n;
      }
    }

    /** No node is a child twice. */
    lemma {:induction false} OneParent(n: Node, j: nat, n': Node, j': nat)
      requires Valid() && n in Nodes() && n' in Nodes() && j < TBLSZ && j' < TBLSZ
      requires n.Valid() && n'.Valid() && n.tbl[j] != null && n.tbl[j] == n'.tbl[j']
      ensures n == n' && j == j'
      decreases Repr
    {
      if n == this && n' == this {
        assert n.tbl[j] in n.tbl[j].Repr && n.tbl[j'] in n.tbl[j'].Repr;
      } else if n == this {
        NotBelow(j, n', j');
      } else if n' == this {
        NotBelow(j', n, j);
      } else {
        var x := KidNodesOwned(TBLSZ, n);
        var x' := KidNodesOwned(TBLSZ, n');
        assert n.tbl[j] in n.Repr && n'.tbl[j'] in n'.Repr;
        assert x == x';
        tbl[x].OneParent(n, j, n', j');
      }
    }

    /** A child of this node is not a child of a node below it. */
    lemma NotBelow(j: nat, n: Node, i: nat)
      requires Valid() && n in Nodes() && n != this && n.Valid() && j < TBLSZ && i < TBLSZ && tbl[j] != null
               && n.tbl[i] != null
      ensures tbl[j] != n.tbl[i]
    {
      var x := KidNodesOwned(TBLSZ, n);
      assert n.tbl[i] in n.Repr && tbl[j] in tbl[j].Repr;
    }

    lemma RootNotKid(n: Node, i: nat)
      requires Valid() && n in Nodes() && n.Valid() && i < TBLSZ
      ensures n.tbl[i] != this
    {
      if n != this {
        var x := KidNodesOwned(TBLSZ, n);
      } else if n.tbl[i] == this {
        assert this in n.tbl[i].Repr;
      }
    }

    lemma {:induction false} KidNodesEnd(k: nat, k': nat)
      requires Valid() && k <= k' <= TBLSZ && forall j :: k <= j < k' ==> tbl[j] == null
      ensures KidNodes(k') == KidNodes(k)
      decreases k'
    {
      if k < k' {
        KidNodesEnd(k, k' - 1);
      }
    }

    /** Node `i` of the list says so, and its children remember it. */
    method Number(ghost ns: seq<Node>, i: nat)
      requires Valid() && Covers(val) && i < |ns| && ns[i] == this && Numbered(ns, i)
      requires forall a :: 0 <= a < i ==> ns[a] != this
      requires forall a, j, k :: 0 <= a < i && 0 <= j < |ns[a].tbl| && 0 <= k < TBLSZ && ns[a].tbl[j] != null ==>
                 ns[a].tbl[j] != tbl[k]
      modifies this`next, (set j | 0 <= j < TBLSZ && tbl[j] != null :: tbl[j])`check
      ensures Numbered(ns, i + 1)
    {
      next := i;
      for j := 0 to limit
        invariant next == i && Numbered(ns, i)
        invariant forall k :: 0 <= k < j && tbl[k] != null ==> tbl[k].check == i
      {
        if tbl[j] != null {
          tbl[j].check := i;
        }
      }
      assert forall j :: limit <= j < TBLSZ ==> val.kids[j] == Nil;
    }

    /** Lists the nodes from `at` on and numbers them from there. */
    method Walk(list: array<Node?>, at: nat) returns (end: nat)
      requires Valid() && Covers(val) && list.Length == MAXSZ && at + Size(val) < MAXSZ
      requires forall x :: at <= x < MAXSZ ==> list[x] == null
      modifies list, Repr`next, Repr`check
      ensures end == at + Size(val) && list[..at] == old(list[..at]) && list[at..end] == Nodes()
      ensures forall x :: end <= x < MAXSZ ==> list[x] == null
      ensures Numbered(Nodes(), |Nodes()|) && check == old(check)
      decreases Repr, 1
    {
      hide Valid, Covers, KidNodes, KidSizes, Numbered;
      KidBounds();
      list[at] := this;
      end := WalkKids(list, at + 1);
      assert list[at..end] == [list[at]] + list[at + 1..end];
      NumberAll(list, at, end);
    }

    method WalkKids(list: array<Node?>, at: nat) returns (end: nat)
      requires Valid() && Covers(val) && list.Length == MAXSZ && at + Size(val) - 1 < MAXSZ
      requires forall x :: at <= x < MAXSZ ==> list[x] == null
      modifies list, Repr`next, Repr`check
      ensures end == at + Size(val) - 1 && list[..at] == old(list[..at]) && list[at..end] == KidNodes(TBLSZ)
      ensures (forall x :: end <= x < MAXSZ ==> list[x] == null) && check == old(check)
      decreases Repr, 0
    {
      hide Valid, Nodes, KidNodes, Covers, Size, KidSizes, Numbered;
      end := at;
      KidBounds();
      for i := 0 to limit
        invariant val.Branch? && limit <= |val.kids| == TBLSZ
        invariant at <= end == at + KidSizes(val, i) <= MAXSZ && list[..at] == old(list[..at])
        invariant list[at..end] == KidNodes(i) && check == old(check)
        invariant forall x :: end <= x < MAXSZ ==> list[x] == null
      {
        KidStep(i);
        if tbl[i] != null {
          ghost var l, end0 := list[..], end;
          end := tbl[i].Walk(list, end);
          SlicesJoin(l, list[..], at, end0, end);
        }
      }
    }

    lemma KidBounds()
      requires Valid() && Covers(val)
      ensures val.Branch? && limit <= |val.kids| == TBLSZ && KidSizes(val, 0) == 0 && KidNodes(0) == []
      ensures KidSizes(val, limit) == Size(val) - 1 && KidNodes(limit) == KidNodes(TBLSZ)
    {
      assert forall j :: limit <= j < TBLSZ ==> val.kids[j] == Nil;
      KidNodesEnd(limit, TBLSZ);
    }

    lemma KidStep(i: nat)
      requires Valid() && Covers(val) && i < limit
      ensures i < |tbl| == TBLSZ && KidSizes(val, i + 1) <= Size(val) - 1
      ensures KidSizes(val, i + 1) == KidSizes(val, i) + if tbl[i] == null then 0 else Size(tbl[i].val)
      ensures if tbl[i] == null then KidNodes(i + 1) == KidNodes(i)
              else
                && tbl[i].Valid() && Covers(tbl[i].val) && tbl[i].Repr < Repr && this !in tbl[i].Repr
                && KidNodes(i + 1) == KidNodes(i) + tbl[i].Nodes()
    {
      KidSizesGrow(val, i + 1, TBLSZ);
    }

    method NumberAll(list: array<Node?>, at: nat, ghost end: nat)
      requires Valid() && Covers(val) && list.Length == MAXSZ && end == at + Size(val) < MAXSZ
      requires list[at..end] == Nodes() && forall x :: end <= x < MAXSZ ==> list[x] == null
      modifies Repr`next, Repr`check
      ensures Numbered(Nodes(), |Nodes()|) && check == old(check)
    {
      hide Valid, Covers, Nodes, Size;
      var i := 0;
      ghost var ns := Nodes();
      assert forall x :: 0 <= x < |ns| ==> list[at + x] == list[at..end][x];
      while i < MAXSZ && list[at + i] != null
        invariant i <= |ns| && ns == Nodes() && Numbered(ns, i) && check == old(check)
        invariant forall x :: 0 <= x < |ns| ==> list[at + x] == ns[x]
        decreases MAXSZ - i
      {
        Separate(i);
        list[at + i].Number(ns, i);
        i := i + 1;
      }
    }

    /** The nodes listed before node `i` do not share it or its children. */
    lemma Separate(i: nat)
      requires Valid() && Covers(val) && i < |Nodes()|
      ensures var ns := Nodes();
              && ns[i].Valid() && ns[i].Repr <= Repr && Covers(ns[i].val)
              && (forall a :: 0 <= a < i ==> ns[a] != ns[i]) && (forall k :: 0 <= k < TBLSZ ==> ns[i].tbl[k] != this)
              && forall a, j, k :: 0 <= a < i && 0 <= j < |ns[a].tbl| && 0 <= k < TBLSZ && ns[a].tbl[j] != null ==>
                   ns[a].tbl[j] != ns[i].tbl[k]
    {
      var ns := Nodes();
      NodesOwned(ns[i]);
      NodesDistinct();
      forall k | 0 <= k < TBLSZ ensures ns[i].tbl[k] != this { RootNotKid(ns[i], k); }
      forall a, j, k | 0 <= a < i && 0 <= j < |ns[a].tbl| && 0 <= k < TBLSZ && ns[a].tbl[j] != null
        ensures ns[a].tbl[j] != ns[i].tbl[k]
      {
        NodesOwned(ns[a]);
        if ns[a].tbl[j] == ns[i].tbl[k] {
          OneParent(ns[a], j, ns[i], k);
        }
      }
    }
  }
}
