// The linked tree cells of lib/utils.c, relinked in place, against the
// tree functions of BalancedTree.
module TreeCells {
  import opened BalancedTree

  /** `struct btree`; the item it holds is compared by its key. */
  class Cell<K, V> {
    const key: K
    const val: V
    var l: Cell?<K, V>
    var r: Cell?<K, V>
    var h: nat

    constructor (key: K, val: V)
      ensures this.key == key && this.val == val && l == null && r == null && h == 1
    {
      this.key, this.val := key, val;
      l, r, h := null, null, 1;
    }
  }

  type Linked<K, V> = Tree<K, Cell<K, V>>

  ghost function Cells<K, V>(t: Linked<K, V>): set<Cell<K, V>> {
    if t.Leaf? then {} else Cells(t.left) + {t.cell} + Cells(t.right)
  }

  /** No cell occurs twice. */
  ghost predicate Apart<K, V>(t: Linked<K, V>) {
    t.Node? ==>
      && Apart(t.left) && Apart(t.right)
      && t.cell !in Cells(t.left) && t.cell !in Cells(t.right) && Cells(t.left) !! Cells(t.right)
  }

  /** The cells reachable from p are linked as t says. */
  ghost predicate Rep<K, V>(p: Cell?<K, V>, t: Linked<K, V>)
    reads Cells(t)
  {
    if t.Leaf? then p == null
    else
      && p == t.cell && p.key == t.key && p.h == t.h
      && Rep(p.l, t.left) && Rep(p.r, t.right)
  }

  lemma {:induction false} RotRCells<K, V>(t: Linked<K, V>)
    requires t.Node? && t.left.Node?
    ensures Cells(RotR(t)) == Cells(t) && (Apart(t) ==> Apart(RotR(t)))
    decreases t
  {
    var l := t.left;
    if H(t.left.right) > H(t.left.left) {
      RotLCells(t.left);
      l := RotL(t.left);
    }
    assert Cells(l) == Cells(l.left) + {l.cell} + Cells(l.right) == Cells(t.left);
    assert Apart(t) ==>
      Apart(l) && Apart(t.right) && t.cell !in Cells(l) && t.cell !in Cells(t.right) && Cells(l) !! Cells(t.right);
    MkCells(l.right, t.key, t.cell, t.right);
    MkCells(l.left, l.key, l.cell, Mk(l.right, t.key, t.cell, t.right));
  }

  lemma {:induction false} RotLCells<K, V>(t: Linked<K, V>)
    requires t.Node? && t.right.Node?
    ensures Cells(RotL(t)) == Cells(t) && (Apart(t) ==> Apart(RotL(t)))
    decreases t
  {
    var r := t.right;
    if H(t.right.left) > H(t.right.right) {
      RotRCells(t.right);
      r := RotR(t.right);
    }
    assert Cells(r) == Cells(r.left) + {r.cell} + Cells(r.right) == Cells(t.right);
    assert Apart(t) ==>
      Apart(r) && Apart(t.left) && t.cell !in Cells(r) && t.cell !in Cells(t.left) && Cells(t.left) !! Cells(r);
    MkCells(t.left, t.key, t.cell, r.left);
    MkCells(Mk(t.left, t.key, t.cell, r.left), r.key, r.cell, r.right);
  }

  lemma MkCells<K, V>(l: Linked<K, V>, key: K, c: Cell<K, V>, r: Linked<K, V>)
    ensures var t := Mk(l, key, c, r);
      && Cells(t) == Cells(l) + {c} + Cells(r)
      && (Apart(t) <==> Apart(l) && Apart(r) && c !in Cells(l) && c !in Cells(r) && Cells(l) !! Cells(r))
  {
  }

  function BtHeight<K, V>(p: Cell?<K, V>): nat
    reads p
  {
    if p == null then 0 else p.h
  }

  /** Cells that p leads to exist. */
  lemma {:induction false} Exist<K, V>(p: Cell?<K, V>, t: Linked<K, V>)
    requires Rep(p, t)
    ensures forall c :: c in Cells(t) ==> allocated(c)
  {
    if t.Node? {
      Exist(p.l, t.left);
      Exist(p.r, t.right);
    }
  }

  lemma HeightIs<K, V>(p: Cell?<K, V>, t: Linked<K, V>)
    requires Rep(p, t)
    ensures BtHeight(p) == H(t)
  {
  }

  method BtSetHeight<K, V>(p: Cell<K, V>, ghost t: Linked<K, V>)
    requires t.Node? && Apart(t) && p == t.cell && p.key == t.key && Rep(p.l, t.left) && Rep(p.r, t.right)
    modifies p`h
    ensures Rep(p, Mk(t.left, t.key, t.cell, t.right))
  {
    HeightIs(p.l, t.left);
    HeightIs(p.r, t.right);
    Exist(p.l, t.left);
    Exist(p.r, t.right);
    p.h := Max(BtHeight(p.l), BtHeight(p.r)) + 1;
    assert Rep(p.l, t.left) && Rep(p.r, t.right);
  }

  /** p holds the key of t and has t's subtrees for children, whatever its height. */
  ghost predicate Roots<K, V>(p: Cell<K, V>, t: Linked<K, V>)
    reads p, Cells(t)
  {
    t.Node? && Apart(t) && p == t.cell && p.key == t.key && Rep(p.l, t.left) && Rep(p.r, t.right)
  }

  /** Where the cells of a right rotation are. */
  lemma SpreadR<K, V>(t: Linked<K, V>)
    requires Apart(t) && t.Node? && t.left.Node?
    ensures var m := t.left;
      var u := Mk(m.right, t.key, t.cell, t.right);
      && Apart(u) && Apart(Mk(m.left, m.key, m.cell, u)) && t.cell != m.cell
      && t.cell !in Cells(m.left) + Cells(m.right) + Cells(t.right)
      && m.cell !in Cells(m.left) + Cells(u)
  {
    var m := t.left;
    assert Apart(m);
    assert Cells(m) == Cells(m.left) + {m.cell} + Cells(m.right);
    MkCells(m.right, t.key, t.cell, t.right);
    MkCells(m.left, m.key, m.cell, Mk(m.right, t.key, t.cell, t.right));
  }

  lemma SpreadL<K, V>(t: Linked<K, V>)
    requires Apart(t) && t.Node? && t.right.Node?
    ensures var m := t.right;
      var u := Mk(t.left, t.key, t.cell, m.left);
      && Apart(u) && Apart(Mk(u, m.key, m.cell, m.right)) && t.cell != m.cell
      && t.cell !in Cells(m.left) + Cells(m.right) + Cells(t.left)
      && m.cell !in Cells(m.right) + Cells(u)
  {
    var m := t.right;
    assert Apart(m);
    assert Cells(m) == Cells(m.left) + {m.cell} + Cells(m.right);
    MkCells(t.left, t.key, t.cell, m.left);
    MkCells(Mk(t.left, t.key, t.cell, m.left), m.key, m.cell, m.right);
  }

  /** The relinking that ends `bbtrr`. */
  method RelinkR<K, V>(r: Cell<K, V>, ghost t: Linked<K, V>) returns (l: Cell<K, V>)
    requires Roots(r, t) && t.left.Node?
    modifies r, t.left.cell
    ensures var m := t.left;
      Rep(l, Mk(m.left, m.key, m.cell, Mk(m.right, t.key, t.cell, t.right)))
  {
    ghost var tl := t.left;
    ghost var tr := Mk(tl.right, t.key, t.cell, t.right);
    SpreadR(t);
    l := r.l;
    Exist(l.l, tl.left);
    hide Apart;
    r.l := l.r;
    assert Rep(r.l, tl.right) && Rep(r.r, t.right) && Rep(l.l, tl.left);
    BtSetHeight(r, tr);
    l.r := r;
    assert Rep(l.l, tl.left) && Rep(l.r, tr);
    BtSetHeight(l, Mk(tl.left, tl.key, tl.cell, tr));
  }

  method RelinkL<K, V>(l: Cell<K, V>, ghost t: Linked<K, V>) returns (r: Cell<K, V>)
    requires Roots(l, t) && t.right.Node?
    modifies l, t.right.cell
    ensures var m := t.right;
      Rep(r, Mk(Mk(t.left, t.key, t.cell, m.left), m.key, m.cell, m.right))
  {
    ghost var tr := t.right;
    ghost var tl := Mk(t.left, t.key, t.cell, tr.left);
    SpreadL(t);
    r := l.r;
    Exist(r.r, tr.right);
    hide Apart;
    l.r := r.l;
    assert Rep(l.l, t.left) && Rep(l.r, tr.left) && Rep(r.r, tr.right);
    BtSetHeight(l, tl);
    r.l := l;
    assert Rep(r.l, tl) && Rep(r.r, tr.right);
    BtSetHeight(r, Mk(tl, tr.key, tr.cell, tr.right));
  }

  /** `bbtrr` on the cells; the new root is returned. */
  method BbTrr<K, V>(tree: Cell<K, V>, ghost t: Linked<K, V>) returns (root: Cell<K, V>)
    requires Roots(tree, t) && t.left.Node?
    modifies Cells(t)
    ensures Rep(root, RotR(t))
    decreases t
  {
    HeightIs(tree.l.r, t.left.right);
    HeightIs(tree.l.l, t.left.left);
    ghost var u := t;
    if BtHeight(tree.l.r) > BtHeight(tree.l.l) {
      RotLCells(t.left);
      Exist(tree.r, t.right);
      var l := BbTrl(tree.l, t.left);
      assert Rep(tree.r, t.right);
      tree.l := l;
      u := t.(left := RotL(t.left));
      assert Rep(tree.l, u.left) && Rep(tree.r, t.right);
    }
    root := RelinkR(tree, u);
  }

  /** `bbtrl`. */
  method BbTrl<K, V>(tree: Cell<K, V>, ghost t: Linked<K, V>) returns (root: Cell<K, V>)
    requires Roots(tree, t) && t.right.Node?
    modifies Cells(t)
    ensures Rep(root, RotL(t))
    decreases t
  {
    HeightIs(tree.r.l, t.right.left);
    HeightIs(tree.r.r, t.right.right);
    ghost var u := t;
    if BtHeight(tree.r.l) > BtHeight(tree.r.r) {
      RotRCells(t.right);
      Exist(tree.l, t.left);
      var r := BbTrr(tree.r, t.right);
      assert Rep(tree.l, t.left);
      tree.r := r;
      u := t.(right := RotR(t.right));
      assert Rep(tree.l, t.left) && Rep(tree.r, u.right);
    }
    root := RelinkL(tree, u);
  }

  lemma RebalanceCells<K, V>(t: Linked<K, V>)
    requires t.Node?
    ensures Cells(Rebalance(t)) == Cells(t) && (Apart(t) ==> Apart(Rebalance(t)))
  {
    var s := Mk(t.left, t.key, t.cell, t.right);
    MkCells(t.left, t.key, t.cell, t.right);
    var v := s;
    if H(s.left) > H(s.right) + 1 {
      RotRCells(s);
      v := RotR(s);
    }
    if H(v.right) > H(v.left) + 1 {
      RotLCells(v);
    }
  }

  /** The end of `bbtreeput` and `bbtreedel`: height, then rotations. */
  method BbRebalance<K, V>(tree: Cell<K, V>, ghost t: Linked<K, V>) returns (root: Cell<K, V>)
    requires Roots(tree, t)
    modifies Cells(t)
    ensures Rep(root, Rebalance(t))
  {
    hide RotR, RotL;
    ghost var v := Mk(t.left, t.key, t.cell, t.right);
    MkCells(t.left, t.key, t.cell, t.right);
    Exist(tree.l, t.left);
    Exist(tree.r, t.right);
    BtSetHeight(tree, t);
    root := tree;
    HeightIs(root.l, v.left);
    HeightIs(root.r, v.right);
    if BtHeight(root.l) > BtHeight(root.r) + 1 {
      RotRCells(v);
      root := BbTrr(root, v);
      v := RotR(v);
      HeightIs(root.l, v.left);
      HeightIs(root.r, v.right);
    }
    if BtHeight(root.r) > BtHeight(root.l) + 1 {
      root := BbTrl(root, v);
    }
  }

  lemma {:induction false} PutCells<K, V>(t: Linked<K, V>, k: K, c: Cell<K, V>, cmp: (K, K) -> int)
    ensures Cells(Put(t, k, c, cmp)) == Cells(t) + if Get(t, k, cmp).Leaf? then {c} else {}
    ensures Apart(t) && c !in Cells(t) ==> Apart(Put(t, k, c, cmp))
  {
    hide Rebalance;
    if t.Node? {
      if cmp(k, t.key) < 0 {
        PutCells(t.left, k, c, cmp);
        RebalanceCells(t.(left := Put(t.left, k, c, cmp)));
      } else if cmp(k, t.key) > 0 {
        PutCells(t.right, k, c, cmp);
        RebalanceCells(t.(right := Put(t.right, k, c, cmp)));
      }
    }
  }

  /** `bbtreeput`; c is the cell made for the item, or the one found. */
  method BbTreePut<K, V>(tree: Cell?<K, V>, key: K, val: V, cmp: (K, K) -> int, ghost t: Linked<K, V>)
    returns (root: Cell<K, V>, r: int, ghost c: Cell<K, V>)
    requires Rep(tree, t) && Apart(t)
    modifies Cells(t)
    ensures Rep(root, Put(t, key, c, cmp)) && Apart(Put(t, key, c, cmp))
    ensures r == if Get(t, key, cmp).Node? then 0 else 1
    ensures if r == 1 then fresh(c) && c.key == key && c.val == val else c == Get(t, key, cmp).cell
    decreases t, 1
  {
    hide Rebalance;
    if tree == null {
      root := new Cell(key, val);
      return root, 1, root;
    }
    hide Apart, Cells, Roots;
    var o := cmp(key, tree.key);
    if o < 0 {
      r, c := PutLeft(tree, key, val, cmp, t);
      RebalanceCells(t.(left := Put(t.left, key, c, cmp)));
      root := BbRebalance(tree, t.(left := Put(t.left, key, c, cmp)));
    } else if o > 0 {
      r, c := PutRight(tree, key, val, cmp, t);
      RebalanceCells(t.(right := Put(t.right, key, c, cmp)));
      root := BbRebalance(tree, t.(right := Put(t.right, key, c, cmp)));
    } else {
      return tree, 0, tree;
    }
  }

  method PutLeft<K, V>(tree: Cell<K, V>, key: K, val: V, cmp: (K, K) -> int, ghost t: Linked<K, V>)
    returns (r: int, ghost c: Cell<K, V>)
    requires t.Node? && Rep(tree, t) && Apart(t)
    modifies Cells(t)
    ensures var u := t.(left := Put(t.left, key, c, cmp));
      Roots(tree, u) && Apart(u) && Cells(u) == Cells(t) + if r == 1 then {c} else {}
    ensures r == if Get(t.left, key, cmp).Node? then 0 else 1
    ensures if r == 1 then fresh(c) && c.key == key && c.val == val else c == Get(t.left, key, cmp).cell
    decreases t, 0
  {
    hide Put, Get;
    Exist(tree, t);
    var l;
    l, r, c := BbTreePut(tree.l, key, val, cmp, t.left);
    PutCells(t.left, key, c, cmp);
    assert Rep(tree.r, t.right);
    tree.l := l;
  }

  method PutRight<K, V>(tree: Cell<K, V>, key: K, val: V, cmp: (K, K) -> int, ghost t: Linked<K, V>)
    returns (r: int, ghost c: Cell<K, V>)
    requires t.Node? && Rep(tree, t) && Apart(t)
    modifies Cells(t)
    ensures var u := t.(right := Put(t.right, key, c, cmp));
      Roots(tree, u) && Apart(u) && Cells(u) == Cells(t) + if r == 1 then {c} else {}
    ensures r == if Get(t.right, key, cmp).Node? then 0 else 1
    ensures if r == 1 then fresh(c) && c.key == key && c.val == val else c == Get(t.right, key, cmp).cell
    decreases t, 0
  {
    hide Put, Get;
    Exist(tree, t);
    var rr;
    rr, r, c := BbTreePut(tree.r, key, val, cmp, t.right);
    PutCells(t.right, key, c, cmp);
    assert Rep(tree.l, t.left);
    tree.r := rr;
  }

  /** `btreeget`. */
  method BtreeGet<K, V>(tree: Cell?<K, V>, key: K, cmp: (K, K) -> int, ghost t: Linked<K, V>) returns (c: Cell?<K, V>)
    requires Rep(tree, t)
    ensures if Get(t, key, cmp).Leaf? then c == null else c == Get(t, key, cmp).cell && c.key == Get(t, key, cmp).key
  {
    c := tree;
    ghost var u := t;
    while c != null
      invariant Rep(c, u) && Get(u, key, cmp) == Get(t, key, cmp)
      decreases u
    {
      var o := cmp(key, c.key);
      if o < 0 {
        c, u := c.l, u.left;
      } else if o > 0 {
        c, u := c.r, u.right;
      } else {
        return;
      }
    }
  }

  /** The cell whose left link leads to the least cell. */
  ghost function Above<K, V>(t: Linked<K, V>): (p: Cell<K, V>)
    requires t.Node? && t.left.Node?
    ensures p in Cells(t)
  {
    if t.left.left.Leaf? then t.cell else Above(t.left)
  }

  lemma {:induction false} AboveApart<K, V>(t: Linked<K, V>)
    requires t.Node? && t.left.Node? && Apart(t)
    ensures Above(t) !in Cells(t.right) && (t.left.left.Node? ==> Above(t) != t.cell)
  {
  }

  /** Moving one left link past the least cell unlinks it. */
  twostate lemma {:induction false} Unlinks<K, V>(t: Linked<K, V>)
    requires t.Node? && t.left.Node? && Apart(t)
    requires forall c :: c in Cells(t) ==> old(allocated(c))
    requires old(Rep(t.cell, t))
    requires forall c :: c in Cells(t) && c != Above(t) ==> unchanged(c)
    requires Above(t).h == old(Above(t).h) && Above(t).r == old(Above(t).r)
    requires Above(t).l == old(Least(t).cell.r)
    ensures Rep(t.cell, Unlinked(t))
  {
    AboveApart(t);
    assert Cells(t) == Cells(t.left) + {t.cell} + Cells(t.right);
    assert Rep(t.cell.r, t.right);
    if t.left.left.Node? {
      Unlinks(t.left);
    } else {
      var m := t.left;
      assert Cells(m) == Cells(m.left) + {m.cell} + Cells(m.right);
      assert Rep(m.cell.r, m.right);
    }
  }

  /** The walk to the in-order successor: its cell s, and the cell whose left
      link holds it, if it is not tree's right child itself. */
  method Successor<K, V>(tree: Cell<K, V>, ghost t: Linked<K, V>) returns (s: Cell<K, V>, p: Cell?<K, V>)
    requires t.Node? && tree == t.cell && Rep(tree, t)
    ensures s == Least(t).cell && s.l == null && s in Cells(t) && Rep(s.r, Least(t).right)
    ensures s.key == Least(t).key && s.h == Least(t).h
    ensures if t.left.Leaf? then p == null else p == Above(t)
  {
    s, p := tree, null;
    ghost var u := t;
    while s.l != null
      invariant u.Node? && Rep(s, u) && s == u.cell && Cells(u) <= Cells(t)
      invariant Least(u) == Least(t)
      invariant p == null ==> u == t
      invariant p != null && u.left.Node? ==> t.left.Node? && Above(u) == Above(t)
      invariant p != null && u.left.Leaf? ==> t.left.Node? && p == Above(t)
      decreases u
    {
      s, p := s.l, s;
      u := u.left;
    }
  }

  /** Unlink the least cell below `tree`'s right link. */
  method UnlinkRight<K, V>(tree: Cell<K, V>, ghost t: Linked<K, V>) returns (s: Cell<K, V>)
    requires Roots(tree, t) && t.right.Node?
    modifies Cells(t)
    ensures s == Least(t.right).cell && s.key == Least(t.right).key && s.h == Least(t.right).h
    ensures tree.l == old(tree.l) && Rep(tree.l, t.left) && Rep(tree.r, Unlinked(t.right))
  {
    var p: Cell?<K, V>;
    Exist(tree.r, t.right);
    Exist(tree.l, t.left);
    s, p := Successor(tree.r, t.right);
    if p == null {
      tree.r := s.r;
    } else {
      p.l := s.r;
      Unlinks(t.right);
    }
    assert Rep(tree.l, t.left);
  }

  lemma {:induction false} LeastCells<K, V>(t: Linked<K, V>)
    requires t.Node?
    ensures Cells(t) == Cells(Unlinked(t)) + {Least(t).cell}
    ensures Apart(t) ==> Apart(Unlinked(t)) && Least(t).cell !in Cells(Unlinked(t))
  {
    if t.left.Node? {
      LeastCells(t.left);
    }
  }

  lemma SplicedCells<K, V>(t: Linked<K, V>)
    requires t.Node? && Apart(t)
    ensures Cells(Spliced(t)) == Cells(t) - {t.cell} && Apart(Spliced(t))
  {
    if t.right.Node? {
      LeastCells(t.right);
    }
  }

  lemma SettleCells<K, V>(t: Linked<K, V>)
    ensures Cells(Settle(t)) == Cells(t) && (Apart(t) ==> Apart(Settle(t)))
  {
    hide Rebalance;
    if t.Node? {
      RebalanceCells(t);
    }
  }

  /** Deletion gives up the cell of the item found, and no other. */
  lemma {:induction false} DelCells<K, V>(t: Linked<K, V>, k: K, cmp: (K, K) -> int)
    requires Apart(t)
    ensures Apart(Del(t, k, cmp))
    ensures var g := Get(t, k, cmp);
      (g.Node? ==> g.cell in Cells(t)) && Cells(Del(t, k, cmp)) == Cells(t) - if g.Node? then {g.cell} else {}
  {
    hide Settle, Spliced;
    if t.Node? {
      if cmp(k, t.key) < 0 {
        DelCells(t.left, k, cmp);
        SettleCells(t.(left := Del(t.left, k, cmp)));
      } else if cmp(k, t.key) > 0 {
        DelCells(t.right, k, cmp);
        SettleCells(t.(right := Del(t.right, k, cmp)));
      } else {
        SplicedCells(t);
        SettleCells(Spliced(t));
      }
    }
  }

  /** `bbtreedel`. */
  method BbTreeDel<K, V>(tree: Cell?<K, V>, key: K, cmp: (K, K) -> int, ghost t: Linked<K, V>)
    returns (root: Cell?<K, V>, r: int)
    requires Rep(tree, t) && Apart(t)
    modifies Cells(t)
    ensures Rep(root, Del(t, key, cmp)) && Apart(Del(t, key, cmp))
    ensures r == if Get(t, key, cmp).Node? then 1 else 0
    decreases t, 1
  {
    hide Rebalance, Apart, Cells, Spliced, Roots;
    if tree == null {
      return null, 0;
    }
    DelCells(t, key, cmp);
    var o := cmp(key, tree.key);
    ghost var u := t;
    if o < 0 {
      r := DelLeft(tree, key, cmp, t);
      root, u := tree, t.(left := Del(t.left, key, cmp));
    } else if o > 0 {
      r := DelRight(tree, key, cmp, t);
      root, u := tree, t.(right := Del(t.right, key, cmp));
    } else {
      assert Roots(tree, t) by { RepRoots(tree, t); }
      root := Splice(tree, t);
      r, u := 1, Spliced(t);
    }
    if root != null {
      root := BbRebalance(root, u);
    }
  }

  lemma RepRoots<K, V>(p: Cell<K, V>, t: Linked<K, V>)
    requires Rep(p, t) && Apart(t)
    ensures Roots(p, t)
  {
  }

  method DelLeft<K, V>(tree: Cell<K, V>, key: K, cmp: (K, K) -> int, ghost t: Linked<K, V>) returns (r: int)
    requires t.Node? && Rep(tree, t) && Apart(t)
    modifies Cells(t)
    ensures Roots(tree, t.(left := Del(t.left, key, cmp))) && Cells(t.(left := Del(t.left, key, cmp))) <= Cells(t)
    ensures r == if Get(t.left, key, cmp).Node? then 1 else 0
    decreases t, 0
  {
    hide Del, Get;
    Exist(tree, t);
    DelCells(t.left, key, cmp);
    var l;
    l, r := BbTreeDel(tree.l, key, cmp, t.left);
    assert Rep(tree.r, t.right);
    tree.l := l;
  }

  method DelRight<K, V>(tree: Cell<K, V>, key: K, cmp: (K, K) -> int, ghost t: Linked<K, V>) returns (r: int)
    requires t.Node? && Rep(tree, t) && Apart(t)
    modifies Cells(t)
    ensures Roots(tree, t.(right := Del(t.right, key, cmp))) && Cells(t.(right := Del(t.right, key, cmp))) <= Cells(t)
    ensures r == if Get(t.right, key, cmp).Node? then 1 else 0
    decreases t, 0
  {
    hide Del, Get;
    Exist(tree, t);
    DelCells(t.right, key, cmp);
    var rr;
    rr, r := BbTreeDel(tree.r, key, cmp, t.right);
    assert Rep(tree.l, t.left);
    tree.r := rr;
  }

  /** The removal of a cell's item in `bbtreedel`. */
  method Splice<K, V>(tree: Cell<K, V>, ghost t: Linked<K, V>) returns (root: Cell?<K, V>)
    requires Roots(tree, t) && tree.h == t.h
    modifies Cells(t)
    ensures Rep(root, Spliced(t)) && (root != null ==> Roots(root, Spliced(t)))
    ensures Cells(Spliced(t)) <= Cells(t)
  {
    if tree.r != null && tree.l != null {
      LeastCells(t.right);
      var s := UnlinkRight(tree, t);
      s.l := tree.l;
      s.r := tree.r;
      root := s;
    } else if tree.l != null {
      root := tree.l;
    } else if tree.r != null {
      root := tree.r;
    } else {
      root := null;
    }
  }
}
