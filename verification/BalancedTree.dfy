// The balanced tree of lib/utils.c on values: rotations, insertion and
// deletion as functions on trees whose nodes carry their stored heights.
module BalancedTree {
  import opened Seqs

  /** A tree of the cells C, ordered by their keys K; h is the stored height. */
  datatype Tree<K, C> = Leaf | Node(left: Tree<K, C>, key: K, cell: C, h: nat, right: Tree<K, C>)

  function H<K, C>(t: Tree<K, C>): nat {
    if t.Leaf? then 0 else t.h
  }

  function Max(a: nat, b: nat): nat {
    if b > a then b else a
  }

  /** A node whose height `btsetheight` has just set. */
  function Mk<K, C>(l: Tree<K, C>, key: K, cell: C, r: Tree<K, C>): Tree<K, C> {
    Node(l, key, cell, Max(H(l), H(r)) + 1, r)
  }

  /** `bbtrr`: rotate right, first rotating the left child left if its right
      side is the higher. */
  function RotR<K, C>(t: Tree<K, C>): (u: Tree<K, C>)
    requires t.Node? && t.left.Node?
    ensures u.Node? && u.right.Node?
    decreases t
  {
    var l := if H(t.left.right) > H(t.left.left) then RotL(t.left) else t.left;
    Mk(l.left, l.key, l.cell, Mk(l.right, t.key, t.cell, t.right))
  }

  /** `bbtrl`. */
  function RotL<K, C>(t: Tree<K, C>): (u: Tree<K, C>)
    requires t.Node? && t.right.Node?
    ensures u.Node? && u.left.Node?
    decreases t
  {
    var r := if H(t.right.left) > H(t.right.right) then RotR(t.right) else t.right;
    Mk(Mk(t.left, t.key, t.cell, r.left), r.key, r.cell, r.right)
  }

  /** What `bbtreeput` and `bbtreedel` do to a node on the way back up. */
  function Rebalance<K, C>(t: Tree<K, C>): (u: Tree<K, C>)
    requires t.Node?
    ensures u.Node?
  {
    var s := Mk(t.left, t.key, t.cell, t.right);
    var v := if H(s.left) > H(s.right) + 1 then RotR(s) else s;
    if H(v.right) > H(v.left) + 1 then RotL(v) else v
  }

  // ----- Balance -----

  /** Balanced, with exact stored heights. */
  ghost predicate Avl<K, C>(t: Tree<K, C>) {
    t.Node? ==>
      && Avl(t.left) && Avl(t.right) && t.h == Max(H(t.left), H(t.right)) + 1
      && H(t.left) <= H(t.right) + 1 && H(t.right) <= H(t.left) + 1
  }

  function Height<K, C>(t: Tree<K, C>): nat {
    if t.Leaf? then 0 else Max(Height(t.left), Height(t.right)) + 1
  }

  /** No stored height is less than one more than a child's. */
  ghost predicate Over<K, C>(t: Tree<K, C>) {
    t.Node? ==> Over(t.left) && Over(t.right) && t.h >= Max(H(t.left), H(t.right)) + 1
  }

  lemma {:induction false} AvlExact<K, C>(t: Tree<K, C>)
    requires Avl(t)
    ensures H(t) == Height(t) && Over(t)
  {
    if t.Node? {
      AvlExact(t.left);
      AvlExact(t.right);
    }
  }

  /** A stored height never under-estimates. */
  lemma {:induction false} OverEstimates<K, C>(t: Tree<K, C>)
    requires Over(t)
    ensures H(t) >= Height(t)
  {
    if t.Node? {
      OverEstimates(t.left);
      OverEstimates(t.right);
    }
  }

  /** Rotating left a balanced tree that is right-heavy by one gives a
      balanced tree of the same height that is left-heavy by one. */
  lemma {:induction false} FlipL<K, C>(t: Tree<K, C>)
    requires Avl(t) && t.Node? && H(t.right) == H(t.left) + 1
    ensures var u := RotL(t); Avl(u) && H(u) == H(t) && H(u.left) == H(u.right) + 1
    decreases t
  {
    if H(t.right.left) > H(t.right.right) {
      FlipR(t.right);
    }
  }

  lemma {:induction false} FlipR<K, C>(t: Tree<K, C>)
    requires Avl(t) && t.Node? && H(t.left) == H(t.right) + 1
    ensures var u := RotR(t); Avl(u) && H(u) == H(t) && H(u.right) == H(u.left) + 1
    decreases t
  {
    if H(t.left.right) > H(t.left.left) {
      FlipL(t.left);
    }
  }

  /** Rotation repairs a node whose right side is too high by two. */
  lemma FixL<K, C>(t: Tree<K, C>)
    requires t.Node? && Avl(t.left) && Avl(t.right) && H(t.right) == H(t.left) + 2
    ensures Avl(RotL(t)) && H(t.right) <= H(RotL(t)) <= H(t.right) + 1
  {
    if H(t.right.left) > H(t.right.right) {
      FlipR(t.right);
    }
  }

  lemma FixR<K, C>(t: Tree<K, C>)
    requires t.Node? && Avl(t.left) && Avl(t.right) && H(t.left) == H(t.right) + 2
    ensures Avl(RotR(t)) && H(t.left) <= H(RotR(t)) <= H(t.left) + 1
  {
    if H(t.left.right) > H(t.left.left) {
      FlipL(t.left);
    }
  }

  /** Balanced sides that differ by at most two come out balanced. */
  lemma RebalanceAvl<K, C>(t: Tree<K, C>)
    requires t.Node? && Avl(t.left) && Avl(t.right)
    requires H(t.left) <= H(t.right) + 2 && H(t.right) <= H(t.left) + 2
    ensures var u := Rebalance(t);
      Avl(u) && Max(H(t.left), H(t.right)) <= H(u) <= Max(H(t.left), H(t.right)) + 1
    ensures H(t.left) <= H(t.right) + 1 && H(t.right) <= H(t.left) + 1 ==>
      H(Rebalance(t)) == Max(H(t.left), H(t.right)) + 1
  {
    var s := Mk(t.left, t.key, t.cell, t.right);
    if H(s.left) > H(s.right) + 1 {
      FixR(s);
    } else if H(s.right) > H(s.left) + 1 {
      FixL(s);
    }
  }

  lemma {:induction false} RotROver<K, C>(t: Tree<K, C>)
    requires t.Node? && t.left.Node? && Over(t.left) && Over(t.right)
    ensures Over(RotR(t))
    decreases t
  {
    if H(t.left.right) > H(t.left.left) {
      RotLOver(t.left);
    }
  }

  lemma {:induction false} RotLOver<K, C>(t: Tree<K, C>)
    requires t.Node? && t.right.Node? && Over(t.left) && Over(t.right)
    ensures Over(RotL(t))
    decreases t
  {
    if H(t.right.left) > H(t.right.right) {
      RotROver(t.right);
    }
  }

  lemma RebalanceOver<K, C>(t: Tree<K, C>)
    requires t.Node? && Over(t.left) && Over(t.right)
    ensures Over(Rebalance(t))
  {
    var s := Mk(t.left, t.key, t.cell, t.right);
    if H(s.left) > H(s.right) + 1 {
      RotROver(s);
    }
    var v := if H(s.left) > H(s.right) + 1 then RotR(s) else s;
    if H(v.right) > H(v.left) + 1 {
      RotLOver(v);
    }
  }

  // ----- Contents in order -----

  function Inorder<K, C>(t: Tree<K, C>): seq<(K, C)> {
    if t.Leaf? then [] else Inorder(t.left) + ([(t.key, t.cell)] + Inorder(t.right))
  }

  lemma Around<T>(a: seq<T>, b: seq<T>, c: seq<T>, d: seq<T>, e: seq<T>)
    ensures (a + (b + c)) + (d + e) == a + (b + (c + (d + e)))
  {
  }

  lemma {:induction false} RotRInorder<K, C>(t: Tree<K, C>)
    requires t.Node? && t.left.Node?
    ensures Inorder(RotR(t)) == Inorder(t)
    decreases t
  {
    var l := t.left;
    if H(t.left.right) > H(t.left.left) {
      RotLInorder(t.left);
      l := RotL(t.left);
    }
    Around(Inorder(l.left), [(l.key, l.cell)], Inorder(l.right), [(t.key, t.cell)], Inorder(t.right));
  }

  lemma {:induction false} RotLInorder<K, C>(t: Tree<K, C>)
    requires t.Node? && t.right.Node?
    ensures Inorder(RotL(t)) == Inorder(t)
    decreases t
  {
    var r := t.right;
    if H(t.right.left) > H(t.right.right) {
      RotRInorder(t.right);
      r := RotR(t.right);
    }
    Around(Inorder(t.left), [(t.key, t.cell)], Inorder(r.left), [(r.key, r.cell)], Inorder(r.right));
  }

  lemma RebalanceInorder<K, C>(t: Tree<K, C>)
    requires t.Node?
    ensures Inorder(Rebalance(t)) == Inorder(t)
  {
    var s := Mk(t.left, t.key, t.cell, t.right);
    var v := s;
    if H(s.left) > H(s.right) + 1 {
      RotRInorder(s);
      v := RotR(s);
    }
    if H(v.right) > H(v.left) + 1 {
      RotLInorder(v);
    }
  }

  // ----- Order -----

  /** `cmp` is a comparison: a total order on the classes it finds equal. */
  ghost predicate Ordering<K(!new)>(cmp: (K, K) -> int) {
    && (forall a, b :: cmp(a, b) < 0 <==> cmp(b, a) > 0)
    && (forall a, b, c :: cmp(a, b) <= 0 && cmp(b, c) <= 0 ==> cmp(a, c) <= 0)
  }

  lemma Flip<K(!new)>(cmp: (K, K) -> int, a: K, b: K)
    requires Ordering(cmp)
    ensures cmp(a, b) < 0 <==> cmp(b, a) > 0
    ensures cmp(a, b) == 0 <==> cmp(b, a) == 0
  {
    assert cmp(b, a) < 0 <==> cmp(a, b) > 0;
  }

  lemma Chain<K(!new)>(cmp: (K, K) -> int, a: K, b: K, c: K)
    requires Ordering(cmp)
    ensures cmp(a, b) < 0 && cmp(b, c) <= 0 ==> cmp(a, c) < 0
    ensures cmp(a, b) <= 0 && cmp(b, c) < 0 ==> cmp(a, c) < 0
    ensures cmp(a, b) == 0 <==> cmp(b, a) == 0
    ensures cmp(a, a) == 0
  {
    assert cmp(c, a) <= 0 && cmp(b, c) <= 0 ==> cmp(b, a) <= 0;
    assert cmp(c, a) <= 0 && cmp(a, b) <= 0 ==> cmp(c, b) <= 0;
  }

  ghost predicate Sorted<K, C>(s: seq<(K, C)>, cmp: (K, K) -> int) {
    forall i, j :: 0 <= i < j < |s| ==> cmp(s[i].0, s[j].0) < 0
  }

  /** The position of the entry equal to k, or else of the first above it. */
  function Place<K, C>(s: seq<(K, C)>, k: K, cmp: (K, K) -> int): (i: nat)
    ensures i <= |s|
    ensures forall j :: 0 <= j < i ==> cmp(k, s[j].0) > 0
    ensures i < |s| ==> cmp(k, s[i].0) <= 0
  {
    if s == [] || cmp(k, s[0].0) <= 0 then 0 else 1 + Place(s[1..], k, cmp)
  }

  predicate Has<K, C>(s: seq<(K, C)>, k: K, cmp: (K, K) -> int) {
    var i := Place(s, k, cmp);
    i < |s| && cmp(k, s[i].0) == 0
  }

  function InsertAt<T>(s: seq<T>, i: nat, x: T): (u: seq<T>)
    requires i <= |s|
    ensures |u| == |s| + 1 && u[i] == x
    ensures forall j :: 0 <= j < i ==> u[j] == s[j]
    ensures forall j {:trigger u[j]} :: i < j < |u| ==> u[j] == s[j - 1]
  {
    s[..i] + [x] + s[i..]
  }

  function Inserted<K, C>(s: seq<(K, C)>, k: K, c: C, cmp: (K, K) -> int): seq<(K, C)> {
    if Has(s, k, cmp) then s else InsertAt(s, Place(s, k, cmp), (k, c))
  }

  function Deleted<K, C>(s: seq<(K, C)>, k: K, cmp: (K, K) -> int): seq<(K, C)> {
    if Has(s, k, cmp) then Without(s, Place(s, k, cmp)) else s
  }

  /** In a sorted sequence an equal entry is unique, and only Place finds it. */
  lemma HasMeans<K(!new), C>(s: seq<(K, C)>, k: K, cmp: (K, K) -> int)
    requires Ordering(cmp) && Sorted(s, cmp)
    ensures Has(s, k, cmp) <==> exists i :: 0 <= i < |s| && cmp(k, s[i].0) == 0
    ensures forall i :: 0 <= i < |s| && cmp(k, s[i].0) == 0 ==> i == Place(s, k, cmp)
  {
    hide Ordering, Place;
    var p := Place(s, k, cmp);
    forall i | 0 <= i < |s| && cmp(k, s[i].0) == 0 ensures i == p {
      if i > p {
        Chain(cmp, k, s[p].0, s[i].0);
      }
    }
  }

  /** Place is the only position with everything below before it and nothing
      below from it on. */
  lemma PlaceIs<K(!new), C>(s: seq<(K, C)>, k: K, cmp: (K, K) -> int, i: nat)
    requires i <= |s|
    requires forall j :: 0 <= j < i ==> cmp(k, s[j].0) > 0
    requires i < |s| ==> cmp(k, s[i].0) <= 0
    ensures Place(s, k, cmp) == i
  {
  }

  lemma InsertedSorted<K(!new), C>(s: seq<(K, C)>, k: K, c: C, cmp: (K, K) -> int)
    requires Ordering(cmp) && Sorted(s, cmp)
    ensures Sorted(Inserted(s, k, c, cmp), cmp) && Has(Inserted(s, k, c, cmp), k, cmp)
  {
    hide Ordering, Place;
    var i := Place(s, k, cmp);
    var u := Inserted(s, k, c, cmp);
    if !Has(s, k, cmp) {
      forall j | i <= j < |s| ensures cmp(k, s[j].0) < 0 {
        Chain(cmp, k, s[i].0, s[j].0);
      }
      forall j | 0 <= j < i ensures cmp(s[j].0, k) < 0 {
        Flip(cmp, s[j].0, k);
      }
      Chain(cmp, k, k, k);
      PlaceIs(u, k, cmp, i);
    }
  }

  lemma DeletedSorted<K(!new), C>(s: seq<(K, C)>, k: K, cmp: (K, K) -> int)
    requires Ordering(cmp) && Sorted(s, cmp)
    ensures Sorted(Deleted(s, k, cmp), cmp) && !Has(Deleted(s, k, cmp), k, cmp)
  {
    hide Ordering, Place;
    var i := Place(s, k, cmp);
    var u := Deleted(s, k, cmp);
    if Has(s, k, cmp) {
      if i < |u| {
        Chain(cmp, k, s[i].0, s[i + 1].0);
      }
      PlaceIs(u, k, cmp, i);
    }
  }

  // ----- Working below a node -----

  /** l ++ [x] ++ r, as the in-order sequence of a node is built. */
  function Join<T>(l: seq<T>, x: T, r: seq<T>): (s: seq<T>)
    ensures |s| == |l| + 1 + |r|
    ensures forall i :: 0 <= i < |l| ==> s[i] == l[i]
    ensures s[|l|] == x
    ensures forall i :: 0 <= i < |r| ==> s[|l| + 1 + i] == r[i]
  {
    l + ([x] + r)
  }

  lemma JoinSorted<K(!new), C>(l: seq<(K, C)>, x: (K, C), r: seq<(K, C)>, cmp: (K, K) -> int)
    requires Ordering(cmp) && Sorted(Join(l, x, r), cmp)
    ensures Sorted(l, cmp) && Sorted(r, cmp)
    ensures forall i :: 0 <= i < |l| ==> cmp(l[i].0, x.0) < 0
    ensures forall i :: 0 <= i < |r| ==> cmp(x.0, r[i].0) < 0
  {
    var s := Join(l, x, r);
    forall i, j | 0 <= i < j < |r| ensures cmp(r[i].0, r[j].0) < 0 {
      assert cmp(s[|l| + 1 + i].0, s[|l| + 1 + j].0) < 0;
    }
    forall i | 0 <= i < |l| ensures cmp(l[i].0, x.0) < 0 {
      assert cmp(s[i].0, s[|l|].0) < 0;
    }
    forall i | 0 <= i < |r| ensures cmp(x.0, r[i].0) < 0 {
      assert cmp(s[|l|].0, s[|l| + 1 + i].0) < 0;
    }
  }

  lemma PlaceJoin<K(!new), C>(l: seq<(K, C)>, x: (K, C), r: seq<(K, C)>, k: K, cmp: (K, K) -> int)
    requires Ordering(cmp) && Sorted(Join(l, x, r), cmp)
    ensures var c, p := cmp(k, x.0), Place(Join(l, x, r), k, cmp);
      p == if c < 0 then Place(l, k, cmp) else if c > 0 then |l| + 1 + Place(r, k, cmp) else |l|
  {
    hide Ordering, Sorted, Place, Join;
    JoinSorted(l, x, r, cmp);
    var s := Join(l, x, r);
    if cmp(k, x.0) < 0 {
      PlaceIs(s, k, cmp, Place(l, k, cmp));
    } else {
      forall j | 0 <= j < |l| ensures cmp(k, s[j].0) > 0 {
        Flip(cmp, k, x.0);
        Chain(cmp, l[j].0, x.0, k);
        Flip(cmp, l[j].0, k);
      }
      if cmp(k, x.0) == 0 {
        PlaceIs(s, k, cmp, |l|);
      } else {
        var q := Place(r, k, cmp);
        forall j | |l| < j < |l| + 1 + q ensures cmp(k, s[j].0) > 0 {
          assert s[j] == r[j - |l| - 1];
        }
        PlaceIs(s, k, cmp, |l| + 1 + q);
      }
    }
  }

  lemma InsertAtJoin<T>(l: seq<T>, x: T, r: seq<T>, i: nat, e: T)
    ensures i <= |l| ==> InsertAt(Join(l, x, r), i, e) == Join(InsertAt(l, i, e), x, r)
    ensures i <= |r| ==> InsertAt(Join(l, x, r), |l| + 1 + i, e) == Join(l, x, InsertAt(r, i, e))
  {
    hide Join, InsertAt;
    var s := Join(l, x, r);
    if i <= |l| {
      var u, v := InsertAt(s, i, e), Join(InsertAt(l, i, e), x, r);
      forall j | 0 <= j < |u| ensures u[j] == v[j] {
        if j > |l| + 1 { assert v[|l| + 2 + (j - |l| - 2)] == r[j - |l| - 2] == s[j - 1]; }
      }
    }
    if i <= |r| {
      var u, v := InsertAt(s, |l| + 1 + i, e), Join(l, x, InsertAt(r, i, e));
      forall j | 0 <= j < |u| ensures u[j] == v[j] {
        if j > |l| { assert v[|l| + 1 + (j - |l| - 1)] == InsertAt(r, i, e)[j - |l| - 1]; }
      }
    }
  }

  lemma WithoutJoin<T>(l: seq<T>, x: T, r: seq<T>, i: nat)
    ensures i < |l| ==> Without(Join(l, x, r), i) == Join(Without(l, i), x, r)
    ensures i < |r| ==> Without(Join(l, x, r), |l| + 1 + i) == Join(l, x, Without(r, i))
    ensures Without(Join(l, x, r), |l|) == l + r
  {
    hide Join, Without;
    var s := Join(l, x, r);
    if i < |l| {
      var u, v := Without(s, i), Join(Without(l, i), x, r);
      forall j | 0 <= j < |u| ensures u[j] == v[j] {
        if j >= |l| { assert v[|l| + (j - |l|)] == r[j - |l|] == s[|l| + 1 + (j - |l|)]; }
      }
    }
    if i < |r| {
      var u, v := Without(s, |l| + 1 + i), Join(l, x, Without(r, i));
      forall j | 0 <= j < |u| ensures u[j] == v[j] {
        if j > |l| { assert v[|l| + 1 + (j - |l| - 1)] == Without(r, i)[j - |l| - 1]; }
      }
    }
    var w := Without(s, |l|);
    forall j | 0 <= j < |w| ensures w[j] == (l + r)[j] {
      if j >= |l| { assert s[|l| + 1 + (j - |l|)] == r[j - |l|]; }
    }
  }

  lemma HasJoin<K(!new), C>(l: seq<(K, C)>, x: (K, C), r: seq<(K, C)>, k: K, cmp: (K, K) -> int)
    requires Ordering(cmp) && Sorted(Join(l, x, r), cmp)
    ensures Has(Join(l, x, r), k, cmp) <==>
      (cmp(k, x.0) == 0 || (if cmp(k, x.0) < 0 then Has(l, k, cmp) else Has(r, k, cmp)))
  {
    hide Ordering, Sorted, Place, Join;
    PlaceJoin(l, x, r, k, cmp);
    JoinSorted(l, x, r, cmp);
    if cmp(k, x.0) > 0 {
      var q := Place(r, k, cmp);
      if q < |r| { assert Join(l, x, r)[|l| + 1 + q] == r[q]; }
    }
  }

  lemma InsertedJoin<K(!new), C>(l: seq<(K, C)>, x: (K, C), r: seq<(K, C)>, k: K, c: C, cmp: (K, K) -> int)
    requires Ordering(cmp) && Sorted(Join(l, x, r), cmp)
    ensures cmp(k, x.0) < 0 ==> Inserted(Join(l, x, r), k, c, cmp) == Join(Inserted(l, k, c, cmp), x, r)
    ensures cmp(k, x.0) > 0 ==> Inserted(Join(l, x, r), k, c, cmp) == Join(l, x, Inserted(r, k, c, cmp))
    ensures cmp(k, x.0) == 0 ==> Inserted(Join(l, x, r), k, c, cmp) == Join(l, x, r)
  {
    hide Ordering, Sorted, Place, Join, InsertAt, Has;
    PlaceJoin(l, x, r, k, cmp);
    HasJoin(l, x, r, k, cmp);
    InsertAtJoin(l, x, r, Place(l, k, cmp), (k, c));
    InsertAtJoin(l, x, r, Place(r, k, cmp), (k, c));
  }

  lemma DeletedJoin<K(!new), C>(l: seq<(K, C)>, x: (K, C), r: seq<(K, C)>, k: K, cmp: (K, K) -> int)
    requires Ordering(cmp) && Sorted(Join(l, x, r), cmp)
    ensures cmp(k, x.0) < 0 ==> Deleted(Join(l, x, r), k, cmp) == Join(Deleted(l, k, cmp), x, r)
    ensures cmp(k, x.0) > 0 ==> Deleted(Join(l, x, r), k, cmp) == Join(l, x, Deleted(r, k, cmp))
    ensures cmp(k, x.0) == 0 ==> Deleted(Join(l, x, r), k, cmp) == l + r
  {
    hide Ordering, Sorted, Place, Join, Without;
    PlaceJoin(l, x, r, k, cmp);
    HasJoin(l, x, r, k, cmp);
    WithoutJoin(l, x, r, Place(l, k, cmp));
    WithoutJoin(l, x, r, Place(r, k, cmp));
  }

  // ----- Insertion -----

  /** `bbtreeput` of a new cell c with key k. */
  function Put<K, C>(t: Tree<K, C>, k: K, c: C, cmp: (K, K) -> int): (u: Tree<K, C>)
    ensures u.Node?
  {
    if t.Leaf? then Node(Leaf, k, c, 1, Leaf)
    else if cmp(k, t.key) < 0 then Rebalance(t.(left := Put(t.left, k, c, cmp)))
    else if cmp(k, t.key) > 0 then Rebalance(t.(right := Put(t.right, k, c, cmp)))
    else t
  }

  /** Insertion keeps balance with exact heights and grows by at most one level. */
  lemma {:induction false} PutAvl<K, C>(t: Tree<K, C>, k: K, c: C, cmp: (K, K) -> int)
    requires Avl(t)
    ensures Avl(Put(t, k, c, cmp)) && H(t) <= H(Put(t, k, c, cmp)) <= H(t) + 1
  {
    hide Rebalance;
    if t.Node? {
      if cmp(k, t.key) < 0 {
        PutAvl(t.left, k, c, cmp);
        RebalanceAvl(t.(left := Put(t.left, k, c, cmp)));
      } else if cmp(k, t.key) > 0 {
        PutAvl(t.right, k, c, cmp);
        RebalanceAvl(t.(right := Put(t.right, k, c, cmp)));
      }
    }
  }

  lemma {:induction false} PutOver<K, C>(t: Tree<K, C>, k: K, c: C, cmp: (K, K) -> int)
    requires Over(t)
    ensures Over(Put(t, k, c, cmp))
  {
    hide Rebalance;
    if t.Node? {
      PutOver(t.left, k, c, cmp);
      PutOver(t.right, k, c, cmp);
      if cmp(k, t.key) < 0 {
        RebalanceOver(t.(left := Put(t.left, k, c, cmp)));
      } else if cmp(k, t.key) > 0 {
        RebalanceOver(t.(right := Put(t.right, k, c, cmp)));
      }
    }
  }

  /** Insertion puts exactly the new entry in its place, or changes nothing
      but the shape. */
  lemma {:induction false} PutInorder<K(!new), C>(t: Tree<K, C>, k: K, c: C, cmp: (K, K) -> int)
    requires Ordering(cmp) && Sorted(Inorder(t), cmp)
    ensures Inorder(Put(t, k, c, cmp)) == Inserted(Inorder(t), k, c, cmp)
  {
    hide Ordering, Rebalance, Sorted, Inserted;
    if t.Leaf? {
      InsertedEmpty(k, c, cmp);
    } else {
      var x := (t.key, t.cell);
      JoinSorted(Inorder(t.left), x, Inorder(t.right), cmp);
      InsertedJoin(Inorder(t.left), x, Inorder(t.right), k, c, cmp);
      if cmp(k, t.key) < 0 {
        PutInorder(t.left, k, c, cmp);
        RebalanceInorder(t.(left := Put(t.left, k, c, cmp)));
      } else if cmp(k, t.key) > 0 {
        PutInorder(t.right, k, c, cmp);
        RebalanceInorder(t.(right := Put(t.right, k, c, cmp)));
      }
    }
  }

  lemma InsertedEmpty<K, C>(k: K, c: C, cmp: (K, K) -> int)
    ensures Inserted([], k, c, cmp) == [(k, c)]
  {
  }

  // ----- Deletion -----

  /** The in-order successor that `bbtreedel` looks for. */
  function Least<K, C>(t: Tree<K, C>): (m: Tree<K, C>)
    requires t.Node?
    ensures m.Node? && m.left.Leaf?
  {
    if t.left.Leaf? then t else Least(t.left)
  }

  /** The tree without its least cell; heights on the way stay as they were. */
  function Unlinked<K, C>(t: Tree<K, C>): Tree<K, C>
    requires t.Node?
  {
    if t.left.Leaf? then t.right else t.(left := Unlinked(t.left))
  }

  /** The subtree that replaces a node whose item is removed. */
  function Spliced<K, C>(t: Tree<K, C>): Tree<K, C>
    requires t.Node?
  {
    if t.left.Node? && t.right.Node? then
      var s := Least(t.right);
      Node(t.left, s.key, s.cell, s.h, Unlinked(t.right))
    else if t.left.Node? then t.left
    else t.right
  }

  function Settle<K, C>(t: Tree<K, C>): Tree<K, C> {
    if t.Leaf? then t else Rebalance(t)
  }

  /** `bbtreedel`. */
  function Del<K, C>(t: Tree<K, C>, k: K, cmp: (K, K) -> int): Tree<K, C> {
    if t.Leaf? then t
    else if cmp(k, t.key) < 0 then Settle(t.(left := Del(t.left, k, cmp)))
    else if cmp(k, t.key) > 0 then Settle(t.(right := Del(t.right, k, cmp)))
    else Settle(Spliced(t))
  }

  lemma {:induction false} UnlinkedInorder<K, C>(t: Tree<K, C>)
    requires t.Node?
    ensures [(Least(t).key, Least(t).cell)] + Inorder(Unlinked(t)) == Inorder(t)
  {
    var x := [(t.key, t.cell)];
    if t.left.Leaf? {
      Unit(x + Inorder(t.right));
    } else {
      UnlinkedInorder(t.left);
      Assoc([(Least(t).key, Least(t).cell)], Inorder(Unlinked(t.left)), x + Inorder(t.right));
    }
  }

  lemma SplicedInorder<K, C>(t: Tree<K, C>)
    requires t.Node?
    ensures Inorder(Spliced(t)) == Inorder(t.left) + Inorder(t.right)
  {
    if t.left.Node? && t.right.Node? {
      UnlinkedInorder(t.right);
    } else {
      Unit(Inorder(t.left));
      Unit(Inorder(t.right));
    }
  }

  lemma SettleInorder<K, C>(t: Tree<K, C>)
    ensures Inorder(Settle(t)) == Inorder(t)
  {
    if t.Node? {
      RebalanceInorder(t);
    }
  }

  /** Deletion removes exactly the equal entry, wherever the rotations and the
      successor splice put the others. */
  lemma {:induction false} DelInorder<K(!new), C>(t: Tree<K, C>, k: K, cmp: (K, K) -> int)
    requires Ordering(cmp) && Sorted(Inorder(t), cmp)
    ensures Inorder(Del(t, k, cmp)) == Deleted(Inorder(t), k, cmp)
  {
    hide Ordering, Settle, Sorted, Deleted, Spliced;
    if t.Leaf? {
      DeletedEmpty<K, C>(k, cmp);
    } else {
      var x := (t.key, t.cell);
      JoinSorted(Inorder(t.left), x, Inorder(t.right), cmp);
      DeletedJoin(Inorder(t.left), x, Inorder(t.right), k, cmp);
      if cmp(k, t.key) < 0 {
        DelInorder(t.left, k, cmp);
        SettleInorder(t.(left := Del(t.left, k, cmp)));
      } else if cmp(k, t.key) > 0 {
        DelInorder(t.right, k, cmp);
        SettleInorder(t.(right := Del(t.right, k, cmp)));
      } else {
        SplicedInorder(t);
        SettleInorder(Spliced(t));
      }
    }
  }

  lemma DeletedEmpty<K, C>(k: K, cmp: (K, K) -> int)
    ensures Deleted<K, C>([], k, cmp) == []
  {
  }

  lemma {:induction false} UnlinkedOver<K, C>(t: Tree<K, C>)
    requires t.Node? && Over(t)
    ensures Over(Unlinked(t)) && H(Unlinked(t)) <= H(t)
  {
    if t.left.Node? {
      UnlinkedOver(t.left);
    }
  }

  /** In every run of insertions and deletions the stored heights over-estimate. */
  lemma {:induction false} DelOver<K, C>(t: Tree<K, C>, k: K, cmp: (K, K) -> int)
    requires Over(t)
    ensures Over(Del(t, k, cmp))
  {
    hide Rebalance;
    if t.Node? {
      DelOver(t.left, k, cmp);
      DelOver(t.right, k, cmp);
      if t.right.Node? {
        UnlinkedOver(t.right);
      }
      var u := if cmp(k, t.key) < 0 then t.(left := Del(t.left, k, cmp))
        else if cmp(k, t.key) > 0 then t.(right := Del(t.right, k, cmp)) else Spliced(t);
      if u.Node? {
        RebalanceOver(u);
      }
    }
  }

  // ----- When deletion keeps balance -----

  /** The cell above the least one is evenly balanced, or there is none. */
  predicate EvenSpine<K, C>(t: Tree<K, C>)
    requires t.Node?
  {
    if t.left.Leaf? then true
    else if t.left.left.Leaf? then H(t.left) == H(t.right)
    else EvenSpine(t.left)
  }

  /** Deleting k splices in no successor, or one whose parent is even. */
  predicate Clean<K, C>(t: Tree<K, C>, k: K, cmp: (K, K) -> int) {
    t.Node? ==>
      if cmp(k, t.key) < 0 then Clean(t.left, k, cmp)
      else if cmp(k, t.key) > 0 then Clean(t.right, k, cmp)
      else t.left.Node? && t.right.Node? ==> EvenSpine(t.right)
  }

  lemma {:induction false} UnlinkedAvl<K, C>(t: Tree<K, C>)
    requires t.Node? && Avl(t)
    ensures Avl(Unlinked(t)) <==> EvenSpine(t)
    ensures !EvenSpine(t) ==> t.left.Node?
    ensures H(t) - 1 <= H(Unlinked(t)) <= H(t) && (t.left.Node? ==> H(Unlinked(t)) == H(t))
  {
    if t.left.Node? {
      UnlinkedAvl(t.left);
    }
  }

  /** A node that keeps both stored child heights in balance is not rotated. */
  lemma SettleStill<K, C>(t: Tree<K, C>)
    requires t.Node? && H(t.left) <= H(t.right) + 1 && H(t.right) <= H(t.left) + 1
    ensures Settle(t) == Mk(t.left, t.key, t.cell, t.right)
  {
  }

  lemma SettleAvl<K, C>(t: Tree<K, C>)
    requires t.Node? && Avl(t.left) && Avl(t.right)
    requires H(t.left) <= H(t.right) + 2 && H(t.right) <= H(t.left) + 2
    ensures var u := Settle(t);
      Avl(u) && Max(H(t.left), H(t.right)) <= H(u) <= Max(H(t.left), H(t.right)) + 1
  {
    hide Rebalance;
    RebalanceAvl(t);
  }

  lemma SettleAgain<K, C>(t: Tree<K, C>)
    requires Avl(t)
    ensures Settle(t) == t
  {
  }

  /** Deleting from a balanced tree gives a balanced tree exactly when it is
      clean; otherwise some stored height or balance is off and the stored
      height of the root shows nothing. */
  lemma {:induction false} DelAvl<K, C>(t: Tree<K, C>, k: K, cmp: (K, K) -> int)
    requires Avl(t)
    ensures Avl(Del(t, k, cmp)) <==> Clean(t, k, cmp)
    ensures H(Del(t, k, cmp)) <= H(t) <= H(Del(t, k, cmp)) + 1
    ensures !Clean(t, k, cmp) ==> H(Del(t, k, cmp)) == H(t)
  {
    hide Settle, Rebalance, Unlinked, EvenSpine;
    if t.Node? {
      if cmp(k, t.key) < 0 {
        DelAvl(t.left, k, cmp);
        DelAvlAt(t, t.(left := Del(t.left, k, cmp)), Clean(t.left, k, cmp));
      } else if cmp(k, t.key) > 0 {
        DelAvl(t.right, k, cmp);
        DelAvlAt(t, t.(right := Del(t.right, k, cmp)), Clean(t.right, k, cmp));
      } else if t.left.Node? && t.right.Node? {
        UnlinkedAvl(t.right);
        DelAvlAt(t, Spliced(t), EvenSpine(t.right));
      } else {
        SettleAgain(Spliced(t));
      }
    }
  }

  /** The way back up from a side that may have lost a level or its balance. */
  lemma DelAvlAt<K, C>(t: Tree<K, C>, u: Tree<K, C>, clean: bool)
    requires t.Node? && Avl(t) && u.Node?
    requires clean ==> Avl(u.left) && Avl(u.right)
    requires !clean ==> !(Avl(u.left) && Avl(u.right)) && H(u.left) == H(t.left) && H(u.right) == H(t.right)
    requires H(u.left) <= H(t.left) <= H(u.left) + 1 && H(u.right) <= H(t.right) <= H(u.right) + 1
    requires H(u.left) == H(t.left) || H(u.right) == H(t.right)
    ensures Avl(Settle(u)) <==> clean
    ensures H(Settle(u)) <= H(t) <= H(Settle(u)) + 1
    ensures !clean ==> H(Settle(u)) == H(t)
  {
    hide Rebalance;
    if clean {
      SettleAvl(u);
      if H(u.left) <= H(u.right) + 1 && H(u.right) <= H(u.left) + 1 {
        SettleStill(u);
      }
    } else {
      SettleStill(u);
    }
  }

  /** It can happen, with any four keys: deleting b from the balanced tree
      a < b < (c < d) puts c in its place and leaves d, which is a leaf then,
      at stored height 2. */
  lemma DelStale<K, C>(a: K, b: K, c: K, d: K, x: C, cmp: (K, K) -> int)
    requires cmp(b, b) == 0
    ensures var t := Node(Node(Leaf, a, x, 1, Leaf), b, x, 3, Node(Node(Leaf, c, x, 1, Leaf), d, x, 2, Leaf));
      var u := Del(t, b, cmp);
      && Avl(t) && !Avl(u)
      && u.Node? && u.key == c && u.right.Node? && u.right.key == d && u.right.h == 2 && Height(u.right) == 1
  {
    var s := Node(Leaf, c, x, 1, Leaf);
    var r := Node(s, d, x, 2, Leaf);
    var t := Node(Node(Leaf, a, x, 1, Leaf), b, x, 3, r);
    assert Avl(s) && Avl(r) && Avl(t.left);
    assert Least(r) == s && Unlinked(r) == Node(Leaf, d, x, 2, Leaf);
    assert Spliced(t) == Node(t.left, c, x, 1, Unlinked(r));
    DelAvl(t, b, cmp);
  }

  // ----- Lookup -----

  /** The cell `btreeget` finds. */
  function Get<K, C>(t: Tree<K, C>, k: K, cmp: (K, K) -> int): Tree<K, C> {
    if t.Leaf? then t
    else if cmp(k, t.key) < 0 then Get(t.left, k, cmp)
    else if cmp(k, t.key) > 0 then Get(t.right, k, cmp)
    else t
  }

  lemma {:induction false} GetInorder<K(!new), C>(t: Tree<K, C>, k: K, cmp: (K, K) -> int)
    requires Ordering(cmp) && Sorted(Inorder(t), cmp)
    ensures Get(t, k, cmp).Node? <==> Has(Inorder(t), k, cmp)
    ensures Get(t, k, cmp).Node? ==>
      var g := Get(t, k, cmp);
      cmp(k, g.key) == 0 && Inorder(t)[Place(Inorder(t), k, cmp)] == (g.key, g.cell)
  {
    hide Ordering, Sorted, Place;
    if t.Node? {
      var l, x, r := Inorder(t.left), (t.key, t.cell), Inorder(t.right);
      JoinSorted(l, x, r, cmp);
      PlaceJoin(l, x, r, k, cmp);
      HasJoin(l, x, r, k, cmp);
      GetInorder(t.left, k, cmp);
      GetInorder(t.right, k, cmp);
      assert Inorder(t) == Join(l, x, r);
      hide Join;
    }
  }

  // ----- The tree as a map -----

  datatype Found<C> = Missing | Cell(cell: C)

  function Lookup<K, C>(t: Tree<K, C>, k: K, cmp: (K, K) -> int): Found<C> {
    var g := Get(t, k, cmp);
    if g.Leaf? then Missing else Cell(g.cell)
  }

  function Seek<K, C>(s: seq<(K, C)>, k: K, cmp: (K, K) -> int): Found<C> {
    if Has(s, k, cmp) then Cell(s[Place(s, k, cmp)].1) else Missing
  }

  /** An entry equal to k anywhere in a sorted sequence is the one found. */
  lemma SeekAt<K(!new), C>(s: seq<(K, C)>, k: K, cmp: (K, K) -> int, i: nat)
    requires Ordering(cmp) && Sorted(s, cmp) && i < |s| && cmp(k, s[i].0) == 0
    ensures Seek(s, k, cmp) == Cell(s[i].1)
  {
    hide Ordering, Sorted, Place;
    HasMeans(s, k, cmp);
  }

  lemma SeekNone<K(!new), C>(s: seq<(K, C)>, k: K, cmp: (K, K) -> int)
    requires forall i :: 0 <= i < |s| ==> cmp(k, s[i].0) != 0
    ensures Seek(s, k, cmp) == Missing
  {
    hide Place;
  }

  lemma SeekInserted<K(!new), C>(s: seq<(K, C)>, k: K, c: C, cmp: (K, K) -> int, j: K)
    requires Ordering(cmp) && Sorted(s, cmp)
    ensures Seek(Inserted(s, k, c, cmp), j, cmp) ==
      if cmp(j, k) == 0 && !Has(s, k, cmp) then Cell(c) else Seek(s, j, cmp)
  {
    hide Ordering, Sorted, Place, Seek, InsertAt;
    var u, p := Inserted(s, k, c, cmp), Place(s, k, cmp);
    InsertedSorted(s, k, c, cmp);
    if !Has(s, k, cmp) {
      if cmp(j, k) == 0 {
        SeekAt(u, j, cmp, p);
      } else if i :| 0 <= i < |s| && cmp(j, s[i].0) == 0 {
        SeekAt(s, j, cmp, i);
        SeekAt(u, j, cmp, if i < p then i else i + 1);
      } else {
        SeekNone(s, j, cmp);
        forall i | 0 <= i < |u| ensures cmp(j, u[i].0) != 0 {
          if i > p { assert u[i] == s[i - 1]; }
        }
        SeekNone(u, j, cmp);
      }
    }
  }

  lemma SeekDeleted<K(!new), C>(s: seq<(K, C)>, k: K, cmp: (K, K) -> int, j: K)
    requires Ordering(cmp) && Sorted(s, cmp)
    ensures Seek(Deleted(s, k, cmp), j, cmp) == if cmp(j, k) == 0 then Missing else Seek(s, j, cmp)
  {
    hide Ordering, Sorted, Place, Seek, Without;
    var u, p := Deleted(s, k, cmp), Place(s, k, cmp);
    DeletedSorted(s, k, cmp);
    HasMeans(s, k, cmp);
    HasMeans(u, k, cmp);
    if cmp(j, k) == 0 {
      forall i | 0 <= i < |u| ensures cmp(j, u[i].0) != 0 {
        Flip(cmp, j, k);
        SameClass(cmp, k, j, u[i].0);
      }
      SeekNone(u, j, cmp);
    } else if i :| 0 <= i < |s| && cmp(j, s[i].0) == 0 {
      SeekAt(s, j, cmp, i);
      if Has(s, k, cmp) {
        if i == p {
          Flip(cmp, k, s[p].0);
          SameClass(cmp, j, s[p].0, k);
        }
        SeekAt(u, j, cmp, if i < p then i else i - 1);
      }
    } else {
      SeekNone(s, j, cmp);
      forall i | 0 <= i < |u| ensures cmp(j, u[i].0) != 0 {
        if Has(s, k, cmp) && i >= p { assert u[i] == s[i + 1]; }
      }
      SeekNone(u, j, cmp);
    }
  }

  lemma SameClass<K(!new)>(cmp: (K, K) -> int, a: K, b: K, c: K)
    requires Ordering(cmp) && cmp(a, b) == 0
    ensures cmp(b, c) == 0 ==> cmp(a, c) == 0
  {
    Flip(cmp, a, b);
    Flip(cmp, b, c);
    Flip(cmp, a, c);
    assert cmp(b, c) == 0 ==> cmp(a, c) <= 0 && cmp(c, a) <= 0;
  }

  lemma LookupSeeks<K(!new), C>(t: Tree<K, C>, k: K, cmp: (K, K) -> int)
    requires Ordering(cmp) && Sorted(Inorder(t), cmp)
    ensures Lookup(t, k, cmp) == Seek(Inorder(t), k, cmp)
  {
    hide Ordering, Sorted, Inorder, Place;
    GetInorder(t, k, cmp);
  }

  /** Insertion and deletion change the tree, seen as a map, at one key. */
  lemma PutLookup<K(!new), C>(t: Tree<K, C>, k: K, c: C, cmp: (K, K) -> int, j: K)
    requires Ordering(cmp) && Sorted(Inorder(t), cmp)
    ensures Sorted(Inorder(Put(t, k, c, cmp)), cmp)
    ensures Lookup(Put(t, k, c, cmp), j, cmp) ==
      if cmp(j, k) == 0 && Lookup(t, k, cmp) == Missing then Cell(c) else Lookup(t, j, cmp)
  {
    hide Ordering, Sorted, Inorder, Put, Lookup, Inserted;
    PutInorder(t, k, c, cmp);
    InsertedSorted(Inorder(t), k, c, cmp);
    LookupSeeks(Put(t, k, c, cmp), j, cmp);
    LookupSeeks(t, j, cmp);
    LookupSeeks(t, k, cmp);
    SeekInserted(Inorder(t), k, c, cmp, j);
  }

  lemma DelLookup<K(!new), C>(t: Tree<K, C>, k: K, cmp: (K, K) -> int, j: K)
    requires Ordering(cmp) && Sorted(Inorder(t), cmp)
    ensures Sorted(Inorder(Del(t, k, cmp)), cmp)
    ensures Lookup(Del(t, k, cmp), j, cmp) == if cmp(j, k) == 0 then Missing else Lookup(t, j, cmp)
  {
    hide Ordering, Sorted, Inorder, Del, Lookup, Deleted;
    DelInorder(t, k, cmp);
    DeletedSorted(Inorder(t), k, cmp);
    LookupSeeks(Del(t, k, cmp), j, cmp);
    LookupSeeks(t, j, cmp);
    SeekDeleted(Inorder(t), k, cmp, j);
  }
}
