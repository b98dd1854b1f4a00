// The indexed heap of src/ratequeue.c: wake-up times with back-pointers
// (`thpos`) from the buckets.
module TimeHeap {
  import opened Buckets
  import opened HeapShape

  datatype BTime = BTime(bk: Bucket, tm: real)

  function Keys(b: seq<BTime>): (t: seq<real>)
    ensures |t| == |b| && forall k :: 0 <= k < |b| ==> t[k] == b[k].tm
  {
    seq(|b|, k requires 0 <= k < |b| => b[k].tm)
  }

  /** Entry k carries its bucket's key and the bucket points back at k, except
      at the vacant place n; no other entry is x's. */
  ghost predicate Pointed(b: seq<BTime>, m: map<Bucket, real>, n: int, x: Bucket?)
    reads m.Keys`thpos
  {
    forall k :: 0 <= k < |b| && k != n ==>
      b[k].bk != x && b[k].bk in m && m[b[k].bk] == b[k].tm && b[k].bk.thpos == k
  }

  /** Every bucket of m but x is found through its back-pointer. */
  ghost predicate Indexed(b: seq<BTime>, m: map<Bucket, real>, n: int, x: Bucket?)
    reads m.Keys`thpos
  {
    forall o :: o in m && o != x ==> 0 <= o.thpos < |b| && o.thpos != n && b[o.thpos].bk == o
  }

  /** Cutting the last entry: it takes the place of the removed bucket. */
  lemma CutPointed(b: seq<BTime>, m: map<Bucket, real>, bk: Bucket)
    requires Pointed(b, m, -1, null) && Indexed(b, m, -1, null) && bk in m
    ensures var c, n, r := b[..|b| - 1], bk.thpos, b[|b| - 1];
      if n < |c| then Pointed(c, m - {bk}, n, r.bk) else Pointed(c, m - {bk}, -1, null)
  {
  }

  lemma CutIndexed(b: seq<BTime>, m: map<Bucket, real>, bk: Bucket)
    requires Pointed(b, m, -1, null) && Indexed(b, m, -1, null) && bk in m
    ensures var c, n, r := b[..|b| - 1], bk.thpos, b[|b| - 1];
      if n < |c| then Indexed(c, m - {bk}, n, r.bk) else Indexed(c, m - {bk}, -1, null)
  {
    var n := bk.thpos;
    assert b[n].bk == bk;
    forall o | o in m && o != bk ensures o.thpos != n && (o != b[|b| - 1].bk ==> o.thpos < |b| - 1) {
      assert b[o.thpos].bk == o;
    }
  }

  lemma CutLast(b: seq<BTime>, m: map<Bucket, real>, bk: Bucket)
    requires Pointed(b, m, -1, null) && Indexed(b, m, -1, null) && bk in m
    ensures 0 <= bk.thpos < |b|
    ensures var r := b[|b| - 1];
      bk.thpos < |b| - 1 ==> r.bk in m && r.bk != bk && m[r.bk] == r.tm
  {
  }

  class WakeHeap {
    var b: seq<BTime>
    ghost var keys: map<Bucket, real>  // the wake-up time of each bucket

    ghost predicate Valid()
      reads this, keys.Keys`thpos
    {
      Ordered(Keys(b)) && Pointed(b, keys, -1, null) && Indexed(b, keys, -1, null)
    }

    /** Place n is vacant and waits for bt, the one bucket not in place. */
    ghost predicate Vacant(n: nat, bt: BTime)
      reads this, keys.Keys`thpos
    {
      && n < |b| && bt.bk in keys && keys[bt.bk] == bt.tm
      && Pointed(b, keys, n, bt.bk) && Indexed(b, keys, n, bt.bk)
    }

    constructor ()
      ensures Valid() && b == [] && keys == map[]
    {
      b, keys := [], map[];
    }

    /** Let entry p fill the vacant place n. */
    method Move(n: nat, p: nat, ghost bt: BTime)
      requires Vacant(n, bt) && p < |b| && n != p
      modifies this`b, b[p].bk`thpos
      ensures b == old(b)[n := old(b[p])] && Vacant(p, bt)
      ensures Keys(b[p := bt]) == Swap(Keys(old(b)[n := bt]), n, p)
    {
      ghost var was := b;
      b := b[n := b[p]];
      b[n].bk.thpos := n;
      assert forall k :: 0 <= k < |was| && k != n && k != p ==> was[k].bk.thpos == old(was[k].bk.thpos) by {
        assert old(was[p].bk.thpos) == p;
      }
    }

    method Settle(n: nat, bt: BTime)
      requires Vacant(n, bt) && Ordered(Keys(b[n := bt]))
      modifies this`b, bt.bk`thpos
      ensures Valid()
    {
      hide Ordered;
      b := b[n := bt];
      b[n].bk.thpos := n;
    }

    /** Put bt at n or, past larger keys, nearer the root. */
    method ThRaise(bt: BTime, n0: nat)
      requires Vacant(n0, bt) && MayRise(Keys(b[n0 := bt]), n0)
      modifies this`b, keys.Keys`thpos
      ensures Valid()
    {
      hide Ordered, OrderedBut, MayRise, Pointed, Indexed;
      var n := n0;
      while n > 0
        invariant 0 <= n && Vacant(n, bt) && MayRise(Keys(b[n := bt]), n)
      {
        var p := (n - 1) / 2;
        if b[p].tm <= bt.tm {
          break;
        }
        RiseStep(Keys(b[n := bt]), n);
        Member(p, n, bt);
        Move(n, p, bt);
        n := p;
      }
      RiseDone(Keys(b[n := bt]), n);
      Settle(n, bt);
    }

    lemma Member(p: nat, n: nat, bt: BTime)
      requires Vacant(n, bt) && p < |b| && p != n
      ensures b[p].bk in keys
    {
    }

    /** Put bt at n or, past keys no larger, further from the root. */
    method ThLower(bt: BTime, n0: nat)
      requires Vacant(n0, bt) && MaySink(Keys(b[n0 := bt]), n0)
      modifies this`b, keys.Keys`thpos
      ensures Valid()
    {
      hide Ordered, OrderedBut, MaySink, Pointed, Indexed;
      var n := n0;
      while true
        invariant 0 <= n && Vacant(n, bt) && MaySink(Keys(b[n := bt]), n)
        decreases |b| - n
      {
        var c1 := 2 * n + 1;
        var c2 := c1 + 1;
        if c1 >= |b| {
          break;
        }
        var c := if c2 < |b| && b[c2].tm < b[c1].tm then c2 else c1;
        if b[c].tm > bt.tm {
          break;
        }
        SinkStep(Keys(b[n := bt]), n, c);
        Member(c, n, bt);
        Move(n, c, bt);
        n := c;
      }
      SinkDone(Keys(b[n := bt]), n);
      Settle(n, bt);
    }

    /** Replace entry n of an ordered heap. */
    method ThAdjust(bt: BTime, n: nat)
      requires Vacant(n, bt) && Ordered(Keys(b))
      modifies this`b, keys.Keys`thpos
      ensures Valid()
    {
      hide Ordered, OrderedBut, MaySink, MayRise, Pointed, Indexed;
      Rekey(Keys(b), n, bt.tm);
      assert Keys(b[n := bt]) == Keys(b)[n := bt.tm];
      if n > 0 && b[(n - 1) / 2].tm > bt.tm {
        ThRaise(bt, n);
      } else {
        ThLower(bt, n);
      }
    }

    /** A bucket's first key (`updbtime`, thpos < 0). */
    method Push(bk: Bucket, tm: real)
      requires Valid() && bk !in keys
      modifies this, keys.Keys`thpos, bk`thpos
      ensures Valid() && keys == old(keys)[bk := tm]
    {
      hide Ordered, OrderedBut, MayRise;
      HeapShape.Push(Keys(b), tm);
      assert Keys(b + [BTime(bk, tm)]) == Keys(b) + [tm];
      b, keys := b + [BTime(bk, tm)], keys[bk := tm];
      assert b[|b| - 1 := BTime(bk, tm)] == b;
      ThRaise(BTime(bk, tm), |b| - 1);
    }

    /** A new key for a bucket already in the heap (`updbtime`, thpos >= 0). */
    method ReKey(bk: Bucket, tm: real)
      requires Valid() && bk in keys
      modifies this, keys.Keys`thpos
      ensures Valid() && keys == old(keys)[bk := tm]
    {
      hide Ordered;
      keys := keys[bk := tm];
      ThAdjust(BTime(bk, tm), bk.thpos);
    }

    /** Drop the last entry r, leaving bk's place n to it. */
    method DropLast(bk: Bucket) returns (n: nat, r: BTime)
      requires Valid() && bk in keys
      modifies this
      ensures keys == old(keys) - {bk} && Ordered(Keys(b))
      ensures if n < |b| then Vacant(n, r) else Valid()
    {
      hide Ordered, Pointed, Indexed;
      CutLast(b, keys, bk);
      CutPointed(b, keys, bk);
      CutIndexed(b, keys, bk);
      n := bk.thpos;
      r := b[|b| - 1];
      Prefix(Keys(b), |b| - 1);
      assert Keys(b[..|b| - 1]) == Keys(b)[..|b| - 1];
      b, keys := b[..|b| - 1], keys - {bk};
    }

    /** Take a bucket out, filling its place from the end (`freebucket`). */
    method Remove(bk: Bucket)
      requires Valid() && bk in keys
      modifies this, keys.Keys`thpos
      ensures Valid() && keys == old(keys) - {bk}
    {
      hide Ordered, Pointed, Indexed;
      var n, r := DropLast(bk);
      if n < |b| {
        ThAdjust(r, n);
      }
    }

    lemma RootKept()
      requires Valid() && b != []
      ensures b[0].bk in keys
    {
    }

    lemma Placed(o: Bucket)
      requires Valid() && o in keys
      ensures 0 <= o.thpos < |b| && b[o.thpos] == BTime(o, keys[o])
    {
    }

    /** The root is due first. */
    lemma Earliest(o: Bucket)
      requires Valid() && o in keys
      ensures b != [] && b[0].bk in keys && keys[b[0].bk] == b[0].tm <= keys[o]
    {
      RootLeast(Keys(b), o.thpos);
    }
  }
}
