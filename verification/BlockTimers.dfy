// The indexed heap of time-outs in lib/mtio-epoll.c: blockers ordered by
// their time, each knowing its own place (`thpos`).
module BlockTimers {
  import opened Blockers
  import opened HeapShape

  function Keys(b: seq<Blocker>): (t: seq<real>)
    ensures |t| == |b| && forall k :: 0 <= k < |b| ==> t[k] == b[k].to as real
  {
    seq(|b|, k requires 0 <= k < |b| => b[k].to as real)
  }

  /** Entry k is a member and points back at k, except at the vacant place n;
      no other entry is x. */
  ghost predicate Pointed(b: seq<Blocker>, s: set<Blocker>, n: int, x: Blocker?)
    reads s`thpos
  {
    forall k :: 0 <= k < |b| && k != n ==> b[k] != x && b[k] in s && b[k].thpos == k
  }

  /** Every member but x is found through its back-pointer. */
  ghost predicate Indexed(b: seq<Blocker>, s: set<Blocker>, n: int, x: Blocker?)
    reads s`thpos
  {
    forall o :: o in s && o != x ==> 0 <= o.thpos < |b| && o.thpos != n && b[o.thpos] == o
  }

  /** Cutting the last entry: it takes the place of the removed one. */
  lemma Cut(b: seq<Blocker>, s: set<Blocker>, bl: Blocker)
    requires Pointed(b, s, -1, null) && Indexed(b, s, -1, null) && bl in s
    ensures 0 <= bl.thpos < |b|
    ensures var c, n, r := b[..|b| - 1], bl.thpos, b[|b| - 1];
      if n < |c| then r in s && r != bl && Pointed(c, s - {bl}, n, r) && Indexed(c, s - {bl}, n, r)
      else Pointed(c, s - {bl}, -1, null) && Indexed(c, s - {bl}, -1, null)
  {
    var n := bl.thpos;
    assert b[n] == bl;
    forall o | o in s && o != bl ensures o.thpos != n && (o != b[|b| - 1] ==> o.thpos < |b| - 1) {
      assert b[o.thpos] == o;
    }
  }

  class Timers {
    var b: seq<Blocker>
    ghost var members: set<Blocker>

    ghost predicate Valid()
      reads this, members`thpos
    {
      Ordered(Keys(b)) && Pointed(b, members, -1, null) && Indexed(b, members, -1, null)
    }

    /** Place n is vacant and waits for bl, the one member not in place. */
    ghost predicate Vacant(n: nat, bl: Blocker)
      reads this, members`thpos
    {
      n < |b| && bl in members && Pointed(b, members, n, bl) && Indexed(b, members, n, bl)
    }

    constructor ()
      ensures Valid() && b == [] && members == {}
    {
      b, members := [], {};
    }

    /** Let entry p fill the vacant place n. */
    method Move(n: nat, p: nat, q: Blocker, ghost bl: Blocker)
      requires Vacant(n, bl) && p < |b| && n != p && q == b[p]
      modifies this`b, q`thpos
      ensures b == old(b)[n := old(b[p])] && Vacant(p, bl)
      ensures Keys(b[p := bl]) == Swap(Keys(old(b)[n := bl]), n, p)
    {
      ghost var was := b;
      b := b[n := q];
      q.thpos := n;
      assert forall k :: 0 <= k < |was| && k != n && k != p ==> was[k].thpos == old(was[k].thpos) by {
        assert old(was[p].thpos) == p;
      }
    }

    method Settle(n: nat, bl: Blocker)
      requires Vacant(n, bl) && Ordered(Keys(b[n := bl]))
      modifies this`b, bl`thpos
      ensures Valid()
    {
      hide Ordered;
      b := b[n := bl];
      bl.thpos := n;
    }

    lemma Member(p: nat, n: nat, bl: Blocker)
      requires Vacant(n, bl) && p < |b| && p != n
      ensures b[p] in members
    {
    }

    /** `thraise`: put bl at n or, past later times, nearer the root. */
    method ThRaise(bl: Blocker, n0: nat)
      requires Vacant(n0, bl) && MayRise(Keys(b[n0 := bl]), n0)
      modifies this`b, members`thpos
      ensures Valid()
    {
      hide Ordered, OrderedBut, MayRise, Pointed, Indexed;
      var n := n0;
      while n > 0
        invariant 0 <= n && Vacant(n, bl) && MayRise(Keys(b[n := bl]), n)
      {
        var p := (n - 1) / 2;
        if b[p].to <= bl.to {
          break;
        }
        RiseStep(Keys(b[n := bl]), n);
        Member(p, n, bl);
        Move(n, p, b[p], bl);
        n := p;
      }
      RiseDone(Keys(b[n := bl]), n);
      Settle(n, bl);
    }

    /** `thlower`: put bl at n or, past times no later, further from the root. */
    method ThLower(bl: Blocker, n0: nat)
      requires Vacant(n0, bl) && MaySink(Keys(b[n0 := bl]), n0)
      modifies this`b, members`thpos
      ensures Valid()
    {
      hide Ordered, OrderedBut, MaySink, Pointed, Indexed;
      var n := n0;
      while true
        invariant 0 <= n && Vacant(n, bl) && MaySink(Keys(b[n := bl]), n)
        decreases |b| - n
      {
        var c := 2 * n + 1;
        if c >= |b| {
          break;
        }
        if c + 1 < |b| && b[c + 1].to < b[c].to {
          c := c + 1;
        }
        if b[c].to > bl.to {
          break;
        }
        SinkStep(Keys(b[n := bl]), n, c);
        Member(c, n, bl);
        Move(n, c, b[c], bl);
        n := c;
      }
      SinkDone(Keys(b[n := bl]), n);
      Settle(n, bl);
    }

    /** `addtimeout`. */
    method AddTimeout(bl: Blocker)
      requires Valid() && bl !in members
      modifies this, members`thpos, bl`thpos
      ensures Valid() && members == old(members) + {bl}
    {
      hide Ordered, OrderedBut, MayRise;
      HeapShape.Push(Keys(b), bl.to as real);
      assert Keys(b + [bl]) == Keys(b) + [bl.to as real];
      b, members := b + [bl], members + {bl};
      assert b[|b| - 1 := bl] == b;
      ThRaise(bl, |b| - 1);
    }

    /** Drop the last entry r, leaving bl's place n to it. */
    method DropLast(bl: Blocker) returns (n: nat, r: Blocker)
      requires Valid() && bl in members
      modifies this
      ensures members == old(members) - {bl} && Ordered(Keys(b))
      ensures if n < |b| then Vacant(n, r) else Valid()
    {
      hide Ordered, Pointed, Indexed;
      Cut(b, members, bl);
      Prefix(Keys(b), |b| - 1);
      assert Keys(b[..|b| - 1]) == Keys(b)[..|b| - 1];
      n, r := bl.thpos, b[|b| - 1];
      b, members := b[..|b| - 1], members - {bl};
    }

    /** `deltimeout`: the last entry takes the place of the removed one. */
    method DelTimeout(bl: Blocker)
      requires Valid() && bl in members
      modifies this, members`thpos
      ensures Valid() && members == old(members) - {bl}
    {
      hide Ordered, OrderedBut, MaySink, MayRise, Pointed, Indexed;
      var n, r := DropLast(bl);
      if n >= |b| {
        return;
      }
      Rekey(Keys(b), n, r.to as real);
      assert Keys(b[n := r]) == Keys(b)[n := r.to as real];
      if n > 0 && b[(n - 1) / 2].to > r.to {
        ThRaise(r, n);
      } else {
        ThLower(r, n);
      }
    }

    /** The root is due first. */
    lemma Earliest(o: Blocker)
      requires Valid() && o in members
      ensures b != [] && b[0] in members && b[0].to <= o.to
    {
      RootLeast(Keys(b), o.thpos);
    }
  }
}
