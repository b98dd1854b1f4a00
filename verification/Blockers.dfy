// `struct blocker` of lib/mtio-epoll.c, and the laws of the doubly linked
// lists that run through it.
module Blockers {
  import opened Seqs

  /** A suspended coroutine, with the blockers `mblock` made for it on its
      stack (or the one of `block`). */
  class Muth {
    var bls: seq<Blocker>
  }

  /** What is waited for never changes; the links, flag and position do. */
  class Blocker {
    const th: Muth
    const fd: int
    const ev: int
    const to: int
    var n: Blocker?
    var p: Blocker?
    var n2: Blocker?
    var p2: Blocker?
    var reg: bool
    var thpos: int

    /** The initializers in `mblock` and `block`. */
    constructor (th: Muth, fd: int, ev: int, to: int)
      ensures this.th == th && this.fd == fd && this.ev == ev && this.to == to && p == null && !reg
    {
      this.th, this.fd, this.ev, this.to := th, fd, ev, to;
      n, p, n2, p2, reg, thpos := null, null, null, null, false, 0;
    }
  }

  ghost function At(o: seq<Blocker>, k: int): Blocker? {
    if 0 <= k < |o| then o[k] else null
  }

  lemma HeadWithout(o: seq<Blocker>, i: nat)
    requires i < |o| && Distinct(o)
    ensures o[i] == At(o, 0) <==> i == 0
    ensures At(Without(o, i), 0) == if i == 0 then At(o, 1) else At(o, 0)
  {
  }

  /** nx and pv are the forward and backward links of the list o. */
  ghost predicate Linked(o: seq<Blocker>, nx: seq<Blocker?>, pv: seq<Blocker?>) {
    && Distinct(o) && |nx| == |o| && |pv| == |o|
    && (forall k :: 0 <= k < |o| ==> nx[k] == At(o, k + 1))
    && (forall k :: 0 <= k < |o| ==> pv[k] == At(o, k - 1))
  }

  /** Bypassing entry i in both directions takes it out of the list. */
  lemma UnlinkLaw(o: seq<Blocker>, nx: seq<Blocker?>, pv: seq<Blocker?>, i: nat)
    requires Linked(o, nx, pv) && i < |o|
    ensures var nx1 := if i > 0 then nx[i - 1 := nx[i]] else nx;
            var pv1 := if i + 1 < |o| then pv[i + 1 := pv[i]] else pv;
      Linked(Without(o, i), Without(nx1, i), Without(pv1, i))
    ensures o[i] !in Without(o, i)
  {
    hide Without;
    var nx1 := if i > 0 then nx[i - 1 := nx[i]] else nx;
    var pv1 := if i + 1 < |o| then pv[i + 1 := pv[i]] else pv;
    var w, wn, wp := Without(o, i), Without(nx1, i), Without(pv1, i);
    forall k | 0 <= k < |w| ensures wn[k] == At(w, k + 1) && wp[k] == At(w, k - 1) && w[k] != o[i] {
      assert w[k] == o[if k < i then k else k + 1];
    }
    forall j, k | 0 <= j < k < |w| ensures w[j] != w[k] {
      assert w[j] == o[if j < i then j else j + 1] && w[k] == o[if k < i then k else k + 1];
    }
  }

  lemma FirstOnce(o: seq<Blocker>, nx: seq<Blocker?>, pv: seq<Blocker?>)
    requires Linked(o, nx, pv)
    ensures forall k :: 0 < k < |o| ==> o[k] != o[0]
  {
  }

  lemma PushLaw(o: seq<Blocker>, nx: seq<Blocker?>, pv: seq<Blocker?>, x: Blocker)
    requires Linked(o, nx, pv) && x !in o
    ensures Linked([x] + o, [At(o, 0)] + nx, [null] + if o == [] then [] else pv[0 := x])
  {
  }

  ghost function Nexts(o: seq<Blocker>): (s: seq<Blocker?>)
    reads o`n
    ensures |s| == |o| && forall k :: 0 <= k < |o| ==> s[k] == o[k].n
  {
    if o == [] then [] else [o[0].n] + Nexts(o[1..])
  }

  ghost function Prevs(o: seq<Blocker>): (s: seq<Blocker?>)
    reads o`p
    ensures |s| == |o| && forall k :: 0 <= k < |o| ==> s[k] == o[k].p
  {
    if o == [] then [] else [o[0].p] + Prevs(o[1..])
  }

  ghost function Nexts2(o: seq<Blocker>): (s: seq<Blocker?>)
    reads o`n2
    ensures |s| == |o| && forall k :: 0 <= k < |o| ==> s[k] == o[k].n2
  {
    if o == [] then [] else [o[0].n2] + Nexts2(o[1..])
  }

  ghost function Prevs2(o: seq<Blocker>): (s: seq<Blocker?>)
    reads o`p2
    ensures |s| == |o| && forall k :: 0 <= k < |o| ==> s[k] == o[k].p2
  {
    if o == [] then [] else [o[0].p2] + Prevs2(o[1..])
  }

  /** The global list, through n and p. */
  ghost predicate Chained(o: seq<Blocker>)
    reads o`n, o`p
  {
    Linked(o, Nexts(o), Prevs(o))
  }

  /** A descriptor's list, through n2 and p2. */
  ghost predicate Chained2(o: seq<Blocker>)
    reads o`n2, o`p2
  {
    Linked(o, Nexts2(o), Prevs2(o))
  }

  lemma LinksWithout(o: seq<Blocker>, i: nat)
    requires i < |o|
    ensures Nexts(Without(o, i)) == Without(Nexts(o), i) && Prevs(Without(o, i)) == Without(Prevs(o), i)
  {
    hide Without, Nexts, Prevs;
  }

  lemma LinksWithout2(o: seq<Blocker>, i: nat)
    requires i < |o|
    ensures Nexts2(Without(o, i)) == Without(Nexts2(o), i) && Prevs2(Without(o, i)) == Without(Prevs2(o), i)
  {
    hide Without, Nexts2, Prevs2;
  }

  lemma Neighbours(o: seq<Blocker>, i: nat)
    requires Chained(o) && i < |o|
    ensures Distinct(o) && o[i].n == At(o, i + 1) && o[i].p == At(o, i - 1)
  {
  }

  method SkipBack(bl: Blocker, ghost o: seq<Blocker>, ghost i: nat)
    requires Distinct(o) && i < |o| && o[i] == bl && bl.n == At(o, i + 1)
    modifies o`p
    ensures Prevs(o) == if i + 1 < |o| then old(Prevs(o))[i + 1 := old(bl.p)] else old(Prevs(o))
    ensures bl.p == old(bl.p)
  {
    if bl.n != null {
      bl.n.p := bl.p;
    }
  }

  method SkipOver(bl: Blocker, ghost o: seq<Blocker>, ghost i: nat)
    requires Distinct(o) && i < |o| && o[i] == bl && bl.p == At(o, i - 1)
    modifies o`n
    ensures Nexts(o) == if i > 0 then old(Nexts(o))[i - 1 := old(bl.n)] else old(Nexts(o))
    ensures bl.n == old(bl.n)
  {
    if bl.p != null {
      bl.p.n := bl.n;
    }
  }

  method Unlink(bl: Blocker, ghost o: seq<Blocker>, ghost i: nat)
    requires Chained(o) && i < |o| && o[i] == bl
    modifies o`n, o`p
    ensures Chained(Without(o, i)) && bl.n == At(o, i + 1) && bl.p == At(o, i - 1)
    ensures bl !in Without(o, i)
  {
    hide Without, Distinct, At, Linked, Nexts, Prevs;
    Neighbours(o, i);
    UnlinkLaw(o, Nexts(o), Prevs(o), i);
    SkipBack(bl, o, i);
    SkipOver(bl, o, i);
    LinksWithout(o, i);
  }

  lemma Neighbours2(o: seq<Blocker>, i: nat)
    requires Chained2(o) && i < |o|
    ensures Distinct(o) && o[i].n2 == At(o, i + 1) && o[i].p2 == At(o, i - 1)
  {
  }

  method SkipBack2(bl: Blocker, ghost o: seq<Blocker>, ghost i: nat)
    requires Distinct(o) && i < |o| && o[i] == bl && bl.n2 == At(o, i + 1)
    modifies o`p2
    ensures Prevs2(o) == if i + 1 < |o| then old(Prevs2(o))[i + 1 := old(bl.p2)] else old(Prevs2(o))
    ensures bl.p2 == old(bl.p2)
  {
    if bl.n2 != null {
      bl.n2.p2 := bl.p2;
    }
  }

  method SkipOver2(bl: Blocker, ghost o: seq<Blocker>, ghost i: nat)
    requires Distinct(o) && i < |o| && o[i] == bl && bl.p2 == At(o, i - 1)
    modifies o`n2
    ensures Nexts2(o) == if i > 0 then old(Nexts2(o))[i - 1 := old(bl.n2)] else old(Nexts2(o))
    ensures bl.n2 == old(bl.n2)
  {
    if bl.p2 != null {
      bl.p2.n2 := bl.n2;
    }
  }

  method Unlink2(bl: Blocker, ghost o: seq<Blocker>, ghost i: nat)
    requires Chained2(o) && i < |o| && o[i] == bl
    modifies o`n2, o`p2
    ensures Chained2(Without(o, i)) && bl.n2 == At(o, i + 1) && bl.p2 == At(o, i - 1)
    ensures bl !in Without(o, i)
  {
    hide Without, Distinct, At, Linked, Nexts2, Prevs2;
    Neighbours2(o, i);
    UnlinkLaw(o, Nexts2(o), Prevs2(o), i);
    SkipBack2(bl, o, i);
    SkipOver2(bl, o, i);
    LinksWithout2(o, i);
  }

  method Push(bl: Blocker, head: Blocker?, ghost o: seq<Blocker>)
    requires Chained(o) && bl !in o && head == At(o, 0) && bl.p == null
    modifies bl`n, o`p
    ensures Chained([bl] + o)
  {
    hide Linked, Distinct, Nexts, Prevs;
    FirstOnce(o, Nexts(o), Prevs(o));
    PushLaw(o, Nexts(o), Prevs(o), bl);
    ghost var nx, pv := Nexts(o), Prevs(o);
    bl.n := head;
    if head != null {
      head.p := bl;
    }
    assert Nexts([bl] + o) == [At(o, 0)] + nx;
    assert Prevs([bl] + o) == [null] + if o == [] then [] else pv[0 := bl];
  }

  method Push2(bl: Blocker, head: Blocker?, ghost o: seq<Blocker>)
    requires Chained2(o) && bl !in o && head == At(o, 0)
    modifies bl`n2, bl`p2, o`p2
    ensures Chained2([bl] + o)
  {
    hide Linked, Distinct, Nexts2, Prevs2;
    FirstOnce(o, Nexts2(o), Prevs2(o));
    PushLaw(o, Nexts2(o), Prevs2(o), bl);
    ghost var nx, pv := Nexts2(o), Prevs2(o);
    bl.n2 := head;
    bl.p2 := null;
    if head != null {
      head.p2 := bl;
    }
    assert Nexts2([bl] + o) == [At(o, 0)] + nx;
    assert Prevs2([bl] + o) == [null] + if o == [] then [] else pv[0 := bl];
  }
}
