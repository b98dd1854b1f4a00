// The event loop's books in lib/mtio-epoll.c: the list of all blockers, the
// descriptor lists with the kernel's masks, and the heap of time-outs all
// describe one set of blockers.
module EventLoop {
  import opened Blockers
  import opened BlockTimers
  import opened FdLists
  import opened Seqs

  ghost function Set(o: seq<Blocker>): set<Blocker> {
    set b | b in o
  }

  ghost function Timed(s: set<Blocker>): set<Blocker> {
    set b | b in s && b.to > 0
  }

  ghost function Fds(s: set<Blocker>): set<Blocker> {
    set b | b in s && b.fd >= 0
  }

  /** The union over fd's list is the union over all blockers for fd. */
  lemma UnionMeans(m: Mask, l: seq<Blocker>, all: seq<Blocker>, fd: int)
    requires Union(m, l)
    requires forall k :: 0 <= k < |all| && all[k].fd == fd ==> all[k] in l
    requires forall k :: 0 <= k < |l| ==> l[k] in all && l[k].fd == fd
    ensures m.input <==> exists k :: 0 <= k < |all| && all[k].fd == fd && Reads(all[k].ev)
    ensures m.output <==> exists k :: 0 <= k < |all| && all[k].fd == fd && Writes(all[k].ev)
  {
    hide Reads, Writes;
  }

  lemma Rest(all: seq<Blocker>, i: nat)
    requires i < |all| && Distinct(all)
    ensures forall b :: b in Without(all, i) <==> b in all && b != all[i]
  {
    hide Without;
    var bl, w := all[i], Without(all, i);
    forall b | b in all && b != bl ensures b in w {
      var k :| 0 <= k < |all| && all[k] == b;
      assert w[if k < i then k else k - 1] == b;
    }
    forall b | b in w ensures b in all && b != bl {
      var k :| 0 <= k < |w| && w[k] == b;
      assert all[if k < i then k else k + 1] == b;
    }
  }

  // ----- Coroutines that leave -----

  /** A list without the blockers of s. */
  ghost function Minus(o: seq<Blocker>, s: set<Blocker>): seq<Blocker> {
    if o == [] then [] else (if o[0] in s then [] else [o[0]]) + Minus(o[1..], s)
  }

  lemma {:induction false} MinusIn(o: seq<Blocker>, s: set<Blocker>)
    ensures forall i :: 0 <= i < |Minus(o, s)| ==> Minus(o, s)[i] in o && Minus(o, s)[i] !in s
    ensures forall i :: 0 <= i < |o| && o[i] !in s ==> o[i] in Minus(o, s)
    ensures Set(Minus(o, s)) == Set(o) - s && |Minus(o, s)| <= |o|
  {
    if o != [] {
      MinusIn(o[1..], s);
      assert o == [o[0]] + o[1..];
    }
  }

  lemma {:induction false} MinusNone(o: seq<Blocker>)
    ensures Minus(o, {}) == o
  {
    if o != [] {
      MinusNone(o[1..]);
    }
  }

  lemma {:induction false} MinusSplit(o: seq<Blocker>, k: nat, s: set<Blocker>)
    requires k <= |o|
    ensures Minus(o, s) == Minus(o[..k], s) + Minus(o[k..], s)
  {
    if k == 0 {
      Unit(Minus(o, s));
      assert o[0..] == o && o[..0] == [];
    } else {
      MinusSplit(o[1..], k - 1, s);
      TailSplit(o, k);
      Assoc(if o[0] in s then [] else [o[0]], Minus(o[1..][..k - 1], s), Minus(o[k..], s));
    }
  }

  lemma {:induction false} MinusGone(o: seq<Blocker>, s: set<Blocker>, b: Blocker)
    requires Distinct(o) && b in o && b !in s
    ensures Gone(Minus(o, s), b) == Minus(o, s + {b})
  {
    assert o == [o[0]] + o[1..];
    if o[0] == b {
      assert b !in o[1..];
      MinusMore(o[1..], s, b);
      assert Minus(o, s)[1..] == Minus(o[1..], s);
      Unit(Minus(o[1..], s));
    } else {
      MinusGone(o[1..], s, b);
      if o[0] in s {
        Unit(Minus(o[1..], s));
        Unit(Minus(o[1..], s + {b}));
      } else {
        assert Minus(o, s)[1..] == Minus(o[1..], s);
      }
    }
  }

  lemma {:induction false} MinusMore(o: seq<Blocker>, s: set<Blocker>, b: Blocker)
    requires b !in o
    ensures Minus(o, s + {b}) == Minus(o, s)
  {
    if o != [] {
      MinusMore(o[1..], s, b);
    }
  }

  /** All blockers of b's coroutine are listed. */
  ghost predicate Mates(b: Blocker, o: seq<Blocker>)
    reads b.th`bls
  {
    && Distinct(b.th.bls) && b in b.th.bls
    && forall j :: 0 <= j < |b.th.bls| ==> b.th.bls[j] in o && b.th.bls[j].th == b.th
  }

  /** Each coroutine's blockers are all listed, or none. */
  ghost predicate Grouped(o: seq<Blocker>)
    reads set b | b in o :: b.th`bls
  {
    forall i :: 0 <= i < |o| ==> Mates(o[i], o)
  }

  /** So it is after a coroutine has added its blockers ... */
  lemma GroupedMore(was: seq<Blocker>, th: Muth)
    requires Grouped(was) && Distinct(th.bls)
    requires forall j :: 0 <= j < |th.bls| ==> th.bls[j].th == th
    ensures Grouped(Back(th.bls) + was)
  {
    hide Distinct;
    BackIn(th.bls);
    var o := Back(th.bls) + was;
    forall i | 0 <= i < |o| ensures Mates(o[i], o) {
      if i < |Back(th.bls)| {
        assert o[i] == Back(th.bls)[i];
      } else {
        assert o[i] == was[i - |Back(th.bls)|];
      }
    }
  }

  lemma {:induction false} BackIn(o: seq<Blocker>)
    ensures forall i :: 0 <= i < |Back(o)| ==> Back(o)[i] in o
    ensures forall i :: 0 <= i < |o| ==> o[i] in Back(o)
  {
    if o != [] {
      BackIn(o[..|o| - 1]);
      assert o == o[..|o| - 1] + [o[|o| - 1]];
    }
  }

  /** ... and after one has removed them; the others' stay listed. */
  lemma GroupedLess(o: seq<Blocker>, bl: Blocker)
    requires Grouped(o) && bl in o
    ensures Grouped(Minus(o, Set(bl.th.bls)))
  {
    hide Distinct, Minus, Set;
    var w := Minus(o, Set(bl.th.bls));
    MinusIn(o, Set(bl.th.bls));
    forall i | 0 <= i < |w| ensures Mates(w[i], w) {
      var b := w[i];
      assert Mates(b, o);
      forall j | 0 <= j < |b.th.bls| ensures b.th.bls[j] in w {
        Apart(o, bl, b.th.bls[j]);
        Apart(o, bl, b);
      }
    }
  }

  /** A listed blocker belongs to a coroutine exactly if that made it. */
  lemma Apart(o: seq<Blocker>, bl: Blocker, b: Blocker)
    requires Grouped(o) && bl in o && b in o
    ensures b in Set(bl.th.bls) <==> b.th == bl.th
    ensures Distinct(bl.th.bls) && Set(bl.th.bls) <= Set(o)
  {
    assert Mates(bl, o) && Mates(b, o);
  }

  /** A coroutine waiting for two descriptors, neither yet registered: if the
      kernel refuses the first in the list, the second, saved as the next, is
      gone too. */
  lemma NextGone(b0: Blocker, b1: Blocker)
    requires b0 != b1 && b0.th == b1.th && b0.th.bls == [b0, b1]
    ensures Back(b0.th.bls) == [b1, b0] && Grouped([b1, b0])
    ensures Minus([b1, b0], Set(b1.th.bls)) == []
  {
    assert [b0, b1][..1] == [b0] && [b0][..0] == [];
    assert Back([b0, b1]) == [b1] + Back([b0]) && Back([b0]) == [b0] + Back([]);
    forall i | 0 <= i < 2 ensures Mates([b1, b0][i], [b1, b0]) {
    }
    assert [b1, b0][1..] == [b0];
    assert b1 in Set(b1.th.bls) && b0 in Set(b1.th.bls);
    assert Minus([b0], Set(b1.th.bls)) == [];
  }

  lemma NoneChained()
    ensures Chained([])
  {
  }

  /** The other way round. */
  ghost function Back(o: seq<Blocker>): seq<Blocker> {
    if o == [] then [] else [o[|o| - 1]] + Back(o[..|o| - 1])
  }

  lemma BackNone(was: seq<Blocker>)
    ensures Back([]) + was == was
  {
  }

  class Loop {
    const fds: FdTable
    const timers: Timers
    var blockers: Blocker?
    var open: bool              // whether there is an `epfd`
    ghost var all: seq<Blocker>

    ghost predicate ListOk()
      reads this`all, this`blockers, all`n, all`p
    {
      Chained(all) && blockers == At(all, 0)
    }

    /** Some blockers of s, all with a descriptor, are registered and flagged. */
    ghost predicate FdsOk(s: set<Blocker>)
      reads fds, fds.ep`masks, fds.regs`n2, fds.regs`p2, fds.regs`reg, s`reg
    {
      && fds.Valid()
      && fds.regs <= Fds(s)
      && (forall b :: b in s ==> (b.reg <==> b in fds.regs))
    }

    ghost predicate TimersOk(s: set<Blocker>)
      reads timers, timers.members`thpos
    {
      timers.Valid() && timers.members == Timed(s)
    }

    /** The books agree. */
    ghost predicate Sound()
      reads this`all, this`blockers, all`n, all`p, all`reg
      reads fds, fds.ep`masks, fds.regs`n2, fds.regs`p2, fds.regs`reg
      reads timers, timers.members`thpos
    {
      ListOk() && FdsOk(Set(all)) && TimersOk(Set(all))
    }

    /** ... and every blocker with a descriptor is registered while the loop
        is open, and none while it is not. */
    ghost predicate Valid()
      reads this`all, this`blockers, this`open, all`n, all`p, all`reg
      reads fds, fds.ep`masks, fds.regs`n2, fds.regs`p2, fds.regs`reg
      reads timers, timers.members`thpos
    {
      Sound() && fds.regs == if open then Fds(Set(all)) else {}
    }

    constructor (ep: Epoll)
      requires ep.masks == map[]
      ensures Valid() && all == [] && !open && fds.ep == ep && fresh(fds) && fresh(timers)
    {
      hide FdTable.Valid, Timers.Valid, Chained, OnList;
      fds := new FdTable(ep);
      timers := new Timers();
      blockers, open, all := null, false, [];
      new;
      NoneChained();
    }

    lemma SetPush(bl: Blocker)
      ensures Set([bl] + all) == Set(all) + {bl}
      ensures Fds(Set(all) + {bl}) == Fds(Set(all)) + if bl.fd >= 0 then {bl} else {}
      ensures Timed(Set(all) + {bl}) == Timed(Set(all)) + if bl.to > 0 then {bl} else {}
    {
    }

    /** The first step of `addblock`. */
    method Register(bl: Blocker, ghost s: set<Blocker>) returns (ret: int)
      requires FdsOk(s) && bl !in s && !bl.reg
      modifies fds, fds.ep, fds.regs`p2, bl`n2, bl`p2, bl`reg
      ensures ret == 0 || ret == -1
      ensures if ret == 0 then FdsOk(s + {bl}) else FdsOk(s)
      ensures ret == -1 ==> open && bl.fd >= 0 && (fds.stale || fds.ep.refusals > old(fds.ep.refusals))
      ensures fds.regs == if ret == 0 && open && bl.fd >= 0 then old(fds.regs) + {bl} else old(fds.regs)
      ensures fds.stale == old(fds.stale)
    {
      hide FdTable.Valid, OnList;
      ret := 0;
      if open {
        ret := fds.RegFd(bl);
      }
    }

    /** The global list's part of `addblock`. */
    method Enlist(bl: Blocker)
      requires ListOk() && bl !in all && bl.p == null
      modifies this`blockers, this`all, bl`n, all`p
      ensures ListOk() && all == [bl] + old(all)
    {
      hide Chained;
      Blockers.Push(bl, blockers, all);
      blockers := bl;
      all := [bl] + all;
    }

    method StartTimer(bl: Blocker, ghost s: set<Blocker>)
      requires TimersOk(s) && bl !in s
      modifies timers, timers.members`thpos, bl`thpos
      ensures TimersOk(s + {bl})
    {
      hide Timers.Valid;
      if bl.to > 0 {
        timers.AddTimeout(bl);
      }
    }

    /** `addblock`: on every list it belongs to, or on none. */
    method AddBlock(bl: Blocker) returns (ret: int)
      requires Sound() && bl !in all && bl.p == null && !bl.reg
      modifies this`blockers, this`all, fds, fds.ep, timers
      modifies fds.regs`p2, all`p, timers.members`thpos, bl
      ensures Sound() && (old(Valid()) ==> Valid())
      ensures ret == 0 || ret == -1
      ensures all == if ret == 0 then [bl] + old(all) else old(all)
      ensures ret == -1 ==> open && bl.fd >= 0 && (fds.stale || fds.ep.refusals > old(fds.ep.refusals))
      ensures fds.regs == if ret == 0 && open && bl.fd >= 0 then old(fds.regs) + {bl} else old(fds.regs)
      ensures fds.stale == old(fds.stale)
    {
      hide ListOk, FdsOk, TimersOk, Fds, Timed;
      ghost var s := Set(all);
      SetPush(bl);
      ret := Register(bl, s);
      if ret != 0 {
        return;
      }
      Enlist(bl);
      StartTimer(bl, s);
    }
  
    lemma SetWithout(i: nat)
      requires i < |all| && Distinct(all)
      ensures Set(Without(all, i)) == Set(all) - {all[i]} && Gone(all, all[i]) == Without(all, i)
      ensures Fds(Set(all) - {all[i]}) == Fds(Set(all)) - {all[i]}
      ensures Timed(Set(all) - {all[i]}) == Timed(Set(all)) - {all[i]}
    {
      hide Without, Gone;
      GoneAt(all, i);
      Rest(all, i);
    }

    lemma ListDistinct()
      requires ListOk()
      ensures Distinct(all)
    {
    }

    method StopTimer(bl: Blocker, ghost s: set<Blocker>)
      requires TimersOk(s) && bl in s
      modifies timers, timers.members`thpos
      ensures TimersOk(s - {bl})
    {
      hide Timers.Valid;
      if bl.to > 0 {
        timers.DelTimeout(bl);
      }
    }

    /** The global list's part of `remblock`. */
    method Delist(bl: Blocker, ghost i: nat)
      requires ListOk() && i < |all| && all[i] == bl
      modifies this`blockers, this`all, all`n, all`p
      ensures ListOk() && all == Without(old(all), i)
    {
      hide Chained, Without, At, Distinct;
      ListDistinct();
      HeadWithout(all, i);
      Unlink(bl, all, i);
      if blockers == bl {
        blockers := bl.n;
      }
      all := Without(all, i);
    }

    method Unregister(bl: Blocker, ghost s: set<Blocker>)
      requires FdsOk(s) && bl in s
      modifies fds, fds.ep, fds.regs`n2, fds.regs`p2, bl`reg
      ensures FdsOk(s - {bl}) && FdsOk(s) && fds.regs == old(fds.regs) - {bl}
      ensures fds.stale ==> old(fds.stale) || fds.ep.refusals > old(fds.ep.refusals)
      ensures old(fds.stale) ==> fds.stale
      ensures fds.ep.refusals >= old(fds.ep.refusals)
    {
      hide FdTable.Valid, OnList;
      fds.RemFd(bl);
    }

    /** `remblock`: off every list it is on. */
    method RemBlock(bl: Blocker)
      requires Sound() && bl in all
      modifies this`blockers, this`all, fds, fds.ep, timers
      modifies fds.regs`n2, fds.regs`p2, all`n, all`p, timers.members`thpos, bl`reg
      ensures Sound() && (old(Valid()) ==> Valid())
      ensures all == Gone(old(all), bl) && fds.regs == old(fds.regs) - {bl}
      ensures fds.stale ==> old(fds.stale) || fds.ep.refusals > old(fds.ep.refusals)
      ensures old(fds.stale) ==> fds.stale
      ensures fds.ep.refusals >= old(fds.ep.refusals)
    {
      hide ListOk, FdsOk, TimersOk, Fds, Timed, Without, Gone, Distinct;
      ListDistinct();
      ghost var s := Set(all);
      ghost var i :| 0 <= i < |all| && all[i] == bl;
      SetWithout(i);
      StopTimer(bl, s);
      Delist(bl, i);
      Unregister(bl, s);
    }
  
    /** Register a blocker that is already listed. */
    method RegisterListed(bl: Blocker, ghost s: set<Blocker>) returns (ret: int)
      requires FdsOk(s) && bl in s && bl !in fds.regs
      modifies fds, fds.ep, fds.regs`p2, bl`n2, bl`p2, bl`reg
      ensures FdsOk(s)
      ensures fds.regs == if ret == 0 && bl.fd >= 0 then old(fds.regs) + {bl} else old(fds.regs)
      ensures ret != 0 ==> fds.stale || fds.ep.refusals > old(fds.ep.refusals)
      ensures fds.stale == old(fds.stale) && fds.ep.refusals >= old(fds.ep.refusals)
    {
      hide FdTable.Valid, OnList;
      ret := fds.RegFd(bl);
    }

    lemma NextIs(k: nat)
      requires ListOk() && k < |all|
      ensures all[k].n == At(all, k + 1)
    {
      assert Nexts(all)[k] == all[k].n;
    }

    lemma SetPrefix(k: nat)
      requires k < |all| && Distinct(all)
      ensures Fds(Set(all[..k + 1])) == Fds(Set(all[..k])) + if all[k].fd >= 0 then {all[k]} else {}
      ensures all[k] !in Fds(Set(all[..k]))
    {
      assert all[..k + 1] == all[..k] + [all[k]];
    }

    /** How `mblock` and `block` end: the coroutine removes its blockers, in the
        order in which it added them. */
    method Leave(bls: seq<Blocker>)
      requires Sound() && Distinct(bls) && Set(bls) <= Set(all)
      modifies this`blockers, this`all, fds, fds.ep, timers, Set(all)
      ensures Sound() && (old(Valid()) ==> Valid())
      ensures all == Minus(old(all), Set(bls)) && fds.regs == old(fds.regs) - Set(bls)
      ensures fds.ep.refusals >= old(fds.ep.refusals)
    {
      hide ListOk, FdsOk, TimersOk, Gone, Minus, Distinct, Fds, Timed;
      ghost var s, was, regs := Set(all), all, fds.regs;
      assert Distinct(was) by { ListDistinct(); }
      Within();
      MinusNone(was);
      assert Set(bls[..0]) == {} && Set(bls) <= Set(was);
      var i := 0;
      while i < |bls|
        invariant 0 <= i <= |bls| && Sound() && (old(Valid()) ==> Valid()) && Among(s)
        invariant all == Minus(was, Set(bls[..i])) && fds.regs == regs - Set(bls[..i])
        invariant fds.ep.refusals >= old(fds.ep.refusals)
      {
        Next(bls, i);
        MinusIn(was, Set(bls[..i]));
        assert bls[i] in Set(bls) && bls[i] in Set(was);
        MinusGone(was, Set(bls[..i]), bls[i]);
        MinusIn(was, Set(bls[..i + 1]));
        RemBlock(bls[i]);
        Within();
        i := i + 1;
      }
      assert bls[..i] == bls;
    }

    lemma Next(bls: seq<Blocker>, i: nat)
      requires i < |bls| && Distinct(bls)
      ensures bls[i] !in Set(bls[..i]) && Set(bls[..i + 1]) == Set(bls[..i]) + {bls[i]}
    {
      assert bls[..i + 1] == bls[..i] + [bls[i]];
    }

    /** What the loop that opens `ioloop` meets when the kernel refuses a
        blocker: its coroutine is resumed and removes all its blockers. The
        next blocker, saved before that, is still listed if and only if it is
        not one of them. */
    method Refuse(bl: Blocker, nbl: Blocker?) returns (alive: bool)
      requires Sound() && Grouped(all) && bl in all && (nbl == null || nbl in all)
      modifies this`blockers, this`all, fds, fds.ep, timers, Set(all)
      ensures Sound() && Grouped(all)
      ensures all == Minus(old(all), Set(bl.th.bls)) && fds.regs == old(fds.regs) - Set(bl.th.bls)
      ensures Set(all) <= old(Set(all)) && (alive <==> nbl == null || nbl in all)
      ensures alive <==> nbl == null || nbl.th != bl.th
      ensures fds.ep.refusals >= old(fds.ep.refusals)
    {
      hide ListOk, FdsOk, TimersOk, Minus, Distinct, Fds, Timed;
      GroupedLess(all, bl);
      Apart(all, bl, bl);
      MinusIn(all, Set(bl.th.bls));
      if nbl != null {
        Apart(all, bl, nbl);
      }
      alive := nbl == null || nbl.th != bl.th;
      Leave(bl.th.bls);
    }

    /** Where the traversal stands after some blockers are gone. */
    lemma Remaining(k: nat, s: set<Blocker>)
      requires k < |all| && all[k] in s
      ensures var w, j := Minus(all, s), |Minus(all[..k], s)|;
        && j <= |w| && |w| - j < |all| - k
        && Set(w[..j]) == Set(all[..k]) - s
        && (At(all, k + 1) == null ==> At(w, j) == null)
        && (At(all, k + 1) != null && At(all, k + 1) !in s ==> At(w, j) == At(all, k + 1))
    {
      hide Distinct;
      var a, c := Minus(all[..k], s), Minus(all[k + 1..], s);
      MinusIn(all[..k], s);
      MinusIn(all[k + 1..], s);
      MinusSplit(all, k, s);
      MinusHead(all, k, s);
      hide Minus;
      AppendSplit(a, c);
      assert At(a + c, |a|) == At(c, 0);
    }

    lemma MinusHead(o: seq<Blocker>, k: nat, s: set<Blocker>)
      requires k < |o| && o[k] in s
      ensures var c := Minus(o[k + 1..], s);
        && Minus(o[k..], s) == c && (k + 1 == |o| ==> c == [])
        && (k + 1 < |o| && o[k + 1] !in s ==> c != [] && c[0] == o[k + 1])
    {
      assert o[k..][1..] == o[k + 1..];
      Unit(Minus(o[k + 1..], s));
    }

    lemma FdsMinus(a: set<Blocker>, s: set<Blocker>)
      ensures Fds(a - s) == Fds(a) - s
    {
    }

    /** How `ioloop` starts: every waiting blocker is registered. A coroutine
        the kernel refuses a blocker of removes all of its own; that is safe
        unless the next one in the list was among them, when the loop would
        go on to a blocker that is gone. */
    method OpenLoop() returns (safe: bool)
      requires Valid() && !open && Grouped(all)
      modifies this`blockers, this`all, this`open, fds, fds.ep, timers, Set(all)
      ensures Sound() && open && Grouped(all) && (safe ==> Valid())
      ensures Set(all) <= old(Set(all))
      ensures fds.ep.refusals == old(fds.ep.refusals) ==> safe && all == old(all) && !fds.stale
      ensures !safe ==>
        exists j, k :: 0 <= j < |old(all)| && 0 <= k < |old(all)| && j != k && old(all)[j].th == old(all)[k].th
    {
      hide ListOk, FdsOk, TimersOk, Fds, Timed, Gone, Distinct, FdTable.Valid, Minus, Grouped;
      ghost var s, was := Set(all), all;
      Reset();
      open := true;
      var bl := blockers;
      ghost var k := 0;
      HeadIs();
      Within();
      while bl != null
        invariant Sound() && open && Grouped(all) && 0 <= k <= |all| && bl == At(all, k)
        invariant fds.regs == Fds(Set(all[..k]))
        invariant Set(all) <= s && fds.regs <= s && timers.members <= s
        invariant fds.ep.refusals >= old(fds.ep.refusals)
        invariant fds.ep.refusals == old(fds.ep.refusals) ==> all == was && !fds.stale
        decreases |all| - k
      {
        NextIs(k);
        var nbl := bl.n;
        var alive;
        alive, k := Visit(bl, nbl, k);
        if !alive {
          assert s == Set(was) && bl in s && nbl in s;
          Twice(was, bl, nbl);
          return false;
        }
        Within();
        bl := nbl;
      }
      assert all[..k] == all;
      safe := true;
    }

    /** One turn of that loop. */
    method Visit(bl: Blocker, nbl: Blocker?, ghost k: nat) returns (alive: bool, ghost j: nat)
      requires Sound() && open && Grouped(all) && k < |all| && bl == all[k] && nbl == At(all, k + 1)
      requires fds.regs == Fds(Set(all[..k]))
      modifies this`blockers, this`all, fds, fds.ep, timers, Set(all)
      ensures Sound() && Grouped(all) && Set(all) <= old(Set(all))
      ensures fds.ep.refusals >= old(fds.ep.refusals)
      ensures fds.ep.refusals == old(fds.ep.refusals) && !old(fds.stale) ==> alive && all == old(all) && !fds.stale
      ensures alive ==>
        j <= |all| && |all| - j < |old(all)| - k && fds.regs == Fds(Set(all[..j])) && nbl == At(all, j)
      ensures !alive ==> nbl != null && nbl.th == bl.th && nbl != bl && {bl, nbl} <= old(Set(all))
    {
      hide ListOk, FdsOk, TimersOk, Fds, Timed, Gone, Distinct, FdTable.Valid, Minus, Grouped;
      ListDistinct();
      SetPrefix(k);
      Within();
      var r := RegisterListed(bl, Set(all));
      if r != 0 {
        alive, j := SkipRefused(bl, nbl, k);
      } else {
        alive, j := true, k + 1;
      }
    }

    /** A refusal on the way through the list. */
    method SkipRefused(bl: Blocker, nbl: Blocker?, ghost k: nat) returns (alive: bool, ghost j: nat)
      requires Sound() && Grouped(all) && k < |all| && bl == all[k] && nbl == At(all, k + 1)
      requires fds.regs == Fds(Set(all[..k]))
      modifies this`blockers, this`all, fds, fds.ep, timers, Set(all)
      ensures Sound() && Grouped(all) && Set(all) <= old(Set(all))
      ensures j <= |all| && |all| - j < |old(all)| - k && fds.regs == Fds(Set(all[..j]))
      ensures fds.ep.refusals >= old(fds.ep.refusals)
      ensures if alive then nbl == At(all, j) else nbl != null && nbl.th == bl.th
    {
      hide ListOk, FdsOk, TimersOk, Fds, Timed, Gone, Distinct, FdTable.Valid, Minus, Grouped;
      Apart(all, bl, bl);
      if nbl != null {
        Apart(all, bl, nbl);
      }
      Remaining(k, Set(bl.th.bls));
      FdsMinus(Set(all[..k]), Set(bl.th.bls));
      j := |Minus(all[..k], Set(bl.th.bls))|;
      alive := Refuse(bl, nbl);
    }

    lemma Twice(was: seq<Blocker>, a: Blocker, b: Blocker)
      requires a in Set(was) && b in Set(was) && a != b && a.th == b.th
      ensures exists j, k :: 0 <= j < |was| && 0 <= k < |was| && j != k && was[j].th == was[k].th
    {
      assert a in was && b in was;
      var j :| 0 <= j < |was| && was[j] == a;
      var k :| 0 <= k < |was| && was[k] == b;
    }

    method Reset()
      requires Valid() && !open
      modifies fds`stale, fds.ep`masks
      ensures Valid() && !fds.stale && fds.regs == {}
    {
      hide FdTable.Valid;
      fds.Reopen();
    }

    lemma HeadIs()
      requires ListOk()
      ensures blockers == At(all, 0) && all[..0] == [] && Fds(Set([])) == {}
    {
    }

    lemma Within()
      requires Sound()
      ensures fds.regs <= Set(all) && timers.members <= Set(all)
    {
    }

    /** How `ioloop` ends: every blocker is taken off its descriptor's list. */
    method CloseLoop()
      requires Valid() && open
      modifies this`open, fds, fds.ep, fds.regs`n2, fds.regs`p2, all`reg
      ensures Valid() && !open && all == old(all) && fds.regs == {}
    {
      hide ListOk, FdsOk, TimersOk, Fds, Timed, Gone, Distinct, FdTable.Valid;
      var bl := blockers;
      ghost var k := 0;
      HeadIs();
      Within();
      while bl != null
        invariant Sound() && 0 <= k <= |all| && bl == At(all, k)
        invariant fds.regs <= old(fds.regs) && forall j :: 0 <= j < k ==> all[j] !in fds.regs
        decreases |all| - k
      {
        NextIs(k);
        Unregister(bl, Set(all));
        k := k + 1;
        bl := bl.n;
      }
      Within();
      open := false;
    }
  
    /** While the loop is open, a blocker is on exactly one descriptor's list,
        its own, if it has a descriptor. */
    lemma OwnList(bl: Blocker, fd: int)
      requires Valid() && bl in all
      ensures bl in OnList(fds.lists, fd) <==> open && fd == bl.fd >= 0
    {
    }

    /** No blocker is on a list without being known. */
    lemma ListKnown(fd: int, k: nat)
      requires Valid() && k < |OnList(fds.lists, fd)|
      ensures var b := OnList(fds.lists, fd)[k]; b in all && b.fd == fd
    {
    }

    /** The kernel watches exactly what the blockers wait for. */
    lemma KernelAgrees(fd: int)
      requires Valid() && open && !fds.stale
      ensures fd in fds.ep.masks <==> fd >= 0 && exists k :: 0 <= k < |all| && all[k].fd == fd
      ensures fd in fds.ep.masks ==>
        var m := fds.ep.masks[fd];
        && (m.input <==> exists k :: 0 <= k < |all| && all[k].fd == fd && Reads(all[k].ev))
        && (m.output <==> exists k :: 0 <= k < |all| && all[k].fd == fd && Writes(all[k].ev))
    {
      hide FdTable.Valid, OnList, Union;
      var l := OnList(fds.lists, fd);
      forall k | 0 <= k < |all| ensures all[k] in l <==> fd == all[k].fd >= 0 {
        OwnList(all[k], fd);
      }
      forall k | 0 <= k < |l| ensures l[k] in all && l[k].fd == fd {
        ListKnown(fd, k);
      }
      KernelKnows(fd);
      if l != [] {
        assert l[0] in all;
        UnionMeans(fds.ep.masks[fd], l, all, fd);
      }
    }

    lemma KernelKnows(fd: int)
      requires Valid() && !fds.stale
      ensures fd in fds.ep.masks <==> OnList(fds.lists, fd) != []
      ensures fd in fds.ep.masks ==> fd >= 0 && Union(fds.ep.masks[fd], OnList(fds.lists, fd))
    {
      hide Union;
    }

    /** The root of the heap is the first time-out to come. */
    lemma NextDue(bl: Blocker)
      requires Valid() && bl in all && bl.to > 0
      ensures timers.b != [] && timers.b[0] in all && 0 < timers.b[0].to <= bl.to
    {
      hide Timers.Valid;
      timers.Earliest(bl);
    }
  
    /** The last blockers added, newest first, in front of those before. */
    ghost predicate Ahead(bls: seq<Blocker>, k: nat, was: seq<Blocker>)
      requires k <= |bls|
      reads this`all
    {
      all == Back(bls[..k]) + was
    }

    lemma BackStep(bls: seq<Blocker>, k: nat, was: seq<Blocker>)
      requires k < |bls|
      ensures [bls[k]] + (Back(bls[..k]) + was) == Back(bls[..k + 1]) + was
      ensures Gone(Back(bls[..k + 1]) + was, bls[k]) == Back(bls[..k]) + was
    {
      assert bls[..k + 1][..k] == bls[..k];
      Assoc([bls[k]], Back(bls[..k]), was);
      assert ([bls[k]] + (Back(bls[..k]) + was))[1..] == Back(bls[..k]) + was;
    }

    /** Blockers not yet added, as `mblock` makes them. */
    ghost predicate Waiting(bls: seq<Blocker>, k: nat)
      reads this`all, bls`p, bls`reg
    {
      forall j :: k <= j < |bls| ==> bls[j] !in all && bls[j].p == null && !bls[j].reg
    }

    /** Everything stays among the blockers of s. */
    ghost predicate Among(s: set<Blocker>)
      reads this`all, fds`regs, timers`members
    {
      Set(all) <= s && fds.regs <= s && timers.members <= s
    }

    /** How `mblock` begins: all its blockers are added, or, if the kernel
        refuses one, none. */
    method Enroll(bls: seq<Blocker>) returns (ok: bool)
      requires Sound() && Distinct(bls) && Waiting(bls, 0)
      modifies this`blockers, this`all, fds, fds.ep, timers, Set(all), Set(bls)
      ensures Sound() && (old(Valid()) ==> Valid())
      ensures all == if ok then Back(bls) + old(all) else old(all)
      ensures !ok ==> open
    {
      hide ListOk, FdsOk, TimersOk, Gone, Back, Waiting, Ahead;
      ghost var s := Set(all) + Set(bls);
      Within();
      FirstAhead(bls);
      var i := 0;
      while i < |bls|
        invariant 0 <= i <= |bls| && Sound() && (old(Valid()) ==> Valid()) && Among(s)
        invariant Waiting(bls, i) && Ahead(bls, i, old(all))
      {
        var r := EnrollOne(bls, i, s, old(all));
        if r != 0 {
          ok := false;
          Withdraw(bls, i, s, old(all));
          return;
        }
        i := i + 1;
      }
      LastAhead(bls, old(all));
      ok := true;
    }

    lemma FirstAhead(bls: seq<Blocker>)
      ensures Ahead(bls, 0, all)
    {
      BackNone(all);
    }

    lemma LastAhead(bls: seq<Blocker>, was: seq<Blocker>)
      requires Ahead(bls, |bls|, was)
      ensures all == Back(bls) + was
    {
      assert bls[..|bls|] == bls;
    }

    /** One turn of the loop that opens `mblock`. */
    method EnrollOne(bls: seq<Blocker>, i: nat, ghost s: set<Blocker>, ghost was: seq<Blocker>) returns (r: int)
      requires Sound() && Distinct(bls) && i < |bls| && Waiting(bls, i) && Ahead(bls, i, was)
      requires Among(s) && Set(bls) <= s
      modifies this`blockers, this`all, fds, fds.ep, timers, s
      ensures Sound() && (old(Valid()) ==> Valid()) && Among(s)
      ensures r == 0 ==> Waiting(bls, i + 1) && Ahead(bls, i + 1, was)
      ensures r != 0 ==> Ahead(bls, i, was) && open
    {
      hide ListOk, FdsOk, TimersOk, Gone, Back;
      BackStep(bls, i, was);
      r := AddBlock(bls[i]);
      Within();
    }

    /** The blockers added so far are removed, newest first. */
    method Withdraw(bls: seq<Blocker>, n: nat, ghost s: set<Blocker>, ghost was: seq<Blocker>)
      requires Sound() && n <= |bls| && Ahead(bls, n, was) && Among(s)
      modifies this`blockers, this`all, fds, fds.ep, timers, s
      ensures Sound() && (old(Valid()) ==> Valid()) && all == was
    {
      hide ListOk, FdsOk, TimersOk, Gone, Back;
      var i := n;
      while i > 0
        invariant 0 <= i <= n && Sound() && (old(Valid()) ==> Valid()) && Among(s) && Ahead(bls, i, was)
      {
        i := i - 1;
        BackStep(bls, i, was);
        assert all[0] == bls[i];
        RemBlock(bls[i]);
        Within();
      }
      BackNone(was);
    }
  }
}
