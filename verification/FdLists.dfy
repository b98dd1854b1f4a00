// The descriptor lists of lib/mtio-epoll.c and the interest masks the kernel
// holds for them.
module FdLists {
  import opened Blockers
  import opened Seqs

  // ----- Events -----

  /** `ev & EV_READ`. */
  predicate Reads(ev: int) {
    ev % 2 == 1
  }

  /** `ev & EV_WRITE`. */
  predicate Writes(ev: int) {
    ev / 2 % 2 == 1
  }

  /** 1 asks to read, 2 to write, 3 to do either, whatever other bits are set. */
  lemma EventBits(ev: int, more: int)
    ensures ev == 4 * more ==> !Reads(ev) && !Writes(ev)
    ensures ev == 4 * more + 1 ==> Reads(ev) && !Writes(ev)
    ensures ev == 4 * more + 2 ==> !Reads(ev) && Writes(ev)
    ensures ev == 4 * more + 3 ==> Reads(ev) && Writes(ev)
  {
  }

  datatype Mask = Mask(input: bool, output: bool)

  function With(m: Mask, ev: int): Mask {
    Mask(m.input || Reads(ev), m.output || Writes(ev))
  }

  /** m is the union of what the blockers of a list wait for. */
  ghost predicate Union(m: Mask, list: seq<Blocker>) {
    && (m.input <==> exists k :: 0 <= k < |list| && Reads(list[k].ev))
    && (m.output <==> exists k :: 0 <= k < |list| && Writes(list[k].ev))
  }

  /** A list without bl. */
  ghost function Gone(o: seq<Blocker>, bl: Blocker): seq<Blocker> {
    if o == [] then [] else if o[0] == bl then o[1..] else [o[0]] + Gone(o[1..], bl)
  }

  lemma WithoutCons<T>(o: seq<T>, i: nat)
    requires i < |o|
    ensures Without(o, i) == if i == 0 then o[1..] else [o[0]] + Without(o[1..], i - 1)
  {
  }

  lemma {:induction false} GoneAt(o: seq<Blocker>, i: nat)
    requires i < |o| && Distinct(o)
    ensures Gone(o, o[i]) == Without(o, i)
  {
    hide Without;
    WithoutCons(o, i);
    if i > 0 {
      var t := o[1..];
      assert t[i - 1] == o[i] && o[0] != o[i];
      assert Distinct(t);
      hide Distinct;
      GoneAt(t, i - 1);
    }
  }

  lemma UnionPush(m: Mask, list: seq<Blocker>, bl: Blocker)
    requires Union(m, list)
    ensures Union(With(m, bl.ev), [bl] + list)
  {
    var l := [bl] + list;
    assert l[0] == bl;
    assert forall k :: 0 <= k < |list| ==> l[k + 1] == list[k];
  }

  lemma UnionSnoc(m: Mask, list: seq<Blocker>, j: nat)
    requires j < |list| && Union(m, list[..j])
    ensures Union(With(m, list[j].ev), list[..j + 1])
  {
    var l := list[..j + 1];
    assert l[j] == list[j];
    assert forall k :: 0 <= k < j ==> l[k] == list[..j][k];
  }

  /** `epoll_ctl`. The kernel refuses to add what it has, and to change or
      delete what it has not; `plan` decides what it refuses beyond that. */
  class Epoll {
    var masks: map<int, Mask>
    var plan: seq<bool>
    var refusals: nat

    constructor (plan: seq<bool>)
      ensures masks == map[] && refusals == 0
    {
      masks, this.plan, refusals := map[], plan, 0;
    }

    method Refused() returns (no: bool)
      modifies this`plan, this`refusals
      ensures refusals == old(refusals) + if no then 1 else 0
    {
      no := plan != [] && plan[0];
      if plan != [] {
        plan := plan[1..];
      }
      if no {
        refusals := refusals + 1;
      }
    }

    method Add(fd: int, m: Mask) returns (ok: bool)
      modifies this
      ensures if ok then fd !in old(masks) && masks == old(masks)[fd := m] && refusals == old(refusals)
        else masks == old(masks) && (fd in masks || refusals > old(refusals)) && refusals >= old(refusals)
    {
      var no := Refused();
      ok := !no && fd !in masks;
      if ok {
        masks := masks[fd := m];
      }
    }

    method Mod(fd: int, m: Mask) returns (ok: bool)
      modifies this
      ensures if ok then fd in old(masks) && masks == old(masks)[fd := m] && refusals == old(refusals)
        else masks == old(masks) && (fd !in masks || refusals > old(refusals)) && refusals >= old(refusals)
    {
      var no := Refused();
      ok := !no && fd in masks;
      if ok {
        masks := masks[fd := m];
      }
    }

    method Del(fd: int) returns (ok: bool)
      modifies this
      ensures if ok then fd in old(masks) && masks == old(masks) - {fd} && refusals == old(refusals)
        else masks == old(masks) && (fd !in masks || refusals > old(refusals)) && refusals >= old(refusals)
    {
      var no := Refused();
      ok := !no && fd in masks;
      if ok {
        masks := masks - {fd};
      }
    }
  }

  // ----- The lists -----

  ghost function OnList(lists: seq<seq<Blocker>>, fd: int): seq<Blocker> {
    if 0 <= fd < |lists| then lists[fd] else []
  }

  /** Descriptors with a list are watched for the union of it, and no others
      are, with some exceptions. */
  ghost predicate Watched(masks: map<int, Mask>, lists: seq<seq<Blocker>>, but: set<int>) {
    && (forall fd :: fd !in but ==> (fd in masks <==> OnList(lists, fd) != []))
    && (forall fd :: fd in masks && fd !in but ==> Union(masks[fd], OnList(lists, fd)))
  }

  lemma WatchedBut(masks: map<int, Mask>, was: seq<seq<Blocker>>, lists: seq<seq<Blocker>>, x: int)
    requires Watched(masks, was, {}) && forall fd :: fd != x ==> OnList(lists, fd) == OnList(was, fd)
    ensures Watched(masks, lists, {x}) && (OnList(was, x) != [] ==> x in masks)
  {
  }

  lemma WatchedSame(masks: map<int, Mask>, was: seq<seq<Blocker>>, lists: seq<seq<Blocker>>)
    requires Watched(masks, was, {}) && forall fd :: OnList(lists, fd) == OnList(was, fd)
    ensures Watched(masks, lists, {})
  {
  }

  lemma WatchedSet(masks: map<int, Mask>, lists: seq<seq<Blocker>>, x: nat, list: seq<Blocker>, m: Mask)
    requires Watched(masks, lists, {}) && x < |lists| && list != [] && Union(m, list)
    ensures Watched(masks[x := m], lists[x := list], {})
  {
    var l := lists[x := list];
    assert forall fd :: OnList(l, fd) == if fd == x then list else OnList(lists, fd);
  }

  /** Every registered blocker is on its descriptor's list. */
  ghost predicate Listed(regs: set<Blocker>, lists: seq<seq<Blocker>>) {
    forall b :: b in regs ==> b in OnList(lists, b.fd)
  }

  lemma ListedPush(regs: set<Blocker>, lists: seq<seq<Blocker>>, bl: Blocker)
    requires Listed(regs, lists) && 0 <= bl.fd < |lists|
    ensures Listed(regs + {bl}, lists[bl.fd := [bl] + lists[bl.fd]])
  {
    var l := lists[bl.fd := [bl] + lists[bl.fd]];
    forall b | b in regs ensures b in OnList(l, b.fd) {
      assert b in OnList(lists, b.fd);
    }
    assert OnList(l, bl.fd)[0] == bl;
  }

  lemma ListedGone(regs: set<Blocker>, lists: seq<seq<Blocker>>, bl: Blocker, i: nat)
    requires Listed(regs, lists) && 0 <= bl.fd < |lists| && i < |lists[bl.fd]| && lists[bl.fd][i] == bl
    ensures Listed(regs - {bl}, lists[bl.fd := Without(lists[bl.fd], i)])
  {
    var w := Without(lists[bl.fd], i);
    var l := lists[bl.fd := w];
    forall b | b in regs && b != bl ensures b in OnList(l, b.fd) {
      var k :| 0 <= k < |OnList(lists, b.fd)| && OnList(lists, b.fd)[k] == b;
      if b.fd == bl.fd {
        assert w[if k < i then k else k - 1] == b;
      }
    }
  }

  lemma Pushed(lists: seq<seq<Blocker>>, bl: Blocker)
    requires 0 <= bl.fd < |lists|
    ensures var l := lists[bl.fd := [bl] + lists[bl.fd]];
      forall f :: OnList(l, f) == if f == bl.fd then [bl] + OnList(lists, f) else OnList(lists, f)
  {
  }

  lemma Dropped(lists: seq<seq<Blocker>>, bl: Blocker, i: nat)
    requires 0 <= bl.fd < |lists| && i < |lists[bl.fd]| && lists[bl.fd][i] == bl && Distinct(lists[bl.fd])
    ensures var l := lists[bl.fd := Without(lists[bl.fd], i)];
      forall f :: OnList(l, f) == if f == bl.fd then Gone(OnList(lists, f), bl) else OnList(lists, f)
  {
    GoneAt(lists[bl.fd], i);
  }

  class FdTable {
    const ep: Epoll
    var fdlist: seq<Blocker?>
    ghost var lists: seq<seq<Blocker>>
    ghost var regs: set<Blocker>       // the registered blockers
    ghost var stale: bool              // the kernel refused to forget something

    /** Each list hangs together and holds registered blockers of its
        descriptor only. */
    ghost predicate ListsOk()
      reads this`fdlist, this`lists, this`regs, regs`n2, regs`p2
    {
      && |lists| == |fdlist|
      && (forall fd :: 0 <= fd < |lists| ==> fdlist[fd] == At(lists[fd], 0))
      && (forall fd, k :: 0 <= fd < |lists| && 0 <= k < |lists[fd]| ==> lists[fd][k] in regs && lists[fd][k].fd == fd)
      && (forall fd :: 0 <= fd < |lists| ==> Chained2(lists[fd]))
    }

    /** Each registered blocker is flagged, and on its descriptor's list. */
    ghost predicate RegsOk()
      reads this`lists, this`regs, regs`reg
    {
      (forall b :: b in regs ==> b.reg) && Listed(regs, lists)
    }

    ghost predicate Valid()
      reads this, ep`masks, regs`n2, regs`p2, regs`reg
    {
      ListsOk() && RegsOk() && (!stale ==> Watched(ep.masks, lists, {}))
    }

    constructor (ep: Epoll)
      requires ep.masks == map[]
      ensures Valid() && this.ep == ep && regs == {} && fdlist == [] && !stale
    {
      this.ep := ep;
      fdlist, lists, regs, stale := [], [], {}, false;
    }

    /** What the blockers of a list wait for, beside m0. */
    method Scan(m0: Mask, fd: int) returns (m: Mask, ghost u: Mask)
      requires ListsOk() && 0 <= fd < |fdlist|
      ensures Union(u, lists[fd]) && m == Mask(m0.input || u.input, m0.output || u.output)
      ensures m.input <==> m0.input || exists k :: 0 <= k < |lists[fd]| && Reads(lists[fd][k].ev)
      ensures m.output <==> m0.output || exists k :: 0 <= k < |lists[fd]| && Writes(lists[fd][k].ev)
    {
      hide Reads, Writes, Chained2;
      ghost var list := lists[fd];
      ghost var j := 0;
      u := Mask(false, false);
      m := m0;
      var o := fdlist[fd];
      while o != null
        invariant 0 <= j <= |list| && o == At(list, j)
        invariant Union(u, list[..j]) && m == Mask(m0.input || u.input, m0.output || u.output)
        decreases |list| - j
      {
        m := With(m, o.ev);
        UnionSnoc(u, list, j);
        u := With(u, o.ev);
        NextListed(fd, j);
        o := o.n2;
        j := j + 1;
      }
      assert list[..j] == list;
    }

    lemma NextListed(fd: int, j: nat)
      requires ListsOk() && 0 <= fd < |lists| && j < |lists[fd]|
      ensures lists[fd][j].n2 == At(lists[fd], j + 1)
    {
      assert Nexts2(lists[fd])[j] == At(lists[fd], j + 1);
    }
  
    lemma EmptyList()
      ensures Chained2([]) && At([], 0) == null
    {
    }

    /** Room for descriptor fd in the table. */
    method Grow(fd: nat)
      requires ListsOk() && RegsOk()
      modifies this`fdlist, this`lists
      ensures ListsOk() && RegsOk() && fd < |fdlist| == |lists|
      ensures forall f :: OnList(lists, f) == OnList(old(lists), f)
    {
      hide Chained2, At;
      EmptyList();
      if fd >= |fdlist| {
        fdlist := fdlist + seq(fd + 1 - |fdlist|, _ => null);
        lists := lists + seq(fd + 1 - |lists|, _ => []);
      }
    }

    /** bl's list hangs together with bl in front, and the others as before. */
    method LinkIn(bl: Blocker)
      requires ListsOk() && bl !in regs && 0 <= bl.fd < |fdlist|
      modifies regs`p2, bl`n2, bl`p2
      ensures Chained2([bl] + lists[bl.fd])
      ensures forall f :: 0 <= f < |lists| && f != bl.fd ==> Chained2(lists[f])
    {
      hide Linked, Nexts2, Prevs2, Distinct;
      ghost var list := lists[bl.fd];
      assert forall f, k :: 0 <= f < |lists| && f != bl.fd && 0 <= k < |lists[f]| ==>
        lists[f][k] !in list && lists[f][k] != bl;
      Push2(bl, fdlist[bl.fd], list);
      forall f | 0 <= f < |lists| && f != bl.fd ensures Chained2(lists[f]) {
        assert Nexts2(lists[f]) == old(Nexts2(lists[f])) && Prevs2(lists[f]) == old(Prevs2(lists[f]));
      }
    }

    /** Put bl in front of its descriptor's list. */
    method Link(bl: Blocker)
      requires ListsOk() && RegsOk() && bl !in regs && 0 <= bl.fd < |fdlist|
      modifies this`fdlist, this`lists, this`regs, regs`p2, bl`n2, bl`p2, bl`reg
      ensures ListsOk() && RegsOk() && regs == old(regs) + {bl} && bl.reg
      ensures lists == old(lists)[bl.fd := [bl] + old(lists)[bl.fd]]
    {
      hide Chained2, Listed;
      ListedPush(regs, lists, bl);
      LinkIn(bl);
      fdlist := fdlist[bl.fd := bl];
      lists := lists[bl.fd := [bl] + lists[bl.fd]];
      regs := regs + {bl};
      bl.reg := true;
    }

    /** The kernel call of `regfd`. */
    method Tell(bl: Blocker, evd: Mask) returns (ret: int, ghost m: Mask)
      requires ListsOk() && (!stale ==>
        Watched(ep.masks, lists, {})) && 0 <= bl.fd < |fdlist| && evd == With(Mask(false, false), bl.ev)
      modifies ep
      ensures ret == 0 || ret == -1
      ensures Union(m, [bl] + lists[bl.fd]) && (ret == 0 ==> ep.masks == old(ep.masks)[bl.fd := m])
      ensures ret == -1 ==> ep.masks == old(ep.masks) && (stale || ep.refusals > old(ep.refusals))
      ensures ep.refusals >= old(ep.refusals)
    {
      var ok;
      var evd1 := evd;
      if fdlist[bl.fd] == null {
        ok := ep.Add(bl.fd, evd);
        m := evd;
        UnionPush(Mask(false, false), [], bl);
      } else {
        ghost var u;
        evd1, u := Scan(evd, bl.fd);
        ok := ep.Mod(bl.fd, evd1);
        m := evd1;
        UnionPush(u, lists[bl.fd], bl);
      }
      ret := if ok then 0 else -1;
    }

    /** `regfd`. A refusal by the kernel leaves everything as it was. */
    method RegFd(bl: Blocker) returns (ret: int)
      requires Valid() && bl !in regs
      modifies this, ep, regs`p2, bl`n2, bl`p2, bl`reg
      ensures Valid() && stale == old(stale)
      ensures ret == 0 || ret == -1
      ensures regs == if ret == 0 && bl.fd >= 0 then old(regs) + {bl} else old(regs)
      ensures forall f :: OnList(lists, f) == if ret == 0 && f == bl.fd >= 0 then [bl] + OnList(old(lists), f)
        else OnList(old(lists), f)
      ensures bl.reg == (old(bl.reg) || (ret == 0 && bl.fd >= 0))
      ensures ret == -1 ==> bl.fd >= 0 && (stale || ep.refusals > old(ep.refusals))
      ensures ep.refusals >= old(ep.refusals)
    {
      hide Union, ListsOk, RegsOk, OnList, Watched;
      if bl.fd < 0 {
        return 0;
      }
      var evd := With(Mask(false, false), bl.ev);
      Grow(bl.fd);
      ghost var m;
      if !stale {
        WatchedSame(ep.masks, old(lists), lists);
      }
      ret, m := Tell(bl, evd);
      if ret == 0 {
        if !stale {
          WatchedSet(old(ep.masks), lists, bl.fd, [bl] + lists[bl.fd], m);
        }
        Pushed(lists, bl);
        Link(bl);
      }
    }
  
    lemma Place(bl: Blocker) returns (i: nat)
      requires ListsOk() && RegsOk() && bl in regs
      ensures 0 <= bl.fd < |lists| == |fdlist| && i < |lists[bl.fd]| && lists[bl.fd][i] == bl && Distinct(lists[bl.fd])
      ensures OnList(lists, bl.fd) != []
    {
      i :| 0 <= i < |OnList(lists, bl.fd)| && OnList(lists, bl.fd)[i] == bl;
    }

    /** bl's list hangs together without bl, and the others as before. */
    method LinkOut(bl: Blocker, ghost i: nat)
      requires ListsOk() && bl in regs && 0 <= bl.fd < |fdlist| && i < |lists[bl.fd]| && lists[bl.fd][i] == bl
      modifies regs`n2, regs`p2
      ensures Chained2(Without(lists[bl.fd], i)) && bl !in Without(lists[bl.fd], i)
      ensures bl.n2 == At(lists[bl.fd], i + 1)
      ensures forall f :: 0 <= f < |lists| && f != bl.fd ==> Chained2(lists[f])
    {
      hide Linked, Nexts2, Prevs2, Distinct, Without, At;
      ghost var list := lists[bl.fd];
      assert forall f, k :: 0 <= f < |lists| && f != bl.fd && 0 <= k < |lists[f]| ==> lists[f][k] !in list;
      Unlink2(bl, list, i);
      forall f | 0 <= f < |lists| && f != bl.fd ensures Chained2(lists[f]) {
        assert Nexts2(lists[f]) == old(Nexts2(lists[f])) && Prevs2(lists[f]) == old(Prevs2(lists[f]));
      }
    }

    /** Take bl off its descriptor's list. */
    method Delink(bl: Blocker, ghost i: nat)
      requires ListsOk() && RegsOk() && bl in regs && 0 <= bl.fd < |fdlist|
      requires i < |lists[bl.fd]| && lists[bl.fd][i] == bl && Distinct(lists[bl.fd])
      modifies this`fdlist, this`lists, this`regs, regs`n2, regs`p2
      ensures ListsOk() && RegsOk() && regs == old(regs) - {bl} && |fdlist| == old(|fdlist|)
      ensures lists == old(lists)[bl.fd := Without(old(lists)[bl.fd], i)]
    {
      hide Chained2, Without, At, Distinct, Listed;
      ghost var list := lists[bl.fd];
      ListedGone(regs, lists, bl, i);
      HeadWithout(list, i);
      LinkOut(bl, i);
      if bl == fdlist[bl.fd] {
        fdlist := fdlist[bl.fd := bl.n2];
      }
      lists := lists[bl.fd := Without(list, i)];
      regs := regs - {bl};
      forall b | b in Without(list, i) ensures b in list && b != bl {
        var k :| 0 <= k < |list| - 1 && Without(list, i)[k] == b;
        assert list[if k < i then k else k + 1] == b;
      }
    }

    /** The kernel call of `remfd`, after fd's list has changed. */
    method Untell(fd: nat)
      requires ListsOk() && fd < |fdlist|
      requires !stale ==> fd in ep.masks && Watched(ep.masks, lists, {fd})
      modifies ep, this`stale
      ensures !stale ==> Watched(ep.masks, lists, {})
      ensures old(stale) ==> stale
      ensures stale ==> old(stale) || ep.refusals > old(ep.refusals)
      ensures ep.refusals >= old(ep.refusals)
    {
      var ok;
      if fdlist[fd] == null {
        ok := ep.Del(fd);
      } else {
        var m;
        ghost var u;
        m, u := Scan(Mask(false, false), fd);
        ok := ep.Mod(fd, m);
      }
      if !ok {
        stale := true;
      }
    }

    /** `remfd`. Only the kernel refusing to follow leaves it behind. */
    method RemFd(bl: Blocker)
      requires Valid() && (bl.reg ==> bl in regs)
      modifies this, ep, regs`n2, regs`p2, bl`reg
      ensures Valid() && regs == old(regs) - {bl} && !bl.reg
      ensures forall f :: OnList(lists, f) == if old(bl.reg) && f == bl.fd then Gone(OnList(old(lists), f), bl)
        else OnList(old(lists), f)
      ensures stale ==> old(stale) || ep.refusals > old(ep.refusals)
      ensures old(stale) ==> stale
      ensures ep.refusals >= old(ep.refusals)
    {
      if !bl.reg {
        assert bl !in regs;
        return;
      }
      RemReg(bl);
    }

    method RemReg(bl: Blocker)
      requires Valid() && bl in regs
      modifies this, ep, regs`n2, regs`p2, bl`reg
      ensures Valid() && regs == old(regs) - {bl} && !bl.reg
      ensures forall f :: OnList(lists, f) == if f == bl.fd then Gone(OnList(old(lists), f), bl)
        else OnList(old(lists), f)
      ensures stale ==> old(stale) || ep.refusals > old(ep.refusals)
      ensures old(stale) ==> stale
      ensures ep.refusals >= old(ep.refusals)
    {
      hide ListsOk, RegsOk, OnList, Watched, Gone;
      TakeOff(bl);
      Untell(bl.fd);
      bl.reg := false;
    }

    /** Off the list, before the kernel knows. */
    method TakeOff(bl: Blocker)
      requires Valid() && bl in regs
      modifies this`fdlist, this`lists, this`regs, regs`n2, regs`p2
      ensures ListsOk() && RegsOk() && regs == old(regs) - {bl} && 0 <= bl.fd < |fdlist|
      ensures forall f :: OnList(lists, f) == if f == bl.fd then Gone(OnList(old(lists), f), bl)
        else OnList(old(lists), f)
      ensures !stale ==> bl.fd in ep.masks && Watched(ep.masks, lists, {bl.fd})
    {
      hide Union, ListsOk, RegsOk, OnList, Without, Gone, Distinct, Watched;
      ghost var i := Place(bl);
      Dropped(lists, bl, i);
      Delink(bl, i);
      if !stale {
        WatchedBut(ep.masks, old(lists), lists, bl.fd);
      }
    }
  
    /** A new kernel table (`epoll_create`) when nothing is registered. */
    method Reopen()
      requires Valid() && regs == {}
      modifies this`stale, ep`masks
      ensures Valid() && !stale && regs == {}
    {
      ep.masks := map[];
      stale := false;
    }
  }
}
