// The TLS session cache of src/ssl-gnutls.c: a balanced tree for lookup, a
// doubly linked list for recency, and a counter.
module SessionCache {
  import opened BalancedTree
  import opened TreeCells
  import opened Octets
  import opened Seqs

  // ----- Keys -----

  function MemCmp(a: Bytes, b: Bytes): int
    requires |a| == |b|
  {
    if a == [] then 0
    else if a[0] != b[0] then a[0] - b[0]
    else MemCmp(a[1..], b[1..])
  }

  /** `sesscmp`. */
  function SessCmp(a: Bytes, b: Bytes): int {
    if |a| != |b| then |a| - |b| else MemCmp(a, b)
  }

  lemma {:induction false} MemCmpFlips(a: Bytes, b: Bytes)
    requires |a| == |b|
    ensures MemCmp(a, b) == -MemCmp(b, a) && (MemCmp(a, b) == 0 <==> a == b)
  {
    if a != [] {
      MemCmpFlips(a[1..], b[1..]);
      assert a == [a[0]] + a[1..] && b == [b[0]] + b[1..];
    }
  }

  lemma {:induction false} MemCmpChain(a: Bytes, b: Bytes, c: Bytes)
    requires |a| == |b| == |c| && MemCmp(a, b) <= 0 && MemCmp(b, c) <= 0
    ensures MemCmp(a, c) <= 0
  {
    if a != [] && a[0] == b[0] == c[0] {
      MemCmpChain(a[1..], b[1..], c[1..]);
    }
  }

  /** `sesscmp` orders the keys, and only equal keys compare equal. */
  lemma SessOrdering()
    ensures Ordering(SessCmp)
    ensures forall a, b :: SessCmp(a, b) == 0 <==> a == b
  {
    forall a, b ensures SessCmp(a, b) < 0 <==> SessCmp(b, a) > 0 {
      if |a| == |b| { MemCmpFlips(a, b); }
    }
    forall a, b ensures SessCmp(a, b) == 0 <==> a == b {
      if |a| == |b| { MemCmpFlips(a, b); }
    }
    forall a, b, c | SessCmp(a, b) <= 0 && SessCmp(b, c) <= 0 ensures SessCmp(a, c) <= 0 {
      if |a| == |b| == |c| { MemCmpChain(a, b, c); }
    }
  }

  // ----- What the cache holds, most recently stored first -----

  type Entry = (Bytes, Bytes)

  datatype Fetched = None | Some(value: Bytes)

  function Look(b: seq<Entry>, k: Bytes): Fetched {
    if b == [] then None else if b[0].0 == k then Some(b[0].1) else Look(b[1..], k)
  }

  function Drop(b: seq<Entry>, k: Bytes): seq<Entry> {
    if b == [] then [] else if b[0].0 == k then Drop(b[1..], k) else [b[0]] + Drop(b[1..], k)
  }

  /** Storing a value; an empty value deletes. */
  function Store(b: seq<Entry>, k: Bytes, v: Bytes): seq<Entry> {
    if v == [] then Drop(b, k) else [(k, v)] + Drop(b, k)
  }

  /** The n most recent entries. */
  function Cut<T>(b: seq<T>, n: nat): seq<T> {
    if |b| <= n then b else b[..n]
  }

  lemma EmptyDrops(b: seq<Entry>, k: Bytes)
    ensures Store(b, k, []) == Drop(b, k)
  {
  }

  lemma {:induction false} DropLook(b: seq<Entry>, k: Bytes, j: Bytes)
    ensures Look(Drop(b, k), j) == if j == k then None else Look(b, j)
  {
    if b != [] {
      DropLook(b[1..], k, j);
      if b[0].0 != k {
        assert Drop(b, k)[1..] == Drop(b[1..], k);
      }
    }
  }

  lemma {:induction false} DropLength(b: seq<Entry>, k: Bytes)
    ensures |Drop(b, k)| <= |b|
  {
    if b != [] {
      DropLength(b[1..], k);
    }
  }

  lemma StoreLength(b: seq<Entry>, k: Bytes, v: Bytes)
    ensures |Store(b, k, v)| <= |b| + if v == [] then 0 else 1
  {
    DropLength(b, k);
  }

  /** What is fetched after a store. */
  lemma StoreLook(b: seq<Entry>, k: Bytes, v: Bytes, j: Bytes)
    ensures Look(Store(b, k, v), j) == if j != k then Look(b, j) else if v == [] then None else Some(v)
  {
    DropLook(b, k, j);
    if v != [] {
      assert Store(b, k, v)[1..] == Drop(b, k);
    }
  }

  lemma {:induction false} DropPrefix(b: seq<Entry>, full: seq<Entry>, k: Bytes)
    requires b <= full
    ensures Drop(b, k) <= Drop(full, k)
  {
    if b != [] {
      assert b[1..] <= full[1..];
      DropPrefix(b[1..], full[1..], k);
    }
  }

  lemma {:induction false} PrefixLook(b: seq<Entry>, full: seq<Entry>, k: Bytes)
    requires b <= full && Look(b, k) != None
    ensures Look(b, k) == Look(full, k)
  {
    if b[0].0 != k {
      PrefixLook(b[1..], full[1..], k);
    }
  }

  lemma {:induction false} LookAt(b: seq<Entry>, k: Bytes, i: nat)
    requires i < |b| && b[i].0 == k && forall j :: 0 <= j < i ==> b[j].0 != k
    ensures Look(b, k) == Some(b[i].1)
  {
    if i > 0 {
      LookAt(b[1..], k, i - 1);
    }
  }

  lemma {:induction false} LookNone(b: seq<Entry>, k: Bytes)
    requires forall j :: 0 <= j < |b| ==> b[j].0 != k
    ensures Look(b, k) == None && Drop(b, k) == b
  {
    if b != [] {
      LookNone(b[1..], k);
    }
  }

  lemma {:induction false} DropAt(b: seq<Entry>, k: Bytes, i: nat)
    requires i < |b| && b[i].0 == k && forall j :: 0 <= j < |b| && j != i ==> b[j].0 != k
    ensures Drop(b, k) == Without(b, i)
  {
    if i == 0 {
      LookNone(b[1..], k);
    } else {
      forall j | 0 <= j < |b| - 1 && j != i - 1 ensures b[1..][j].0 != k {
        assert b[1..][j] == b[j + 1];
      }
      DropAt(b[1..], k, i - 1);
    }
  }

  /** A recency order cut short by evictions stays a prefix of the full one. */
  lemma StorePrefix(b: seq<Entry>, full: seq<Entry>, k: Bytes, v: Bytes, n: nat)
    requires b <= full && n <= |Store(b, k, v)|
    ensures Store(b, k, v)[..n] <= Store(full, k, v)
  {
    DropPrefix(b, full, k);
  }

  /** The recency order that a run of stores builds (a delete stores nothing). */
  function HistoryOf(stores: seq<Entry>): seq<Entry> {
    if stores == [] then []
    else
      var last := stores[|stores| - 1];
      Store(HistoryOf(stores[..|stores| - 1]), last.0, last.1)
  }

  function LastStored(stores: seq<Entry>, k: Bytes): Fetched {
    if stores == [] then None
    else
      var last := stores[|stores| - 1];
      if last.0 != k then LastStored(stores[..|stores| - 1], k)
      else if last.1 == [] then None else Some(last.1)
  }

  ghost predicate NoRepeats(b: seq<Entry>) {
    forall i, j :: 0 <= i < j < |b| ==> b[i].0 != b[j].0
  }

  lemma {:induction false} DropKeeps(b: seq<Entry>, k: Bytes, i: nat)
    requires i < |Drop(b, k)|
    ensures Drop(b, k)[i] in b && Drop(b, k)[i].0 != k
  {
    if b[0].0 == k {
      DropKeeps(b[1..], k, i);
    } else if i > 0 {
      DropKeeps(b[1..], k, i - 1);
    }
  }

  lemma {:induction false} DropNoRepeats(b: seq<Entry>, k: Bytes)
    requires NoRepeats(b)
    ensures NoRepeats(Drop(b, k))
  {
    if b != [] {
      var t := b[1..];
      forall i, j | 0 <= i < j < |t| ensures t[i].0 != t[j].0 {
        assert b[i + 1].0 != b[j + 1].0;
      }
      DropNoRepeats(t, k);
      var d := Drop(t, k);
      forall i | 0 <= i < |d| ensures d[i].0 != b[0].0 {
        DropKeeps(t, k, i);
        var j :| 0 <= j < |t| && t[j] == d[i];
        assert b[0].0 != b[j + 1].0;
      }
      hide Drop;
      assert NoRepeats([b[0]] + d);
    }
  }

  lemma StoreNoRepeats(b: seq<Entry>, k: Bytes, v: Bytes)
    requires NoRepeats(b)
    ensures NoRepeats(Store(b, k, v))
  {
    DropNoRepeats(b, k);
    forall i | 0 <= i < |Drop(b, k)| ensures Drop(b, k)[i].0 != k {
      DropKeeps(b, k, i);
    }
  }

  /** The full recency order gives every key its last stored value, once. */
  lemma {:induction false} HistoryLook(stores: seq<Entry>, k: Bytes)
    ensures Look(HistoryOf(stores), k) == LastStored(stores, k)
    ensures NoRepeats(HistoryOf(stores))
  {
    if stores != [] {
      var n := |stores| - 1;
      HistoryLook(stores[..n], k);
      StoreLook(HistoryOf(stores[..n]), stores[n].0, stores[n].1, k);
      StoreNoRepeats(HistoryOf(stores[..n]), stores[n].0, stores[n].1);
    }
  }

  /** Place i of a run of stores is the last store for k. */
  ghost predicate LastAt(stores: seq<Entry>, k: Bytes, i: nat) {
    i < |stores| && stores[i].0 == k && forall j :: i < j < |stores| ==> stores[j].0 != k
  }

  /** What was last stored for k is what the last store for k says. */
  lemma {:induction false} LastMeans(stores: seq<Entry>, k: Bytes, i: nat)
    requires LastAt(stores, k, i)
    ensures LastStored(stores, k) == if stores[i].1 == [] then None else Some(stores[i].1)
    decreases |stores|
  {
    var n := |stores| - 1;
    if i < n {
      LastMeans(stores[..n], k, i);
    }
  }

  /** Places at[a] of a run are the last stores of entries h[a], latest first. */
  ghost predicate LatestFirst(stores: seq<Entry>, h: seq<Entry>, at: seq<nat>) {
    && |at| == |h|
    && (forall a :: 0 <= a < |h| ==> LastAt(stores, h[a].0, at[a]) && stores[at[a]] == h[a])
    && forall a, b :: 0 <= a < b < |at| ==> at[a] > at[b]
  }

  lemma LastEarlier(stores: seq<Entry>, e: Entry, k: Bytes, i: nat)
    requires LastAt(stores, k, i) && e.0 != k
    ensures LastAt(stores + [e], k, i) && (stores + [e])[i] == stores[i]
  {
  }

  lemma LatestTail(stores: seq<Entry>, h: seq<Entry>, at: seq<nat>)
    requires LatestFirst(stores, h, at) && h != []
    ensures LatestFirst(stores, h[1..], at[1..]) && (|at| > 1 ==> at[1..][0] < at[0])
  {
    hide LastAt;
  }

  lemma LatestPush(stores: seq<Entry>, e: Entry, i: nat, h: seq<Entry>, at: seq<nat>)
    requires LatestFirst(stores, h, at) && LastAt(stores, e.0, i) && stores[i] == e
    requires at != [] ==> at[0] < i
    ensures LatestFirst(stores, [e] + h, [i] + at)
  {
    hide LastAt;
  }

  /** So are those that stay when another key is stored. */
  lemma {:induction false} DropLatest(stores: seq<Entry>, e: Entry, h: seq<Entry>, at: seq<nat>)
    returns (kept: seq<nat>)
    requires LatestFirst(stores, h, at)
    ensures LatestFirst(stores + [e], Drop(h, e.0), kept)
    ensures kept != [] ==> at != [] && kept[0] <= at[0]
    decreases |h|
  {
    kept := [];
    if h != [] {
      hide LastAt, LatestFirst;
      LatestTail(stores, h, at);
      kept := DropLatest(stores, e, h[1..], at[1..]);
      if h[0].0 != e.0 {
        LatestHead(stores, h, at);
        LastEarlier(stores, e, h[0].0, at[0]);
        LatestPush(stores + [e], h[0], at[0], Drop(h[1..], e.0), kept);
        kept := [at[0]] + kept;
      }
    }
  }

  lemma LatestHead(stores: seq<Entry>, h: seq<Entry>, at: seq<nat>)
    requires LatestFirst(stores, h, at)
    ensures |at| == |h| && (h != [] ==> LastAt(stores, h[0].0, at[0]) && stores[at[0]] == h[0])
    ensures forall a :: 0 <= a < |at| ==> at[a] < |stores|
  {
  }

  /** The order is that of the last stores, latest first: of two sessions, the
      one in front was stored later, and so goes later. */
  lemma {:induction false} Recency(stores: seq<Entry>) returns (at: seq<nat>)
    ensures LatestFirst(stores, HistoryOf(stores), at)
  {
    at := [];
    if stores != [] {
      hide LatestFirst, Drop;
      var n := |stores| - 1;
      var e, before := stores[n], stores[..n];
      assert stores == before + [e];
      at := Recency(before);
      LatestHead(before, HistoryOf(before), at);
      at := DropLatest(before, e, HistoryOf(before), at);
      if e.1 != [] {
        LatestPush(stores, e, n, Drop(HistoryOf(before), e.0), at);
        at := [n] + at;
      }
    }
  }

  // ----- Runs -----

  /** What the TLS library asks of its session database. */
  datatype Op = Save(key: Bytes, value: Bytes) | Remove(key: Bytes) | Recall(key: Bytes)

  /** A run's stores, a removal being the store of an empty value. */
  function Stores(ops: seq<Op>): seq<Entry> {
    if ops == [] then []
    else Stores(ops[..|ops| - 1]) + StoreOf(ops[|ops| - 1])
  }

  function StoreOf(op: Op): seq<Entry> {
    match op
    case Save(key, value) => [(key, value)]
    case Remove(key) => [(key, [])]
    case Recall(_) => []
  }

  /** The recency order after one operation more, nothing being evicted. */
  function After(b: seq<Entry>, op: Op): seq<Entry> {
    match op
    case Save(key, value) => Store(b, key, value)
    case Remove(key) => Drop(b, key)
    case Recall(_) => b
  }

  lemma AfterStores(past: seq<Entry>, ops: seq<Op>, op: Op)
    ensures HistoryOf(past + Stores(ops + [op])) == After(HistoryOf(past + Stores(ops)), op)
  {
    var s := past + Stores(ops);
    assert (ops + [op])[..|ops|] == ops;
    Assoc(past, Stores(ops), StoreOf(op));
    if op.Recall? {
      Unit(s);
    } else {
      var e := StoreOf(op)[0];
      assert (s + [e])[..|s|] == s;
      EmptyDrops(HistoryOf(s), e.0);
    }
  }

  /** Never more sessions than the cap, even if none were evicted. */
  ghost predicate Few(past: seq<Entry>, ops: seq<Op>, cap: nat) {
    forall i :: 0 <= i <= |ops| ==> |HistoryOf(past + Stores(ops[..i]))| <= cap
  }

  /** Every recall gives the value last stored under its key, or, if `exact`
      is false, perhaps nothing. */
  ghost predicate Recalled(past: seq<Entry>, ops: seq<Op>, outs: seq<Fetched>, exact: bool)
    requires |outs| == |ops|
  {
    forall i :: 0 <= i < |ops| && ops[i].Recall? ==>
      (!exact && outs[i] == None) || outs[i] == LastStored(past + Stores(ops[..i]), ops[i].key)
  }

  lemma RecalledSnoc(past: seq<Entry>, ops: seq<Op>, outs: seq<Fetched>, exact: bool, op: Op, out: Fetched)
    requires |outs| == |ops| && Recalled(past, ops, outs, exact)
    requires op.Recall? ==>
      (!exact && out == None) || out == LastStored(past + Stores(ops), op.key)
    ensures Recalled(past, ops + [op], outs + [out], exact)
  {
    hide LastStored, Stores;
    forall i | 0 <= i < |ops| ensures (ops + [op])[..i] == ops[..i] {
    }
    assert (ops + [op])[..|ops|] == ops;
  }

  // ----- The cache itself -----

  class Session {
    var next: Session?
    var prev: Session?
    const key: Bytes
    var value: Bytes

    constructor (key: Bytes, value: Bytes)
      ensures this.key == key && this.value == value
    {
      this.key, this.value := key, value;
      next, prev := null, null;
    }
  }

  /** Element k, or null beyond either end. */
  function At(order: seq<Session>, k: int): Session? {
    if 0 <= k < |order| then order[k] else null
  }

  /** Every `next` leads to the following element, passing over element i. */
  ghost predicate NextSkips(order: seq<Session>, i: int)
    reads order`next
  {
    forall k {:trigger order[k].next} :: 0 <= k < |order| && k != i ==>
      order[k].next == At(order, if k + 1 == i then k + 2 else k + 1)
  }

  ghost predicate PrevSkips(order: seq<Session>, i: int)
    reads order`prev
  {
    forall k {:trigger order[k].prev} :: 0 <= k < |order| && k != i ==>
      order[k].prev == At(order, if k - 1 == i then k - 2 else k - 1)
  }

  /** The links of the list that holds `order`, first to last. */
  ghost predicate Chained(order: seq<Session>)
    reads order`next, order`prev
  {
    Distinct(order) && NextSkips(order, -2) && PrevSkips(order, -2)
  }

  lemma AtWithout(order: seq<Session>, i: nat, j: int)
    requires i < |order|
    ensures At(Without(order, i), j) == At(order, if j < i then j else j + 1)
  {
  }

  /** The same list once i's neighbours point past it. */
  lemma Bypassed(order: seq<Session>, i: nat)
    requires i < |order| && Distinct(order) && NextSkips(order, i) && PrevSkips(order, i)
    ensures Chained(Without(order, i))
  {
    hide Without, At;
    var u := Without(order, i);
    forall j | 0 <= j < |u| ensures u[j].next == At(u, j + 1) && u[j].prev == At(u, j - 1) {
      assert u[j] == order[if j < i then j else j + 1];
      AtWithout(order, i, j + 1);
      AtWithout(order, i, j - 1);
    }
    forall j, k | 0 <= j < k < |u| ensures u[j] != u[k] {
      assert u[j] == order[if j < i then j else j + 1] && u[k] == order[if k < i then k else k + 1];
    }
  }

  ghost function Contents(order: seq<Session>): (b: seq<Entry>)
    reads order`value
    ensures |b| == |order|
    ensures forall i :: 0 <= i < |b| ==> b[i] == (order[i].key, order[i].value)
  {
    if order == [] then [] else [(order[0].key, order[0].value)] + Contents(order[1..])
  }

  type SessTree = Linked<Bytes, Session>

  /** Tree and list hold the same sessions, each under its own key. */
  ghost predicate Indexed(t: SessTree, order: seq<Session>) {
    && Sorted(Inorder(t), SessCmp)
    && (forall i :: 0 <= i < |order| ==>
          var f := Lookup(t, order[i].key, SessCmp); f.Cell? && f.cell.val == order[i])
    && (forall k :: Lookup(t, k, SessCmp).Cell? ==>
          Lookup(t, k, SessCmp).cell.val in order && Lookup(t, k, SessCmp).cell.val.key == k)
  }

  lemma IndexAdd(t: SessTree, order: seq<Session>, c: Cell<Bytes, Session>)
    requires Indexed(t, order) && Lookup(t, c.key, SessCmp).Missing? && c.val.key == c.key
    ensures Indexed(Put(t, c.key, c, SessCmp), [c.val] + order)
  {
    SessOrdering();
    hide Lookup, Put, Sorted, Ordering, SessCmp;
    var u, o := Put(t, c.key, c, SessCmp), [c.val] + order;
    forall k ensures Sorted(Inorder(u), SessCmp) &&
      Lookup(u, k, SessCmp) == if k == c.key then Found.Cell(c) else Lookup(t, k, SessCmp)
    {
      PutLookup(t, c.key, c, SessCmp, k);
    }
    assert o[0] == c.val;
    assert forall i :: 0 < i < |o| ==> o[i] == order[i - 1];
    assert forall x :: x in order ==> x in o;
    PutLookup(t, c.key, c, SessCmp, c.key);
  }

  lemma IndexDel(t: SessTree, order: seq<Session>, i: nat)
    requires Indexed(t, order) && i < |order|
    requires Distinct(order)
    ensures Indexed(Del(t, order[i].key, SessCmp), Without(order, i))
  {
    SessOrdering();
    hide Lookup, Del, Sorted, Ordering, SessCmp, Without;
    var key := order[i].key;
    var u, o := Del(t, key, SessCmp), Without(order, i);
    forall k ensures Sorted(Inorder(u), SessCmp) &&
      Lookup(u, k, SessCmp) == if k == key then Missing else Lookup(t, k, SessCmp)
    {
      DelLookup(t, key, SessCmp, k);
    }
    DelLookup(t, key, SessCmp, key);
    forall j | 0 <= j < |o| ensures o[j].key != key {
      assert o[j] == order[if j < i then j else j + 1];
    }
    forall k | Lookup(u, k, SessCmp).Cell? ensures Lookup(u, k, SessCmp).cell.val in o {
      var x := Lookup(t, k, SessCmp).cell.val;
      var j :| 0 <= j < |order| && order[j] == x;
      assert o[if j < i then j else j - 1] == x;
    }
  }

  lemma IndexFront(t: SessTree, order: seq<Session>, i: nat)
    requires Indexed(t, order) && i < |order|
    ensures Indexed(t, [order[i]] + Without(order, i))
  {
    hide Lookup, Sorted, SessCmp, Without;
    var w := Without(order, i);
    var o := [order[i]] + w;
    forall j | 0 <= j < |o| ensures o[j] in order {
      if j > 0 { assert o[j] == w[j - 1] == order[if j - 1 < i then j - 1 else j]; }
    }
    forall x | x in order ensures x in o {
      var j :| 0 <= j < |order| && order[j] == x;
      assert o[if j < i then j + 1 else if j == i then 0 else j] == x;
    }
  }

  lemma Neighbours(order: seq<Session>, i: nat)
    requires i < |order| && Chained(order)
    ensures order[i].next == At(order, i + 1) && order[i].prev == At(order, i - 1)
  {
  }

  lemma ContentsWithout(order: seq<Session>, i: nat)
    requires i < |order|
    ensures Contents(Without(order, i)) == Without(Contents(order), i)
  {
  }

  lemma CutPrefix<T>(b: seq<T>, n: nat)
    ensures Cut(b, n) <= b && |Cut(b, n)| == if |b| <= n then |b| else n
  {
  }

  lemma ContentsPrefix(order: seq<Session>, n: nat)
    requires n <= |order|
    ensures Contents(order[..n]) == Contents(order)[..n]
  {
  }

  lemma ContentsPush(sess: Session, order: seq<Session>)
    ensures Contents([sess] + order) == [(sess.key, sess.value)] + Contents(order)
  {
  }

  lemma Behind(order: seq<Session>)
    requires Chained(order)
    ensures forall k {:trigger order[k].prev} :: 0 < k < |order| ==>
      order[k].prev == order[k - 1] && order[k] != order[0]
  {
  }

  lemma GoneWithout(order: seq<Session>, i: nat)
    requires i < |order| && Distinct(order)
    ensures order[i] !in Without(order, i)
  {
    hide Without;
    forall j | 0 <= j < |order| - 1 ensures Without(order, i)[j] != order[i] {
      assert Without(order, i)[j] == order[if j < i then j else j + 1];
    }
  }

  lemma FrontEnds(order: seq<Session>, i: nat)
    requires i < |order|
    ensures i == 0 ==> [order[0]] + Without(order, 0) == order
    ensures var u := [order[i]] + Without(order, i);
      At(u, 0) == order[i] && (i > 0 ==> At(u, |u| - 1) == At(Without(order, i), |order| - 2))
  {
  }

  lemma PushChained(sess: Session, order: seq<Session>)
    requires sess !in order && Distinct(order) && NextSkips(order, -2)
    requires sess.prev == null && sess.next == At(order, 0)
    requires order != [] ==> order[0].prev == sess
    requires forall k {:trigger order[k].prev} :: 0 < k < |order| ==> order[k].prev == order[k - 1]
    ensures Chained([sess] + order)
  {
    var u := [sess] + order;
    forall k | 0 <= k < |u| ensures u[k].next == At(u, k + 1) && u[k].prev == At(u, k - 1) {
      if k > 0 { assert u[k] == order[k - 1]; }
    }
  }

  lemma KeysDiffer(t: SessTree, order: seq<Session>)
    requires Indexed(t, order) && Distinct(order)
    ensures forall i, j :: 0 <= i < |order| && 0 <= j < |order| && i != j ==> order[i].key != order[j].key
  {
    hide Lookup, Sorted;
  }

  /** The session under a key is the one place of that key in the list. */
  lemma FoundIn(t: SessTree, order: seq<Session>, k: Bytes) returns (i: nat)
    requires Indexed(t, order) && Distinct(order)
    ensures match Lookup(t, k, SessCmp)
      case Missing =>
        Look(Contents(order), k) == None && Drop(Contents(order), k) == Contents(order)
      case Cell(c) =>
        && i < |order| && order[i] == c.val && c.val.key == k
        && Look(Contents(order), k) == Some(c.val.value)
        && Drop(Contents(order), k) == Without(Contents(order), i)
  {
    hide Sorted, Without, SessCmp;
    KeysDiffer(t, order);
    i := 0;
    match Lookup(t, k, SessCmp)
    case Missing =>
      LookNone(Contents(order), k);
    case Cell(c) =>
      i :| 0 <= i < |order| && order[i] == c.val;
      LookAt(Contents(order), k, i);
      DropAt(Contents(order), k, i);
  }

  class Cache {
    var sessidx: Cell?<Bytes, Session>
    var sesslistf: Session?
    var sesslistl: Session?
    var numsess: nat
    var numconn: nat
    var cc: nat
    ghost var tree: SessTree
    ghost var order: seq<Session>
    ghost var history: seq<Entry>  // everything stored and not deleted, most recent first

    ghost predicate Ends()
      reads this`order, this`sesslistf, this`sesslistl
    {
      sesslistf == At(order, 0) && sesslistl == At(order, |order| - 1)
    }

    ghost predicate TreeOk()
      reads this`sessidx, this`tree, Cells(tree)
    {
      Rep(sessidx, tree) && Apart(tree)
    }

    ghost predicate ListOk()
      reads this`order, this`sesslistf, this`sesslistl, this`numsess, order`next, order`prev
    {
      Chained(order) && Ends() && numsess == |order|
    }

    /** Tree, list and counter agree. */
    ghost predicate Sound()
      reads this`sessidx, this`tree, this`order, this`sesslistf, this`sesslistl, this`numsess
      reads Cells(tree), order`next, order`prev
    {
      TreeOk() && ListOk() && Indexed(tree, order)
    }

    /** ... and hold the most recent part of the history. */
    ghost predicate Valid()
      reads this, Cells(tree), order
    {
      Sound() && Contents(order) <= history
    }

    constructor ()
      ensures Valid() && order == [] && history == [] && numconn == 0 && Bounded()
    {
      sessidx, sesslistf, sesslistl := null, null, null;
      numsess, numconn, cc := 0, 0, 0;
      tree, order, history := Leaf, [], [];
    }

    /** Take the session at position i out of the list, as all three places do. */
    method Unlink(sess: Session, ghost i: nat)
      requires i < |order| && order[i] == sess && Chained(order)
      modifies order`next, order`prev
      ensures Chained(Without(order, i))
      ensures sess.next == old(sess.next) && sess.prev == old(sess.prev)
    {
      hide Without, At, NextSkips, PrevSkips, Distinct;
      Neighbours(order, i);
      SkipPrev(sess, i);
      SkipNext(sess, i);
      Bypassed(order, i);
    }

    method SkipPrev(sess: Session, ghost i: nat)
      requires i < |order| && order[i] == sess && Distinct(order) && PrevSkips(order, -2)
      requires sess.next == At(order, i + 1)
      modifies order`prev
      ensures PrevSkips(order, i) && sess.prev == old(sess.prev)
    {
      if sess.next != null {
        assert sess.next == order[i + 1];
        sess.next.prev := sess.prev;
      }
    }

    method SkipNext(sess: Session, ghost i: nat)
      requires i < |order| && order[i] == sess && Distinct(order) && NextSkips(order, -2)
      requires sess.prev == At(order, i - 1)
      modifies order`next
      ensures NextSkips(order, i) && sess.next == old(sess.next)
    {
      if sess.prev != null {
        assert sess.prev == order[i - 1];
        sess.prev.next := sess.next;
      }
    }

    /** Remove a key from the index. */
    method DropIndex(key: Bytes)
      requires Rep(sessidx, tree) && Apart(tree)
      modifies this`sessidx, this`tree, Cells(tree)
      ensures Rep(sessidx, tree) && Apart(tree) && tree == Del(old(tree), key, SessCmp)
        && Cells(tree) <= old(Cells(tree))
    {
      hide SessCmp, Del, Apart, Cells;
      DelCells(tree, key, SessCmp);
      var r;
      sessidx, r := BbTreeDel(sessidx, key, SessCmp, tree);
      tree := Del(tree, key, SessCmp);
    }

    lemma EndsWithout(i: nat)
      requires i < |order| && Ends() && Chained(order)
      ensures order[i] == sesslistf <==> i == 0
      ensures order[i] == sesslistl <==> i == |order| - 1
      ensures At(Without(order, i), 0) == if i == 0 then order[i].next else sesslistf
      ensures At(Without(order, i), |order| - 2) == if i == |order| - 1 then order[i].prev else sesslistl
    {
      AtWithout(order, i, 0);
      AtWithout(order, i, |order| - 2);
    }

    /** Take a session off the list, mending its ends. */
    method Delist(sess: Session, ghost i: nat)
      requires ListOk() && i < |order| && order[i] == sess
      modifies this`sesslistf, this`sesslistl, this`numsess, this`order, order`next, order`prev
      ensures ListOk() && order == Without(old(order), i)
    {
      hide Without, Distinct, NextSkips, PrevSkips, At;
      EndsWithout(i);
      Unlink(sess, i);
      if sess == sesslistf {
        sesslistf := sess.next;
      }
      if sess == sesslistl {
        sesslistl := sess.prev;
      }
      order := Without(order, i);
      numsess := numsess - 1;
    }

    /** `freesess`. */
    method FreeSess(sess: Session, ghost i: nat)
      requires Sound() && i < |order| && order[i] == sess
      modifies this`sessidx, this`sesslistf, this`sesslistl, this`numsess, this`tree, this`order, Cells(tree),
        order`next, order`prev
      ensures Sound() && order == Without(old(order), i) && Cells(tree) <= old(Cells(tree))
    {
      hide SessCmp, Indexed, Lookup, Del, Apart, Cells, Without, Distinct, NextSkips, PrevSkips, ListOk;
      assert Distinct(order) by { ListDistinct(); }
      IndexDel(tree, order, i);
      DropIndex(sess.key);
      Exist(sessidx, tree);
      Delist(sess, i);
      assert Rep(sessidx, tree);
    }

    lemma SoundList()
      requires Sound()
      ensures ListOk()
    {
    }

    lemma ListDistinct()
      requires ListOk()
      ensures Distinct(order)
    {
    }

    /** The session stored under a key, by `btreeget`. */
    method Find(key: Bytes) returns (sess: Session?, ghost i: nat)
      requires Sound()
      ensures Sound()
      ensures sess == null <==> Look(Contents(order), key) == None
      ensures sess != null ==> sess in order && sess.key == key
      ensures if sess == null then
          Look(Contents(order), key) == None && Drop(Contents(order), key) == Contents(order)
            && Lookup(tree, key, SessCmp) == Missing
        else
          && i < |order| && order[i] == sess && sess.key == key
          && Look(Contents(order), key) == Some(sess.value)
          && Drop(Contents(order), key) == Without(Contents(order), i)
    {
      hide Indexed, Without, SessCmp, Look, Drop, NextSkips, PrevSkips, Distinct, Apart;
      i := FoundIn(tree, order, key);
      Exist(sessidx, tree);
      var c := BtreeGet(sessidx, key, SessCmp, tree);
      sess := if c == null then null else c.val;
    }

    /** `sessdbfetch`. */
    method Fetch(key: Bytes) returns (r: Fetched)
      requires Valid()
      ensures Valid() && r == Look(Contents(order), key)
      ensures r != None ==> r == Look(history, key)
    {
      hide Sound, Look, Drop, Without;
      var sess, i := Find(key);
      r := if sess == null then None else Some(sess.value);
      if r != None {
        PrefixLook(Contents(order), history, key);
      }
    }

    ghost method Record(h: seq<Entry>)
      requires Sound()
      modifies this`history
      ensures Sound() && history == h
    {
      hide Indexed;
      history := h;
    }

    /** `sessdbdel`. */
    method SessDel(key: Bytes) returns (r: int)
      requires Valid()
      modifies this, Cells(tree), order`next, order`prev
      ensures Valid() && Cells(tree) <= old(Cells(tree)) && cc == old(cc) && numconn == old(numconn)
      ensures Contents(order) == Drop(old(Contents(order)), key) && history == Drop(old(history), key)
      ensures order <= old(order) || exists i :: 0 <= i < |old(order)| && order == Without(old(order), i)
      ensures r == if old(Look(Contents(order), key)) == None then -1 else 0
    {
      hide Sound, Look, Drop, Without, Contents;
      DropPrefix(Contents(order), history, key);
      var sess, i := Find(key);
      Record(Drop(history, key));
      if sess == null {
        return -1;
      }
      FreeAt(sess, i);
      r := 0;
    }

    method FreeAt(sess: Session, ghost i: nat)
      requires Sound() && i < |order| && order[i] == sess
      modifies this`sessidx, this`sesslistf, this`sesslistl, this`numsess, this`tree, this`order, Cells(tree),
        order`next, order`prev
      ensures Sound() && Cells(tree) <= old(Cells(tree))
      ensures order == Without(old(order), i) && Contents(order) == Without(old(Contents(order)), i)
    {
      hide Sound, Without, Contents;
      ContentsWithout(order, i);
      FreeSess(sess, i);
    }

    /** How many sessions are kept. */
    function Cap(): nat
      reads this`numconn
    {
      (if 1 > numconn then 1 else numconn) * 100
    }

    /** There are at most max(numconn, 1) * 100 sessions, and one more for each
        store since the last cleaning. */
    ghost predicate Bounded()
      reads this`order, this`numconn, this`cc
    {
      cc <= 101 && |order| <= (if numconn < 1 then 1 else numconn) * 100 + cc
    }

    /** `cleansess`: the most recently stored sessions stay. */
    method CleanSess()
      requires Valid()
      modifies this, Cells(tree), order`next, order`prev
      ensures Valid() && Cells(tree) <= old(Cells(tree)) && cc == old(cc) && numconn == old(numconn)
        && history == old(history)
      ensures order == Cut(old(order), Cap())
      ensures order <= old(order)
      ensures var cap := (if numconn < 1 then 1 else numconn) * 100;
        |order| == if |old(order)| <= cap then |old(order)| else cap
      ensures Contents(order) == Cut(old(Contents(order)), Cap())
    {
      hide Sound, Contents, Cut;
      ghost var was := order;
      CleanLoop();
      assert order == was[..|order|] by { CutPrefix(was, Cap()); }
      ContentsPrefix(was, |order|);
      CutPrefix(was, Cap());
      CutPrefix(Contents(was), Cap());
    }

    method CleanLoop()
      requires Sound()
      modifies this, Cells(tree), order`next, order`prev
      ensures Sound() && Cells(tree) <= old(Cells(tree)) && cc == old(cc) && numconn == old(numconn)
        && history == old(history)
      ensures order == Cut(old(order), Cap())
    {
      hide Indexed, TreeOk, Ends, Chained, Cells;
      while numsess > Cap()
        invariant Sound() && Cells(tree) <= old(Cells(tree))
        invariant order <= old(order) && (|order| == |old(order)| || |order| >= Cap())
        invariant cc == old(cc) && numconn == old(numconn) && history == old(history)
        decreases numsess
      {
        LastIs();
        FreeSess(sesslistl, |order| - 1);
      }
    }

    lemma LastIs()
      requires Sound() && order != []
      ensures sesslistl == order[|order| - 1]
    {
    }

    /** Link a session in at the front of the list o. */
    method PushFront(sess: Session, ghost o: seq<Session>)
      requires Chained(o) && sess !in o && sesslistf == At(o, 0)
      modifies this`sesslistf, sess`next, sess`prev, o`prev
      ensures Chained([sess] + o) && sesslistf == sess
    {
      Behind(o);
      sess.prev := null;
      sess.next := sesslistf;
      if sesslistf != null {
        sesslistf.prev := sess;
      }
      sesslistf := sess;
      assert NextSkips(o, -2);
      hide NextSkips, PrevSkips;
      PushChained(sess, o);
    }

    /** A new session, in the tree and at the front of the list. */
    method AddNew(key: Bytes, value: Bytes)
      requires Sound() && Lookup(tree, key, SessCmp).Missing?
      modifies this`sessidx, this`tree, this`order, this`numsess, this`sesslistf, this`sesslistl, Cells(tree),
        order`prev
      ensures Sound() && |order| == |old(order)| + 1 && order[1..] == old(order)
      ensures fresh(order[0]) && order[0].key == key && order[0].value == value
      ensures forall c :: c in Cells(tree) ==> c in old(Cells(tree)) || fresh(c)
    {
      hide SessCmp, Indexed, Lookup, Put, NextSkips, PrevSkips, Distinct, Apart, Cells;
      Exist(sessidx, tree);
      var sess := new Session(key, value);
      assert Rep(sessidx, tree);
      AddIndex(sess);
      Exist(sessidx, tree);
      LinkNew(sess);
      assert Rep(sessidx, tree);
    }

    method LinkNew(sess: Session)
      requires Chained(order) && sess !in order && Ends() && numsess == |order|
      modifies this`order, this`numsess, this`sesslistf, this`sesslistl, sess`next, sess`prev, order`prev
      ensures Chained(order) && Ends() && numsess == |order| && order == [sess] + old(order)
    {
      hide NextSkips, PrevSkips, Distinct;
      PushFront(sess, order);
      if sesslistl == null {
        sesslistl := sess;
      }
      order := [sess] + order;
      numsess := numsess + 1;
    }

    method AddIndex(sess: Session)
      requires Rep(sessidx, tree) && Apart(tree) && Indexed(tree, order) && Lookup(tree, sess.key, SessCmp).Missing?
      modifies this`sessidx, this`tree, Cells(tree)
      ensures Rep(sessidx, tree) && Apart(tree) && Indexed(tree, [sess] + order)
      ensures forall c :: c in Cells(tree) ==> c in old(Cells(tree)) || fresh(c)
    {
      hide SessCmp, Indexed, Put, Apart, Cells;
      ghost var t := tree;
      var r;
      ghost var c;
      sessidx, r, c := BbTreePut(sessidx, sess.key, sess, SessCmp, t);
      tree := Put(t, sess.key, c, SessCmp);
      PutCells(t, sess.key, c, SessCmp);
      IndexAdd(t, order, c);
    }

    /** Move a session to the front of the list. */
    method MoveFront(sess: Session, ghost i: nat)
      requires ListOk() && i < |order| && order[i] == sess
      modifies this`order, this`sesslistf, this`sesslistl, order`next, order`prev
      ensures ListOk() && order == [sess] + Without(old(order), i)
    {
      hide Without, Distinct, NextSkips, PrevSkips, At;
      EndsWithout(i);
      GoneWithout(order, i);
      FrontEnds(order, i);
      if sess != sesslistf {
        Unlink(sess, i);
        if sess == sesslistl {
          sesslistl := sess.prev;
        }
        PushFront(sess, Without(order, i));
      }
      order := [sess] + Without(order, i);
    }

    /** A stored session moves to the front with its new value. */
    method Refresh(sess: Session, value: Bytes, ghost i: nat)
      requires Sound() && i < |order| && order[i] == sess
      modifies this`order, this`sesslistf, this`sesslistl, sess`value, order`next, order`prev
      ensures Sound() && order == [sess] + Without(old(order), i)
      ensures sess.value == value
    {
      hide SessCmp, Indexed, Lookup, Apart, Cells, Without, ListOk;
      Exist(sessidx, tree);
      IndexFront(tree, order, i);
      sess.value := value;
      MoveFront(sess, i);
      assert Rep(sessidx, tree);
    }

    /** `sessdbstore`: the entry becomes the most recent one; every so often
        the oldest ones beyond the cap go. */
    method SessStore(key: Bytes, value: Bytes)
      requires Valid()
      modifies this, Cells(tree), order
      ensures Valid() && numconn == old(numconn)
      ensures forall c :: c in Cells(tree) ==> c in old(Cells(tree)) || fresh(c)
      ensures forall i :: 0 <= i < |order| ==> order[i] in old(order) || fresh(order[i])
      ensures history == Store(old(history), key, value)
      ensures Contents(order) ==
        var b := Store(old(Contents(order)), key, value);
        if value != [] && old(cc) > 100 then Cut(b, Cap()) else b
      ensures cc == if value == [] then old(cc) else if old(cc) > 100 then 0 else old(cc) + 1
      ensures old(Bounded()) || (value != [] && old(cc) > 100) ==> Bounded()
    {
      StoreLength(Contents(order), key, value);
      CutPrefix(Store(Contents(order), key, value), Cap());
      hide Sound, Look, Drop, Without, Contents, Cut, Store;
      if value == [] {
        EmptyDrops(old(history), key);
        EmptyDrops(Contents(order), key);
        var r := SessDel(key);
        return;
      }
      Enter(key, value);
      CleanIfDue();
    }

    /** The end of `sessdbstore`. */
    method CleanIfDue()
      requires Valid()
      modifies this, Cells(tree), order`next, order`prev
      ensures Valid() && numconn == old(numconn) && history == old(history)
      ensures Cells(tree) <= old(Cells(tree))
      ensures order <= old(order)
      ensures Contents(order) == if old(cc) > 100 then Cut(old(Contents(order)), Cap()) else old(Contents(order))
      ensures cc == if old(cc) > 100 then 0 else old(cc) + 1
    {
      hide Sound, Contents, Cut;
      var due := Tally();
      if due {
        CleanSess();
        cc := 0;
      }
    }

    /** The counter that decides when to clean. */
    method Tally() returns (due: bool)
      requires Valid()
      modifies this`cc
      ensures Valid() && cc == old(cc) + 1 && due == (old(cc) > 100)
      ensures Contents(order) == old(Contents(order))
    {
      hide Indexed, Chained;
      due := cc > 100;
      cc := cc + 1;
    }

    /** A nonempty value, stored. */
    method Enter(key: Bytes, value: Bytes)
      requires Valid() && value != []
      modifies this, Cells(tree), order
      ensures Valid() && numconn == old(numconn) && cc == old(cc)
      ensures forall c :: c in Cells(tree) ==> c in old(Cells(tree)) || fresh(c)
      ensures forall i :: 0 <= i < |order| ==> order[i] in old(order) || fresh(order[i])
      ensures history == Store(old(history), key, value)
      ensures Contents(order) == Store(old(Contents(order)), key, value)
    {
      hide Sound, Contents, Store;
      StorePrefix(Contents(order), history, key, value, |Store(Contents(order), key, value)|);
      EnterFront(key, value);
      Record(Store(history, key, value));
    }

    method EnterFront(key: Bytes, value: Bytes)
      requires Sound() && value != []
      modifies this`sessidx, this`tree, this`order, this`numsess, this`sesslistf, this`sesslistl, Cells(tree), order
      ensures Sound()
      ensures forall c :: c in Cells(tree) ==> c in old(Cells(tree)) || fresh(c)
      ensures forall i :: 0 <= i < |order| ==> order[i] in old(order) || fresh(order[i])
      ensures Contents(order) == Store(old(Contents(order)), key, value)
    {
      hide Sound, Look, Drop, Without, Indexed, Contents;
      var sess, i := Find(key);
      if sess == null {
        AddFresh(key, value);
      } else {
        RefreshAt(sess, value, i);
      }
    }

    method AddFresh(key: Bytes, value: Bytes)
      requires Sound() && Lookup(tree, key, SessCmp).Missing?
      modifies this`sessidx, this`tree, this`order, this`numsess, this`sesslistf, this`sesslistl, Cells(tree),
        order`prev
      ensures Sound() && Contents(order) == [(key, value)] + old(Contents(order))
      ensures forall c :: c in Cells(tree) ==> c in old(Cells(tree)) || fresh(c)
      ensures forall i :: 0 <= i < |order| ==> order[i] in old(order) || fresh(order[i])
    {
      hide Sound, SessCmp, Lookup;
      ghost var was := order;
      AddNew(key, value);
      assert order == [order[0]] + was;
      ContentsPush(order[0], was);
    }

    method RefreshAt(sess: Session, value: Bytes, ghost i: nat)
      requires Sound() && i < |order| && order[i] == sess
      modifies this`order, this`sesslistf, this`sesslistl, sess`value, order`next, order`prev
      ensures Sound() && Contents(order) == [(sess.key, value)] + Without(old(Contents(order)), i)
      ensures forall i :: 0 <= i < |order| ==> order[i] in old(order)
    {
      hide Sound, Without, Contents, ListOk;
      ghost var rest, b := Without(order, i), Contents(order);
      ContentsWithout(order, i);
      assert ListOk() by { SoundList(); }
      GoneOther(i);
      assert forall j :: 0 <= j < |rest| ==> rest[j] in order;
      Refresh(sess, value, i);
      assert Contents(rest) == Without(b, i);
      ContentsPush(sess, rest);
    }

    lemma GoneOther(i: nat)
      requires ListOk() && i < |order|
      ensures order[i] !in Without(order, i)
      ensures forall o :: o in Without(order, i) ==> o in order
    {
      hide Without, At, NextSkips, PrevSkips;
      GoneWithout(order, i);
      forall o | o in Without(order, i) ensures o in order {
        var j :| 0 <= j < |order| - 1 && Without(order, i)[j] == o;
        assert o == order[if j < i then j else j + 1];
      }
    }
  
    /** Nothing has been evicted that a recall could miss. */
    ghost predicate Whole()
      reads this`order, this`history, order`value
    {
      Contents(order) == history
    }

    lemma CutWhole(b: seq<Entry>, n: nat)
      requires |b| <= n
      ensures Cut(b, n) == b
    {
    }

    /** One operation of a run. */
    method Do(op: Op) returns (out: Fetched)
      requires Valid()
      modifies this, Cells(tree), order
      ensures Valid() && numconn == old(numconn) && history == After(old(history), op)
      ensures forall c :: c in Cells(tree) ==> c in old(Cells(tree)) || fresh(c)
      ensures forall i :: 0 <= i < |order| ==> order[i] in old(order) || fresh(order[i])
      ensures op.Recall? && out != None ==> out == Look(history, op.key)
      ensures op.Recall? && old(Whole()) ==> out == Look(history, op.key)
      ensures old(Whole()) && |history| <= Cap() ==> Whole()
      ensures old(Bounded()) ==> Bounded()
    {
      hide Sound, Look, Drop, Store, Cut, Contents, Cells, Without;
      out := None;
      match op
      case Save(key, value) =>
        if |Store(history, key, value)| <= Cap() {
          CutWhole(Store(history, key, value), Cap());
        }
        SessStore(key, value);
      case Remove(key) =>
        DropLength(Contents(order), key);
        var r := SessDel(key);
      case Recall(key) =>
        out := Fetch(key);
    }

    /** Any run of operations: a recall gives the value last stored, or nothing
        if the session was evicted; and as long as there would never be more
        sessions than the cap, none is, so it gives exactly that value. */
    method Drive(ops: seq<Op>, ghost past: seq<Entry>) returns (outs: seq<Fetched>)
      requires Valid() && history == HistoryOf(past)
      modifies this, Cells(tree), order
      ensures Valid() && history == HistoryOf(past + Stores(ops)) && |outs| == |ops|
      ensures Recalled(past, ops, outs, false)
      ensures old(Whole()) && Few(past, ops, Cap()) ==> Recalled(past, ops, outs, true)
      ensures old(Bounded()) ==> Bounded()
    {
      hide Sound, Look, Drop, Store, Contents, Cells, HistoryOf, LastStored, After, Recalled, Stores;
      ghost var whole, cap := Whole(), Cap();
      outs := [];
      Begins(past);
      var i := 0;
      while i < |ops|
        invariant 0 <= i <= |ops| && Valid() && Cap() == cap && |outs| == i
        invariant forall c :: c in Cells(tree) ==> c in old(Cells(tree)) || fresh(c)
        invariant forall j :: 0 <= j < |order| ==> order[j] in old(order) || fresh(order[j])
        invariant history == HistoryOf(past + Stores(ops[..i]))
        invariant whole && Few(past, ops, cap) ==> Whole() && Recalled(past, ops[..i], outs, true)
        invariant Recalled(past, ops[..i], outs, false)
        invariant old(Bounded()) ==> Bounded()
      {
        AfterStores(past, ops[..i], ops[i]);
        assert ops[..i + 1] == ops[..i] + [ops[i]];
        ghost var was := outs;
        var out := Do(ops[i]);
        if ops[i].Recall? {
          RecallIs(past + Stores(ops[..i]), ops[i]);
        }
        outs := outs + [out];
        RecalledSnoc(past, ops[..i], was, false, ops[i], out);
        if whole && Few(past, ops, cap) {
          RecalledSnoc(past, ops[..i], was, true, ops[i], out);
        }
        i := i + 1;
      }
      assert ops[..i] == ops;
    }

    lemma Begins(past: seq<Entry>)
      ensures past + Stores([]) == past && Recalled(past, [], [], true) && Recalled(past, [], [], false)
    {
    }

    lemma RecallIs(stores: seq<Entry>, op: Op)
      requires op.Recall?
      ensures After(HistoryOf(stores), op) == HistoryOf(stores)
      ensures Look(HistoryOf(stores), op.key) == LastStored(stores, op.key)
    {
      HistoryLook(stores, op.key);
    }
  }
}
