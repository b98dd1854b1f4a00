// The open-addressing table of src/ratequeue.c: linear probing with
// wrap-around, backward-shift deletion, and resizing by powers of two.
module HashTable {
  import opened Buckets

  const SBUCKETS: nat := 7

  function Pow2(k: nat): (r: nat)
    ensures r > 0
  {
    if k == 0 then 1 else 2 * Pow2(k - 1)
  }

  lemma {:induction false} Pow2Halves(k: nat)
    requires k >= SBUCKETS
    ensures Pow2(k) == 2 * Pow2(k - 1) && Pow2(k - 1) == 2 * Pow2(k - 2) && Pow2(k - 2) == 2 * Pow2(k - 3)
    ensures Pow2(k) >= 128
  {
    if k == SBUCKETS {
      assert Pow2(3) == 8;
      assert Pow2(6) == 64;
    } else {
      Pow2Halves(k - 1);
    }
  }

  // ----- Positions on the ring of n slots -----

  /** Steps from slot i forward to slot x, wrapping at n. */
  function Dist(i: nat, x: nat, n: nat): (d: nat)
    requires i < n && x < n
    ensures d < n
  {
    if x >= i then x - i else x + n - i
  }

  function Next(i: nat, n: nat): (r: nat)
    requires i < n
    ensures r < n
  {
    if i + 1 == n then 0 else i + 1
  }

  /** The slot n steps after slot i. */
  function Ahead(i: nat, n: nat, size: nat): (r: nat)
    requires i < size && n <= size
    ensures r < size
  {
    if i + n < size then i + n else i + n - size
  }

  lemma AheadStep(i: nat, n: nat, size: nat)
    requires i < size && n < size
    ensures Dist(i, Ahead(i, n, size), size) == n
    ensures (Ahead(i, n, size) + 1) % size == Ahead(i, n + 1, size)
    ensures forall j: nat :: j < size && Dist(i, j, size) < n + 1 ==> Dist(i, j, size) < n || j == Ahead(i, n, size)
  {
    RingMod(0, Ahead(i, n, size), i, size);
  }

  function Home(id: Source, n: nat): (h: nat)
    requires n > 0
    ensures h < n
  {
    id.Hash() % n
  }

  /** The masked expressions of the C code are these ring operations. */
  lemma RingMod(h: nat, i: nat, x: nat, n: nat)
    requires n > 0 && i < n && x < n
    ensures (i + 1) % n == Next(i, n)
    ensures (x - i) % n == Dist(i, x, n)
    ensures (h - i) % n == Dist(i, h % n, n)
  {
    ModUnique(x - i, if x >= i then 0 else -1, Dist(i, x, n), n);
    ModUnique(i + 1, if i + 1 == n then 1 else 0, Next(i, n), n);
    var y := h % n;
    var q := h / n;
    var k := if y >= i then q else q - 1;
    assert h == q * n + y;
    assert h - i == k * n + Dist(i, y, n) by {
      if y < i { assert (q - 1) * n == q * n - n; }
    }
    ModUnique(h - i, k, Dist(i, y, n), n);
  }

  lemma ModUnique(a: int, q: int, r: nat, n: nat)
    requires r < n && a == q * n + r
    ensures a % n == r
  {
    DivBetween(n, q - a / n, r, a % n);
  }

  lemma DivBetween(n: nat, d: int, r: nat, r': nat)
    requires r < n && r' < n && d * n == r' - r
    ensures r == r'
  {
    if d >= 1 {
      assert d * n == (d - 1) * n + n;
    } else if d <= -1 {
      assert d * n == (d + 1) * n - n;
    }
  }

  // ----- What a slot sequence means -----

  /** Every slot from an entry's home up to the entry is taken, except that
      the slot `hole` may be free. */
  ghost predicate ProbedBut(s: seq<Bucket?>, hole: int) {
    forall x, j {:trigger s[x], s[j]} ::
      (0 <= x < |s| && 0 <= j < |s| && s[x] != null && j != hole &&
       Dist(Home(s[x].id, |s|), j, |s|) < Dist(Home(s[x].id, |s|), x, |s|)) ==> s[j] != null
  }

  ghost predicate Probed(s: seq<Bucket?>) {
    ProbedBut(s, -1)
  }

  /** `at` gives the one slot of each source in s. */
  ghost predicate Located(s: seq<Bucket?>, at: map<Source, nat>) {
    && (forall k :: k in at ==> at[k] < |s| && s[at[k]] != null && s[at[k]].id == k)
    && (forall x :: 0 <= x < |s| && s[x] != null ==> s[x].id in at && at[s[x].id] == x)
  }

  ghost function Ids(s: seq<Bucket?>): set<Source> {
    set x | 0 <= x < |s| && s[x] != null :: s[x].id
  }

  lemma {:induction false} FullIds(s: seq<Bucket?>)
    requires forall x :: 0 <= x < |s| ==> s[x] != null
    requires forall x, y :: 0 <= x < y < |s| ==> s[x].id != s[y].id
    ensures |Ids(s)| == |s|
  {
    if s == [] {
      assert Ids(s) == {};
    } else {
      var t := s[..|s| - 1];
      FullIds(t);
      var last := s[|s| - 1];
      assert forall k :: k in Ids(t) ==> exists x :: 0 <= x < |t| && t[x].id == k;
      assert last.id !in Ids(t);
      assert Ids(s) == Ids(t) + {last.id} by {
        forall k | k in Ids(s) ensures k in Ids(t) + {last.id} {
          var x :| 0 <= x < |s| && s[x].id == k;
          if x < |t| { assert t[x].id == k; }
        }
        forall k | k in Ids(t) ensures k in Ids(s) {
          var x :| 0 <= x < |t| && t[x].id == k;
          assert s[x].id == k;
        }
        assert s[|s| - 1].id in Ids(s);
      }
    }
  }

  /** A table holding fewer sources than slots (not counting `but`) has a free slot. */
  lemma FreeSlot(s: seq<Bucket?>, at: map<Source, nat>, but: nat) returns (e: nat)
    requires Located(s, at) && but < |s|
    requires |at| + (if s[but] == null then 1 else 0) < |s|
    ensures e < |s| && s[e] == null && (s[but] == null ==> e != but)
  {
    if e0 :| 0 <= e0 < |s| && s[e0] == null && (s[but] == null ==> e0 != but) {
      e := e0;
    } else {
      e := 0;
      var t := if s[but] == null then s[..but] + s[but + 1..] else s;
      FullIds(t);
      SubsetSize(Ids(t), at.Keys);
      assert false;
    }
  }

  lemma {:induction false} SubsetSize<T>(a: set<T>, b: set<T>)
    requires a <= b
    ensures |a| <= |b|
  {
    if a != {} {
      var x :| x in a;
      SubsetSize(a - {x}, b - {x});
    }
  }

  /** Filling the first free slot of a probe sequence keeps entries reachable. */
  lemma PlaceProbed(s: seq<Bucket?>, i: nat, bk: Bucket)
    requires i < |s| && s[i] == null && Probed(s)
    requires FullUpTo(s, bk.id, i)
    ensures Probed(s[i := bk])
  {
  }

  lemma PlaceMapped(s: seq<Bucket?>, at: map<Source, nat>, live: map<Source, Bucket>, i: nat, bk: Bucket)
    requires i < |s| && s[i] == null && Mapped(s, at, live) && bk.id !in at
    ensures Mapped(s[i := bk], at[bk.id := i], live[bk.id := bk])
    ensures |live[bk.id := bk]| == |live| + 1
  {
  }

  lemma PlaceLocated(s: seq<Bucket?>, at: map<Source, nat>, i: nat, bk: Bucket)
    requires i < |s| && s[i] == null && Located(s, at) && bk.id !in at
    ensures Located(s[i := bk], at[bk.id := i])
  {
  }

  // ----- Backward-shift deletion -----

  /** The deletion loop's state: free slot i, scan position o, entries strictly
      between them never probe across i, and i is the only gap in any probe. */
  ghost predicate Shifting(s: seq<Bucket?>, i: nat, o: nat) {
    && i < |s| && o < |s| && i != o && s[i] == null
    && ProbedBut(s, i)
    && (forall x :: 0 <= x < |s| && s[x] != null && Dist(i, x, |s|) < Dist(i, o, |s|) ==>
          Dist(Home(s[x].id, |s|), x, |s|) <= Dist(Home(s[x].id, |s|), i, |s|))
  }

  lemma ShiftStart(s: seq<Bucket?>, i: nat)
    requires 1 < |s| && i < |s| && Probed(s)
    ensures Shifting(s[i := null], i, Next(i, |s|))
  {
  }

  lemma ShiftKeep(s: seq<Bucket?>, i: nat, o: nat)
    requires Shifting(s, i, o) && s[o] != null && Next(o, |s|) != i
    requires var p := Dist(i, Home(s[o].id, |s|), |s|); 0 < p <= Dist(i, o, |s|)
    ensures Shifting(s, i, Next(o, |s|))
  {
  }

  lemma ShiftMove(s: seq<Bucket?>, i: nat, o: nat)
    requires Shifting(s, i, o) && s[o] != null && 1 < |s|
    requires var p := Dist(i, Home(s[o].id, |s|), |s|); p == 0 || p > Dist(i, o, |s|)
    ensures Shifting(s[i := s[o]][o := null], o, Next(o, |s|))
  {
  }

  lemma ShiftDone(s: seq<Bucket?>, i: nat, o: nat)
    requires Shifting(s, i, o) && s[o] == null
    ensures Probed(s)
  {
  }

  ghost predicate Mapped(s: seq<Bucket?>, at: map<Source, nat>, live: map<Source, Bucket>) {
    && Located(s, at) && live.Keys == at.Keys
    && (forall k :: k in live ==> at[k] < |s| && s[at[k]] == live[k] && live[k].id == k)
  }

  lemma MappedFacts(s: seq<Bucket?>, at: map<Source, nat>, live: map<Source, Bucket>)
    requires Mapped(s, at, live)
    ensures Located(s, at) && |at| == |live| && at.Keys == live.Keys
    ensures forall k :: k in live ==> live[k].id == k
  {
    assert |at| == |at.Keys| == |live.Keys| == |live|;
  }

  ghost predicate GapInv(s: seq<Bucket?>, at: map<Source, nat>, live: map<Source, Bucket>, i: nat, o: nat, e: nat) {
    && i < |s| && o < |s| && Mapped(s, at, live) && Shifting(s, i, o)
    && i != o && s[i] == null && e < |s| && s[e] == null && e != i && Dist(i, o, |s|) <= Dist(i, e, |s|)
  }

  lemma GapStart(s: seq<Bucket?>, at: map<Source, nat>, live: map<Source, Bucket>, i: nat, e: nat)
    requires Mapped(s, at, live) && Probed(s)
    requires i < |s| && s[i] != null && e < |s| && s[e] == null
    ensures (i + 1) % |s| == Next(i, |s|)
    ensures GapInv(s[i := null], at - {s[i].id}, live - {s[i].id}, i, Next(i, |s|), e)
  {
    ShiftStart(s, i);
    RingMod(0, i, i, |s|);
  }

  lemma GapMasks(s: seq<Bucket?>, i: nat, o: nat)
    requires i < |s| && o < |s| && s[o] != null
    ensures (s[o].id.Hash() - i) % |s| == Dist(i, Home(s[o].id, |s|), |s|)
    ensures (o - i) % |s| == Dist(i, o, |s|)
    ensures (o + 1) % |s| == Next(o, |s|)
  {
    RingMod(s[o].id.Hash(), i, o, |s|);
    RingMod(0, o, o, |s|);
  }

  lemma MoveMapped(s: seq<Bucket?>, at: map<Source, nat>, live: map<Source, Bucket>, i: nat, o: nat)
    requires Mapped(s, at, live) && i < |s| && o < |s| && s[i] == null && s[o] != null
    ensures Mapped(s[i := s[o]][o := null], at[s[o].id := i], live)
  {
    assert s[o].id in at && at[s[o].id] == o;
  }

  lemma GapMove(s: seq<Bucket?>, at: map<Source, nat>, live: map<Source, Bucket>, i: nat, o: nat, e: nat)
    requires GapInv(s, at, live, i, o, e) && s[o] != null
    requires var p := Dist(i, Home(s[o].id, |s|), |s|); p == 0 || p > Dist(i, o, |s|)
    ensures GapInv(s[i := s[o]][o := null], at[s[o].id := i], live, o, Next(o, |s|), e)
    ensures Dist(Next(o, |s|), e, |s|) < Dist(o, e, |s|)
  {
    hide ProbedBut, Shifting, Located, Mapped;
    ShiftMove(s, i, o);
    MoveMapped(s, at, live, i, o);
  }

  lemma GapKeep(s: seq<Bucket?>, at: map<Source, nat>, live: map<Source, Bucket>, i: nat, o: nat, e: nat)
    requires GapInv(s, at, live, i, o, e) && s[o] != null
    requires var p := Dist(i, Home(s[o].id, |s|), |s|); 0 < p <= Dist(i, o, |s|)
    ensures GapInv(s, at, live, i, Next(o, |s|), e)
    ensures Dist(Next(o, |s|), e, |s|) < Dist(o, e, |s|)
  {
    hide ProbedBut, Shifting, Located, Mapped, Home;
    ShiftKeep(s, i, o);
  }

  lemma GapDone(s: seq<Bucket?>, at: map<Source, nat>, live: map<Source, Bucket>, i: nat, o: nat, e: nat)
    requires GapInv(s, at, live, i, o, e) && s[o] == null
    ensures Mapped(s, at, live) && Probed(s)
  {
    hide ProbedBut, Probed, Mapped, Shifting;
    ShiftDone(s, i, o);
  }

  // ----- The table -----

  /** All slots the probe for `id` meets before slot i are taken. */
  ghost predicate FullUpTo(s: seq<Bucket?>, id: Source, i: nat)
    requires i < |s|
  {
    forall j :: 0 <= j < |s| && Dist(Home(id, |s|), j, |s|) < Dist(Home(id, |s|), i, |s|) ==> s[j] != null
  }

  lemma FullAtHome(s: seq<Bucket?>, id: Source)
    requires |s| > 0
    ensures FullUpTo(s, id, Home(id, |s|))
  {
  }

  /** One step of a probe that has met only taken slots; e is a free slot ahead. */
  lemma ProbeStep(s: seq<Bucket?>, id: Source, i: nat, e: nat)
    requires i < |s| && e < |s| && s[i] != null && s[e] == null && FullUpTo(s, id, i)
    requires Dist(Home(id, |s|), i, |s|) <= Dist(Home(id, |s|), e, |s|)
    ensures (i + 1) % |s| == Next(i, |s|)
    ensures FullUpTo(s, id, Next(i, |s|))
    ensures Dist(Home(id, |s|), i, |s|) < Dist(Home(id, |s|), Next(i, |s|), |s|) <= Dist(Home(id, |s|), e, |s|)
    ensures Dist(Home(id, |s|), Next(i, |s|), |s|) == Dist(Home(id, |s|), i, |s|) + 1
  {
    RingMod(0, i, i, |s|);
  }

  lemma {:induction false} FewerKeys(some: map<Source, nat>, all: map<Source, nat>, k: Source)
    requires some.Keys <= all.Keys && k in all && k !in some
    ensures |some| < |all|
  {
    SubsetSize(some.Keys, all.Keys - {k});
  }

  /** Put bk in the first free slot of its probe sequence. */
  method Place(fill: array<Bucket?>, bk: Bucket, ghost pos: map<Source, nat>) returns (ghost at: nat)
    requires |pos| + 1 < fill.Length
    requires Located(fill[..], pos) && Probed(fill[..]) && bk.id !in pos
    modifies fill
    ensures at < fill.Length && old(fill[..])[at] == null && fill[..] == old(fill[..])[at := bk]
    ensures Located(fill[..], pos[bk.id := at]) && Probed(fill[..])
  {
    var nl := fill.Length;
    ghost var s := fill[..];
    ghost var e := FreeSlot(s, pos, 0);
    ghost var home := Home(bk.id, nl);
    var o, n := bk.id.Hash() % nl, 0;
    while n < nl
      invariant 0 <= o < nl && n == Dist(home, o, nl) <= Dist(home, e, nl)
      invariant FullUpTo(s, bk.id, o)
      invariant fill[..] == s
    {
      assert fill[o] == s[o];
      if fill[o] == null {
        fill[o] := bk;
        PlaceProbed(s, o, bk);
        PlaceLocated(s, pos, o, bk);
        return o;
      }
      ProbeStep(s, bk.id, o, e);
      o, n := (o + 1) % nl, n + 1;
    }
  }

  /** The entries of s at slots below i are exactly those in f, at pos. */
  ghost predicate Copied(s: seq<Bucket?>, at: map<Source, nat>, f: seq<Bucket?>, pos: map<Source, nat>, i: nat)
    requires Located(s, at) && Located(f, pos)
  {
    && (forall k :: k in pos ==> k in at)
    && (forall k :: k in at ==> (k in pos <==> at[k] < i))
    && (forall k :: k in pos ==> f[pos[k]] == s[at[k]])
  }

  lemma CopiedStep(s: seq<Bucket?>, at: map<Source, nat>, f: seq<Bucket?>, pos: map<Source, nat>, i: nat, o: nat)
    requires Located(s, at) && Located(f, pos) && Copied(s, at, f, pos, i)
    requires i < |s| && s[i] != null && o < |f| && f[o] == null
    ensures s[i].id in at && s[i].id !in pos && |pos| < |at|
    ensures Located(f[o := s[i]], pos[s[i].id := o])
    ensures Copied(s, at, f[o := s[i]], pos[s[i].id := o], i + 1)
  {
    assert s[i].id in at && at[s[i].id] == i;
    FewerKeys(pos, at, s[i].id);
    PlaceLocated(f, pos, o, s[i]);
  }

  lemma CopiedSkip(s: seq<Bucket?>, at: map<Source, nat>, f: seq<Bucket?>, pos: map<Source, nat>, i: nat)
    requires Located(s, at) && Located(f, pos) && Copied(s, at, f, pos, i)
    requires i < |s| && s[i] == null
    ensures Copied(s, at, f, pos, i + 1)
  {
  }

  lemma CopiedMapped(s: seq<Bucket?>, at: map<Source, nat>, live: map<Source, Bucket>, f: seq<Bucket?>,
    pos: map<Source, nat>)
    requires Mapped(s, at, live) && Located(f, pos) && pos.Keys == at.Keys
    requires Copied(s, at, f, pos, |s|)
    ensures Mapped(f, pos, live)
  {
  }

  /** Move every entry of `was` into the empty slots `fill`. */
  method Reinsert(was: array<Bucket?>, fill: array<Bucket?>, ghost at: map<Source, nat>)
    returns (ghost pos: map<Source, nat>)
    requires was != fill && Located(was[..], at) && |at| + 1 < fill.Length
    requires forall x :: 0 <= x < fill.Length ==> fill[x] == null
    modifies fill
    ensures Located(fill[..], pos) && Probed(fill[..]) && pos.Keys == at.Keys
    ensures Copied(was[..], at, fill[..], pos, was.Length)
  {
    ghost var s := was[..];
    pos := map[];
    var i := 0;
    while i < was.Length
      invariant 0 <= i <= was.Length && was[..] == s
      invariant Located(fill[..], pos) && Probed(fill[..])
      invariant Copied(s, at, fill[..], pos, i)
    {
      assert was[i] == s[i];
      ghost var f := fill[..];
      if was[i] != null {
        assert s[i].id !in pos && |pos| < |at| by {
          FewerKeys(pos, at, s[i].id);
        }
        ghost var o := Place(fill, was[i], pos);
        CopiedStep(s, at, f, pos, i, o);
        pos := pos[s[i].id := o];
      } else {
        CopiedSkip(s, at, f, pos, i);
      }
      i := i + 1;
    }
  }

  class Table {
    const sbuckets: array<Bucket?>
    var buckets: array<Bucket?>
    var hashlen: nat
    var nbuckets: nat
    ghost var live: map<Source, Bucket>  // the table's meaning
    ghost var at: map<Source, nat>       // where each source sits

    ghost function Repr(): set<object>
      reads this
    {
      {this, sbuckets, buckets}
    }

    /** Slots, abstract map and sizes agree, whatever the load. */
    ghost predicate Consistent()
      reads Repr()
    {
      && sbuckets.Length == Pow2(SBUCKETS)
      && SBUCKETS <= hashlen && buckets.Length == Pow2(hashlen)
      && (hashlen == SBUCKETS <==> buckets == sbuckets)
      && Mapped(buckets[..], at, live) && Probed(buckets[..]) && nbuckets == |live|
    }

    /** Between operations at most half the slots are taken. */
    ghost predicate Valid()
      reads Repr()
    {
      Consistent() && nbuckets <= Pow2(hashlen - 1)
    }

    /** ... and, unless the table is the smallest, more than an eighth. */
    ghost predicate Snug()
      reads this`hashlen, this`nbuckets
    {
      hashlen > SBUCKETS ==> nbuckets > Pow2(hashlen - 3)
    }

    /** What a scan of the slots finds is what the map holds. */
    lemma Scanned(src: Source, i: nat)
      requires Consistent()
      ensures i < buckets.Length && buckets[i] != null && buckets[i].id == src ==>
        src in live && live[src] == buckets[i]
      ensures (forall j :: 0 <= j < buckets.Length && buckets[j] != null ==> buckets[j].id != src) ==> src !in live
    {
      hide ProbedBut, Probed, Pow2;
      if i < buckets.Length {
        assert buckets[i] == buckets[..][i];
      }
    }

    lemma Room()
      requires Consistent()
      ensures SBUCKETS <= hashlen
      ensures forall k :: k in live ==> live[k].id == k
      ensures Pow2(hashlen) == 2 * Pow2(hashlen - 1) && Pow2(hashlen - 1) == 2 * Pow2(hashlen - 2)
      ensures Pow2(hashlen - 2) == 2 * Pow2(hashlen - 3) && Pow2(hashlen) >= 128
    {
      hide Located, ProbedBut, Probed, Mapped, Pow2;
      Pow2Halves(hashlen);
      MappedFacts(buckets[..], at, live);
    }

    constructor ()
      ensures Valid() && fresh(Repr()) && live == map[] && Snug()
    {
      var b := new Bucket?[Pow2(SBUCKETS)](_ => null);
      sbuckets, buckets := b, b;
      hashlen, nbuckets := SBUCKETS, 0;
      live, at := map[], map[];
    }

    /** Empty slots for a table of length nlen; the static array when small. */
    method EmptySlots(nlen: nat) returns (fill: array<Bucket?>)
      requires sbuckets.Length == Pow2(SBUCKETS)
      modifies sbuckets
      ensures fill.Length == Pow2(nlen)
      ensures forall x :: 0 <= x < fill.Length ==> fill[x] == null
      ensures nlen == SBUCKETS ==> fill == sbuckets
      ensures nlen != SBUCKETS ==> fresh(fill) && sbuckets[..] == old(sbuckets[..])
    {
      if nlen == SBUCKETS {
        fill := sbuckets;
        forall k | 0 <= k < fill.Length {
          fill[k] := null;
        }
      } else {
        fill := new Bucket?[Pow2(nlen)](_ => null);
      }
    }

    method Rehash(wanted: nat)
      requires Consistent()
      requires nbuckets <= Pow2(if wanted <= SBUCKETS then SBUCKETS - 1 else wanted - 1)
      modifies this, sbuckets, buckets
      ensures Valid() && (buckets == old(buckets) || buckets == sbuckets || fresh(buckets))
      ensures live == old(live) && nbuckets == old(nbuckets)
      ensures hashlen == if wanted <= SBUCKETS then SBUCKETS else wanted
    {
      hide Located, ProbedBut, Probed, Mapped, Copied, Pow2;
      var nlen := if wanted <= SBUCKETS then SBUCKETS else wanted;
      if nlen != hashlen {
        Pow2Halves(nlen);
        ghost var s := buckets[..];
        MappedFacts(s, at, live);
        var was := buckets;
        var fill := EmptySlots(nlen);
        assert was != fill;
        assert was[..] == s;
        Refill(was, fill, nlen);
      }
    }

    /** Move every entry over, and use the new slots. */
    method Refill(was: array<Bucket?>, fill: array<Bucket?>, nlen: nat)
      requires was != fill && Mapped(was[..], at, live) && nbuckets == |live| == |at|
      requires SBUCKETS <= nlen && sbuckets.Length == Pow2(SBUCKETS) && fill.Length == Pow2(nlen)
      requires nlen == SBUCKETS <==> fill == sbuckets
      requires nbuckets <= Pow2(nlen - 1) && Pow2(nlen) == 2 * Pow2(nlen - 1) && Pow2(nlen) >= 128
      requires forall x :: 0 <= x < fill.Length ==> fill[x] == null
      modifies fill, this`buckets, this`hashlen, this`at
      ensures Valid() && buckets == fill && live == old(live) && hashlen == nlen
    {
      hide Located, ProbedBut, Probed, Mapped, Copied, Pow2;
      MappedFacts(was[..], at, live);
      ghost var pos := Reinsert(was, fill, at);
      CopiedMapped(was[..], at, live, fill[..], pos);
      Adopt(fill, nlen, pos);
    }

    method Adopt(fill: array<Bucket?>, nlen: nat, ghost pos: map<Source, nat>)
      requires sbuckets.Length == Pow2(SBUCKETS)
      requires SBUCKETS <= nlen && fill.Length == Pow2(nlen)
      requires nlen == SBUCKETS <==> fill == sbuckets
      requires Mapped(fill[..], pos, live) && Probed(fill[..])
      requires nbuckets == |live| && nbuckets <= Pow2(nlen - 1)
      modifies this`buckets, this`hashlen, this`at
      ensures Valid() && buckets == fill && hashlen == nlen
    {
      hide Located, ProbedBut, Probed, Mapped, Pow2;
      buckets, hashlen, at := fill, nlen, pos;
    }

    /** The full scan that opens `hashget`: every slot from the home on. */
    method Find(src: Source) returns (bk: Bucket?)
      requires Valid()
      ensures Valid()
      ensures bk == if src in live then live[src] else null
    {
      hide Located, ProbedBut, Probed, Mapped, Pow2;
      Room();
      var N := buckets.Length;
      ghost var home := Home(src, N);
      var i, n := src.Hash() % N, 0;
      while n < N
        invariant 0 <= i < N && n <= N && i == Ahead(home, n, N)
        invariant forall j :: 0 <= j < N && Dist(home, j, N) < n && buckets[j] != null ==> buckets[j].id != src
      {
        bk := buckets[i];
        if bk != null && bk.id == src {
          Scanned(src, i);
          return;
        }
        AheadStep(home, n, N);
        i, n := (i + 1) % N, n + 1;
      }
      Scanned(src, N);
      bk := null;
    }

    /** The second loop of `hashget`: the first free slot on the probe. */
    method FreeProbe(src: Source) returns (i: nat)
      requires Valid()
      ensures i < buckets.Length && buckets[..][i] == null && FullUpTo(buckets[..], src, i)
    {
      hide Located, ProbedBut, Probed, FullUpTo, Mapped, Pow2;
      Pow2Halves(hashlen);
      var N := buckets.Length;
      ghost var s := buckets[..];
      MappedFacts(s, at, live);
      ghost var e := FreeSlot(s, at, 0);
      FullAtHome(s, src);
      i := src.Hash() % N;
      while buckets[i] != null
        invariant 0 <= i < N && Dist(Home(src, N), i, N) <= Dist(Home(src, N), e, N)
        invariant FullUpTo(s, src, i)
        decreases Dist(Home(src, N), e, N) - Dist(Home(src, N), i, N)
      {
        assert s[i] != null;
        ProbeStep(s, src, i, e);
        i := (i + 1) % N;
      }
    }

    /** Put a new bucket in the first free slot of its probe sequence. */
    method Insert(src: Source, now: real) returns (bk: Bucket)
      requires Valid() && src !in live
      modifies this, buckets
      ensures Consistent() && buckets == old(buckets) && hashlen == old(hashlen)
      ensures nbuckets == old(nbuckets) + 1
      ensures live == old(live)[src := bk] && fresh(bk) && bk.Idle(src, now)
    {
      hide Located, ProbedBut, Probed, FullUpTo, Mapped, Pow2;
      ghost var s := buckets[..];
      MappedFacts(s, at, live);
      var i := FreeProbe(src);
      bk := new Bucket(src, now);
      PlaceProbed(s, i, bk);
      PlaceMapped(s, at, live, i, bk);
      buckets[i] := bk;
      assert buckets[..] == s[i := bk];
      live, at := live[src := bk], at[src := i];
      nbuckets := nbuckets + 1;
    }

    method HashGet(src: Source, now: real) returns (bk: Bucket)
      requires Valid()
      modifies this, sbuckets, buckets
      ensures Valid() && (buckets == old(buckets) || buckets == sbuckets || fresh(buckets))
      ensures src in live && live[src] == bk
      ensures src in old(live) ==> live == old(live)
      ensures src !in old(live) ==> live == old(live)[src := bk] && fresh(bk) && bk.Idle(src, now)
      ensures old(Snug()) ==> Snug()
    {
      hide Consistent, Pow2;
      Room();
      var got := Find(src);
      if got != null {
        return got;
      }
      bk := Insert(src, now);
      if nbuckets > Pow2(hashlen - 1) {
        Rehash(hashlen + 1);
      }
    }

    /** Free slot i of bk and shift the entries behind it back. */
    method CloseGap(home: nat, bk: Bucket)
      requires Valid() && bk.id in live && live[bk.id] == bk && bk.id in at && at[bk.id] == home
      modifies this`live, this`at, this`nbuckets, buckets
      ensures live == old(live) - {bk.id}
      ensures Consistent() && nbuckets == old(nbuckets) - 1
    {
      hide Located, Shifting, ProbedBut, Probed, Mapped, GapInv, Pow2;
      Room();
      ghost var rest := live - {bk.id};
      ghost var pos := ShiftBack(home, bk, rest);
      assert |live| == |rest| + 1;
      live, at := rest, pos;
      nbuckets := nbuckets - 1;
    }

    method ShiftBack(home: nat, bk: Bucket, ghost rest: map<Source, Bucket>) returns (ghost pos: map<Source, nat>)
      requires Valid() && bk.id in live && live[bk.id] == bk && bk.id in at && at[bk.id] == home
      requires rest == live - {bk.id}
      modifies buckets
      ensures Mapped(buckets[..], pos, rest) && Probed(buckets[..])
    {
      hide Located, Shifting, ProbedBut, Probed, Pow2;
      var i, N := home, buckets.Length;
      ghost var s := buckets[..];
      Pow2Halves(hashlen);
      MappedFacts(s, at, live);
      ghost var e := FreeSlot(s, at, 0);
      GapStart(s, at, live, i, e);
      pos := at - {bk.id};
      hide Mapped, GapInv;
      buckets[i] := null;
      assert buckets[..] == s[i := null];
      var o := (i + 1) % N;
      while buckets[o] != null
        invariant 0 <= i < N && 0 <= o < N && 0 <= e < N == buckets.Length
        invariant GapInv(buckets[..], pos, rest, i, o, e)
        decreases Dist(o, e, N)
        modifies buckets
      {
        s := buckets[..];
        var sb := buckets[o];
        GapMasks(s, i, o);
        var p := (sb.id.Hash() - i) % N;
        if p == 0 || p > (o - i) % N {
          GapMove(s, pos, rest, i, o, e);
          buckets[i] := sb;
          buckets[o] := null;
          assert buckets[..] == s[i := sb][o := null];
          pos := pos[sb.id := i];
          i := o;
        } else {
          GapKeep(s, pos, rest, i, o, e);
        }
        o := (o + 1) % N;
      }
      GapDone(buckets[..], pos, rest, i, o, e);
    }

    /** The probe loop of `hashdel`; its two asserts hold. */
    method Locate(bk: Bucket) returns (i: nat)
      requires Valid() && bk.id in live && live[bk.id] == bk
      ensures Valid() && bk.id in at && i == at[bk.id]
    {
      var N := buckets.Length;
      ghost var s := buckets[..];
      ghost var home := Home(bk.id, N);
      ghost var t := at[bk.id];
      i := bk.id.Hash() % N;
      var n := 0;
      while n < N
        invariant 0 <= i < N && n == Dist(home, i, N) <= Dist(home, t, N)
      {
        assert s[t] == bk;
        var sb := buckets[i];
        assert s[i] == sb;
        assert sb != null;
        if sb.id == bk.id {
          assert sb == bk;
          return;
        }
        RingMod(0, i, i, N);
        i, n := (i + 1) % N, n + 1;
      }
    }

    method HashDel(bk: Bucket)
      requires Valid() && bk.id in live && live[bk.id] == bk
      modifies this, sbuckets, buckets
      ensures Valid() && (buckets == old(buckets) || buckets == sbuckets || fresh(buckets))
      ensures live == old(live) - {bk.id}
      ensures old(Snug()) ==> Snug()
    {
      hide Consistent, Pow2;
      Room();
      var i := Locate(bk);
      CloseGap(i, bk);
      if nbuckets <= Pow2(hashlen - 3) {
        if hashlen > SBUCKETS {
          Pow2Halves(hashlen - 1);
        }
        Rehash(hashlen - 1);
      }
    }
  }
}
