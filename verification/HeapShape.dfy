// The order of the time heaps of src/ratequeue.c and lib/mtio-epoll.c, on
// the sequence of their keys. Entry k has children 2k+1 and 2k+2.
module HeapShape {

  function Parent(k: nat): (p: nat)
    requires k > 0
    ensures p < k
  {
    (k - 1) / 2
  }

  ghost predicate Ordered(t: seq<real>) {
    forall k {:trigger t[k]} :: 0 < k < |t| ==> t[Parent(k)] <= t[k]
  }

  /** Ordered everywhere but around entry n. */
  ghost predicate OrderedBut(t: seq<real>, n: nat) {
    && n < |t|
    && (forall k {:trigger t[k]} :: 0 < k < |t| && k != n && Parent(k) != n ==> t[Parent(k)] <= t[k])
    && (forall k {:trigger t[k]} :: 0 < k < |t| && Parent(k) == n && n > 0 ==> t[Parent(n)] <= t[k])
  }

  /** Only entry n may be out of place, and only by being too small. */
  ghost predicate MayRise(t: seq<real>, n: nat) {
    OrderedBut(t, n) && forall k {:trigger t[k]} :: 0 < k < |t| && Parent(k) == n ==> t[n] <= t[k]
  }

  /** Only entry n may be out of place, and only by being too large. */
  ghost predicate MaySink(t: seq<real>, n: nat) {
    OrderedBut(t, n) && (n > 0 ==> t[Parent(n)] <= t[n])
  }

  function Swap<T>(t: seq<T>, i: nat, j: nat): (r: seq<T>)
    requires i < |t| && j < |t|
    ensures |r| == |t|
  {
    t[i := t[j]][j := t[i]]
  }

  lemma RiseStep(t: seq<real>, n: nat)
    requires MayRise(t, n) && n > 0 && t[n] < t[Parent(n)]
    ensures MayRise(Swap(t, n, Parent(n)), Parent(n))
  {
  }

  lemma RiseDone(t: seq<real>, n: nat)
    requires MayRise(t, n) && (n == 0 || t[Parent(n)] <= t[n])
    ensures Ordered(t)
  {
  }

  lemma SinkStep(t: seq<real>, n: nat, c: nat)
    requires MaySink(t, n) && (c == 2 * n + 1 || c == 2 * n + 2) && c < |t| && t[c] <= t[n]
    requires t[c] <= t[2 * n + 1] && (2 * n + 2 < |t| ==> t[c] <= t[2 * n + 2])
    ensures MaySink(Swap(t, n, c), c)
  {
    hide Parent;
    var u := Swap(t, n, c);
    Children(n, c);
    forall k | 0 < k < |u| && k != c && Parent(k) != c ensures u[Parent(k)] <= u[k] {
      Children(n, k);
      if k == n {
        assert t[Parent(n)] <= t[c];
      } else if Parent(k) != n {
        assert t[Parent(k)] <= t[k];
      }
    }
    forall k | 0 < k < |u| && Parent(k) == c ensures u[n] <= u[k] {
      Children(n, k);
      assert t[c] <= t[k];
    }
  }

  lemma Children(n: nat, k: nat)
    requires k > 0
    ensures Parent(k) == n <==> k == 2 * n + 1 || k == 2 * n + 2
  {
  }

  lemma SinkDone(t: seq<real>, n: nat)
    requires MaySink(t, n)
    requires 2 * n + 1 < |t| ==> t[n] <= t[2 * n + 1]
    requires 2 * n + 2 < |t| ==> t[n] <= t[2 * n + 2]
    ensures Ordered(t)
  {
  }

  /** Any new key at n leaves the rest of an ordered heap ordered. */
  lemma Rekey(t: seq<real>, n: nat, x: real)
    requires Ordered(t) && n < |t|
    ensures OrderedBut(t[n := x], n)
    ensures n > 0 && t[Parent(n)] > x ==> MayRise(t[n := x], n)
    ensures n == 0 || t[Parent(n)] <= x ==> MaySink(t[n := x], n)
  {
    var u := t[n := x];
    forall k | 0 < k < |t| && Parent(k) == n && n > 0 ensures u[Parent(n)] <= u[k] {
      assert t[Parent(n)] <= t[n] <= t[k];
    }
  }

  lemma Push(t: seq<real>, x: real)
    requires Ordered(t)
    ensures MayRise(t + [x], |t|)
  {
    var u := t + [x];
    forall k | 0 < k < |t| ensures u[Parent(k)] <= u[k] {
      assert u[k] == t[k] && u[Parent(k)] == t[Parent(k)];
    }
  }

  lemma Prefix(t: seq<real>, n: nat)
    requires Ordered(t) && n <= |t|
    ensures Ordered(t[..n])
  {
  }

  lemma {:induction false} RootLeast(t: seq<real>, k: nat)
    requires Ordered(t) && k < |t|
    ensures t[0] <= t[k]
    decreases k
  {
    if k > 0 {
      RootLeast(t, Parent(k));
    }
  }
}
