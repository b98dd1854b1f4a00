// The connection identifiers of src/htparser.c: words over A-Z, counted
// through without repeating one.
module ConnIds {
  import opened Octets
  import opened Seqs

  predicate Word(s: Bytes) {
    forall i :: 0 <= i < |s| ==> 65 <= s[i] <= 90
  }

  /** The place of a word in the count; its first letter is the lowest digit. */
  function Value(s: Bytes): nat
    requires Word(s)
  {
    if s == [] then 0 else s[0] - 64 + 26 * Value(s[1..])
  }

  /** No two words have the same place. */
  lemma {:induction false} Distinct(a: Bytes, b: Bytes)
    requires Word(a) && Word(b) && Value(a) == Value(b)
    ensures a == b
  {
    if a != [] && b != [] {
      Distinct(a[1..], b[1..]);
      assert a == [a[0]] + a[1..] && b == [b[0]] + b[1..];
    }
  }

  /** The next word. */
  function Succ(s: Bytes): (t: Bytes)
    requires Word(s)
    ensures Word(t) && Value(t) == Value(s) + 1
  {
    if s == [] then [65]
    else if s[0] == 90 then [65] + Succ(s[1..])
    else [s[0] + 1] + s[1..]
  }

  function Times(n: nat, s: Bytes): (t: Bytes)
    requires Word(s)
    ensures Word(t) && Value(t) == Value(s) + n
  {
    if n == 0 then s else Succ(Times(n - 1, s))
  }

  /** The identifiers of two different calls differ. */
  lemma NeverAgain(j: nat, k: nat)
    requires j != k
    ensures Times(j, []) != Times(k, [])
  {
    assert Value(Times(j, [])) != Value(Times(k, []));
  }

  lemma Settle(done: Bytes, x: Byte, y: Byte, rest: Bytes)
    ensures (done + ([x] + rest))[|done|] == x
    ensures (done + ([x] + rest))[|done| := y] == done + ([y] + rest)
  {
  }

  lemma SuccNil()
    ensures Succ([]) == [65]
  {
  }

  lemma SuccCons(x: Byte, more: Bytes)
    requires Word([x] + more)
    ensures Word(more) && 65 <= x <= 90
    ensures Succ([x] + more) == if x == 90 then [65] + Succ(more) else [x + 1] + more
  {
    hide Value;
    var s := [x] + more;
    assert s[0] == x && s[1..] == more;
    assert forall i :: 0 <= i < |more| ==> more[i] == s[i + 1];
  }

  /** What the next step does to the first of the letters left. */
  lemma Carry(done: Bytes, x: Byte, more: Bytes)
    requires Word([x] + more)
    ensures var s, i := done + ([x] + more), |done|;
      && Word(more) && s[i] == x <= 90
      && (x == 90 ==> s[i := 65] == (done + [65]) + more && (done + [65]) + Succ(more) == done + Succ([x] + more))
      && (x < 90 ==> s[i := x + 1] == done + Succ([x] + more))
  {
    hide Value, Succ, Word;
    SuccCons(x, more);
    Settle(done, x, if x < 90 then x + 1 else 65, more);
    Assoc(done, [65], more);
    if x == 90 {
      Assoc(done, [65], Succ(more));
    }
  }

  class Counter {
    var cur: seq<Byte>

    constructor ()
      ensures cur == []
    {
      cur := [];
    }

    /** `connid`. */
    method ConnId() returns (ret: Bytes)
      requires Word(cur)
      modifies this
      ensures Word(cur) && ret == cur == Succ(old(cur))
    {
      hide Value, Succ;
      SuccNil();
      var i := 0;
      ghost var was, done, rest: Bytes := cur, [], cur;
      while i < |cur|
        invariant 0 <= i == |done| && cur == done + rest && Word(rest)
        invariant done + Succ(rest) == Succ(was)
        decreases |rest|
      {
        assert rest == [rest[0]] + rest[1..];
        Carry(done, rest[0], rest[1..]);
        if cur[i] + 1 > 90 {
          cur := cur[i := 65];
          done, rest := done + [65], rest[1..];
        } else {
          cur := cur[i := cur[i] + 1];
          return cur;
        }
        i := i + 1;
      }
      assert rest == [] && cur == done;
      cur := cur + [65];
      ret := cur;
    }
  }
}
