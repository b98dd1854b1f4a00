// Small arithmetic that several parsers and buffers share.
module Numbers {

  function Min(a: nat, b: nat): nat {
    if b < a then b else a
  }

  /** The number read so far, once the digits of n in some base are read too. */
  ghost function Shift(base: nat, read: nat, n: nat): nat
    requires base >= 2
    decreases n
  {
    if n < base then read * base + n else
      Smaller(n, base);
      Shift(base, read, n / base) * base + n % base
  }

  lemma Smaller(n: nat, base: nat)
    requires 2 <= base <= n
    ensures n / base < n
  {
    assert n == n / base * base + n % base;
  }

  /** Starting from nothing, the digits of n are read as n. */
  lemma {:induction false} ShiftZero(base: nat, n: nat)
    requires base >= 2
    ensures Shift(base, 0, n) == n
    decreases n
  {
    if n >= base {
      Smaller(n, base);
      ShiftZero(base, n / base);
    }
  }

  // ----- Positional notation -----

  function Power(base: nat, k: nat): nat {
    if k == 0 then 1 else base * Power(base, k - 1)
  }

  /** The digits times their powers. */
  function Value(base: nat, vs: seq<nat>): nat {
    if vs == [] then 0 else vs[0] * Power(base, |vs| - 1) + Value(base, vs[1..])
  }

  /** The number read so far, once these digits are read too. */
  function Onto(base: nat, read: nat, vs: seq<nat>): nat {
    read * Power(base, |vs|) + Value(base, vs)
  }

  lemma OntoNone(base: nat, read: nat)
    ensures Onto(base, read, []) == read
  {
  }

  lemma OntoMore(base: nat, read: nat, v: nat, vs: seq<nat>)
    ensures Onto(base, read, [v] + vs) == Onto(base, read * base + v, vs)
  {
    var k := |vs|;
    assert ([v] + vs)[1..] == vs;
    calc {
      Onto(base, read, [v] + vs);
      read * (base * Power(base, k)) + (v * Power(base, k) + Value(base, vs));
      (read * base) * Power(base, k) + v * Power(base, k) + Value(base, vs);
      { Distribute(read, v, Power(base, k), base); }
      (read * base + v) * Power(base, k) + Value(base, vs);
    }
  }

  lemma Distribute(a: nat, b: nat, c: nat, d: nat)
    ensures (a * d) * c + b * c == (a * d + b) * c
  {
  }

  /** One digit more at the end. */
  lemma {:induction false} ValueSnoc(base: nat, vs: seq<nat>, d: nat)
    ensures Value(base, vs + [d]) == Value(base, vs) * base + d
  {
    if vs == [] {
      assert vs + [d] == [d];
    } else {
      var ws := vs[1..];
      assert (vs + [d])[1..] == ws + [d] && (vs + [d])[0] == vs[0];
      ValueSnoc(base, ws, d);
      calc {
        Value(base, vs + [d]);
        vs[0] * (base * Power(base, |ws|)) + (Value(base, ws) * base + d);
        { Factor(vs[0], Power(base, |ws|), Value(base, ws), base); }
        Value(base, vs) * base + d;
      }
    }
  }

  lemma Factor(a: nat, b: nat, c: nat, d: nat)
    ensures a * (d * b) + c * d == (a * b + c) * d
  {
  }
}
