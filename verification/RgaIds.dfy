/** Node IDs: the clock, the replica's name and the value, joined by colons. */
module RgaIds {
  import opened Bytes

  const Colon: byte := 58

  /** Decimal rendering of the clock (`%d`). */
  function Decimal(n: nat): (d: bytes)
    ensures |d| > 0 && forall i :: 0 <= i < |d| ==> 48 <= d[i] <= 57
  {
    if n < 10 then [48 + n] else Decimal(n / 10) + [48 + n % 10]
  }

  // What a string of digits denotes.
  function Denoted(d: bytes): int {
    if d == [] then 0 else 10 * Denoted(d[..|d| - 1]) + d[|d| - 1] - 48
  }

  /** The digits denote the number, without a leading zero. */
  lemma {:induction false} DecimalDenotes(n: nat)
    ensures Denoted(Decimal(n)) == n && (n > 0 ==> Decimal(n)[0] != 48)
  {
    var d := Decimal(n);
    if n < 10 {
      assert d[..0] == [];
    } else {
      DecimalDenotes(n / 10);
      assert d[..|d| - 1] == Decimal(n / 10);
    }
  }

  function MintId(clock: nat, name: bytes, value: bytes): bytes {
    Decimal(clock) + [Colon] + name + [Colon] + value
  }

  lemma {:induction false} DecimalInjective(a: nat, b: nat)
    requires Decimal(a) == Decimal(b)
    ensures a == b
  {
    var n := |Decimal(a)| - 1;
    if a >= 10 && b >= 10 {
      assert Decimal(a)[..n] == Decimal(a / 10) && Decimal(b)[..n] == Decimal(b / 10);
      assert Decimal(a)[n] == 48 + a % 10 && Decimal(b)[n] == 48 + b % 10;
      DecimalInjective(a / 10, b / 10);
    } else {
      assert n == 0;
    }
  }

  // Digits stop at the first colon, so the clock can be read back.
  lemma MintIdClock(a: nat, n: bytes, v: bytes, b: nat, m: bytes, w: bytes)
    requires MintId(a, n, v) == MintId(b, m, w)
    ensures a == b && n + [Colon] + v == m + [Colon] + w
  {
    var x := MintId(a, n, v);
    var i, j := |Decimal(a)|, |Decimal(b)|;
    assert x[..i] == Decimal(a) && x[..j] == Decimal(b);
    assert x[i] == Colon && x[j] == Colon;
    assert forall k :: 0 <= k < i ==> x[k] == x[..i][k] && x[k] != Colon;
    assert forall k :: 0 <= k < j ==> x[k] == x[..j][k] && x[k] != Colon;
    DecimalInjective(a, b);
    assert x[i + 1..] == n + [Colon] + v && x[j + 1..] == m + [Colon] + w;
  }

  predicate Confusable(n: bytes, m: bytes) {
    n + [Colon] <= m + [Colon] || m + [Colon] <= n + [Colon]
  }

  /** Two replicas can mint the same ID exactly when one name, closed by its colon, begins the other. */
  lemma MintedAlike(clock: nat, n: bytes, m: bytes)
    ensures (exists v, w :: MintId(clock, n, v) == MintId(clock, m, w)) <==> Confusable(n, m)
  {
    var nc, mc := n + [Colon], m + [Colon];
    if v, w :| MintId(clock, n, v) == MintId(clock, m, w) {
      MintIdClock(clock, n, v, clock, m, w);
      CommonPrefix(nc, v, mc, w);
    }
    if nc <= mc {
      MintAlikeFrom(clock, n, m);
    } else if mc <= nc {
      MintAlikeFrom(clock, m, n);
    }
  }

  lemma CommonPrefix(a: bytes, v: bytes, b: bytes, w: bytes)
    requires a + v == b + w
    ensures a <= b || b <= a
  {
    if |a| <= |b| {
      assert a == (a + v)[..|a|] == (b + w)[..|a|] == b[..|a|];
    } else {
      assert b == (b + w)[..|b|] == (a + v)[..|b|] == a[..|b|];
    }
  }

  lemma MintAlikeFrom(clock: nat, n: bytes, m: bytes)
    requires n + [Colon] <= m + [Colon]
    ensures exists v, w :: MintId(clock, n, v) == MintId(clock, m, w)
  {
    var v := (m + [Colon])[|n| + 1..];
    assert n + [Colon] + v == m + [Colon];
    var d := Decimal(clock) + [Colon];
    calc {
      MintId(clock, n, v);
      d + (n + [Colon] + v);
      d + (m + [Colon]);
      MintId(clock, m, []);
    }
  }

  /** Names that cannot be confused mint distinct IDs for distinct inserts. */
  lemma MintIdInjective(a: nat, n: bytes, v: bytes, b: nat, m: bytes, w: bytes)
    requires MintId(a, n, v) == MintId(b, m, w) && (n != m ==> !Confusable(n, m))
    ensures a == b && n == m && v == w
  {
    MintIdClock(a, n, v, b, m, w);
    CommonPrefix(n + [Colon], v, m + [Colon], w);
    assert n == m;
    assert v == (n + [Colon] + v)[|n| + 1..] && w == (m + [Colon] + w)[|m| + 1..];
  }
}
