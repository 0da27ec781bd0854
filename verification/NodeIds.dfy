/** 256-bit node IDs and Kademlia closeness: the XOR of two IDs, compared as a big-endian number. */
module NodeIds {
  import opened Bytes
  import Lex
  import LeadingZeros

  const ZeroId: bytes := [0, 0, 0, 0, 0, 0, 0, 0, 0, 0, 0, 0, 0, 0, 0, 0,
                          0, 0, 0, 0, 0, 0, 0, 0, 0, 0, 0, 0, 0, 0, 0, 0]
  type NodeId = id: bytes | |id| == 32 witness ZeroId

  /** Bitwise exclusive or, bit by bit from the low end. */
  function XorBits(a: nat, b: nat): nat
    decreases a + b
  {
    if a == 0 && b == 0 then 0 else (if a % 2 == b % 2 then 0 else 1) + 2 * XorBits(a / 2, b / 2)
  }

  // Low bits: b is a's remainder, and so on up.
  lemma BitHalves(a: nat, j: nat)
    requires j > 0
    ensures LeadingZeros.Bit(a, j) <==> LeadingZeros.Bit(a / 2, j - 1)
    ensures LeadingZeros.Bit(a, 0) <==> a % 2 == 1
  {
    var p := LeadingZeros.Pow2(j - 1);
    DivTwice(a, p);
    assert LeadingZeros.Pow2(0) == 1;
  }

  lemma DivTwice(a: nat, p: nat)
    requires p > 0
    ensures a / (2 * p) == a / 2 / p
  {
    var q, r := a / 2 / p, a / 2 % p;
    assert a / 2 == q * p + r;
    assert a == 2 * p * q + (2 * r + a % 2);
    QuotientIs(a, 2 * p, q, 2 * r + a % 2);
  }

  lemma Multiple(m: int, d: int)
    requires m > 0
    ensures (d > 0 ==> m * d >= m) && (d < 0 ==> m * d <= -m)
  {
  }

  lemma QuotientIs(a: nat, m: nat, q: nat, r: nat)
    requires m > 0 && a == m * q + r && r < m
    ensures a / m == q
  {
    var d := a / m - q;
    assert m * d == r - a % m;
    Multiple(m, d);
  }

  /** A bit of the exclusive or is set if and only if the two numbers differ in it. */
  lemma {:induction false} XorBit(a: nat, b: nat, j: nat)
    ensures LeadingZeros.Bit(XorBits(a, b), j) <==> LeadingZeros.Bit(a, j) != LeadingZeros.Bit(b, j)
    decreases j
  {
    var x := XorBits(a, b);
    XorHalves(a, b);
    BitHalves(x, j + 1);
    BitHalves(a, j + 1);
    BitHalves(b, j + 1);
    if j > 0 {
      BitHalves(x, j);
      BitHalves(a, j);
      BitHalves(b, j);
      XorBit(a / 2, b / 2, j - 1);
    }
  }

  lemma XorHalves(a: nat, b: nat)
    ensures XorBits(a, b) / 2 == XorBits(a / 2, b / 2) && (XorBits(a, b) % 2 == 1 <==> a % 2 != b % 2)
  {
  }

  lemma {:induction false} XorBelow(a: nat, b: nat, k: nat)
    requires a < LeadingZeros.Pow2(k) && b < LeadingZeros.Pow2(k)
    ensures XorBits(a, b) < LeadingZeros.Pow2(k)
    decreases k
  {
    if k > 0 {
      XorBelow(a / 2, b / 2, k - 1);
    }
  }

  lemma {:induction false} XorSymmetric(a: nat, b: nat)
    ensures XorBits(a, b) == XorBits(b, a)
    decreases a + b
  {
    if a > 0 || b > 0 {
      XorSymmetric(a / 2, b / 2);
    }
  }

  lemma {:induction false} XorZero(a: nat, b: nat)
    ensures XorBits(a, b) == 0 <==> a == b
    decreases a + b
  {
    if a > 0 || b > 0 {
      XorZero(a / 2, b / 2);
    }
  }

  function XorByte(a: byte, b: byte): (x: byte)
    ensures x == XorBits(a, b)
  {
    assert LeadingZeros.Pow2(4) == 16 && LeadingZeros.Pow2(8) == 256;
    XorBelow(a, b, 8);
    XorBits(a, b)
  }

  lemma {:induction false} XorCancels(a: nat, b: nat, t: nat)
    requires XorBits(a, t) == XorBits(b, t)
    ensures a == b
    decreases a + b + t
  {
    if a > 0 || b > 0 || t > 0 {
      XorCancelsHalves(a, b, t);
      XorCancels(a / 2, b / 2, t / 2);
    }
  }

  lemma XorCancelsHalves(a: nat, b: nat, t: nat)
    requires XorBits(a, t) == XorBits(b, t)
    ensures a % 2 == b % 2 && XorBits(a / 2, t / 2) == XorBits(b / 2, t / 2)
  {
  }

  function Xor(a: NodeId, b: NodeId): (d: NodeId)
    ensures |d| == 32 && forall i :: 0 <= i < 32 ==> d[i] == XorBits(a[i], b[i])
  {
    seq(32, i requires 0 <= i < 32 => XorByte(a[i], b[i]))
  }

  /** a is strictly closer to the target than b. */
  predicate Closer(target: NodeId, a: NodeId, b: NodeId) {
    Lex.Less(Xor(a, target), Xor(b, target))
  }

  /** Different IDs are at different distances. */
  lemma DistanceInjective(a: NodeId, b: NodeId, target: NodeId)
    requires Xor(a, target) == Xor(b, target)
    ensures a == b
  {
    forall i | 0 <= i < 32
      ensures a[i] == b[i]
    {
      assert Xor(a, target)[i] == Xor(b, target)[i];
      XorCancels(a[i], b[i], target[i]);
    }
  }

  lemma CloserTotal(target: NodeId, a: NodeId, b: NodeId)
    ensures a == b || Closer(target, a, b) || Closer(target, b, a)
  {
    Lex.Total(Xor(a, target), Xor(b, target));
    if Xor(a, target) == Xor(b, target) {
      DistanceInjective(a, b, target);
    }
  }

  lemma CloserAsymmetric(target: NodeId, a: NodeId, b: NodeId)
    ensures Closer(target, a, b) ==> !Closer(target, b, a) && a != b
  {
    Lex.Irreflexive(Xor(a, target));
    if Closer(target, a, b) {
      Lex.Asymmetric(Xor(a, target), Xor(b, target));
    }
  }

  lemma CloserTransitive(target: NodeId, a: NodeId, b: NodeId, c: NodeId)
    requires Closer(target, a, b) && Closer(target, b, c)
    ensures Closer(target, a, c)
  {
    Lex.Transitive(Xor(a, target), Xor(b, target), Xor(c, target));
  }

  /** The distance of two IDs: their exclusive or, as a number. */
  function Distance(a: NodeId, b: NodeId): nat { LeadingZeros.BigEndian(Xor(a, b)) }

  // The byte order of equally long strings is that of the numbers they denote.
  lemma {:induction false} LessIsNumeric(a: bytes, b: bytes)
    requires |a| == |b|
    ensures Lex.Less(a, b) <==> LeadingZeros.BigEndian(a) < LeadingZeros.BigEndian(b)
  {
    if a != [] {
      var p := LeadingZeros.Pow2(8 * (|a| - 1));
      LessIsNumeric(a[1..], b[1..]);
      LeadingZeros.BigEndianBound(a[1..]);
      LeadingZeros.BigEndianBound(b[1..]);
      FirstDecides(a[0], b[0], p, LeadingZeros.BigEndian(a[1..]), LeadingZeros.BigEndian(b[1..]));
    }
  }

  lemma FirstDecides(x: nat, y: nat, p: nat, r: nat, t: nat)
    requires r < p && t < p
    ensures x * p + r < y * p + t <==> x < y || (x == y && r < t)
  {
    if x < y {
      assert (x + 1) * p <= y * p;
    } else if y < x {
      assert (y + 1) * p <= x * p;
    }
  }

  /** Closer means at a smaller distance; distance is symmetric, and zero only from an ID to itself. */
  lemma CloserIsNumeric(target: NodeId, a: NodeId, b: NodeId)
    ensures Closer(target, a, b) <==> Distance(a, target) < Distance(b, target)
    ensures Distance(a, target) == Distance(target, a) && (Distance(a, target) == 0 <==> a == target)
  {
    LessIsNumeric(Xor(a, target), Xor(b, target));
    DistanceZero(a, target);
    forall i | 0 <= i < 32 ensures Xor(a, target)[i] == Xor(target, a)[i] {
      XorSymmetric(a[i], target[i]);
    }
    assert Xor(a, target) == Xor(target, a);
  }

  lemma DistanceZero(a: NodeId, b: NodeId)
    ensures Distance(a, b) == 0 <==> a == b
  {
    BigEndianZero(Xor(a, b));
    forall i | 0 <= i < 32 ensures Xor(a, b)[i] == 0 <==> a[i] == b[i] {
      XorZero(a[i], b[i]);
    }
    assert a == b <==> forall i :: 0 <= i < 32 ==> a[i] == b[i];
  }

  lemma {:induction false} BigEndianZero(s: bytes)
    ensures LeadingZeros.BigEndian(s) == 0 <==> forall i :: 0 <= i < |s| ==> s[i] == 0
  {
    if s != [] {
      BigEndianZero(s[1..]);
      var p := LeadingZeros.Pow2(8 * (|s| - 1));
      assert s[0] > 0 ==> s[0] * p >= p;
      assert forall i :: 1 <= i < |s| ==> s[i] == s[1..][i - 1];
    }
  }

  /** Nothing is closer to an ID than the ID itself. */
  lemma SelfClosest(target: NodeId, a: NodeId)
    requires a != target
    ensures Closer(target, target, a)
  {
    CloserIsNumeric(target, target, a);
    DistanceZero(target, target);
    DistanceZero(a, target);
  }
}
