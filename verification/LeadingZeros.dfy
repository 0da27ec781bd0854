/** Leading zero bits of a hash, counted three ways by the program, and what the count means. */
module LeadingZeros {
  import opened Bytes

  function Pow2(n: nat): (p: nat)
    ensures p > 0
  {
    if n == 0 then 1 else 2 * Pow2(n - 1)
  }

  /** The number a byte string denotes, most significant byte first. */
  function BigEndian(s: bytes): nat {
    if s == [] then 0 else s[0] * Pow2(8 * (|s| - 1)) + BigEndian(s[1..])
  }

  // Zero bits ahead of the first one in a non-zero byte.
  function ByteZeros(b: nat): (z: nat)
    requires 0 < b < 256
    ensures z < 8
    ensures Pow2(7 - z) <= b < Pow2(8 - z)
    decreases 256 - b
  {
    if b >= 128 then
      assert Pow2(7) == 128 && Pow2(8) == 256;
      0
    else
      1 + ByteZeros(2 * b)
  }

  function Count(s: bytes): (n: nat)
    ensures n <= 8 * |s|
  {
    if s == [] then 0 else if s[0] == 0 then 8 + Count(s[1..]) else ByteZeros(s[0])
  }

  lemma {:induction false} Pow2Sum(a: nat, b: nat)
    ensures Pow2(a + b) == Pow2(a) * Pow2(b)
  {
    if a > 0 {
      Pow2Sum(a - 1, b);
    }
  }

  lemma {:induction false} Pow2Monotone(a: nat, b: nat)
    requires a <= b
    ensures Pow2(a) <= Pow2(b)
    decreases b
  {
    if a < b {
      Pow2Monotone(a, b - 1);
    }
  }

  lemma {:induction false} BigEndianBound(s: bytes)
    ensures BigEndian(s) < Pow2(8 * |s|)
  {
    if s != [] {
      var n := 8 * (|s| - 1);
      BigEndianBound(s[1..]);
      Pow2Sum(8, n);
      Pow8();
      MulBelow(s[0], Pow2(n), BigEndian(s[1..]));
    }
  }

  lemma Pow8()
    ensures Pow2(8) == 256
  {
    assert Pow2(4) == 16;
  }

  lemma MulBelow(b: byte, p: nat, r: nat)
    requires r < p
    ensures b * p + r < 256 * p
  {
    assert b * p <= 255 * p;
  }

  // A leading non-zero byte with z zero bits pins the value between two powers.
  lemma LeadingByte(s: bytes, z: nat)
    requires s != [] && z < 8 && Pow2(7 - z) <= s[0] < Pow2(8 - z)
    ensures Pow2(8 * |s| - 1 - z) <= BigEndian(s) < Pow2(8 * |s| - z)
  {
    var r, v := BigEndian(s[1..]), BigEndian(s);
    BigEndianBound(s[1..]);
    FirstByte(s, r, v);
    LeadingBits(s[0], z, |s|, Pow2(8 * (|s| - 1)), r, v);
  }

  lemma FirstByte(s: bytes, r: nat, v: nat)
    requires s != [] && r == BigEndian(s[1..]) && v == BigEndian(s)
    ensures v == s[0] * Pow2(8 * (|s| - 1)) + r
  {
  }

  lemma LeadingBits(b: nat, z: nat, len: nat, p: nat, r: nat, v: nat)
    requires len > 0 && z < 8 && Pow2(7 - z) <= b < Pow2(8 - z) && p == Pow2(8 * (len - 1)) && r < p && v == b * p + r
    ensures Pow2(8 * len - 1 - z) <= v < Pow2(8 * len - z)
  {
    BetweenPowers(b, z, 8 * (len - 1), r, 8 * len);
  }

  lemma BetweenPowers(b: nat, z: nat, n: nat, r: nat, bits: nat)
    requires z < 8 && Pow2(7 - z) <= b < Pow2(8 - z) && r < Pow2(n) && bits == n + 8
    ensures Pow2(bits - 1 - z) <= b * Pow2(n) + r < Pow2(bits - z)
  {
    Pow2Sum(7 - z, n);
    Pow2Sum(8 - z, n);
    MulBounds(b, Pow2(7 - z), Pow2(8 - z), Pow2(n), r);
  }

  lemma MulBounds(b: nat, lo: nat, hi: nat, p: nat, r: nat)
    requires lo <= b < hi && r < p
    ensures lo * p <= b * p + r < hi * p
  {
    assert lo * p <= b * p;
    assert (b + 1) * p <= hi * p;
  }

  // With the first bit after z zeros.
  lemma BelowIff(s: bytes, d: nat, z: nat)
    requires s != [] && d <= 8 * |s| && z < 8 && Pow2(7 - z) <= s[0] < Pow2(8 - z)
    ensures BigEndian(s) < Pow2(8 * |s| - d) <==> z >= d
  {
    LeadingByte(s, z);
    if d <= z {
      Pow2Monotone(8 * |s| - z, 8 * |s| - d);
    } else {
      Pow2Monotone(8 * |s| - d, 8 * |s| - 1 - z);
    }
  }

  /** At least d leading zero bits, exactly when the value is below 2^(bits - d). */
  lemma {:induction false} ZerosMeanSmall(s: bytes, d: nat)
    requires d <= 8 * |s|
    ensures BigEndian(s) < Pow2(8 * |s| - d) <==> Count(s) >= d
  {
    if s != [] {
      var n := 8 * (|s| - 1);
      if s[0] == 0 {
        assert BigEndian(s) == BigEndian(s[1..]);
        if d <= 8 {
          BigEndianBound(s[1..]);
          Pow2Monotone(n, 8 * |s| - d);
        } else {
          ZerosMeanSmall(s[1..], d - 8);
        }
      } else {
        BelowIff(s, d, ByteZeros(s[0]));
      }
    }
  }

  // ---------- the two loops ----------

  // Is bit j of b set?
  predicate Bit(b: nat, j: nat) {
    (b / Pow2(j)) % 2 == 1
  }

  // With nothing above bit j, the test of bit j decides on which side of 2^j the byte lies.
  lemma TopBit(b: nat, j: nat)
    requires b < Pow2(j + 1)
    ensures Bit(b, j) <==> b >= Pow2(j)
  {
    var p := Pow2(j);
    if b >= p {
      assert b / p == 1 by {
        assert p <= b < 2 * p;
        DivOne(b, p);
      }
    } else {
      assert b / p == 0;
    }
  }

  lemma DivOne(b: nat, p: nat)
    requires 0 < p <= b < 2 * p
    ensures b / p == 1
  {
    var q := b / p;
    assert b == q * p + b % p;
    assert q >= 2 ==> q * p >= 2 * p;
  }

  lemma ByteZerosIs(b: nat, j: nat)
    requires j < 8 && Pow2(j) <= b < Pow2(j + 1) && 0 < b < 256
    ensures ByteZeros(b) == 7 - j
  {
    var z := ByteZeros(b);
    if 7 - z < j {
      Pow2Monotone(8 - z, j);
    }
    if j < 7 - z {
      Pow2Monotone(j + 1, 7 - z);
    }
  }

  // The bits of one byte, from the top.
  method ByteScan(b: byte) returns (z: nat)
    requires b != 0
    ensures z == ByteZeros(b) && z < 8 && Pow2(7 - z) <= b < Pow2(8 - z)
  {
    var i := 7;
    assert Pow2(8) == 256;
    while !Bit(b, i)
      invariant 0 <= i < 8 && b < Pow2(i + 1)
      decreases i
    {
      TopBit(b, i);
      i := i - 1;
    }
    TopBit(b, i);
    ByteZerosIs(b, i);
    z := 7 - i;
  }

  method LeadingZeroBits(hash: bytes) returns (n: nat)
    ensures n == Count(hash)
  {
    n := 0;
    var i := 0;
    while i < |hash|
      invariant 0 <= i <= |hash| && n == 8 * i && n + Count(hash[i..]) == Count(hash)
    {
      assert hash[i..][1..] == hash[i + 1..];
      if hash[i] == 0 {
        n := n + 8;
        i := i + 1;
      } else {
        var z := ByteScan(hash[i]);
        return n + z;
      }
    }
  }

  /** The index of the ID's first set bit; the length of the ID in bits when there is none. */
  method PrefixLen(id: bytes) returns (n: nat)
    ensures n == Count(id)
  {
    var i := 0;
    while i < |id|
      invariant 0 <= i <= |id| && 8 * i + Count(id[i..]) == Count(id)
    {
      assert id[i..][1..] == id[i + 1..];
      if id[i] != 0 {
        var z := ByteScan(id[i]);
        return 8 * i + z;
      }
      i := i + 1;
    }
    n := 8 * |id|;
  }
}
