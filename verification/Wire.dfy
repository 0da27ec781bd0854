/** Fixed-width big-endian integers, as `encoding/binary` writes and reads them. */
module Wire {
  import opened Bytes

  function Range(w: nat): (p: nat)
    ensures p > 0
  {
    if w == 0 then 1 else 256 * Range(w - 1)
  }

  /** The low w bytes of n, most significant first: wider values lose their high bytes. */
  function Put(w: nat, n: nat): (s: bytes)
    ensures |s| == w
  {
    if w == 0 then [] else Put(w - 1, n / 256) + [n % 256]
  }

  function Get(s: bytes): nat {
    if s == [] then 0 else 256 * Get(s[..|s| - 1]) + s[|s| - 1]
  }

  /** A value that fits is read back unchanged. */
  lemma {:induction false} Fits(w: nat, n: nat)
    requires n < Range(w)
    ensures Get(Put(w, n)) == n
  {
    if w > 0 {
      Fits(w - 1, n / 256);
      assert Put(w, n)[..w - 1] == Put(w - 1, n / 256);
    }
  }

  lemma Get2(x: byte, y: byte)
    ensures Get([x, y]) == 256 * x + y
  {
    var s: bytes := [x];
    assert s[..0] == [] && Get(s) == 256 * Get([]) + x;
    var r: bytes := [x, y];
    assert r[..1] == s;
  }

  lemma Put2(n: nat)
    ensures Put(2, n) == [(n / 256) % 256, n % 256]
  {
    assert Put(1, n / 256) == Put(0, n / 256 / 256) + [(n / 256) % 256];
  }

  lemma Wrap(n: nat)
    ensures 256 * ((n / 256) % 256) + n % 256 == n % 0x10000
  {
  }

  /** Two-byte fields wrap at 65536. */
  lemma Wraps16(n: nat)
    ensures Get(Put(2, n)) == n % 0x10000
  {
    Put2(n);
    Get2((n / 256) % 256, n % 256);
    Wrap(n);
  }

  lemma {:induction false} GetBound(s: bytes)
    ensures Get(s) < Range(|s|)
  {
    if s != [] {
      GetBound(s[..|s| - 1]);
    }
  }

  // ---------- slices ----------

  // The field x, where the data continues q with it.
  lemma Field(q: bytes, x: bytes, data: bytes)
    requires q + x <= data
    ensures |q| + |x| <= |data| && data[|q|..|q| + |x|] == x && q <= data
  {
    assert data[..|q| + |x|] == q + x;
  }

  // A two-byte count there reads as the value, cut to 16 bits.
  lemma Field16(q: bytes, n: nat, data: bytes)
    requires q + Put(2, n) <= data
    ensures |q| + 2 <= |data| && q <= data && Get(data[|q|..|q| + 2]) == n % 0x10000
  {
    Field(q, Put(2, n), data);
    Wraps16(n);
  }

  lemma SliceOfSlice(data: bytes, a: nat, b: nat, c: nat, d: nat)
    requires a <= b <= |data| && c <= d <= b - a
    ensures data[a..b][c..d] == data[a + c..a + d]
  {
    var whole := data[a..b];
    assert forall k :: 0 <= k < d - c ==> whole[c..d][k] == whole[c + k] == data[a + c + k] == data[a + c..a + d][k];
  }
}
