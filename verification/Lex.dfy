/** Go's byte-wise string order (`a < b` on strings, `bytes.Compare` on slices), shared by every
    component that sorts by author, digest or distance. */
module Lex {

  // Strict lexicographic order: a proper prefix sorts first, otherwise the first difference decides.
  predicate Less(a: seq<int>, b: seq<int>)
    decreases |a|
  {
    |b| > 0 && (|a| == 0 || a[0] < b[0] || (a[0] == b[0] && Less(a[1..], b[1..])))
  }

  lemma {:induction false} Irreflexive(a: seq<int>)
    ensures !Less(a, a)
  {
    if |a| > 0 {
      Irreflexive(a[1..]);
    }
  }

  lemma {:induction false} Asymmetric(a: seq<int>, b: seq<int>)
    requires Less(a, b)
    ensures !Less(b, a)
  {
    if |a| > 0 && a[0] == b[0] {
      Asymmetric(a[1..], b[1..]);
    }
  }

  lemma {:induction false} Transitive(a: seq<int>, b: seq<int>, c: seq<int>)
    requires Less(a, b) && Less(b, c)
    ensures Less(a, c)
  {
    if |a| > 0 && a[0] == b[0] && b[0] == c[0] {
      Transitive(a[1..], b[1..], c[1..]);
    }
  }

  lemma {:induction false} Total(a: seq<int>, b: seq<int>)
    ensures a == b || Less(a, b) || Less(b, a)
  {
    if |a| > 0 && |b| > 0 && a[0] == b[0] {
      Total(a[1..], b[1..]);
      if a[1..] == b[1..] {
        assert a == [a[0]] + a[1..] && b == [b[0]] + b[1..];
      }
    }
  }

  // The two agree up to k, where a ends and b does not, or a has the smaller element.
  ghost predicate DecidedAt(a: seq<int>, b: seq<int>, k: nat) {
    k <= |a| && k < |b| && a[..k] == b[..k] && (k == |a| || a[k] < b[k])
  }

  /** What the order means: the first position in which the two differ decides. */
  lemma {:induction false} LessIff(a: seq<int>, b: seq<int>)
    ensures Less(a, b) <==> exists k: nat :: DecidedAt(a, b, k)
  {
    if |a| > 0 && |b| > 0 && a[0] == b[0] {
      LessIff(a[1..], b[1..]);
      if k: nat :| DecidedAt(a[1..], b[1..], k) {
        assert a[..k + 1] == [a[0]] + a[1..][..k] && b[..k + 1] == [b[0]] + b[1..][..k];
        assert DecidedAt(a, b, k + 1);
      }
    } else if |b| > 0 && (|a| == 0 || a[0] < b[0]) {
      assert DecidedAt(a, b, 0);
    }
    if k: nat :| DecidedAt(a, b, k) {
      DecidedFirst(a, b, k);
      if |a| > 0 && a[0] == b[0] {
        DecidedLater(a, b, k);
      }
    }
  }

  lemma DecidedFirst(a: seq<int>, b: seq<int>, k: nat)
    requires DecidedAt(a, b, k)
    ensures |b| > 0 && (|a| == 0 || a[0] <= b[0])
  {
    if k > 0 {
      assert a[..k][0] == b[..k][0];
    }
  }

  lemma DecidedLater(a: seq<int>, b: seq<int>, k: nat)
    requires |a| > 0 && |b| > 0 && a[0] == b[0] && DecidedAt(a, b, k)
    ensures k > 0 && DecidedAt(a[1..], b[1..], k - 1)
  {
    assert a[1..][..k - 1] == a[..k][1..] && b[1..][..k - 1] == b[..k][1..];
  }
}
