/** What a back-reference copy produces, stated without the byte-by-byte recursion. */
module CopyLaws {
  import opened Bytes
  import opened TokenStream

  /** A positive multiple of a positive number is at least that number. */
  lemma MulAtLeast(x: int, d: int)
    requires x >= 1 && d > 0
    ensures x * d >= d
  {
  }

  /** A phase below the period is its own remainder. */
  lemma ModBelowPeriod(k: nat, d: nat)
    requires k < d
    ensures k % d == k
  {
  }

  /** `(k - d) % d == k % d` for `k >= d`: one period less leaves the phase unchanged. */
  lemma ModMinusPeriod(k: nat, d: nat)
    requires 0 < d <= k
    ensures (k - d) % d == k % d
  {
    var q, m := k / d, k % d;
    var q', m' := (k - d) / d, (k - d) % d;
    assert k == q * d + m;
    assert k - d == q' * d + m';
    assert (q - 1 - q') * d == m' - m;
    if q - 1 - q' >= 1 {
      MulAtLeast(q - 1 - q', d);
    } else if q - 1 - q' <= -1 {
      MulAtLeast(q' - q + 1, d);
    }
  }

  /** The k-th byte a back-reference appends is `out[|out| - distance + k % distance]`,
      where `out` is the output before the copy: the copy repeats the last `distance`
      bytes of the output with period `distance`. */
  lemma {:induction false} CopyBackAt(out: seq<Byte>, distance: nat, length: nat, k: nat)
    requires 1 <= distance <= |out| && k < length
    ensures CopyBack(out, distance, length)[|out| + k] == out[|out| - distance + k % distance]
    decreases k
  {
    var r := CopyBack(out, distance, length);
    var j := |out| + k;
    assert r[j] == r[j - distance];
    if k < distance {
      ModBelowPeriod(k, distance);
      assert r[j - distance] == r[..|out|][j - distance];
    } else {
      CopyBackAt(out, distance, length, k - distance);
      ModMinusPeriod(k, distance);
      assert r[j - distance] == out[|out| - distance + (k - distance) % distance];
    }
  }

  /** The same copy as a closed formula: the old output followed by `length` bytes of
      the repeating pattern formed by its last `distance` bytes. */
  function PeriodicExtension(out: seq<Byte>, distance: nat, length: nat): (r: seq<Byte>)
    requires 1 <= distance <= |out|
    ensures |r| == |out| + length
  {
    out + seq(length, k requires 0 <= k => out[|out| - distance + k % distance])
  }

  /** The byte-by-byte copy and the closed formula agree on every input. */
  lemma CopyBackIsPeriodic(out: seq<Byte>, distance: nat, length: nat)
    requires 1 <= distance <= |out|
    ensures CopyBack(out, distance, length) == PeriodicExtension(out, distance, length)
  {
    var r, e := CopyBack(out, distance, length), PeriodicExtension(out, distance, length);
    var tail := seq(length, k requires 0 <= k => out[|out| - distance + k % distance]);
    assert e == out + tail;
    forall j | 0 <= j < |r| ensures r[j] == e[j] {
      if j < |out| {
        assert r[j] == r[..|out|][j];
      } else {
        var k := j - |out|;
        CopyBackAt(out, distance, length, k);
        assert e[j] == tail[k];
      }
    }
  }

  /** `n` copies of byte `b`. */
  function Repeat(b: Byte, n: nat): (r: seq<Byte>)
    ensures |r| == n && forall i :: 0 <= i < n ==> r[i] == b
  {
    seq(n, _ => b)
  }

  /** Distance 1 is run-length expansion: `length` more copies of the last byte. */
  lemma RunLengthCopy(out: seq<Byte>, length: nat)
    requires 1 <= |out|
    ensures CopyBack(out, 1, length) == out + Repeat(out[|out| - 1], length)
  {
    var r := CopyBack(out, 1, length);
    forall j | |out| <= j < |r| ensures r[j] == out[|out| - 1] {
      CopyBackAt(out, 1, length, j - |out|);
    }
    assert r[|out|..] == Repeat(out[|out| - 1], length);
    assert r == r[..|out|] + r[|out|..];
  }

  /** A copy no longer than its distance reads only bytes that were there before it, so
      it equals appending one slice of the old output. Only in this case would a bulk
      copy from a snapshot give the same result. */
  lemma NonOverlappingCopy(out: seq<Byte>, distance: nat, length: nat)
    requires 1 <= distance <= |out| && length <= distance
    ensures CopyBack(out, distance, length) == out + out[|out| - distance..|out| - distance + length]
  {
    var r := CopyBack(out, distance, length);
    var window := out[|out| - distance..|out| - distance + length];
    forall j | |out| <= j < |r| ensures r[j] == window[j - |out|] {
      CopyBackAt(out, distance, length, j - |out|);
    }
    assert r[|out|..] == window;
    assert r == r[..|out|] + r[|out|..];
  }
}
