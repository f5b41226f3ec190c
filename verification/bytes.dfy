/**
  Bytes as the opening book stores them: big-endian u64 fields read back as
  numbers, and where a run of bytes sits inside a longer one.
 */
module Bytes {
  import opened Tree
  import opened Opening

  /* ---------------------------------------------------------------------- */
  /* Big-endian numbers                                                      */
  /* ---------------------------------------------------------------------- */

  /** 256 to the power `n`: one more than the largest `n`-byte number. */
  function Pow256(n: nat): (p: nat)
    ensures p >= 1
  {
    if n == 0 then 1 else 256 * Pow256(n - 1)
  }

  /** The unsigned number whose big-endian bytes are `bs`. */
  function FromBigEndian(bs: seq<byte>): (x: nat)
    ensures x < Pow256(|bs|)
  {
    if bs == [] then 0
    else
      var init := bs[..|bs| - 1];
      var x := FromBigEndian(init) * 256 + bs[|bs| - 1];
      assert x < Pow256(|bs|) by {
        assert FromBigEndian(init) <= Pow256(|init|) - 1;
        assert FromBigEndian(init) * 256 <= (Pow256(|init|) - 1) * 256;
      }
      x
  }

  lemma {:induction false} MulAtLeast(d: int, a: int)
    requires d > 0 && a >= 1
    ensures d * a >= d
  {
    assert d * a == d * (a - 1) + d;
  }

  lemma {:induction false} DivModUnique(x: int, d: int, k: int, v: int)
    requires d > 0 && 0 <= v < d && x == d * k + v
    ensures x % d == v
  {
    var k', v' := x / d, x % d;
    assert x == d * k' + v';
    assert d * k - d * k' == v' - v;
    assert d * (k - k') == d * k - d * k';
    if k > k' {
      MulAtLeast(d, k - k');
    } else if k < k' {
      assert d * (k' - k) == d * k' - d * k;
      MulAtLeast(d, k' - k);
    }
  }

  /** Reducing modulo 256·m keeps the low byte and reduces the rest modulo m. */
  lemma {:induction false} ModByteSplit(x: nat, m: nat)
    requires m >= 1
    ensures (x / 256) % m * 256 + x % 256 == x % (256 * m)
  {
    var q, r := x / 256, x % 256;
    var v := q % m * 256 + r;
    assert q == m * (q / m) + q % m;
    assert x == 256 * q + r;
    assert x == (256 * m) * (q / m) + v;
    assert v < 256 * m by {
      assert q % m <= m - 1;
      assert q % m * 256 <= (m - 1) * 256;
    }
    DivModUnique(x, 256 * m, q / m, v);
  }

  /** Writing the `n` low bytes of `x` and reading them back gives `x`
      reduced modulo 256^n. */
  lemma {:induction false} BigEndianRoundTrip(x: nat, n: nat)
    ensures FromBigEndian(BigEndian(x, n)) == x % Pow256(n)
  {
    if n == 0 {
      assert x % 1 == 0;
    } else {
      var bs := BigEndian(x, n);
      assert bs[..n - 1] == BigEndian(x / 256, n - 1);
      BigEndianRoundTrip(x / 256, n - 1);
      ModByteSplit(x, Pow256(n - 1));
    }
  }

  /** A u64 field reads back as the value written, for every value that
      fits in 64 bits; a larger value reads back as its low 64 bits. */
  lemma {:induction false} U64RoundTrip(x: nat)
    ensures FromBigEndian(U64(x)) == x % TWO_TO_THE_64
    ensures x < TWO_TO_THE_64 ==> FromBigEndian(U64(x)) == x
  {
    BigEndianRoundTrip(x, 8);
    Pow256Eight();
  }

  /** Eight bytes hold exactly the numbers below 2^64. */
  lemma {:induction false} Pow256Eight()
    ensures Pow256(8) == TWO_TO_THE_64
  {
    assert Pow256(2) == 0x1_0000;
    assert Pow256(4) == 0x1_0000_0000;
    assert Pow256(6) == 0x1_0000_0000_0000;
  }

  /** A u64 field found in some bytes reads back as its value when that
      value fits in 64 bits. */
  lemma {:induction false} ReadU64At(bs: seq<byte>, at: nat, x: nat)
    requires Occupies(bs, at, U64(x))
    ensures x < TWO_TO_THE_64 ==> FromBigEndian(bs[at..at + 8]) == x
  {
    U64RoundTrip(x);
  }

  /* ---------------------------------------------------------------------- */
  /* Placement inside a byte string                                          */
  /* ---------------------------------------------------------------------- */

  /** Taking `j` of the first `n` elements takes the first `j`. */
  lemma {:induction false} TakeTake<T>(s: seq<T>, n: nat, j: nat)
    requires j <= n <= |s|
    ensures s[..n][..j] == s[..j]
  {
  }

  /** A prefix stays a prefix when the longer sequence is extended. */
  lemma {:induction false} PrefixExtend<T>(a: seq<T>, b: seq<T>, c: seq<T>, d: seq<T>)
    requires a <= b && d == b + c
    ensures a <= d
  {
    assert (b + c)[..|a|] == b[..|a|];
  }

  /** The bytes `x` appear in `bs` starting at offset `at`. */
  ghost predicate Occupies(bs: seq<byte>, at: nat, x: seq<byte>)
  {
    at + |x| <= |bs| && bs[at..at + |x|] == x
  }

  lemma {:induction false} SliceOfPrefix(a: seq<byte>, b: seq<byte>, c: seq<byte>, at: nat)
    requires a + b <= c && at == |a|
    ensures Occupies(c, at, b)
  {
    assert c[..|a| + |b|] == a + b;
    assert (a + b)[|a|..] == b;
  }

  lemma {:induction false} OccupiesAfter(a: seq<byte>, b: seq<byte>, at: nat, x: seq<byte>)
    requires Occupies(b, at, x)
    ensures Occupies(a + b, |a| + at, x)
  {
    assert (a + b)[|a| + at..|a| + at + |x|] == b[at..at + |x|];
  }

  lemma {:induction false} OccupiesBefore(a: seq<byte>, b: seq<byte>, at: nat, x: seq<byte>)
    requires Occupies(a, at, x)
    ensures Occupies(a + b, at, x)
  {
    assert (a + b)[at..at + |x|] == a[at..at + |x|];
  }

  lemma {:induction false} OccupiesWithin(bs: seq<byte>, at: nat, x: seq<byte>, at2: nat, y: seq<byte>)
    requires Occupies(bs, at, x) && Occupies(x, at2, y)
    ensures Occupies(bs, at + at2, y)
  {
    forall i | 0 <= i < |y|
      ensures bs[at + at2 + i] == y[i]
    {
      assert bs[at..at + |x|][at2 + i] == x[at2 + i];
      assert x[at2..at2 + |y|][i] == x[at2 + i];
    }
    assert bs[at + at2..at + at2 + |y|] == y;
  }

  /** Following the u64 field at `at` in `bs` leads to a block of `size`
      bytes at `target`: the field holds `target`, reads back as `target`
      whenever that fits in 64 bits, and the bytes at `target` start with the
      u64 `size`. */
  ghost predicate Leads(bs: seq<byte>, at: nat, target: nat, size: nat)
  {
    && Occupies(bs, at, U64(target))
    && (target < TWO_TO_THE_64 ==> FromBigEndian(bs[at..at + 8]) == target)
    && Occupies(bs, target, U64(size))
  }

  lemma {:induction false} LeadsFrom(bs: seq<byte>, at: nat, target: nat, size: nat)
    requires Occupies(bs, at, U64(target)) && Occupies(bs, target, U64(size))
    ensures Leads(bs, at, target, size)
  {
    ReadU64At(bs, at, target);
  }
}
