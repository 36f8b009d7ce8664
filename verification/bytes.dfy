/** Bytes and little-endian unsigned integers. */
module Bytes {

  /** An unsigned 8-bit value. */
  type Byte = x: int | 0 <= x < 256

  /** 256 to the power `k`: the number of values `k` bytes can hold. */
  function Pow256(k: nat): (r: nat)
    ensures r >= 1
  {
    if k == 0 then 1 else 256 * Pow256(k - 1)
  }

  lemma {:induction false} Pow256Monotone(i: nat, j: nat)
    requires i <= j
    ensures Pow256(i) <= Pow256(j)
    decreases j
  {
    if i < j {
      Pow256Monotone(i, j - 1);
    }
  }

  /** The powers the codec needs: the widths of the compact modes and of u64 and u128. */
  lemma Pow256Table()
    ensures Pow256(1) == 0x100
    ensures Pow256(2) == 0x1_0000
    ensures Pow256(3) == 0x100_0000
    ensures Pow256(4) == 0x1_0000_0000
    ensures Pow256(8) == 0x1_0000_0000_0000_0000
    ensures Pow256(16) == 0x1_0000_0000_0000_0000_0000_0000_0000_0000
  {
    assert Pow256(1) == 0x100;
    assert Pow256(2) == 0x1_0000;
    assert Pow256(3) == 0x100_0000;
    assert Pow256(4) == 0x1_0000_0000;
    assert Pow256(5) == 0x100_0000_0000;
    assert Pow256(6) == 0x1_0000_0000_0000;
    assert Pow256(7) == 0x100_0000_0000_0000;
    assert Pow256(8) == 0x1_0000_0000_0000_0000;
    assert Pow256(9) == 0x100_0000_0000_0000_0000;
    assert Pow256(10) == 0x1_0000_0000_0000_0000_0000;
    assert Pow256(11) == 0x100_0000_0000_0000_0000_0000;
    assert Pow256(12) == 0x1_0000_0000_0000_0000_0000_0000;
    assert Pow256(13) == 0x100_0000_0000_0000_0000_0000_0000;
    assert Pow256(14) == 0x1_0000_0000_0000_0000_0000_0000_0000;
    assert Pow256(15) == 0x100_0000_0000_0000_0000_0000_0000_0000;
  }

  /** A positive multiple of `d` is at least `d`. */
  lemma {:induction false} MulAtLeast(d: int, k: int)
    requires 0 < d && 1 <= k
    ensures d * k >= d
    decreases k
  {
    if k > 1 {
      MulAtLeast(d, k - 1);
      assert d * k == d * (k - 1) + d;
    }
  }

  /** A non-zero multiple of `d` is at least `d` away from zero. */
  lemma MulAwayFromZero(d: int, k: int)
    requires 0 < d
    ensures 1 <= k ==> d * k >= d
    ensures k <= -1 ==> d * k <= -d
  {
    if k >= 1 {
      MulAtLeast(d, k);
    } else if k <= -1 {
      MulAtLeast(d, -k);
      assert d * k == -(d * -k);
    }
  }

  /** Quotient and remainder of `x` by `d`, given a decomposition `x == d * q + r`. */
  lemma DivMod(x: int, d: int, q: int, r: int)
    requires 0 < d && x == d * q + r && 0 <= r < d
    ensures x / d == q && x % d == r
  {
    var k := x / d - q;
    assert d * (x / d) == d * q + d * k;
    MulAwayFromZero(d, k);
  }

  /** The value of `bs` read little-endian: the first byte is the least significant. */
  function FromLE(bs: seq<Byte>): (n: nat)
    ensures n < Pow256(|bs|)
  {
    if |bs| == 0 then 0 else bs[0] + 256 * FromLE(bs[1..])
  }

  /** A little-endian u16. */
  lemma FromLETwo(bs: seq<Byte>)
    requires |bs| == 2
    ensures FromLE(bs) == bs[0] as int + 256 * bs[1] as int
  {
    assert FromLE(bs[1..]) == bs[1] + 256 * FromLE(bs[2..]);
  }

  /** `n` written little-endian in exactly `len` bytes. */
  function ToLE(n: nat, len: nat): (bs: seq<Byte>)
    requires n < Pow256(len)
    ensures |bs| == len
    ensures FromLE(bs) == n
  {
    if len == 0 then [] else [n % 256] + ToLE(n / 256, len - 1)
  }

  /** The first byte written is the lowest, and the others write the value shifted down a byte. */
  lemma ToLEHead(n: nat, len: nat)
    requires 1 <= len && n < Pow256(len)
    ensures n / 256 < Pow256(len - 1)
    ensures ToLE(n, len)[0] == n % 256 && ToLE(n, len)[1..] == ToLE(n / 256, len - 1)
  {
  }

  /** Reading then writing back at the same width gives the same bytes. */
  lemma {:induction false} ToLEFromLE(bs: seq<Byte>)
    ensures ToLE(FromLE(bs), |bs|) == bs
  {
    if |bs| > 0 {
      ToLEFromLE(bs[1..]);
      DivMod(FromLE(bs), 256, FromLE(bs[1..]), bs[0]);
    }
  }

  /** The least number of bytes (at least one) that holds `n`. */
  function ByteLen(n: nat): (k: nat)
    ensures 1 <= k
    ensures n < Pow256(k)
    ensures k == 1 || Pow256(k - 1) <= n
  {
    if n < 256 then 1 else 1 + ByteLen(n / 256)
  }

  /** `ByteLen` is the width class a value falls into, and no other. */
  lemma ByteLenUnique(n: nat, k: nat)
    requires 1 <= k
    requires n < Pow256(k)
    requires k == 1 || Pow256(k - 1) <= n
    ensures ByteLen(n) == k
  {
    var l := ByteLen(n);
    if l < k {
      Pow256Monotone(l, k - 1);
    } else if k < l {
      Pow256Monotone(k, l - 1);
    }
  }

  /** A value below `256^k` needs at most `k` bytes. */
  lemma ByteLenAtMost(n: nat, k: nat)
    requires 1 <= k && n < Pow256(k)
    ensures ByteLen(n) <= k
  {
    var l := ByteLen(n);
    if k < l {
      Pow256Monotone(k, l - 1);
    }
  }

  predicate StartsWith(s: seq<Byte>, prefix: seq<Byte>) {
    |prefix| <= |s| && s[..|prefix|] == prefix
  }

  predicate EndsWith(s: seq<Byte>, suffix: seq<Byte>) {
    |suffix| <= |s| && s[|s| - |suffix|..] == suffix
  }

  /** Whatever `a` starts with, `a + b` starts with too. */
  lemma StartsWithConcat(a: seq<Byte>, b: seq<Byte>, prefix: seq<Byte>)
    requires StartsWith(a, prefix)
    ensures StartsWith(a + b, prefix)
  {
    assert (a + b)[..|prefix|] == a[..|prefix|];
  }

  /** Whatever `b` ends with, `a + b` ends with too. */
  lemma EndsWithConcat(a: seq<Byte>, b: seq<Byte>, suffix: seq<Byte>)
    requires EndsWith(b, suffix)
    ensures EndsWith(a + b, suffix)
  {
    assert (a + b)[|a + b| - |suffix|..] == b[|b| - |suffix|..];
  }

  /** A byte string is its first `k` bytes, given by head and tail, followed by the rest. */
  lemma SplitAfterHead(bs: seq<Byte>, front: seq<Byte>, k: nat)
    requires 1 <= k <= |bs| && |front| == k
    requires front[0] == bs[0] && front[1..] == bs[1..k]
    ensures bs == front + bs[k..]
  {
    assert front == bs[..k] by {
      forall i | 0 <= i < k
        ensures front[i] == bs[i]
      {
        if i > 0 {
          assert front[i] == front[1..][i - 1];
        }
      }
    }
  }
}
