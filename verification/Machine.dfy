/** Integer widths and byte strings shared by the models of C and C++ code. */
module Machine {
  const TWO32: nat := 0x1_0000_0000
  const TWO64: nat := 0x1_0000_0000_0000_0000

  type Byte = b: int | 0 <= b < 256

  datatype Option<+T> = None | Some(value: T)

  /** A value stored in a uint32_t. */
  function U32(x: int): (r: nat)
    ensures r < TWO32
  {
    x % TWO32
  }

  function Min(a: int, b: int): int {
    if a < b then a else b
  }

  function Zeros(n: nat): (s: seq<Byte>)
    ensures |s| == n
    ensures forall i | 0 <= i < n :: s[i] == 0
  {
    seq(n, i => 0)
  }

  /** Memory after `b` has been stored at offset `o` */
  function Put<T>(m: seq<T>, o: nat, b: seq<T>): (m': seq<T>)
    requires o + |b| <= |m|
    ensures |m'| == |m|
  {
    m[..o] + b + m[o + |b|..]
  }

  lemma ModBelow(x: nat, m: nat)
    requires m > 0
    ensures x % m <= x
  {
    if x < m {
    } else {
      assert x % m < m;
    }
  }

  lemma MulMonotone(a: int, b: int, m: nat)
    requires a <= b
    ensures a * m <= b * m
  {
    assert (b - a) * m >= 0;
  }

  lemma MulSplit(x: int, y: int, z: int, b: int)
    ensures (x * y + z) * b == (x * b) * y + z * b
  {
    assert (x * y) * b == (x * b) * y;
  }

  lemma RemainderUnique(k: int, m: nat, r: nat)
    requires r < m
    ensures (k * m + r) % m == r
    ensures (k * m + r) / m == k
  {
    var x := k * m + r;
    var q := x / m;
    assert x == q * m + x % m;
    if k > q {
      MulMonotone(q + 1, k, m);
    } else if k < q {
      MulMonotone(k + 1, q, m);
    }
  }
}
