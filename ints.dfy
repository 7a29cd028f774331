/** Fixed-width integer views used by the wire codec: two's complement
    truncation to Go's int32/int64 and big-endian byte order as in
    encoding/binary.BigEndian. */
module Ints {

  /** A byte of the wire. */
  type byte = b: int | 0 <= b < 256

  const TWO_16: int := 0x1_0000
  const TWO_31: int := 0x8000_0000
  const TWO_32: int := 0x1_0000_0000
  const TWO_35: int := 0x8_0000_0000
  const TWO_63: int := 0x8000_0000_0000_0000
  const TWO_64: int := 0x1_0000_0000_0000_0000

  function Pow(b: nat, e: nat): (r: nat)
    ensures b > 0 ==> r > 0
  {
    if e == 0 then 1 else b * Pow(b, e - 1)
  }

  predicate IsInt32(x: int) { -TWO_31 <= x < TWO_31 }
  predicate IsInt64(x: int) { -TWO_63 <= x < TWO_63 }
  predicate IsUInt16(x: int) { 0 <= x < TWO_16 }

  /** Go's conversion `int32(x)`: keep the low 32 bits and read them as
      two's complement (which leaves a value already in range unchanged). */
  function ToInt32(x: int): (r: int)
    ensures IsInt32(r)
    ensures IsInt32(x) ==> r == x
  {
    if IsInt32(x) then x
    else
      var u := x % TWO_32;
      if u < TWO_31 then u else u - TWO_32
  }

  /** Go's conversion `int64(x)` of a wider bit pattern: keep the low 64
      bits and read them as two's complement (which leaves a value already
      in range unchanged). */
  function ToInt64(x: int): (r: int)
    ensures IsInt64(r)
    ensures IsInt64(x) ==> r == x
  {
    if IsInt64(x) then x
    else
      var u := x % TWO_64;
      if u < TWO_63 then u else u - TWO_64
  }

  /** `int32(x)` differs from `x` by a multiple of 2^32: it keeps the low
      32 bits. With Int32Unique this pins the result down. */
  lemma ToInt32Wraps(x: int)
    ensures (x - ToInt32(x)) % TWO_32 == 0
  {
  }

  /** `int64(x)` differs from `x` by a multiple of 2^64. */
  lemma ToInt64Wraps(x: int)
    ensures (x - ToInt64(x)) % TWO_64 == 0
  {
  }

  /** Two int32 values with the same low 32 bits are equal. */
  lemma Int32Unique(a: int, b: int)
    requires IsInt32(a) && IsInt32(b) && (a - b) % TWO_32 == 0
    ensures a == b
  {
  }

  /** `k` zero bytes, what Go's `make([]byte, k)` holds before a read. */
  function Zeros(k: nat): (r: seq<byte>)
    ensures |r| == k && forall j :: 0 <= j < k ==> r[j] == 0
  {
    seq(k, _ => 0)
  }

  /** The unsigned value of `s`, most significant byte first. */
  function BigEndian(s: seq<byte>): (r: nat)
    ensures r < Pow(256, |s|)
  {
    if s == [] then 0 else BigEndian(s[..|s| - 1]) * 256 + s[|s| - 1]
  }

  /** The low `k` bytes of `x`, most significant first
      (binary.BigEndian.PutUint16 / PutUint64 for k = 2 / 8). */
  function PutBigEndian(x: nat, k: nat): (r: seq<byte>)
    ensures |r| == k
    ensures k > 0 ==> r[k - 1] == x % 256
  {
    if k == 0 then [] else PutBigEndian(x / 256, k - 1) + [x % 256]
  }

  lemma MulAtLeast(d: int, m: int)
    requires d >= 1 && m > 0
    ensures d * m >= m
  {
  }

  lemma MulDistrib(q: int, a: int, m: int)
    ensures q * m - a * m == (q - a) * m
  {
  }

  /** Uniqueness of Euclidean division. */
  lemma ModUnique(x: int, a: int, m: int, b: int)
    requires m > 0 && 0 <= b < m && x == a * m + b
    ensures x % m == b
  {
    var q, r := x / m, x % m;
    assert 0 <= r < m;
    assert q * m + r == x;
    MulDistrib(q, a, m);
    var d := q - a;
    assert d * m == b - r;
    if d > 0 {
      MulAtLeast(d, m);
    } else if d < 0 {
      MulAtLeast(-d, m);
    }
  }

  lemma DivModPow(x: nat, k: nat)
    requires k >= 1
    ensures (x / 256) % Pow(256, k - 1) * 256 + x % 256 == x % Pow(256, k)
  {
    var p := Pow(256, k - 1);
    assert Pow(256, k) == 256 * p;
    var q, r0 := x / 256, x % 256;
    var hi, lo := q / p, q % p;
    assert x == q * 256 + r0;
    assert q == hi * p + lo;
    assert x == hi * (256 * p) + (lo * 256 + r0);
    assert lo * 256 + r0 < 256 * p by { assert lo * 256 <= (p - 1) * 256; }
    ModUnique(x, hi, 256 * p, lo * 256 + r0);
  }

  lemma Pow256(k: nat)
    requires k == 2 || k == 8
    ensures k == 2 ==> Pow(256, k) == TWO_16
    ensures k == 8 ==> Pow(256, k) == TWO_64
  {
    assert Pow(256, 2) == 65536;
    assert Pow(256, 4) == 256 * (256 * Pow(256, 2));
    assert Pow(256, 8) == 256 * (256 * (256 * (256 * Pow(256, 4))));
  }

  /** Decoding the `k` big-endian bytes of `x` gives back `x` modulo 256^k. */
  lemma {:induction false} BigEndianRoundTrip(x: nat, k: nat)
    ensures BigEndian(PutBigEndian(x, k)) == x % Pow(256, k)
  {
    if k > 0 {
      var r := PutBigEndian(x, k);
      assert r[..|r| - 1] == PutBigEndian(x / 256, k - 1);
      BigEndianRoundTrip(x / 256, k - 1);
      DivModPow(x, k);
    }
  }

  /** An int64 written as uint64 big-endian bytes and read back through
      `int64(binary.BigEndian.Uint64(p))` is unchanged. */
  lemma Int64RoundTrip(v: int)
    requires IsInt64(v)
    ensures ToInt64(BigEndian(PutBigEndian(v % TWO_64, 8))) == v
  {
    var u := v % TWO_64;
    BigEndianRoundTrip(u, 8);
    Pow256(8);
    ModUnique(u, 0, TWO_64, u);
    if v < 0 {
      ModUnique(v, -1, TWO_64, v + TWO_64);
    } else {
      ModUnique(v, 0, TWO_64, v);
    }
  }

  /** A uint16 written as two big-endian bytes reads back unchanged. */
  lemma UInt16RoundTrip(v: int)
    requires IsUInt16(v)
    ensures BigEndian(PutBigEndian(v, 2)) == v
  {
    BigEndianRoundTrip(v, 2);
    Pow256(2);
  }
}
