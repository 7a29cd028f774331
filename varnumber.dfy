/** The variable-length integer codec of protocol/serialization.go:
    seven data bits per byte, least significant group first, the high bit
    set on every byte that is followed by another. For non-negative values
    this is the unsigned LEB128 layout of section 7.6 of DWARF version 4. */
module VarNumber {
  import opened Ints
  import opened Streams

  /** Byte budgets of ReadVarInt and ReadVarLong. */
  const VarIntBytes: nat := 5
  const VarLongBytes: nat := 10

  /** The value carried by the low seven bits of each byte, least
      significant group first. */
  function Groups(s: seq<byte>): nat
  {
    if s == [] then 0 else s[0] % 128 + 128 * Groups(s[1..])
  }

  lemma {:induction false} GroupsAppend(s: seq<byte>, b: byte)
    ensures Groups(s + [b]) == Groups(s) + b % 128 * Pow(128, |s|)
  {
    if s != [] {
      assert (s + [b])[1..] == s[1..] + [b];
      GroupsAppend(s[1..], b);
      var g, c, p := Groups(s[1..]), b % 128, Pow(128, |s| - 1);
      assert Groups(s + [b]) == s[0] % 128 + 128 * (g + c * p);
      GroupsStep(s[0] % 128, g, c, p);
    }
  }

  lemma GroupsStep(a: int, g: int, c: int, p: int)
    ensures a + 128 * (g + c * p) == (a + 128 * g) + c * (128 * p)
  {
  }

  lemma {:induction false} PowMonotone(b: nat, i: nat, j: nat)
    requires b > 0 && i <= j
    ensures Pow(b, i) <= Pow(b, j)
  {
    if i < j {
      PowMonotone(b, i, j - 1);
    }
  }

  /** The bytes writeVarNumber emits for a non-negative number: the minimal
      number of seven-bit groups (at least one), low group first, 0x80 on
      every byte but the last. */
  function VarBytes(x: nat): (r: seq<byte>)
    ensures 1 <= |r|
  {
    if x < 128 then [x] else [x % 128 + 128] + VarBytes(x / 128)
  }

  /** Only the last byte of VarBytes(x) has its high bit clear. */
  lemma {:induction false} VarBytesShape(x: nat)
    ensures var r := VarBytes(x);
            r[|r| - 1] < 128 && forall j :: 0 <= j < |r| - 1 ==> r[j] >= 128
  {
    if x >= 128 {
      VarBytesShape(x / 128);
    }
  }

  /** The groups of VarBytes(x) carry x, and there are no more of them than
      x needs: x < 128^m, and x >= 128^(m-1) unless m == 1. */
  lemma {:induction false} VarBytesValue(x: nat)
    ensures Groups(VarBytes(x)) == x
    ensures x < Pow(128, |VarBytes(x)|)
    ensures |VarBytes(x)| > 1 ==> Pow(128, |VarBytes(x)| - 1) <= x
  {
    if x >= 128 {
      var r := VarBytes(x);
      assert r[1..] == VarBytes(x / 128);
      VarBytesValue(x / 128);
      var m := |VarBytes(x / 128)|;
      assert Pow(128, m + 1) == 128 * Pow(128, m);
      assert x < 128 * (x / 128 + 1);
      if m > 1 {
        assert Pow(128, m) == 128 * Pow(128, m - 1);
        assert 128 * Pow(128, m - 1) <= 128 * (x / 128);
      }
    }
  }

  /** Only a number below 128^k needs no more than k bytes. */
  lemma VarBytesLength(x: nat, k: nat)
    requires k >= 1
    ensures |VarBytes(x)| <= k <==> x < Pow(128, k)
  {
    VarBytesValue(x);
    var m := |VarBytes(x)|;
    if m <= k {
      PowMonotone(128, m, k);
    } else {
      PowMonotone(128, k, m - 1);
    }
  }

  /** Where a read of a variable-length number stops within `s` under a
      budget of `maxBytes` bytes. */
  datatype Scan = Terminated(k: nat) | Overlong | Exhausted

  /** The loop of readVarNumber over the bytes `s` still in the reader:
      a byte past the budget fails whatever its high bit, a byte with a clear
      high bit ends the number, running out of bytes is end of stream. */
  function ScanVar(s: seq<byte>, maxBytes: nat): (r: Scan)
    ensures r.Terminated? ==> 1 <= r.k <= |s| && r.k <= maxBytes
    ensures r.Overlong? ==> maxBytes < |s|
  {
    if s == [] then Exhausted
    else if maxBytes == 0 then Overlong
    else if s[0] < 128 then Terminated(1)
    else Shifted(ScanVar(s[1..], maxBytes - 1), 1)
  }

  /** What each outcome of ScanVar means: a read ends at the first byte
      with a clear high bit within the budget; it overruns when the budget
      is all continuation bytes and another byte follows; otherwise the
      stream ends first. */
  lemma {:induction false} ScanVarMeaning(s: seq<byte>, maxBytes: nat)
    ensures ScanVar(s, maxBytes).Terminated? ==>
      var k := ScanVar(s, maxBytes).k;
      1 <= k <= |s| && k <= maxBytes && s[k - 1] < 128 &&
      forall j :: 0 <= j < k - 1 ==> s[j] >= 128
    ensures ScanVar(s, maxBytes).Overlong? <==>
      maxBytes < |s| && forall j :: 0 <= j < maxBytes ==> s[j] >= 128
    ensures ScanVar(s, maxBytes).Exhausted? <==>
      |s| <= maxBytes && forall j :: 0 <= j < |s| ==> s[j] >= 128
  {
    if s != [] && maxBytes > 0 && s[0] >= 128 {
      ScanVarMeaning(s[1..], maxBytes - 1);
      assert forall j :: 1 <= j < |s| ==> s[j] == s[1..][j - 1];
    }
  }

  function Shifted(sc: Scan, d: nat): Scan
  {
    match sc
    case Terminated(k) => Terminated(k + d)
    case _ => sc
  }

  /** The result of readVarNumber: the value, the count, where the reader
      stands afterwards, and the error. */
  datatype VarRead = VarRead(i: int, n: nat, pos: nat, err: Option<Error>)

  /** readVarNumber on the reader `data` at `pos`. `i |= int64(val) << (7*n)`
      ORs groups that occupy disjoint bit ranges and Go drops the bits
      shifted past bit 63, so the value is the groups' sum taken modulo 2^64
      as an int64. */
  function ReadVarNumberSpec(data: seq<byte>, pos: nat, maxBytes: nat): (r: VarRead)
    requires pos <= |data|
    ensures pos <= r.pos <= |data|
    ensures r.err.Some? ==> r.i == 0 && r.n == 0
    ensures r.err.None? ==> IsInt64(r.i) && 1 <= r.n <= maxBytes && r.pos == pos + r.n
  {
    match ScanVar(data[pos..], maxBytes)
    case Terminated(k) => VarRead(ToInt64(Groups(data[pos..pos + k])), k, pos + k, None)
    case Overlong => VarRead(0, 0, pos + maxBytes + 1, Some(VarLenTooBig))
    case Exhausted => VarRead(0, 0, |data|, Some(EOF))
  }

  /** ReadVarInt: readVarNumber with a budget of 5 bytes, then `int32(res)`
      keeps the low 32 bits. */
  function ReadVarIntSpec(data: seq<byte>, pos: nat): (r: VarRead)
    requires pos <= |data|
    ensures IsInt32(r.i)
  {
    var v := ReadVarNumberSpec(data, pos, VarIntBytes);
    v.(i := ToInt32(v.i))
  }

  /** ReadVarLong: readVarNumber with a budget of 10 bytes. */
  function ReadVarLongSpec(data: seq<byte>, pos: nat): (r: VarRead)
    requires pos <= |data|
    ensures IsInt64(r.i)
  {
    ReadVarNumberSpec(data, pos, VarLongBytes)
  }

  /** What readVarNumber's loop knows after `n` continuation bytes read
      from `start`: the groups gathered so far, the weight of the next one,
      and that the scan of the whole input continues where it stands. */
  ghost predicate Progress(data: seq<byte>, start: nat, n: nat, maxBytes: nat, acc: nat, weight: nat)
  {
    start + n <= |data| && n <= maxBytes &&
    acc == Groups(data[start..start + n]) && weight == Pow(128, n) &&
    ScanVar(data[start..], maxBytes) == Shifted(ScanVar(data[start + n..], maxBytes - n), n)
  }

  /** What one more byte `b` tells readVarNumber's loop. */
  lemma ReadVarStep(data: seq<byte>, start: nat, n: nat, maxBytes: nat,
                    acc: nat, weight: nat, b: byte)
    requires Progress(data, start, n, maxBytes, acc, weight)
    requires start + n < |data| && b == data[start + n]
    ensures acc + b % 128 * weight == Groups(data[start..start + n + 1])
    ensures n + 1 > maxBytes ==> ScanVar(data[start..], maxBytes) == Overlong
    ensures n + 1 <= maxBytes && b < 128 ==>
              ScanVar(data[start..], maxBytes) == Terminated(n + 1)
    ensures n + 1 <= maxBytes && b >= 128 ==>
              Progress(data, start, n + 1, maxBytes, acc + b % 128 * weight, weight * 128)
  {
    assert data[start..start + n + 1] == data[start..start + n] + [b];
    GroupsAppend(data[start..start + n], b);
    assert data[start + n..][1..] == data[start + n + 1..];
  }

  method ReadVarNumber(r: Reader, maxBytes: nat) returns (i: int, n: nat, err: Option<Error>)
    requires r.Valid()
    modifies r
    ensures r.Valid()
    ensures VarRead(i, n, r.pos, err) == ReadVarNumberSpec(r.data, old(r.pos), maxBytes)
  {
    ghost var start := r.pos;
    ghost var data := r.data;
    var acc: nat := 0;
    var weight: nat := 1;
    n := 0;
    while true
      invariant r.Valid() && r.data == data && r.pos == start + n
      invariant Progress(data, start, n, maxBytes, acc, weight)
      decreases |data| - r.pos
    {
      var bs, _, e := r.Read(1);
      if e.Some? {
        assert data[r.pos..] == [];
        return 0, 0, e;
      }
      var b := bs[0];
      assert b == data[start + n];
      ReadVarStep(data, start, n, maxBytes, acc, weight, b);
      acc := acc + b % 128 * weight;
      weight := weight * 128;
      n := n + 1;
      if n > maxBytes {
        return 0, 0, Some(VarLenTooBig);
      }
      if b < 128 {
        break;
      }
    }
    i, err := ToInt64(acc), None;
  }

  /** The first byte writeVarNumber emits for `x` and what is left after it. */
  lemma VarBytesHead(x: nat)
    ensures VarBytes(x)[0] == x % 128 + (if x / 128 != 0 then 128 else 0)
    ensures VarBytes(x)[1..] == if x / 128 == 0 then [] else VarBytes(x / 128)
  {
  }

  /** What writeVarNumber's loop knows after `n` bytes of `all`: the rest
      is the encoding of `x`, and the `n` single-byte writes so far left the
      writer as one write of those `n` bytes would. */
  ghost predicate Emitted(s0: Sink, all: seq<byte>, n: nat, x: int, st: Sink)
  {
    0 <= x && n < |all| && all[n..] == VarBytes(x) && Push(s0, all[..n]) == Put(st, n, None)
  }

  /** The byte writeVarNumber's loop emits for `x` is the next byte of the
      encoding, and what is left to emit is the encoding of `x / 128`. */
  lemma EmitHead(all: seq<byte>, n: nat, x: int, temp: int)
    requires 0 <= x && n < |all| && all[n..] == VarBytes(x)
    requires temp == x % 128 + (if x / 128 != 0 then 128 else 0)
    ensures temp == all[n]
    ensures x / 128 != 0 ==> n + 1 < |all| && all[n + 1..] == VarBytes(x / 128)
    ensures x / 128 == 0 ==> n + 1 == |all|
  {
    VarBytesHead(x);
    assert all[n..][0] == all[n];
    assert all[n + 1..] == all[n..][1..];
  }

  /** One single-byte write of the next byte, against one write of the
      whole encoding. */
  lemma PushStep(s0: Sink, all: seq<byte>, n: nat, mid: Sink, after: Put)
    requires n < |all|
    requires Push(s0, all[..n]) == Put(mid, n, None)
    requires after == Push(mid, [all[n]])
    ensures after.err.None? ==> Push(s0, all[..n + 1]) == Put(after.sink, n + 1, None)
    ensures after.err.Some? ==> Push(s0, all) == Put(after.sink, n, after.err)
  {
    if after.err.None? {
      assert all[..n + 1] == all[..n] + [all[n]];
      PushConcat(s0, all[..n], [all[n]]);
    } else {
      assert all == all[..n] + ([all[n]] + all[n + 1..]);
      PushConcat(s0, all[..n], [all[n]] + all[n + 1..]);
      PushConcat(mid, [all[n]], all[n + 1..]);
    }
  }

  /** One iteration of writeVarNumber's loop. */
  lemma WriteVarStep(s0: Sink, all: seq<byte>, n: nat, x: int, mid: Sink, temp: int, after: Put)
    requires Emitted(s0, all, n, x, mid)
    requires temp == x % 128 + (if x / 128 != 0 then 128 else 0)
    requires 0 <= temp < 256 && after == Push(mid, [temp])
    ensures after.err.Some? ==> Push(s0, all) == Put(after.sink, n, after.err)
    ensures after.err.None? && x / 128 != 0 ==> Emitted(s0, all, n + 1, x / 128, after.sink)
    ensures after.err.None? && x / 128 == 0 ==> Push(s0, all) == Put(after.sink, n + 1, None)
  {
    EmitHead(all, n, x, temp);
    PushStep(s0, all, n, mid, after);
    if x / 128 == 0 {
      assert all[..n + 1] == all;
    }
  }

  method WriteVarNumber(w: Writer, number: int, maxBytes: nat) returns (n: nat, err: Option<Error>)
    requires 0 <= number
    modifies w
    ensures Push(old(w.State()), VarBytes(number)) == Put(w.State(), n, err)
  {
    ghost var s0 := w.State();
    ghost var all := VarBytes(number);
    var x := number;
    n, err := 0, None;
    assert all[..0] == [] && all[0..] == all;
    while true
      invariant err == None && Emitted(s0, all, n, x, w.State())
      decreases x
    {
      ghost var x0, mid := x, w.State();
      var temp := x % 128;
      x := x / 128;
      if x != 0 {
        temp := temp + 128;
      }
      var written, e := w.Write([temp]);
      WriteVarStep(s0, all, n, x0, mid, temp, Put(w.State(), written, e));
      if e.Some? {
        return n, e;
      }
      n := n + 1;
      if x == 0 {
        break;
      }
    }
  }

  method ReadVarInt(r: Reader) returns (i: int, n: nat, err: Option<Error>)
    requires r.Valid()
    modifies r
    ensures r.Valid()
    ensures VarRead(i, n, r.pos, err) == ReadVarIntSpec(r.data, old(r.pos))
  {
    var res;
    res, n, err := ReadVarNumber(r, VarIntBytes);
    i := ToInt32(res);
  }

  method ReadVarLong(r: Reader) returns (i: int, n: nat, err: Option<Error>)
    requires r.Valid()
    modifies r
    ensures r.Valid()
    ensures VarRead(i, n, r.pos, err) == ReadVarLongSpec(r.data, old(r.pos))
  {
    i, n, err := ReadVarNumber(r, VarLongBytes);
  }

  /** A reader positioned on the bytes of VarBytes(x) stops exactly after
      them, whatever follows. */
  lemma ScanVarBytes(s: seq<byte>, x: nat, maxBytes: nat)
    requires |VarBytes(x)| <= |s| && s[..|VarBytes(x)|] == VarBytes(x)
    requires |VarBytes(x)| <= maxBytes
    ensures ScanVar(s, maxBytes) == Terminated(|VarBytes(x)|)
  {
    var v := VarBytes(x);
    VarBytesShape(x);
    assert forall j :: 0 <= j < |v| ==> s[j] == v[j];
    ScanVarMeaning(s, maxBytes);
  }

  /** Reading back what writeVarNumber wrote returns the number and the
      count written, provided the encoding fits the budget. */
  lemma VarNumberRoundTrip(data: seq<byte>, pos: nat, x: nat, maxBytes: nat)
    requires pos + |VarBytes(x)| <= |data| && data[pos..pos + |VarBytes(x)|] == VarBytes(x)
    requires |VarBytes(x)| <= maxBytes
    ensures ReadVarNumberSpec(data, pos, maxBytes)
            == VarRead(ToInt64(x), |VarBytes(x)|, pos + |VarBytes(x)|, None)
  {
    var v := VarBytes(x);
    var k := |v|;
    assert data[pos..][..k] == v;
    ScanVarBytes(data[pos..], x, maxBytes);
    VarBytesValue(x);
    assert data[pos..pos + k] == v;
    assert ReadVarNumberSpec(data, pos, maxBytes)
           == VarRead(ToInt64(Groups(data[pos..pos + k])), k, pos + k, None);
  }

  /** VarInt round trip: every int32 value >= 0 fits in 5 bytes and reads
      back unchanged. */
  lemma VarIntRoundTrip(data: seq<byte>, pos: nat, x: nat)
    requires x < TWO_31
    requires pos + |VarBytes(x)| <= |data| && data[pos..pos + |VarBytes(x)|] == VarBytes(x)
    ensures |VarBytes(x)| <= VarIntBytes
    ensures ReadVarIntSpec(data, pos) == VarRead(x, |VarBytes(x)|, pos + |VarBytes(x)|, None)
  {
    assert Pow(128, 5) == TWO_35 by {
      assert Pow(128, 2) == 16384;
      assert Pow(128, 4) == 128 * (128 * Pow(128, 2));
    }
    VarBytesLength(x, VarIntBytes);
    VarNumberRoundTrip(data, pos, x, VarIntBytes);
  }

  /** VarLong round trip: every int64 value >= 0 fits in 10 bytes and reads
      back unchanged. */
  lemma VarLongRoundTrip(data: seq<byte>, pos: nat, x: nat)
    requires x < TWO_63
    requires pos + |VarBytes(x)| <= |data| && data[pos..pos + |VarBytes(x)|] == VarBytes(x)
    ensures |VarBytes(x)| <= VarLongBytes
    ensures ReadVarLongSpec(data, pos) == VarRead(x, |VarBytes(x)|, pos + |VarBytes(x)|, None)
  {
    assert Pow(128, 10) > TWO_63 by {
      assert Pow(128, 2) == 16384;
      assert Pow(128, 4) == 128 * (128 * Pow(128, 2));
      assert Pow(128, 8) == 128 * (128 * (128 * (128 * Pow(128, 4))));
      assert Pow(128, 10) == 128 * (128 * Pow(128, 8));
    }
    VarBytesLength(x, VarLongBytes);
    VarNumberRoundTrip(data, pos, x, VarLongBytes);
  }

  /** The number whose VarInt or VarLong bytes carry `i` when the
      reader keeps the low bits modulo `m` (2^32 or 2^64): `i` itself when
      it is not negative, else its two's-complement bit pattern, which is
      what other implementations send for a negative value. */
  function VarPattern(i: int, m: nat): (r: nat)
    requires m > 0
    ensures 0 <= i ==> r == i
    ensures i < 0 && 0 <= i + m ==> r == i + m
  {
    if 0 <= i then i
    else
      assert 0 <= i + m ==> i % m == i + m by {
        if 0 <= i + m {
          ModUnique(i, -1, m, i + m);
        }
      }
      i % m
  }

  /** The bytes of VarInt `v` on the wire: VarBytes of its 32-bit
      pattern. */
  function VarIntWire(v: int): seq<byte>
  {
    VarBytes(VarPattern(v, TWO_32))
  }

  /** Every 32-bit pattern fits the VarInt budget, every 64-bit pattern
      the VarLong budget. */
  lemma PatternFits(x: nat)
    ensures x < TWO_32 ==> |VarBytes(x)| <= VarIntBytes
    ensures x < TWO_64 ==> |VarBytes(x)| <= VarLongBytes
  {
    assert Pow(128, 5) == TWO_35 && Pow(128, 10) > TWO_64 by {
      assert Pow(128, 2) == 16384;
      assert Pow(128, 4) == 128 * (128 * Pow(128, 2));
      assert Pow(128, 8) == 128 * (128 * (128 * (128 * Pow(128, 4))));
      assert Pow(128, 10) == 128 * (128 * Pow(128, 8));
    }
    VarBytesLength(x, VarIntBytes);
    VarBytesLength(x, VarLongBytes);
  }

  /** VarInt round trip for every int32: a negative value sent as the five
      bytes of its 32-bit pattern reads back as itself through `int32(res)`. */
  lemma VarIntRoundTripSigned(data: seq<byte>, pos: nat, v: int)
    requires IsInt32(v)
    requires var b := VarBytes(VarPattern(v, TWO_32));
             pos + |b| <= |data| && data[pos..pos + |b|] == b
    ensures |VarBytes(VarPattern(v, TWO_32))| <= VarIntBytes
    ensures var k := |VarBytes(VarPattern(v, TWO_32))|;
            ReadVarIntSpec(data, pos) == VarRead(v, k, pos + k, None)
  {
    if 0 <= v {
      VarIntRoundTrip(data, pos, v);
    } else {
      var x := v + TWO_32;
      assert VarPattern(v, TWO_32) == x;
      PatternFits(x);
      VarNumberRoundTrip(data, pos, x, VarIntBytes);
      assert ToInt32(ToInt64(x)) == v;
    }
  }

  /** VarLong round trip for every int64: a negative value sent as the ten
      bytes of its 64-bit pattern reads back as itself. */
  lemma VarLongRoundTripSigned(data: seq<byte>, pos: nat, v: int)
    requires IsInt64(v)
    requires var b := VarBytes(VarPattern(v, TWO_64));
             pos + |b| <= |data| && data[pos..pos + |b|] == b
    ensures |VarBytes(VarPattern(v, TWO_64))| <= VarLongBytes
    ensures var k := |VarBytes(VarPattern(v, TWO_64))|;
            ReadVarLongSpec(data, pos) == VarRead(v, k, pos + k, None)
  {
    if 0 <= v {
      VarLongRoundTrip(data, pos, v);
    } else {
      var x := v + TWO_64;
      assert VarPattern(v, TWO_64) == x;
      PatternFits(x);
      VarNumberRoundTrip(data, pos, x, VarLongBytes);
      assert ToInt64(x) == v;
    }
  }

  /** When the first maxBytes bytes all carry the continuation bit and
      another byte follows, the read fails with ErrVariableLengthDigit after
      consuming that byte, whatever its own high bit, and returns (0, 0). */
  lemma OverlongFails(data: seq<byte>, pos: nat, maxBytes: nat)
    requires pos + maxBytes < |data|
    requires forall j :: pos <= j < pos + maxBytes ==> data[j] >= 128
    ensures ReadVarNumberSpec(data, pos, maxBytes)
            == VarRead(0, 0, pos + maxBytes + 1, Some(VarLenTooBig))
  {
    var s := data[pos..];
    assert forall j :: 0 <= j < maxBytes ==> s[j] == data[pos + j];
    ScanVarMeaning(s, maxBytes);
  }

  /** A stream that ends before the terminating byte yields io.EOF with
      (0, 0), the reader drained. */
  lemma ExhaustedFails(data: seq<byte>, pos: nat, maxBytes: nat)
    requires pos <= |data| && |data| - pos <= maxBytes
    requires forall j :: pos <= j < |data| ==> data[j] >= 128
    ensures ReadVarNumberSpec(data, pos, maxBytes) == VarRead(0, 0, |data|, Some(EOF))
  {
    var s := data[pos..];
    assert forall j :: 0 <= j < |s| ==> s[j] == data[pos + j];
    ScanVarMeaning(s, maxBytes);
  }

  lemma Pow128Values()
    ensures Pow(128, 1) == 128 && Pow(128, 2) == 16384 && Pow(128, 3) == 2097152
    ensures Pow(128, 4) == 268435456 && Pow(128, 5) == TWO_35
  {
  }

  /** Sizes of the encoding at the group boundaries. */
  lemma VarBytesExamples()
    ensures VarBytes(0) == [0x00]
    ensures VarBytes(127) == [0x7F]
    ensures VarBytes(128) == [0x80, 0x01]
    ensures |VarBytes(2097151)| == 3 && |VarBytes(2097152)| == 4
    ensures |VarBytes(TWO_31 - 1)| == 5
  {
    Pow128Values();
    VarBytesLength(2097151, 2);
    VarBytesLength(2097151, 3);
    VarBytesLength(2097152, 3);
    VarBytesLength(2097152, 4);
    VarBytesLength(TWO_31 - 1, 4);
    VarBytesLength(TWO_31 - 1, 5);
  }

  /** Six continuation bytes overrun the VarInt budget; the five bytes of
      0xFFFFFFFF read back as the int32 value -1. */
  lemma VarIntEdgeExamples()
    ensures ReadVarIntSpec([0x80, 0x80, 0x80, 0x80, 0x80, 0x80], 0)
            == VarRead(0, 0, 6, Some(VarLenTooBig))
    ensures ReadVarIntSpec([0xFF, 0xFF, 0xFF, 0xFF, 0x0F], 0) == VarRead(-1, 5, 5, None)
  {
    OverlongFails([0x80, 0x80, 0x80, 0x80, 0x80, 0x80], 0, VarIntBytes);
    var s: seq<byte> := [0xFF, 0xFF, 0xFF, 0xFF, 0x0F];
    assert s[0..] == s && s[0..5] == s;
    assert ScanVar(s, VarIntBytes) == Terminated(5);
    assert Groups(s) == TWO_32 - 1 by {
      assert s[1..][1..][1..][1..][1..] == [];
    }
  }
}
