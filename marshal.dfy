/** Read and Write of protocol/serialization.go: big-endian int64 and
    uint16, varint-prefixed strings, VarInt and VarLong, and structs walked
    field by field in declaration order. Go's type switch and reflection
    become a closed datatype of field kinds. */
module Marshal {
  import opened Ints
  import opened Streams
  import opened VarNumber

  /** A value as Read and Write see it: the pointee of a Read target, or the
      argument of a Write. A struct is the sequence of its fields in
      declaration order. */
  datatype Value =
    | VarInt(i: int)
    | VarLong(i: int)
    | Int64(i: int)
    | UInt16(u: int)
    | Str(s: seq<byte>)
    | Struct(fields: seq<Value>)

  /** Each value lies in the range of its Go type. */
  predicate WellTyped(v: Value)
    decreases v, 1
  {
    match v
    case VarInt(i) => IsInt32(i)
    case VarLong(i) => IsInt64(i)
    case Int64(i) => IsInt64(i)
    case UInt16(u) => IsUInt16(u)
    case Str(_) => true
    case Struct(fs) => WellTypedFields(fs)
  }

  predicate WellTypedFields(fs: seq<Value>)
    decreases fs, 0
  {
    fs == [] || (WellTyped(fs[0]) && WellTypedFields(fs[1..]))
  }

  /** No VarInt or VarLong is negative: writeVarNumber finishes only on
      such values. On a negative one `number >>= 7` never reaches 0, so it
      keeps writing until a write fails. */
  predicate NonNegVarNumbers(v: Value)
    decreases v, 1
  {
    match v
    case VarInt(i) => i >= 0
    case VarLong(i) => i >= 0
    case Struct(fs) => NonNegFields(fs)
    case _ => true
  }

  predicate NonNegFields(fs: seq<Value>)
    decreases fs, 0
  {
    fs == [] || (NonNegVarNumbers(fs[0]) && NonNegFields(fs[1..]))
  }

  /** Write has a case for every kind except uint16. */
  predicate Supported(v: Value)
    decreases v, 1
  {
    match v
    case UInt16(_) => false
    case Struct(fs) => SupportedFields(fs)
    case _ => true
  }

  predicate SupportedFields(fs: seq<Value>)
    decreases fs, 0
  {
    fs == [] || (Supported(fs[0]) && SupportedFields(fs[1..]))
  }

  /** The values whose layout reads back as the same value: well typed,
      and strings shorter than 2^31 bytes (the length travels as a VarInt). */
  predicate Encodable(v: Value)
    decreases v, 1
  {
    match v
    case VarInt(i) => IsInt32(i)
    case VarLong(i) => IsInt64(i)
    case Int64(i) => IsInt64(i)
    case UInt16(u) => IsUInt16(u)
    case Str(s) => |s| < TWO_31
    case Struct(fs) => EncodableFields(fs)
  }

  predicate EncodableFields(fs: seq<Value>)
    decreases fs, 0
  {
    fs == [] || (Encodable(fs[0]) && EncodableFields(fs[1..]))
  }

  /** Two values of the same Go type. */
  predicate SameShape(a: Value, b: Value)
    decreases a, 1
  {
    match a
    case VarInt(_) => b.VarInt?
    case VarLong(_) => b.VarLong?
    case Int64(_) => b.Int64?
    case UInt16(_) => b.UInt16?
    case Str(_) => b.Str?
    case Struct(fs) => b.Struct? && SameShapeFields(fs, b.fields)
  }

  predicate SameShapeFields(fs: seq<Value>, gs: seq<Value>)
    decreases fs, 0
  {
    |fs| == |gs| && (fs == [] || (SameShape(fs[0], gs[0]) && SameShapeFields(fs[1..], gs[1..])))
  }

  lemma {:induction false} SameShapeReflexive(v: Value)
    ensures SameShape(v, v)
    decreases v, 1
  {
    if v.Struct? {
      SameShapeFieldsReflexive(v.fields);
    }
  }

  lemma {:induction false} SameShapeFieldsReflexive(fs: seq<Value>)
    ensures SameShapeFields(fs, fs)
    decreases fs, 0
  {
    if fs != [] {
      SameShapeReflexive(fs[0]);
      SameShapeFieldsReflexive(fs[1..]);
    }
  }

  /** The wire layout of a value: the bytes Read consumes for it, and the
      bytes Write emits for it when Write finishes (no uint16, no negative
      VarInt or VarLong). A negative VarInt or VarLong is laid out as its
      two's-complement bit pattern, as other implementations send it.
      Every value but a struct takes at least one byte. */
  function Layout(v: Value): (r: seq<byte>)
    ensures !v.Struct? ==> 1 <= |r|
    decreases v, 1
  {
    match v
    case VarInt(i) => VarBytes(VarPattern(i, TWO_32))
    case VarLong(i) => VarBytes(VarPattern(i, TWO_64))
    case Int64(i) => PutBigEndian(i % TWO_64, 8)
    case UInt16(u) => PutBigEndian(u % TWO_16, 2)
    case Str(s) => VarBytes(|s|) + s
    case Struct(fs) => LayoutFields(fs)
  }

  function LayoutFields(fs: seq<Value>): seq<byte>
    decreases fs, 0
  {
    if fs == [] then [] else Layout(fs[0]) + LayoutFields(fs[1..])
  }

  /** The number of string body bytes in a value: what Read leaves out of
      its count. */
  function StringBytes(v: Value): nat
    decreases v, 1
  {
    match v
    case Str(s) => |s|
    case Struct(fs) => StringBytesFields(fs)
    case _ => 0
  }

  function StringBytesFields(fs: seq<Value>): nat
    decreases fs, 0
  {
    if fs == [] then 0 else StringBytes(fs[0]) + StringBytesFields(fs[1..])
  }

  // ---------------------------------------------------------------------
  // Read

  /** The result of Read: the new pointee, the count returned, where the
      reader stands, and the error. */
  datatype Decoded = Decoded(v: Value, n: nat, pos: nat, err: Option<Error>)

  /** The result of reading a struct's fields. */
  datatype FieldsDecoded = FieldsDecoded(fields: seq<Value>, n: nat, pos: nat, err: Option<Error>)

  /** `Read(r, &v)` with the reader at `pos` and the target holding `v`.
      Int64 and uint16 report their full width even when the reader held
      fewer bytes (the rest stay zero); a string reports only its length
      prefix and is zero-filled to the announced length. A failing VarInt,
      VarLong or string leaves the target unchanged. */
  function ReadSpec(data: seq<byte>, pos: nat, v: Value): (r: Decoded)
    requires pos <= |data|
    ensures pos <= r.pos <= |data|
    decreases v, 1
  {
    match v
    case VarInt(_) =>
      var x := ReadVarIntSpec(data, pos);
      if x.err.Some? then Decoded(v, 0, x.pos, x.err) else Decoded(VarInt(x.i), x.n, x.pos, None)
    case VarLong(_) =>
      var x := ReadVarLongSpec(data, pos);
      if x.err.Some? then Decoded(v, 0, x.pos, x.err) else Decoded(VarLong(x.i), x.n, x.pos, None)
    case Int64(_) => ReadInt64Spec(data, pos)
    case UInt16(_) => ReadUInt16Spec(data, pos)
    case Str(_) => ReadStringSpec(data, pos, v)
    case Struct(fs) =>
      var r := ReadFields(data, pos, fs);
      Decoded(Struct(r.fields), r.n, r.pos, r.err)
  }

  /** An int64: eight bytes, big-endian, whatever the reader still held. */
  function ReadInt64Spec(data: seq<byte>, pos: nat): (r: Decoded)
    requires pos <= |data|
    ensures r.v.Int64? && IsInt64(r.v.i) && r.n == 8 && r.err == None
    ensures r.pos == pos + Min(8, |data| - pos)
  {
    var b := Available(data, pos, 8);
    Decoded(Int64(ToInt64(BigEndian(b + Zeros(8 - |b|)))), 8, pos + |b|, None)
  }

  /** A uint16: two bytes, big-endian, whatever the reader still held. */
  function ReadUInt16Spec(data: seq<byte>, pos: nat): (r: Decoded)
    requires pos <= |data|
    ensures r.v.UInt16? && r.n == 2 && r.err == None
    ensures r.pos == pos + Min(2, |data| - pos)
  {
    var b := Available(data, pos, 2);
    Decoded(UInt16(BigEndian(b + Zeros(2 - |b|))), 2, pos + |b|, None)
  }

  /** A string: a VarInt length, then a buffer of that length filled by one
      read. Only the prefix is counted; a negative length panics. */
  function ReadStringSpec(data: seq<byte>, pos: nat, v: Value): (r: Decoded)
    requires pos <= |data|
    ensures pos <= r.pos <= |data|
    ensures r.err.None? ==> r.v.Str? && 1 <= r.n <= VarIntBytes
    ensures r.err.Some? ==> r.v == v && r.n == 0
  {
    StringBody(data, ReadVarIntSpec(data, pos), v)
  }

  /** The rest of a string read once its length prefix `x` was read. */
  function StringBody(data: seq<byte>, x: VarRead, v: Value): (r: Decoded)
    requires x.pos <= |data|
    requires x.err.None? ==> 1 <= x.n <= VarIntBytes
    ensures x.pos <= r.pos <= |data|
    ensures r.err.None? ==> r.v.Str? && 1 <= r.n <= VarIntBytes
    ensures r.err.Some? ==> r.v == v && r.n == 0
  {
    if x.err.Some? then Decoded(v, 0, x.pos, x.err)
    else if x.i < 0 then Decoded(v, 0, x.pos, Some(NegativeLenPanic))
    else
      var b := Available(data, x.pos, x.i);
      Decoded(Str(b + Zeros(x.i - |b|)), x.n, x.pos + |b|, None)
  }

  /** The fields of a struct, in declaration order; the first failing field
      stops the walk with the count of the fields before it. */
  function ReadFields(data: seq<byte>, pos: nat, fs: seq<Value>): (r: FieldsDecoded)
    requires pos <= |data|
    ensures pos <= r.pos <= |data|
    decreases fs, 0
  {
    if fs == [] then FieldsDecoded([], 0, pos, None)
    else
      var h := ReadSpec(data, pos, fs[0]);
      if h.err.Some? then FieldsDecoded([h.v] + fs[1..], 0, h.pos, h.err)
      else
        var t := ReadFields(data, h.pos, fs[1..]);
        FieldsDecoded([h.v] + t.fields, h.n + t.n, t.pos, t.err)
  }

  method Read(r: Reader, v: Value) returns (v': Value, n: nat, err: Option<Error>)
    requires r.Valid()
    modifies r
    ensures r.Valid()
    ensures Decoded(v', n, r.pos, err) == ReadSpec(r.data, old(r.pos), v)
    decreases v, 1
  {
    match v
    case Str(_) =>
      var stringLen, m, e := ReadVarInt(r);
      if e.Some? {
        return v, 0, e;
      }
      if stringLen < 0 {
        return v, 0, Some(NegativeLenPanic);
      }
      var s, _, _ := r.Read(stringLen);
      return Str(s), m, None;
    case Int64(_) =>
      var p, _, _ := r.Read(8);
      return Int64(ToInt64(BigEndian(p))), 8, None;
    case VarInt(_) =>
      var i, m, e := ReadVarInt(r);
      if e.Some? {
        return v, 0, e;
      }
      return VarInt(i), m, None;
    case UInt16(_) =>
      var p, _, _ := r.Read(2);
      return UInt16(BigEndian(p)), 2, None;
    case VarLong(_) =>
      var i, m, e := ReadVarLong(r);
      if e.Some? {
        return v, 0, e;
      }
      return VarLong(i), m, None;
    case Struct(fs) =>
      var fields;
      fields, n, err := ReadStruct(r, fs);
      return Struct(fields), n, err;
  }

  /** One iteration of the struct loop: field `i` read into `d` either
      ends the walk or leaves the rest of the fields to read. */
  lemma ReadStructStep(data: seq<byte>, pos: nat, fs: seq<Value>, i: nat, fields: seq<Value>,
                       n: nat, whole: FieldsDecoded, d: Decoded)
    requires pos <= |data| && i < |fs| && |fields| == |fs| && fields[i..] == fs[i..]
    requires d == ReadSpec(data, pos, fs[i])
    requires var t := ReadFields(data, pos, fs[i..]);
             whole == FieldsDecoded(fields[..i] + t.fields, n + t.n, t.pos, t.err)
    ensures var fields' := fields[i := d.v];
            fields'[i + 1..] == fs[i + 1..] &&
            if d.err.Some? then whole == FieldsDecoded(fields', n, d.pos, d.err)
            else var t := ReadFields(data, d.pos, fs[i + 1..]);
                 whole == FieldsDecoded(fields'[..i + 1] + t.fields, n + d.n + t.n, t.pos, t.err)
  {
    assert fs[i..][0] == fs[i] && fs[i..][1..] == fs[i + 1..];
    var fields' := fields[i := d.v];
    assert fields'[..i + 1] == fields[..i] + [d.v];
    assert fields'[i + 1..] == fs[i + 1..] by {
      assert fields[i + 1..] == fields[i..][1..];
    }
    if d.err.Some? {
      assert fields' == fields[..i] + ([d.v] + fs[i + 1..]);
    }
  }

  /** The default branch of Read on a pointer to a struct: each field in
      declaration order, stopping at the first error with the count so far. */
  method ReadStruct(r: Reader, fs: seq<Value>) returns (fields: seq<Value>, n: nat, err: Option<Error>)
    requires r.Valid()
    modifies r
    ensures r.Valid()
    ensures FieldsDecoded(fields, n, r.pos, err) == ReadFields(r.data, old(r.pos), fs)
    decreases fs, 0
  {
    ghost var data := r.data;
    ghost var whole := ReadFields(data, r.pos, fs);
    fields := fs;
    n := 0;
    var i := 0;
    while i < |fs|
      invariant r.Valid() && r.data == data && 0 <= i <= |fs|
      invariant |fields| == |fs| && fields[i..] == fs[i..]
      invariant var t := ReadFields(data, r.pos, fs[i..]);
                whole == FieldsDecoded(fields[..i] + t.fields, n + t.n, t.pos, t.err)
    {
      ghost var pos := r.pos;
      var f, m, e := Read(r, fs[i]);
      ReadStructStep(data, pos, fs, i, fields, n, whole, Decoded(f, m, r.pos, e));
      fields := fields[i := f];
      if e.Some? {
        return fields, n, e;
      }
      n := n + m;
      i := i + 1;
    }
    assert fields[..i] == fields;
    return fields, n, None;
  }

  // ---------------------------------------------------------------------
  // Write

  /** `Write(w, v)` on a writer in state `s`: the writer's new state, the
      count returned and the error. A VarInt or VarLong passes on what
      writeVarNumber returned; an int64 or string that fails reports 0; a
      string that succeeds reports its prefix and its body; a uint16 is not
      supported; a struct stops at its first failing field. */
  function WriteSpec(s: Sink, v: Value): (r: Put)
    requires NonNegVarNumbers(v)
    ensures s.out <= r.sink.out
    ensures r.err.None? ==> Supported(v) && |r.sink.out| == |s.out| + r.n
    ensures r.err.Some? ==> r.err == Some(WriteFailed) || r.err == Some(Unsupported)
    decreases v, 1
  {
    match v
    case VarInt(i) => Push(s, VarBytes(i))
    case VarLong(i) => Push(s, VarBytes(i))
    case Int64(i) =>
      var p := Push(s, PutBigEndian(i % TWO_64, 8));
      if p.err.Some? then Put(p.sink, 0, p.err) else p
    case Str(t) =>
      var p := Push(s, VarBytes(|t|));
      if p.err.Some? then Put(p.sink, 0, p.err)
      else
        var q := Push(p.sink, t);
        if q.err.Some? then Put(q.sink, 0, q.err) else Put(q.sink, p.n + |t|, None)
    case UInt16(_) => Put(s, 0, Some(Unsupported))
    case Struct(fs) => WriteFields(s, fs)
  }

  function WriteFields(s: Sink, fs: seq<Value>): (r: Put)
    requires NonNegFields(fs)
    ensures s.out <= r.sink.out
    ensures r.err.None? ==> SupportedFields(fs) && |r.sink.out| == |s.out| + r.n
    ensures r.err.Some? ==> r.err == Some(WriteFailed) || r.err == Some(Unsupported)
    decreases fs, 0
  {
    if fs == [] then Put(s, 0, None)
    else
      var h := WriteSpec(s, fs[0]);
      if h.err.Some? then Put(h.sink, 0, h.err)
      else
        var t := WriteFields(h.sink, fs[1..]);
        Put(t.sink, h.n + t.n, t.err)
  }

  method Write(w: Writer, v: Value) returns (n: nat, err: Option<Error>)
    requires NonNegVarNumbers(v)
    modifies w
    ensures Put(w.State(), n, err) == WriteSpec(old(w.State()), v)
    decreases v
  {
    match v
    case VarInt(i) =>
      n, err := WriteVarNumber(w, i, VarIntBytes);
    case VarLong(i) =>
      n, err := WriteVarNumber(w, i, VarLongBytes);
    case Int64(i) =>
      n, err := w.Write(PutBigEndian(i % TWO_64, 8));
      if err.Some? {
        return 0, err;
      }
    case Str(t) =>
      var vl, e := WriteVarNumber(w, |t|, VarIntBytes);
      if e.Some? {
        return 0, e;
      }
      var _, e2 := w.Write(t);
      if e2.Some? {
        return 0, e2;
      }
      return vl + |t|, None;
    case UInt16(_) =>
      return 0, Some(Unsupported);
    case Struct(fs) =>
      ghost var s0 := w.State();
      n := 0;
      var i := 0;
      assert fs[0..] == fs;
      while i < |fs|
        invariant 0 <= i <= |fs| && NonNegFields(fs[i..])
        invariant var t := WriteFields(w.State(), fs[i..]);
                  WriteFields(s0, fs) == Put(t.sink, n + t.n, t.err)
      {
        assert fs[i..][1..] == fs[i + 1..];
        var m, e := Write(w, fs[i]);
        if e.Some? {
          return n, e;
        }
        n := n + m;
        i := i + 1;
      }
      return n, None;
  }

  /** SizeOfSerializedData: the count Write returns on NullWritter, a
      writer that accepts every byte (the error is dropped). */
  method SizeOfSerializedData(v: Value) returns (size: nat)
    requires NonNegVarNumbers(v)
    ensures size == WriteSpec(Sink([], Unlimited), v).n
    ensures Supported(v) ==> size == |Layout(v)|
  {
    var nw := new Writer(Unlimited);
    var err;
    size, err := Write(nw, v);
    if Supported(v) {
      WriteEmitsLayout(Sink([], Unlimited), v);
    }
  }

  // ---------------------------------------------------------------------
  // Properties

  /** A supported value is written as its layout: the writer ends up as one
      write of Layout(v) would leave it, with the same error, and on success
      the count is the layout's length. */
  lemma {:induction false} WriteEmitsLayout(s: Sink, v: Value)
    requires NonNegVarNumbers(v) && Supported(v)
    ensures var r := WriteSpec(s, v); var p := Push(s, Layout(v));
            r.sink == p.sink && r.err == p.err && (r.err.None? ==> r.n == |Layout(v)|)
    decreases v, 1
  {
    match v
    case Str(t) =>
      PushConcat(s, VarBytes(|t|), t);
    case Struct(fs) =>
      WriteFieldsEmitLayout(s, fs);
    case _ =>
  }

  lemma {:induction false} WriteFieldsEmitLayout(s: Sink, fs: seq<Value>)
    requires NonNegFields(fs) && SupportedFields(fs)
    ensures var r := WriteFields(s, fs); var p := Push(s, LayoutFields(fs));
            r.sink == p.sink && r.err == p.err && (r.err.None? ==> r.n == |LayoutFields(fs)|)
    decreases fs, 0
  {
    if fs != [] {
      WriteEmitsLayout(s, fs[0]);
      var h := WriteSpec(s, fs[0]);
      PushConcat(s, Layout(fs[0]), LayoutFields(fs[1..]));
      if h.err.None? {
        WriteFieldsEmitLayout(h.sink, fs[1..]);
      }
    }
  }

  /** On a writer that accepts everything (bytes.Buffer, NullWritter) a
      supported value appends exactly its layout and returns its length. */
  lemma WriteUnlimited(out: seq<byte>, v: Value)
    requires NonNegVarNumbers(v) && Supported(v)
    ensures WriteSpec(Sink(out, Unlimited), v)
            == Put(Sink(out + Layout(v), Unlimited), |Layout(v)|, None)
  {
    WriteEmitsLayout(Sink(out, Unlimited), v);
  }

  /** On a writer that accepts everything, a value with a uint16 anywhere
      in it fails with "not supported", and the writer still accepts
      everything. */
  lemma {:induction false} WriteUnsupported(out: seq<byte>, v: Value)
    requires NonNegVarNumbers(v) && !Supported(v)
    ensures var r := WriteSpec(Sink(out, Unlimited), v);
            r.err == Some(Unsupported) && r.sink.room == Unlimited
    decreases v, 1
  {
    if v.Struct? {
      WriteFieldsUnsupported(out, v.fields);
    }
  }

  lemma {:induction false} WriteFieldsUnsupported(out: seq<byte>, fs: seq<Value>)
    requires NonNegFields(fs) && !SupportedFields(fs)
    ensures var r := WriteFields(Sink(out, Unlimited), fs);
            r.err == Some(Unsupported) && r.sink.room == Unlimited
    decreases fs, 0
  {
    if Supported(fs[0]) {
      WriteUnlimited(out, fs[0]);
      WriteFieldsUnsupported(out + Layout(fs[0]), fs[1..]);
    } else {
      WriteUnsupported(out, fs[0]);
    }
  }

  /** Writing fields `a + b` is writing `a`, then, unless that failed,
      writing `b`, with the counts added. */
  lemma {:induction false} WriteFieldsAppend(s: Sink, a: seq<Value>, b: seq<Value>)
    requires NonNegFields(a) && NonNegFields(b)
    ensures NonNegFields(a + b)
    ensures var ra := WriteFields(s, a);
            WriteFields(s, a + b) ==
              if ra.err.Some? then ra
              else var rb := WriteFields(ra.sink, b); Put(rb.sink, ra.n + rb.n, rb.err)
    decreases a
  {
    if a != [] {
      assert (a + b)[0] == a[0] && (a + b)[1..] == a[1..] + b;
      WriteFieldsAppend(WriteSpec(s, a[0]).sink, a[1..], b);
    } else {
      assert a + b == b;
    }
  }

  /** Reading fields `a + b` is reading `a`, then, unless that failed,
      reading `b` where `a` stopped, with the counts added; a failure in `a`
      leaves the fields of `b` as they were. */
  lemma {:induction false} ReadFieldsAppend(data: seq<byte>, pos: nat, a: seq<Value>, b: seq<Value>)
    requires pos <= |data|
    decreases a
    ensures var ra := ReadFields(data, pos, a);
            ReadFields(data, pos, a + b) ==
              if ra.err.Some? then FieldsDecoded(ra.fields + b, ra.n, ra.pos, ra.err)
              else var rb := ReadFields(data, ra.pos, b);
                   FieldsDecoded(ra.fields + rb.fields, ra.n + rb.n, rb.pos, rb.err)
  {
    if a != [] {
      assert (a + b)[0] == a[0] && (a + b)[1..] == a[1..] + b;
      var h := ReadSpec(data, pos, a[0]);
      if h.err.None? {
        ReadFieldsAppend(data, h.pos, a[1..], b);
        var ra := ReadFields(data, h.pos, a[1..]);
        if ra.err.Some? {
          assert [h.v] + (ra.fields + b) == ([h.v] + ra.fields) + b;
        } else {
          var rb := ReadFields(data, ra.pos, b);
          assert [h.v] + (ra.fields + rb.fields) == ([h.v] + ra.fields) + rb.fields;
        }
      } else {
        assert [h.v] + (a[1..] + b) == ([h.v] + a[1..]) + b;
      }
    } else {
      assert a + b == b;
    }
  }

  /** Read fills the target with a value of the same type and in that
      type's range; its only errors are the reader's and the decoder's. */
  lemma {:induction false} ReadKeepsType(data: seq<byte>, pos: nat, v: Value)
    requires pos <= |data|
    ensures var r := ReadSpec(data, pos, v);
            SameShape(v, r.v) && (WellTyped(v) ==> WellTyped(r.v)) &&
            (r.err.Some? ==> r.err.value in {EOF, VarLenTooBig, NegativeLenPanic})
    decreases v, 1
  {
    match v
    case UInt16(_) =>
      var b := Available(data, pos, 2);
      Pow256(2);
    case Struct(fs) =>
      ReadFieldsKeepTypes(data, pos, fs);
    case _ =>
  }

  lemma {:induction false} ReadFieldsKeepTypes(data: seq<byte>, pos: nat, fs: seq<Value>)
    requires pos <= |data|
    ensures var r := ReadFields(data, pos, fs);
            SameShapeFields(fs, r.fields) &&
            (WellTypedFields(fs) ==> WellTypedFields(r.fields)) &&
            (r.err.Some? ==> r.err.value in {EOF, VarLenTooBig, NegativeLenPanic})
    decreases fs, 0
  {
    if fs != [] {
      ReadKeepsType(data, pos, fs[0]);
      var h := ReadSpec(data, pos, fs[0]);
      if h.err.Some? {
        SameShapeFieldsReflexive(fs[1..]);
        assert ([h.v] + fs[1..])[1..] == fs[1..];
      } else {
        ReadFieldsKeepTypes(data, h.pos, fs[1..]);
        var t := ReadFields(data, h.pos, fs[1..]);
        assert ([h.v] + t.fields)[1..] == t.fields;
      }
    }
  }

  /** Reading the layout of an encodable value into a target of the same
      type gives the value back and stops right after it. The count is the
      layout's length minus the string bodies, which Read does not count. */
  lemma {:induction false} ReadLayout(data: seq<byte>, pos: nat, v: Value, t: Value)
    requires Encodable(v) && SameShape(v, t)
    requires pos + |Layout(v)| <= |data| && data[pos..pos + |Layout(v)|] == Layout(v)
    ensures StringBytes(v) <= |Layout(v)|
    ensures ReadSpec(data, pos, t)
            == Decoded(v, |Layout(v)| - StringBytes(v), pos + |Layout(v)|, None)
    decreases v, 1
  {
    if v.Struct? {
      ReadFieldsLayout(data, pos, v.fields, t.fields);
    } else if v.Str? {
      ReadStringLayout(data, pos, v, t);
    } else {
      ReadNumberLayout(data, pos, v, t);
    }
  }

  /** A VarInt, VarLong, int64 or uint16 reads back from its layout. */
  lemma ReadNumberLayout(data: seq<byte>, pos: nat, v: Value, t: Value)
    requires !v.Struct? && !v.Str?
    requires Encodable(v) && SameShape(v, t)
    requires pos + |Layout(v)| <= |data| && data[pos..pos + |Layout(v)|] == Layout(v)
    ensures StringBytes(v) == 0
    ensures ReadSpec(data, pos, t) == Decoded(v, |Layout(v)|, pos + |Layout(v)|, None)
  {
    if v.VarInt? {
      VarIntRoundTripSigned(data, pos, v.i);
    } else if v.VarLong? {
      VarLongRoundTripSigned(data, pos, v.i);
    } else if v.Int64? {
      ReadInt64Layout(data, pos, v.i);
    } else {
      ReadUInt16Layout(data, pos, v.u);
    }
  }

  lemma ReadInt64Layout(data: seq<byte>, pos: nat, i: int)
    requires IsInt64(i)
    requires pos + 8 <= |data| && data[pos..pos + 8] == PutBigEndian(i % TWO_64, 8)
    ensures ReadInt64Spec(data, pos) == Decoded(Int64(i), 8, pos + 8, None)
  {
    var l := PutBigEndian(i % TWO_64, 8);
    AvailableFull(data, pos, 8);
    assert l + Zeros(0) == l;
    Int64RoundTrip(i);
  }

  lemma ReadUInt16Layout(data: seq<byte>, pos: nat, u: int)
    requires IsUInt16(u)
    requires pos + 2 <= |data| && data[pos..pos + 2] == PutBigEndian(u % TWO_16, 2)
    ensures ReadUInt16Spec(data, pos) == Decoded(UInt16(u), 2, pos + 2, None)
  {
    ModUnique(u, 0, TWO_16, u);
    var l := PutBigEndian(u, 2);
    AvailableFull(data, pos, 2);
    assert l + Zeros(0) == l;
    UInt16RoundTrip(u);
  }

  /** A string reads back from its layout; only its prefix is counted. */
  lemma ReadStringLayout(data: seq<byte>, pos: nat, v: Value, t: Value)
    requires v.Str? && t.Str? && |v.s| < TWO_31
    requires pos + |Layout(v)| <= |data| && data[pos..pos + |Layout(v)|] == Layout(v)
    ensures StringBytes(v) <= |Layout(v)|
    ensures ReadSpec(data, pos, t)
            == Decoded(v, |Layout(v)| - StringBytes(v), pos + |Layout(v)|, None)
  {
    var s := v.s;
    var p := VarBytes(|s|);
    SplitAt(data, pos, p, s);
    VarIntRoundTrip(data, pos, |s|);
    StringBodyLayout(data, pos + |p|, |p|, s, t);
  }

  lemma StringBodyLayout(data: seq<byte>, at: nat, k: nat, s: seq<byte>, t: Value)
    requires 1 <= k <= VarIntBytes && at + |s| <= |data| && data[at..at + |s|] == s
    ensures StringBody(data, VarRead(|s|, k, at, None), t) == Decoded(Str(s), k, at + |s|, None)
  {
    AvailableFull(data, at, |s|);
    assert s + Zeros(0) == s;
  }

  lemma {:induction false} ReadFieldsLayout(data: seq<byte>, pos: nat, fs: seq<Value>, ts: seq<Value>)
    requires EncodableFields(fs) && SameShapeFields(fs, ts)
    requires pos + |LayoutFields(fs)| <= |data|
    requires data[pos..pos + |LayoutFields(fs)|] == LayoutFields(fs)
    ensures StringBytesFields(fs) <= |LayoutFields(fs)|
    ensures ReadFields(data, pos, ts)
            == FieldsDecoded(fs, |LayoutFields(fs)| - StringBytesFields(fs), pos + |LayoutFields(fs)|, None)
    decreases fs, 0
  {
    if fs != [] {
      var l0 := Layout(fs[0]);
      var rest := LayoutFields(fs[1..]);
      assert LayoutFields(fs) == l0 + rest;
      var h := ReadSpec(data, pos, ts[0]);
      assert h == Decoded(fs[0], |l0| - StringBytes(fs[0]), pos + |l0|, None)
             && StringBytes(fs[0]) <= |l0| by {
        SplitAt(data, pos, l0, rest);
        ReadLayout(data, pos, fs[0], ts[0]);
      }
      var t := ReadFields(data, pos + |l0|, ts[1..]);
      assert t == FieldsDecoded(fs[1..], |rest| - StringBytesFields(fs[1..]), pos + |l0| + |rest|, None)
             && StringBytesFields(fs[1..]) <= |rest| by {
        SplitAt(data, pos, l0, rest);
        ReadFieldsLayout(data, pos + |l0|, fs[1..], ts[1..]);
      }
      assert [fs[0]] + fs[1..] == fs;
    }
  }
}
