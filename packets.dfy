/** The packet layer of protocol/packets.go: reading a raw frame (length,
    id, payload) off a reader, dispatching a raw packet on its id to a typed
    packet, and writing a packet to a writer. */
module Packets {
  import opened Ints
  import opened Streams
  import opened VarNumber
  import opened Marshal

  /** The id of a handshake packet; a ping is read, and a pong sent, with
      id 1. */
  const HandshakeId: int := 0x00
  const PingId: int := 1

  /** The values of a handshake's NextState. */
  const StateStatus: int := 1
  const StateLogin: int := 2

  /** A frame as read off the wire: its id and the payload after the id. */
  datatype RawPacket = RawPacket(id: int, data: seq<byte>)

  datatype HandshakePacket = HandshakePacket(protocolVersion: int, serverAddress: seq<byte>,
                                             serverPort: int, nextState: int)
  {
    /** The struct Read fills: VarInt, string, uint16, VarInt. */
    function ToValue(): Value
    {
      Struct([VarInt(protocolVersion), Str(serverAddress), UInt16(serverPort), VarInt(nextState)])
    }
  }

  datatype PingPacket = PingPacket(payload: int)
  {
    function ToValue(): Value
    {
      Struct([Int64(payload)])
    }
  }

  datatype PongPacket = PongPacket(payload: int)
  {
    /** The id a pong is sent with. */
    function GetId(): (id: int)
      ensures id == PingId
    {
      1
    }

    function ToValue(): Value
    {
      Struct([Int64(payload)])
    }
  }

  /** What new(HandshakePacket) and new(PingPacket) hold before Read. */
  const HandshakeZero: Value := HandshakePacket(0, [], 0, 0).ToValue()
  const PingZero: Value := PingPacket(0).ToValue()

  /** A value Read filled in from HandshakeZero has the handshake's shape. */
  lemma HandshakeShape(v: Value)
    requires SameShape(HandshakeZero, v)
    ensures v.Struct? && |v.fields| == 4
    ensures v.fields[0].VarInt? && v.fields[1].Str? && v.fields[2].UInt16? && v.fields[3].VarInt?
  {
    var zs, fs := HandshakeZero.fields, v.fields;
    assert SameShapeFields(zs[1..], fs[1..]);
    assert zs[1..][1..] == [UInt16(0), VarInt(0)];
    assert SameShapeFields(zs[1..][1..], fs[1..][1..]);
    assert zs[1..][1..][1..] == [VarInt(0)];
    assert SameShapeFields(zs[1..][1..][1..], fs[1..][1..][1..]);
  }

  /** A value Read filled in from PingZero has the ping's shape. */
  lemma PingShape(v: Value)
    requires SameShape(PingZero, v)
    ensures v.Struct? && |v.fields| == 1 && v.fields[0].Int64?
  {
  }

  function HandshakeOf(v: Value): (h: HandshakePacket)
    requires v.Struct? && |v.fields| == 4
    requires v.fields[0].VarInt? && v.fields[1].Str? && v.fields[2].UInt16? && v.fields[3].VarInt?
    ensures h.ToValue() == v
  {
    var fs := v.fields;
    assert fs == [fs[0], fs[1], fs[2], fs[3]];
    HandshakePacket(fs[0].i, fs[1].s, fs[2].u, fs[3].i)
  }

  function PingOf(v: Value): (p: PingPacket)
    requires v.Struct? && |v.fields| == 1 && v.fields[0].Int64?
    ensures p.ToValue() == v
  {
    assert v.fields == [v.fields[0]];
    PingPacket(v.fields[0].i)
  }

  // ---------------------------------------------------------------------
  // ParseRawPacket

  /** The outcome of ParseRawPacket: nil, a handshake, a ping, or the
      runtime panic of a negative string length. */
  datatype Parsed = NoPacket | Handshake(h: HandshakePacket) | Ping(p: PingPacket) | Panicked

  /** ParseRawPacket: id 0 reads a handshake from a non-empty payload, id 1
      reads a ping; a read error and any other id give nil. */
  function ParseSpec(rp: RawPacket): (r: Parsed)
    ensures r.Handshake? || r.Panicked? ==> rp.id == HandshakeId && rp.data != []
    ensures r.Ping? ==> rp.id == PingId
    ensures rp.id != HandshakeId && rp.id != PingId ==> r == NoPacket
  {
    if rp.id == HandshakeId then
      if |rp.data| == 0 then NoPacket
      else
        var d := ReadSpec(rp.data, 0, HandshakeZero);
        if d.err == Some(NegativeLenPanic) then Panicked
        else if d.err.Some? then NoPacket
        else
          ReadKeepsType(rp.data, 0, HandshakeZero);
          HandshakeShape(d.v);
          Handshake(HandshakeOf(d.v))
    else if rp.id == PingId then
      var d := ReadSpec(rp.data, 0, PingZero);
      if d.err.Some? then NoPacket
      else
        ReadKeepsType(rp.data, 0, PingZero);
        PingShape(d.v);
        Ping(PingOf(d.v))
    else NoPacket
  }

  method ParseRawPacket(rp: RawPacket) returns (r: Parsed)
    ensures r == ParseSpec(rp)
  {
    var br := new Reader(rp.data);
    if rp.id == HandshakeId {
      if |rp.data| == 0 {
        return NoPacket;
      }
      var hp, _, err := Read(br, HandshakeZero);
      if err == Some(NegativeLenPanic) {
        return Panicked;
      }
      if err.Some? {
        return NoPacket;
      }
      ReadKeepsType(rp.data, 0, HandshakeZero);
      HandshakeShape(hp);
      return Handshake(HandshakeOf(hp));
    } else if rp.id == PingId {
      var pp, _, err := Read(br, PingZero);
      if err.Some? {
        return NoPacket;
      }
      ReadKeepsType(rp.data, 0, PingZero);
      PingShape(pp);
      return Ping(PingOf(pp));
    }
    return NoPacket;
  }

  // ---------------------------------------------------------------------
  // ReadRawPacket

  /** The result of ReadRawPacket and where the reader stands after it. */
  datatype RawRead = RawRead(p: RawPacket, pos: nat, err: Option<Error>)

  /** ReadRawPacket on the reader `data` at `pos`: the length, then the id
      in `k` bytes, then `int32(length - k)` more bytes, or what is left.
      A failing length or id read returns the empty packet (id 0) and the
      reader's error. */
  function ReadRawSpec(data: seq<byte>, pos: nat): (r: RawRead)
    requires pos <= |data|
    ensures pos <= r.pos <= |data|
    ensures r.err.Some? ==> r.p == RawPacket(0, [])
    ensures r.err.None? ==>
              IsInt32(r.p.id) && |r.p.data| <= r.pos - pos && r.p.data == data[r.pos - |r.p.data|..r.pos]
  {
    var l := ReadVarIntSpec(data, pos);
    if l.err.Some? then RawRead(RawPacket(0, []), l.pos, l.err)
    else
      var x := ReadVarIntSpec(data, l.pos);
      if x.err.Some? then RawRead(RawPacket(0, []), x.pos, x.err)
      else
        var rest := ToInt32(l.i - x.n);
        var m := if rest <= 0 then 0 else Min(rest, |data| - x.pos);
        RawRead(RawPacket(x.i, data[x.pos..x.pos + m]), x.pos + m, None)
  }

  method ReadRawPacket(r: Reader) returns (p: RawPacket, err: Option<Error>)
    requires r.Valid()
    modifies r
    ensures r.Valid()
    ensures RawRead(p, r.pos, err) == ReadRawSpec(r.data, old(r.pos))
  {
    p := RawPacket(0, []);
    var length, _, e := ReadVarInt(r);
    if e.Some? {
      return p, e;
    }
    var packetId, k, e2 := ReadVarInt(r);
    if e2.Some? {
      return p, e2;
    }
    p := p.(id := packetId);
    var rest := ToInt32(length - k);
    var w := r.CopyN(rest);
    p := p.(data := w);
    err := None;
  }

  // ---------------------------------------------------------------------
  // WritePacket

  /** The writer's state and the error WritePacket returns. */
  datatype Sent = Sent(sink: Sink, err: Option<Error>)

  /** WritePacket of a packet with id `id` and fields `body`: the fields go
      to the writer first, then VarInt(length of the encoded id), then the
      encoded id from the scratch buffer. Only the last write's error is
      returned, so a field's error (a uint16 in it, say) is dropped. */
  function WritePacketSpec(s: Sink, id: int, body: Value): (r: Sent)
    requires 0 <= ToInt32(id) && NonNegVarNumbers(body)
    ensures s.out <= r.sink.out
    ensures r.err.Some? ==> r.err == Some(WriteFailed)
  {
    var idBytes := VarBytes(ToInt32(id));
    var fields := WriteSpec(s, body);
    var len := WriteSpec(fields.sink, VarInt(|idBytes|));
    var copy := Push(len.sink, idBytes);
    Sent(copy.sink, copy.err)
  }

  /** `io.Copy(w, &b)` from a scratch bytes.Buffer: one write of its bytes
      unless it is empty. */
  method CopyBuffer(w: Writer, b: seq<byte>) returns (err: Option<Error>)
    modifies w
    ensures Sent(w.State(), err) == var p := Push(old(w.State()), b); Sent(p.sink, p.err)
  {
    if |b| > 0 {
      var _, e := w.Write(b);
      return e;
    }
    return None;
  }

  method WritePacket(w: Writer, id: int, body: Value) returns (err: Option<Error>)
    requires 0 <= ToInt32(id) && NonNegVarNumbers(body)
    modifies w
    ensures Sent(w.State(), err) == WritePacketSpec(old(w.State()), id, body)
  {
    ghost var s0 := w.State();
    var b := new Writer(Unlimited);
    var _, e0 := Write(b, VarInt(ToInt32(id)));
    assert b.out == VarBytes(ToInt32(id)) by {
      WriteUnlimited([], VarInt(ToInt32(id)));
    }
    var _, e1 := Write(w, body);
    ghost var s1 := w.State();
    assert s1 == WriteSpec(s0, body).sink;
    var _, e2 := Write(w, VarInt(|b.out|));
    assert w.State() == WriteSpec(s1, VarInt(|b.out|)).sink;
    err := CopyBuffer(w, b.out);
  }

  /** WriteFrame: the frame the read side expects, as the hand-written
      replies of the server lay it out: VarInt(length of id and fields),
      then the id, then the fields, the last two encoded in a scratch buffer
      first. Only the final copy's error is returned, as in WritePacket. */
  function WriteFrameSpec(s: Sink, id: int, body: Value): (r: Sent)
    requires 0 <= ToInt32(id) && NonNegVarNumbers(body) && Supported(body)
    ensures s.out <= r.sink.out
    ensures r.err.Some? ==> r.err == Some(WriteFailed)
    ensures var x := VarBytes(ToInt32(id)) + Layout(body);
            r.err.None? <==> Fits(s.room, |VarBytes(|x|)| + |x|)
  {
    var scratch := VarBytes(ToInt32(id)) + Layout(body);
    var len := WriteSpec(s, VarInt(|scratch|));
    var copy := Push(len.sink, scratch);
    Sent(copy.sink, copy.err)
  }

  method WriteFrame(w: Writer, id: int, body: Value) returns (err: Option<Error>)
    requires 0 <= ToInt32(id) && NonNegVarNumbers(body) && Supported(body)
    modifies w
    ensures Sent(w.State(), err) == WriteFrameSpec(old(w.State()), id, body)
  {
    var x := VarBytes(ToInt32(id));
    var b := new Writer(Unlimited);
    var _, e0 := Write(b, VarInt(ToInt32(id)));
    assert b.State() == Sink(x, Unlimited) by {
      WriteUnlimited([], VarInt(ToInt32(id)));
      assert [] + x == x;
    }
    var _, e1 := Write(b, body);
    assert b.out == x + Layout(body) by {
      WriteUnlimited(x, body);
    }
    var _, e2 := Write(w, VarInt(|b.out|));
    err := CopyBuffer(w, b.out);
  }

  // ---------------------------------------------------------------------
  // Reading handshakes and pings

  /** A handshake whose fields lie in their Go types' ranges (negative
      VarInts included) is a value
      Read can fill from HandshakeZero, and its layout is not empty. */
  lemma HandshakeFacts(h: HandshakePacket)
    requires IsInt32(h.protocolVersion) && |h.serverAddress| < TWO_31
    requires IsUInt16(h.serverPort) && IsInt32(h.nextState)
    ensures Encodable(h.ToValue())
    ensures SameShape(h.ToValue(), HandshakeZero) && |Layout(h.ToValue())| >= 1
  {
    var fs, zs := h.ToValue().fields, HandshakeZero.fields;
    var f3, z3 := [VarInt(h.nextState)], [VarInt(0)];
    FieldsCons(VarInt(h.nextState), [], VarInt(0), []);
    var f2, z2 := [UInt16(h.serverPort)] + f3, [UInt16(0)] + z3;
    FieldsCons(UInt16(h.serverPort), f3, UInt16(0), z3);
    var f1, z1 := [Str(h.serverAddress)] + f2, [Str([])] + z2;
    FieldsCons(Str(h.serverAddress), f2, Str([]), z2);
    assert fs == [VarInt(h.protocolVersion)] + f1 && zs == [VarInt(0)] + z1;
    FieldsCons(VarInt(h.protocolVersion), f1, VarInt(0), z1);
    assert LayoutFields(fs) == Layout(VarInt(h.protocolVersion)) + LayoutFields(fs[1..]);
  }

  /** The field predicates of a struct unfold one field at a time. */
  lemma FieldsCons(f: Value, fs: seq<Value>, g: Value, gs: seq<Value>)
    ensures EncodableFields([f] + fs) == (Encodable(f) && EncodableFields(fs))
    ensures SameShapeFields([f] + fs, [g] + gs) == (SameShape(f, g) && SameShapeFields(fs, gs))
  {
    assert ([f] + fs)[1..] == fs && ([g] + gs)[1..] == gs;
  }

  /** A handshake's bytes, whatever follows them in the payload, parse back
      to the same handshake, for every int32 protocol version and next state
      (a negative one sent as its five-byte two's-complement pattern, such
      as the -1 of a client probing for the server's version). */
  lemma HandshakeRoundTrip(h: HandshakePacket, rest: seq<byte>)
    requires IsInt32(h.protocolVersion) && |h.serverAddress| < TWO_31
    requires IsUInt16(h.serverPort) && IsInt32(h.nextState)
    ensures ParseSpec(RawPacket(HandshakeId, Layout(h.ToValue()) + rest)) == Handshake(h)
  {
    var v := h.ToValue();
    HandshakeFacts(h);
    var data := Layout(v) + rest;
    assert data[0..|Layout(v)|] == Layout(v);
    ReadLayout(data, 0, v, HandshakeZero);
  }

  /** A payload that stops after the port misses NextState: the read ends
      with io.EOF and the raw packet parses to nil. */
  lemma HandshakeTruncated(h: HandshakePacket)
    requires IsInt32(h.protocolVersion) && |h.serverAddress| < TWO_31
    requires IsUInt16(h.serverPort) && IsInt32(h.nextState)
    ensures ParseSpec(RawPacket(HandshakeId, LayoutFields(h.ToValue().fields[..3]))) == NoPacket
  {
    var fs, zs := h.ToValue().fields, HandshakeZero.fields;
    var a, b := [VarInt(0), Str([]), UInt16(0)], [VarInt(0)];
    assert zs == a + b;
    var t2, a2 := [Str(h.serverAddress), UInt16(h.serverPort)], [Str([]), UInt16(0)];
    FieldsCons(UInt16(h.serverPort), [], UInt16(0), []);
    FieldsCons(Str(h.serverAddress), [UInt16(h.serverPort)], Str([]), [UInt16(0)]);
    assert t2 == [Str(h.serverAddress)] + [UInt16(h.serverPort)] && a2 == [Str([])] + [UInt16(0)];
    var three := [VarInt(h.protocolVersion)] + t2;
    assert fs[..3] == three && a == [VarInt(0)] + a2;
    FieldsCons(VarInt(h.protocolVersion), t2, VarInt(0), a2);
    var data := LayoutFields(three);
    var ra := ReadFields(data, 0, a);
    assert ra.err == None && ra.pos == |data| by {
      assert data[0..|data|] == data;
      ReadFieldsLayout(data, 0, three, a);
    }
    VarIntAtEnd(data);
    assert ReadFields(data, 0, zs).err == Some(EOF) by {
      ReadAppendFails(data, a, b);
    }
    HandshakeReadFails(RawPacket(HandshakeId, data));
  }

  /** A handshake payload whose fields fail to read, other than by the
      panic, parses to nil. */
  lemma HandshakeReadFails(rp: RawPacket)
    requires rp.id == HandshakeId
    requires ReadFields(rp.data, 0, HandshakeZero.fields).err.Some?
    requires ReadFields(rp.data, 0, HandshakeZero.fields).err != Some(NegativeLenPanic)
    ensures ParseSpec(rp) == NoPacket
  {
  }

  /** Fields `a` that read without error followed by fields `b` that fail
      fail as `b` does. */
  lemma ReadAppendFails(data: seq<byte>, a: seq<Value>, b: seq<Value>)
    requires ReadFields(data, 0, a).err == None
    ensures ReadFields(data, 0, a + b).err == ReadFields(data, ReadFields(data, 0, a).pos, b).err
  {
    ReadFieldsAppend(data, 0, a, b);
  }

  /** A VarInt field read where the data ends fails with io.EOF. */
  lemma VarIntAtEnd(data: seq<byte>)
    ensures ReadFields(data, |data|, [VarInt(0)]).err == Some(EOF)
  {
    ExhaustedFails(data, |data|, VarIntBytes);
    assert [VarInt(0)][1..] == [];
  }

  /** Any payload of a packet with id 1 parses to a ping: the int64 is read
      from the first eight bytes, the missing ones being zero. */
  lemma PingAlwaysParses(rp: RawPacket)
    requires rp.id == PingId
    ensures var b := Available(rp.data, 0, 8);
            ParseSpec(rp) == Ping(PingPacket(ToInt64(BigEndian(b + Zeros(8 - |b|)))))
  {
    assert PingZero.fields[1..] == [];
  }

  /** A ping's eight bytes, whatever follows them, parse back to the same
      ping. */
  lemma PingRoundTrip(p: int, rest: seq<byte>)
    requires IsInt64(p)
    ensures ParseSpec(RawPacket(PingId, PutBigEndian(p % TWO_64, 8) + rest)) == Ping(PingPacket(p))
  {
    var data := PutBigEndian(p % TWO_64, 8) + rest;
    assert data[0..8] == PutBigEndian(p % TWO_64, 8);
    ReadInt64Layout(data, 0, p);
    assert PingZero.fields[1..] == [];
  }

  // ---------------------------------------------------------------------
  // Reading raw frames

  /** The length and the id of a frame header read back from their bytes,
      whatever follows them, for every pair of int32 values. */
  lemma ReadTwoVarInts(length: int, id: int, tail: seq<byte>)
    requires IsInt32(length) && IsInt32(id)
    ensures |VarIntWire(id)| <= VarIntBytes
    ensures var l, x := VarIntWire(length), VarIntWire(id);
            var data := l + x + tail;
            ReadVarIntSpec(data, 0) == VarRead(length, |l|, |l|, None) &&
            ReadVarIntSpec(data, |l|) == VarRead(id, |x|, |l| + |x|, None)
  {
    var l, x := VarIntWire(length), VarIntWire(id);
    var data := l + x + tail;
    assert data[0..|l|] == l && data[|l|..|l| + |x|] == x by {
      assert data[..|l| + |x|] == l + x;
      SplitAt(data, 0, l, x);
    }
    assert ReadVarIntSpec(data, 0) == VarRead(length, |l|, |l|, None) by {
      VarIntRoundTripSigned(data, 0, length);
    }
    VarIntRoundTripSigned(data, |l|, id);
  }

  /** Once the length and the id are read (the id in `k` bytes), the
      payload is the next `m` bytes, `m` being what io.CopyN copies for
      the int32 difference `length - k`. */
  lemma ReadRawHeader(data: seq<byte>, length: int, kl: nat, id: int, k: nat, m: nat)
    requires kl + k <= |data|
    requires ReadVarIntSpec(data, 0) == VarRead(length, kl, kl, None)
    requires ReadVarIntSpec(data, kl) == VarRead(id, k, kl + k, None)
    requires m == var rest := ToInt32(length - k); if rest <= 0 then 0 else Min(rest, |data| - kl - k)
    ensures ReadRawSpec(data, 0) == RawRead(RawPacket(id, data[kl + k..kl + k + m]), kl + k + m, None)
  {
  }

  /** A header of two VarInts followed by `tail`, for every int32 length
      and id: the payload is the first `int32(length - k)` bytes of the tail
      (k being the size of the id), or all of it when it is shorter, or none
      when that difference is not positive. A length within k of -2^31
      wraps to a large positive difference and takes the whole tail. */
  lemma ReadFrame(length: int, id: int, tail: seq<byte>, m: nat)
    requires IsInt32(length) && IsInt32(id)
    requires m == var rest := ToInt32(length - |VarIntWire(id)|); if rest <= 0 then 0 else Min(rest, |tail|)
    ensures m <= |tail|
    ensures var l, x := VarIntWire(length), VarIntWire(id);
            ReadRawSpec(l + x + tail, 0) == RawRead(RawPacket(id, tail[..m]), |l| + |x| + m, None)
  {
    var l, x := VarIntWire(length), VarIntWire(id);
    var data := l + x + tail;
    var at := |l| + |x|;
    ReadTwoVarInts(length, id, tail);
    assert |data| - |l| - |x| == |tail|;
    ReadRawHeader(data, length, |l|, id, |x|, m);
    assert data[at..at + m] == tail[..m] by {
      SliceOfConcat(l + x, tail, m);
    }
  }

  /** The frame of the wrap-around: length -2^31 (bytes 80 80 80 80 08), id
      1, then two bytes. `int32(-2^31 - 1)` is 2^31 - 1, so the reader takes
      both bytes as the payload. */
  lemma ReadFrameWraps()
    ensures ReadRawSpec([0x80, 0x80, 0x80, 0x80, 0x08, 0x01, 0xAA, 0xBB], 0)
            == RawRead(RawPacket(1, [0xAA, 0xBB]), 8, None)
  {
    var tail: seq<byte> := [0xAA, 0xBB];
    assert VarIntWire(-TWO_31) == [0x80, 0x80, 0x80, 0x80, 0x08];
    assert VarIntWire(1) == [0x01];
    assert ToInt32(-TWO_31 - 1) == TWO_31 - 1;
    ReadFrame(-TWO_31, 1, tail, 2);
    assert [0x80, 0x80, 0x80, 0x80, 0x08] + [0x01] + tail
           == [0x80, 0x80, 0x80, 0x80, 0x08, 0x01, 0xAA, 0xBB];
  }

  /** The `m` bytes after a prefix are the first `m` bytes of what follows
      it. */
  lemma SliceOfConcat(a: seq<byte>, b: seq<byte>, m: nat)
    requires m <= |b|
    ensures (a + b)[|a|..|a| + m] == b[..m]
  {
  }

  /** A frame whose length counts the id and the payload reads back as that
      id and payload, and stops where the frame ends. */
  lemma ReadRawRoundTrip(id: nat, payload: seq<byte>, rest: seq<byte>)
    requires id < TWO_31 && |VarBytes(id)| + |payload| < TWO_31
    ensures var frame := VarBytes(|VarBytes(id)| + |payload|) + VarBytes(id) + payload;
            ReadRawSpec(frame + rest, 0) == RawRead(RawPacket(id, payload), |frame|, None)
  {
    var l, x := VarBytes(|VarBytes(id)| + |payload|), VarBytes(id);
    var frame := l + x + payload;
    var tail := payload + rest;
    assert ReadRawSpec(l + x + tail, 0) == RawRead(RawPacket(id, payload), |l| + |x| + |payload|, None) by {
      assert tail[..|payload|] == payload;
      assert VarIntWire(|x| + |payload|) == l && VarIntWire(id) == x;
      ReadFrame(|x| + |payload|, id, tail, |payload|);
    }
    assert frame + rest == l + x + tail;
  }

  /** A frame whose length promises more than the data holds reads as the
      bytes that are there, with no error. */
  lemma ReadRawShort(length: nat, id: nat, payload: seq<byte>)
    requires id < TWO_31 && length < TWO_31 && |VarBytes(id)| + |payload| <= length
    ensures var data := VarBytes(length) + VarBytes(id) + payload;
            ReadRawSpec(data, 0) == RawRead(RawPacket(id, payload), |data|, None)
  {
    assert payload[..|payload|] == payload;
    assert VarIntWire(length) == VarBytes(length) && VarIntWire(id) == VarBytes(id);
    ReadFrame(length, id, payload, |payload|);
  }

  /** A reader that ends before the length, or right after it, gives the
      empty packet and io.EOF. */
  lemma ReadRawEOF(data: seq<byte>, length: nat)
    requires length < TWO_31
    ensures ReadRawSpec(data, |data|) == RawRead(RawPacket(0, []), |data|, Some(EOF))
    ensures ReadRawSpec(VarBytes(length), 0) == RawRead(RawPacket(0, []), |VarBytes(length)|, Some(EOF))
  {
    ExhaustedFails(data, |data|, VarIntBytes);
    var l := VarBytes(length);
    assert l[0..|l|] == l;
    VarIntRoundTrip(l, 0, length);
    ExhaustedFails(l, |l|, VarIntBytes);
  }

  // ---------------------------------------------------------------------
  // Writing packets

  /** On a writer that takes everything, WritePacket emits the fields, then
      the size of the encoded id, then the encoded id, and returns no
      error. */
  lemma WritePacketBytes(out: seq<byte>, id: int, body: Value)
    requires 0 <= ToInt32(id) && NonNegVarNumbers(body) && Supported(body)
    ensures var x := VarBytes(ToInt32(id));
            WritePacketSpec(Sink(out, Unlimited), id, body)
            == Sent(Sink(out + Layout(body) + VarBytes(|x|) + x, Unlimited), None)
  {
    WriteUnlimited(out, body);
  }

  /** WritePacket succeeds exactly when the writer takes all of its bytes:
      a failure part way leaves no room for the last write either. */
  lemma WritePacketFits(out: seq<byte>, k: nat, id: int, body: Value)
    requires 0 <= ToInt32(id) && NonNegVarNumbers(body) && Supported(body)
    ensures var x := VarBytes(ToInt32(id));
            WritePacketSpec(Sink(out, Left(k)), id, body).err == None
            <==> |Layout(body)| + |VarBytes(|x|)| + |x| <= k
  {
    var x := VarBytes(ToInt32(id));
    WriteEmitsLayout(Sink(out, Left(k)), body);
  }

  /** A packet with a uint16 field cannot be written (Write reports the
      type as unsupported), yet WritePacket only logs that error and
      returns none. */
  lemma WritePacketDropsFieldError(out: seq<byte>, id: int, body: Value)
    requires 0 <= ToInt32(id) && NonNegVarNumbers(body) && !Supported(body)
    ensures WriteSpec(Sink(out, Unlimited), body).err == Some(Unsupported)
    ensures WritePacketSpec(Sink(out, Unlimited), id, body).err == None
  {
    WriteUnsupported(out, body);
  }

  /** A pong's fields are its eight big-endian payload bytes. */
  lemma PongLayout(p: int)
    ensures NonNegVarNumbers(PongPacket(p).ToValue()) && Supported(PongPacket(p).ToValue())
    ensures Layout(PongPacket(p).ToValue()) == PutBigEndian(p % TWO_64, 8)
  {
    var fs := [Int64(p)];
    assert fs[1..] == [];
    assert LayoutFields(fs) == Layout(Int64(p)) + LayoutFields([]);
    assert PutBigEndian(p % TWO_64, 8) + [] == PutBigEndian(p % TWO_64, 8);
  }

  /** The bytes WritePacket sends for a pong: the big-endian payload, then
      1 (the size of the id), then the id 1. */
  lemma PongBytes(p: int)
    requires IsInt64(p)
    ensures var pong := PongPacket(p);
            WritePacketSpec(Sink([], Unlimited), pong.GetId(), pong.ToValue()).sink.out
            == PutBigEndian(p % TWO_64, 8) + [1, 1]
  {
    var pong := PongPacket(p);
    PongLayout(p);
    WritePacketBytes([], 1, pong.ToValue());
  }

  /** What WritePacket sends for PongPacket{42} is not a frame the read side
      accepts: the first payload byte is taken as a length of 0, the next
      as id 0, and the packet parses to nil. */
  lemma WritePacketPongUnreadable()
    ensures var pong := PongPacket(42);
            var out := WritePacketSpec(Sink([], Unlimited), pong.GetId(), pong.ToValue()).sink.out;
            out == [0, 0, 0, 0, 0, 0, 0, 42, 1, 1] &&
            ReadRawSpec(out, 0) == RawRead(RawPacket(0, []), 2, None) &&
            ParseSpec(ReadRawSpec(out, 0).p) == NoPacket
  {
    PongBytes(42);
    var out: seq<byte> := [0, 0, 0, 0, 0, 0, 0, 42, 1, 1];
    assert PutBigEndian(42, 8) == [0, 0, 0, 0, 0, 0, 0, 42];
    assert out == VarIntWire(0) + VarIntWire(0) + out[2..];
    ReadFrame(0, 0, out[2..], 0);
  }

  /** The corrected writer's frame reads back as the id and the fields'
      bytes, whatever follows it. */
  lemma WriteFrameRoundTrip(id: nat, body: Value, rest: seq<byte>)
    requires id < TWO_31 && NonNegVarNumbers(body) && Supported(body)
    requires |VarBytes(id)| + |Layout(body)| < TWO_31
    ensures var out := WriteFrameSpec(Sink([], Unlimited), id, body).sink.out;
            ReadRawSpec(out + rest, 0) == RawRead(RawPacket(id, Layout(body)), |out|, None)
  {
    WriteFrameBytes(id, body);
    ReadRawRoundTrip(id, Layout(body), rest);
  }

  /** On an empty writer that takes everything, the corrected writer emits
      the length of the id and the fields, then the id, then the fields. */
  lemma WriteFrameBytes(id: nat, body: Value)
    requires id < TWO_31 && NonNegVarNumbers(body) && Supported(body)
    ensures var x, l := VarBytes(id), Layout(body);
            WriteFrameSpec(Sink([], Unlimited), id, body)
            == Sent(Sink(VarBytes(|x| + |l|) + x + l, Unlimited), None)
  {
    var x, l := VarBytes(id), Layout(body);
    var len := VarBytes(|x| + |l|);
    assert WriteSpec(Sink([], Unlimited), VarInt(|x + l|)) == Put(Sink(len, Unlimited), |len|, None) by {
      assert [] + len == len;
    }
    assert Push(Sink(len, Unlimited), x + l) == Put(Sink(len + x + l, Unlimited), |x + l|, None) by {
      assert len + (x + l) == len + x + l;
    }
  }

  /** With the corrected writer a pong reaches the reader as the ping it
      answers. */
  lemma WriteFramePong(p: int, rest: seq<byte>)
    requires IsInt64(p)
    ensures var pong := PongPacket(p);
            var out := WriteFrameSpec(Sink([], Unlimited), pong.GetId(), pong.ToValue()).sink.out;
            ParseSpec(ReadRawSpec(out + rest, 0).p) == Ping(PingPacket(p))
  {
    var pong := PongPacket(p);
    PongLayout(p);
    WriteFrameRoundTrip(1, pong.ToValue(), rest);
    PingRoundTrip(p, []);
    assert PutBigEndian(p % TWO_64, 8) + [] == PutBigEndian(p % TWO_64, 8);
  }
}
