/** The byte streams the codec runs over: an in-memory reader with the
    semantics of Go's bytes.Reader, and a writer that accepts a budget of
    bytes (unlimited for bytes.Buffer and NullWritter, finite for a peer
    that stops accepting data). */
module Streams {
  import opened Ints

  datatype Option<T> = None | Some(value: T)

  /** The errors the codec can produce or pass on. */
  datatype Error =
    | EOF               // io.EOF from the reader
    | VarLenTooBig      // ErrVariableLengthDigit
    | Unsupported       // "Data type %T not supported for writting"
    | WriteFailed       // the writer refused bytes (a closed connection)
    | NegativeLenPanic  // the runtime panic of make([]byte, n) for n < 0

  function Min(a: int, b: int): int { if a <= b then a else b }

  /** The bytes a `Read` of a `k`-byte buffer copies out of `data` at `pos`:
      min(k, remaining) bytes. */
  function Available(data: seq<byte>, pos: nat, k: nat): (r: seq<byte>)
    requires pos <= |data|
    ensures |r| == Min(k, |data| - pos)
    ensures r == data[pos..pos + |r|]
  {
    data[pos..pos + Min(k, |data| - pos)]
  }

  /** A read of `k` bytes that the data holds copies exactly those bytes. */
  lemma AvailableFull(data: seq<byte>, pos: nat, k: nat)
    requires pos + k <= |data|
    ensures Available(data, pos, k) == data[pos..pos + k]
  {
  }

  /** Where `data` holds `a + b` at `pos`, it holds `a` at `pos` and `b`
      right after it. */
  lemma SplitAt(data: seq<byte>, pos: nat, a: seq<byte>, b: seq<byte>)
    requires pos + |a| + |b| <= |data| && data[pos..pos + |a| + |b|] == a + b
    ensures data[pos..pos + |a|] == a
    ensures data[pos + |a|..pos + |a| + |b|] == b
  {
    assert data[pos..pos + |a|] == data[pos..pos + |a| + |b|][..|a|];
    assert data[pos + |a|..pos + |a| + |b|] == data[pos..pos + |a| + |b|][|a|..];
  }

  /** bytes.Reader: a byte sequence and a cursor. */
  class Reader {
    const data: seq<byte>
    var pos: nat

    ghost predicate Valid()
      reads this
    {
      pos <= |data|
    }

    constructor (data: seq<byte>)
      ensures Valid() && this.data == data && pos == 0
    {
      this.data := data;
      pos := 0;
    }

    /** `n, err := r.Read(buf)` with a fresh zeroed buffer of length `k`:
        returns the buffer after the call. At the end of the data the call
        reports io.EOF, also for an empty buffer. */
    method Read(k: nat) returns (buf: seq<byte>, n: nat, err: Option<Error>)
      requires Valid()
      modifies this
      ensures Valid()
      ensures n == Min(k, |data| - old(pos)) && pos == old(pos) + n
      ensures buf == Available(data, old(pos), k) + Zeros(k - n)
      ensures err == if old(pos) == |data| then Some(EOF) else None
    {
      if pos == |data| {
        return Zeros(k), 0, Some(EOF);
      }
      n := Min(k, |data| - pos);
      buf := data[pos..pos + n] + Zeros(k - n);
      pos := pos + n;
      err := None;
    }

    /** `io.CopyN(&buf, r, k)` into an empty bytes.Buffer, returning the
        buffer's bytes: at most `k` bytes, fewer when the data ends first,
        none when `k <= 0`. The shortfall error of io.CopyN is not returned:
        its caller drops it. */
    method CopyN(k: int) returns (copied: seq<byte>)
      requires Valid()
      modifies this
      ensures Valid()
      ensures pos == old(pos) + (if k <= 0 then 0 else Min(k, |data| - old(pos)))
      ensures copied == data[old(pos)..pos]
    {
      if k <= 0 {
        return [];
      }
      var n := Min(k, |data| - pos);
      copied := data[pos..pos + n];
      pos := pos + n;
    }
  }

  /** How many more bytes a writer accepts. */
  datatype Room = Unlimited | Left(n: nat)

  /** The observable state of a writer: what it holds and what it accepts. */
  datatype Sink = Sink(out: seq<byte>, room: Room)

  /** The outcome of one `w.Write(b)`: the writer's new state, the count
      returned, and the error returned. */
  datatype Put = Put(sink: Sink, n: nat, err: Option<Error>)

  predicate Fits(room: Room, k: nat)
  {
    room.Unlimited? || k <= room.n
  }

  /** One io.Writer call: a writer that accepts the bytes that fit, and
      reports an error (with the short count) when not all of them did. */
  function Push(s: Sink, b: seq<byte>): (r: Put)
    ensures r.n <= |b| && r.sink.out == s.out + b[..r.n]
    ensures r.err == None <==> r.n == |b|
    ensures r.err == None <==> Fits(s.room, |b|)
    ensures r.err != None ==> r.err == Some(WriteFailed) && r.sink.room == Left(0)
  {
    match s.room
    case Unlimited => Put(Sink(s.out + b, Unlimited), |b|, None)
    case Left(k) =>
      if |b| <= k then Put(Sink(s.out + b, Left(k - |b|)), |b|, None)
      else Put(Sink(s.out + b[..k], Left(0)), k, Some(WriteFailed))
  }

  /** Writing `a` then `b` in two calls is writing `a + b` in one, once the
      first call succeeded; when it failed, the writer holds exactly what a
      single call would have left. */
  lemma PushConcat(s: Sink, a: seq<byte>, b: seq<byte>)
    ensures var p := Push(s, a);
            Push(s, a + b) ==
              if p.err.Some? then p
              else var q := Push(p.sink, b); Put(q.sink, |a| + q.n, q.err)
  {
    var p := Push(s, a);
    if s.room.Left? {
      if |a| > s.room.n {
        assert (a + b)[..s.room.n] == a[..s.room.n];
      } else {
        var q := Push(p.sink, b);
        if q.err.Some? {
          assert (a + b)[..s.room.n] == a + b[..q.n];
        }
      }
    } else {
      assert s.out + (a + b) == (s.out + a) + b;
    }
  }

  /** io.Writer: an append-only byte sequence with a budget. */
  class Writer {
    var out: seq<byte>
    var room: Room

    function State(): Sink
      reads this
    {
      Sink(out, room)
    }

    constructor (room: Room)
      ensures State() == Sink([], room)
    {
      out := [];
      this.room := room;
    }

    method Write(b: seq<byte>) returns (n: nat, err: Option<Error>)
      modifies this
      ensures Push(old(State()), b) == Put(State(), n, err)
    {
      match room
      case Unlimited =>
        out := out + b;
        n, err := |b|, None;
      case Left(k) =>
        if |b| <= k {
          out, room := out + b, Left(k - |b|);
          n, err := |b|, None;
        } else {
          out, room := out + b[..k], Left(0);
          n, err := k, Some(WriteFailed);
        }
    }
  }
}
