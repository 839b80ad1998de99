/** The chunked writer: it drives a content provider and puts each of its writes on the stream as a chunk. */
module ChunkedWriter {
  import opened Bytes
  import opened Chunked

  /** What one call of a content provider does: its new state, what it did with the sink, and its answer. */
  datatype Reply<S> = Reply(state: S, ops: seq<SinkOp>, ok: bool)
  type Provider<!S> = (S, nat) -> Reply<S>

  datatype Outcome = Completed | Canceled | Interrupted

  /** A run of the provider: everything done with the sink, and why the run ended. */
  datatype Driven = Driven(ops: seq<SinkOp>, outcome: Outcome)

  /** `data_available` after some operations. */
  function Available(available: bool, ops: seq<SinkOp>): bool
    decreases |ops|
  {
    if ops == [] then available else Available(ops[0].Write? && ops[0].data != "", ops[1..])
  }

  /** The writer's loop; `rounds` is the number of rounds before the caller starts shutting down. */
  function Drive<S>(f: Provider<S>, s: S, offset: nat, rounds: nat): Driven
    decreases rounds
  {
    if rounds == 0 then Driven([], Interrupted) else
      var r := f(s, offset);
      if !r.ok then Driven(r.ops, Canceled)
      else if !Available(true, r.ops) then Driven(r.ops, Completed)
      else
        var d := Drive(f, r.state, offset + |Written(r.ops)|, rounds - 1);
        d.(ops := r.ops + d.ops)
  }

  /** A stream to write to: takes any non-empty part of what it is given; fails only if faulty. */
  class OutStream {
    var written: string
    const faulty: bool

    constructor (faulty: bool)
      ensures written == "" && this.faulty == faulty
    {
      written := "";
      this.faulty := faulty;
    }

    method IsWritable() returns (r: bool)
      ensures r || faulty
    {
      var late: bool := *;
      r := !(faulty && late);
    }

    method Write(d: string) returns (n: int)
      modifies this
      ensures n < 0 ==> faulty && written == old(written)
      ensures n >= 0 ==> n <= |d| && written == old(written) + d[..n] && (d != "" ==> n > 0)
    {
      var fails: bool := *;
      if faulty && fails {
        return -1;
      }
      var k: nat :| k <= |d| && (d != "" ==> k > 0);
      written := written + d[..k];
      n := k;
    }
  }

  /** Writes all of `d`, however little the stream takes at a time. */
  method WriteData(strm: OutStream, d: string) returns (ok: bool)
    modifies strm
    ensures ok ==> strm.written == old(strm.written) + d
    ensures !ok ==> strm.faulty
  {
    var offset := 0;
    assert strm.written + d[..0] == strm.written;
    while offset < |d|
      invariant offset <= |d| && strm.written == old(strm.written) + d[..offset]
    {
      var n := strm.Write(d[offset..]);
      if n < 0 {
        return false;
      }
      assert d[..offset] + d[offset..][..n] == d[..offset + n];
      Assoc(old(strm.written), d[..offset], d[offset..][..n]);
      offset := offset + n;
    }
    assert d[..|d|] == d;
    return true;
  }

  /** The sink handed to the provider, with the writer's variables it captures. */
  class ChunkSink {
    const strm: OutStream
    var offset: nat
    var available: bool
    var ok: bool

    constructor (strm: OutStream)
      ensures this.strm == strm && offset == 0 && available && ok
    {
      this.strm := strm;
      offset, available, ok := 0, true, true;
    }

    method Write(d: string)
      modifies this, strm
      ensures ok ==> old(ok)
      ensures ok ==> offset == old(offset) + |d| && available == (d != "")
      ensures ok ==> strm.written == old(strm.written) + OpBytes(SinkOp.Write(d))
      ensures old(ok) && !ok ==> strm.faulty
    {
      if !ok {
        return;
      }
      available := |d| > 0;
      offset := offset + |d|;
      assert strm.written + "" == strm.written;
      if d != "" {
        var size := FromIToHex(|d|);
        var writable := strm.IsWritable();
        var done := false;
        if writable {
          done := WriteData(strm, size + CRLF + d + CRLF);
        }
        ok := done;
      }
    }

    method End(fields: Fields, op: SinkOp)
      requires op == if op.Done? then Done else DoneWithTrailer(fields)
      requires !op.Write? && (op.Done? ==> fields == [])
      modifies this, strm
      ensures ok ==> old(ok)
      ensures ok ==> offset == old(offset) && !available
      ensures ok ==> strm.written == old(strm.written) + OpBytes(op)
      ensures old(ok) && !ok ==> strm.faulty
    {
      if !ok {
        return;
      }
      available := false;
      ghost var start := strm.written;
      var done := WriteData(strm, "0" + CRLF);
      if !done {
        ok := false;
      }
      for i := 0 to |fields|
        invariant offset == old(offset) && !available && (!ok ==> strm.faulty)
        invariant ok ==> strm.written + FieldLines(fields[i..]) == start + ("0" + CRLF) + FieldLines(fields)
      {
        LinesStep(fields, i, strm.written);
        done := WriteData(strm, fields[i].0 + ": " + fields[i].1 + CRLF);
        if !done {
          ok := false;
        }
      }
      LinesEnd(fields, strm.written);
      done := WriteData(strm, CRLF);
      if !done {
        ok := false;
      }
      EndBytes(start, op, fields);
    }

    method Perform(op: SinkOp)
      modifies this, strm
      ensures ok ==> old(ok)
      ensures ok ==> offset == old(offset) + |Written([op])| && available == Available(old(available), [op])
      ensures ok ==> strm.written == old(strm.written) + OpBytes(op)
      ensures old(ok) && !ok ==> strm.faulty
    {
      assert [op][1..] == [];
      match op
      case Write(d) =>
        assert Written([op]) == d + Written([]) == d;
        Write(d);
      case Done => End([], Done);
      case DoneWithTrailer(fields) => End(fields, op);
    }
  }

  lemma LinesStep(fields: Fields, i: nat, w: string)
    requires i < |fields|
    ensures w + FieldLines(fields[i..]) == (w + (fields[i].0 + ": " + fields[i].1 + CRLF)) + FieldLines(fields[i + 1..])
  {
    assert fields[i..][0] == fields[i] && fields[i..][1..] == fields[i + 1..];
    Assoc(w, fields[i].0 + ": " + fields[i].1 + CRLF, FieldLines(fields[i + 1..]));
  }

  lemma LinesEnd(fields: Fields, w: string)
    ensures w + FieldLines(fields[|fields|..]) == w && fields[0..] == fields
  {
    assert fields[|fields|..] == [];
  }

  lemma EndBytes(w: string, op: SinkOp, fields: Fields)
    requires !op.Write? && op == if op.Done? then Done else DoneWithTrailer(fields)
    requires op.Done? ==> fields == []
    ensures w + ("0" + CRLF) + FieldLines(fields) + CRLF == w + OpBytes(op)
  {
    var a, b := "0" + CRLF, FieldLines(fields);
    Assoc(w, a, b);
    Assoc(w, a + b, CRLF);
    if op.Done? {
      assert a + "" == a;
    }
  }

  lemma WireAppend(xs: seq<SinkOp>, ys: seq<SinkOp>)
    ensures Wire(xs + ys) == Wire(xs) + Wire(ys)
    ensures Written(xs + ys) == Written(xs) + Written(ys)
  {
    hide OpBytes;
    if xs == [] {
      assert xs + ys == ys && "" + Wire(ys) == Wire(ys) && "" + Written(ys) == Written(ys);
    } else {
      assert (xs + ys)[1..] == xs[1..] + ys;
      WireAppend(xs[1..], ys);
      Assoc(OpBytes(xs[0]), Wire(xs[1..]), Wire(ys));
      Assoc(if xs[0].Write? then xs[0].data else "", Written(xs[1..]), Written(ys));
    }
  }

  lemma AvailableAppend(available: bool, xs: seq<SinkOp>, op: SinkOp)
    ensures Available(available, xs + [op]) == (op.Write? && op.data != "")
    decreases |xs|
  {
    var ys := xs + [op];
    if xs == [] {
      assert ys[1..] == [];
    } else {
      assert ys[1..] == xs[1..] + [op];
      AvailableAppend(xs[0].Write? && xs[0].data != "", xs[1..], op);
    }
  }

  datatype Error = Success | WriteError | CanceledError

  /** Carries out one reply of the provider. */
  method PerformAll(sink: ChunkSink, ops: seq<SinkOp>)
    requires sink.ok
    modifies sink, sink.strm
    ensures sink.ok ==> sink.strm.written == old(sink.strm.written) + Wire(ops)
    ensures sink.ok ==> sink.offset == old(sink.offset) + |Written(ops)| && sink.available == Available(old(sink.available), ops)
    ensures !sink.ok ==> sink.strm.faulty
  {
    hide Wire, Written, Available;
    PrefixNone(sink.available, ops, sink.strm.written);
    for i := 0 to |ops|
      invariant !sink.ok ==> sink.strm.faulty
      invariant sink.ok ==> sink.strm.written == old(sink.strm.written) + Wire(ops[..i])
      invariant sink.ok ==> sink.offset == old(sink.offset) + |Written(ops[..i])|
      invariant sink.ok ==> sink.available == Available(old(sink.available), ops[..i])
    {
      sink.Perform(ops[i]);
      PrefixStep(old(sink.available), ops, i, old(sink.strm.written));
    }
    assert ops[..|ops|] == ops;
  }

  lemma PrefixNone(available: bool, ops: seq<SinkOp>, w: string)
    ensures w + Wire(ops[..0]) == w && |Written(ops[..0])| == 0 && Available(available, ops[..0]) == available
  {
  }

  lemma PrefixStep(available: bool, ops: seq<SinkOp>, i: nat, w: string)
    requires i < |ops|
    ensures (w + Wire(ops[..i])) + OpBytes(ops[i]) == w + Wire(ops[..i + 1])
    ensures |Written(ops[..i + 1])| == |Written(ops[..i])| + |Written([ops[i]])|
    ensures forall b :: Available(available, ops[..i + 1]) == Available(b, [ops[i]])
  {
    hide OpBytes;
    assert ops[..i + 1] == ops[..i] + [ops[i]];
    WireAppend(ops[..i], [ops[i]]);
    assert [ops[i]][1..] == [] && OpBytes(ops[i]) + "" == OpBytes(ops[i]);
    assert Wire([ops[i]]) == OpBytes(ops[i]) + Wire([]) == OpBytes(ops[i]);
    Assoc(w, Wire(ops[..i]), OpBytes(ops[i]));
    AvailableAppend(available, ops[..i], ops[i]);
  }

  /** `write_content_chunked`: what a successful run has put on the stream is the coding of what the provider did. */
  method WriteContentChunked<S>(strm: OutStream, f: Provider<S>, start: S, rounds: nat) returns (ok: bool, error: Error)
    modifies strm
    ensures ok ==> strm.written == old(strm.written) + Wire(Drive(f, start, 0, rounds).ops)
    ensures ok ==> error == Success && !Drive(f, start, 0, rounds).outcome.Canceled?
    ensures !strm.faulty ==> (ok <==> !Drive(f, start, 0, rounds).outcome.Canceled?) && (!ok ==> error == CanceledError)
  {
    hide Wire, Written, Available;
    var sink := new ChunkSink(strm);
    var state := start;
    var round := 0;
    ghost var ops: seq<SinkOp> := [];
    DriveStart(Drive(f, start, 0, rounds), strm.written);
    while sink.available && round < rounds
      invariant round <= rounds && sink.ok && sink.strm == strm && fresh(sink)
      invariant strm.written == old(strm.written) + Wire(ops)
      invariant if sink.available then
                  Drive(f, start, 0, rounds) == Prefixed(ops, Drive(f, state, sink.offset, rounds - round))
                else Drive(f, start, 0, rounds) == Driven(ops, Completed)
    {
      var writable := strm.IsWritable();
      if !writable {
        return false, WriteError;
      }
      var reply := f(state, sink.offset);
      PerformAll(sink, reply.ops);
      WireAppend(ops, reply.ops);
      Assoc(old(strm.written), Wire(ops), Wire(reply.ops));
      PrefixedTwice(ops, reply.ops, Drive(f, reply.state, sink.offset, rounds - round - 1));
      ops := ops + reply.ops;
      if !reply.ok {
        return false, CanceledError;
      }
      if !sink.ok {
        return false, WriteError;
      }
      state := reply.state;
      round := round + 1;
    }
    if sink.available {
      assert ops + [] == ops;
    }
    return true, Success;
  }

  function Prefixed(ops: seq<SinkOp>, d: Driven): Driven { d.(ops := ops + d.ops) }

  lemma PrefixedTwice(xs: seq<SinkOp>, ys: seq<SinkOp>, d: Driven)
    ensures Prefixed(xs, Prefixed(ys, d)) == Prefixed(xs + ys, d)
  {
    Assoc(xs, ys, d.ops);
  }

  lemma DriveStart(d: Driven, w: string)
    ensures Prefixed([], d) == d && w + Wire([]) == w
  {
  }
}
