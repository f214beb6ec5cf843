/**
 The writer, the reader and the unescaper put together, as the fuzzing harness of
 the repository does: what is sent is what is received, for every slicing into
 writes, every prefilled buffer, every sequence of read sizes and every way the
 network splits the stream.
 */
module RoundTrip {
  import opened Bytes
  import opened DataFormat
  import opened Streams
  import opened DataReader
  import opened DataWriter
  import opened DataUnescaper

  /** The message made of a list of vectored writes. */
  function Message(writes: seq<seq<bytes>>): bytes {
    if writes == [] then [] else Message(writes[..|writes| - 1]) + Flatten(writes[|writes| - 1])
  }

  /** Write after write, each tried until it is done, from the state in which the one before has left the writer. */
  predicate SentIn(writes: seq<seq<bytes>>, states: seq<LineState>, tries: seq<seq<Try>>) {
    && |tries| == |writes| && |states| == |writes| + 1 && states[0] == CrLf
    && forall i {:trigger writes[i]} :: 0 <= i < |writes| ==> Tried(states[i], Flatten(writes[i]), tries[i], states[i + 1], |Flatten(writes[i])|)
  }

  predicate SteadyWrites(tries: seq<seq<Try>>) {
    forall i :: 0 <= i < |tries| ==> AllSteady(tries[i])
  }

  predicate OneSliceEach(writes: seq<seq<bytes>>) {
    forall i :: 0 <= i < |writes| ==> |writes[i]| == 1
  }

  lemma MessageMore(writes: seq<seq<bytes>>, i: nat)
    requires i < |writes|
    ensures writes[..i + 1] == writes[..i] + [writes[i]] && Message(writes[..i + 1]) == Message(writes[..i]) + Flatten(writes[i])
  {
    assert writes[..i + 1][..i] == writes[..i];
  }

  lemma SentOneMore(writes: seq<seq<bytes>>, states: seq<LineState>, tries: seq<seq<Try>>, w: seq<bytes>, t: seq<Try>, now: LineState)
    requires SentIn(writes, states, tries) && Tried(states[|writes|], Flatten(w), t, now, |Flatten(w)|)
    ensures SentIn(writes + [w], states + [now], tries + [t])
    ensures SteadyWrites(tries + [t]) <==> SteadyWrites(tries) && AllSteady(t)
  {
    assert (tries + [t])[|tries|] == t && forall i :: 0 <= i < |tries| ==> (tries + [t])[i] == tries[i];
    assert forall i {:trigger (writes + [w])[i]} :: 0 <= i < |writes| ==> (writes + [w])[i] == writes[i];
  }

  /**
   Puts a message on the wire, one vectored write after the other. The wire is right if
   every call is steady: if the sink takes all it is offered or the writes are of one
   slice, or if no short write falls where the line state is not rebuilt.
   */
  method Send(writes: seq<seq<bytes>>, sink: Sink) returns (ghost states: seq<LineState>, ghost tries: seq<seq<Try>>)
    modifies sink
    ensures SentIn(writes, states, tries)
    ensures SteadyWrites(tries) ==> sink.wire == old(sink.wire) + Wire(Message(writes))
    ensures sink.takesAll || OneSliceEach(writes) ==> SteadyWrites(tries)
  {
    var writer := new EscapingDataWriter(sink);
    states, tries := [writer.state], [];
    for i := 0 to |writes|
      invariant writer.write == sink && writer.base == old(sink.wire)
      invariant |tries| == i && SentIn(writes[..i], states, tries) && states[i] == writer.state
      invariant SteadyWrites(tries) ==> writer.Valid() && !writer.pending && writer.acked == Message(writes[..i])
      invariant sink.takesAll || OneSliceEach(writes) ==> SteadyWrites(tries)
    {
      ghost var now := writer.WriteAll(writes[i]);
      SentOneMore(writes[..i], states, tries, writes[i], now, writer.state);
      MessageMore(writes, i);
      states, tries := states + [writer.state], tries + [now];
    }
    assert writes[..|writes|] == writes;
    writer.Finish();
  }

  lemma ReaderTail(reader: EscapedDataReader)
    requires reader.Valid()
    ensures reader.state == AtEnd ==> Decode(CrLf, reader.stream).tail == Some(reader.Rest())
    ensures reader.state != AtEnd && Decode(CrLf, reader.stream).tail.Some? ==>
              |Decode(CrLf, reader.stream).tail.value| < |reader.Rest()|
  {
    var stream := reader.stream;
    reader.FinishedAtDataEnd();
    assert Undecided(AtCrLf) + stream == stream;
    DecodeTailIsScanEnd(AtCrLf, stream);
    if reader.state == AtEnd {
      DecodeTailIsRest(stream, |reader.returned|);
    } else if ScanEnd(AtCrLf, stream).Some? {
      ScanEndIsDataEnd(stream, ScanEnd(AtCrLf, stream).value);
    }
  }

  /** What the receiver knows between two reads: `held` bytes wait to be unescaped, `read` is the text so far. */
  ghost predicate Received(stream: bytes, read: bytes, st: LineState, held: bytes, rest: bytes, over: bool) {
    if over then Decode(CrLf, stream) == Decoded(read, Some(held + rest))
    else st != Cr && |held| <= 4 && Decode(CrLf, stream) == Prepend(read, Decode(st, held + rest))
  }

  lemma ReceivedAll(stream: bytes, read: bytes, st: LineState, held: bytes, rest: bytes, over: bool)
    requires Received(stream, read, st, held, rest, over) && Decode(CrLf, stream).tail == Some(rest)
    ensures Decode(CrLf, stream).text == read
  {
    if !over {
      ShortTailHasNoText(st, held, rest);
      assert read + [] == read;
    }
  }

  lemma ReceivedMore(stream: bytes, read: bytes, st: LineState, chunk: bytes, rest: bytes,
                     out: bytes, st1: LineState, held: bytes, over: bool)
    requires Decode(CrLf, stream) == Prepend(read, Decode(st, chunk + rest))
    requires !over ==> st1 != Cr && |held| <= 4 && Decode(st, chunk + rest) == Prepend(out, Decode(st1, held + rest))
    requires over ==> Decode(st, chunk + rest) == Decoded(out, Some(held + rest))
    ensures Received(stream, read + out, st1, held, rest, over)
  {
    if !over { PrependTwice(read, out, Decode(st1, held + rest)); }
  }

  /** The text received, with where the bytes after the end of data start and end in the first buffer. */
  datatype Reception = Complete(text: bytes, start: nat, end: nat) | Aborted

  /** One read through the reader, to `buf[start..]`; `n` bytes at most. */
  method ReadInto(reader: EscapedDataReader, buf: array<byte>, start: nat, size: nat) returns (r: ReadResult)
    requires reader.Valid() && start + size <= buf.Length && 0 < size <= reader.buf.Length && buf != reader.buf
    modifies reader`start, reader`end, reader`state, reader`returned, reader.buf, reader.read, buf
    ensures reader.Valid() && buf[..start] == old(buf[..start])
    ensures r.ReadOk? ==>
              && r.n <= size && (r.n == 0 <==> old(reader.IsFinished()))
              && old(reader.Rest()) == buf[start..start + r.n] + reader.Rest()
              && (r.n == 0 ==> reader.state == old(reader.state))
    ensures r.ConnectionAborted? ==> !old(reader.IsFinished()) && old(reader.Rest()) == []
  {
    var filled;
    filled, r := reader.PollRead(buf[start..start + size]);
    if r.ReadOk? {
      ghost var rest, got := reader.Rest(), filled[..r.n];
      assert old(reader.Rest()) == got + rest;
      CopyInto(buf, start, filled[..r.n]);
      assert reader.Rest() == rest;
      assert buf[start..start + r.n] == got;
    }
  }

  /** Unescapes `buf[..len]`; the `left` bytes that must wait are moved to the head of the buffer. */
  method UnescapeChunk(unescaper: DataUnescaper, buf: array<byte>, len: nat, ghost rest: bytes)
    returns (out: bytes, left: nat, ghost ended: bool)
    requires len <= buf.Length
    modifies unescaper, buf
    ensures left <= len && (!ended ==> left <= 4)
    ensures !ended ==>
              Decode(old(unescaper.State()), old(buf[..len]) + rest) ==
              Prepend(out, Decode(unescaper.State(), buf[..left] + rest))
    ensures ended ==> Decode(old(unescaper.State()), old(buf[..len]) + rest) == Decoded(out, Some(buf[..left] + rest))
  {
    var res;
    res, ended := unescaper.Unescape(buf, len, rest);
    out := buf[..res.written];
    CopyWithin(buf, res.unhandledIdx, len, 0);
    left := len - res.unhandledIdx;
    assert buf[0..0 + left] == buf[..left];
  }

  /** Unescapes the `len` bytes held, which end with those just read; `rest` is still to be read. */
  method Digest(unescaper: DataUnescaper, buf: array<byte>, len: nat, text: bytes, ghost stream: bytes, ghost rest: bytes)
    returns (out: bytes, left: nat, ghost over: bool)
    requires len <= buf.Length && Decode(CrLf, stream) == Prepend(text, Decode(unescaper.State(), buf[..len] + rest))
    modifies unescaper, buf
    ensures left <= buf.Length && (!over ==> left <= 4)
    ensures Received(stream, text + out, unescaper.State(), buf[..left], rest, over)
  {
    ghost var st, chunk := unescaper.State(), buf[..len];
    out, left, over := UnescapeChunk(unescaper, buf, len, rest);
    ReceivedMore(stream, text, st, chunk, rest, out, unescaper.State(), buf[..left], over);
  }

  /** One turn of the receiver: reads at most `size` bytes after the `start` ones held, and unescapes them. */
  method ReceiveChunk(reader: EscapedDataReader, unescaper: DataUnescaper, buf: array<byte>, start: nat, size: nat,
                      text: bytes, ghost over: bool)
    returns (r: ReadResult, out: bytes, left: nat, ghost over': bool)
    requires reader.Valid() && start + size <= buf.Length && 0 < size <= reader.buf.Length && buf != reader.buf
    requires Received(reader.stream, text, unescaper.State(), buf[..start], reader.Rest(), over)
    modifies reader`start, reader`end, reader`state, reader`returned, reader.buf, reader.read, unescaper, buf
    ensures reader.Valid() && left <= buf.Length
    ensures r.ConnectionAborted? ==> Decode(CrLf, reader.stream).tail == None
    ensures r.ReadOk? && r.n == 0 ==>
              && reader.IsFinished()
              && Decode(CrLf, reader.stream) == Decoded(text, Some(reader.Rest()))
    ensures r.ReadOk? && r.n > 0 ==>
              && |reader.Rest()| < old(|reader.Rest()|) && left <= 4
              && Received(reader.stream, text + out, unescaper.State(), buf[..left], reader.Rest(), over')
  {
    ghost var held, st, rest := buf[..start], unescaper.State(), reader.Rest();
    ReaderTail(reader);
    r := ReadInto(reader, buf, start, size);
    out, left, over' := [], 0, over;
    if r.ReadOk? && r.n == 0 {
      assert reader.Rest() == rest;
      ReceivedAll(reader.stream, text, st, held, rest, over);
    } else if r.ReadOk? {
      ghost var rest1 := reader.Rest();
      Regroup(held, buf[start..start + r.n], rest1);
      assert buf[..start + r.n] == held + buf[start..start + r.n];
      assert !over;
      ReaderTail(reader);
      out, left, over' := Digest(unescaper, buf, start + r.n, text, reader.stream, rest1);
      assert reader.Rest() == rest1;
      assert over' ==> Decode(CrLf, reader.stream).tail == Some(buf[..left] + rest1);
    }
  }

  /** Turn after turn, until the data has ended; `alive` unless the stream ends before it. */
  method ReceiveText(reader: EscapedDataReader, maxRead: nat, readLen: seq<nat>) returns (alive: bool, text: bytes)
    requires reader.Valid() && reader.returned == [] && 5 <= maxRead <= reader.buf.Length && readLen != []
    modifies reader`start, reader`end, reader`state, reader`returned, reader.buf, reader.read
    ensures reader.Valid() && (alive <==> Decode(CrLf, reader.stream).tail.Some?)
    ensures alive ==> reader.IsFinished() && Decode(CrLf, reader.stream) == Decoded(text, Some(reader.Rest()))
  {
    var unescaper := new DataUnescaper(true);
    var buf := new byte[maxRead];
    var i: nat, start: nat := 0, 0;
    text := [];
    ghost var over := false;
    assert buf[..0] + reader.Rest() == reader.stream;
    assert Prepend([], Decode(CrLf, reader.stream)) == Decode(CrLf, reader.stream);
    while true
      invariant reader.Valid() && start <= 4
      invariant Received(reader.stream, text, unescaper.State(), buf[..start], reader.Rest(), over)
      decreases |reader.Rest()|
    {
      var size := Min(Max(1, readLen[i % |readLen|]), maxRead - start);
      var got, out, left;
      got, out, left, over := ReceiveChunk(reader, unescaper, buf, start, size, text, over);
      if got.ConnectionAborted? {
        return false, text;
      }
      if got.n == 0 {
        return true, text;
      }
      text, start, i := text + out, left, i + 1;
    }
  }

  /**
   Receives one message: `initBuf[..initRead]` was read ahead, the rest comes from
   `source`; the working buffer holds `maxRead` bytes, at least 5, and the sizes asked
   for go through `readLen` in turn.
   */
  method Receive(initBuf: array<byte>, initRead: nat, source: Source, maxRead: nat, readLen: seq<nat>) returns (r: Reception)
    requires 5 <= maxRead <= initBuf.Length && initRead <= initBuf.Length && readLen != []
    modifies initBuf, source
    ensures r.Complete? <==> old(Decode(CrLf, initBuf[..initRead] + source.unread)).tail.Some?
    ensures r.Complete? ==>
              && r.text == old(Decode(CrLf, initBuf[..initRead] + source.unread)).text
              && r.start <= r.end <= initBuf.Length
              && Some(initBuf[r.start..r.end] + source.unread) == old(Decode(CrLf, initBuf[..initRead] + source.unread)).tail
  {
    var reader := new EscapedDataReader(initBuf, 0, initRead, source);
    assert initBuf[0..initRead] == initBuf[..initRead];
    var alive, text := ReceiveText(reader, maxRead, readLen);
    if !alive {
      return Aborted;
    }
    ghost var rest := reader.Rest();
    reader.Complete();
    assert reader.Rest() == rest;
    var range := reader.GetUnhandled();
    return Complete(text, range.value.0, range.value.1);
  }

  /** The whole trip: the wire is as it should be, the message comes back, ended by CRLF if it is not empty, and nothing is left over. */
  method EscapingThenUnescaping(writes: seq<seq<bytes>>, maxRead: nat, initRead: nat, readLen: seq<nat>)
    returns (wire: bytes, text: bytes, left: nat)
    ensures LooksGood(wire)
    ensures text == Normalized(Message(writes)) && left == 0
  {
    var sink := new Sink(true);
    ghost var _, _ := Send(writes, sink);
    wire := sink.wire;
    assert wire == Wire(Message(writes));
    WireLooksGood(Message(writes));
    text, left := ReadBack(wire, maxRead, initRead, if readLen == [] then [1] else readLen, Message(writes));
  }

  method ReadBack(wire: bytes, maxRead: nat, initRead: nat, readLen: seq<nat>, ghost msg: bytes) returns (text: bytes, left: nat)
    requires wire == Wire(msg) && readLen != []
    ensures text == Normalized(msg) && left == 0
  {
    var max := Max(Min(maxRead, 16 * 1024 * 1024), 5);
    var init := Min(Min(initRead, max), |wire|);
    var initBuf := new byte[max];
    CopyInto(initBuf, 0, wire[..init]);
    var source := new Source(wire[init..]);
    assert initBuf[..init] == initBuf[0..0 + init] == wire[..init];
    assert initBuf[..init] + source.unread == wire == Wire(msg) + [];
    WireRoundTrip(msg, []);
    var r := Receive(initBuf, init, source, max, readLen);
    assert |initBuf[r.start..r.end] + source.unread| == 0;
    return r.text, r.end - r.start;
  }
}
