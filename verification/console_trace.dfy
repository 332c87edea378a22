/** Properties of the console socket over whole runs: any interleaving of
    bytes arriving from the socket and `recv` calls that find enough data
    buffered. */
module ConsoleTrace {
  import opened Wrappers
  import opened Latin1
  import opened ConsoleSocket

  /** One step of a run: the drain thread reads bytes, or the caller asks
      `recv` for `n` bytes while nothing more arrives. */
  datatype Event = Read(data: seq<byte>) | Recv(n: int)

  /** All bytes the drain thread read during a run, in order. */
  function ReadBytes(events: seq<Event>): seq<byte> {
    if events == [] then []
    else
      var last := events[|events| - 1];
      ReadBytes(events[..|events| - 1]) + (if last.Read? then last.data else [])
  }

  /** Runs the events in order, returning the final state and the
      concatenation of everything `recv` returned. */
  function Run(s: State, events: seq<Event>): (r: (State, seq<byte>))
    requires Valid(s)
    ensures Valid(r.0)
    ensures r.0.open == s.open && r.0.socketOpen == s.socketOpen
    ensures r.0.threadStarted == s.threadStarted && r.0.recvTimeout == s.recvTimeout
  {
    if events == [] then (s, [])
    else
      var (t, out) := Run(s, events[..|events| - 1]);
      match events[|events| - 1]
      case Read(data) => (HandleRead(t, data), out)
      case Recv(n) =>
        var (u, res) := RecvNow(t, n);
        (u, if res.Received? then out + res.data else out)
  }

  /** A read keeps the FIFO balance: the received text plus the buffer
      grows by exactly the decoded bytes. */
  lemma ReadKeepsFifo(start: string, before: seq<byte>, out: seq<byte>, t: State, data: seq<byte>)
    requires Decode(out) + t.buffer == start + Decode(before)
    ensures Decode(out) + HandleRead(t, data).buffer == start + Decode(before + data)
  {
    DecodeAppend(before, data);
    AppendTwice(Decode(out), t.buffer, Decode(data), t.buffer + Decode(data));
    AppendTwice(start, Decode(before), Decode(data), Decode(before) + Decode(data));
  }

  /** A `recv` keeps the FIFO balance: characters move from the head of the
      buffer to the end of what was received. */
  lemma RecvKeepsFifo(total: string, out: seq<byte>, t: State, n: int)
    requires Valid(t)
    requires Decode(out) + t.buffer == total
    ensures var (u, res) := RecvNow(t, n);
            Decode(if res.Received? then out + res.data else out) + u.buffer == total
  {
    var (u, res) := RecvNow(t, n);
    if res.Received? {
      DecodeAppend(out, res.data);
      AppendTwice(Decode(out), Decode(res.data), u.buffer, Decode(res.data) + u.buffer);
    }
  }

  /** FIFO: what the caller received, followed by what is still buffered, is
      exactly what was buffered at the start followed by every byte read,
      in order. */
  lemma {:induction false} RunIsFifo(s: State, events: seq<Event>)
    requires Valid(s)
    ensures Decode(Run(s, events).1) + Run(s, events).0.buffer == s.buffer + Decode(ReadBytes(events))
  {
    if events == [] {
      assert s.buffer + Decode([]) == s.buffer;
    } else {
      var prefix := events[..|events| - 1];
      var (t, out) := Run(s, prefix);
      RunIsFifo(s, prefix);
      match events[|events| - 1]
      case Read(data) =>
        ReadKeepsFifo(s.buffer, ReadBytes(prefix), out, t, data);
      case Recv(n) =>
        assert ReadBytes(events) == ReadBytes(prefix) + [];
        RecvKeepsFifo(s.buffer + Decode(ReadBytes(prefix)), out, t, n);
    }
  }

  /** FIFO from construction, in bytes: the bytes received followed by the
      encoding of what is still buffered are exactly the bytes read. */
  lemma RunFromInitIsFifo(file: Option<string>, events: seq<Event>)
    ensures Encode(Run(Init(file), events).0.buffer).Some?
    ensures Run(Init(file), events).1 + Encode(Run(Init(file), events).0.buffer).value == ReadBytes(events)
  {
    var (t, out) := Run(Init(file), events);
    RunIsFifo(Init(file), events);
    assert [] + Decode(ReadBytes(events)) == Decode(ReadBytes(events));
    var rest := Encode(t.buffer).value;
    DecodeAppend(out, rest);
    DecodeInjective(out + rest, ReadBytes(events));
  }

  /** A read appends the decoded bytes to the log as well. */
  lemma ReadKeepsLog(start: string, before: seq<byte>, t: State, data: seq<byte>)
    requires t.log == Some(start + Decode(before))
    ensures HandleRead(t, data).log == Some(start + Decode(before + data))
  {
    DecodeAppend(before, data);
    AppendTwice(start, Decode(before), Decode(data), Decode(before) + Decode(data));
  }

  /** The log mirrors the stream: during a run, the log gains exactly the
      decoded bytes read, in order, and `recv` never touches it. */
  lemma {:induction false} RunLogs(s: State, events: seq<Event>)
    requires Valid(s)
    ensures Run(s, events).0.log.Some? <==> s.log.Some?
    ensures s.log.Some? ==> Run(s, events).0.log == Some(s.log.value + Decode(ReadBytes(events)))
  {
    if events == [] {
      assert s.log.Some? ==> s.log.value + Decode([]) == s.log.value;
    } else {
      var prefix := events[..|events| - 1];
      RunLogs(s, prefix);
      var t := Run(s, prefix).0;
      match events[|events| - 1]
      case Read(data) =>
        if s.log.Some? {
          ReadKeepsLog(s.log.value, ReadBytes(prefix), t, data);
        }
      case Recv(n) =>
        assert ReadBytes(events) == ReadBytes(prefix) + [] == ReadBytes(prefix);
        assert Run(s, events).0.log == RecvNow(t, n).0.log == t.log;
    }
  }

  /** Log fidelity: when the socket was created with a log file, the text
      written to the log during any run, which `close` finds when it closes
      the log, is exactly the decoded byte stream the drain thread read; its
      latin1 encoding is that stream. */
  lemma ClosedLogIsStream(file: Option<string>, events: seq<Event>)
    requires file.Some? && file.value != []
    ensures var effects := Close(Run(Init(file), events).0).1;
            exists c :: CloseLog(c) in effects && Encode(c) == Some(ReadBytes(events))
  {
    var s := Init(file);
    var t := Run(s, events).0;
    RunLogs(s, events);
    var c := t.log.value;
    assert c == [] + Decode(ReadBytes(events));
    assert [] + Decode(ReadBytes(events)) == Decode(ReadBytes(events));
    DecodeThenEncode(ReadBytes(events));
    assert CloseLog(c) in Close(t).1;
  }

  /** The first example of the console socket's own usage: the peer sends
      "hello\n", and `recv(5)` then `recv(1)` return "hello" and "\n". */
  lemma HelloScenario()
    ensures var hello := [0x68, 0x65, 0x6C, 0x6C, 0x6F, 0x0A];
            var (t, out) := Run(Init(None), [Read(hello), Recv(5), Recv(1)]);
            out == hello && t.buffer == []
    ensures var hello := [0x68, 0x65, 0x6C, 0x6C, 0x6F, 0x0A];
            var (t, out) := Run(Init(None), [Read(hello), Recv(5)]);
            out == hello[..5] && Encode(t.buffer) == Some([0x0A])
  {
    var hello: seq<byte> := [0x68, 0x65, 0x6C, 0x6C, 0x6F, 0x0A];
    var s := Init(None);
    var events := [Read(hello), Recv(5), Recv(1)];
    assert events[..2] == [Read(hello), Recv(5)];
    assert events[..2][..1] == [Read(hello)];
    assert events[..2][..1][..0] == [];
    assert [Read(hello)][..0] == [];
    assert Run(s, []) == (s, []);
    var s1 := Run(s, [Read(hello)]);
    assert s1 == (HandleRead(s, hello), []);
    assert |s1.0.buffer| == 6;
    var s2 := Run(s, events[..2]);
    assert |s2.0.buffer| == 1 && |s2.1| == 5;
    var s3 := Run(s, events);
    assert s3.0.buffer == [];
    RunFromInitIsFifo(None, events);
    assert Encode([]) == Some([]);
  }
}
