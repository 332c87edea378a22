/** The ConsoleSocket object of python/qemu/console_socket.py as a state
    record with pure transitions. The background asyncore thread is modelled
    by the bytes it hands to `HandleRead`; the socket and the log file are
    reduced to an open flag and an in-memory string. */
module ConsoleSocket {
  import opened Wrappers
  import opened Latin1

  /** `recv` gives up after this many seconds unless `settimeout` changes it. */
  const RecvTimeoutDefault: nat := 300

  /** The abstract clock ticks once per 0.5 s sleep of `recv`'s poll loop. */
  const TicksPerSecond: nat := 2

  /** A duration in seconds as a number of clock ticks. Since a tick is half
      a second, `elapsed_sec > seconds` holds exactly when more than
      `Ticks(seconds)` ticks have passed. */
  function Ticks(seconds: nat): nat {
    seconds * TicksPerSecond
  }

  /** Everything the object owns.
      - `buffer`: the deque of decoded characters, oldest first;
      - `log`: the contents written to the log file, if one is open;
      - `open`: the `_open` flag, cleared by the first `close`;
      - `socketOpen`: whether the asyncore dispatcher still holds its socket;
      - `threadStarted`: whether `_asyncore_thread` is set;
      - `recvTimeout`: `_recv_timeout_sec`, in seconds. */
  datatype State = State(
    buffer: string,
    log: Option<string>,
    open: bool,
    socketOpen: bool,
    threadStarted: bool,
    recvTimeout: nat)

  /** The externally visible steps of `close`, in the order it takes them. */
  datatype Effect =
    | CloseSocket
    | JoinThread
    | CloseLog(contents: string)

  /** What `recv` hands back: the bytes, or `socket.timeout`. */
  datatype RecvResult = Received(data: seq<byte>) | Timeout

  /** The buffer only ever holds decoded bytes, so it always encodes back. */
  ghost predicate Valid(s: State) {
    IsLatin1(s.buffer)
  }

  /** `_thread_start`: start the drain thread unless one is already set. */
  function ThreadStart(s: State): (t: State)
    ensures t.threadStarted
    ensures s.threadStarted ==> t == s
    ensures t.(threadStarted := s.threadStarted) == s
  {
    if s.threadStarted then s else s.(threadStarted := true)
  }

  /** The constructor: the file name opens a log only when it is a non-empty
      string (Python's `if file:`), and the drain thread is started last. */
  function Init(file: Option<string>): (s: State)
    ensures Valid(s)
    ensures s.buffer == [] && s.open && s.socketOpen && s.threadStarted
    ensures s.recvTimeout == RecvTimeoutDefault
    ensures s.log.Some? <==> file.Some? && file.value != []
    ensures s.log.Some? ==> s.log.value == []
  {
    var log := if file.Some? && file.value != [] then Some([]) else None;
    ThreadStart(State([], log, true, true, false, RecvTimeoutDefault))
  }

  /** `handle_close`: the drain thread closes only the dispatcher's socket;
      it must not run `close`, which would join the thread itself. */
  function HandleClose(s: State): (t: State)
    ensures !t.socketOpen
    ensures t.open == s.open && t.threadStarted == s.threadStarted
    ensures t.buffer == s.buffer && t.log == s.log && t.recvTimeout == s.recvTimeout
  {
    s.(socketOpen := false)
  }

  /** `close`: on the first call clear `_open`, close the dispatcher, join and
      forget the thread, then close and forget the log; later calls do
      nothing. The effects list the steps in the order they happen. */
  function Close(s: State): (r: (State, seq<Effect>))
    ensures !r.0.open
    ensures !s.open ==> r == (s, [])
    ensures s.open ==> !r.0.socketOpen && !r.0.threadStarted && r.0.log.None?
    ensures s.open ==> |r.1| >= 1 && r.1[0] == CloseSocket
    ensures s.open ==> |r.1| == 1 + (if s.threadStarted then 1 else 0) + (if s.log.Some? then 1 else 0)
    ensures r.0.buffer == s.buffer && r.0.recvTimeout == s.recvTimeout
    ensures JoinThread in r.1 <==> s.open && s.threadStarted
    ensures forall c :: CloseLog(c) in r.1 <==> s.open && s.log == Some(c)
    ensures forall i, j :: 0 <= i < |r.1| && 0 <= j < |r.1| && r.1[i].CloseLog? && r.1[j].JoinThread? ==> j < i
  {
    if !s.open then (s, [])
    else
      var join := if s.threadStarted then [JoinThread] else [];
      var closeLog := if s.log.Some? then [CloseLog(s.log.value)] else [];
      (s.(open := false, socketOpen := false, threadStarted := false, log := None),
       [CloseSocket] + join + closeLog)
  }

  /** `handle_read`: the bytes the dispatcher received are decoded, written to
      the log when there is one, and appended to the tail of the buffer.
      asyncore asks for one byte at a time; the model accepts any number. */
  function HandleRead(s: State, data: seq<byte>): (t: State)
    ensures t.buffer == s.buffer + Decode(data)
    ensures t.log.Some? <==> s.log.Some?
    ensures s.log.Some? ==> t.log.value == s.log.value + Decode(data)
    ensures t == s.(buffer := t.buffer, log := t.log)
    ensures Valid(s) ==> Valid(t)
  {
    var text := Decode(data);
    var log := if s.log.Some? then Some(s.log.value + text) else None;
    s.(buffer := s.buffer + text, log := log)
  }

  /** The pop at the end of `recv`: remove the `n` oldest characters and
      encode them back to bytes. */
  function Pop(s: State, n: nat): (r: (State, seq<byte>))
    requires Valid(s) && n <= |s.buffer|
    ensures Valid(r.0)
    ensures |r.1| == n && Decode(r.1) == s.buffer[..n]
    ensures r.0 == s.(buffer := s.buffer[n..])
  {
    var out := Encode(s.buffer[..n]);
    (s.(buffer := s.buffer[n..]), out.value)
  }

  /** The bytes the drain thread delivers during the `k`-th sleep of `recv`. */
  function ArrivedDuring(arrivals: seq<seq<byte>>, k: nat): seq<byte> {
    if k < |arrivals| then arrivals[k] else []
  }

  /** All the bytes delivered during the first `k` sleeps, in order. */
  function Arrived(arrivals: seq<seq<byte>>, k: nat): seq<byte> {
    if k == 0 then [] else Arrived(arrivals, k - 1) + ArrivedDuring(arrivals, k - 1)
  }

  /** The state once the drain thread has delivered the bytes of the first
      `k` sleeps. */
  function Deliver(s: State, arrivals: seq<seq<byte>>, k: nat): State {
    HandleRead(s, Arrived(arrivals, k))
  }

  /** Reading two chunks one after the other is reading their concatenation:
      the drain thread's one-byte reads add up to the stream it received. */
  lemma HandleReadTwice(s: State, a: seq<byte>, b: seq<byte>)
    ensures HandleRead(HandleRead(s, a), b) == HandleRead(s, a + b)
  {
    DecodeAppend(a, b);
    var text := Decode(a + b);
    AppendTwice(s.buffer, Decode(a), Decode(b), text);
    if s.log.Some? {
      AppendTwice(s.log.value, Decode(a), Decode(b), text);
    }
  }

  /** Appending two pieces one after the other appends their concatenation. */
  lemma AppendTwice(x: string, a: string, b: string, ab: string)
    requires ab == a + b
    ensures x + a + b == x + ab
  {
  }

  /** Reading nothing changes nothing. */
  lemma HandleReadNothing(s: State)
    ensures HandleRead(s, []) == s
  {
    assert s.buffer + Decode([]) == s.buffer;
    if s.log.Some? {
      assert s.log.value + Decode([]) == s.log.value;
    }
  }

  /** The buffer never shrinks while `recv` waits. */
  lemma {:induction false} ArrivedGrows(arrivals: seq<seq<byte>>, j: nat, k: nat)
    requires j <= k
    ensures |Arrived(arrivals, j)| <= |Arrived(arrivals, k)|
  {
    if j < k {
      ArrivedGrows(arrivals, j, k - 1);
    }
  }

  /** With nothing arriving, waiting leaves the state exactly as it was. */
  lemma {:induction false} ArrivedNothing(k: nat)
    ensures Arrived([], k) == []
  {
    if k > 0 {
      ArrivedNothing(k - 1);
    }
  }

  /** `recv` when no more bytes arrive while it waits: it returns at once if
      the buffer holds enough characters, and otherwise times out with the
      state unchanged. A negative count asks for nothing. */
  function RecvNow(s: State, n: int): (r: (State, RecvResult))
    requires Valid(s)
    ensures Valid(r.0)
    ensures r.1.Timeout? <==> |s.buffer| < n
    ensures r.1.Timeout? ==> r.0 == s
    ensures r.0 == s.(buffer := r.0.buffer)
    ensures r.1.Received? ==> |r.1.data| == (if n < 0 then 0 else n)
    ensures r.1.Received? ==> s.buffer == Decode(r.1.data) + r.0.buffer
  {
    var want := if n < 0 then 0 else n;
    if |s.buffer| < want then (s, Timeout)
    else
      var (t, data) := Pop(s, want);
      assert s.buffer == s.buffer[..want] + s.buffer[want..];
      (t, Received(data))
  }

  /** The poll loop of `recv`: sleep one tick at a time while the buffer
      holds fewer than `want` characters, and give up as soon as more than
      `limit` ticks have elapsed. `level(k)` is the length of the buffer
      after `k` sleeps, which the drain thread grows concurrently. The
      elapsed time is checked right after each sleep, before the buffer is
      looked at again, so bytes that arrive during the last sleep do not
      prevent the timeout. */
  method Wait(level: nat -> nat, want: nat, limit: nat) returns (elapsed: nat, timedOut: bool)
    ensures elapsed > 0 ==> level(elapsed - 1) < want
    ensures forall k: nat :: k < elapsed && k <= limit ==> level(k) < want
    ensures timedOut ==> elapsed == limit + 1
    ensures !timedOut ==> elapsed <= limit && want <= level(elapsed)
  {
    elapsed := 0;
    while level(elapsed) < want
      invariant elapsed <= limit
      invariant elapsed > 0 ==> level(elapsed - 1) < want
      invariant forall k: nat :: k < elapsed ==> level(k) < want
      decreases limit - elapsed
    {
      elapsed := elapsed + 1;
      if elapsed > limit {
        timedOut := true;
        return;
      }
    }
    timedOut := false;
  }

  /** `recv(n)`: wait until the buffer holds `n` characters or more than the
      timeout has elapsed, raising `socket.timeout` in the second case; then
      pop the `n` oldest characters and encode them. `elapsed` counts the
      ticks slept. */
  method Recv(s: State, n: int, arrivals: seq<seq<byte>>) returns (t: State, r: RecvResult, elapsed: nat)
    requires Valid(s)
    ensures Valid(t) && t.recvTimeout == s.recvTimeout
    ensures elapsed <= Ticks(s.recvTimeout) + 1
    ensures r.Timeout? <==> |Deliver(s, arrivals, Ticks(s.recvTimeout)).buffer| < n
    ensures r.Timeout? ==> elapsed == Ticks(s.recvTimeout) + 1 && t == Deliver(s, arrivals, elapsed)
    ensures r.Received? ==> n <= |Deliver(s, arrivals, elapsed).buffer|
    ensures r.Received? && elapsed > 0 ==> |Deliver(s, arrivals, elapsed - 1).buffer| < n
    ensures r.Received? ==> |r.data| == (if n < 0 then 0 else n)
    ensures r.Received? ==> s.buffer + Decode(Arrived(arrivals, elapsed)) == Decode(r.data) + t.buffer
    ensures r.Received? ==> t == Deliver(s, arrivals, elapsed).(buffer := t.buffer)
    ensures (if n < 0 then 0 else n) <= |s.buffer| ==> r.Received? && elapsed == 0
    ensures arrivals == [] ==> (t, r) == RecvNow(s, n)
  {
    var want: nat := if n < 0 then 0 else n;
    var timedOut;
    elapsed, timedOut := Wait(k => |Deliver(s, arrivals, k).buffer|, want, Ticks(s.recvTimeout));
    if timedOut {
      TimedOut(s, n, arrivals, elapsed);
      t, r := Deliver(s, arrivals, elapsed), Timeout;
    } else {
      Served(s, n, arrivals, elapsed);
      var popped := Pop(Deliver(s, arrivals, elapsed), want);
      t, r := popped.0, Received(popped.1);
    }
  }

  /** What `recv` knows when it raises `socket.timeout` after `k` sleeps:
      the buffer was still short at the last look, within the timeout. */
  lemma TimedOut(s: State, n: int, arrivals: seq<seq<byte>>, k: nat)
    requires Valid(s) && k == Ticks(s.recvTimeout) + 1
    requires |Deliver(s, arrivals, k - 1).buffer| < (if n < 0 then 0 else n)
    ensures Valid(Deliver(s, arrivals, k)) && Deliver(s, arrivals, k).recvTimeout == s.recvTimeout
    ensures |Deliver(s, arrivals, Ticks(s.recvTimeout)).buffer| < n
    ensures arrivals == [] ==> (Deliver(s, arrivals, k), Timeout) == RecvNow(s, n)
  {
    ArrivedNothing(k);
    ArrivedNothing(k - 1);
    HandleReadNothing(s);
  }

  /** What `recv` knows when the buffer holds enough characters after `k`
      sleeps, no later than the last poll. */
  lemma Served(s: State, n: int, arrivals: seq<seq<byte>>, k: nat)
    requires Valid(s) && k <= Ticks(s.recvTimeout)
    requires (if n < 0 then 0 else n) <= |Deliver(s, arrivals, k).buffer|
    ensures n <= |Deliver(s, arrivals, Ticks(s.recvTimeout)).buffer|
    ensures var p := Pop(Deliver(s, arrivals, k), if n < 0 then 0 else n);
            && Valid(p.0) && p.0.recvTimeout == s.recvTimeout
            && p.0 == Deliver(s, arrivals, k).(buffer := p.0.buffer)
            && s.buffer + Decode(Arrived(arrivals, k)) == Decode(p.1) + p.0.buffer
            && (arrivals == [] ==> (p.0, Received(p.1)) == RecvNow(s, n))
  {
    var want := if n < 0 then 0 else n;
    var u := Deliver(s, arrivals, k);
    ArrivedGrows(arrivals, k, Ticks(s.recvTimeout));
    ArrivedNothing(k);
    HandleReadNothing(s);
    assert u.buffer == u.buffer[..want] + u.buffer[want..];
  }

  /** `settimeout`: only the timeout changes. */
  function SetTimeout(s: State, seconds: nat): (t: State)
    ensures t.recvTimeout == seconds
    ensures t.(recvTimeout := s.recvTimeout) == s
  {
    s.(recvTimeout := seconds)
  }

  /** After `settimeout(T)`, a `recv` that finds too little buffered and
      receives nothing more gives up after exactly `T` seconds and one more
      tick, leaving the socket as `settimeout` left it; one that finds
      enough returns at once. */
  method RecvAfterSetTimeout(s: State, seconds: nat, n: int) returns (t: State, r: RecvResult, elapsed: nat)
    requires Valid(s)
    ensures |s.buffer| < n ==> r.Timeout? && elapsed == Ticks(seconds) + 1 && t == SetTimeout(s, seconds)
    ensures n <= |s.buffer| ==> r.Received? && elapsed == 0 && t.recvTimeout == seconds
  {
    var u := SetTimeout(s, seconds);
    t, r, elapsed := Recv(u, n, []);
  }

  /** `set_blocking`: kept for socket API compatibility; changes nothing. */
  function SetBlocking(s: State): (t: State)
    ensures t == s
  {
    s
  }

  /** Starting the thread a second time does nothing. */
  lemma ThreadStartIdempotent(s: State)
    ensures ThreadStart(ThreadStart(s)) == ThreadStart(s)
  {
  }

  /** The drain thread's `handle_close` closes only the dispatcher, so a
      later `close` still joins the thread and closes the log. */
  lemma HandleCloseThenClose(s: State)
    ensures Close(HandleClose(s)).1 == Close(s).1
    ensures s.open ==> Close(HandleClose(s)).0 == Close(s).0
  {
  }

  /** `close` is idempotent: the second call finds `_open` cleared, changes
      nothing and takes no step. */
  lemma CloseIdempotent(s: State)
    ensures Close(Close(s).0) == (Close(s).0, [])
  {
  }
}
