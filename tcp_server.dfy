/**
 * The single-client TCP control loop of the Raspberry Pi example server.
 *
 * Sockets are abstracted away: each loop iteration is driven by an Event that
 * says what `accept` returned and what `read` returned. What remains is the
 * connection flag, the client descriptor, the fixed 1024-byte receive buffer
 * that `read` overwrites in place, the `strcmp` dispatch on that buffer, and a
 * ghost log of the externally visible effects (accept, close, reboot, send).
 */
module TcpServer {

  /** BUFFER_SIZE: capacity of the receive buffer and the most one read returns. */
  const BufferSize := 1024

  /** "sudo reboot" in ASCII, without its terminator. */
  const RebootCommand: seq<bv8> := [0x73, 0x75, 0x64, 0x6F, 0x20, 0x72, 0x65, 0x62, 0x6F, 0x6F, 0x74]

  /** The C string literal "sudo reboot" as strcmp sees it: the bytes and a NUL. */
  const RebootLiteral: seq<bv8> := RebootCommand + [0]

  /** "Hello from Raspberry Pi!" in ASCII: the bytes `send` transmits (strlen, no NUL). */
  const Reply: seq<bv8> := [0x48, 0x65, 0x6C, 0x6C, 0x6F, 0x20, 0x66, 0x72, 0x6F, 0x6D, 0x20, 0x52,
                            0x61, 0x73, 0x70, 0x62, 0x65, 0x72, 0x72, 0x79, 0x20, 0x50, 0x69, 0x21]

  // ---------------------------------------------------------------------
  // C strings
  // ---------------------------------------------------------------------

  predicate NoNul(s: seq<bv8>)
  {
    forall k | 0 <= k < |s| :: s[k] != 0
  }

  /** The string a char buffer holds: everything before the first NUL. */
  function CString(a: seq<bv8>): (s: seq<bv8>)
    ensures |s| <= |a| && NoNul(s) && s == a[..|s|]
    ensures |s| < |a| ==> a[|s|] == 0
  {
    if a == [] || a[0] == 0 then [] else [a[0]] + CString(a[1..])
  }

  /**
   * `strcmp(a + i, b + i)` where `b` is a NUL-terminated literal: compare byte
   * by byte as unsigned chars, stop at the first difference or at a common NUL.
   * Because `b` ends within `a`'s bounds, no byte of `a` past `|b|` is read.
   */
  function StrCmp(a: seq<bv8>, b: seq<bv8>, i: nat): (r: int)
    requires i < |b| <= |a|
    requires NoNul(b[..|b| - 1]) && b[|b| - 1] == 0
    ensures r == 0 <==> a[i..|b|] == b[i..]
    decreases |b| - i
  {
    if a[i] != b[i] then
      assert a[i..|b|][0] != b[i..][0];
      a[i] as int - b[i] as int
    else if a[i] == 0 then
      assert i == |b| - 1;
      0
    else
      var r := StrCmp(a, b, i + 1);
      assert a[i..|b|] == [a[i]] + a[i + 1..|b|];
      assert b[i..] == [b[i]] + b[i + 1..];
      r
  }

  /** A buffer holds the C string `w` iff `w` is its prefix and a NUL follows. */
  lemma {:induction false} CStringIs(a: seq<bv8>, w: seq<bv8>)
    requires NoNul(w) && |w| < |a|
    ensures CString(a) == w <==> a[..|w|] == w && a[|w|] == 0
    decreases |w|
  {
    if w != [] && a[0] != 0 {
      CStringIs(a[1..], w[1..]);
      assert a[..|w|] == [a[0]] + a[1..][..|w| - 1];
      assert w == [w[0]] + w[1..];
    }
  }

  /**
   * The test at the dispatch: `strcmp(buffer, "sudo reboot") == 0` holds iff
   * bytes 0..10 spell the command and byte 11 is NUL, that is iff the buffer's
   * C string is exactly the command.
   */
  lemma RebootTest(buf: seq<bv8>)
    requires |buf| == BufferSize
    ensures StrCmp(buf, RebootLiteral, 0) == 0 <==> buf[..11] == RebootCommand && buf[11] == 0
    ensures StrCmp(buf, RebootLiteral, 0) == 0 <==> CString(buf) == RebootCommand
  {
    CStringIs(buf, RebootCommand);
    assert buf[..12] == buf[..11] + [buf[11]];
  }

  // ---------------------------------------------------------------------
  // The environment: results of accept and read
  // ---------------------------------------------------------------------

  /** What `read(clientSocket, buffer, BUFFER_SIZE)` returned. */
  datatype ReadReturn =
    | EndOrError(ret: int)       // 0 at end of stream, -1 on error
    | Data(bytes: seq<bv8>)      // the bytes placed at the front of the buffer
  {
    /** bytesRead */
    function Count(): int
    {
      match this
      case EndOrError(ret) => ret
      case Data(bytes) => |bytes|
    }

    /** What read promises: a non-positive failure code or 1..BUFFER_SIZE bytes. */
    predicate Valid()
    {
      match this
      case EndOrError(ret) => ret <= 0
      case Data(bytes) => 0 < |bytes| <= BufferSize
    }
  }

  /** One iteration's view of the world: accept's return value and read's result. */
  datatype Event = Event(acceptResult: int, read: ReadReturn)

  // ---------------------------------------------------------------------
  // Effects and the connection discipline
  // ---------------------------------------------------------------------

  datatype Effect =
    | Accepted(fd: int)                 // accept returned fd >= 0
    | Closed(fd: int)                   // close(clientSocket)
    | Reboot                            // system("sudo reboot")
    | Sent(fd: int, bytes: seq<bv8>)    // send(clientSocket, response, ...)

  /** The client descriptor held after a log of effects, if any. */
  function Holder(log: seq<Effect>): Option<int>
  {
    if log == [] then None
    else
      var h := Holder(log[..|log| - 1]);
      match log[|log| - 1]
      case Accepted(fd) => Some(fd)
      case Closed(_) => None
      case _ => h
  }

  datatype Option<T> = None | Some(value: T)

  /** Which effect may happen next while `h` is held. */
  predicate Allowed(h: Option<int>, e: Effect)
  {
    match e
    case Accepted(fd) => h.None? && fd >= 0
    case Closed(fd) => h == Some(fd)
    case Reboot => h.Some?
    case Sent(fd, _) => h == Some(fd)
  }

  /**
   * A log in which each accept happens while no client is held and every
   * reboot, send and close concerns the client currently held.
   */
  predicate Disciplined(log: seq<Effect>)
  {
    log == [] || (Disciplined(log[..|log| - 1]) && Allowed(Holder(log[..|log| - 1]), log[|log| - 1]))
  }

  /** Net number of clients held: accepts minus closes. */
  function Held(log: seq<Effect>): int
  {
    if log == [] then 0
    else Held(log[..|log| - 1]) + match log[|log| - 1]
      case Accepted(_) => 1
      case Closed(_) => -1
      case _ => 0
  }

  lemma {:induction false} DisciplinedAppend(log: seq<Effect>, e: Effect)
    requires Disciplined(log) && Allowed(Holder(log), e)
    ensures Disciplined(log + [e])
    ensures Holder(log + [e]) == match e
      case Accepted(fd) => Some(fd)
      case Closed(_) => None
      case _ => Holder(log)
  {
    assert (log + [e])[..|log|] == log;
  }

  lemma {:induction false} DisciplinedHeld(log: seq<Effect>)
    requires Disciplined(log)
    ensures Held(log) == if Holder(log).Some? then 1 else 0
    decreases |log|
  {
    if log != [] {
      DisciplinedHeld(log[..|log| - 1]);
    }
  }

  /** At every point of a disciplined log at most one client is held. */
  lemma {:induction false} AtMostOneClient(log: seq<Effect>)
    requires Disciplined(log)
    ensures forall k | 0 <= k <= |log| :: 0 <= Held(log[..k]) <= 1
    decreases |log|
  {
    if log != [] {
      var init := log[..|log| - 1];
      AtMostOneClient(init);
      DisciplinedHeld(log);
      assert log[..|log|] == log;
      forall k | 0 <= k < |log| ensures 0 <= Held(log[..k]) <= 1 {
        assert log[..k] == init[..k];
      }
    }
  }

  function Reboots(log: seq<Effect>): nat
  {
    if log == [] then 0 else Reboots(log[..|log| - 1]) + if log[|log| - 1] == Reboot then 1 else 0
  }

  lemma {:induction false} RebootsAppend(log: seq<Effect>, more: seq<Effect>)
    ensures Reboots(log + more) == Reboots(log) + Reboots(more)
    decreases |more|
  {
    if more == [] {
      assert log + more == log;
    } else {
      var m := more[..|more| - 1];
      RebootsAppend(log, m);
      assert (log + more)[..|log + more| - 1] == log + m;
    }
  }

  // ---------------------------------------------------------------------
  // The loop body as a function on snapshots
  // ---------------------------------------------------------------------

  /** The server's state between iterations. */
  datatype Snapshot = Snapshot(connected: bool, client: int, buffer: seq<bv8>, effects: seq<Effect>)

  /** The invariant the loop keeps. */
  predicate Inv(s: Snapshot)
  {
    && |s.buffer| == BufferSize
    && Disciplined(s.effects)
    && Holder(s.effects) == (if s.connected then Some(s.client) else None)
  }

  /**
   * Before the loop: no client (network_connected_flag = false) and a buffer
   * of zero bytes (`char buffer[BUFFER_SIZE] = {0}`). clientSocket is not
   * initialised by the program; -1 stands for that here.
   */
  function Initial(): (s: Snapshot)
    ensures Inv(s) && !s.connected && s.effects == []
    ensures forall i | 0 <= i < |s.buffer| :: s.buffer[i] == 0
  {
    Snapshot(false, -1, seq(BufferSize, _ => 0), [])
  }

  /** What `read` does to the buffer: the first bytes replaced, the rest untouched. */
  function Overwrite(buf: seq<bv8>, data: seq<bv8>): (r: seq<bv8>)
    requires |data| <= |buf|
    ensures |r| == |buf|
    ensures forall i | 0 <= i < |data| :: r[i] == data[i]
    ensures forall i | |data| <= i < |buf| :: r[i] == buf[i]
  {
    data + buf[|data|..]
  }

  /** What a positive read leads to: maybe the reboot, then always the reply. */
  function Dispatch(fd: int, buf: seq<bv8>): (d: seq<Effect>)
    requires |buf| == BufferSize
    ensures |d| in {1, 2} && d[|d| - 1] == Sent(fd, Reply)
    ensures Reboot in d <==> CString(buf) == RebootCommand
    ensures d == (if CString(buf) == RebootCommand then [Reboot] else []) + [Sent(fd, Reply)]
  {
    RebootTest(buf);
    (if StrCmp(buf, RebootLiteral, 0) == 0 then [Reboot] else []) + [Sent(fd, Reply)]
  }

  /** The accept half of an iteration (accept is tried only with no client). */
  function AcceptPhase(s: Snapshot, ret: int): (r: Snapshot)
    ensures r.connected <==> s.connected || ret >= 0
    ensures r.buffer == s.buffer
    ensures s.effects <= r.effects && |r.effects| <= |s.effects| + 1
  {
    if s.connected then s
    else if ret >= 0 then s.(connected := true, client := ret, effects := s.effects + [Accepted(ret)])
    else s.(client := ret)
  }

  /** The read half of an iteration (read happens only with a client). */
  function ReadPhase(s: Snapshot, rd: ReadReturn): (r: Snapshot)
    requires |s.buffer| == BufferSize && rd.Valid()
    ensures r.connected <==> s.connected && rd.Count() > 0
    ensures r.client == s.client && |r.buffer| == BufferSize
    ensures s.effects <= r.effects
  {
    if !s.connected then s
    else if rd.Count() <= 0 then s.(connected := false, effects := s.effects + [Closed(s.client)])
    else
      var buf := Overwrite(s.buffer, rd.bytes);
      s.(buffer := buf, effects := s.effects + Dispatch(s.client, buf))
  }

  /** One pass of the `while (true)` body. */
  function Iteration(s: Snapshot, ev: Event): (r: Snapshot)
    requires |s.buffer| == BufferSize && ev.read.Valid()
    ensures r.connected <==> (s.connected || ev.acceptResult >= 0) && ev.read.Count() > 0
    ensures |r.buffer| == BufferSize
    ensures s.effects <= r.effects
  {
    ReadPhase(AcceptPhase(s, ev.acceptResult), ev.read)
  }

  predicate AllValid(events: seq<Event>)
  {
    forall i | 0 <= i < |events| :: events[i].read.Valid()
  }

  /** The state after running the loop body once per event. */
  function Run(s: Snapshot, events: seq<Event>): (r: Snapshot)
    requires |s.buffer| == BufferSize && AllValid(events)
    ensures |r.buffer| == BufferSize
  {
    if events == [] then s
    else Iteration(Run(s, events[..|events| - 1]), events[|events| - 1])
  }

  // ---------------------------------------------------------------------
  // Properties of one iteration
  // ---------------------------------------------------------------------

  /**
   * accept is consulted only when no client is held; success takes the client,
   * failure leaves flag, buffer and log as they were (only the descriptor
   * variable receives the failure code).
   */
  lemma AcceptGating(s: Snapshot, ret: int)
    ensures s.connected ==> AcceptPhase(s, ret) == s
    ensures !s.connected && ret >= 0 ==>
      var t := AcceptPhase(s, ret);
      t.connected && t.client == ret && t.buffer == s.buffer && t.effects == s.effects + [Accepted(ret)]
    ensures !s.connected && ret < 0 ==>
      var t := AcceptPhase(s, ret);
      !t.connected && t.client == ret && t.buffer == s.buffer && t.effects == s.effects
  {
  }

  /**
   * read is attempted only with a client; a result of 0 or less drops the
   * client, closes its descriptor and leaves the buffer alone.
   */
  lemma ReadGating(s: Snapshot, rd: ReadReturn)
    requires |s.buffer| == BufferSize && rd.Valid()
    ensures !s.connected ==> ReadPhase(s, rd) == s
    ensures s.connected && rd.Count() <= 0 ==>
      var t := ReadPhase(s, rd);
      !t.connected && t.buffer == s.buffer && t.effects == s.effects + [Closed(s.client)]
  {
  }

  /**
   * A positive read of n bytes overwrites exactly buffer[0..n), keeps the
   * client, may reboot once and then always sends the 24-byte reply.
   */
  lemma PositiveRead(s: Snapshot, rd: ReadReturn)
    requires |s.buffer| == BufferSize && rd.Valid() && s.connected && rd.Count() > 0
    ensures var t := ReadPhase(s, rd);
      && t.connected && t.client == s.client
      && t.buffer[..rd.Count()] == rd.bytes
      && t.buffer[rd.Count()..] == s.buffer[rd.Count()..]
      && |t.effects| - |s.effects| in {1, 2}
      && t.effects[|t.effects| - 1] == Sent(s.client, Reply)
      && |Reply| == 24
      && (Reboot in t.effects[|s.effects|..] <==> CString(t.buffer) == RebootCommand)
      && Reboots(t.effects) == Reboots(s.effects) + (if CString(t.buffer) == RebootCommand then 1 else 0)
      && t.effects == s.effects + (if CString(t.buffer) == RebootCommand then [Reboot] else []) + [Sent(s.client, Reply)]
  {
    var t := ReadPhase(s, rd);
    var buf := Overwrite(s.buffer, rd.bytes);
    RebootTest(buf);
    var d := Dispatch(s.client, buf);
    assert t.effects[|s.effects|..] == d;
    RebootsAppend(s.effects, d);
    if CString(buf) == RebootCommand {
      assert d == [Reboot] + [Sent(s.client, Reply)];
      assert Reboots(d) == Reboots([Reboot]) + Reboots([Sent(s.client, Reply)]) by {
        RebootsAppend([Reboot], [Sent(s.client, Reply)]);
      }
    } else {
      assert d == [Sent(s.client, Reply)];
    }
  }

  /** The loop invariant survives each phase and hence each iteration. */
  lemma IterationKeepsInv(s: Snapshot, ev: Event)
    requires Inv(s) && ev.read.Valid()
    ensures Inv(Iteration(s, ev))
  {
    AcceptPhaseKeepsInv(s, ev.acceptResult);
    ReadPhaseKeepsInv(AcceptPhase(s, ev.acceptResult), ev.read);
  }

  lemma AcceptPhaseKeepsInv(s: Snapshot, ret: int)
    requires Inv(s)
    ensures Inv(AcceptPhase(s, ret))
  {
    if !s.connected && ret >= 0 {
      DisciplinedAppend(s.effects, Accepted(ret));
    }
  }

  lemma ReadPhaseKeepsInv(s: Snapshot, rd: ReadReturn)
    requires Inv(s) && rd.Valid()
    ensures Inv(ReadPhase(s, rd))
  {
    if s.connected {
      if rd.Count() <= 0 {
        DisciplinedAppend(s.effects, Closed(s.client));
      } else {
        var buf := Overwrite(s.buffer, rd.bytes);
        var log := s.effects;
        if StrCmp(buf, RebootLiteral, 0) == 0 {
          DisciplinedAppend(log, Reboot);
          log := log + [Reboot];
        }
        DisciplinedAppend(log, Sent(s.client, Reply));
        assert log + [Sent(s.client, Reply)] == s.effects + Dispatch(s.client, buf);
      }
    }
  }

  lemma {:induction false} RunKeepsInv(s: Snapshot, events: seq<Event>)
    requires Inv(s) && AllValid(events)
    ensures Inv(Run(s, events))
    decreases |events|
  {
    if events != [] {
      var init := events[..|events| - 1];
      RunKeepsInv(s, init);
      IterationKeepsInv(Run(s, init), events[|events| - 1]);
    }
  }

  /**
   * Whatever the environment does, the log never holds two clients at once:
   * no accept happens while a client is held.
   */
  lemma SingleClient(events: seq<Event>)
    requires AllValid(events)
    ensures var log := Run(Initial(), events).effects;
      forall k | 0 <= k <= |log| :: 0 <= Held(log[..k]) <= 1
  {
    RunKeepsInv(Initial(), events);
    AtMostOneClient(Run(Initial(), events).effects);
  }

  /**
   * With a payload of 12 bytes or more the reboot decision depends on the
   * payload alone: its first 12 bytes must be "sudo reboot" and a NUL.
   */
  lemma LongPayloadDecides(buf: seq<bv8>, data: seq<bv8>)
    requires |buf| == BufferSize && 12 <= |data| <= BufferSize
    ensures StrCmp(Overwrite(buf, data), RebootLiteral, 0) == 0 <==> data[..12] == RebootLiteral
  {
    var b := Overwrite(buf, data);
    assert b[..12] == data[..12];
  }

  /**
   * A payload shorter than the command's 12 bytes is completed by stale bytes:
   * the reboot fires iff payload and old tail together spell the command and NUL.
   */
  lemma ShortPayloadUsesStaleTail(buf: seq<bv8>, data: seq<bv8>)
    requires |buf| == BufferSize && 0 < |data| < 12
    ensures StrCmp(Overwrite(buf, data), RebootLiteral, 0) == 0 <==> data + buf[|data|..12] == RebootLiteral
  {
    var b := Overwrite(buf, data);
    assert b[..12] == data + buf[|data|..12];
  }

  // ---------------------------------------------------------------------
  // Scenarios
  // ---------------------------------------------------------------------

  /** "hello world!" in ASCII: twelve bytes, no NUL. */
  const HelloWorld: seq<bv8> := [0x68, 0x65, 0x6C, 0x6C, 0x6F, 0x20, 0x77, 0x6F, 0x72, 0x6C, 0x64, 0x21]

  /**
   * A client connects and sends "sudo reboot" without a terminator: the zero
   * bytes the buffer started with terminate it, so the reboot fires, and the
   * reply is still sent afterwards with the connection kept.
   */
  lemma FirstCommandReboots(fd: int)
    requires fd >= 0
    ensures var t := Iteration(Initial(), Event(fd, Data(RebootCommand)));
      t.connected && t.effects == [Accepted(fd), Reboot, Sent(fd, Reply)]
  {
    var a := AcceptPhase(Initial(), fd);
    var buf := Overwrite(a.buffer, RebootCommand);
    RebootTest(buf);
    assert buf[..11] == RebootCommand;
  }

  /**
   * After "hello world!", the same client's "sudo reboot" lands on top of its
   * tail: the buffer reads "sudo reboot!" and the reboot does not fire.
   */
  lemma StaleTailMasksCommand(s: Snapshot)
    requires Inv(s) && s.connected
    ensures var s1 := ReadPhase(s, Data(HelloWorld));
      var s2 := ReadPhase(s1, Data(RebootCommand));
      s2.connected && s2.effects == s.effects + [Sent(s.client, Reply), Sent(s.client, Reply)]
  {
    var b1 := Overwrite(s.buffer, HelloWorld);
    RebootTest(b1);
    assert b1[11] == 0x21;
    var b2 := Overwrite(b1, RebootCommand);
    RebootTest(b2);
    assert b2[11] == 0x21;
  }

  /**
   * After "sudo reboot", a later "sudo rebo" reuses the stale "ot" and NUL:
   * the truncated command reboots again.
   */
  lemma TruncatedCommandReboots(s: Snapshot)
    requires Inv(s) && s.connected && s.buffer[11] == 0
    ensures var s1 := ReadPhase(s, Data(RebootCommand));
      var s2 := ReadPhase(s1, Data(RebootCommand[..9]));
      s2.effects == s1.effects + [Reboot, Sent(s.client, Reply)]
  {
    var b1 := Overwrite(s.buffer, RebootCommand);
    var b2 := Overwrite(b1, RebootCommand[..9]);
    RebootTest(b2);
    assert b2[..11] == RebootCommand;
  }

  /**
   * A second peer is not accepted while one is held; once the held one's read
   * reports end of stream, the next iteration accepts the waiting peer,
   * whatever its first read then returns.
   */
  lemma SecondPeerWaits(s: Snapshot, other: int, later: ReadReturn)
    requires Inv(s) && s.connected && other >= 0 && later.Valid()
    ensures var t1 := Iteration(s, Event(other, EndOrError(0)));
      var a := AcceptPhase(t1, other);
      var t2 := Iteration(t1, Event(other, later));
      && !t1.connected && t1.effects == s.effects + [Closed(s.client)]
      && a.connected && a.client == other && a.effects == t1.effects + [Accepted(other)]
      && t2.client == other && (t2.connected <==> later.Data?)
      && t2.effects[..|t1.effects| + 1] == t1.effects + [Accepted(other)]
  {
    var t1 := Iteration(s, Event(other, EndOrError(0)));
    var a := AcceptPhase(t1, other);
    assert a.effects == t1.effects + [Accepted(other)];
    var t2 := ReadPhase(a, later);
    assert t2.effects[..|a.effects|] == a.effects;
  }

  // ---------------------------------------------------------------------
  // The server as the program holds it
  // ---------------------------------------------------------------------

  class Server {
    /** network_connected_flag */
    var connected: bool
    /** clientSocket */
    var clientSocket: int
    /** char buffer[BUFFER_SIZE] */
    var buffer: array<bv8>
    /** What the program has done to the outside world so far. */
    ghost var effects: seq<Effect>

    ghost function State(): Snapshot
      reads this, buffer
    {
      Snapshot(connected, clientSocket, buffer[..], effects)
    }

    ghost predicate Valid()
      reads this, buffer
    {
      buffer.Length == BufferSize && Inv(State())
    }

    constructor ()
      ensures Valid() && fresh(buffer)
      ensures State() == Initial()
    {
      connected := false;
      clientSocket := -1;
      buffer := new bv8[BufferSize](_ => 0);
      effects := [];
      new;
      assert buffer[..] == Initial().buffer;
    }

    /** Lines 166-173: try to take a client when none is held. */
    method TryAccept(ret: int)
      requires Valid()
      modifies this
      ensures Valid() && buffer == old(buffer)
      ensures State() == AcceptPhase(old(State()), ret)
    {
      ghost var s := State();
      if !connected {
        clientSocket := ret;
        if ret >= 0 {
          connected := true;
          effects := effects + [Accepted(ret)];
        }
      }
      assert State() == AcceptPhase(s, ret);
      AcceptPhaseKeepsInv(s, ret);
    }

    /** Lines 193-227: read, then drop the client or dispatch and reply. */
    method TryRead(rd: ReadReturn)
      requires Valid() && rd.Valid()
      modifies this, buffer
      ensures Valid() && buffer == old(buffer)
      ensures State() == ReadPhase(old(State()), rd)
    {
      ghost var s := State();
      if connected {
        var n := rd.Count();
        if n <= 0 {
          connected := false;
          effects := effects + [Closed(clientSocket)];
        } else {
          var data := rd.bytes;
          forall i | 0 <= i < n {
            buffer[i] := data[i];
          }
          assert buffer[..] == Overwrite(s.buffer, data);
          if StrCmp(buffer[..], RebootLiteral, 0) == 0 {
            effects := effects + [Reboot];
          }
          effects := effects + [Sent(clientSocket, Reply)];
        }
      }
      assert State() == ReadPhase(s, rd);
      ReadPhaseKeepsInv(s, rd);
    }

    /** One pass of the `while (true)` body. */
    method Step(ev: Event)
      requires Valid() && ev.read.Valid()
      modifies this, buffer
      ensures Valid() && buffer == old(buffer)
      ensures State() == Iteration(old(State()), ev)
    {
      TryAccept(ev.acceptResult);
      TryRead(ev.read);
    }

    /** The loop, run for as many iterations as there are events. */
    method Serve(events: seq<Event>)
      requires Valid() && AllValid(events)
      modifies this, buffer
      ensures Valid() && buffer == old(buffer)
      ensures State() == Run(old(State()), events)
    {
      for i := 0 to |events|
        invariant Valid() && buffer == old(buffer)
        invariant State() == Run(old(State()), events[..i])
      {
        assert events[..i + 1][..i] == events[..i];
        Step(events[i]);
      }
      assert events[..|events|] == events;
    }
  }
}
