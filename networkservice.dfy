// The reactor's socket and registration bookkeeping: a physical socket's
// connection state and event mask, its buffer send and receive loops, event
// dispatchers, and the select-based wait that prunes and dispatches them.

module NetworkServices {
  import opened Bytes
  import opened MemBuffers
  import opened SocketEvents
  import opened Lists

  /** A socket's connection state. */
  datatype ConnState = CsClosed | CsConnecting | CsConnected

  /** What a failing socket call returns. */
  const SOCKET_ERROR: int := -1

  /** The error code of a connect on a socket that is not closed (Linux's EALREADY). */
  const EALREADY: int := 114

  /** A signal a physical socket raises to its owner. */
  datatype Signal = SignalConnect | SignalRead | SignalWrite

  /**
   * A physical socket: whether it holds a valid descriptor, whether it is a
   * datagram socket, its connection state, its enabled events, the last
   * error, and the signals raised so far.
   */
  datatype SockState = SockState(valid: bool, udp: bool, state: ConnState, events: Mask, error: int, signals: seq<Signal>)

  /** A socket wrapping a descriptor: closed with no events if it is invalid, else connected for READ and WRITE. */
  function NewSocket(valid: bool, dgram: bool): SockState
  {
    SockState(valid, valid && dgram, if valid then CsConnected else CsClosed, if valid then {EvRead, EvWrite} else {}, 0, [])
  }

  /** Whether the socket counts as closed for its dispatcher. */
  predicate SignalClosed(s: SockState)
  {
    !s.valid || s.state == CsClosed
  }

  /** Closing: nothing to do without a descriptor; otherwise closed, no events, and the close call's result. */
  function AfterClose(s: SockState, sys: SysResult): (SockState, int)
  {
    if !s.valid then (s, 0)
    else (s.(valid := false, state := CsClosed, events := {}, error := sys.error), sys.res)
  }

  /**
   * Creating the descriptor (sys is the socket call: a negative result is an
   * invalid descriptor): the old one is closed first, and a datagram socket
   * is connected for READ and WRITE at once.
   */
  function AfterCreate(s: SockState, dgram: bool, sys: SysResult): (SockState, bool)
  {
    var c := AfterClose(s, sys).0.(valid := sys.res >= 0, udp := dgram, error := sys.error);
    (if dgram then c.(events := {EvRead, EvWrite}, state := CsConnected) else c, sys.res >= 0)
  }

  /**
   * Connecting from the closed state: a stream descriptor is created first if
   * there is none; a successful connect connects, a would-block one starts
   * connecting with CONNECT enabled, and either way READ and WRITE are enabled.
   */
  function AfterDoConnect(s: SockState, create: SysResult, conn: SysResult): (SockState, int)
  {
    var made := if s.valid then (s, true) else AfterCreate(s, false, create);
    if !made.1 then (made.0, SOCKET_ERROR)
    else
      var c := made.0.(error := conn.error);
      if conn.res == 0 then (c.(state := CsConnected, events := c.events + {EvRead, EvWrite}), 0)
      else if conn.blocking then (c.(state := CsConnecting, events := c.events + {EvConnect} + {EvRead, EvWrite}), 0)
      else (c, SOCKET_ERROR)
  }

  function AfterConnect(s: SockState, create: SysResult, conn: SysResult): (SockState, int)
  {
    if s.state != CsClosed then (s.(error := EALREADY), SOCKET_ERROR) else AfterDoConnect(s, create, conn)
  }

  /** Listening: on success the socket is connecting with ACCEPT enabled. */
  function AfterListen(s: SockState, sys: SysResult): (SockState, int)
  {
    var c := s.(error := sys.error);
    (if sys.res == 0 then c.(state := CsConnecting, events := c.events + {EvAccept}) else c, sys.res)
  }

  /** One send call: WRITE is enabled again whatever it returned. */
  function AfterSend(s: SockState, sys: SysResult): (SockState, int)
  {
    (s.(error := sys.error, events := s.events + {EvWrite}), sys.res)
  }

  /** One recv call: READ is enabled again after data or a would-block error (always for datagrams), not after end of stream. */
  function AfterRecv(s: SockState, sys: SysResult): (SockState, int)
  {
    var c := s.(error := sys.error);
    if sys.res == 0 then (c, 0)
    else
      var success := sys.res > 0 || sys.blocking;
      (if c.udp || success then c.(events := c.events + {EvRead}) else c, sys.res)
  }

  /** One delivered bit: cleared from the enabled events, and its signal raised. */
  function Deliver(s: SockState, ff: Mask, e: Event, sig: Signal): SockState
  {
    s.(events := s.events - (ff * {e}), signals := s.signals + Raised(ff, e, sig))
  }

  /** The socket after the signalling stages of OnEvent: CONNECT, ACCEPT, READ, WRITE, in that order. */
  function Delivered(s: SockState, ff: Mask): SockState
  {
    Deliver(Deliver(Deliver(Deliver(s, ff, EvConnect, SignalConnect), ff, EvAccept, SignalRead), ff, EvRead, SignalRead), ff, EvWrite, SignalWrite)
  }

  /** Handling an event mask: CONNECT, ACCEPT, READ, WRITE in that order (see Delivered), then a close on CLOSE. */
  function AfterOnEvent(s: SockState, ff: Mask, closeSys: SysResult): SockState
  {
    var s4 := Delivered(s, ff);
    if EvClose in ff then AfterClose(s4, closeSys).0 else s4
  }

  /** The signals a mask raises, in order: accept and read both raise a read signal. */
  function SignalsFor(ff: Mask): seq<Signal>
  {
    (if EvConnect in ff then [SignalConnect] else []) + (if EvAccept in ff then [SignalRead] else []) +
    (if EvRead in ff then [SignalRead] else []) + (if EvWrite in ff then [SignalWrite] else [])
  }

  // ----- lemmas about the socket's transitions -----

  /** A valid descriptor starts connected for READ and WRITE; an invalid one closed with no events. */
  lemma NewSocketState(valid: bool, dgram: bool)
    ensures var s := NewSocket(valid, dgram);
      (s.state == CsClosed <==> !valid) && (s.events == {} <==> !valid) &&
      (valid ==> s.state == CsConnected && EvRead in s.events && EvWrite in s.events) &&
      SignalClosed(s) == !valid
  {
  }

  /** Closing twice is closing once: the second close returns 0 and changes nothing. */
  lemma CloseIdempotent(s: SockState, a: SysResult, b: SysResult)
    ensures var t := AfterClose(s, a).0;
      AfterClose(t, b) == (t, 0) && !t.valid && SignalClosed(t) &&
      (s.valid ==> t.state == CsClosed && t.events == {} && t.error == a.error) &&
      (!s.valid ==> t == s)
  {
  }

  /** Connecting a socket that is not closed fails with EALREADY and changes nothing else. */
  lemma ConnectWhenNotClosed(s: SockState, create: SysResult, conn: SysResult)
    requires s.state != CsClosed
    ensures AfterConnect(s, create, conn) == (s.(error := EALREADY), SOCKET_ERROR)
  {
  }

  /**
   * Connecting a closed socket succeeds exactly when a descriptor is there or
   * could be created and the connect succeeded or would block; success
   * connects or starts connecting with CONNECT enabled, and enables READ and
   * WRITE.
   */
  lemma ConnectOutcomes(s: SockState, create: SysResult, conn: SysResult)
    requires s.state == CsClosed
    ensures var (t, r) := AfterConnect(s, create, conn);
      (r == 0 || r == SOCKET_ERROR) &&
      (r == 0 <==> (s.valid || create.res >= 0) && (conn.res == 0 || conn.blocking)) &&
      (r == 0 ==> t.valid && EvRead in t.events && EvWrite in t.events && t.error == conn.error) &&
      (r == 0 && conn.res == 0 ==> t.state == CsConnected) &&
      (r == 0 && conn.res != 0 ==> t.state == CsConnecting && EvConnect in t.events) &&
      (!s.valid && create.res < 0 ==> !t.valid && t.error == create.error)
  {
    if !s.valid {
      assert AfterCreate(s, false, create).0.udp == false;
    }
  }

  /** A successful listen starts connecting with ACCEPT added; a failed one only records the error. */
  lemma ListenOutcomes(s: SockState, sys: SysResult)
    ensures var (t, r) := AfterListen(s, sys);
      r == sys.res && t.error == sys.error && t.valid == s.valid && t.signals == s.signals &&
      (r == 0 ==> t.state == CsConnecting && t.events == s.events + {EvAccept}) &&
      (r != 0 ==> t.state == s.state && t.events == s.events)
  {
  }

  /**
   * Handling a mask raises the signals of its CONNECT, ACCEPT, READ and WRITE
   * bits in that order and clears exactly those bits from the enabled events;
   * a CLOSE bit then closes the socket.
   */
  lemma OnEventOrder(s: SockState, ff: Mask, closeSys: SysResult)
    ensures var t := AfterOnEvent(s, ff, closeSys);
      t.signals == s.signals + SignalsFor(ff) &&
      (EvClose in ff && s.valid ==> !t.valid && t.state == CsClosed && t.events == {}) &&
      (!(EvClose in ff && s.valid) ==> (t.valid == s.valid && t.state == s.state &&
         t.events == s.events - (ff - {EvClose})))
  {
    var s4 := Delivered(s, ff);
    DeliveredFacts(s, ff);
    assert AfterOnEvent(s, ff, closeSys) == if EvClose in ff then AfterClose(s4, closeSys).0 else s4;
  }

  lemma DeliveredFacts(s: SockState, ff: Mask)
    ensures var t := Delivered(s, ff);
      t.signals == s.signals + SignalsFor(ff) && t.valid == s.valid && t.state == s.state &&
      t.events == s.events - (ff - {EvClose})
  {
    var s1 := Deliver(s, ff, EvConnect, SignalConnect);
    var s2 := Deliver(s1, ff, EvAccept, SignalRead);
    var s3 := Deliver(s2, ff, EvRead, SignalRead);
    var a, b, c, d := Raised(ff, EvConnect, SignalConnect), Raised(ff, EvAccept, SignalRead), Raised(ff, EvRead, SignalRead), Raised(ff, EvWrite, SignalWrite);
    assert s1.signals == s.signals + a;
    assert s2.signals == s.signals + a + b;
    assert s3.signals == s.signals + a + b + c;
    assert Delivered(s, ff).signals == s.signals + a + b + c + d;
    assert SignalsFor(ff) == a + b + c + d;
    assert s.signals + a + b + c + d == s.signals + (a + b + c + d);
    DeliveredEvents(s, ff);
  }

  /** The signal one stage raises. */
  function Raised(ff: Mask, e: Event, sig: Signal): seq<Signal>
  {
    if e in ff then [sig] else []
  }

  lemma DeliveredEvents(s: SockState, ff: Mask)
    ensures Delivered(s, ff).events == s.events - (ff - {EvClose})
  {
    var s1 := Deliver(s, ff, EvConnect, SignalConnect);
    var s2 := Deliver(s1, ff, EvAccept, SignalRead);
    var s3 := Deliver(s2, ff, EvRead, SignalRead);
    DeliverClears(s, ff, EvConnect, SignalConnect);
    DeliverClears(s1, ff, EvAccept, SignalRead);
    DeliverClears(s2, ff, EvRead, SignalRead);
    DeliverClears(s3, ff, EvWrite, SignalWrite);
    forall x ensures x in Delivered(s, ff).events <==> x in s.events - (ff - {EvClose}) {
      match x
      case EvRead =>
      case EvWrite =>
      case EvConnect =>
      case EvClose =>
      case EvAccept =>
    }
  }

  lemma DeliverClears(s: SockState, ff: Mask, e: Event, sig: Signal)
    ensures forall x :: x in Deliver(s, ff, e, sig).events <==> x in s.events && !(x == e && e in ff)
    ensures Deliver(s, ff, e, sig).valid == s.valid && Deliver(s, ff, e, sig).state == s.state
  {
  }

  /** A recv that hit end of stream does not enable READ; data or a would-block error does. */
  lemma RecvRearms(s: SockState, sys: SysResult)
    ensures var (t, r) := AfterRecv(s, sys);
      r == sys.res && t.error == sys.error &&
      (EvRead in t.events <==> EvRead in s.events || (sys.res != 0 && (s.udp || sys.res > 0 || sys.blocking)))
  {
  }

  // ----- sending and receiving a memory buffer -----

  /** What the buffer send loop did: the bytes sent, the blocks left, and the send calls made. */
  datatype Sent = Sent(total: nat, rest: seq<Block>, calls: nat)

  /**
   * sends[j] is what the send call for the j-th block returns, if the loop
   * gets that far: -1 or at most the length of that block.
   */
  predicate SendsInRange(bs: seq<Block>, sends: seq<SysResult>)
  {
    |sends| == |bs| && forall j :: 0 <= j < |bs| ==> -1 <= sends[j].res <= |bs[j].data|
  }

  /**
   * The send loop: a block sent whole is erased and the loop goes on; a
   * partial send drops the sent bytes from the block and stops; an error or
   * a send of nothing stops.
   */
  function SendBlocks(bs: seq<Block>, sends: seq<SysResult>): (r: Sent)
    requires SendsInRange(bs, sends)
    ensures r.calls <= |bs|
    decreases |bs|
  {
    if bs == [] then Sent(0, [], 0)
    else
      var sent := sends[0].res;
      if sent == |bs[0].data| then
        var r := SendBlocks(bs[1..], sends[1..]);
        Sent(sent + r.total, r.rest, r.calls + 1)
      else if sent > 0 then Sent(sent, [BlockReadBytes(bs[0], sent).0] + bs[1..], 1)
      else Sent(0, bs, 1)
  }

  /** The bytes sent are the front of the buffer's contents and the blocks left hold the rest. */
  lemma {:induction false} SendBlocksDrops(bs: seq<Block>, sends: seq<SysResult>)
    requires SendsInRange(bs, sends)
    ensures var r := SendBlocks(bs, sends);
      r.total <= |Flatten(bs)| && Flatten(r.rest) == Flatten(bs)[r.total..]
    decreases |bs|
  {
    if bs != [] {
      var sent := sends[0].res;
      FlattenCons(bs[0], bs[1..]);
      assert [bs[0]] + bs[1..] == bs;
      if sent == |bs[0].data| {
        SendBlocksDrops(bs[1..], sends[1..]);
      } else if sent > 0 {
        var b := BlockReadBytes(bs[0], sent).0;
        FlattenCons(b, bs[1..]);
      }
    }
  }

  /** The blocks left still fit. */
  lemma {:induction false} SendBlocksFit(bs: seq<Block>, sends: seq<SysResult>)
    requires SendsInRange(bs, sends) && AllFit(bs)
    ensures AllFit(SendBlocks(bs, sends).rest)
    decreases |bs|
  {
    if bs != [] {
      var sent := sends[0].res;
      if sent == |bs[0].data| {
        assert AllFit(bs[1..]);
        SendBlocksFit(bs[1..], sends[1..]);
      } else if sent > 0 {
        var rest := [BlockReadBytes(bs[0], sent).0] + bs[1..];
        assert forall j :: 1 <= j < |rest| ==> rest[j] == bs[j];
      }
    }
  }

  /**
   * The blocks erased were each sent whole, and a loop that left blocks
   * stopped at the first short send: the front block left is that block
   * without its sent bytes; the others are untouched. Every erased block
   * took one call, and stopping took one more.
   */
  lemma {:induction false} SendBlocksStops(bs: seq<Block>, sends: seq<SysResult>)
    requires SendsInRange(bs, sends)
    ensures var r := SendBlocks(bs, sends);
      var d := |bs| - |r.rest|;
      |r.rest| <= |bs| && (forall j :: 0 <= j < d ==> sends[j].res == |bs[j].data|) &&
      r.calls == (if r.rest == [] then |bs| else d + 1) &&
      (r.rest != [] ==> (sends[d].res < |bs[d].data| && r.rest[1..] == bs[d + 1..] &&
         r.rest[0] == (if sends[d].res > 0 then BlockReadBytes(bs[d], sends[d].res).0 else bs[d])))
    decreases |bs|
  {
    if bs != [] && sends[0].res == |bs[0].data| {
      SendBlocksStops(bs[1..], sends[1..]);
      var r := SendBlocks(bs[1..], sends[1..]);
      assert SendBlocks(bs, sends).rest == r.rest;
      forall j | 0 <= j < |bs| - |r.rest| ensures sends[j].res == |bs[j].data| {
        if j > 0 {
          assert bs[1..][j - 1] == bs[j] && sends[1..][j - 1] == sends[j];
        }
      }
      if r.rest != [] {
        var d := |bs| - |r.rest|;
        assert bs[1..][d - 1] == bs[d] && sends[1..][d - 1] == sends[d] && bs[1..][d..] == bs[d + 1..];
      }
    }
  }

  /** Dropping the first block and its send result keeps the sends in range. */
  lemma SendsInRangeRest(bs: seq<Block>, sends: seq<SysResult>)
    requires SendsInRange(bs, sends) && bs != []
    ensures SendsInRange(bs[1..], sends[1..])
  {
    forall j | 0 <= j < |bs| - 1 ensures -1 <= sends[1..][j].res <= |bs[1..][j].data| {
      assert sends[1..][j] == sends[j + 1] && bs[1..][j] == bs[j + 1];
    }
  }

  /** A buffer that was consistent stays consistent, and loses the bytes sent from its front. */
  lemma SendBufferKept(bs: seq<Block>, sends: seq<SysResult>, size: int)
    requires SendsInRange(bs, sends) && size == |Flatten(bs)| && AllFit(bs)
    ensures var r := SendBlocks(bs, sends);
      size - r.total == |Flatten(r.rest)| && AllFit(r.rest) && Flatten(r.rest) == Flatten(bs)[r.total..]
  {
    SendBlocksDrops(bs, sends);
    SendBlocksFit(bs, sends);
  }

  /** One step of the send loop, as SendBlocks takes it. */
  lemma SendBlocksStep(bs: seq<Block>, sends: seq<SysResult>)
    requires SendsInRange(bs, sends) && bs != []
    ensures SendsInRange(bs[1..], sends[1..])
    ensures var sent := sends[0].res;
      SendBlocks(bs, sends) ==
        if sent == |bs[0].data| then SentAfter(sent, 1, SendBlocks(bs[1..], sends[1..]))
        else if sent > 0 then Sent(sent, [BlockReadBytes(bs[0], sent).0] + bs[1..], 1)
        else Sent(0, bs, 1)
  {
    SendsInRangeRest(bs, sends);
  }

  /** A loop outcome preceded by res bytes already sent in k calls. */
  function SentAfter(res: nat, k: nat, r: Sent): Sent
  {
    Sent(res + r.total, r.rest, k + r.calls)
  }

  /** The socket after the given send calls, in order. */
  function AfterSends(s: SockState, rs: seq<SysResult>): SockState
  {
    if rs == [] then s else AfterSend(AfterSends(s, rs[..|rs| - 1]), rs[|rs| - 1]).0
  }

  /** The socket after the given recv calls, in order. */
  function AfterRecvs(s: SockState, rs: seq<SysResult>): SockState
  {
    if rs == [] then s else AfterRecv(AfterRecvs(s, rs[..|rs| - 1]), rs[|rs| - 1]).0
  }

  /** Any send call enables WRITE and leaves the last call's error; none changes nothing. */
  lemma {:induction false} SendsRearm(s: SockState, rs: seq<SysResult>)
    ensures var t := AfterSends(s, rs);
      (rs == [] ==> t == s) &&
      (rs != [] ==> t == s.(events := s.events + {EvWrite}, error := rs[|rs| - 1].error))
  {
    if rs != [] {
      SendsRearm(s, rs[..|rs| - 1]);
    }
  }

  /**
   * rs[j] is what the j-th recv call of the buffer receive loop returns and
   * data[j] the bytes it stores: every call but the last fills a whole block,
   * the last does not, and no call stores more than a block.
   */
  predicate ReadsWellFormed(rs: seq<SysResult>, data: seq<seq<byte>>)
  {
    |rs| > 0 && |data| == |rs| &&
    (forall j :: 0 <= j < |rs| - 1 ==> rs[j].res == DEFAULT_BLOCK_SIZE) &&
    rs[|rs| - 1].res < DEFAULT_BLOCK_SIZE &&
    (forall j :: 0 <= j < |rs| ==> (rs[j].res > 0 ==> |data[j]| == rs[j].res))
  }

  /** The first n chunks as fresh blocks, in order. */
  function FullBlocks(data: seq<seq<byte>>, n: nat): seq<Block>
    requires n <= |data|
  {
    if n == 0 then [] else FullBlocks(data, n - 1) + [Block(data[n - 1], false)]
  }

  /** The blocks the receive loop appends: a block per full read, and one for a last read with data. */
  function RecvBlocks(rs: seq<SysResult>, data: seq<seq<byte>>): seq<Block>
    requires ReadsWellFormed(rs, data)
  {
    var n := |rs| - 1;
    FullBlocks(data, n) + (if rs[n].res > 0 then [Block(data[n], false)] else [])
  }

  /**
   * What the receive loop returns: the bytes appended if the last read got
   * data; 0 at end of stream; on a would-block error the bytes appended
   * before it, or -1 if there were none; -1 on any other error.
   */
  function RecvSize(rs: seq<SysResult>): int
    requires |rs| > 0
  {
    var n := |rs| - 1;
    var last := rs[n];
    if last.res > 0 then DEFAULT_BLOCK_SIZE * n + last.res
    else if last.res == 0 then 0
    else if last.blocking && n > 0 then DEFAULT_BLOCK_SIZE * n
    else -1
  }

  lemma {:induction false} FullBlocksFacts(data: seq<seq<byte>>, n: nat)
    requires n <= |data| && forall j :: 0 <= j < n ==> |data[j]| == DEFAULT_BLOCK_SIZE
    ensures |Flatten(FullBlocks(data, n))| == DEFAULT_BLOCK_SIZE * n && AllFit(FullBlocks(data, n))
  {
    if n > 0 {
      FullBlocksFacts(data, n - 1);
      FlattenAppend(FullBlocks(data, n - 1), [Block(data[n - 1], false)]);
      FlattenSingle(Block(data[n - 1], false));
    }
  }

  /**
   * The loop's result: positive exactly when the last read got data or
   * would block after data, and then the number of bytes appended; 0 exactly
   * at end of stream; -1 exactly on an error with nothing appended before it
   * or on a hard error. The bytes of full reads stay appended whatever the
   * result.
   */
  lemma RecvOutcomes(rs: seq<SysResult>, data: seq<seq<byte>>)
    requires ReadsWellFormed(rs, data)
    ensures var r := RecvSize(rs);
      var n := |rs| - 1;
      var last := rs[n];
      var got := |Flatten(RecvBlocks(rs, data))|;
      AllFit(RecvBlocks(rs, data)) &&
      got == DEFAULT_BLOCK_SIZE * n + (if last.res > 0 then last.res else 0) &&
      (r > 0 <==> last.res > 0 || (last.res < 0 && last.blocking && n > 0)) &&
      (r > 0 ==> r == got) &&
      (r == 0 <==> last.res == 0) &&
      (r == -1 <==> last.res < 0 && (!last.blocking || n == 0)) &&
      r >= -1
  {
    var n := |rs| - 1;
    FullBlocksFacts(data, n);
    if rs[n].res > 0 {
      FlattenAppend(FullBlocks(data, n), [Block(data[n], false)]);
      FlattenSingle(Block(data[n], false));
    } else {
      assert RecvBlocks(rs, data) == FullBlocks(data, n);
    }
  }

  // ----- the physical socket -----

  class PhysicalSocket {
    var valid: bool
    var udp: bool
    var state: ConnState
    var events: Mask
    var error: int
    var signals: seq<Signal>

    function State(): SockState
      reads this
    {
      SockState(valid, udp, state, events, error, signals)
    }

    /** Wraps a descriptor; dgram is the socket type the descriptor reports. */
    constructor(valid: bool, dgram: bool)
      ensures State() == NewSocket(valid, dgram)
    {
      this.valid := valid;
      udp := valid && dgram;
      state := if valid then CsConnected else CsClosed;
      events := if valid then {EvRead, EvWrite} else {};
      error := 0;
      signals := [];
    }

    method Create(dgram: bool, sys: SysResult) returns (ok: bool)
      modifies this
      ensures (State(), ok) == AfterCreate(old(State()), dgram, sys)
    {
      var _ := Close(sys);
      valid := sys.res >= 0;
      udp := dgram;
      error := sys.error;
      if udp {
        events := {EvRead, EvWrite};
        state := CsConnected;
      }
      ok := valid;
    }

    method Connect(create: SysResult, conn: SysResult) returns (r: int)
      modifies this
      ensures (State(), r) == AfterConnect(old(State()), create, conn)
    {
      if state != CsClosed {
        error := EALREADY;
        return SOCKET_ERROR;
      }
      r := DoConnect(create, conn);
    }

    method DoConnect(create: SysResult, conn: SysResult) returns (r: int)
      modifies this
      ensures (State(), r) == AfterDoConnect(old(State()), create, conn)
    {
      if !valid {
        var ok := Create(false, create);
        if !ok {
          return SOCKET_ERROR;
        }
      }
      error := conn.error;
      if conn.res == 0 {
        state := CsConnected;
      } else if conn.blocking {
        state := CsConnecting;
        events := events + {EvConnect};
      } else {
        return SOCKET_ERROR;
      }
      events := events + {EvRead, EvWrite};
      r := 0;
    }

    method Listen(sys: SysResult) returns (r: int)
      modifies this
      ensures (State(), r) == AfterListen(old(State()), sys)
    {
      r := sys.res;
      error := sys.error;
      if r == 0 {
        state := CsConnecting;
        events := events + {EvAccept};
      }
    }

    method Close(sys: SysResult) returns (r: int)
      modifies this
      ensures (State(), r) == AfterClose(old(State()), sys)
    {
      if !valid {
        return 0;
      }
      r := sys.res;
      error := sys.error;
      valid := false;
      state := CsClosed;
      events := {};
    }

    method Send(sys: SysResult) returns (r: int)
      modifies this
      ensures (State(), r) == AfterSend(old(State()), sys)
    {
      r := sys.res;
      error := sys.error;
      events := events + {EvWrite};
    }

    method Recv(sys: SysResult) returns (r: int)
      modifies this
      ensures (State(), r) == AfterRecv(old(State()), sys)
    {
      r := sys.res;
      error := sys.error;
      if r == 0 {
        return;
      }
      var success := r > 0 || sys.blocking;
      if udp || success {
        events := events + {EvRead};
      }
    }

    function CheckSignalClose(): (b: bool)
      reads this
      ensures b == SignalClosed(State())
    {
      !valid || state == CsClosed
    }

    method OnEvent(ff: Mask, closeSys: SysResult)
      modifies this
      ensures State() == AfterOnEvent(old(State()), ff, closeSys)
    {
      Raise(ff, EvConnect, SignalConnect);
      Raise(ff, EvAccept, SignalRead);
      Raise(ff, EvRead, SignalRead);
      Raise(ff, EvWrite, SignalWrite);
      if EvClose in ff {
        var _ := Close(closeSys);
      }
    }

    /**
     * Sends the buffer's blocks front first (sends[j] answering the call for
     * the j-th block): whole blocks are erased, a partial send trims its
     * block and stops, an error or a send of nothing stops; the size drops by
     * the bytes sent, which are returned.
     */
    method SendBuffer(buffer: MemBuffer, sends: seq<SysResult>) returns (res: int)
      requires SendsInRange(buffer.blocks, sends)
      modifies this, buffer
      ensures var r := SendBlocks(old(buffer.blocks), sends);
        res == r.total && buffer.blocks == r.rest && buffer.size == old(buffer.size) - r.total &&
        State() == AfterSends(old(State()), sends[..r.calls])
      ensures old(buffer.Valid()) ==> buffer.Valid() && buffer.Contents() == old(buffer.Contents())[res..]
    {
      ghost var bs0 := buffer.blocks;
      res := SendBlocksLoop(buffer, sends);
      if res != 0 {
        buffer.ReduceSize(res);
      }
      if old(buffer.Valid()) {
        SendBufferKept(bs0, sends, old(buffer.size));
      }
    }

    /** The loop of SendBuffer, which leaves the size to its caller. */
    method SendBlocksLoop(buffer: MemBuffer, sends: seq<SysResult>) returns (res: int)
      requires SendsInRange(buffer.blocks, sends)
      modifies this, buffer
      ensures var r := SendBlocks(old(buffer.blocks), sends);
        res == r.total && buffer.blocks == r.rest && buffer.size == old(buffer.size) &&
        State() == AfterSends(old(State()), sends[..r.calls])
    {
      ghost var bs0 := buffer.blocks;
      ghost var s0 := State();
      ghost var target := SendBlocks(bs0, sends);
      res := 0;
      var k := 0;
      while buffer.blocks != []
        invariant 0 <= k <= |bs0| && res >= 0 && buffer.size == old(buffer.size)
        invariant State() == AfterSends(s0, sends[..k])
        invariant buffer.blocks == bs0[k..] && SendsInRange(buffer.blocks, sends[k..])
        invariant target == SentAfter(res, k, SendBlocks(buffer.blocks, sends[k..]))
        decreases |buffer.blocks|
      {
        ghost var tail := sends[k..];
        SendBlocksStep(buffer.blocks, tail);
        assert tail[1..] == sends[k + 1..];
        assert AfterSends(s0, sends[..k + 1]) == AfterSend(AfterSends(s0, sends[..k]), sends[k]).0 by {
          assert sends[..k + 1][..k] == sends[..k];
        }
        var sent, stop := SendFront(buffer, sends[k]);
        k := k + 1;
        if sent > 0 {
          res := res + sent;
        }
        if stop {
          break;
        }
      }
    }

    /**
     * Receives into fresh blocks appended to the buffer (recvs[j] answering
     * the j-th recv call, which stores data[j]) until a read does not fill a
     * whole block, and returns RecvSize of the reads.
     */
    method RecvBuffer(buffer: MemBuffer, recvs: seq<SysResult>, data: seq<seq<byte>>) returns (size: int)
      requires buffer.Valid() && ReadsWellFormed(recvs, data)
      modifies this, buffer
      ensures size == RecvSize(recvs) && buffer.blocks == old(buffer.blocks) + RecvBlocks(recvs, data)
      ensures buffer.Valid() && buffer.Contents() == old(buffer.Contents()) + Flatten(RecvBlocks(recvs, data))
      ensures State() == AfterRecvs(old(State()), recvs)
    {
      ghost var bs0 := buffer.blocks;
      ghost var s0 := State();
      size := 0;
      var k := 0;
      while true
        invariant 0 <= k < |recvs| && size == DEFAULT_BLOCK_SIZE * k
        invariant buffer.blocks == bs0 + FullBlocks(data, k) && buffer.Valid()
        invariant State() == AfterRecvs(s0, recvs[..k])
        decreases |recvs| - k
      {
        assert AfterRecvs(s0, recvs[..k + 1]) == AfterRecv(AfterRecvs(s0, recvs[..k]), recvs[k]).0 by {
          assert recvs[..k + 1][..k] == recvs[..k];
        }
        var res := Recv(recvs[k]);
        if res == DEFAULT_BLOCK_SIZE {
          buffer.AppendBlock(Block(data[k], false));
          size := size + res;
          k := k + 1;
          continue;
        } else if res > 0 {
          buffer.AppendBlock(Block(data[k], false));
          size := size + res;
          break;
        } else if res == 0 {
          // end of stream
          size := 0;
          break;
        } else {
          if recvs[k].blocking {
            if size == 0 {
              size := -1;
            }
          } else {
            size := -1;
          }
          break;
        }
      }
      assert recvs[..k + 1] == recvs;
      FlattenAppend(bs0, RecvBlocks(recvs, data));
    }

    /** One pass of the send loop: sends the front block and trims or erases it. */
    method SendFront(buffer: MemBuffer, sys: SysResult) returns (sent: int, stop: bool)
      requires buffer.blocks != [] && -1 <= sys.res <= |buffer.blocks[0].data|
      modifies this, buffer
      ensures State() == AfterSend(old(State()), sys).0 && sent == sys.res && buffer.size == old(buffer.size)
      ensures var b := old(buffer.blocks)[0];
        stop == (sent != |b.data|) &&
        buffer.blocks == (if !stop then old(buffer.blocks)[1..]
                          else if sent > 0 then [BlockReadBytes(b, sent).0] + old(buffer.blocks)[1..]
                          else old(buffer.blocks))
    {
      var b := buffer.blocks[0];
      sent := Send(sys);
      stop := true;
      if sent == |b.data| {
        buffer.blocks := buffer.blocks[1..];
        stop := false;
      } else if sent > 0 {
        buffer.blocks := [BlockReadBytes(b, sent).0] + buffer.blocks[1..];
      }
      // otherwise SOCKET_ERROR, or nothing sent
    }

    /** One stage of OnEvent: a delivered bit is cleared and its signal raised. */
    method Raise(ff: Mask, e: Event, sig: Signal)
      modifies this
      ensures State() == Deliver(old(State()), ff, e, sig)
    {
      if e in ff {
        events := events - {e};
        signals := signals + [sig];
      }
    }
  }

  // ----- event dispatchers -----

  /**
   * A socket's registration with the reactor: the socket it reports events
   * for (null once closed), the closing flag, the enabled events, whether
   * its event signal still has subscribers, and the (events, error) pairs
   * that signal has carried.
   */
  class EventDispatcher {
    var disp: PhysicalSocket?
    var eventClose: bool
    var events: Mask
    var connected: bool
    var signalled: seq<(Mask, int)>

    constructor(socket: PhysicalSocket?, events: Mask)
      ensures disp == socket && !eventClose && this.events == events && connected && signalled == []
    {
      disp := socket;
      eventClose := false;
      this.events := events;
      connected := true;
      signalled := [];
    }

    /** Marks the dispatcher closing, drops its subscribers and releases its socket. */
    method Close()
      modifies this
      ensures eventClose && !connected && disp == null && events == old(events) && signalled == old(signalled)
      ensures CheckEventClose() && !HasSocket()
    {
      eventClose := true;
      connected := false;
      disp := null;
    }

    method RemoveEvent(m: Mask)
      modifies this
      ensures events == old(events) - m
      ensures disp == old(disp) && eventClose == old(eventClose) && connected == old(connected) && signalled == old(signalled)
    {
      events := events - m;
    }

    method AddEvent(m: Mask)
      modifies this
      ensures events == old(events) + m
      ensures disp == old(disp) && eventClose == old(eventClose) && connected == old(connected) && signalled == old(signalled)
    {
      events := events + m;
    }

    /** Closing: marked so, or its socket reports itself closed. */
    predicate CheckEventClose()
      reads this, disp
    {
      eventClose || (disp != null && disp.CheckSignalClose())
    }

    method DisableEvent()
      modifies this
      ensures eventClose && disp == old(disp) && events == old(events) && connected == old(connected) && signalled == old(signalled)
      ensures CheckEventClose()
    {
      eventClose := true;
    }

    method EnableEvent()
      modifies this
      ensures !eventClose && disp == old(disp) && events == old(events) && connected == old(connected) && signalled == old(signalled)
      ensures CheckEventClose() <==> disp != null && disp.CheckSignalClose()
    {
      eventClose := false;
    }

    /** GetSocket() is not INVALID_SOCKET: there is a socket and its descriptor is valid. */
    predicate HasSocket()
      reads this, disp
    {
      disp != null && disp.valid
    }

    /**
     * Emits the event signal to the subscribers, if there still are any,
     * then hands the events to the socket, if there still is one.
     */
    method OnEvent(ff: Mask, err: int, closeSys: SysResult)
      modifies this, disp
      ensures signalled == old(signalled) + (if connected then [(ff, err)] else [])
      ensures disp == old(disp) && eventClose == old(eventClose) && events == old(events) && connected == old(connected)
      ensures disp != null ==> disp.State() == AfterOnEvent(old(disp.State()), ff, closeSys)
    {
      if connected {
        signalled := signalled + [(ff, err)];
      }
      if disp != null {
        disp.OnEvent(ff, closeSys);
      }
    }
  }

  // ----- the reactor's dispatch cycle -----

  /**
   * What one pass of Wait reads of a registered dispatcher: the dispatcher,
   * whether it is to be skipped (no valid socket, or closing), and its
   * enabled events.
   */
  datatype Entry = Entry(d: EventDispatcher, skip: bool, events: Mask)

  function Snapshot(d: EventDispatcher): Entry
    reads d, d.disp
  {
    Entry(d, !d.HasSocket() || d.CheckEventClose(), d.events)
  }

  function Snapshots(ds: seq<EventDispatcher>): (es: seq<Entry>)
    reads set d | d in ds, set d | d in ds :: d.disp
    ensures |es| == |ds|
  {
    if ds == [] then [] else [Snapshot(ds[0])] + Snapshots(ds[1..])
  }

  function Objects(es: seq<Entry>): (ds: seq<EventDispatcher>)
    ensures |ds| == |es|
  {
    if es == [] then [] else [es[0].d] + Objects(es[1..])
  }

  /** The pruning pass: entries to be skipped are erased, the others stay in order. */
  function Prune(es: seq<Entry>): seq<Entry>
  {
    if es == [] then [] else (if es[0].skip then [] else [es[0]]) + Prune(es[1..])
  }

  /** Pruning is applied to each entry on its own: it distributes over concatenation. */
  lemma {:induction false} PruneAppend(a: seq<Entry>, b: seq<Entry>)
    ensures Prune(a + b) == Prune(a) + Prune(b)
    decreases |a|
  {
    if a != [] {
      assert (a + b)[1..] == a[1..] + b;
      PruneAppend(a[1..], b);
    } else {
      assert a + b == b;
    }
  }

  /** Exactly the entries not to be skipped survive pruning. */
  lemma {:induction false} PruneKeeps(es: seq<Entry>)
    ensures forall e :: e in Prune(es) <==> e in es && !e.skip
    ensures |Prune(es)| <= |es|
    decreases |es|
  {
    if es != [] {
      PruneKeeps(es[1..]);
      assert es == [es[0]] + es[1..];
    }
  }

  /** select() on fds with the registration Wait makes: read for READ or ACCEPT, write for WRITE or CONNECT. */
  predicate WantsRead(m: Mask) { EvRead in m || EvAccept in m }
  predicate WantsWrite(m: Mask) { EvWrite in m || EvConnect in m }

  /**
   * The events to deliver to a descriptor: read-ready gives ACCEPT when
   * accepting, else CLOSE on an error code or when closing, else READ;
   * write-ready gives CONNECT or, on an error code, CLOSE when connecting,
   * else WRITE.
   */
  function Classify(readReady: bool, writeReady: bool, enabled: Mask, errcode: int, closing: bool): Mask
  {
    (if !readReady then {}
     else if EvAccept in enabled then {EvAccept}
     else if errcode != 0 || closing then {EvClose}
     else {EvRead}) +
    (if !writeReady then {}
     else if EvConnect in enabled then (if errcode == 0 then {EvConnect} else {EvClose})
     else {EvWrite})
  }

  /** Each event, and when it is delivered. */
  lemma ClassifyCases(readReady: bool, writeReady: bool, enabled: Mask, errcode: int, closing: bool)
    ensures var ff := Classify(readReady, writeReady, enabled, errcode, closing);
      (EvAccept in ff <==> readReady && EvAccept in enabled) &&
      (EvRead in ff <==> readReady && EvAccept !in enabled && errcode == 0 && !closing) &&
      (EvConnect in ff <==> writeReady && EvConnect in enabled && errcode == 0) &&
      (EvWrite in ff <==> writeReady && EvConnect !in enabled) &&
      (EvClose in ff <==> (readReady && EvAccept !in enabled && (errcode != 0 || closing)) ||
                          (writeReady && EvConnect in enabled && errcode != 0)) &&
      (ff == {} <==> !readReady && !writeReady)
  {
    var ff := Classify(readReady, writeReady, enabled, errcode, closing);
    if readReady {
      assert ff != {} by {
        if EvAccept in enabled {
          assert EvAccept in ff;
        } else if errcode != 0 || closing {
          assert EvClose in ff;
        } else {
          assert EvRead in ff;
        }
      }
    }
    if writeReady {
      assert ff != {} by {
        if EvConnect in enabled && errcode == 0 {
          assert EvConnect in ff;
        } else if EvConnect in enabled {
          assert EvClose in ff;
        } else {
          assert EvWrite in ff;
        }
      }
    }
  }

  /**
   * One select() outcome: its count (negative on error, 0 on timeout),
   * whether an error was EINTR, whether the wakeup descriptor was readable
   * or writable, the dispatchers whose descriptors were readable or
   * writable, and the SO_ERROR code each would report.
   */
  datatype Select = Select(n: int, eintr: bool, wakeRead: bool, wakeWrite: bool,
                           readable: set<EventDispatcher>, writable: set<EventDispatcher>,
                           soError: map<EventDispatcher, int>)

  predicate ReadReady(e: Entry, sel: Select) { WantsRead(e.events) && e.d in sel.readable }
  predicate WriteReady(e: Entry, sel: Select) { WantsWrite(e.events) && e.d in sel.writable }

  /** The error code reaped for an entry: asked for only when its descriptor is ready. */
  function ErrCode(e: Entry, sel: Select): int
  {
    if (ReadReady(e, sel) || WriteReady(e, sel)) && e.d in sel.soError then sel.soError[e.d] else 0
  }

  function EventsFor(e: Entry, sel: Select): Mask
  {
    Classify(ReadReady(e, sel), WriteReady(e, sel), e.events, ErrCode(e, sel), e.skip)
  }

  /** One OnEvent call the reactor makes. */
  datatype Delivery = Delivery(d: EventDispatcher, ff: Mask, err: int)

  function Receivers(out: seq<Delivery>): (ds: seq<EventDispatcher>)
    ensures |ds| == |out|
  {
    if out == [] then [] else [out[0].d] + Receivers(out[1..])
  }

  /** What the dispatch pass leaves registered and the calls it makes, in order. */
  datatype Dispatched = Dispatched(kept: seq<Entry>, out: seq<Delivery>)

  /**
   * The dispatch pass from the entry at hand with count descriptors
   * accounted for: it stops once count reaches select's count; an entry
   * to be skipped stays; an entry with events is erased and gets its
   * OnEvent call; an entry without stays.
   */
  function Dispatch(es: seq<Entry>, sel: Select, count: int): Dispatched
    decreases |es|
  {
    if es == [] || count >= sel.n then Dispatched(es, [])
    else if Called(es[0], sel) then
      var r := Dispatch(es[1..], sel, count + 1);
      Dispatched(r.kept, [Call(es[0], sel)] + r.out)
    else
      // skipped, or no events
      var r := Dispatch(es[1..], sel, count);
      Dispatched([es[0]] + r.kept, r.out)
  }

  /** Whether the dispatch pass calls an entry back when it reaches it. */
  predicate Called(e: Entry, sel: Select)
  {
    !e.skip && EventsFor(e, sel) != {}
  }

  /** The call made for an entry. */
  function Call(e: Entry, sel: Select): Delivery
  {
    Delivery(e.d, EventsFor(e, sel), ErrCode(e, sel))
  }

  /** Every entry is either kept or called back, exactly once. */
  lemma {:induction false} DispatchConserves(es: seq<Entry>, sel: Select, count: int)
    ensures var r := Dispatch(es, sel, count);
      multiset(Objects(r.kept)) + multiset(Receivers(r.out)) == multiset(Objects(es))
    decreases |es|
  {
    if es != [] && count < sel.n {
      var e := es[0];
      var sub := if Called(e, sel) then count + 1 else count;
      DispatchConserves(es[1..], sel, sub);
      var r := Dispatch(es[1..], sel, sub);
      assert multiset(Objects(es)) == multiset{e.d} + multiset(Objects(es[1..])) by {
        assert Objects(es) == [e.d] + Objects(es[1..]);
      }
      if Called(e, sel) {
        assert Dispatch(es, sel, count) == Dispatched(r.kept, [Call(e, sel)] + r.out);
        assert multiset(Receivers([Call(e, sel)] + r.out)) == multiset{e.d} + multiset(Receivers(r.out)) by {
          assert Receivers([Call(e, sel)] + r.out) == [e.d] + Receivers(r.out);
        }
      } else {
        assert Dispatch(es, sel, count) == Dispatched([e] + r.kept, r.out);
        assert multiset(Objects([e] + r.kept)) == multiset{e.d} + multiset(Objects(r.kept)) by {
          assert Objects([e] + r.kept) == [e.d] + Objects(r.kept);
        }
      }
    }
  }

  /** No more calls are made than select counted descriptors beyond count. */
  lemma {:induction false} DispatchBound(es: seq<Entry>, sel: Select, count: int)
    ensures |Dispatch(es, sel, count).out| <= (if sel.n > count then sel.n - count else 0)
    decreases |es|
  {
    if es != [] && count < sel.n {
      DispatchBound(es[1..], sel, if Called(es[0], sel) then count + 1 else count);
    }
  }

  /** Each call goes to a registered entry not to be skipped and carries its classification, which is not empty. */
  lemma {:induction false} DispatchCalls(es: seq<Entry>, sel: Select, count: int)
    ensures forall q :: q in Dispatch(es, sel, count).out ==>
      q.ff != {} && exists e :: e in es && e.d == q.d && !e.skip && q.ff == EventsFor(e, sel) && q.err == ErrCode(e, sel)
    decreases |es|
  {
    if es != [] && count < sel.n {
      DispatchCalls(es[1..], sel, if Called(es[0], sel) then count + 1 else count);
      forall e' | e' in es[1..] ensures e' in es {
      }
    }
  }

  lemma {:induction false} ReceiversHas(out: seq<Delivery>, q: Delivery)
    requires q in out
    ensures q.d in Receivers(out)
    decreases |out|
  {
    if out[0] != q {
      ReceiversHas(out[1..], q);
    }
  }

  /** A dispatcher is among an entry list's objects exactly when one of the entries is for it. */
  lemma {:induction false} ObjectsHas(es: seq<Entry>, x: EventDispatcher)
    ensures x in Objects(es) <==> exists e :: e in es && e.d == x
    decreases |es|
  {
    if es != [] {
      ObjectsHas(es[1..], x);
      assert es == [es[0]] + es[1..];
      assert Objects(es) == [es[0].d] + Objects(es[1..]);
    }
  }

  /**
   * With no dispatcher registered twice, a dispatcher is called back at most
   * once in a cycle, and one called back is no longer registered: it must be
   * added again to hear of further events.
   */
  lemma DispatchOnce(es: seq<Entry>, sel: Select, count: int)
    requires NoDuplicates(Objects(es))
    ensures var r := Dispatch(es, sel, count);
      NoDuplicates(Receivers(r.out)) && NoDuplicates(Objects(r.kept)) &&
      forall q :: q in r.out ==> q.d !in Objects(r.kept)
  {
    var r := Dispatch(es, sel, count);
    DispatchConserves(es, sel, count);
    var all := multiset(Objects(es));
    assert forall x :: all[x] <= 1 by {
      forall x ensures all[x] <= 1 {
        NoDupCount(Objects(es), x);
      }
    }
    MultisetNoDup(Receivers(r.out), all);
    MultisetNoDup(Objects(r.kept), all);
    forall q | q in r.out ensures q.d !in Objects(r.kept) {
      ReceiversHas(r.out, q);
      assert multiset(Receivers(r.out))[q.d] >= 1;
      assert multiset(Objects(r.kept))[q.d] == 0;
    }
  }

  /** In a list without duplicates, every element occurs at most once. */
  lemma {:induction false} NoDupCount<T>(s: seq<T>, x: T)
    requires NoDuplicates(s)
    ensures multiset(s)[x] <= 1
    decreases |s|
  {
    if s != [] {
      assert s == [s[0]] + s[1..];
      assert NoDuplicates(s[1..]) by {
        forall i, j | 0 <= i < j < |s| - 1 ensures s[1..][i] != s[1..][j] {
          assert s[1..][i] == s[i + 1] && s[1..][j] == s[j + 1];
        }
      }
      NoDupCount(s[1..], x);
      if s[0] == x {
        assert x !in s[1..] by {
          forall j | 0 <= j < |s| - 1 ensures s[1..][j] != x {
            assert s[1..][j] == s[j + 1];
          }
        }
      }
    }
  }

  lemma TwiceCounted<T>(s: seq<T>, i: nat, j: nat)
    requires i < j < |s| && s[i] == s[j]
    ensures multiset(s)[s[i]] >= 2
  {
    assert s == s[..i] + [s[i]] + s[i + 1..j] + [s[j]] + s[j + 1..];
  }

  /** A list whose elements occur at most once in a multiset containing it has no duplicates. */
  lemma MultisetNoDup<T>(s: seq<T>, m: multiset<T>)
    requires multiset(s) <= m && forall x :: m[x] <= 1
    ensures NoDuplicates(s)
  {
    forall i, j | 0 <= i < j < |s| ensures s[i] != s[j] {
      if s[i] == s[j] {
        TwiceCounted(s, i, j);
        assert false;
      }
    }
  }

  /** Every entry is one of the input's. */
  lemma {:induction false} DispatchKeptFrom(es: seq<Entry>, sel: Select, count: int)
    ensures forall e :: e in Dispatch(es, sel, count).kept ==> e in es
    decreases |es|
  {
    if es != [] && count < sel.n {
      DispatchKeptFrom(es[1..], sel, if Called(es[0], sel) then count + 1 else count);
      forall e | e in es[1..] ensures e in es {
      }
    }
  }

  // ----- Wait -----

  /** How one pass of the Wait loop ends: with a failure, a timeout, or by going round again. */
  datatype CycleEnd = Failed | TimedOut | Continue

  function CycleOutcome(sel: Select): CycleEnd
  {
    if sel.n < 0 then (if sel.eintr then Continue else Failed)
    else if sel.n == 0 then TimedOut
    else Continue
  }

  /** The wakeup descriptor was ready, which ends the Wait loop after this pass. */
  predicate Woken(sel: Select)
  {
    sel.n > 0 && (sel.wakeRead || sel.wakeWrite)
  }

  /** The descriptors the wakeup accounts for before the dispatch pass. */
  function WakeCount(sel: Select): int
  {
    if sel.wakeRead || sel.wakeWrite then 1 else 0
  }

  /** One pass over the registered entries: pruning, then, when select reported descriptors, dispatch. */
  function CycleRun(es: seq<Entry>, sel: Select): Dispatched
  {
    if sel.n > 0 then Dispatch(Prune(es), sel, WakeCount(sel)) else Dispatched(Prune(es), [])
  }

  predicate Stops(sel: Select)
  {
    CycleOutcome(sel) != Continue || Woken(sel)
  }

  /** What Wait returns: true or false, or nothing yet when the select outcomes given run out. */
  datatype WaitResult = Returned(ok: bool) | StillWaiting

  function WaitOutcome(sels: seq<Select>): WaitResult
  {
    if sels == [] then StillWaiting
    else if Stops(sels[0]) then Returned(CycleOutcome(sels[0]) != Failed)
    else WaitOutcome(sels[1..])
  }

  /** The registrations and the calls of the passes Wait makes. */
  function Waited(es: seq<Entry>, sels: seq<Select>): Dispatched
    decreases |sels|
  {
    if sels == [] then Dispatched(es, [])
    else
      var c := CycleRun(es, sels[0]);
      if Stops(sels[0]) then c
      else
        var w := Waited(c.kept, sels[1..]);
        Dispatched(w.kept, c.out + w.out)
  }

  /** The pass at which Wait stops, or |sels| when none of them stops it. */
  function FirstStop(sels: seq<Select>): (k: nat)
    ensures k <= |sels|
    ensures forall j :: 0 <= j < k ==> !Stops(sels[j])
    ensures k < |sels| ==> Stops(sels[k])
  {
    if sels == [] || Stops(sels[0]) then 0 else 1 + FirstStop(sels[1..])
  }

  /**
   * Wait returns false exactly when the first pass that stops it met a
   * select error other than EINTR, true when that pass timed out or was
   * woken, and nothing while no pass stops it.
   */
  lemma {:induction false} WaitOutcomeCases(sels: seq<Select>)
    ensures var k := FirstStop(sels);
      (WaitOutcome(sels) == StillWaiting <==> k == |sels|) &&
      (WaitOutcome(sels) == Returned(false) <==> k < |sels| && sels[k].n < 0 && !sels[k].eintr) &&
      (WaitOutcome(sels) == Returned(true) <==> k < |sels| && (sels[k].n == 0 || Woken(sels[k])))
  {
    if sels != [] && !Stops(sels[0]) {
      WaitOutcomeCases(sels[1..]);
      var k := FirstStop(sels[1..]);
      assert FirstStop(sels) == 1 + k;
      if k < |sels| - 1 {
        assert sels[1..][k] == sels[1 + k];
      }
    }
  }

  /** The reactor: the registered dispatchers, the loop flag of Wait, and the OnEvent calls it has made. */
  class NetworkService {
    var dispatchers: seq<EventDispatcher>
    var waiting: bool
    var calls: seq<Delivery>

    constructor()
      ensures dispatchers == [] && !waiting && calls == []
    {
      dispatchers := [];
      waiting := false;
      calls := [];
    }

    /** Registers a dispatcher at the back unless it is registered already. */
    method Add(d: EventDispatcher)
      modifies this
      ensures dispatchers == Added(old(dispatchers), d) && waiting == old(waiting) && calls == old(calls)
      ensures NoDuplicates(old(dispatchers)) ==> NoDuplicates(dispatchers)
    {
      if d !in dispatchers {
        dispatchers := dispatchers + [d];
      }
      if NoDuplicates(old(dispatchers)) {
        AddedNoDuplicates(old(dispatchers), d);
      }
    }

    /** Marks a registered dispatcher closing; the next Wait erases it. */
    method Remove(d: EventDispatcher)
      modifies d
      ensures d.eventClose == (old(d.eventClose) || d in dispatchers)
      ensures d.disp == old(d.disp) && d.events == old(d.events) && d.connected == old(d.connected) && d.signalled == old(d.signalled)
      ensures d in dispatchers ==> d.CheckEventClose()
    {
      if d in dispatchers {
        d.DisableEvent();
      }
    }

    /** Erases the dispatchers without a valid socket or closing, keeping the others in order. */
    method PruneDispatchers() returns (pruned: seq<Entry>)
      modifies this
      ensures pruned == Prune(old(Snapshots(dispatchers)))
      ensures dispatchers == Objects(pruned) && waiting == old(waiting) && calls == old(calls)
      ensures Snapshots(dispatchers) == pruned
    {
      var es := Snapshots(dispatchers);
      SnapshotsCurrent(dispatchers);
      pruned := PruneEntries(es);
      PruneKeeps(es);
      forall e | e in pruned ensures e == Snapshot(e.d) {
        assert e in es;
        SnapshotsCurrent(dispatchers);
      }
      dispatchers := Objects(pruned);
      SnapshotsObjects(pruned);
    }

    /** The dispatch pass: erases each entry with events and records its OnEvent call. */
    method DispatchReady(es: seq<Entry>, sel: Select, count: int)
      requires forall e :: e in es ==> e == Snapshot(e.d)
      modifies this
      ensures var r := Dispatch(es, sel, count);
        dispatchers == Objects(r.kept) && calls == old(calls) + r.out && waiting == old(waiting)
      ensures Snapshots(dispatchers) == Dispatch(es, sel, count).kept
    {
      var r := DispatchEntries(es, sel, count);
      DispatchKeptFrom(es, sel, count);
      dispatchers := Objects(r.kept);
      calls := calls + r.out;
      SnapshotsObjects(r.kept);
    }

    /** One pass of the Wait loop on a select outcome. */
    method Cycle(sel: Select) returns (o: CycleEnd)
      modifies this
      ensures var r := CycleRun(old(Snapshots(dispatchers)), sel);
        o == CycleOutcome(sel) && dispatchers == Objects(r.kept) && calls == old(calls) + r.out &&
        waiting == (old(waiting) && !Woken(sel))
      ensures Snapshots(dispatchers) == CycleRun(old(Snapshots(dispatchers)), sel).kept
    {
      ghost var es := Snapshots(dispatchers);
      var pruned := PruneDispatchers();
      assert pruned == Prune(es);
      if sel.n < 0 {
        o := if sel.eintr then Continue else Failed;
        assert CycleRun(es, sel) == Dispatched(pruned, []);
      } else if sel.n == 0 {
        o := TimedOut;
        assert CycleRun(es, sel) == Dispatched(pruned, []);
      } else {
        SnapshotsCurrent(dispatchers);
        DispatchCounted(pruned, sel);
        o := Continue;
      }
    }

    /** The dispatch half of a pass with a positive count: the wakeup, if reported, is counted first. */
    method DispatchCounted(es: seq<Entry>, sel: Select)
      requires forall e :: e in es ==> e == Snapshot(e.d)
      modifies this
      ensures var r := Dispatch(es, sel, WakeCount(sel));
        dispatchers == Objects(r.kept) && calls == old(calls) + r.out &&
        waiting == (old(waiting) && !(sel.wakeRead || sel.wakeWrite))
      ensures Snapshots(dispatchers) == Dispatch(es, sel, WakeCount(sel)).kept
    {
      var count := 0;
      if sel.wakeRead || sel.wakeWrite {
        waiting := false;
        count := 1;
      }
      DispatchReady(es, sel, count);
    }

    /**
     * Runs passes of the Wait loop, sels[k] being what select reports in the
     * k-th, until one fails, times out or is woken, or the outcomes run out.
     */
    method Wait(sels: seq<Select>) returns (r: WaitResult)
      modifies this
      ensures r == WaitOutcome(sels)
      ensures var w := Waited(old(Snapshots(dispatchers)), sels);
        dispatchers == Objects(w.kept) && calls == old(calls) + w.out
      ensures waiting <==> !(FirstStop(sels) < |sels| && Woken(sels[FirstStop(sels)]))
    {
      ghost var cur := Snapshots(dispatchers);
      ghost var target := Waited(cur, sels);
      ghost var outs: seq<Delivery> := [];
      waiting := true;
      var k := 0;
      while k < |sels|
        invariant 0 <= k <= |sels| && waiting && calls == old(calls) + outs
        invariant forall j :: 0 <= j < k ==> !Stops(sels[j])
        invariant WaitOutcome(sels) == WaitOutcome(sels[k..])
        invariant cur == Snapshots(dispatchers)
        invariant target == Dispatched(Waited(cur, sels[k..]).kept, outs + Waited(cur, sels[k..]).out)
      {
        ghost var calls0 := calls;
        var o := Cycle(sels[k]);
        ghost var c := CycleRun(cur, sels[k]);
        if o == Failed || o == TimedOut || !waiting {
          WaitStops(target, outs, cur, sels, k);
          assert calls == calls0 + c.out;
          AppendAssoc(old(calls), outs, c.out);
          return Returned(o != Failed);
        }
        WaitAdvance(target, outs, cur, sels, k);
        assert calls == calls0 + c.out;
        AppendAssoc(old(calls), outs, c.out);
        outs := outs + c.out;
        cur := c.kept;
        k := k + 1;
      }
      WaitExhausted(target, outs, cur, sels, k);
      ObjectsSnapshots(dispatchers);
      r := StillWaiting;
    }
  }

  /** Wait stops at the k-th pass: what it returns, and the calls and registrations it leaves. */
  lemma WaitStops(target: Dispatched, outs: seq<Delivery>, es: seq<Entry>, sels: seq<Select>, k: nat)
    requires k < |sels| && Stops(sels[k]) && forall j :: 0 <= j < k ==> !Stops(sels[j])
    requires target == Dispatched(Waited(es, sels[k..]).kept, outs + Waited(es, sels[k..]).out)
    requires WaitOutcome(sels) == WaitOutcome(sels[k..])
    ensures var c := CycleRun(es, sels[k]); target == Dispatched(c.kept, outs + c.out)
    ensures WaitOutcome(sels) == Returned(CycleOutcome(sels[k]) != Failed)
    ensures FirstStop(sels) == k
  {
    WaitedStep(es, sels, k);
    FirstStopAt(sels, k);
  }

  /** No pass stopped Wait: it leaves the registrations of the last pass. */
  lemma WaitExhausted(target: Dispatched, outs: seq<Delivery>, es: seq<Entry>, sels: seq<Select>, k: nat)
    requires k == |sels| && forall j :: 0 <= j < k ==> !Stops(sels[j])
    requires target == Dispatched(Waited(es, sels[k..]).kept, outs + Waited(es, sels[k..]).out)
    requires WaitOutcome(sels) == WaitOutcome(sels[k..])
    ensures target == Dispatched(es, outs) && WaitOutcome(sels) == StillWaiting
    ensures FirstStop(sels) == |sels|
  {
    assert sels[k..] == [];
    assert outs + [] == outs;
    FirstStopAt(sels, k);
  }

  /** The calls and registrations Wait still owes after one more pass that does not stop it. */
  lemma WaitAdvance(target: Dispatched, outs: seq<Delivery>, es: seq<Entry>, sels: seq<Select>, k: nat)
    requires k < |sels| && !Stops(sels[k])
    requires target == Dispatched(Waited(es, sels[k..]).kept, outs + Waited(es, sels[k..]).out)
    requires WaitOutcome(sels) == WaitOutcome(sels[k..])
    ensures var c := CycleRun(es, sels[k]); var w := Waited(c.kept, sels[k + 1..]);
      target == Dispatched(w.kept, (outs + c.out) + w.out)
    ensures WaitOutcome(sels) == WaitOutcome(sels[k + 1..])
  {
    WaitedStep(es, sels, k);
  }

  /** FirstStop is the first stopping pass. */
  lemma FirstStopAt(sels: seq<Select>, k: nat)
    requires k <= |sels| && forall j :: 0 <= j < k ==> !Stops(sels[j])
    requires k < |sels| ==> Stops(sels[k])
    ensures FirstStop(sels) == k
  {
  }

  /** One pass of Wait, unfolded at the k-th select outcome. */
  lemma WaitedStep(es: seq<Entry>, sels: seq<Select>, k: nat)
    requires k < |sels|
    ensures var c := CycleRun(es, sels[k]);
      Waited(es, sels[k..]) == if Stops(sels[k]) then c else
        var w := Waited(c.kept, sels[k + 1..]); Dispatched(w.kept, c.out + w.out)
    ensures WaitOutcome(sels[k..]) ==
      if Stops(sels[k]) then Returned(CycleOutcome(sels[k]) != Failed) else WaitOutcome(sels[k + 1..])
  {
    assert sels[k..][1..] == sels[k + 1..];
  }

  /** The pruning loop over entry values. */
  method PruneEntries(es: seq<Entry>) returns (kept: seq<Entry>)
    ensures kept == Prune(es)
  {
    kept := [];
    var i := 0;
    while i < |es|
      invariant 0 <= i <= |es| && kept == Prune(es[..i])
    {
      PruneAppend(es[..i], [es[i]]);
      assert es[..i + 1] == es[..i] + [es[i]];
      if !es[i].skip {
        kept := kept + [es[i]];
      }
      i := i + 1;
    }
    assert es[..i] == es;
  }

  /**
   * The dispatch loop over entry values: it runs while fewer descriptors
   * than select counted are accounted for and entries remain.
   */
  method DispatchEntries(es: seq<Entry>, sel: Select, count0: int) returns (r: Dispatched)
    ensures r == Dispatch(es, sel, count0)
  {
    ghost var target := Dispatch(es, sel, count0);
    var kept := [];
    var out := [];
    var count := count0;
    var i := 0;
    while count < sel.n && i < |es|
      invariant 0 <= i <= |es|
      invariant var t := Dispatch(es[i..], sel, count); target == Dispatched(kept + t.kept, out + t.out)
    {
      var e := es[i];
      assert es[i..][1..] == es[i + 1..];
      if e.skip {
        AppendAssoc(kept, [e], Dispatch(es[i + 1..], sel, count).kept);
        kept := kept + [e];
      } else {
        var ff := EventsFor(e, sel);
        if ff != {} {
          AppendAssoc(out, [Delivery(e.d, ff, ErrCode(e, sel))], Dispatch(es[i + 1..], sel, count + 1).out);
          out := out + [Delivery(e.d, ff, ErrCode(e, sel))];
          count := count + 1;
        } else {
          AppendAssoc(kept, [e], Dispatch(es[i + 1..], sel, count).kept);
          kept := kept + [e];
        }
      }
      i := i + 1;
    }
    r := Dispatched(kept + es[i..], out);
  }

  /** The entries a pass keeps are current snapshots of their dispatchers. */
  lemma CycleCurrent(ds: seq<EventDispatcher>, sel: Select)
    ensures forall e :: e in CycleRun(Snapshots(ds), sel).kept ==> e == Snapshot(e.d)
  {
    var es := Snapshots(ds);
    PruneKeeps(es);
    DispatchKeptFrom(Prune(es), sel, WakeCount(sel));
    SnapshotsCurrent(ds);
  }

  /** Every snapshot in a list of them is one of its own dispatcher. */
  lemma {:induction false} SnapshotsCurrent(ds: seq<EventDispatcher>)
    ensures forall e :: e in Snapshots(ds) ==> e == Snapshot(e.d)
    decreases |ds|
  {
    if ds != [] {
      SnapshotsCurrent(ds[1..]);
      assert Snapshots(ds) == [Snapshot(ds[0])] + Snapshots(ds[1..]);
    }
  }

  lemma {:induction false} SnapshotsObjects(es: seq<Entry>)
    requires forall e :: e in es ==> e == Snapshot(e.d)
    ensures Snapshots(Objects(es)) == es
    decreases |es|
  {
    if es != [] {
      assert Objects(es) == [es[0].d] + Objects(es[1..]);
      assert Objects(es)[1..] == Objects(es[1..]);
      assert es[0] in es;
      forall e | e in es[1..] ensures e == Snapshot(e.d) {
        assert e in es;
      }
      SnapshotsObjects(es[1..]);
    }
  }

  lemma {:induction false} ObjectsSnapshots(ds: seq<EventDispatcher>)
    ensures Objects(Snapshots(ds)) == ds
    decreases |ds|
  {
    if ds != [] {
      ObjectsSnapshots(ds[1..]);
      assert Snapshots(ds)[1..] == Snapshots(ds[1..]);
    }
  }
}
