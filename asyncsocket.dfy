// The asynchronous TCP socket: a FIFO queue of blocks to write, a staging
// string holding the block being sent, a writeable flag, and the events it
// signals to its owner; plus the accept and connect handlers.

module AsyncSockets {
  import opened Bytes
  import opened MemBuffers
  import opened SocketEvents

  /** How flagged blocks are sent: every mode but PktNone Base64-encodes them. */
  datatype EncodeType = PktBase64 | PktBinary | PktNone

  /** The Base64 encoder the socket applies to flagged blocks. */
  type Encoder = seq<byte> -> seq<byte>

  /** An event signalled to the socket's owner. */
  datatype Emitted = ReadComplete(data: seq<byte>) | WriteComplete | SocketError(code: int)

  /** A call into the event service about the socket's dispatcher. */
  datatype ServiceCall = Added | Removed

  /** The bytes a block puts on the wire under the given mode. */
  function WireBlock(b: Block, mode: EncodeType, encode: Encoder): seq<byte>
  {
    if b.encodeFlag && mode != PktNone then encode(b.data) else b.data
  }

  /** The wire form of each block of a queue, in order. */
  function Wires(q: seq<Block>, mode: EncodeType, encode: Encoder): (r: seq<seq<byte>>)
    ensures |r| == |q|
    ensures forall i :: 0 <= i < |q| ==> r[i] == WireBlock(q[i], mode, encode)
  {
    if q == [] then [] else [WireBlock(q[0], mode, encode)] + Wires(q[1..], mode, encode)
  }

  /** All the bytes a queue puts on the wire, front block first. */
  function WireAll(q: seq<Block>, mode: EncodeType, encode: Encoder): seq<byte>
  {
    if q == [] then [] else WireBlock(q[0], mode, encode) + WireAll(q[1..], mode, encode)
  }

  /** Why a write pass stopped. */
  datatype Stop = Drained | PartialSent | NothingSent | WouldBlock | HardError(code: int)

  /**
   * One write pass: the strings handed to successive send calls, the bytes the
   * socket accepted, the queue and staging left, and why it stopped.
   */
  datatype Run = Run(offered: seq<seq<byte>>, accepted: seq<byte>, queue: seq<Block>, staging: seq<byte>, stop: Stop)

  /** The staging string, as the first thing sent, when there is one. */
  function Lead(st: seq<byte>): seq<seq<byte>>
  {
    if st == [] then [] else [st]
  }

  /** The run a send that did not take the whole string stops with. */
  function Stopped(st: seq<byte>, q: seq<Block>, r: SysResult): Run
  {
    if 0 < r.res < |st| then Run([st], st[..r.res], q, st[r.res..], PartialSent)
    else Run([st], [], q, st, if r.res == 0 then NothingSent else if r.blocking then WouldBlock else HardError(r.error))
  }

  /** A run preceded by strings already offered and bytes already accepted. */
  function Prefixed(o: seq<seq<byte>>, a: seq<byte>, r: Run): Run
  {
    r.(offered := o + r.offered, accepted := a + r.accepted)
  }

  /**
   * The write loop from the k-th send on, with st staged: a full send clears
   * the staging and stages the next block in its wire form, if any; anything
   * else stops. send(k) is what the k-th send call returns.
   */
  function Send(q: seq<Block>, st: seq<byte>, mode: EncodeType, encode: Encoder, send: nat -> SysResult, k: nat): Run
    decreases |q|
  {
    var r := send(k);
    if r.res != |st| then Stopped(st, q, r)
    else if q == [] then Run([st], st, [], [], Drained)
    else Prefixed([st], st, Send(q[1..], WireBlock(q[0], mode, encode), mode, encode, send, k + 1))
  }

  /** The write loop from the k-th send on: with nothing staged, the front block is staged first. */
  function Drain(q: seq<Block>, st: seq<byte>, mode: EncodeType, encode: Encoder, send: nat -> SysResult, k: nat): Run
  {
    if st != [] then Send(q, st, mode, encode, send, k)
    else if q == [] then Run([], [], [], [], Drained)
    else Send(q[1..], WireBlock(q[0], mode, encode), mode, encode, send, k)
  }

  lemma PrefixedTwice(o: seq<seq<byte>>, a: seq<byte>, o2: seq<seq<byte>>, a2: seq<byte>, r: Run)
    ensures Prefixed(o, a, Prefixed(o2, a2, r)) == Prefixed(o + o2, a + a2, r)
  {
    assert o + (o2 + r.offered) == (o + o2) + r.offered;
    assert a + (a2 + r.accepted) == (a + a2) + r.accepted;
  }

  /** A full send goes on as a pass with nothing staged. */
  lemma SendFull(q: seq<Block>, st: seq<byte>, mode: EncodeType, encode: Encoder, send: nat -> SysResult, k: nat)
    requires send(k).res == |st|
    ensures Send(q, st, mode, encode, send, k) == Prefixed([st], st, Drain(q, [], mode, encode, send, k + 1))
  {
    if q == [] {
      assert [st] + [] == [st] && st + [] == st;
    }
  }

  /** The write loop of TryToWriteData over the queue and the staging string. */
  method DrainLoop(q0: seq<Block>, st0: seq<byte>, mode: EncodeType, encode: Encoder, send: nat -> SysResult)
    returns (run: Run)
    ensures run == Drain(q0, st0, mode, encode, send, 0)
  {
    var q, st, k := q0, st0, 0;
    var offered: seq<seq<byte>>, accepted: seq<byte> := [], [];
    ghost var target := Drain(q0, st0, mode, encode, send, 0);
    assert target == Prefixed(offered, accepted, Drain(q, st, mode, encode, send, k));
    while true
      invariant target == Prefixed(offered, accepted, Drain(q, st, mode, encode, send, k))
      decreases |q|, |st|
    {
      if st == [] {
        if q == [] {
          assert offered + [] == offered && accepted + [] == accepted;
          return Run(offered, accepted, [], [], Drained);
        }
        st := WireBlock(q[0], mode, encode);
        q := q[1..];
      }
      assert target == Prefixed(offered, accepted, Send(q, st, mode, encode, send, k));
      var r := send(k);
      if r.res == |st| {
        SendFull(q, st, mode, encode, send, k);
        PrefixedTwice(offered, accepted, [st], st, Drain(q, [], mode, encode, send, k + 1));
        offered, accepted := offered + [st], accepted + st;
        st, k := [], k + 1;
      } else if 0 < r.res < |st| {
        return Run(offered + [st], accepted + st[..r.res], q, st[r.res..], PartialSent);
      } else {
        assert accepted + [] == accepted;
        return Run(offered + [st], accepted, q, st, if r.res == 0 then NothingSent else if r.blocking then WouldBlock else HardError(r.error));
      }
    }
  }

  /** The queue a pass leaves is what is behind the blocks it popped. */
  lemma WiresStep(q: seq<Block>, n: nat, mode: EncodeType, encode: Encoder)
    requires 0 < |q| && n < |q|
    ensures [WireBlock(q[0], mode, encode)] + Wires(q[1..][..n], mode, encode) == Wires(q[..n + 1], mode, encode)
  {
    assert q[..n + 1][1..] == q[1..][..n];
  }

  /**
   * The queue left is a suffix of q, and the strings offered are st and then
   * the blocks in front of that suffix, in queue order and wire form.
   */
  predicate OffersInOrder(r: Run, st: seq<byte>, q: seq<Block>, mode: EncodeType, encode: Encoder)
  {
    |r.queue| <= |q| && r.queue == q[|q| - |r.queue|..] &&
    r.offered == [st] + Wires(q[..|q| - |r.queue|], mode, encode)
  }

  lemma StoppedInOrder(st: seq<byte>, q: seq<Block>, r: SysResult, mode: EncodeType, encode: Encoder)
    ensures OffersInOrder(Stopped(st, q, r), st, q, mode, encode)
  {
    assert q[..0] == [] && q[0..] == q;
  }

  lemma PrefixedInOrder(st: seq<byte>, q: seq<Block>, rest: Run, mode: EncodeType, encode: Encoder)
    requires q != [] && OffersInOrder(rest, WireBlock(q[0], mode, encode), q[1..], mode, encode)
    ensures OffersInOrder(Prefixed([st], st, rest), st, q, mode, encode)
  {
    assert q[1..][|q| - 1 - |rest.queue|..] == q[|q| - |rest.queue|..];
    WiresStep(q, |q| - 1 - |rest.queue|, mode, encode);
  }

  /** From a staged string on, the strings sent are it and then the popped blocks in queue order, in wire form. */
  lemma {:induction false} SendOffersInOrder(q: seq<Block>, st: seq<byte>, mode: EncodeType, encode: Encoder, send: nat -> SysResult, k: nat)
    ensures OffersInOrder(Send(q, st, mode, encode, send, k), st, q, mode, encode)
    decreases |q|
  {
    if send(k).res != |st| {
      StoppedInOrder(st, q, send(k), mode, encode);
    } else if q != [] {
      var w := WireBlock(q[0], mode, encode);
      SendOffersInOrder(q[1..], w, mode, encode, send, k + 1);
      PrefixedInOrder(st, q, Send(q[1..], w, mode, encode, send, k + 1), mode, encode);
    } else {
      assert q[..0] == [];
    }
  }

  /**
   * The strings handed to send are the staging string, if any, and then the
   * popped blocks in queue order, each in its wire form; the queue left is
   * what is behind the popped blocks.
   */
  lemma DrainOffersInOrder(q: seq<Block>, st: seq<byte>, mode: EncodeType, encode: Encoder, send: nat -> SysResult, k: nat)
    ensures var r := Drain(q, st, mode, encode, send, k);
      |r.queue| <= |q| && r.queue == q[|q| - |r.queue|..] &&
      r.offered == Lead(st) + Wires(q[..|q| - |r.queue|], mode, encode)
  {
    if st != [] {
      assert Drain(q, st, mode, encode, send, k) == Send(q, st, mode, encode, send, k);
      SendOffersInOrder(q, st, mode, encode, send, k);
    } else if q == [] {
      assert q[..0] == [];
    } else {
      var w := WireBlock(q[0], mode, encode);
      assert Drain(q, st, mode, encode, send, k) == Send(q[1..], w, mode, encode, send, k);
      SendOffersInOrder(q[1..], w, mode, encode, send, k);
      PoppedInOrder(q, Send(q[1..], w, mode, encode, send, k), mode, encode);
    }
  }

  /** A pass that began by popping the front block offers the popped blocks only. */
  lemma PoppedInOrder(q: seq<Block>, r: Run, mode: EncodeType, encode: Encoder)
    requires q != [] && OffersInOrder(r, WireBlock(q[0], mode, encode), q[1..], mode, encode)
    ensures |r.queue| <= |q| && r.queue == q[|q| - |r.queue|..] && r.offered == Wires(q[..|q| - |r.queue|], mode, encode)
  {
    WiresStep(q, |q| - 1 - |r.queue|, mode, encode);
    assert q[1..][|q| - 1 - |r.queue|..] == q[|q| - |r.queue|..];
  }

  /** The accepted bytes, then the staging left, then the queue left, are st and then q. */
  predicate Conserves(r: Run, st: seq<byte>, q: seq<Block>, mode: EncodeType, encode: Encoder)
  {
    r.accepted + r.staging + WireAll(r.queue, mode, encode) == st + WireAll(q, mode, encode)
  }

  lemma StoppedConserves(st: seq<byte>, q: seq<Block>, r: SysResult, mode: EncodeType, encode: Encoder)
    ensures Conserves(Stopped(st, q, r), st, q, mode, encode)
  {
    if 0 < r.res < |st| {
      assert st[..r.res] + st[r.res..] == st;
    }
  }

  lemma PrefixedConserves(st: seq<byte>, q: seq<Block>, rest: Run, mode: EncodeType, encode: Encoder)
    requires q != [] && Conserves(rest, WireBlock(q[0], mode, encode), q[1..], mode, encode)
    ensures Conserves(Prefixed([st], st, rest), st, q, mode, encode)
  {
    calc {
      st + rest.accepted + rest.staging + WireAll(rest.queue, mode, encode);
      st + (rest.accepted + rest.staging + WireAll(rest.queue, mode, encode));
      st + (WireBlock(q[0], mode, encode) + WireAll(q[1..], mode, encode));
    }
  }

  /** Nothing is lost or reordered from a staged string on. */
  lemma {:induction false} SendConserves(q: seq<Block>, st: seq<byte>, mode: EncodeType, encode: Encoder, send: nat -> SysResult, k: nat)
    ensures Conserves(Send(q, st, mode, encode, send, k), st, q, mode, encode)
    decreases |q|
  {
    if send(k).res != |st| {
      StoppedConserves(st, q, send(k), mode, encode);
    } else if q != [] {
      SendConserves(q[1..], WireBlock(q[0], mode, encode), mode, encode, send, k + 1);
      PrefixedConserves(st, q, Send(q[1..], WireBlock(q[0], mode, encode), mode, encode, send, k + 1), mode, encode);
    }
  }

  /**
   * Nothing is lost or reordered: the accepted bytes, then the staging left,
   * then the queue left, are the staging and queue the pass started with.
   */
  lemma DrainConserves(q: seq<Block>, st: seq<byte>, mode: EncodeType, encode: Encoder, send: nat -> SysResult, k: nat)
    ensures var r := Drain(q, st, mode, encode, send, k);
      r.accepted + r.staging + WireAll(r.queue, mode, encode) == st + WireAll(q, mode, encode)
  {
    if st != [] {
      SendConserves(q, st, mode, encode, send, k);
    } else if q != [] {
      SendConserves(q[1..], WireBlock(q[0], mode, encode), mode, encode, send, k);
    }
  }

  /**
   * How a pass from a staged string ends: something was offered; a drained
   * pass leaves nothing; a partial send stages a proper tail of the last
   * string offered; any other stop stages that string whole.
   */
  predicate EndsWell(r: Run)
  {
    |r.offered| > 0 &&
    var last := r.offered[|r.offered| - 1];
    (r.stop == Drained ==> r.staging == [] && r.queue == []) &&
    (r.stop == PartialSent ==> 0 < |r.staging| < |last| && r.staging == last[|last| - |r.staging|..]) &&
    (r.stop != Drained && r.stop != PartialSent ==> r.staging == last)
  }

  lemma PrefixedEndsWell(o: seq<seq<byte>>, a: seq<byte>, r: Run)
    requires EndsWell(r)
    ensures EndsWell(Prefixed(o, a, r))
  {
    assert (o + r.offered)[|o + r.offered| - 1] == r.offered[|r.offered| - 1];
  }

  /** How a pass from a staged string stops: see DrainStops. */
  lemma {:induction false} SendStops(q: seq<Block>, st: seq<byte>, mode: EncodeType, encode: Encoder, send: nat -> SysResult, k: nat)
    ensures EndsWell(Send(q, st, mode, encode, send, k))
    decreases |q|
  {
    if send(k).res == |st| && q != [] {
      SendStops(q[1..], WireBlock(q[0], mode, encode), mode, encode, send, k + 1);
      PrefixedEndsWell([st], st, Send(q[1..], WireBlock(q[0], mode, encode), mode, encode, send, k + 1));
    }
  }

  /**
   * A drained pass leaves nothing staged or queued; a partial send stages the
   * unsent tail of the last string sent, and the other stops keep that string
   * staged whole.
   */
  lemma DrainStops(q: seq<Block>, st: seq<byte>, mode: EncodeType, encode: Encoder, send: nat -> SysResult, k: nat)
    ensures var r := Drain(q, st, mode, encode, send, k);
      (r.stop == Drained ==> r.staging == [] && r.queue == []) &&
      (r.stop != Drained ==> (|r.offered| > 0 &&
        (r.stop == PartialSent ==> (0 < |r.staging| < |r.offered[|r.offered| - 1]| &&
           r.staging == r.offered[|r.offered| - 1][|r.offered[|r.offered| - 1]| - |r.staging|..])) &&
        (r.stop != PartialSent ==> r.staging == r.offered[|r.offered| - 1])))
  {
    if st != [] {
      assert Drain(q, st, mode, encode, send, k) == Send(q, st, mode, encode, send, k);
      SendStops(q, st, mode, encode, send, k);
    } else if q != [] {
      assert Drain(q, st, mode, encode, send, k) == Send(q[1..], WireBlock(q[0], mode, encode), mode, encode, send, k);
      SendStops(q[1..], WireBlock(q[0], mode, encode), mode, encode, send, k);
    }
  }

  // ---------------------------------------------------------------------------

  /**
   * The socket's state: whether it still holds its socket and whether that is
   * not closed, whether it holds its dispatcher and that dispatcher's enabled
   * events, the write queue, staging string, writeable flag and encode mode;
   * and, as traces, the strings handed to send, the bytes the socket accepted,
   * the events signalled and the calls made into the event service.
   */
  datatype AsyncState = AsyncState(
    hasSocket: bool, connected: bool, hasEvent: bool, events: Mask,
    queue: seq<Block>, staging: seq<byte>, writeable: bool, encodeType: EncodeType,
    offered: seq<seq<byte>>, wire: seq<byte>, emitted: seq<Emitted>, calls: seq<ServiceCall>)

  /** A dispatcher is only ever held together with the socket it watches. */
  predicate Valid(s: AsyncState)
  {
    s.hasEvent ==> s.hasSocket
  }

  /** A closed socket: nothing held, not writeable, no bytes queued. */
  predicate IsClosed(s: AsyncState)
  {
    !s.hasSocket && !s.connected && !s.hasEvent && !s.writeable && Flatten(s.queue) == []
  }

  function NewSocket(hasSocket: bool, connected: bool): AsyncState
  {
    AsyncState(hasSocket, connected, false, {}, [], [], true, PktNone, [], [], [], [])
  }

  function Emit(s: AsyncState, e: Emitted): AsyncState
  {
    s.(emitted := s.emitted + [e])
  }

  function AfterInit(s: AsyncState): (AsyncState, bool)
  {
    if !s.hasSocket || s.hasEvent then (s, false)
    else (s.(hasEvent := true, events := {EvRead, EvClose}), true)
  }

  function AfterClose(s: AsyncState): AsyncState
  {
    s.(hasSocket := false, connected := false, hasEvent := false,
       calls := if s.hasEvent then s.calls + [Removed] else s.calls,
       queue := if |Flatten(s.queue)| > 0 then [] else s.queue,
       writeable := false)
  }

  function AfterErrorEvent(s: AsyncState, err: int): AsyncState
  {
    AfterClose(Emit(s, SocketError(err)))
  }

  function AfterWait(s: AsyncState): AsyncState
  {
    s.(writeable := false, events := s.events + {EvWrite}, calls := s.calls + [Added])
  }

  /** The write loop over the socket's queue and staging under its encode mode. */
  function WriteRun(s: AsyncState, encode: Encoder, send: nat -> SysResult): Run
  {
    Drain(s.queue, s.staging, s.encodeType, encode, send, 0)
  }

  /**
   * After the write loop: its queue, staging and traces are taken over; a hard
   * error with emitClose set is signalled and closes, anything else waits for
   * writability.
   */
  function Settle(s: AsyncState, emitClose: bool, r: Run): AsyncState
  {
    var t := s.(queue := r.queue, staging := r.staging, offered := s.offered + r.offered, wire := s.wire + r.accepted);
    if r.stop.HardError? && emitClose then AfterErrorEvent(t, r.stop.code) else AfterWait(t)
  }

  /** A write attempt whose loop, if it runs, produces r. */
  function TryWriteWith(s: AsyncState, emitClose: bool, r: Run): (AsyncState, int)
  {
    if !s.writeable then (s, -1)
    else if s.queue == [] && s.staging == [] then (Emit(s, WriteComplete), 0)
    else (Settle(s, emitClose, r), 0)
  }

  function AfterTryWrite(s: AsyncState, emitClose: bool, encode: Encoder, send: nat -> SysResult): (AsyncState, int)
  {
    TryWriteWith(s, emitClose, WriteRun(s, encode, send))
  }

  function AfterAsyncWrite(s: AsyncState, buffer: seq<Block>, encode: Encoder, send: nat -> SysResult): (AsyncState, bool)
  {
    if !(s.hasSocket && s.connected) || !s.hasEvent then (s, false)
    else (AfterTryWrite(s.(queue := s.queue + buffer), false, encode, send).0, true)
  }

  function AfterAsyncRead(s: AsyncState, answer: bool): (AsyncState, bool)
  {
    if !s.hasSocket || !s.hasEvent then (s, false)
    else (s.(events := s.events + {EvRead}, calls := s.calls + [Added]), answer)
  }

  function AfterWriteEvent(s: AsyncState, encode: Encoder, send: nat -> SysResult): AsyncState
  {
    TryWriteWith(s.(writeable := true), true, WriteRun(s, encode, send)).0
  }

  function AfterReadEvent(s: AsyncState, recv: SysResult, data: seq<byte>): AsyncState
  {
    if recv.res > 0 then Emit(s, ReadComplete(data))
    else if recv.res == 0 then AfterErrorEvent(s, recv.error)
    else if recv.blocking then s
    else AfterErrorEvent(s, recv.error)
  }

  /** A WRITE bit, while the dispatcher is held: cleared, then the write resumes with r as its loop. */
  function WriteStage(s: AsyncState, ff: Mask, r: Run): AsyncState
  {
    if s.hasEvent && EvWrite in ff then TryWriteWith(s.(events := s.events - {EvWrite}, writeable := true), true, r).0
    else s
  }

  /** A READ bit, while the dispatcher is held: cleared, then the read is handled. */
  function ReadStage(s: AsyncState, ff: Mask, recv: SysResult, data: seq<byte>): AsyncState
  {
    if s.hasEvent && EvRead in ff then AfterReadEvent(s.(events := s.events - {EvRead}), recv, data)
    else s
  }

  /** A CLOSE bit, while the dispatcher is held: cleared, then the socket fails with code 0. */
  function CloseStage(s: AsyncState, ff: Mask): AsyncState
  {
    if s.hasEvent && EvClose in ff then AfterErrorEvent(s.(events := s.events - {EvClose}), 0)
    else s
  }

  /** The write, read and close bits handled in that order, the write loop producing r. */
  function Handled(s: AsyncState, ff: Mask, r: Run, recv: SysResult, data: seq<byte>): AsyncState
  {
    CloseStage(ReadStage(WriteStage(s, ff, r), ff, recv, data), ff)
  }

  /** The dispatcher goes back to the event service while it is held with some event enabled. */
  function Rearm(t: AsyncState): AsyncState
  {
    if t.hasEvent && t.events != {} then t.(calls := t.calls + [Added]) else t
  }

  function AfterSocketEvent(s: AsyncState, ff: Mask, err: int, encode: Encoder, send: nat -> SysResult, recv: SysResult, data: seq<byte>): AsyncState
  {
    if err != 0 then AfterErrorEvent(s, err) else Rearm(Handled(s, ff, WriteRun(s, encode, send), recv, data))
  }

  class AsyncSocketImpl {
    var hasSocket: bool
    var connected: bool
    var hasEvent: bool
    var events: Mask
    var queue: seq<Block>
    var staging: seq<byte>
    var writeable: bool
    var encodeType: EncodeType
    var offered: seq<seq<byte>>
    var wire: seq<byte>
    var emitted: seq<Emitted>
    var calls: seq<ServiceCall>
    const encode: Encoder

    function State(): AsyncState
      reads this
    {
      AsyncState(hasSocket, connected, hasEvent, events, queue, staging, writeable, encodeType, offered, wire, emitted, calls)
    }

    /** Wraps a socket (held or not, closed or not): writeable, mode PktNone, no dispatcher yet. */
    constructor(hasSocket: bool, connected: bool, encode: Encoder)
      ensures State() == NewSocket(hasSocket, connected) && this.encode == encode
    {
      this.hasSocket, this.connected := hasSocket, connected;
      hasEvent, events := false, {};
      queue, staging, writeable, encodeType := [], [], true, PktNone;
      offered, wire, emitted, calls := [], [], [], [];
      this.encode := encode;
    }

    /** Creates the dispatcher watching READ and CLOSE; fails without a socket or with a dispatcher already. */
    method Init() returns (ok: bool)
      modifies this
      ensures (State(), ok) == AfterInit(old(State()))
    {
      if !hasSocket || hasEvent {
        return false;
      }
      hasEvent := true;
      events := {EvRead, EvClose};
      ok := true;
    }

    /** Queues the buffer's blocks and tries to write; fails unless connected with a dispatcher. */
    method AsyncWrite(buffer: seq<Block>, send: nat -> SysResult) returns (ok: bool)
      modifies this
      ensures (State(), ok) == AfterAsyncWrite(old(State()), buffer, encode, send)
    {
      var c := IsConnected();
      if !c || !hasEvent {
        return false;
      }
      queue := queue + buffer;
      var _ := TryToWriteData(false, send);
      ok := true;
    }

    /** Enables READ and hands the dispatcher to the event service, whose answer is returned. */
    method AsyncRead(answer: bool) returns (ok: bool)
      modifies this
      ensures (State(), ok) == AfterAsyncRead(old(State()), answer)
    {
      if !hasSocket || !hasEvent {
        return false;
      }
      events := events + {EvRead};
      calls := calls + [Added];
      ok := answer;
    }

    /** Drops the socket and the dispatcher, empties a non-empty queue, and stops writing. */
    method Close()
      modifies this
      ensures State() == AfterClose(old(State()))
    {
      hasSocket, connected := false, false;
      if hasEvent {
        calls := calls + [Removed];
        hasEvent := false;
      }
      if |Flatten(queue)| > 0 {
        queue := [];
      }
      writeable := false;
    }

    method SetEncodeType(t: EncodeType)
      modifies this
      ensures State() == old(State()).(encodeType := t)
    {
      encodeType := t;
    }

    method IsConnected() returns (r: bool)
      ensures r <==> hasSocket && connected
    {
      r := hasSocket && connected;
    }

    /**
     * Handles a dispatcher event: an error code alone closes the socket;
     * otherwise WRITE, READ and CLOSE are handled in that order.
     */
    method OnSocketEvent(ff: Mask, err: int, send: nat -> SysResult, recv: SysResult, data: seq<byte>)
      modifies this
      ensures State() == AfterSocketEvent(old(State()), ff, err, encode, send, recv, data)
    {
      if err != 0 {
        SocketErrorEvent(err);
        return;
      }
      ghost var s0 := State();
      ghost var run := WriteRun(s0, encode, send);
      if hasEvent && EvWrite in ff {
        events := events - {EvWrite};
        assert WriteRun(State(), encode, send) == run;
        SocketWriteEvent(send);
      }
      ghost var s1 := State();
      assert s1 == WriteStage(s0, ff, run);
      if hasEvent && EvRead in ff {
        events := events - {EvRead};
        SocketReadEvent(recv, data);
      }
      ghost var s2 := State();
      assert s2 == ReadStage(s1, ff, recv, data);
      if hasEvent && EvClose in ff {
        events := events - {EvClose};
        SocketErrorEvent(err);
      }
      assert State() == CloseStage(s2, ff);
      if hasEvent && events != {} {
        calls := calls + [Added];
      }
    }

    /** Signals the bytes read, the peer's reset, or a hard error; a would-block read does nothing. */
    method SocketReadEvent(recv: SysResult, data: seq<byte>)
      modifies this
      ensures State() == AfterReadEvent(old(State()), recv, data)
    {
      if recv.res > 0 {
        SocketReadComplete(data);
      } else if recv.res == 0 {
        SocketErrorEvent(recv.error);
      } else if recv.blocking {
        return;
      } else {
        SocketErrorEvent(recv.error);
      }
    }

    method SocketWriteEvent(send: nat -> SysResult)
      modifies this
      ensures State() == AfterWriteEvent(old(State()), encode, send)
    {
      writeable := true;
      var _ := TryToWriteData(true, send);
    }

    /** Signals the error, then closes. */
    method SocketErrorEvent(err: int)
      modifies this
      ensures State() == AfterErrorEvent(old(State()), err)
    {
      emitted := emitted + [SocketError(err)];
      Close();
    }

    /**
     * -1 when not writeable; with nothing queued or staged, signals write
     * completion; otherwise runs the write loop and then either waits for
     * writability or, on a hard error with emitClose, signals it and closes.
     */
    method TryToWriteData(emitClose: bool, send: nat -> SysResult) returns (r: int)
      modifies this
      ensures (State(), r) == AfterTryWrite(old(State()), emitClose, encode, send)
    {
      if !writeable {
        return -1;
      }
      if |queue| == 0 && |staging| == 0 {
        SocketWriteComplete();
        return 0;
      }
      var run := DrainLoop(queue, staging, encodeType, encode, send);
      SettleRun(emitClose, run);
      r := 0;
    }

    /** Takes over what the send loop left and then waits for writability or closes. */
    method SettleRun(emitClose: bool, run: Run)
      modifies this
      ensures State() == Settle(old(State()), emitClose, run)
    {
      queue, staging := run.queue, run.staging;
      offered, wire := offered + run.offered, wire + run.accepted;
      if run.stop.HardError? && emitClose {
        SocketErrorEvent(run.stop.code);
      } else {
        WaitToWriteData();
      }
    }

    /** Not writeable until the dispatcher reports WRITE again. */
    method WaitToWriteData()
      modifies this
      ensures State() == AfterWait(old(State()))
    {
      writeable := false;
      events := events + {EvWrite};
      calls := calls + [Added];
    }

    method SocketReadComplete(data: seq<byte>)
      modifies this
      ensures State() == Emit(old(State()), ReadComplete(data))
    {
      emitted := emitted + [ReadComplete(data)];
    }

    method SocketWriteComplete()
      modifies this
      ensures State() == Emit(old(State()), WriteComplete)
    {
      emitted := emitted + [WriteComplete];
    }
  }

  // ---------------------------------------------------------------------------
  // Properties of the socket's transitions.

  /** Close leaves the socket closed; a second Close changes nothing more. */
  lemma CloseIdempotent(s: AsyncState)
    ensures IsClosed(AfterClose(s))
    ensures AfterClose(AfterClose(s)) == AfterClose(s)
    ensures AfterClose(s).emitted == s.emitted && AfterClose(s).staging == s.staging
  {
  }

  /** A write is accepted only on a connected socket with a dispatcher; a refused one changes nothing. */
  lemma AsyncWriteNeedsConnection(s: AsyncState, buffer: seq<Block>, encode: Encoder, send: nat -> SysResult)
    ensures AfterAsyncWrite(s, buffer, encode, send).1 <==> s.hasSocket && s.connected && s.hasEvent
    ensures !AfterAsyncWrite(s, buffer, encode, send).1 ==> AfterAsyncWrite(s, buffer, encode, send).0 == s
  {
  }

  /** After Close every write and read request fails and changes nothing. */
  lemma ClosedRefuses(s: AsyncState, buffer: seq<Block>, encode: Encoder, send: nat -> SysResult, answer: bool)
    ensures var c := AfterClose(s);
      AfterAsyncWrite(c, buffer, encode, send) == (c, false) &&
      AfterAsyncRead(c, answer) == (c, false) &&
      AfterTryWrite(c, true, encode, send) == (c, -1)
  {
  }

  /** A socket that is not writeable returns -1 and changes nothing. */
  lemma NotWriteableRefuses(s: AsyncState, emitClose: bool, encode: Encoder, send: nat -> SysResult)
    requires !s.writeable
    ensures AfterTryWrite(s, emitClose, encode, send) == (s, -1)
  {
  }

  /** Write completion is signalled exactly when a writeable socket has nothing queued and nothing staged. */
  lemma WriteCompleteWhenEmpty(s: AsyncState, emitClose: bool, encode: Encoder, send: nat -> SysResult)
    ensures var t := AfterTryWrite(s, emitClose, encode, send).0;
      (t.emitted == s.emitted + [WriteComplete] <==> s.writeable && s.queue == [] && s.staging == []) &&
      (s.writeable && s.queue == [] && s.staging == [] ==> t == Emit(s, WriteComplete))
  {
    if s.writeable && !(s.queue == [] && s.staging == []) {
      var r := WriteRun(s, encode, send);
      SettleKeepsOrder(s, emitClose, r);
      if r.stop.HardError? && emitClose {
        assert (s.emitted + [SocketError(r.stop.code)])[|s.emitted|] != (s.emitted + [WriteComplete])[|s.emitted|];
      } else {
        assert |s.emitted| != |s.emitted + [WriteComplete]|;
      }
    } else if !s.writeable {
      assert |s.emitted| != |s.emitted + [WriteComplete]|;
    }
  }

  /**
   * A write attempt with something to send: the strings handed to send are
   * the staging and then the queued blocks in wire form, in queue order; and
   * unless it stopped on a hard error with emitClose set, the accepted bytes,
   * the new staging and the new queue are the old staging and queue, and the
   * socket waits for writability with WRITE enabled and its dispatcher re-added.
   */
  lemma TryWriteKeepsOrder(s: AsyncState, emitClose: bool, encode: Encoder, send: nat -> SysResult)
    requires s.writeable && !(s.queue == [] && s.staging == [])
    ensures var t := AfterTryWrite(s, emitClose, encode, send).0;
      var r := WriteRun(s, encode, send);
      |r.queue| <= |s.queue| && !t.writeable && t.staging == r.staging &&
      t.offered == s.offered + Lead(s.staging) + Wires(s.queue[..|s.queue| - |r.queue|], s.encodeType, encode) &&
      (!(r.stop.HardError? && emitClose) ==>
         t.wire + t.staging + WireAll(t.queue, s.encodeType, encode) == s.wire + s.staging + WireAll(s.queue, s.encodeType, encode) &&
         EvWrite in t.events && t.calls == s.calls + [Added] && t.emitted == s.emitted) &&
      (r.stop.HardError? && emitClose ==> IsClosed(t) && t.emitted == s.emitted + [SocketError(r.stop.code)])
  {
    var r := WriteRun(s, encode, send);
    assert AfterTryWrite(s, emitClose, encode, send).0 == Settle(s, emitClose, r);
    DrainOffersInOrder(s.queue, s.staging, s.encodeType, encode, send, 0);
    DrainConserves(s.queue, s.staging, s.encodeType, encode, send, 0);
    SettleFromRun(s, emitClose, r, encode);
  }

  /** TryWriteKeepsOrder for any loop outcome that offered and conserved what a drain does. */
  lemma SettleFromRun(s: AsyncState, emitClose: bool, r: Run, encode: Encoder)
    requires |r.queue| <= |s.queue|
    requires r.offered == Lead(s.staging) + Wires(s.queue[..|s.queue| - |r.queue|], s.encodeType, encode)
    requires r.accepted + r.staging + WireAll(r.queue, s.encodeType, encode) == s.staging + WireAll(s.queue, s.encodeType, encode)
    ensures var t := Settle(s, emitClose, r);
      !t.writeable && t.staging == r.staging &&
      t.offered == s.offered + Lead(s.staging) + Wires(s.queue[..|s.queue| - |r.queue|], s.encodeType, encode) &&
      (!(r.stop.HardError? && emitClose) ==>
         t.wire + t.staging + WireAll(t.queue, s.encodeType, encode) == s.wire + s.staging + WireAll(s.queue, s.encodeType, encode) &&
         EvWrite in t.events && t.calls == s.calls + [Added] && t.emitted == s.emitted) &&
      (r.stop.HardError? && emitClose ==> IsClosed(t) && t.emitted == s.emitted + [SocketError(r.stop.code)])
  {
    SettleKeepsOrder(s, emitClose, r);
    var t := Settle(s, emitClose, r);
    assert s.offered + (Lead(s.staging) + Wires(s.queue[..|s.queue| - |r.queue|], s.encodeType, encode)) ==
      s.offered + Lead(s.staging) + Wires(s.queue[..|s.queue| - |r.queue|], s.encodeType, encode);
    if !(r.stop.HardError? && emitClose) {
      assert t.wire + t.staging + WireAll(t.queue, s.encodeType, encode) ==
        s.wire + (r.accepted + r.staging + WireAll(r.queue, s.encodeType, encode));
    }
  }

  /** What happens after the loop, whatever the loop did. */
  lemma SettleKeepsOrder(s: AsyncState, emitClose: bool, r: Run)
    ensures var t := Settle(s, emitClose, r);
      !t.writeable && t.staging == r.staging && t.offered == s.offered + r.offered && t.wire == s.wire + r.accepted &&
      (!(r.stop.HardError? && emitClose) ==>
         t.queue == r.queue && EvWrite in t.events && t.calls == s.calls + [Added] && t.emitted == s.emitted &&
         t.hasEvent == s.hasEvent && t.hasSocket == s.hasSocket && t.connected == s.connected &&
         (EvRead in t.events <==> EvRead in s.events) && (EvClose in t.events <==> EvClose in s.events)) &&
      (r.stop.HardError? && emitClose ==> IsClosed(t) && t.emitted == s.emitted + [SocketError(r.stop.code)])
  {
    var t0 := s.(queue := r.queue, staging := r.staging, offered := s.offered + r.offered, wire := s.wire + r.accepted);
    if r.stop.HardError? && emitClose {
      assert Settle(s, emitClose, r) == AfterErrorEvent(t0, r.stop.code);
    } else {
      assert Settle(s, emitClose, r) == AfterWait(t0);
    }
  }

  /** The write stage either leaves the dispatcher held, with READ and CLOSE as they were, or closes the socket. */
  lemma WriteStageFacts(s: AsyncState, ff: Mask, r: Run)
    ensures var w := WriteStage(s, ff, r);
      (!(s.hasEvent && EvWrite in ff) ==> w == s) &&
      (s.hasEvent && EvWrite in ff && s.queue == [] && s.staging == [] ==> w.emitted == s.emitted + [WriteComplete]) &&
      (w.hasEvent ==> (s.hasEvent && w.hasSocket == s.hasSocket &&
         (EvRead in w.events <==> EvRead in s.events) && (EvClose in w.events <==> EvClose in s.events))) &&
      (s.hasEvent && !w.hasEvent ==> IsClosed(w))
  {
    if s.hasEvent && EvWrite in ff {
      var s' := s.(events := s.events - {EvWrite}, writeable := true);
      if !(s'.queue == [] && s'.staging == []) {
        SettleKeepsOrder(s', true, r);
      }
    }
  }

  /** The read stage clears a delivered READ bit and either keeps the dispatcher or closes the socket. */
  lemma ReadStageFacts(s: AsyncState, ff: Mask, recv: SysResult, data: seq<byte>)
    ensures var t := ReadStage(s, ff, recv, data);
      (!(s.hasEvent && EvRead in ff) ==> t == s) &&
      (s.hasEvent && EvRead in ff && recv.res > 0 ==> t.emitted == s.emitted + [ReadComplete(data)]) &&
      (t.hasEvent ==> (s.hasEvent && t.hasSocket == s.hasSocket &&
         (EvRead in t.events <==> EvRead in s.events && EvRead !in ff) && (EvClose in t.events <==> EvClose in s.events))) &&
      (s.hasEvent && !t.hasEvent ==> IsClosed(t))
  {
    if s.hasEvent && EvRead in ff {
      var s' := s.(events := s.events - {EvRead});
      if recv.res > 0 {
        assert ReadStage(s, ff, recv, data) == Emit(s', ReadComplete(data));
      } else if recv.res == 0 || !recv.blocking {
        assert ReadStage(s, ff, recv, data) == AfterErrorEvent(s', recv.error);
      } else {
        assert ReadStage(s, ff, recv, data) == s';
      }
    }
  }

  /** The close stage closes on a delivered CLOSE bit and otherwise changes nothing. */
  lemma CloseStageFacts(s: AsyncState, ff: Mask)
    ensures var t := CloseStage(s, ff);
      (s.hasEvent && EvClose in ff ==> IsClosed(t) && t.emitted == s.emitted + [SocketError(0)]) &&
      (!(s.hasEvent && EvClose in ff) ==> t == s)
  {
  }

  /** The socket keeps holding a dispatcher only together with its socket. */
  lemma ValidKept(s: AsyncState, ff: Mask, err: int, buffer: seq<Block>, encode: Encoder, send: nat -> SysResult,
                  recv: SysResult, data: seq<byte>, answer: bool)
    requires Valid(s)
    ensures Valid(AfterInit(s).0) && Valid(AfterClose(s))
    ensures Valid(AfterAsyncWrite(s, buffer, encode, send).0) && Valid(AfterAsyncRead(s, answer).0)
    ensures Valid(AfterSocketEvent(s, ff, err, encode, send, recv, data))
  {
    var s' := s.(queue := s.queue + buffer);
    var r' := WriteRun(s', encode, send);
    if s'.writeable && !(s'.queue == [] && s'.staging == []) {
      SettleKeepsOrder(s', false, r');
    }
    if err == 0 {
      var r := WriteRun(s, encode, send);
      var w := WriteStage(s, ff, r);
      WriteStageFacts(s, ff, r);
      var t := ReadStage(w, ff, recv, data);
      ReadStageFacts(w, ff, recv, data);
      CloseStageFacts(t, ff);
    }
  }

  /** An error code closes the socket and signals that error alone; nothing is sent. */
  lemma ErrorOnlySignalsError(s: AsyncState, ff: Mask, err: int, encode: Encoder, send: nat -> SysResult, recv: SysResult, data: seq<byte>)
    requires err != 0
    ensures var t := AfterSocketEvent(s, ff, err, encode, send, recv, data);
      IsClosed(t) && t.emitted == s.emitted + [SocketError(err)] && t.offered == s.offered && t.wire == s.wire
  {
  }

  /**
   * WRITE is handled before READ: with nothing to write, a WRITE|READ event
   * on a successful read signals write completion and then the data.
   */
  lemma WriteBeforeRead(s: AsyncState, ff: Mask, encode: Encoder, send: nat -> SysResult, recv: SysResult, data: seq<byte>)
    requires s.hasEvent && s.queue == [] && s.staging == [] && recv.res > 0
    requires EvWrite in ff && EvRead in ff && EvClose !in ff
    ensures AfterSocketEvent(s, ff, 0, encode, send, recv, data).emitted == s.emitted + [WriteComplete, ReadComplete(data)]
  {
    var r := WriteRun(s, encode, send);
    var w := WriteStage(s, ff, r);
    WriteStageFacts(s, ff, r);
    var t := ReadStage(w, ff, recv, data);
    ReadStageFacts(w, ff, recv, data);
    CloseStageFacts(t, ff);
  }

  /** A delivered CLOSE bit always leaves the socket closed. */
  lemma CloseBitCloses(s: AsyncState, ff: Mask, err: int, encode: Encoder, send: nat -> SysResult, recv: SysResult, data: seq<byte>)
    requires s.hasEvent && EvClose in ff
    ensures IsClosed(AfterSocketEvent(s, ff, err, encode, send, recv, data))
  {
    if err == 0 {
      var r := WriteRun(s, encode, send);
      var w := WriteStage(s, ff, r);
      WriteStageFacts(s, ff, r);
      var t := ReadStage(w, ff, recv, data);
      ReadStageFacts(w, ff, recv, data);
      CloseStageFacts(t, ff);
    }
  }

  /**
   * Each handled bit is cleared: after an event the dispatcher, if still
   * held, has READ enabled exactly when it had it and READ was not delivered.
   */
  lemma ReadBitCleared(s: AsyncState, ff: Mask, encode: Encoder, send: nat -> SysResult, recv: SysResult, data: seq<byte>)
    ensures var t := AfterSocketEvent(s, ff, 0, encode, send, recv, data);
      t.hasEvent ==> (EvRead in t.events <==> EvRead in s.events && EvRead !in ff)
  {
    var r := WriteRun(s, encode, send);
    var w := WriteStage(s, ff, r);
    WriteStageFacts(s, ff, r);
    var t := ReadStage(w, ff, recv, data);
    ReadStageFacts(w, ff, recv, data);
    CloseStageFacts(t, ff);
  }

  /** After an event without error the dispatcher is re-added exactly when it is held with some event enabled. */
  lemma RearmIffEnabled(s: AsyncState, ff: Mask, encode: Encoder, send: nat -> SysResult, recv: SysResult, data: seq<byte>)
    ensures var h := Handled(s, ff, WriteRun(s, encode, send), recv, data);
      var t := AfterSocketEvent(s, ff, 0, encode, send, recv, data);
      (t.calls == h.calls + [Added] <==> h.hasEvent && h.events != {}) &&
      t.hasEvent == h.hasEvent && t.events == h.events && t.emitted == h.emitted
  {
  }

  /** A read signals the data on data, closes on EOF or a hard error, and does nothing on would-block. */
  lemma ReadOutcomes(s: AsyncState, recv: SysResult, data: seq<byte>)
    ensures var t := AfterReadEvent(s, recv, data);
      (recv.res > 0 ==> t == Emit(s, ReadComplete(data))) &&
      (recv.res == 0 || (recv.res < 0 && !recv.blocking) ==> IsClosed(t) && t.emitted == s.emitted + [SocketError(recv.error)]) &&
      (recv.res < 0 && recv.blocking ==> t == s)
  {
  }

  // ---------------------------------------------------------------------------
  // The listener's and the connecter's event handlers.

  /** A socket as handed to a handler: none, or the socket with the given identity. */
  datatype SocketRef = NullSocket | SocketId(id: nat)

  /** A new-connection or server-connected notice: the socket (null on failure) and the error code. */
  datatype Notice = Notice(socket: SocketRef, err: int)

  /** The notices a handler signals and whether it re-adds its dispatcher. */
  datatype Handling = Handling(notices: seq<Notice>, readd: bool)

  /** An error or CLOSE reports failure with a null socket; ACCEPT reports the accepted socket and re-arms. */
  function OnAcceptEvent(ff: Mask, err: int, accepted: SocketRef): (h: Handling)
    ensures |h.notices| <= 1
  {
    if err != 0 || EvClose in ff then Handling([Notice(NullSocket, err)], false)
    else if EvAccept in ff then Handling([Notice(accepted, err)], true)
    else Handling([], false)
  }

  /** An error or CLOSE reports failure with a null socket; CONNECT reports the connected socket. */
  function OnConnectEvent(ff: Mask, err: int, socket: SocketRef): (h: Handling)
    ensures |h.notices| <= 1 && !h.readd
  {
    if err != 0 || EvClose in ff then Handling([Notice(NullSocket, err)], false)
    else if EvConnect in ff then Handling([Notice(socket, err)], false)
    else Handling([], false)
  }

  /**
   * The listener hands a connection on, with error 0, and re-arms exactly on
   * an error-free ACCEPT without CLOSE; any failure is one null notice.
   */
  lemma AcceptHandling(ff: Mask, err: int, accepted: SocketRef)
    ensures var h := OnAcceptEvent(ff, err, accepted);
      (h.readd <==> err == 0 && EvClose !in ff && EvAccept in ff) &&
      (h.readd ==> h.notices == [Notice(accepted, 0)]) &&
      (err != 0 || EvClose in ff ==> h.notices == [Notice(NullSocket, err)])
  {
  }

  /** The connecter reports a non-null socket only for an error-free CONNECT without CLOSE. */
  lemma ConnectHandling(ff: Mask, err: int, socket: SocketRef)
    ensures var h := OnConnectEvent(ff, err, socket);
      (exists n :: n in h.notices && n.socket != NullSocket) <==>
        err == 0 && EvClose !in ff && EvConnect in ff && socket != NullSocket
  {
    var h := OnConnectEvent(ff, err, socket);
    if err == 0 && EvClose !in ff && EvConnect in ff && socket != NullSocket {
      assert h.notices[0] in h.notices;
    }
  }
}
