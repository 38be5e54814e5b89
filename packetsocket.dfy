// Packet framing over a byte stream: an 8-byte header ('V', 'Z', a 16-bit
// flag and a 32-bit payload length, both big-endian) followed by the payload,
// and the socket wrapper that frames writes and reassembles reads.

module PacketSockets {
  import opened Bytes
  import opened MemBuffers

  const PACKET_HEADER_SIZE: nat := 8
  const PACKET_RECV_BUFF_SIZE: nat := 64 * 1024
  const PACKET_BODY_SIZE: nat := PACKET_RECV_BUFF_SIZE - PACKET_HEADER_SIZE

  const U16_LIMIT: nat := 0x1_0000
  const U32_LIMIT: nat := 0x1_0000_0000

  /** The magic bytes 'V' and 'Z'. */
  const MAGIC_V: byte := 0x56
  const MAGIC_Z: byte := 0x5A

  // ---------------------------------------------------------------------------
  // Header encoding.

  /** A 16-bit number in network byte order. */
  function Be16(x: nat): (r: seq<byte>)
    requires x < U16_LIMIT
    ensures |r| == 2
  {
    [(x / 0x100) as byte, (x % 0x100) as byte]
  }

  /** A 32-bit number in network byte order. */
  function Be32(x: nat): (r: seq<byte>)
    requires x < U32_LIMIT
    ensures |r| == 4
  {
    Be16(x / U16_LIMIT) + Be16(x % U16_LIMIT)
  }

  function FromBe16(hi: byte, lo: byte): (x: nat)
    ensures x < U16_LIMIT
  {
    hi as nat * 0x100 + lo as nat
  }

  function FromBe32(s: seq<byte>): (x: nat)
    requires |s| >= 4
    ensures x < U32_LIMIT
  {
    FromBe16(s[0], s[1]) * U16_LIMIT + FromBe16(s[2], s[3])
  }

  lemma Be16RoundTrip(x: nat)
    requires x < U16_LIMIT
    ensures FromBe16(Be16(x)[0], Be16(x)[1]) == x
  {
    assert (x / 0x100) as byte as nat == x / 0x100;
    assert (x % 0x100) as byte as nat == x % 0x100;
  }

  lemma Be16Exact(hi: byte, lo: byte)
    ensures Be16(FromBe16(hi, lo)) == [hi, lo]
  {
    var x := FromBe16(hi, lo);
    assert x / 0x100 == hi as nat && x % 0x100 == lo as nat;
  }

  lemma Be32RoundTrip(x: nat)
    requires x < U32_LIMIT
    ensures FromBe32(Be32(x)) == x
  {
    Be16RoundTrip(x / U16_LIMIT);
    Be16RoundTrip(x % U16_LIMIT);
  }

  lemma Be32Exact(s: seq<byte>)
    requires |s| == 4
    ensures Be32(FromBe32(s)) == s
  {
    var x := FromBe32(s);
    var hi, lo := FromBe16(s[0], s[1]), FromBe16(s[2], s[3]);
    assert x / U16_LIMIT == hi && x % U16_LIMIT == lo;
    Be16Exact(s[0], s[1]);
    Be16Exact(s[2], s[3]);
  }

  /** The header of a packet with this flag and payload length, in network byte order. */
  function HeaderBytes(flag: nat, size: nat): (h: seq<byte>)
    requires flag < U16_LIMIT && size < U32_LIMIT
    ensures |h| == PACKET_HEADER_SIZE && h[0] == MAGIC_V && h[1] == MAGIC_Z
  {
    [MAGIC_V, MAGIC_Z] + Be16(flag) + Be32(size)
  }

  /** A header as read off the wire: whether the magic matched, the flag and the length. */
  datatype Header = Header(magicOk: bool, flag: nat, dataSize: nat)

  /** Reads the first 8 bytes as a header, converting both numbers from network byte order. */
  function ParseHeader(h: seq<byte>): (r: Header)
    requires |h| >= PACKET_HEADER_SIZE
    ensures r.flag < U16_LIMIT && r.dataSize < U32_LIMIT
    ensures r.magicOk <==> h[0] == MAGIC_V && h[1] == MAGIC_Z
  {
    Header(h[0] == MAGIC_V && h[1] == MAGIC_Z, FromBe16(h[2], h[3]), FromBe32(h[4..8]))
  }

  /** Parsing an encoded header gives back its flag and length. */
  lemma HeaderRoundTrip(flag: nat, size: nat)
    requires flag < U16_LIMIT && size < U32_LIMIT
    ensures ParseHeader(HeaderBytes(flag, size)) == Header(true, flag, size)
  {
    var h := HeaderBytes(flag, size);
    assert h[2..4] == Be16(flag) && h[4..8] == Be32(size);
    Be16RoundTrip(flag);
    Be32RoundTrip(size);
  }

  /** A header that parses with the right magic is the encoding of what it parses to. */
  lemma ParseHeaderExact(h: seq<byte>)
    requires |h| == PACKET_HEADER_SIZE && ParseHeader(h).magicOk
    ensures HeaderBytes(ParseHeader(h).flag, ParseHeader(h).dataSize) == h
  {
    Be16Exact(h[2], h[3]);
    Be32Exact(h[4..8]);
    assert h == [h[0], h[1]] + [h[2], h[3]] + h[4..8];
  }

  /** A whole frame: header, then payload. */
  function EncodeFrame(flag: nat, payload: seq<byte>): (f: seq<byte>)
    requires flag < U16_LIMIT && |payload| < U32_LIMIT
    ensures |f| == PACKET_HEADER_SIZE + |payload|
    ensures f[..PACKET_HEADER_SIZE] == HeaderBytes(flag, |payload|) && f[PACKET_HEADER_SIZE..] == payload
  {
    HeaderBytes(flag, |payload|) + payload
  }

  // ---------------------------------------------------------------------------
  // Reassembly, as a function on the received stream.

  /** A packet as delivered to subscribers: its flag and its payload. */
  datatype Packet = Packet(flag: nat, payload: seq<byte>)

  predicate Encodable(p: Packet) { p.flag < U16_LIMIT && |p.payload| < U32_LIMIT }

  /**
   * The result of splitting a stream into frames: the complete packets in
   * order, the unconsumed remainder, and false when a header with the wrong
   * magic was met (the remainder then starts at that header).
   */
  datatype Deframed = Deframed(packets: seq<Packet>, rest: seq<byte>, ok: bool)

  /** The bytes of an unfinished frame: a short header, or a header whose payload has not all arrived. */
  predicate Partial(s: seq<byte>)
  {
    |s| < PACKET_HEADER_SIZE ||
    (ParseHeader(s).magicOk && ParseHeader(s).dataSize > |s| - PACKET_HEADER_SIZE)
  }

  function Deframe(s: seq<byte>): (d: Deframed)
    decreases |s|
  {
    if |s| < PACKET_HEADER_SIZE then Deframed([], s, true)
    else
      var h := ParseHeader(s);
      if !h.magicOk then Deframed([], s, false)
      else if h.dataSize > |s| - PACKET_HEADER_SIZE then Deframed([], s, true)
      else
        var d := Deframe(s[PACKET_HEADER_SIZE + h.dataSize..]);
        Deframed([Packet(h.flag, s[PACKET_HEADER_SIZE..PACKET_HEADER_SIZE + h.dataSize])] + d.packets, d.rest, d.ok)
  }

  /** Packets found before the rest of a stream was deframed. */
  function Prepend(ps: seq<Packet>, d: Deframed): Deframed
  {
    Deframed(ps + d.packets, d.rest, d.ok)
  }

  /**
   * What Deframe leaves over is a suffix of the stream; when no bad header
   * was met it is an unfinished frame, and otherwise it starts with the bad
   * magic.
   */
  lemma {:induction false} DeframeRest(s: seq<byte>)
    ensures |Deframe(s).rest| <= |s| && Deframe(s).rest == s[|s| - |Deframe(s).rest|..]
    ensures Deframe(s).ok ==> Partial(Deframe(s).rest)
    ensures !Deframe(s).ok ==> |Deframe(s).rest| >= PACKET_HEADER_SIZE && !ParseHeader(Deframe(s).rest).magicOk
    decreases |s|
  {
    DeframeSuffix(s);
    DeframeLeftover(s);
  }

  lemma {:induction false} DeframeSuffix(s: seq<byte>)
    ensures |Deframe(s).rest| <= |s| && Deframe(s).rest == s[|s| - |Deframe(s).rest|..]
    decreases |s|
  {
    NextStepDeframe(s);
    if NextStep(s).Complete? {
      var t := s[FrameEnd(s)..];
      DeframeSuffix(t);
      var k := |Deframe(t).rest|;
      assert Deframe(s).rest == Deframe(t).rest;
      assert t[|t| - k..] == s[|s| - k..];
    } else {
      assert s[|s| - |s|..] == s;
    }
  }

  lemma {:induction false} DeframeLeftover(s: seq<byte>)
    ensures Deframe(s).ok ==> Partial(Deframe(s).rest)
    ensures !Deframe(s).ok ==> |Deframe(s).rest| >= PACKET_HEADER_SIZE && !ParseHeader(Deframe(s).rest).magicOk
    decreases |s|
  {
    NextStepDeframe(s);
    if NextStep(s).Complete? {
      var t := s[FrameEnd(s)..];
      DeframeLeftover(t);
      assert Deframe(s).rest == Deframe(t).rest && Deframe(s).ok == Deframe(t).ok;
    }
  }

  /** Every packet found in a stream is encodable. */
  lemma {:induction false} DeframeEncodable(s: seq<byte>)
    ensures forall i :: 0 <= i < |Deframe(s).packets| ==> Encodable(Deframe(s).packets[i])
    decreases |s|
  {
    if |s| >= PACKET_HEADER_SIZE {
      var h := ParseHeader(s);
      if h.magicOk && h.dataSize <= |s| - PACKET_HEADER_SIZE {
        DeframeEncodable(s[PACKET_HEADER_SIZE + h.dataSize..]);
      }
    }
  }

  /** A frame in front of a stream is found first and the rest is deframed as before. */
  lemma DeframeFrame(p: Packet, s: seq<byte>)
    requires Encodable(p)
    ensures Deframe(EncodeFrame(p.flag, p.payload) + s) == Prepend([p], Deframe(s))
  {
    var f := EncodeFrame(p.flag, p.payload);
    var all := f + s;
    HeaderRoundTrip(p.flag, |p.payload|);
    assert all[..PACKET_HEADER_SIZE] == f[..PACKET_HEADER_SIZE];
    assert ParseHeader(all) == ParseHeader(f[..PACKET_HEADER_SIZE]);
    assert all[PACKET_HEADER_SIZE + |p.payload|..] == s;
    assert all[PACKET_HEADER_SIZE..PACKET_HEADER_SIZE + |p.payload|] == p.payload;
  }

  /** The stream of a packet sequence, frame after frame. */
  function EncodeAll(ps: seq<Packet>): (s: seq<byte>)
    requires forall i :: 0 <= i < |ps| ==> Encodable(ps[i])
  {
    if ps == [] then []
    else
      assert Encodable(ps[0]);
      EncodeFrame(ps[0].flag, ps[0].payload) + EncodeAll(ps[1..])
  }

  /** Deframing the encoding of packets yields exactly those packets and no remainder. */
  lemma {:induction false} DeframeEncodeAll(ps: seq<Packet>)
    requires forall i :: 0 <= i < |ps| ==> Encodable(ps[i])
    ensures Deframe(EncodeAll(ps)) == Deframed(ps, [], true)
  {
    if ps != [] {
      DeframeEncodeAll(ps[1..]);
      DeframeFrame(ps[0], EncodeAll(ps[1..]));
      assert [ps[0]] + ps[1..] == ps;
    }
  }

  /**
   * Feeding a stream in two pieces, deframing the first, keeping its rest
   * and prepending it to the second, gives what deframing it whole gives.
   */
  lemma {:induction false} DeframeAppend(a: seq<byte>, b: seq<byte>)
    requires Deframe(a).ok
    ensures Deframe(a + b) == Prepend(Deframe(a).packets, Deframe(Deframe(a).rest + b))
    decreases |a|
  {
    NextStepDeframe(a);
    if NextStep(a).Complete? {
      var n := FrameEnd(a);
      var t := a[n..];
      var p := NextStep(a).packet;
      ParseHeaderPrefix(a, b);
      SliceAppend(a, b, PACKET_HEADER_SIZE, n);
      assert FrameEnd(a + b) == n;
      assert NextStep(a + b) == NextStep(a);
      NextStepDeframe(a + b);
      assert Deframe(a + b) == Prepend([p], Deframe(t + b));
      DeframeAppend(t, b);
      PacketsAssoc([p], Deframe(t).packets, Deframe(Deframe(t).rest + b).packets);
    } else {
      assert Deframe(a).packets + Deframe(a + b).packets == Deframe(a + b).packets;
    }
  }

  lemma SliceAppend(a: seq<byte>, b: seq<byte>, i: nat, j: nat)
    requires i <= j <= |a|
    ensures (a + b)[i..j] == a[i..j] && (a + b)[j..] == a[j..] + b
  {
  }

  /** The first eight bytes decide the header, whatever follows them. */
  lemma ParseHeaderPrefix(a: seq<byte>, b: seq<byte>)
    requires |a| >= PACKET_HEADER_SIZE
    ensures ParseHeader(a + b) == ParseHeader(a)
  {
    assert (a + b)[4..8] == a[4..8];
  }

  /** Deframe on a stream that starts with a complete frame. */
  lemma DeframeStep(s: seq<byte>)
    requires |s| >= PACKET_HEADER_SIZE && ParseHeader(s).magicOk
    requires ParseHeader(s).dataSize <= |s| - PACKET_HEADER_SIZE
    ensures var n := PACKET_HEADER_SIZE + ParseHeader(s).dataSize;
      Deframe(s) == Prepend([Packet(ParseHeader(s).flag, s[PACKET_HEADER_SIZE..n])], Deframe(s[n..]))
  {
  }

  /** Where the frame at the start of s ends. */
  function FrameEnd(s: seq<byte>): nat
    requires |s| >= PACKET_HEADER_SIZE
  {
    PACKET_HEADER_SIZE + ParseHeader(s).dataSize
  }

  /** What one pass of the reassembly loop finds at the start of s. */
  function NextStep(s: seq<byte>): Step
  {
    if |s| < PACKET_HEADER_SIZE then NeedMore
    else if !ParseHeader(s).magicOk then BadMagic
    else if ParseHeader(s).dataSize > |s| - PACKET_HEADER_SIZE then NeedMore
    else Complete(Packet(ParseHeader(s).flag, s[PACKET_HEADER_SIZE..FrameEnd(s)]))
  }

  /**
   * What the packet subscribers receive: all packets, or, when the one at
   * closeAt closes the socket, those up to and including it.
   */
  lemma DeliveredPrefix(d: Deframed, found: seq<Packet>, tail: Deframed, subscribed: bool, closeAt: nat, closed: bool)
    requires d == Prepend(found, tail)
    requires closed ==> subscribed && closeAt + 1 == |found|
    requires !closed ==> tail.packets == [] && (subscribed ==> closeAt >= |found|)
    ensures closed == (subscribed && closeAt < |d.packets|)
    ensures found == d.packets[..if closed then closeAt + 1 else |d.packets|]
    ensures !closed ==> d.rest == tail.rest && d.ok == tail.ok
  {
    assert (found + tail.packets)[..|found|] == found;
  }

  /** One pass of the loop is one step of Deframe. */
  lemma NextStepDeframe(s: seq<byte>)
    ensures NextStep(s).NeedMore? ==> Deframe(s) == Deframed([], s, true) && Partial(s)
    ensures NextStep(s).BadMagic? ==> Deframe(s) == Deframed([], s, false)
    ensures NextStep(s).Complete? ==>
      FrameEnd(s) <= |s| && Deframe(s) == Prepend([NextStep(s).packet], Deframe(s[FrameEnd(s)..]))
  {
    if NextStep(s).Complete? {
      DeframeStep(s);
    }
  }

  lemma PacketsAssoc(a: seq<Packet>, b: seq<Packet>, c: seq<Packet>)
    ensures a + (b + c) == (a + b) + c
  {
  }

  // ---------------------------------------------------------------------------
  // One step of the block walk that collects a frame's blocks.

  /**
   * What the walk does with the front block, once its length has been
   * added to the running total: take it and go on, take it and stop, or
   * split off its first tailLen bytes and stop.
   */
  datatype WalkStep = Continue | Whole | Split(tailLen: int)

  /** A uint32 as a C int: the same bits read as two's complement. */
  function ToInt32(x: nat): int
    requires x < U32_LIMIT
  {
    if x < 0x8000_0000 then x else x - U32_LIMIT
  }

  /**
   * The step as asyncpacketsocket.cpp writes it: the running total less the
   * header size is a uint32 difference, the amount subtracted before the tail
   * length is a size_t difference, and the tail length is stored in an int.
   */
  function StepAsWritten(length: nat, blockSize: nat, dataSize: nat): WalkStep
    requires length < U32_LIMIT && dataSize < U32_LIMIT
  {
    var walked := (length - PACKET_HEADER_SIZE) % U32_LIMIT;
    if walked < dataSize then Continue
    else if walked == dataSize then Whole
    else
      var before := (walked - blockSize) % 0x1_0000_0000_0000_0000;
      Split(ToInt32((dataSize - before) % 0x1_0000_0000_0000_0000 % U32_LIMIT))
  }

  /** The step on mathematical integers. */
  function StepCorrected(length: nat, blockSize: nat, dataSize: nat): WalkStep
  {
    var walked := length - PACKET_HEADER_SIZE;
    if walked < dataSize then Continue
    else if walked == dataSize then Whole
    else Split(dataSize - (walked - blockSize))
  }

  /**
   * When the bytes walked before this block fall short of the frame, the
   * corrected step splits strictly inside the block: a positive tail
   * shorter than the block.
   */
  lemma StepCorrectedSplitsInside(length: nat, blockSize: nat, dataSize: nat)
    requires blockSize <= length && length - blockSize < PACKET_HEADER_SIZE + dataSize
    ensures StepCorrected(length, blockSize, dataSize).Split? ==>
              0 < StepCorrected(length, blockSize, dataSize).tailLen < blockSize
    ensures StepCorrected(length, blockSize, dataSize).Continue? <==> length < PACKET_HEADER_SIZE + dataSize
    ensures StepCorrected(length, blockSize, dataSize).Whole? <==> length == PACKET_HEADER_SIZE + dataSize
  {
  }

  /** Once the running total has reached the header size, both steps agree. */
  lemma StepsAgree(length: nat, blockSize: nat, dataSize: nat)
    requires PACKET_HEADER_SIZE <= length < U32_LIMIT && dataSize < U32_LIMIT
    requires blockSize <= length && length - blockSize < PACKET_HEADER_SIZE + dataSize
    requires blockSize <= DEFAULT_BLOCK_SIZE
    ensures StepAsWritten(length, blockSize, dataSize) == StepCorrected(length, blockSize, dataSize)
  {
    var walked := length - PACKET_HEADER_SIZE;
    assert (length - PACKET_HEADER_SIZE) % U32_LIMIT == walked;
    if walked > dataSize {
      var t := dataSize - (walked - blockSize);
      assert 0 < t < blockSize;
      var before := (walked - blockSize) % 0x1_0000_0000_0000_0000;
      if walked >= blockSize {
        assert before == walked - blockSize;
        assert (dataSize - before) % 0x1_0000_0000_0000_0000 == t;
      } else {
        assert before == walked - blockSize + 0x1_0000_0000_0000_0000;
        assert (dataSize - before) % 0x1_0000_0000_0000_0000 == t;
      }
      assert t % U32_LIMIT == t;
    }
  }

  /**
   * The discrepancy: with nothing buffered from earlier, a front block of 4
   * bytes ('V', 'Z' and the flag) and a one-byte payload still to come from
   * the next block, the uint32 difference 4 - 8 wraps, the step splits, and
   * the tail it asks for (9 bytes) is longer than the block; the corrected
   * step takes the block and goes on.
   */
  lemma StepAsWrittenOverrunsBlock()
    ensures StepAsWritten(4, 4, 1) == Split(9)
    ensures StepCorrected(4, 4, 1) == Continue
  {
    assert (4 - PACKET_HEADER_SIZE) % U32_LIMIT == U32_LIMIT - 4;
    assert (U32_LIMIT - 4 - 4) % 0x1_0000_0000_0000_0000 == U32_LIMIT - 8;
    assert (1 - (U32_LIMIT - 8)) % 0x1_0000_0000_0000_0000 == 0x1_0000_0000_0000_0000 - U32_LIMIT + 9;
    assert (0x1_0000_0000_0000_0000 - U32_LIMIT + 9) % U32_LIMIT == 9;
  }

  /** A frame whose header straddles two blocks takes that path: header 'V','Z',0,1 then 0,0,0,1 and one payload byte. */
  lemma StraddlingFrameParses()
    ensures var s := [MAGIC_V, MAGIC_Z, 0, 1] + [0, 0, 0, 1, 42];
      Deframe(s) == Deframed([Packet(1, [42])], [], true)
  {
    var s: seq<byte> := [MAGIC_V, MAGIC_Z, 0, 1] + [0, 0, 0, 1, 42];
    assert ParseHeader(s) == Header(true, 1, 1);
    assert s[9..] == [];
    assert s[8..9] == [42];
  }

  // ---------------------------------------------------------------------------
  // Facts about moving blocks from the front of one list to the back of another.

  /** Cutting x + y inside x. */
  lemma CutInside(x: seq<byte>, y: seq<byte>, k: nat)
    requires k <= |x|
    ensures (x + y)[..k] == x[..k] && (x + y)[k..] == x[k..] + y
  {
  }

  /** Cutting s at length + k, seen from the cut at length. */
  lemma CutFurther(s: seq<byte>, length: nat, k: nat)
    requires length + k <= |s|
    ensures s[..length + k] == s[..length] + s[length..][..k]
    ensures s[length + k..] == s[length..][k..]
  {
  }

  lemma MoveFront(all: seq<byte>, length: nat, taken: seq<Block>, rest: seq<Block>)
    requires |rest| > 0 && length <= |all| && AllFit(taken) && AllFit(rest)
    requires Flatten(taken) == all[..length] && Flatten(rest) == all[length..]
    ensures AllFit(taken + [rest[0]]) && AllFit(rest[1..])
    ensures length + |rest[0].data| <= |all|
    ensures Flatten(taken + [rest[0]]) == all[..length + |rest[0].data|]
    ensures Flatten(rest[1..]) == all[length + |rest[0].data|..]
  {
    var b := rest[0];
    var k := |b.data|;
    assert Flatten(rest) == b.data + Flatten(rest[1..]);
    FlattenAppend(taken, [b]);
    FlattenSingle(b);
    CutInside(b.data, Flatten(rest[1..]), k);
    assert b.data[..k] == b.data && b.data[k..] == [];
    CutFurther(all, length, k);
    assert Fits(rest[0]);
  }

  lemma SplitFront(all: seq<byte>, length: nat, taken: seq<Block>, rest: seq<Block>, k: nat)
    requires |rest| > 0 && length <= |all| && k <= |rest[0].data| && AllFit(taken) && AllFit(rest)
    requires Flatten(taken) == all[..length] && Flatten(rest) == all[length..]
    ensures AllFit(taken + [Block(rest[0].data[..k], false)])
    ensures AllFit([Block(rest[0].data[k..], rest[0].encodeFlag)] + rest[1..])
    ensures length + k <= |all|
    ensures Flatten(taken + [Block(rest[0].data[..k], false)]) == all[..length + k]
    ensures Flatten([Block(rest[0].data[k..], rest[0].encodeFlag)] + rest[1..]) == all[length + k..]
  {
    var b := rest[0];
    var head := Block(b.data[..k], false);
    var tail := Block(b.data[k..], b.encodeFlag);
    assert Flatten(rest) == b.data + Flatten(rest[1..]);
    FlattenAppend(taken, [head]);
    FlattenSingle(head);
    FlattenCons(tail, rest[1..]);
    CutInside(b.data, Flatten(rest[1..]), k);
    CutFurther(all, length, k);
    assert Fits(rest[0]);
  }

  /**
   * The inner loop of AnalysisPacket: starting from the blocks already
   * collected (usrSize bytes, fewer than one frame), moves front blocks of
   * bs across until 8 + dataSize bytes are collected, splitting the last one
   * when the frame ends inside it. Returns the collected blocks, what stays
   * in bs, and how many bytes moved.
   */
  method CollectFrame(usr: seq<Block>, usrSize: nat, bs: seq<Block>, dataSize: nat)
    returns (taken: seq<Block>, rest: seq<Block>, moved: nat)
    requires AllFit(usr) && AllFit(bs) && usrSize == |Flatten(usr)|
    requires usrSize < PACKET_HEADER_SIZE + dataSize <= usrSize + |Flatten(bs)|
    ensures Flatten(taken) == (Flatten(usr) + Flatten(bs))[..PACKET_HEADER_SIZE + dataSize]
    ensures Flatten(rest) == (Flatten(usr) + Flatten(bs))[PACKET_HEADER_SIZE + dataSize..]
    ensures moved == PACKET_HEADER_SIZE + dataSize - usrSize
    ensures AllFit(taken) && AllFit(rest)
  {
    ghost var all := Flatten(usr) + Flatten(bs);
    var length := usrSize;
    taken, rest, moved := usr, bs, 0;
    assert all[..length] == Flatten(usr) && all[length..] == Flatten(bs);
    while true
      invariant length == usrSize + moved && length < PACKET_HEADER_SIZE + dataSize <= |all|
      invariant Flatten(taken) == all[..length] && Flatten(rest) == all[length..]
      invariant AllFit(taken) && AllFit(rest)
      decreases |rest|
    {
      var block := rest[0];
      assert Fits(block);
      var before := length;
      length := length + |block.data|;
      StepCorrectedSplitsInside(length, |block.data|, dataSize);
      match StepCorrected(length, |block.data|, dataSize)
      case Continue =>
        MoveFront(all, before, taken, rest);
        taken := taken + [block];
        rest := rest[1..];
        moved := moved + |block.data|;
      case Whole =>
        MoveFront(all, before, taken, rest);
        taken := taken + [block];
        rest := rest[1..];
        moved := moved + |block.data|;
        return;
      case Split(tailLen) =>
        var got := BlockReadBytes(block, tailLen);
        SplitFront(all, before, taken, rest, tailLen);
        assert got.1 == block.data[..tailLen] && got.0 == Block(block.data[tailLen..], block.encodeFlag);
        taken := taken + [Block(got.1, false)];
        rest := [got.0] + rest[1..];
        moved := moved + tailLen;
        return;
    }
  }

  /**
   * One complete frame out of blocks: collects it as CollectFrame does, then
   * reads the 8 header bytes off the front of the collected blocks, as
   * MemBuffer.ReadBytes does, leaving the payload.
   */
  method FrameFromBlocks(usr: seq<Block>, usrSize: nat, bs: seq<Block>, dataSize: nat)
    returns (payload: seq<byte>, rest: seq<Block>, moved: nat)
    requires AllFit(usr) && AllFit(bs) && usrSize == |Flatten(usr)|
    requires usrSize < PACKET_HEADER_SIZE + dataSize <= usrSize + |Flatten(bs)|
    ensures payload == (Flatten(usr) + Flatten(bs))[PACKET_HEADER_SIZE..PACKET_HEADER_SIZE + dataSize]
    ensures Flatten(rest) == (Flatten(usr) + Flatten(bs))[PACKET_HEADER_SIZE + dataSize..]
    ensures moved == PACKET_HEADER_SIZE + dataSize - usrSize
    ensures AllFit(rest)
  {
    ghost var all := Flatten(usr) + Flatten(bs);
    var taken;
    taken, rest, moved := CollectFrame(usr, usrSize, bs, dataSize);
    var header, body := ReadFrontBlocks(taken, PACKET_HEADER_SIZE);
    payload := Flatten(body);
    assert all[..PACKET_HEADER_SIZE + dataSize][PACKET_HEADER_SIZE..] == all[PACKET_HEADER_SIZE..PACKET_HEADER_SIZE + dataSize];
  }

  /** The outcome of one pass of the reassembly loop. */
  datatype Step = NeedMore | BadMagic | Complete(packet: Packet)

  // ---------------------------------------------------------------------------

  class AsyncPacketSocket {
    /** Whether the wrapped socket is still held. */
    var hasSocket: bool
    /** Whether the wrapped socket reports itself closed. */
    var socketClosed: bool
    /** Bytes of an unfinished frame carried over between reads. */
    const recvBuff: MemBuffer
    /** Whether anyone listens for packets, errors and write completions. */
    var packetSubscribed: bool
    var errorSubscribed: bool
    var writeSubscribed: bool
    /** Packets delivered to the packet subscribers, in order. */
    var packets: seq<Packet>
    /** Error codes delivered to the error subscribers, in order. */
    var errors: seq<int>
    /** The bytes of each buffer handed to the socket for writing, in order. */
    var written: seq<seq<byte>>
    /** How many reads were requested from the socket. */
    var readRequests: nat

    ghost predicate Valid()
      reads this, recvBuff
    {
      recvBuff.Valid() && Partial(recvBuff.Contents())
    }

    constructor ()
      ensures Valid() && fresh(recvBuff) && recvBuff.Contents() == []
      ensures hasSocket && !socketClosed && packetSubscribed && errorSubscribed && writeSubscribed
      ensures packets == [] && errors == [] && written == [] && readRequests == 0
    {
      recvBuff := new MemBuffer();
      hasSocket, socketClosed := true, false;
      packetSubscribed, errorSubscribed, writeSubscribed := true, true, true;
      packets, errors, written, readRequests := [], [], [], 0;
    }

    /**
     * Frames size bytes of data with flag and hands them to the socket; false,
     * changing nothing, when the socket is gone or closed or the payload is
     * longer than PACKET_BODY_SIZE.
     */
    method AsyncWritePacket(data: seq<byte>, flag: nat) returns (ok: bool)
      requires flag < U16_LIMIT && |data| < U32_LIMIT
      modifies this
      ensures ok <==> old(hasSocket) && !old(socketClosed) && |data| <= PACKET_BODY_SIZE
      ensures ok ==> written == old(written) + [EncodeFrame(flag, data)]
      ensures !ok ==> written == old(written)
      ensures unchanged(this`hasSocket, this`socketClosed, this`packets, this`errors, this`readRequests)
      ensures unchanged(this`packetSubscribed, this`errorSubscribed, this`writeSubscribed)
    {
      if !hasSocket || socketClosed {
        return false;
      }
      if PACKET_BODY_SIZE < |data| {
        return false;
      }
      var dataBuffer := new MemBuffer();
      var header := HeaderBytes(flag, |data|);
      dataBuffer.WriteBytes(header);
      if |data| > 0 {
        dataBuffer.WriteBytes(data);
      } else {
        assert header + data == header;
      }
      var bytes := dataBuffer.ToString();
      assert bytes == EncodeFrame(flag, data);
      written := written + [bytes];
      ok := true;
    }

    /**
     * Frames a buffer with flag: a header block whose length field is the
     * buffer's size cut to 32 bits, followed by the buffer's own blocks. No
     * check is made on the socket or the size.
     */
    method AsyncWriteBuffer(buffer: MemBuffer, flag: nat) returns (ok: bool)
      requires flag < U16_LIMIT && buffer.Valid()
      modifies this
      ensures ok
      ensures written == old(written) + [HeaderBytes(flag, buffer.size % U32_LIMIT) + buffer.Contents()]
      ensures unchanged(this`hasSocket, this`socketClosed, this`packets, this`errors, this`readRequests)
      ensures unchanged(this`packetSubscribed, this`errorSubscribed, this`writeSubscribed)
    {
      var header := HeaderBytes(flag, buffer.size % U32_LIMIT);
      var sendBuffer := new MemBuffer();
      var block := BlockWriteBytes(EmptyBlock, header).0;
      assert block.data == header;
      sendBuffer.AppendBlock(block);
      sendBuffer.AppendBuffer(buffer);
      var bytes := sendBuffer.ToString();
      assert bytes == header + buffer.Contents();
      written := written + [bytes];
      ok := true;
    }

    /** Asks the socket for more data; false when it is gone or closed, else the socket's answer. */
    method AsyncRead(socketAnswer: bool) returns (ok: bool)
      modifies this
      ensures old(hasSocket) && !old(socketClosed) ==> ok == socketAnswer && readRequests == old(readRequests) + 1
      ensures !(old(hasSocket) && !old(socketClosed)) ==> !ok && readRequests == old(readRequests)
      ensures unchanged(this`hasSocket, this`socketClosed, this`packets, this`errors, this`written)
      ensures unchanged(this`packetSubscribed, this`errorSubscribed, this`writeSubscribed)
    {
      if !hasSocket || socketClosed {
        return false;
      }
      readRequests := readRequests + 1;
      ok := socketAnswer;
    }

    /**
     * Closes and drops the socket, reports errorCode to the error subscribers
     * when isSignal is set and anyone listens, and disconnects every subscriber.
     */
    method SignalClose(errorCode: int, isSignal: bool)
      modifies this
      ensures !hasSocket && !packetSubscribed && !errorSubscribed && !writeSubscribed
      ensures socketClosed == (old(socketClosed) || old(hasSocket))
      ensures errors == old(errors) + (if old(errorSubscribed) && isSignal then [errorCode] else [])
      ensures unchanged(this`packets, this`written, this`readRequests)
    {
      if hasSocket {
        socketClosed := true;
        hasSocket := false;
      }
      if errorSubscribed {
        if isSignal {
          errors := errors + [errorCode];
        }
        errorSubscribed := false;
      }
      packetSubscribed := false;
      writeSubscribed := false;
    }

    method Close()
      modifies this
      ensures !hasSocket && !packetSubscribed && !errorSubscribed && !writeSubscribed
      ensures errors == old(errors)
    {
      SignalClose(0, false);
    }

    /**
     * Splits recvBuff followed by buffer into frames and delivers each
     * complete one, in order, to the packet subscribers. closeAt is the index
     * (within this call) of the packet whose subscriber closes the socket, if
     * any: delivery stops there and the call returns true. Otherwise the
     * result is false exactly when a header with the wrong magic is met, and
     * on success recvBuff keeps the unfinished frame that is left.
     */
    method AnalysisPacket(buffer: MemBuffer, closeAt: nat) returns (ok: bool)
      requires Valid() && buffer.Valid() && buffer != recvBuff
      requires hasSocket && !socketClosed
      requires recvBuff.size + buffer.size < U32_LIMIT
      modifies this, recvBuff, buffer
      ensures Valid() && buffer.Valid()
      ensures var d := Deframe(old(recvBuff.Contents()) + old(buffer.Contents()));
        var closed := old(packetSubscribed) && closeAt < |d.packets|;
        var n := if closed then closeAt + 1 else |d.packets|;
        packets == old(packets) + (if old(packetSubscribed) then d.packets[..n] else []) &&
        (closed ==> ok && !hasSocket && recvBuff.Contents() == []) &&
        (!closed ==> ok == d.ok && hasSocket && !socketClosed && packetSubscribed == old(packetSubscribed)) &&
        (!closed && ok ==> recvBuff.Contents() == d.rest) &&
        (!closed && !ok ==> recvBuff.Contents() + buffer.Contents() == d.rest) &&
        (!closed ==> errorSubscribed == old(errorSubscribed))
      ensures errors == old(errors)
      ensures unchanged(this`written, this`readRequests)
    {
      ghost var s := recvBuff.Contents() + buffer.Contents();
      ghost var found, closed, tail;
      ok, found, closed, tail := DeliverFrames(buffer, closeAt);
      DeliveredPrefix(Deframe(s), found, tail, old(packetSubscribed), closeAt, closed);
    }

    /**
     * The loop of AnalysisPacket. found are the packets met, in order;
     * closed says whether delivering the last of them closed the socket.
     * Unless it did, the stream deframes to found followed by nothing, and
     * ok and the remainder are as Deframe leaves them.
     */
    method DeliverFrames(buffer: MemBuffer, closeAt: nat)
      returns (ok: bool, ghost found: seq<Packet>, ghost closed: bool, ghost tail: Deframed)
      requires Valid() && buffer.Valid() && buffer != recvBuff
      requires hasSocket && !socketClosed
      requires recvBuff.size + buffer.size < U32_LIMIT
      modifies this, recvBuff, buffer
      ensures Valid() && buffer.Valid()
      ensures Deframe(old(recvBuff.Contents()) + old(buffer.Contents())) == Prepend(found, tail)
      ensures closed ==> ok && old(packetSubscribed) && closeAt + 1 == |found| && !hasSocket && recvBuff.Contents() == []
      ensures !closed ==> tail.packets == [] && tail.ok == ok && (old(packetSubscribed) ==> closeAt >= |found|)
      ensures !closed ==> hasSocket && !socketClosed && packetSubscribed == old(packetSubscribed) && errorSubscribed == old(errorSubscribed)
      ensures !closed && ok ==> recvBuff.Contents() == tail.rest
      ensures !closed && !ok ==> recvBuff.Contents() + buffer.Contents() == tail.rest
      ensures packets == old(packets) + (if old(packetSubscribed) then found else [])
      ensures errors == old(errors)
      ensures unchanged(this`written, this`readRequests)
    {
      ghost var d := Deframe(recvBuff.Contents() + buffer.Contents());
      ghost var cur := recvBuff.Contents() + buffer.Contents();
      found, closed := [], false;
      ghost var before := packets;
      var count := 0;
      while true
        invariant recvBuff.Valid() && buffer.Valid() && Partial(recvBuff.Contents())
        invariant recvBuff.size + buffer.size < U32_LIMIT
        invariant cur == recvBuff.Contents() + buffer.Contents()
        invariant d == Prepend(found, Deframe(cur))
        invariant hasSocket && !socketClosed && packetSubscribed == old(packetSubscribed)
        invariant packetSubscribed ==> closeAt >= count
        invariant packets == before + (if packetSubscribed then found else [])
        invariant errors == old(errors) && errorSubscribed == old(errorSubscribed)
        invariant found != [] ==> recvBuff.Contents() == []
        invariant count == |found|
        invariant unchanged(this`written, this`readRequests)
        decreases recvBuff.size + buffer.size
      {
        var step := ParseStep(buffer);
        NextStepDeframe(cur);
        if !step.Complete? {
          ok, tail := step.NeedMore?, Deframe(cur);
          break;
        }
        var p := step.packet;
        ghost var next := recvBuff.Contents() + buffer.Contents();
        assert next == cur[FrameEnd(cur)..];
        PacketsAssoc(found, [p], Deframe(next).packets);
        PacketsAssoc(before, found, [p]);
        Deliver(p, closeAt == count);
        found := found + [p];
        count := count + 1;
        cur := next;
        if !hasSocket {
          ok, closed, tail := true, true, Deframe(cur);
          break;
        }
      }
    }

    /**
     * Hands p to the packet subscribers, if any; closing says whether the
     * subscriber closes the socket while handling it.
     */
    method Deliver(p: Packet, closing: bool)
      modifies this
      ensures packets == old(packets) + (if old(packetSubscribed) then [p] else [])
      ensures old(packetSubscribed) && closing ==> !hasSocket
      ensures !(old(packetSubscribed) && closing) ==>
        hasSocket == old(hasSocket) && socketClosed == old(socketClosed) &&
        packetSubscribed == old(packetSubscribed) && errorSubscribed == old(errorSubscribed)
      ensures errors == old(errors)
      ensures unchanged(this`written, this`readRequests)
    {
      if packetSubscribed {
        packets := packets + [p];
        if closing {
          SignalClose(0, false);
        }
      }
    }

    /**
     * One pass of the AnalysisPacket loop over recvBuff followed by buffer:
     * fewer bytes than a header, or a frame whose payload has not all
     * arrived, moves buffer's blocks into recvBuff; a bad magic changes
     * nothing; a complete frame is taken out and returned.
     */
    method ParseStep(buffer: MemBuffer) returns (step: Step)
      requires recvBuff.Valid() && buffer.Valid() && buffer != recvBuff
      requires Partial(recvBuff.Contents()) && recvBuff.size + buffer.size < U32_LIMIT
      modifies recvBuff, buffer
      ensures recvBuff.Valid() && buffer.Valid()
      ensures step == NextStep(old(recvBuff.Contents() + buffer.Contents()))
      ensures step.NeedMore? ==> recvBuff.Contents() == old(recvBuff.Contents() + buffer.Contents())
      ensures step.BadMagic? ==> recvBuff.Contents() == old(recvBuff.Contents()) && buffer.Contents() == old(buffer.Contents())
      ensures step.Complete? ==> recvBuff.Contents() == []
      ensures step.Complete? ==>
        buffer.Contents() == old(recvBuff.Contents() + buffer.Contents())[FrameEnd(old(recvBuff.Contents() + buffer.Contents()))..]
    {
      ghost var r := recvBuff.Contents() + buffer.Contents();
      var recvSize := recvBuff.size + buffer.size;
      if recvSize < PACKET_HEADER_SIZE {
        recvBuff.AppendBuffer(buffer);
        return NeedMore;
      }
      var header := ReadHeader(recvBuff, buffer);
      var h := ParseHeader(header);
      assert ParseHeader(r) == h by {
        assert r[..PACKET_HEADER_SIZE] == header;
      }
      if !h.magicOk {
        return BadMagic;
      }
      if h.dataSize > recvSize - PACKET_HEADER_SIZE {
        recvBuff.AppendBuffer(buffer);
        return NeedMore;
      }
      var p := TakeFrame(buffer, h);
      step := Complete(p);
    }

    /**
     * Collects the frame that starts recvBuff followed by buffer: recvBuff's
     * blocks, then front blocks of buffer, the last one split when the frame
     * ends inside it; strips the header and returns the packet.
     */
    method TakeFrame(buffer: MemBuffer, h: Header) returns (p: Packet)
      requires recvBuff.Valid() && buffer.Valid() && buffer != recvBuff
      requires Partial(recvBuff.Contents()) && |recvBuff.Contents() + buffer.Contents()| >= PACKET_HEADER_SIZE
      requires h == ParseHeader(recvBuff.Contents() + buffer.Contents()) && h.magicOk
      requires h.dataSize <= recvBuff.size + buffer.size - PACKET_HEADER_SIZE
      modifies recvBuff, buffer
      ensures recvBuff.Valid() && buffer.Valid() && recvBuff.Contents() == []
      ensures var r := old(recvBuff.Contents() + buffer.Contents());
        var total := PACKET_HEADER_SIZE + h.dataSize;
        p == Packet(h.flag, r[PACKET_HEADER_SIZE..total]) && buffer.Contents() == r[total..]
    {
      ghost var r := recvBuff.Contents() + buffer.Contents();
      var usrBlocks, usrSize := [], 0;
      if recvBuff.size > 0 {
        usrBlocks, usrSize := recvBuff.blocks, recvBuff.size;
        recvBuff.Clear();
      }
      assert Flatten(usrBlocks) + Flatten(buffer.blocks) == r;
      assert usrSize < PACKET_HEADER_SIZE + h.dataSize by {
        if usrSize >= PACKET_HEADER_SIZE {
          ParseHeaderPrefix(Flatten(usrBlocks), Flatten(buffer.blocks));
        }
      }
      var payload, rest, moved := FrameFromBlocks(usrBlocks, usrSize, buffer.blocks, h.dataSize);
      buffer.blocks, buffer.size := rest, buffer.size - moved;
      p := Packet(h.flag, payload);
    }

    /** Handles data read by the socket: reassembles it, closing the socket with error 1 on a bad header, else asks for more. */
    method OnAsyncSocketReadEvent(data: MemBuffer, closeAt: nat, socketAnswer: bool)
      requires Valid() && data.Valid() && data != recvBuff
      requires recvBuff.size + data.size < U32_LIMIT
      modifies this, recvBuff, data
      ensures Valid()
      ensures !(old(hasSocket) && !old(socketClosed)) ==>
                packets == old(packets) && errors == old(errors) && readRequests == old(readRequests)
      ensures old(hasSocket) && !old(socketClosed) ==>
        var d := Deframe(old(recvBuff.Contents()) + old(data.Contents()));
        var closed := old(packetSubscribed) && closeAt < |d.packets|;
        (!closed && !d.ok ==> !hasSocket && errors == old(errors) + (if old(errorSubscribed) then [1] else [])) &&
        (!closed && d.ok ==> hasSocket && readRequests == old(readRequests) + 1 && errors == old(errors)) &&
        (closed ==> !hasSocket && readRequests == old(readRequests) && errors == old(errors))
    {
      if !hasSocket || socketClosed {
        return;
      }
      var ok := AnalysisPacket(data, closeAt);
      if !ok {
        SignalClose(1, true);
      } else {
        var requested := AsyncRead(socketAnswer);
      }
    }

    /** An error from the socket closes everything and is reported to the error subscribers. */
    method OnAsyncSocketErrorEvent(errorCode: int)
      modifies this
      ensures !hasSocket && errors == old(errors) + (if old(errorSubscribed) then [errorCode] else [])
    {
      SignalClose(errorCode, true);
    }
  }

  /**
   * The first 8 bytes of a followed by b, read as AnalysisPacket reads
   * them: from a alone, from b alone when a is empty, or from both.
   */
  method ReadHeader(a: MemBuffer, b: MemBuffer) returns (header: seq<byte>)
    requires a.Valid() && b.Valid() && a.size + b.size >= PACKET_HEADER_SIZE
    requires a.size + b.size < U32_LIMIT
    ensures header == (a.Contents() + b.Contents())[..PACKET_HEADER_SIZE]
  {
    if a.size >= PACKET_HEADER_SIZE {
      var copied, h := a.CopyBytes(0, PACKET_HEADER_SIZE);
      header := h;
    } else if a.size == 0 {
      var copied, h := b.CopyBytes(0, PACKET_HEADER_SIZE);
      header := h;
    } else {
      var headLen := a.size;
      var copied1, h1 := a.CopyBytes(0, headLen);
      var copied2, h2 := b.CopyBytes(0, PACKET_HEADER_SIZE - headLen);
      header := h1 + h2;
    }
  }
}
