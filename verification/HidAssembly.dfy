/**
 Incoming CTAPHID reports of fidohid/fidohid.go: `parsePackets` and the reassembly of messages,
 with the round trip through the frames that `writeRespose` cuts.
 */
module HidAssembly {
  import opened Bytes
  import opened HidFraming

  datatype Packet = Packet(channel: u32, initial: bool, command: byte, seqNo: byte, total: u16, data: seq<byte>)

  /** `packetReader`: the first failed read makes all later ones fail. */
  class PacketReader {
    var rest: seq<byte>
    var err: bool

    constructor (data: seq<byte>)
      ensures rest == data && !err
    {
      rest, err := data, false;
    }

    method ReadFull(n: nat) returns (b: seq<byte>, ok: bool)
      modifies this
      ensures ok == !err == (!old(err) && n <= |old(rest)|)
      ensures ok ==> b == old(rest)[..n] && rest == old(rest)[n..]
      ensures !ok ==> b == [] && rest == if old(err) then old(rest) else []
    {
      if err {
        return [], false;
      }
      if n <= |rest| {
        b, rest, ok := rest[..n], rest[n..], true;
      } else {
        b, rest, err, ok := [], [], true, false;
      }
    }
  }

  /** The packet in a report: both kinds of frame fill 64 bytes after the report byte. */
  function PacketIn(data: seq<byte>): Option<Packet> {
    if |data| < 1 + REPORT_LEN then None
    else if data[5] >= 0x80 then
      Some(Packet(ReadU32(data[1..5]), true, data[5] - 0x80, 0, ReadU16(data[6..8]), data[8..65]))
    else Some(Packet(ReadU32(data[1..5]), false, 0, data[5], 0, data[6..65]))
  }

  method ParsePacket(data: seq<byte>) returns (p: Option<Packet>)
    ensures p == PacketIn(data)
  {
    var r := new PacketReader(data);
    var b, ok := r.ReadFull(1);
    var channel: u32 := 0;
    b, ok := r.ReadFull(4);
    if ok {
      assert b == data[1..5];
      channel := ReadU32(b);
    }
    b, ok := r.ReadFull(1);
    if !ok {
      return None;
    }
    assert r.rest == data[6..];
    var typeOrSeqNo := b[0];
    if typeOrSeqNo >= 0x80 {
      var total: u16 := 0;
      b, ok := r.ReadFull(2);
      if ok {
        assert b == data[6..8];
        total := ReadU16(b);
      }
      b, ok := r.ReadFull(INIT_DATA);
      if !ok {
        return None;
      }
      assert b == data[8..65];
      return Some(Packet(channel, true, typeOrSeqNo - 0x80, 0, total, b));
    } else {
      b, ok := r.ReadFull(CONT_DATA);
      if !ok {
        return None;
      }
      assert b == data[6..65];
      return Some(Packet(channel, false, 0, typeOrSeqNo, 0, b));
    }
  }

  /** An event of the uhid device; only output events carry a report from the host. */
  datatype Event = Event(err: bool, output: bool, data: seq<byte>)

  function PacketsOf(e: Event): (ps: seq<Packet>)
    ensures forall p :: p in ps ==> WellFormed(p)
  {
    if e.output && PacketIn(e.data).Some? then [PacketIn(e.data).value] else []
  }

  /** All packets of a stream of events; a device error ends the program. */
  function Packets(es: seq<Event>): (ps: seq<Packet>)
    ensures forall p :: p in ps ==> WellFormed(p)
  {
    if es == [] || es[0].err then [] else PacketsOf(es[0]) + Packets(es[1..])
  }

  predicate NoErrors(es: seq<Event>) {
    forall i :: 0 <= i < |es| ==> !es[i].err
  }

  /** Events other than reports from the host, and reports that are too short, leave no trace. */
  lemma {:induction false} OtherEventsAreInvisible(es: seq<Event>, e: Event, fs: seq<Event>)
    requires NoErrors(es) && !e.err && (!e.output || |e.data| < 65)
    ensures Packets(es + [e] + fs) == Packets(es + fs)
  {
    if es == [] {
      assert ([e] + fs)[1..] == fs && es + [e] + fs == [e] + fs && es + fs == fs;
      assert PacketsOf(e) == [];
    } else {
      hide PacketsOf;
      assert !es[0].err && NoErrors(es[1..]);
      OtherEventsAreInvisible(es[1..], e, fs);
      assert (es + [e] + fs)[1..] == es[1..] + [e] + fs && (es + fs)[1..] == es[1..] + fs;
    }
  }

  method ParsePackets(es: seq<Event>) returns (ps: seq<Packet>, fatal: bool)
    ensures ps == Packets(es)
    ensures fatal <==> !NoErrors(es)
  {
    hide PacketIn;
    ps := [];
    var i := 0;
    while i < |es|
      invariant 0 <= i <= |es|
      invariant Packets(es) == ps + Packets(es[i..])
      invariant forall j :: 0 <= j < i ==> !es[j].err
    {
      if es[i].err {
        return ps, true;
      }
      assert es[i..][1..] == es[i + 1..];
      ConcatAssociates(ps, PacketsOf(es[i]), Packets(es[i + 1..]));
      if es[i].output {
        var p := ParsePacket(es[i].data);
        if p.Some? {
          ps := ps + [p.value];
        }
      }
      i := i + 1;
    }
    fatal := false;
  }

  /** What `parsePackets` hands over always has a full data field. */
  predicate WellFormed(p: Packet) {
    |p.data| == if p.initial then INIT_DATA else CONT_DATA
  }

  datatype Message = Message(channel: u32, command: byte, payload: seq<byte>)

  /** The variables of the reassembly loop. */
  datatype Assembler = Assembler(inner: seq<byte>, need: u16, channel: u32, command: byte)

  const IDLE := Assembler([], 0, 0, 0)

  /** One packet: an initial one discards what is pending, and enough bytes complete a message. */
  function Step(a: Assembler, p: Packet): (Assembler, seq<Message>) {
    var b := if p.initial then Assembler(p.data, p.total, p.channel, p.command) else a.(inner := a.inner + p.data);
    if |b.inner| >= b.need then (IDLE, [Message(b.channel, b.command, b.inner[..b.need])]) else (b, [])
  }

  function Feed(a: Assembler, ps: seq<Packet>): (Assembler, seq<Message>)
    decreases |ps|
  {
    if ps == [] then (a, []) else
    var (b, ms) := Feed(a, ps[..|ps| - 1]);
    var (c, m) := Step(b, ps[|ps| - 1]);
    (c, ms + m)
  }

  lemma {:induction false} FeedAppend(a: Assembler, ps: seq<Packet>, qs: seq<Packet>)
    ensures Feed(a, ps + qs).0 == Feed(Feed(a, ps).0, qs).0
    ensures Feed(a, ps + qs).1 == Feed(a, ps).1 + Feed(Feed(a, ps).0, qs).1
    decreases |qs|
  {
    if qs == [] {
      assert ps + qs == ps;
    } else {
      FeedAppend(a, ps, qs[..|qs| - 1]);
      assert (ps + qs)[..|ps + qs| - 1] == ps + qs[..|qs| - 1];
    }
  }

  lemma FeedOne(a: Assembler, p: Packet)
    ensures Feed(a, [p]).0 == Step(a, p).0
    ensures Feed(a, [p]).1 == Step(a, p).1
  {
    assert [p][..0] == [];
  }

  /** The inner loop of `Run`: packets are taken from position `from` on until a message is complete. */
  method ReadMessage(pkts: seq<Packet>, from: nat) returns (m: Option<Message>, next: nat)
    requires from <= |pkts|
    ensures from <= next <= |pkts|
    ensures m.Some? ==> from < next && Feed(IDLE, pkts[from..next]).0 == IDLE
    ensures m.Some? ==> Feed(IDLE, pkts[from..next]).1 == [m.value]
    ensures m.None? ==> next == |pkts| && Feed(IDLE, pkts[from..next]).1 == []
  {
    var innerMsg: seq<byte>, needSize: u16, reqChan: u32, cmd: byte := [], 0, 0, 0;
    next := from;
    assert pkts[from..next] == [];
    while next < |pkts|
      invariant from <= next <= |pkts|
      invariant Feed(IDLE, pkts[from..next]).0 == Assembler(innerMsg, needSize, reqChan, cmd)
      invariant Feed(IDLE, pkts[from..next]).1 == []
    {
      var pkt := pkts[next];
      next := next + 1;
      assert pkts[from..next][..next - 1 - from] == pkts[from..next - 1];
      if pkt.initial {
        if |innerMsg| > 0 {
          innerMsg := [];
          needSize := 0;
        }
        needSize := pkt.total;
        reqChan := pkt.channel;
        cmd := pkt.command;
      }
      innerMsg := innerMsg + pkt.data;
      assert pkt.initial ==> innerMsg == pkt.data;
      if |innerMsg| >= needSize {
        return Some(Message(reqChan, cmd, innerMsg[..needSize])), next;
      }
    }
    m := None;
  }

  /** The invariant of the loop: nothing pending, or a non-empty buffer still short of its size. */
  predicate Sound(a: Assembler) {
    a == IDLE || 0 < |a.inner| < a.need
  }

  /** One packet keeps the invariant. The buffer overshoots a finished message by at most that
      packet's data, and every continuation that does not finish it brings the end 59 bytes closer. */
  lemma StepIsSafe(a: Assembler, p: Packet)
    requires Sound(a) && WellFormed(p)
    ensures var (b, ms) := Step(a, p);
            && Sound(b) && |ms| <= 1
            && (ms != [] ==> b == IDLE && |ms[0].payload| <= (if p.initial then 0 else |a.inner|) + |p.data|
                             && (a == IDLE || p.initial || |ms[0].payload| > |a.inner|))
            && (ms == [] && !p.initial ==> b.need - |b.inner| == a.need - |a.inner| - CONT_DATA)
  {}

  lemma {:induction false} FeedIsSafe(a: Assembler, ps: seq<Packet>)
    requires Sound(a) && forall p :: p in ps ==> WellFormed(p)
    ensures Sound(Feed(a, ps).0)
    decreases |ps|
  {
    if ps != [] {
      FeedIsSafe(a, ps[..|ps| - 1]);
      StepIsSafe(Feed(a, ps[..|ps| - 1]).0, ps[|ps| - 1]);
    }
  }

  /** A continuation outside any message is taken for a complete empty message with command 0 on
      channel 0, whatever channel it came from. */
  lemma StrayContinuation(p: Packet)
    requires !p.initial
    ensures Step(IDLE, p) == (IDLE, [Message(0, 0, [])])
  {}

  /** Neither the channel nor the number of a continuation is looked at. */
  ghost predicate SameUpToUnchecked(ps: seq<Packet>, qs: seq<Packet>) {
    |ps| == |qs| && forall i :: 0 <= i < |ps| ==>
      if ps[i].initial then qs[i] == ps[i] else !qs[i].initial && qs[i].data == ps[i].data
  }

  lemma {:induction false} ContinuationHeadersAreIgnored(a: Assembler, ps: seq<Packet>, qs: seq<Packet>)
    requires SameUpToUnchecked(ps, qs)
    ensures Feed(a, ps).0 == Feed(a, qs).0 && Feed(a, ps).1 == Feed(a, qs).1
    decreases |ps|
  {
    if ps != [] {
      ContinuationHeadersAreIgnored(a, ps[..|ps| - 1], qs[..|qs| - 1]);
    }
  }

  function DataOf(ps: seq<Packet>): seq<byte> {
    if ps == [] then [] else ps[0].data + DataOf(ps[1..])
  }

  lemma {:induction false} DataOfAppend(ps: seq<Packet>, qs: seq<Packet>)
    ensures DataOf(ps + qs) == DataOf(ps) + DataOf(qs)
  {
    if ps == [] {
      assert ps + qs == qs;
    } else {
      DataOfAppend(ps[1..], qs);
      assert (ps + qs)[0] == ps[0] && (ps + qs)[1..] == ps[1..] + qs;
      ConcatAssociates(ps[0].data, DataOf(ps[1..]), DataOf(qs));
    }
  }

  lemma DataOfOne(p: Packet)
    ensures DataOf([p]) == p.data
  {
    assert [p][1..] == [];
  }

  lemma DataOfSnoc(ps: seq<Packet>)
    requires ps != []
    ensures DataOf(ps) == DataOf(ps[..|ps| - 1]) + ps[|ps| - 1].data
  {
    hide DataOf;
    var front, last := ps[..|ps| - 1], ps[|ps| - 1];
    assert front + [last] == ps;
    DataOfOne(last);
    DataOfAppend(front, [last]);
  }

  ghost predicate Continuations(ps: seq<Packet>) {
    forall p :: p in ps ==> !p.initial && WellFormed(p)
  }

  lemma {:induction false} ContinuationBytes(ps: seq<Packet>)
    requires Continuations(ps)
    ensures |DataOf(ps)| == 59 * |ps|
  {
    if ps != [] {
      ContinuationBytes(ps[1..]);
    }
  }

  /** After an initial packet and continuations that do not yet suffice, all their bytes are pending. */
  lemma {:induction false} StillPending(a: Assembler, p: Packet, cs: seq<Packet>)
    requires p.initial && WellFormed(p) && Continuations(cs) && 57 + 59 * |cs| < p.total
    ensures Feed(a, [p] + cs).0 == Assembler(p.data + DataOf(cs), p.total, p.channel, p.command)
    ensures Feed(a, [p] + cs).1 == []
    decreases |cs|
  {
    if cs == [] {
      assert [p] + cs == [p];
      FeedOne(a, p);
      assert p.data + DataOf(cs) == p.data;
    } else {
      var n := |cs| - 1;
      StillPending(a, p, cs[..n]);
      assert ([p] + cs)[..n + 1] == [p] + cs[..n];
      DataOfSnoc(cs);
      ContinuationBytes(cs[..n]);
      assert p.data + DataOf(cs) == p.data + DataOf(cs[..n]) + cs[n].data;
    }
  }

  /** From whatever state, an initial packet followed by the continuations its total size calls for,
      1111 packets at most, is one message: the first `total` bytes of their data. */
  lemma Completion(a: Assembler, p: Packet, cs: seq<Packet>)
    requires p.initial && WellFormed(p) && Continuations(cs) && |cs| == ContCount(p.total - INIT_DATA)
    ensures |p.data + DataOf(cs)| >= p.total && |[p] + cs| <= 1111
    ensures Feed(a, [p] + cs).0 == IDLE
    ensures Feed(a, [p] + cs).1 == [Message(p.channel, p.command, (p.data + DataOf(cs))[..p.total])]
  {
    ContinuationBytes(cs);
    if cs == [] {
      assert [p] + cs == [p];
      FeedOne(a, p);
      assert p.data + DataOf(cs) == p.data;
    } else {
      var n := |cs| - 1;
      StillPending(a, p, cs[..n]);
      assert ([p] + cs)[..n + 1] == [p] + cs[..n];
      DataOfSnoc(cs);
      ContinuationBytes(cs[..n]);
      assert p.data + DataOf(cs) == p.data + DataOf(cs[..n]) + cs[n].data;
    }
  }

  /** Progress: continuations that complete nothing each bring the end 59 bytes closer, so there are
      at most 1110 of them in a row, whatever channels they come from. */
  lemma {:induction false} NoEndlessMessage(a: Assembler, cs: seq<Packet>)
    requires Sound(a) && Continuations(cs) && cs != [] && Feed(a, cs).1 == []
    ensures var b := Feed(a, cs).0;
            a != IDLE && b != IDLE && Sound(b) && b.need - |b.inner| == a.need - |a.inner| - CONT_DATA * |cs|
    ensures |cs| <= 1110
    decreases |cs|
  {
    var n := |cs| - 1;
    if n > 0 {
      NoEndlessMessage(a, cs[..n]);
    }
    StepIsSafe(Feed(a, cs[..n]).0, cs[n]);
  }

  /** The packet a frame is parsed to, read at fixed offsets. */
  function PacketOf(f: Frame): (p: Packet)
    ensures WellFormed(p)
  {
    if f[4] >= 0x80 then Packet(ReadU32(f[..4]), true, f[4] - 0x80, 0, ReadU16(f[5..7]), f[7..])
    else Packet(ReadU32(f[..4]), false, 0, f[4], 0, f[5..])
  }

  function Received(frames: seq<Frame>): seq<Packet> {
    seq(|frames|, i requires 0 <= i < |frames| => PacketOf(frames[i]))
  }

  /** Frames as they reach the other side: one report byte, then the frame. */
  function Reports(tag: byte, frames: seq<Frame>): seq<Event> {
    if frames == [] then [] else [Event(false, true, [tag] + frames[0])] + Reports(tag, frames[1..])
  }

  lemma FrameInReport(tag: byte, f: Frame)
    ensures PacketsOf(Event(false, true, [tag] + f)) == [PacketOf(f)]
  {
    var d := [tag] + f;
    assert d[1..5] == f[..4] && d[6..8] == f[5..7] && d[8..65] == f[7..] && d[6..65] == f[5..];
  }

  lemma {:induction false} ReportsAreReceived(tag: byte, frames: seq<Frame>)
    ensures Packets(Reports(tag, frames)) == Received(frames)
  {
    if frames != [] {
      hide PacketsOf, PacketOf;
      ReportsAreReceived(tag, frames[1..]);
      FrameInReport(tag, frames[0]);
      assert Reports(tag, frames)[1..] == Reports(tag, frames[1..]);
      assert Received(frames) == [PacketOf(frames[0])] + Received(frames[1..]);
    }
  }

  lemma {:induction false} PacketsAppend(es: seq<Event>, fs: seq<Event>)
    requires NoErrors(es)
    ensures Packets(es + fs) == Packets(es) + Packets(fs)
  {
    hide PacketsOf, WellFormed;
    if es == [] {
      assert es + fs == fs;
    } else {
      assert !es[0].err && NoErrors(es[1..]);
      hide NoErrors;
      PacketsAppend(es[1..], fs);
      assert (es + fs)[0] == es[0] && (es + fs)[1..] == es[1..] + fs;
      ConcatAssociates(PacketsOf(es[0]), Packets(es[1..]), Packets(fs));
    }
  }

  lemma ReceivedAppend(fs: seq<Frame>, gs: seq<Frame>)
    ensures Received(fs + gs) == Received(fs) + Received(gs)
  {}

  lemma {:induction false} ReceivedData(frames: seq<Frame>)
    requires forall f :: f in frames ==> f[4] < 0x80
    ensures Continuations(Received(frames))
    ensures DataOf(Received(frames)) == Flatten(Slots(frames, 5))
  {
    if frames != [] {
      hide Slots, Flatten;
      ReceivedData(frames[1..]);
      SlotsCons(frames[0], frames[1..], 5);
      assert frames == [frames[0]] + frames[1..];
      assert Received(frames)[1..] == Received(frames[1..]);
    }
  }

  /** What the first frame of a message is parsed to. */
  lemma InitialPacket(channel: u32, cmd: byte, data: seq<byte>)
    requires cmd < 0x80 && data != []
    ensures PacketOf(Frames(channel, cmd, data)[0])
         == Packet(channel, true, cmd, 0, |data| % 0x1_0000, Frames(channel, cmd, data)[0][7..])
  {
    FrameInitFields(channel, cmd, data);
    U32RoundTrip(channel);
    U16RoundTrip(|data| % 0x1_0000);
  }

  ghost predicate Deliverable(m: Message) {
    m.command < 0x80 && 1 <= |m.payload| <= MAX_MESSAGE
  }

  function FramesOf(m: Message): seq<Frame> {
    Frames(m.channel, m.command, m.payload)
  }

  /** The packets of one message: its initial packet and its continuations. */
  lemma MessagePackets(m: Message)
    requires Deliverable(m)
    ensures FramesOf(m) != []
    ensures var fs := FramesOf(m);
            var p, cs := PacketOf(fs[0]), Received(fs[1..]);
            && Received(fs) == [p] + cs
            && p.initial && p.channel == m.channel && p.command == m.command && p.total == |m.payload|
            && Continuations(cs) && |cs| == ContCount(|m.payload| - INIT_DATA)
            && p.data + DataOf(cs) == Pad(m.payload, 57 + 59 * |cs|)
  {
    hide FrameInit.Marshal, FrameCont.Marshal, Pad, ReadU16, ReadU32, Slots, Flatten;
    var fs := FramesOf(m);
    FrameCount(m.channel, m.command, m.payload);
    InitialPacket(m.channel, m.command, m.payload);
    FrameDataConcatenates(m.channel, m.command, m.payload);
    SequenceNumbers(m.channel, m.command, m.payload);
    forall f | f in fs[1..] ensures f[4] < 0x80 {
      var i :| 0 <= i < |fs[1..]| && fs[1..][i] == f;
      assert fs[i + 1][4] < 0x80;
    }
    ReceivedData(fs[1..]);
  }

  /** Round trip and resynchronisation in one: from whatever state the reassembler is in, the frames
      of one message yield exactly that message, and nothing is left over. */
  lemma MessageRoundTrip(a: Assembler, m: Message)
    requires Deliverable(m)
    ensures Feed(a, Received(FramesOf(m))).0 == IDLE
    ensures Feed(a, Received(FramesOf(m))).1 == [m]
  {
    hide FramesOf, Feed, PacketOf, DataOf;
    var fs := FramesOf(m);
    MessagePackets(m);
    Completion(a, PacketOf(fs[0]), Received(fs[1..]));
  }

  /** The frames of several messages, one after the other. */
  function StreamOf(ms: seq<Message>): seq<Frame> {
    if ms == [] then [] else FramesOf(ms[0]) + StreamOf(ms[1..])
  }

  /** After any packets whatsoever, contiguous messages are delivered as they are, in order. */
  lemma {:induction false} StreamRoundTrip(a: Assembler, ms: seq<Message>)
    requires forall m :: m in ms ==> Deliverable(m)
    ensures Feed(a, Received(StreamOf(ms))).1 == ms
    ensures Feed(a, Received(StreamOf(ms))).0 == if ms == [] then a else IDLE
    decreases ms
  {
    if ms != [] {
      hide FramesOf, Received, Feed, Deliverable;
      var first, rest := FramesOf(ms[0]), StreamOf(ms[1..]);
      MessageRoundTrip(a, ms[0]);
      StreamRoundTrip(IDLE, ms[1..]);
      ReceivedAppend(first, rest);
      FeedAppend(a, Received(first), Received(rest));
      assert ms == [ms[0]] + ms[1..];
    }
  }

  /** The same on the wire: `before` is any sequence of device events, well-formed reports or not,
      and the messages that follow it are delivered after whatever `before` delivers. */
  lemma ResynchronisedStream(tag: byte, before: seq<Event>, ms: seq<Message>)
    requires NoErrors(before)
    requires forall m :: m in ms ==> Deliverable(m)
    ensures var all := before + Reports(tag, StreamOf(ms));
            && Feed(IDLE, Packets(all)).1 == Feed(IDLE, Packets(before)).1 + ms
            && (ms != [] ==> Feed(IDLE, Packets(all)).0 == IDLE)
  {
    hide Reports, Packets, Feed, StreamOf, Received, Deliverable;
    PacketsAppend(before, Reports(tag, StreamOf(ms)));
    ReportsAreReceived(tag, StreamOf(ms));
    FeedAppend(IDLE, Packets(before), Received(StreamOf(ms)));
    StreamRoundTrip(Feed(IDLE, Packets(before)).0, ms);
  }

  /** Nothing longer than what was buffered plus what arrived is ever delivered. */
  lemma {:induction false} DeliveredLength(a: Assembler, ps: seq<Packet>)
    ensures |Feed(a, ps).0.inner| <= |a.inner| + |DataOf(ps)|
    ensures forall m :: m in Feed(a, ps).1 ==> |m.payload| <= |a.inner| + |DataOf(ps)| && |m.payload| < 0x1_0000
    decreases |ps|
  {
    if ps != [] {
      DeliveredLength(a, ps[..|ps| - 1]);
      DataOfSnoc(ps);
    }
  }

  lemma {:induction false} InitialForgets(a: Assembler, ps: seq<Packet>)
    requires ps != [] && ps[0].initial
    ensures Feed(a, ps).0 == Feed(IDLE, ps).0 && Feed(a, ps).1 == Feed(IDLE, ps).1
    decreases |ps|
  {
    if |ps| == 1 {
      assert ps == [ps[0]];
      FeedOne(a, ps[0]);
      FeedOne(IDLE, ps[0]);
    } else {
      InitialForgets(a, ps[..|ps| - 1]);
    }
  }

  lemma {:induction false} ReceivedBound(frames: seq<Frame>)
    ensures |DataOf(Received(frames))| <= 59 * |frames|
  {
    if frames != [] {
      ReceivedBound(frames[1..]);
      assert Received(frames)[1..] == Received(frames[1..]);
    }
  }

  /** An oversized payload is never delivered: the frame numbered 0x80 is taken for an initial one. */
  lemma OversizedIsNeverDelivered(channel: u32, cmd: byte, data: seq<byte>)
    requires cmd < 0x80 && |data| > MAX_MESSAGE
    ensures forall m :: m in Feed(IDLE, Received(Frames(channel, cmd, data))).1 ==> |m.payload| < |data|
  {
    hide Feed, DataOf, Frames;
    var fs := Frames(channel, cmd, data);
    FrameCount(channel, cmd, data);
    var head, tail := fs[..129], fs[129..];
    assert fs == head + tail;
    ReceivedAppend(head, tail);
    FeedAppend(IDLE, Received(head), Received(tail));
    FrameContFields(channel, cmd, data, 128);
    assert PacketOf(tail[0]).initial;
    InitialForgets(Feed(IDLE, Received(head)).0, Received(tail));
    DeliveredLength(IDLE, Received(head));
    DeliveredLength(IDLE, Received(tail));
    ReceivedBound(tail);
    HeadBound(channel, cmd, data);
  }

  lemma HeadBound(channel: u32, cmd: byte, data: seq<byte>)
    requires cmd < 0x80 && |Frames(channel, cmd, data)| >= 129
    ensures |DataOf(Received(Frames(channel, cmd, data)[..129]))| <= MAX_MESSAGE
  {
    hide Frames;
    var head := Frames(channel, cmd, data)[..129];
    FrameCount(channel, cmd, data);
    InitialPacket(channel, cmd, data);
    ReceivedBound(head[1..]);
    assert Received(head)[1..] == Received(head[1..]);
  }

  /** The exact range of the round trip, for every payload. */
  lemma RoundTripExactly(channel: u32, cmd: byte, data: seq<byte>)
    requires cmd < 0x80
    ensures var out := Feed(IDLE, Received(Frames(channel, cmd, data)));
            out.0 == IDLE && out.1 == [Message(channel, cmd, data)] <==> 1 <= |data| <= 7609
  {
    var m := Message(channel, cmd, data);
    if |data| > MAX_MESSAGE {
      hide Frames, Feed, Received;
      OversizedIsNeverDelivered(channel, cmd, data);
      assert m !in Feed(IDLE, Received(Frames(channel, cmd, data))).1 && m in [m];
    } else if data != [] {
      MessageRoundTrip(IDLE, m);
    }
  }
}
