/**
 A reference host for the frames that fidohid/fidohid.go writes. Unlike the token's own reassembly it
 checks what section 11.2.4 of CTAP 2.1 asks for: every packet on the host's channel, one initial
 packet, continuations numbered 0, 1, 2, ... below 0x80, and exactly as many as the total calls for.
 */
module HidHost {
  import opened Bytes
  import opened HidFraming
  import opened HidAssembly

  /** A message is being read: its command, its total, the next number, and the bytes so far. */
  datatype Host =
    | Waiting
    | Reading(command: byte, total: u16, next: nat, data: seq<byte>)
    | Complete(command: byte, payload: seq<byte>)
    | Failed

  function Collected(command: byte, total: u16, next: nat, data: seq<byte>): Host {
    if |data| >= total then Complete(command, data[..total]) else Reading(command, total, next, data)
  }

  /** One packet; nothing may follow a complete message. */
  function HostStep(channel: u32, h: Host, p: Packet): Host {
    if p.channel != channel then Failed
    else if h.Waiting? && p.initial then Collected(p.command, p.total, 0, p.data)
    else if h.Reading? && !p.initial && p.seqNo == h.next then
      Collected(h.command, h.total, h.next + 1, h.data + p.data)
    else Failed
  }

  function HostReads(channel: u32, ps: seq<Packet>): Host
    decreases |ps|
  {
    if ps == [] then Waiting else HostStep(channel, HostReads(channel, ps[..|ps| - 1]), ps[|ps| - 1])
  }

  lemma HostReadsSnoc(channel: u32, ps: seq<Packet>, p: Packet)
    ensures HostReads(channel, ps + [p]) == HostStep(channel, HostReads(channel, ps), p)
  {
    assert (ps + [p])[..|ps|] == ps;
  }

  lemma HostReadsFirst(channel: u32, p: Packet)
    ensures HostReads(channel, [p]) == HostStep(channel, Waiting, p)
  {
    HostReadsSnoc(channel, [], p);
    assert [] + [p] == [p];
  }

  /** Continuations on this channel, numbered from 0 on. */
  ghost predicate Numbered(channel: u32, cs: seq<Packet>) {
    forall i :: 0 <= i < |cs| ==> cs[i].channel == channel && !cs[i].initial && cs[i].seqNo == i && WellFormed(cs[i])
  }

  /** An initial packet and fewer continuations than it needs. */
  lemma {:induction false} StillReading(channel: u32, p: Packet, cs: seq<Packet>)
    requires p.initial && p.channel == channel && WellFormed(p) && Numbered(channel, cs) && 57 + 59 * |cs| < p.total
    ensures HostReads(channel, [p] + cs) == Reading(p.command, p.total, |cs|, p.data + DataOf(cs))
    decreases |cs|
  {
    assert DataOf([]) == [];
    hide HostReads, DataOf;
    if cs == [] {
      assert [p] + cs == [p] && p.data + [] == p.data;
      HostReadsFirst(channel, p);
    } else {
      var n := |cs| - 1;
      StillReading(channel, p, cs[..n]);
      assert [p] + cs == [p] + cs[..n] + [cs[n]];
      HostReadsSnoc(channel, [p] + cs[..n], cs[n]);
      NumberedBytes(channel, cs);
      assert cs[n].channel == channel && !cs[n].initial && cs[n].seqNo == n;
      hide Numbered;
      DataOfSnoc(cs);
      ConcatAssociates(p.data, DataOf(cs[..n]), cs[n].data);
    }
  }

  lemma {:induction false} NumberedBytes(channel: u32, cs: seq<Packet>)
    requires Numbered(channel, cs)
    ensures Continuations(cs) && |DataOf(cs)| == 59 * |cs|
  {
    ContinuationBytes(cs);
  }

  /** As many continuations as it needs. */
  lemma HostCompletes(channel: u32, p: Packet, cs: seq<Packet>)
    requires p.initial && p.channel == channel && WellFormed(p) && Numbered(channel, cs)
    requires |cs| == ContCount(p.total - INIT_DATA)
    ensures |p.data + DataOf(cs)| >= p.total
    ensures HostReads(channel, [p] + cs) == Complete(p.command, (p.data + DataOf(cs))[..p.total])
  {
    NumberedBytes(channel, cs);
    assert DataOf([]) == [];
    hide HostReads, DataOf;
    if cs == [] {
      assert [p] + cs == [p] && p.data + [] == p.data;
      HostReadsFirst(channel, p);
    } else {
      var n := |cs| - 1;
      StillReading(channel, p, cs[..n]);
      assert [p] + cs == [p] + cs[..n] + [cs[n]];
      HostReadsSnoc(channel, [p] + cs[..n], cs[n]);
      assert cs[n].channel == channel && !cs[n].initial && cs[n].seqNo == n;
      hide Numbered;
      DataOfSnoc(cs);
      ConcatAssociates(p.data, DataOf(cs[..n]), cs[n].data);
    }
  }

  lemma FramesAreNumbered(m: Message)
    requires Deliverable(m)
    ensures FramesOf(m) != [] && Numbered(m.channel, Received(FramesOf(m)[1..]))
  {
    var fs := FramesOf(m);
    FrameCount(m.channel, m.command, m.payload);
    SequenceNumbers(m.channel, m.command, m.payload);
    U32RoundTrip(m.channel);
    forall i | 0 <= i < |fs[1..]|
      ensures var p := Received(fs[1..])[i]; p.channel == m.channel && !p.initial && p.seqNo == i && WellFormed(p)
    {
      FrameContFields(m.channel, m.command, m.payload, i);
      assert fs[1..][i] == fs[i + 1] && fs[i + 1][4] == i;
    }
  }

  /** A host that has failed stays so. */
  lemma {:induction false} FailedForGood(channel: u32, ps: seq<Packet>, n: nat)
    requires n <= |ps| && HostReads(channel, ps[..n]) == Failed
    ensures HostReads(channel, ps) == Failed
    decreases |ps|
  {
    if n < |ps| {
      assert ps[..|ps| - 1][..n] == ps[..n];
      FailedForGood(channel, ps[..|ps| - 1], n);
    } else {
      assert ps[..n] == ps;
    }
  }

  /** What the token sends reaches a strict host as it is if it has 1 to 7609 bytes; of nothing the host
      sees nothing, and at more it fails. */
  lemma HostReceivesExactly(channel: u32, cmd: byte, data: seq<byte>)
    requires cmd < 0x80
    ensures HostReads(channel, Received(Frames(channel, cmd, data)))
         == if data == [] then Waiting else if |data| <= 7609 then Complete(cmd, data) else Failed
  {
    var fs := Frames(channel, cmd, data);
    if |data| > MAX_MESSAGE {
      hide HostReads, Frames, HostStep;
      FrameCount(channel, cmd, data);
      FrameContFields(channel, cmd, data, 128);
      var ps := Received(fs);
      assert ps[129].initial;
      assert ps[..130] == ps[..129] + [ps[129]] && ps[..129] == ps[..128] + [ps[128]];
      HostReadsSnoc(channel, ps[..129], ps[129]);
      HostReadsSnoc(channel, ps[..128], ps[128]);
      SecondInitialFails(channel, HostReads(channel, ps[..128]), ps[128], ps[129]);
      FailedForGood(channel, ps, 130);
    } else if data != [] {
      hide HostReads, Frames, FramesOf, DataOf, PacketOf, Pad;
      var m := Message(channel, cmd, data);
      assert FramesOf(m) == fs by {
        FramesOfMessage(m);
      }
      MessagePackets(m);
      FramesAreNumbered(m);
      HostCompletes(channel, PacketOf(fs[0]), Received(fs[1..]));
    }
  }

  lemma FramesOfMessage(m: Message)
    ensures FramesOf(m) == Frames(m.channel, m.command, m.payload)
  {}

  /** An initial packet is only taken as the first one. */
  lemma SecondInitialFails(channel: u32, h: Host, p: Packet, q: Packet)
    requires q.initial
    ensures HostStep(channel, HostStep(channel, h, p), q) == Failed
  {}

  /** A host on another channel never reads it. */
  lemma OtherChannelsFail(channel: u32, other: u32, cmd: byte, data: seq<byte>)
    requires cmd < 0x80 && data != [] && other != channel
    ensures HostReads(other, Received(Frames(channel, cmd, data))) == Failed
  {
    hide Frames;
    var ps := Received(Frames(channel, cmd, data));
    FrameCount(channel, cmd, data);
    InitialPacket(channel, cmd, data);
    assert ps[..1] == [] + [ps[0]];
    HostReadsSnoc(other, [], ps[0]);
    FailedForGood(other, ps, 1);
  }
}
