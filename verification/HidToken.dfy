/**
 The soft token of fidohid/fidohid.go: `Run` turns packets into messages, allocates channels,
 answers INIT and unsupported commands itself, and queues the rest for the server.
 */
module HidToken {
  import opened Bytes
  import opened HidFraming
  import opened HidAssembly
  import Apdu
  import HidHost

  const CMD_MSG: byte := 0x03
  const CMD_INIT: byte := 0x06
  const CMD_CBOR: byte := 0x10

  const SW_INS_NOT_SUPPORTED: u16 := 0x6D00

  /** One past the last channel id that is ever handed out. */
  const CHANNEL_END: u32 := 0xFFFF_FFFF

  datatype AuthEvent = AuthEvent(channel: u32, command: byte, decoded: Option<Apdu.Decoded>, rawCbor: Option<seq<byte>>)

  type Channels = map<u32, bool>

  predicate InUse(channels: Channels, k: u32) {
    k in channels && channels[k]
  }

  /** The first id from `k` on that is not in use, or CHANNEL_END. */
  function FirstFree(channels: Channels, k: u32): (r: u32)
    requires k <= CHANNEL_END
    ensures k <= r <= CHANNEL_END
    ensures forall j: u32 :: k <= j < r ==> InUse(channels, j)
    ensures r < CHANNEL_END ==> !InUse(channels, r)
    decreases CHANNEL_END - k
  {
    if k == CHANNEL_END || !InUse(channels, k) then k else FirstFree(channels, k + 1)
  }

  method AllocateChan(channels: Channels) returns (after: Channels, id: u32, ok: bool)
    ensures ok <==> FirstFree(channels, 1) < CHANNEL_END
    ensures ok ==> id == FirstFree(channels, 1) && after == channels[id := true]
    ensures !ok ==> id == 0 && after == channels
  {
    var k: u32 := 1;
    while k < CHANNEL_END
      invariant 1 <= k <= CHANNEL_END
      invariant FirstFree(channels, 1) == FirstFree(channels, k)
    {
      var inUse := k in channels && channels[k];
      if !inUse {
        return channels[k := true], k, true;
      }
      k := k + 1;
    }
    return channels, 0, false;
  }

  datatype InitResponse = InitResponse(
    nonce: seq<byte>, channel: u32, protocolVersion: byte,
    majorDeviceVersion: byte, minorDeviceVersion: byte, buildDeviceVersion: byte, rawCapabilities: byte) {
    function Marshal(): seq<byte> {
      nonce + U32(channel)
      + [protocolVersion, majorDeviceVersion, minorDeviceVersion, buildDeviceVersion, rawCapabilities]
    }
  }

  function NewInitResponse(channel: u32, nonce: seq<byte>): InitResponse {
    InitResponse(nonce, channel, 2, 1, 0, 0, 0x04)
  }

  /** Go's copy of a message into an eight-byte array. */
  function Nonce(msg: seq<byte>): (r: seq<byte>)
    ensures |r| == 8
  {
    if |msg| >= 8 then msg[..8] else Pad(msg, 8)
  }

  /** Everything `Run` has done to the outside so far. */
  datatype World = World(channels: Channels, queue: seq<AuthEvent>, link: Link, fatal: bool)

  /** The effect of one message. */
  function Serve(w: World, m: Message): World {
    if w.fatal then w
    else if m.command == CMD_INIT then
      var id := FirstFree(w.channels, 1);
      if id == CHANNEL_END then w.(fatal := true)
      else w.(channels := w.channels[id := true],
              link := Send(w.link, Frames(m.channel, CMD_INIT, NewInitResponse(id, Nonce(m.payload)).Marshal())).0)
    else if m.command == CMD_MSG then
      w.(queue := w.queue + [AuthEvent(m.channel, CMD_MSG, Some(Apdu.Meaning(m.payload)), None)])
    else if m.command == CMD_CBOR then
      w.(queue := w.queue + [AuthEvent(m.channel, CMD_CBOR, None, Some(m.payload))])
    else
      w.(link := Send(w.link, Frames(m.channel, m.command, Body([], SW_INS_NOT_SUPPORTED))).0)
  }

  function ServeAll(w: World, ms: seq<Message>): World
    decreases |ms|
  {
    if ms == [] then w else Serve(ServeAll(w, ms[..|ms| - 1]), ms[|ms| - 1])
  }

  class SoftToken {
    const device: Device
    var authEvent: seq<AuthEvent>

    constructor (device: Device)
      ensures this.device == device && authEvent == []
    {
      this.device := device;
      authEvent := [];
    }

    /** One message that the reassembly loop has completed; `fatal` ends the program. */
    method Dispatch(channels: Channels, reqChan: u32, cmd: byte, msg: seq<byte>) returns (after: Channels, fatal: bool)
      modifies this`authEvent, device
      ensures World(after, authEvent, device.View(), fatal)
           == Serve(World(channels, old(authEvent), old(device.View()), false), Message(reqChan, cmd, msg))
    {
      after, fatal := channels, false;
      if cmd == CMD_INIT {
        var id, ok;
        after, id, ok := AllocateChan(channels);
        if !ok {
          return after, true;
        }
        var nonce := new byte[8](_ => 0);
        Apdu.Copy(nonce, msg);
        assert nonce[..] == Nonce(msg);
        var resp := NewInitResponse(id, nonce[..]);
        var sent := WriteResponse(device, reqChan, CMD_INIT, resp.Marshal(), 0);
      } else if cmd == CMD_MSG {
        var req := Apdu.DecodeAuthenticatorRequest(msg);
        authEvent := authEvent + [AuthEvent(reqChan, cmd, Some(req), None)];
      } else if cmd == CMD_CBOR {
        authEvent := authEvent + [AuthEvent(reqChan, cmd, None, Some(msg))];
      } else {
        var sent := WriteResponse(device, reqChan, cmd, [], SW_INS_NOT_SUPPORTED);
      }
    }

    /** `Run` on the packets that arrive before it blocks for good. */
    method Run(pkts: seq<Packet>) returns (ghost w: World)
      modifies this`authEvent, device
      ensures w == ServeAll(World(map[], old(authEvent), old(device.View()), false), Feed(IDLE, pkts).1)
      ensures w.queue == authEvent && w.link == device.View()
    {
      hide Feed, Serve;
      ghost var start := World(map[], authEvent, device.View(), false);
      ghost var ms: seq<Message> := [];
      var channels: Channels := map[];
      var i := 0;
      w := start;
      FeedNothing(pkts);
      while true
        invariant 0 <= i <= |pkts|
        invariant Feed(IDLE, pkts[..i]).0 == IDLE && Feed(IDLE, pkts[..i]).1 == ms
        invariant w == ServeAll(start, ms)
        invariant w == World(channels, authEvent, device.View(), false)
        decreases |pkts| - i
      {
        var m, next := ReadMessage(pkts, i);
        FeedAppend(IDLE, pkts[..i], pkts[i..next]);
        assert pkts[..i] + pkts[i..next] == pkts[..next];
        if m.None? {
          assert pkts[..next] == pkts && ms + [] == ms;
          return;
        }
        ms := ms + [m.value];
        assert ms[..|ms| - 1] == Feed(IDLE, pkts[..i]).1;
        i := next;
        var fatal;
        channels, fatal := Dispatch(channels, m.value.channel, m.value.command, m.value.payload);
        w := World(channels, authEvent, device.View(), fatal);
        if fatal {
          assert pkts == pkts[..i] + pkts[i..];
          FeedAppend(IDLE, pkts[..i], pkts[i..]);
          FatalIsFinal(start, ms, Feed(IDLE, pkts[i..]).1);
          return;
        }
      }
    }
  }

  lemma FeedNothing(ps: seq<Packet>)
    ensures Feed(IDLE, ps[..0]) == (IDLE, [])
  {
    assert ps[..0] == [];
  }

  lemma {:induction false} FatalIsFinal(w: World, ms: seq<Message>, ns: seq<Message>)
    requires ServeAll(w, ms).fatal
    ensures ServeAll(w, ms + ns) == ServeAll(w, ms)
    decreases |ns|
  {
    if ns == [] {
      assert ms + ns == ms;
    } else {
      FatalIsFinal(w, ms, ns[..|ns| - 1]);
      assert (ms + ns)[..|ms + ns| - 1] == ms + ns[..|ns| - 1];
    }
  }

  /** The number of INIT messages. */
  function Inits(ms: seq<Message>): nat
    decreases |ms|
  {
    if ms == [] then 0
    else Inits(ms[..|ms| - 1]) + if ms[|ms| - 1].command == 0x06 then 1 else 0
  }

  /** The allocated ids are exactly 1..n. */
  ghost predicate AllocatedUpTo(channels: Channels, n: nat) {
    forall k: u32 :: InUse(channels, k) <==> 1 <= k <= n
  }

  lemma NextId(channels: Channels, n: nat)
    requires n < CHANNEL_END && AllocatedUpTo(channels, n)
    ensures FirstFree(channels, 1) == n + 1
    ensures n + 1 < CHANNEL_END ==> AllocatedUpTo(channels[n + 1 := true], n + 1)
  {
    var r, next: u32 := FirstFree(channels, 1), n + 1;
    assert InUse(channels, r) <==> 1 <= r <= n;
    assert !InUse(channels, next);
    var after := channels[next := true];
    forall k: u32 ensures InUse(after, k) <==> 1 <= k <= n + 1 {
      assert InUse(channels, k) <==> 1 <= k <= n;
    }
  }

  /** Channel allocation over a whole run: after n INITs the ids in use are exactly 1..n, and the
      program ends for want of ids exactly when more than 2^32 - 2 are asked for. */
  lemma {:induction false} ChannelsOverRun(w: World, ms: seq<Message>)
    requires AllocatedUpTo(w.channels, 0) && !w.fatal
    ensures ServeAll(w, ms).fatal <==> Inits(ms) > 0xFFFF_FFFE
    ensures AllocatedUpTo(ServeAll(w, ms).channels, Min(Inits(ms), 0xFFFF_FFFE))
    decreases |ms|
  {
    if ms != [] {
      hide AllocatedUpTo, FirstFree, Send, Frames;
      var v := ServeAll(w, ms[..|ms| - 1]);
      ChannelsOverRun(w, ms[..|ms| - 1]);
      if !v.fatal {
        NextId(v.channels, Inits(ms[..|ms| - 1]));
      }
    }
  }

  /** What the host makes of a reply frame by frame. */
  function HostGets(channel: u32, cmd: byte, body: seq<byte>): HidHost.Host {
    HidHost.HostReads(channel, Received(Frames(channel, cmd, body)))
  }

  /** The 17 bytes that answer an INIT: the nonce, cut off or filled up to eight bytes, the new channel,
      and the version and capability bytes. */
  predicate IsInitReply(reply: seq<byte>, nonce: seq<byte>, id: nat) {
    && |reply| == 17
    && (forall i :: 0 <= i < 8 ==> reply[i] == if i < |nonce| then nonce[i] else 0)
    && reply[8] as int * 0x100_0000 + reply[9] as int * 0x1_0000 + reply[10] as int * 0x100 + reply[11] == id
    && reply[12] == 2 && reply[13] == 1 && reply[14] == 0 && reply[15] == 0 && reply[16] == 4
  }

  /** The n-th INIT of a run is answered, on the channel it came from and in one frame, with its own
      nonce and the fresh id n; and a strict host on that channel reads exactly that. */
  lemma InitReply(w: World, ms: seq<Message>, m: Message) returns (reply: seq<byte>)
    requires AllocatedUpTo(w.channels, 0) && !w.fatal
    requires m.command == 0x06 && Inits(ms) < 0xFFFF_FFFE
    ensures IsInitReply(reply, m.payload, Inits(ms) + 1)
    ensures var v, n := ServeAll(w, ms), Inits(ms) + 1;
            && Serve(v, m).link == Send(v.link, Frames(m.channel, 0x06, reply)).0
            && |Frames(m.channel, 0x06, reply)| == 1
            && HostGets(m.channel, 0x06, reply) == HidHost.Complete(0x06, reply)
            && InUse(Serve(v, m).channels, n) && !InUse(v.channels, n) && n != 0 && n != 0xFFFF_FFFF
  {
    ChannelsOverRun(w, ms);
    var v := ServeAll(w, ms);
    var n: u32 := Inits(ms) + 1;
    NextId(v.channels, Inits(ms));
    hide Frames, Send, HidHost.HostReads, Received, ServeAll;
    assert !v.fatal && FirstFree(v.channels, 1) == n;
    reply := NewInitResponse(n, Nonce(m.payload)).Marshal();
    InitBytes(m.payload, n);
    FrameCount(m.channel, 0x06, reply);
    HidHost.HostReceivesExactly(m.channel, 0x06, reply);
  }

  lemma InitBytes(payload: seq<byte>, n: u32)
    ensures IsInitReply(NewInitResponse(n, Nonce(payload)).Marshal(), payload, n)
  {
    var reply := NewInitResponse(n, Nonce(payload)).Marshal();
    assert reply[..8] == Nonce(payload) && reply[8..12] == U32(n);
    assert forall i :: 0 <= i < 8 ==> reply[i] == reply[..8][i];
    assert forall i :: 0 <= i < 4 ==> reply[8 + i] == reply[8..12][i];
  }

  /** A reply of the server, as a strict host reads it: the data, and then a non-zero status word with
      its high byte first; all of that if it fits 7609 bytes, and nothing otherwise. */
  lemma ReplyReachesHost(channel: u32, cmd: byte, data: seq<byte>, status: u16)
    requires cmd < 0x80 && (data != [] || status > 0)
    ensures var n := |data| + if status > 0 then 2 else 0;
            var h := HostGets(channel, cmd, Body(data, status));
            if n > 7609 then h == HidHost.Failed
            else
              && h.Complete? && h.command == cmd && |h.payload| == n && h.payload[..|data|] == data
              && (status > 0 ==> h.payload[|data|] as int * 0x100 + h.payload[|data| + 1] == status)
  {
    HidHost.HostReceivesExactly(channel, cmd, Body(data, status));
    hide HidHost.HostReads, Received, Frames;
    assert status > 0 ==> Body(data, status) == data + U16(status);
  }

  /** U2F and CTAP2 messages are queued for the server on their channel, decoded and raw respectively,
      and nothing is sent; any other command but INIT is answered with 0x6D00 on its channel, which a
      strict host reads, and changes nothing else. */
  lemma OtherMessages(w: World, m: Message)
    requires !w.fatal && m.command < 0x80 && m.command != 0x06
    ensures m.command == 0x03 ==>
              Serve(w, m) == w.(queue := w.queue + [AuthEvent(m.channel, 0x03, Some(Apdu.Meaning(m.payload)), None)])
    ensures m.command == 0x10 ==>
              Serve(w, m) == w.(queue := w.queue + [AuthEvent(m.channel, 0x10, None, Some(m.payload))])
    ensures m.command != 0x03 && m.command != 0x10 ==>
              && Serve(w, m) == w.(link := Send(w.link, Frames(m.channel, m.command, [0x6D, 0x00])).0)
              && HostGets(m.channel, m.command, [0x6D, 0x00]) == HidHost.Complete(m.command, [0x6D, 0x00])
  {
    HidHost.HostReceivesExactly(m.channel, m.command, [0x6D, 0x00]);
    assert Body([], SW_INS_NOT_SUPPORTED) == [0x6D, 0x00];
    hide Frames, Send, HidHost.HostReads, Received, Apdu.Meaning;
  }
}
