/**
 The components together: a request cut into reports by the host, reassembled and queued by the
 token, handled by the server, and its reply cut into frames and reassembled by the host.
 */
module EndToEnd {
  import opened Bytes
  import opened HidFraming
  import opened HidAssembly
  import opened HidToken
  import opened Authenticator
  import opened ServerInvariant
  import opened AuthProperties
  import opened Requests
  import Apdu
  import HidHost

  /** What the token has done once these device events have been taken in. */
  function TokenAfter(link: Link, events: seq<Event>): World {
    ServeAll(World(map[], [], link, false), Feed(IDLE, Packets(events)).1)
  }

  /** After any device events, well-formed or not, the reports of one message are served as that
      message and nothing else. */
  lemma MessageIsServed(tag: byte, link: Link, before: seq<Event>, m: Message)
    requires NoErrors(before) && Deliverable(m)
    ensures TokenAfter(link, before + Reports(tag, FramesOf(m))) == Serve(TokenAfter(link, before), m)
  {
    hide Feed, Packets, Reports, FramesOf, Serve, Deliverable;
    assert StreamOf([m]) == FramesOf(m) + StreamOf([m][1..]) && [m][1..] == [];
    assert StreamOf([m]) == FramesOf(m);
    ResynchronisedStream(tag, before, [m]);
    var ms := Feed(IDLE, Packets(before)).1;
    assert (ms + [m])[..|ms + [m]| - 1] == ms;
  }

  /** A CTAP2 request, sent after anything at all on whatever channel, is queued as sent, answered by
      exactly one reply, and a strict host on that channel reads the reply's status byte and body if
      they fit one message, and nothing otherwise. */
  lemma Ctap2Exchange(e: Env, s: Server, tag: byte, link: Link, before: seq<Event>, channel: u32, request: seq<byte>)
    requires NoErrors(before) && 1 <= |request| <= 7609 && !s.fatal && !TokenAfter(link, before).fatal
    ensures var w := TokenAfter(link, before);
            var t := HandleEvent(e, s, Cbor(channel, request));
            && TokenAfter(link, before + Reports(tag, Frames(channel, 0x10, request)))
               == w.(queue := w.queue + [Cbor(channel, request)])
            && AnswersOnce(e, s, t)
            && var reply := [t.log[|t.log| - 1].status] + t.log[|t.log| - 1].data;
               HostGets(channel, 0x10, reply)
               == if |reply| <= 7609 then HidHost.Complete(0x10, reply) else HidHost.Failed
  {
    hide TokenAfter, Frames, Feed, Received, Reports, HandleEvent, Follows, HidHost.HostReads;
    MessageIsServed(tag, link, before, Message(channel, 0x10, request));
    var t := HandleEvent(e, s, Cbor(channel, request));
    EventFollows(e, s, Cbor(channel, request));
    var last := t.log[|t.log| - 1];
    HidHost.HostReceivesExactly(channel, 0x10, [last.status] + last.data);
  }

  /** The last effect is a U2F reply, which reaches a strict host on the channel whole, with 0x9000. */
  predicate LastReplyIsRead(log: seq<Act>, channel: u32) {
    && log != [] && log[|log| - 1].U2fReply?
    && var (data, word) := (log[|log| - 1].data, log[|log| - 1].word);
       HostGets(channel, 0x03, Body(data, word)) == HidHost.Complete(0x03, data + [0x90, 0x00])
  }

  /** A U2F registration request in the extended-length encoding is queued decoded, and once the user
      approves and a key is made, a strict host on the channel of the request reads a registration
      message that checks out for the relying party, followed by 0x9000. */
  lemma U2fRegistrationExchange(
      e: Env, s: Server, tag: byte, link: Link, before: seq<Event>, channel: u32,
      cla: byte, p1: byte, p2: byte, lc: seq<byte>, req: Apdu.RegisterReq, trailing: seq<byte>)
    requires NoErrors(before) && !s.fatal && !TokenAfter(link, before).fatal
    requires Apdu.FixedWidths(lc, req.challenge, req.application) && |trailing| <= 7609 - 71
    requires e.user(|s.log|) == Approved && RegisterAnswers(e, |s.log|)
    requires |e.certificate| == 386 && |e.attests(|s.log| + 2).value| <= 72
    ensures var request := Apdu.EncodeRegister(cla, p1, p2, lc, req, trailing);
            var w := TokenAfter(link, before);
            var t := HandleEvent(e, s, U2f(channel, request));
            && TokenAfter(link, before + Reports(tag, Frames(channel, 0x03, request)))
               == w.(queue := w.queue + [U2f(channel, request)])
            && RegisteredAfter(e, s.log + [Confirmed(req.challenge, req.application, Approved)], t.log, req)
            && LastReplyIsRead(t.log, channel)
  {
    hide TokenAfter, Frames, Feed, Received, Reports, HidHost.HostReads, HandleEvent, RegisteredAfter, LastReplyIsRead;
    var request := Apdu.EncodeRegister(cla, p1, p2, lc, req, trailing);
    assert |request| == 71 + |trailing| && request[1] == 0x01;
    assert request[7..39] == req.challenge && request[39..71] == req.application;
    hide Apdu.Meaning, Apdu.EncodeRegister;
    MessageIsServed(tag, link, before, Message(channel, 0x03, request));
    U2fRegistrationIsServed(e, s, channel, request);
    var before' := s.log + [Confirmed(req.challenge, req.application, Approved)];
    ReplyIsRead(e, before', HandleEvent(e, s, U2f(channel, request)).log, req, channel);
  }

  lemma ReplyIsRead(e: Env, before: seq<Act>, log: seq<Act>, req: Apdu.RegisterReq, channel: u32)
    requires RegisteredAfter(e, before, log, req) && |e.certificate| == 386 && |e.attests(|before| + 1).value| <= 72
    ensures LastReplyIsRead(log, channel)
  {
    var reply := log[|log| - 1];
    var r := reply.data;
    assert |r| == 67 + r[66] as int + |e.certificate + e.attests(|before| + 1).value|;
    hide RegisteredAfter, HostGets, Body;
    OkReachesHost(channel, r);
  }

  lemma OkReachesHost(channel: u32, data: seq<byte>)
    requires |data| <= 7607
    ensures HostGets(channel, 0x03, Body(data, 0x9000)) == HidHost.Complete(0x03, data + [0x90, 0x00])
  {
    hide HostGets, Body;
    ReplyReachesHost(channel, 0x03, data, 0x9000);
    var h := HostGets(channel, 0x03, Body(data, 0x9000));
    var high, low := h.payload[|data|] as int, h.payload[|data| + 1] as int;
    assert high == 0x90 && low == 0;
    assert h.payload == h.payload[..|data|] + [h.payload[|data|], h.payload[|data| + 1]];
  }
}
