/**
 Requests as they reach the server of main.go, told by their bytes: which command byte is served how,
 and what comes back.
 */
module Requests {
  import opened Bytes
  import opened AuthProperties
  import opened Authenticator
  import opened ServerInvariant
  import Apdu
  import HidFraming
  import HidToken

  /** A CTAP2 message as the token queues it. */
  function Cbor(channel: u32, raw: seq<byte>): HidToken.AuthEvent {
    HidToken.AuthEvent(channel, 0x10, None, Some(raw))
  }

  /** A U2F message as the token queues it. */
  function U2f(channel: u32, raw: seq<byte>): HidToken.AuthEvent {
    HidToken.AuthEvent(channel, 0x03, Some(Apdu.Meaning(raw)), None)
  }

  // ----- CTAP2 -----

  /** A message with command byte 0x01 is a registration: it succeeds exactly when its payload can be
      registered with. */
  lemma RegistrationsAreServed(e: Env, s: Server, channel: u32, payload: seq<byte>)
    requires !s.fatal
    ensures HandleEvent(e, s, Cbor(channel, [0x01] + payload)) == MakeCredential(e, s, payload)
    ensures Succeeded(HandleEvent(e, s, Cbor(channel, [0x01] + payload))) <==> CanRegister(e, s, payload)
  {
    hide MakeCredential, CanRegister;
    assert ([0x01] + payload)[1..] == payload;
    RegistrationExactly(e, s, payload);
  }

  /** One with 0x02 is a login: it succeeds exactly when its payload can be served. */
  lemma LoginsAreServed(e: Env, s: Server, channel: u32, payload: seq<byte>)
    requires !s.fatal
    ensures HandleEvent(e, s, Cbor(channel, [0x02] + payload)) == GetAssertion(e, s, payload)
    ensures Succeeded(HandleEvent(e, s, Cbor(channel, [0x02] + payload))) <==> CanServe(e, s, payload)
  {
    hide GetAssertion, CanServe;
    assert ([0x02] + payload)[1..] == payload;
    AssertionExactly(e, s, payload);
  }

  /** What GetInfo tells: the two protocol versions, no certified model, resident keys, user presence,
      user verification only if the verifier identifies the user, and a message size that can be
      framed. */
  predicate TellsWhatItIs(e: Env, info: Info) {
    && info.versions == ["FIDO_2_0", "U2F_V2"]
    && |info.aaguid| == 16 && (forall i :: 0 <= i < 16 ==> info.aaguid[i] == 0)
    && info.rk && info.up && (info.uv <==> e.performsUV)
    && info.maxMsgSize == 1200 <= HidFraming.MAX_MESSAGE
  }

  /** One with 0x04 is answered with that, whatever follows the command byte. */
  lemma InfoIsTold(e: Env, s: Server, channel: u32, payload: seq<byte>) returns (info: Info)
    requires !s.fatal
    ensures TellsWhatItIs(e, info)
    ensures var encoded := e.encodeInfo(info);
            HandleEvent(e, s, Cbor(channel, [0x04] + payload)).log
            == s.log + [if encoded.Some? then Ctap2Reply(0x00, encoded.value) else Ctap2Reply(0x12, [])]
  {
    info := InfoOf(e);
  }

  /** An empty message and any other command byte are refused, without asking anyone. */
  lemma OtherCommandsAreRefused(e: Env, s: Server, channel: u32, raw: seq<byte>)
    requires !s.fatal
    ensures raw == [] ==> HandleEvent(e, s, Cbor(channel, raw)) == s.(log := s.log + [Ctap2Reply(0x12, [])])
    ensures raw != [] && raw[0] != 0x01 && raw[0] != 0x02 && raw[0] != 0x04 ==>
              HandleEvent(e, s, Cbor(channel, raw)) == s.(log := s.log + [Ctap2Reply(0x30, [])])
  {}

  // ----- U2F -----

  /** A U2F registration, from its bytes to the effects: the user is asked about the challenge and the
      application parameter that stand in the message, and answered for as `RegisterExactly` says. */
  lemma U2fRegistrationIsServed(e: Env, s: Server, channel: u32, raw: seq<byte>)
    requires !s.fatal && |raw| >= 71 && raw[1] == 0x01
    ensures var t := HandleEvent(e, s, U2f(channel, raw));
            var n := |s.log|;
            var req := Apdu.RegisterReq(raw[7..39], raw[39..71]);
            var asked := Confirmed(raw[7..39], raw[39..71], e.user(n));
            if e.user(n) == Approved then SiteAnswers(e, n + 1) ==> RegisteredAfter(e, s.log + [asked], t.log, req)
            else t.log == s.log + [asked] + [U2fReply([], if e.user(n).Rejected? then 0x6A80 else 0x6985)]
  {
    hide Register, RegisteredAfter;
    RegisterExactly(e, s, Apdu.RegisterReq(raw[7..39], raw[39..71]));
  }

  /** How a U2F authentication with the control byte `ctrl` ends, for the fields of a request. */
  ghost predicate Authenticated(e: Env, s: Server, t: Server, ctrl: byte, challenge: seq<byte>, application: seq<byte>,
      handle: seq<byte>) {
    var n := |s.log|;
    var req := Apdu.AuthReq(ctrl, challenge, application, handle);
    var known := Accepts(e, s.keys, handle, application) && !e.signDown(n);
    var probe := Signed(handle, application, e.sha256(Ascii("meticulously-Bacardi")), known);
    var asked := Confirmed(challenge, application, e.user(n + 1));
    if !known then t.log == s.log + [probe, U2fReply([], 0x6A80)]
    else if ctrl == 0x07 then t.log == s.log + [probe, U2fReply([], 0x6985)]
    else if ctrl == 0x08 then !e.signDown(n + 1) ==> AuthenticatedAfter(e, s.log + [probe], t.log, req, 0)
    else if e.user(n + 1) == Approved then
      !e.signDown(n + 2) ==> AuthenticatedAfter(e, s.log + [probe] + [asked], t.log, req, 1)
    else t.log == s.log + [probe, asked, U2fReply([], if e.user(n + 1).Rejected? then 0x6A80 else 0x6985)]
  }

  /** A U2F authentication, from its bytes to the effects. */
  lemma U2fAuthenticationIsServed(e: Env, s: Server, channel: u32, raw: seq<byte>)
    requires !s.fatal && |raw| >= 73 && raw[1] == 0x02 && raw[2] in {0x03, 0x07, 0x08} && |raw| >= 72 + raw[71] as int
    ensures var handle := raw[72..72 + raw[71] as int];
            Authenticated(e, s, HandleEvent(e, s, U2f(channel, raw)), raw[2], raw[7..39], raw[39..71], handle)
  {
    hide Authenticate, AuthenticatedAfter, Accepts, Dummy;
    ProbeDigest(e);
    AuthenticateExactly(e, s, Apdu.AuthReq(raw[2], raw[7..39], raw[39..71], raw[72..72 + raw[71] as int]));
  }

  /** A version request is answered with "U2F_V2", any other command with 0x6E00, and a message that
      cannot be decoded with nothing at all. */
  lemma OtherU2fMessages(e: Env, s: Server, channel: u32, raw: seq<byte>)
    requires !s.fatal
    ensures var t := HandleEvent(e, s, U2f(channel, raw));
            if Apdu.Meaning(raw).Err? then t == s
            else if raw[1] == 0x03 then t == s.(log := s.log + [U2fReply(Ascii("U2F_V2"), 0x9000)])
            else raw[1] != 0x01 && raw[1] != 0x02 ==> t == s.(log := s.log + [U2fReply([], 0x6E00)])
  {
    assert VERSION == Ascii("U2F_V2");
    hide Authenticate, Register;
  }

  /** Over every run: whatever has been signed, probes included, was signed with a key that the signer
      had from the start or that was registered in this run, under its own application parameter. */
  lemma OnlyRegisteredKeysSign(e: Env, start: Server, evts: seq<HidToken.AuthEvent>, a: Act)
    requires start.log == [] && a in HandleAll(e, start, evts).log && a.Signed? && a.ok
    ensures (a.handle, a.application) in start.keys
            || IsRegisteredIn(HandleAll(e, start, evts).log, a.handle, a.application)
  {
    RunFollows(e, start, evts);
    var t := HandleAll(e, start, evts);
    hide HandleAll, KeysIn;
    assert t.log[|start.log|..] == t.log;
    if (a.handle, a.application) !in start.keys {
      KeyIsRegistered(t.log, a.handle, a.application);
    }
  }

  predicate IsRegisteredIn(log: seq<Act>, handle: seq<byte>, application: seq<byte>) {
    exists i :: 0 <= i < |log| && log[i].Registered? && log[i].application == application
                && log[i].pair.Some? && log[i].pair.value.handle == handle
  }

  lemma {:induction false} KeyIsRegistered(log: seq<Act>, handle: seq<byte>, application: seq<byte>)
    requires (handle, application) in KeysIn(log)
    ensures IsRegisteredIn(log, handle, application)
    decreases |log|
  {
    var n := |log| - 1;
    if (handle, application) in KeysIn(log[..n]) {
      KeyIsRegistered(log[..n], handle, application);
      var i :| 0 <= i < n && log[..n][i].Registered? && log[..n][i].application == application
               && log[..n][i].pair.Some? && log[..n][i].pair.value.handle == handle;
      assert log[i] == log[..n][i];
    } else {
      assert (handle, application) in KeyOf(log[n]);
    }
  }
}
