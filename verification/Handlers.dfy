/**
 The handlers of main.go step by step, with their early returns, scan loops and byte buffers. Each
 method does to the server what the function of the same name in Authenticator says.
 */
module Handlers {
  import opened Bytes
  import opened AuthData
  import opened Authenticator
  import Apdu
  import CredStore
  import HidToken
  import UvCache

  class AuthServer {
    const e: Env
    var keys: set<Key>
    var store: seq<CredStore.Cred>
    var uv: UvCache.State
    var log: seq<Act>
    var fatal: bool

    constructor (e: Env, keys: set<Key>, store: seq<CredStore.Cred>, clock: int)
      ensures this.e == e && View() == Start(keys, store, clock)
    {
      this.e, this.keys, this.store, uv, log, fatal := e, keys, store, UvCache.Initial(clock), [], false;
    }

    ghost function View(): Server reads this {
      Server(keys, store, uv, log, fatal)
    }

    // ----- foreign calls -----

    method WriteCtap2Response(status: byte, data: seq<byte>)
      modifies this
      ensures View() == Reply(e, old(View()), status, data)
    {
      log := log + [Ctap2Reply(status, data)];
    }

    method WriteResponse(data: seq<byte>, word: u16)
      modifies this
      ensures View() == ReplyU2f(e, old(View()), data, word)
    {
      log := log + [U2fReply(data, word)];
    }

    method VerifyUser(purpose: Purpose, rpId: seq<byte>) returns (answer: Answer)
      modifies this
      ensures (View(), answer) == Ask(e, old(View()), purpose, rpId)
    {
      var n := |log|;
      answer := Verified(e, n, uv);
      log := log + [Asked(e, n, uv, purpose, rpId)];
      uv := AfterVisit(e, n, uv);
    }

    method ConfirmPresence(challenge: seq<byte>, application: seq<byte>) returns (answer: Answer)
      modifies this
      ensures (View(), answer) == Confirm(e, old(View()), challenge, application)
    {
      answer := e.user(|log|);
      log := log + [Confirmed(challenge, application, answer)];
    }

    method SignASN1(handle: seq<byte>, application: seq<byte>, digest: seq<byte>) returns (sig: Option<seq<byte>>)
      modifies this
      ensures (View(), sig) == Sign(e, old(View()), handle, application, digest)
    {
      var ok := Accepts(e, keys, handle, application) && !e.signDown(|log|);
      sig := if ok then Some(e.signature(|log|)) else None;
      log := log + [Signed(handle, application, digest, ok)];
    }

    method RegisterKey(application: seq<byte>) returns (pair: Option<KeyPair>)
      modifies this
      ensures (View(), pair) == Generate(e, old(View()), application)
    {
      pair := e.generates(|log|);
      log := log + [Registered(application, pair)];
      if pair.Some? {
        keys := keys + {(pair.value.handle, application)};
      }
    }

    method SaveCredential(c: CredStore.Cred) returns (ok: bool)
      modifies this
      ensures (View(), ok) == Save(e, old(View()), c)
    {
      ok := !e.storeDown(|log|);
      log := log + [SavedCred(c, ok)];
      if ok {
        store := CredStore.Upsert(store, c);
      }
    }

    method FindByRPID(rpIdHash: seq<byte>) returns (found: Option<seq<CredStore.Cred>>)
      modifies this
      ensures (View(), found) == Find(e, old(View()), rpIdHash)
    {
      var ok := !e.storeDown(|log|);
      log := log + [LookedUp(rpIdHash, ok)];
      found := if ok then Some(CredStore.Matching(store, rpIdHash)) else None;
    }

    // ----- CTAP2 -----

    method HandleCtap2(raw: seq<byte>)
      modifies this
      ensures View() == Authenticator.HandleCtap2(e, old(View()), raw)
    {
      hide MakeCredential, GetAssertion;
      if |raw| == 0 {
        WriteCtap2Response(INVALID_CBOR, []);
        return;
      }
      var cmd, payload := raw[0], raw[1..];
      if cmd == CMD_GET_INFO {
        HandleGetInfo();
      } else if cmd == CMD_MAKE_CREDENTIAL {
        HandleMakeCredential(payload);
      } else if cmd == CMD_GET_ASSERTION {
        HandleGetAssertion(payload);
      } else {
        WriteCtap2Response(NOT_ALLOWED, []);
      }
    }

    method HandleGetInfo()
      modifies this
      ensures View() == GetInfo(e, old(View()))
    {
      var response := Info(["FIDO_2_0", "U2F_V2"], Zeros(16), true, true, e.performsUV, 1200);
      var encoded := e.encodeInfo(response);
      if encoded.None? {
        WriteCtap2Response(INVALID_CBOR, []);
        return;
      }
      WriteCtap2Response(OK, encoded.value);
    }

    method HandleMakeCredential(payload: seq<byte>)
      modifies this
      ensures View() == MakeCredential(e, old(View()), payload)
    {
      hide Dummy;
      var decoded := e.decodeMake(payload);
      if decoded.None? {
        WriteCtap2Response(INVALID_CBOR, []);
        return;
      }
      var req := decoded.value;
      if |req.clientDataHash| != 32 {
        WriteCtap2Response(INVALID_CBOR, []);
        return;
      }
      var hasES256 := HasES256(req.algs);
      if !hasES256 {
        WriteCtap2Response(UNSUPPORTED_ALG, []);
        return;
      }
      if req.options.Some? && req.options.value.uv && !e.performsUV {
        WriteCtap2Response(INVALID_OPTION, []);
        return;
      }
      var rpIdHash := e.sha256(req.rpId);
      var answer := VerifyUser(ToRegister, req.rpId);
      if answer != Approved {
        WriteCtap2Response(StatusForFailure(answer), []);
        return;
      }
      var excluded := IsExcluded(req.excludeList, rpIdHash);
      if excluded {
        WriteCtap2Response(CREDENTIAL_EXCLUDED, []);
        return;
      }
      FinishRegistration(req, rpIdHash);
    }

    method HasES256(algs: seq<int>) returns (has: bool)
      ensures has <==> ES256 in algs
    {
      has := false;
      var i := 0;
      while i < |algs|
        invariant 0 <= i <= |algs|
        invariant ES256 !in algs[..i]
      {
        if algs[i] == -7 {
          return true;
        }
        i := i + 1;
      }
    }

    method IsExcluded(excludeList: Ids, rpIdHash: Hash32) returns (excluded: bool)
      modifies this
      ensures var (s, k) := FirstSignable(e, old(View()), excludeList, rpIdHash, 0);
              View() == s && (excluded <==> k < |excludeList|)
    {
      hide Dummy;
      excluded := false;
      var i := 0;
      while i < |excludeList|
        invariant 0 <= i <= |excludeList|
        invariant FirstSignable(e, old(View()), excludeList, rpIdHash, 0)
            == FirstSignable(e, View(), excludeList, rpIdHash, i)
      {
        var sig := SignASN1(IdBytes(excludeList[i]), rpIdHash, Dummy(e));
        if sig.Some? {
          return true;
        }
        i := i + 1;
      }
    }

    method FinishRegistration(req: MakeReq, rpIdHash: Hash32)
      requires rpIdHash == e.sha256(req.rpId)
      modifies this
      ensures View() == Enroll(e, old(View()), req)
    {
      var pair := RegisterKey(rpIdHash);
      if pair.None? {
        WriteCtap2Response(OPERATION_DENIED, []);
        return;
      }
      var keyHandle := pair.value.handle;
      var coseKey := e.encodeKey(pair.value.x, pair.value.y);
      if coseKey.None? {
        WriteCtap2Response(OPERATION_DENIED, []);
        return;
      }
      var authFlags: byte := FLAG_UP + FLAG_AT;
      if e.performsUV {
        authFlags := authFlags + FLAG_UV;
      }
      var authData: seq<byte> := rpIdHash;
      authData := authData + [authFlags];
      authData := authData + U32(e.counter(|log|));
      authData := authData + Zeros(16);
      authData := authData + U16(|keyHandle| % 0x1_0000);
      authData := authData + keyHandle;
      authData := authData + coseKey.value;
      assert authData == AttestedFor(e, rpIdHash, e.counter(|log|), keyHandle, coseKey.value);
      var encoded := e.encodeAttestation(authData);
      if encoded.None? {
        WriteCtap2Response(OPERATION_DENIED, []);
        return;
      }
      if req.options.Some? && req.options.value.rk {
        var saved := SaveCredential(CredOf(req, rpIdHash, keyHandle));
      }
      WriteCtap2Response(OK, encoded.value);
    }

    method HandleGetAssertion(payload: seq<byte>)
      modifies this
      ensures View() == GetAssertion(e, old(View()), payload)
    {
      hide Dummy, Assert;
      var decoded := e.decodeGet(payload);
      if decoded.None? {
        WriteCtap2Response(INVALID_CBOR, []);
        return;
      }
      var req := decoded.value;
      if |req.clientDataHash| != 32 {
        WriteCtap2Response(INVALID_CBOR, []);
        return;
      }
      if req.uv == Some(true) && !e.performsUV {
        WriteCtap2Response(INVALID_OPTION, []);
        return;
      }
      var rpIdHash := e.sha256(req.rpId);
      var keyHandle: Option<seq<byte>> := None;
      var storedCred: Option<CredStore.Cred> := None;
      if |req.allowList| > 0 {
        keyHandle := FindSignable(req.allowList, rpIdHash);
        if keyHandle.None? {
          WriteCtap2Response(NO_CREDENTIALS, []);
          return;
        }
      } else {
        var creds := FindByRPID(rpIdHash);
        if creds.None? {
          WriteCtap2Response(OPERATION_DENIED, []);
          return;
        }
        if |creds.value| == 0 {
          WriteCtap2Response(NO_CREDENTIALS, []);
          return;
        }
        storedCred := Some(creds.value[0]);
        keyHandle := Some(creds.value[0].credId);
      }
      FinishAssertion(req, rpIdHash, keyHandle.value, storedCred);
    }

    method FindSignable(allowList: Ids, rpIdHash: Hash32) returns (keyHandle: Option<seq<byte>>)
      modifies this
      ensures var (s, k) := FirstSignable(e, old(View()), allowList, rpIdHash, 0);
              View() == s && keyHandle == if k < |allowList| then allowList[k] else None
    {
      hide Dummy;
      keyHandle := None;
      var i := 0;
      while i < |allowList|
        invariant 0 <= i <= |allowList|
        invariant keyHandle == None
        invariant FirstSignable(e, old(View()), allowList, rpIdHash, 0)
            == FirstSignable(e, View(), allowList, rpIdHash, i)
      {
        var sig := SignASN1(IdBytes(allowList[i]), rpIdHash, Dummy(e));
        if sig.Some? {
          keyHandle := allowList[i];
          return;
        }
        i := i + 1;
      }
    }

    method FinishAssertion(req: GetReq, rpIdHash: Hash32, keyHandle: seq<byte>, storedCred: Option<CredStore.Cred>)
      requires rpIdHash == e.sha256(req.rpId)
      modifies this
      ensures View() == Assert(e, old(View()), req, keyHandle, storedCred)
    {
      var answer := VerifyUser(ToAuthenticate, req.rpId);
      if answer != Approved {
        WriteCtap2Response(StatusForFailure(answer), []);
        return;
      }
      var authFlags: byte := FLAG_UP;
      if e.performsUV {
        authFlags := authFlags + FLAG_UV;
      }
      var authData: seq<byte> := rpIdHash;
      authData := authData + [authFlags];
      authData := authData + U32(e.counter(|log|));
      assert authData == AssertionData(e, rpIdHash, e.counter(|log|));
      var sig := SignASN1(keyHandle, rpIdHash, e.sha256(authData + req.clientDataHash));
      if sig.None? {
        WriteCtap2Response(OPERATION_DENIED, []);
        return;
      }
      var user: Option<User> := None;
      if storedCred.Some? {
        user := Some(User(storedCred.value.userId, storedCred.value.userName, storedCred.value.displayName));
      }
      var encoded := e.encodeAssertion(Assertion(keyHandle, authData, sig.value, user));
      if encoded.None? {
        WriteCtap2Response(OPERATION_DENIED, []);
        return;
      }
      WriteCtap2Response(OK, encoded.value);
    }

    // ----- U2F -----

    method HandleAuthenticate(req: Apdu.AuthReq)
      modifies this
      ensures View() == Authenticate(e, old(View()), req)
    {
      hide Dummy;
      var probe := SignASN1(req.keyHandle, req.application, Dummy(e));
      if probe.None? {
        WriteResponse([], SW_WRONG_DATA);
        return;
      }
      if req.ctrl != Apdu.CTRL_CHECK_ONLY && req.ctrl != Apdu.CTRL_DONT_ENFORCE_PRESENCE
          && req.ctrl != Apdu.CTRL_ENFORCE_PRESENCE {
        WriteResponse([], SW_WRONG_DATA);
        return;
      }
      if req.ctrl == Apdu.CTRL_CHECK_ONLY {
        WriteResponse([], SW_CONDITIONS_NOT_SATISFIED);
        return;
      }
      var userPresent: byte := 0;
      if req.ctrl == Apdu.CTRL_ENFORCE_PRESENCE {
        var answer := ConfirmPresence(req.challenge, req.application);
        match answer
        case Approved =>
          userPresent := 1;
        case Rejected(_) =>
          WriteResponse([], SW_WRONG_DATA);
          return;
        case _ =>
          WriteResponse([], SW_CONDITIONS_NOT_SATISFIED);
          return;
      }
      var signCounter := e.counter(|log|);
      var toSign := req.application;
      toSign := toSign + [userPresent];
      toSign := toSign + U32(signCounter);
      toSign := toSign + req.challenge;
      assert toSign == U2fPreimage(req.application, userPresent, signCounter, req.challenge);
      var sig := SignASN1(req.keyHandle, req.application, e.sha256(toSign));
      if sig.None? {
        fatal := true;
        return;
      }
      WriteResponse([userPresent] + U32(signCounter) + sig.value, SW_NO_ERROR);
    }

    method HandleRegister(req: Apdu.RegisterReq)
      modifies this
      ensures View() == Register(e, old(View()), req)
    {
      hide Authenticator.RegisterSite;
      var answer := ConfirmPresence(req.challenge, req.application);
      match answer
      case Approved =>
        RegisterSite(req);
      case Rejected(_) =>
        WriteResponse([], SW_WRONG_DATA);
      case _ =>
        WriteResponse([], SW_CONDITIONS_NOT_SATISFIED);
    }

    method RegisterSite(req: Apdu.RegisterReq)
      modifies this
      ensures View() == Authenticator.RegisterSite(e, old(View()), req)
    {
      var pair := RegisterKey(req.application);
      if pair.None? {
        return;
      }
      var keyHandle := pair.value.handle;
      if |keyHandle| > 255 {
        return;
      }
      var childPubKey := PublicKey(pair.value);
      var toSign: seq<byte> := [0];
      toSign := toSign + req.application;
      toSign := toSign + req.challenge;
      toSign := toSign + keyHandle;
      toSign := toSign + childPubKey;
      assert toSign == RegistrationPreimage(req, pair.value);
      var sig := e.attests(|log|);
      log := log + [Act.Attested(e.sha256(toSign), sig.Some?)];
      if sig.None? {
        fatal := true;
        return;
      }
      var out: seq<byte> := [5];
      out := out + childPubKey;
      out := out + [|keyHandle|];
      out := out + keyHandle;
      out := out + e.certificate;
      out := out + sig.value;
      assert out == RegistrationReply(e, pair.value, sig.value);
      WriteResponse(out, SW_NO_ERROR);
    }

    /** The loop of `run` over the events that arrive. */
    method Run(events: seq<HidToken.AuthEvent>)
      modifies this
      ensures View() == HandleAll(e, old(View()), events)
    {
      hide Authenticator.HandleCtap2, Authenticate, Register;
      var i := 0;
      while i < |events| && !fatal
        invariant 0 <= i <= |events|
        invariant View() == HandleAll(e, old(View()), events[..i])
      {
        HandleOne(events[i]);
        i := i + 1;
        assert events[..i][..i - 1] == events[..i - 1];
      }
      NothingAfterFatal(e, old(View()), events, i);
      assert events[..|events|] == events;
    }

    method HandleOne(evt: HidToken.AuthEvent)
      requires !fatal
      modifies this
      ensures View() == HandleEvent(e, old(View()), evt)
    {
      hide Authenticator.HandleCtap2, Authenticate, Register;
      if evt.rawCbor.Some? {
        HandleCtap2(evt.rawCbor.value);
        return;
      }
      if evt.decoded.None? || evt.decoded.value.Err? {
        return;
      }
      var req := evt.decoded.value.req;
      if req.authenticate.Some? {
        HandleAuthenticate(req.authenticate.value);
      } else if req.register.Some? {
        HandleRegister(req.register.value);
      } else if req.command == Apdu.CMD_VERSION {
        WriteResponse(VERSION, SW_NO_ERROR);
      } else {
        WriteResponse([], SW_CLA_NOT_SUPPORTED);
      }
    }
  }

  lemma {:induction false} NothingAfterFatal(e: Env, s: Server, events: seq<HidToken.AuthEvent>, i: nat)
    requires i <= |events| && (i < |events| ==> HandleAll(e, s, events[..i]).fatal)
    ensures HandleAll(e, s, events) == HandleAll(e, s, events[..i])
    decreases |events|
  {
    hide HandleEvent;
    var n := |events| - 1;
    if i <= n {
      if i < n {
        assert events[..n][..i] == events[..i];
        NothingAfterFatal(e, s, events[..n], i);
      }
      FatalStops(e, HandleAll(e, s, events[..i]), events[n]);
    } else {
      assert events[..i] == events;
    }
  }

  lemma FatalStops(e: Env, s: Server, evt: HidToken.AuthEvent)
    requires s.fatal
    ensures HandleEvent(e, s, evt) == s
  {}
}
