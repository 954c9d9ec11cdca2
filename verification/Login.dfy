/**
 From registration to login, across any further events of a run, and from whatever keys and stored
 credentials the process started with: the file may hold credentials that the signer of this process
 does not know, after a restart with the in-memory backend or a change of backend.
 */
module Login {
  import opened Bytes
  import opened AuthProperties
  import opened Authenticator
  import opened Requests
  import opened ServerInvariant
  import Apdu
  import CredStore
  import HidToken
  import UvCache

  // ----- logins without an allow list -----

  /** The request asks for a login without an allow list that the verifier can serve. */
  predicate AsksToDiscover(e: Env, payload: seq<byte>) {
    var decoded := e.decodeGet(payload);
    && decoded.Some? && |decoded.value.clientDataHash| == 32
    && decoded.value.allowList == [] && !(decoded.value.uv == Some(true) && !e.performsUV)
  }

  /** The reply of a login with this credential can be encoded. */
  predicate LoginEncodes(e: Env, n: nat, rp: Hash32, c: CredStore.Cred) {
    e.encodeAssertion(Assertion(c.credId, AssertionData(e, rp, e.counter(n)), e.signature(n), UserOf(Some(c)))).Some?
  }

  /** The event of a registration, and that of a login. */
  function Make(channel: u32, payload: seq<byte>): HidToken.AuthEvent {
    Cbor(channel, [0x01] + payload)
  }

  function Get(channel: u32, payload: seq<byte>): HidToken.AuthEvent {
    Cbor(channel, [0x02] + payload)
  }

  /** How a login ends while the store can be read: without a credential for the RP it is refused for
      want of one. Otherwise it is made with the first credential stored for the RP and succeeds if and
      only if the verifier approves, the signer accepts that credential and is up, and the reply can be
      encoded; an approved login that fails is denied. */
  ghost predicate LoginWorks(e: Env, u: Server, channel: u32, get: seq<byte>)
    requires e.decodeGet(get).Some?
  {
    var rp := e.sha256(e.decodeGet(get).value.rpId);
    var found := CredStore.Matching(u.store, rp);
    var t := HandleEvent(e, u, Get(channel, get));
    var n := |u.log| + 1;
    && (StatusOf(t) == Some(0x2E) <==> found == [])
    && (found != [] ==>
          && (Succeeded(t) <==> Verified(e, n, u.uv) == Approved && Accepts(e, u.keys, found[0].credId, rp)
                                && !e.signDown(n + 1) && LoginEncodes(e, n + 1, rp, found[0]))
          && (!Succeeded(t) && Verified(e, n, u.uv) == Approved ==> StatusOf(t) == Some(0x27)))
  }

  /** From every state whatsoever. */
  lemma LoginExactly(e: Env, u: Server, channel: u32, get: seq<byte>)
    requires AsksToDiscover(e, get) && !u.fatal && !e.storeDown(|u.log|)
    ensures LoginWorks(e, u, channel, get)
  {
    LoginsAreServed(e, u, channel, get);
    AssertionStatus(e, u, get);
    hide HandleEvent, GetAssertion, StatusOf, AssertionData, CredStore.Matching, Accepts, Verified, UserOf;
  }

  // ----- what stays stored -----

  /** What is saved between the two states. */
  function SavedSince(t: Server, u: Server): seq<CredStore.Cred> {
    if |t.log| <= |u.log| then SavedIn(u.log[|t.log|..]) else []
  }

  /** Nothing is saved under this id between the two states. */
  ghost predicate NotResaved(t: Server, u: Server, id: seq<byte>) {
    forall d :: d in SavedSince(t, u) ==> d.credId != id
  }

  /** Whatever is saved between the two states is under an id that was not stored yet. */
  ghost predicate OnlyNewIds(t: Server, u: Server) {
    forall d :: d in SavedSince(t, u) ==> d.credId !in CredStore.Ids(t.store)
  }

  /** A stored credential stays stored, and found under its RP, with all its fields. */
  lemma StoredStays(t: Server, u: Server, c: CredStore.Cred)
    requires Extends(t, u) && c in t.store && NotResaved(t, u, c.credId)
    ensures c in CredStore.Matching(u.store, c.rpIdHash)
  {
    hide SavedIn, KeysIn, CredStore.Saves, CredStore.Matching;
    CredStore.SavesKeep(t.store, c, SavedIn(u.log[|t.log|..]));
    CredStore.MatchingExactly(u.store, c.rpIdHash, c);
  }

  /** As long as every later save is under an id that is not stored yet, the credential a login uses
      is the one that was inserted first for the RP. */
  lemma LoginUsesEarliest(t: Server, u: Server, rp: seq<byte>)
    requires Extends(t, u) && CredStore.Matching(t.store, rp) != []
    requires OnlyNewIds(t, u)
    ensures CredStore.Matching(u.store, rp) != []
    ensures CredStore.Matching(u.store, rp)[0] == CredStore.Matching(t.store, rp)[0]
  {
    hide SavedIn, KeysIn, CredStore.Matching, CredStore.Saves;
    CredStore.EarliestStaysFirst(t.store, SavedIn(u.log[|t.log|..]), rp);
  }

  /** Every stored credential is one that the signer knows for its RP. */
  ghost predicate StoreIsKnown(s: Server) {
    forall c :: c in s.store ==> (c.credId, c.rpIdHash) in s.keys
  }

  /** If that is so at the start, as with the TPM, whose keys outlive the process, it stays so. */
  lemma StoreStaysKnown(t: Server, u: Server)
    requires Extends(t, u) && StoreIsKnown(t)
    ensures StoreIsKnown(u)
  {
    hide SavedIn, KeysIn, CredStore.Saves;
    forall c | c in u.store ensures (c.credId, c.rpIdHash) in u.keys {
      CredStore.SavesFrom(t.store, SavedIn(u.log[|t.log|..]), c);
    }
  }

  /** A stored credential that the signer of this process does not know, found first for its RP, turns
      every login down, also after the RP has been registered anew under other ids. */
  lemma StaleCredentialBlocksLogin(e: Env, t: Server, u: Server, channel: u32, get: seq<byte>)
    requires Extends(t, u) && AsksToDiscover(e, get) && !u.fatal && !e.storeDown(|u.log|)
    requires OnlyNewIds(t, u)
    requires var rp := e.sha256(e.decodeGet(get).value.rpId);
             var found := CredStore.Matching(t.store, rp);
             found != [] && (found[0].credId, rp) !in u.keys
    ensures var v := HandleEvent(e, u, Get(channel, get));
            !Succeeded(v) && (Verified(e, |u.log| + 1, u.uv) == Approved ==> StatusOf(v) == Some(0x27))
  {
    var rp := e.sha256(e.decodeGet(get).value.rpId);
    LoginUsesEarliest(t, u, rp);
    LoginExactly(e, u, channel, get);
    hide HandleEvent, Verified, StatusOf, CredStore.Matching, SavedIn, KeysIn;
  }

  // ----- registration, then login -----

  /** The credential a registration makes, field by field. */
  function Made(e: Env, s: Server, make: seq<byte>): Option<CredStore.Cred> {
    var decoded := e.decodeMake(make);
    if decoded.None? then None else
    var req := decoded.value;
    var pair := e.generates(|s.log| + 1 + |req.excludeList|);
    if pair.None? then None else
    Some(CredStore.Cred(pair.value.handle, e.sha256(req.rpId), req.rpId, req.rpName,
                        req.userId, req.userName, req.displayName))
  }

  /** It asked for a resident key, was answered with OK, and its save worked. */
  predicate Registers(e: Env, s: Server, channel: u32, make: seq<byte>) {
    && !s.fatal && Succeeded(HandleEvent(e, s, Make(channel, make))) && e.decodeMake(make).Some?
    && var req := e.decodeMake(make).value;
       req.options.Some? && req.options.value.rk && !e.storeDown(|s.log| + 1 + |req.excludeList| + 1)
  }

  lemma RegistrationStores(e: Env, s: Server, channel: u32, make: seq<byte>)
    requires Registers(e, s, channel, make)
    ensures Made(e, s, make).Some?
    ensures var t, c := HandleEvent(e, s, Make(channel, make)), Made(e, s, make).value;
            t.store == CredStore.Upsert(s.store, c) && (c.credId, c.rpIdHash) in t.keys
  {
    hide HandleEvent, MakeCredential, CanRegister, CredStore.Upsert, Succeeded, Made;
    RegistrationsAreServed(e, s, channel, make);
    CredentialIsStored(e, s, make);
  }

  lemma CredentialIsStored(e: Env, s: Server, make: seq<byte>)
    requires Succeeded(MakeCredential(e, s, make)) && e.decodeMake(make).Some?
    requires var req := e.decodeMake(make).value;
             req.options.Some? && req.options.value.rk && !e.storeDown(|s.log| + 1 + |req.excludeList| + 1)
    ensures Made(e, s, make).Some?
    ensures var t, c := MakeCredential(e, s, make), Made(e, s, make).value;
            t.store == CredStore.Upsert(s.store, c) && (c.credId, c.rpIdHash) in t.keys
  {
    hide MakeCredential, EnrolledAfter, CredStore.Upsert, SignableAt, Asked, AfterVisit, Dummy, StatusOf, Failures;
    RegistrationIsSound(e, s, make);
    var req := e.decodeMake(make).value;
    var probes := Probes(req.excludeList, e.sha256(req.rpId), Dummy(e), 0, |req.excludeList|);
    assert |probes| == |req.excludeList|;
    hide Probes;
    var asked := s.log + [Asked(e, |s.log|, s.uv, ToRegister, req.rpId)];
    var before := s.(log := asked + probes, uv := AfterVisit(e, |s.log|, s.uv));
    assert |before.log| == |s.log| + 1 + |req.excludeList|;
    EnrolledStores(e, before, MakeCredential(e, s, make), req);
  }

  lemma EnrolledStores(e: Env, s: Server, t: Server, req: MakeReq)
    requires EnrolledAfter(e, s, t, req)
    requires req.options.Some? && req.options.value.rk && !e.storeDown(|s.log| + 1)
    ensures e.generates(|s.log|).Some?
    ensures var handle, rp := e.generates(|s.log|).value.handle, e.sha256(req.rpId);
            && (handle, rp) in t.keys
            && t.store == CredStore.Upsert(s.store, CredStore.Cred(handle, rp, req.rpId, req.rpName,
                                                                   req.userId, req.userName, req.displayName))
  {
    hide ReadsBack, CredStore.Upsert, AttestedFor;
  }

  /** Discoverable login: once a registration with rk has been answered with OK and its save has worked,
      then after any further events that save nothing under the same id the credential is found for its
      RP, with the names of the RP and the user that the request gave, and a login of that RP is never
      refused for want of a credential, but ends as `LoginWorks` says. */
  lemma RegisteredIsDiscoverable(e: Env, s: Server, channel: u32, make: seq<byte>, evts: seq<HidToken.AuthEvent>,
      get: seq<byte>)
    requires Registers(e, s, channel, make) && AsksToDiscover(e, get) && Made(e, s, make).Some?
    requires e.decodeGet(get).value.rpId == e.decodeMake(make).value.rpId
    requires var t := HandleEvent(e, s, Make(channel, make));
             var u := HandleAll(e, t, evts);
             NotResaved(t, u, Made(e, s, make).value.credId) && !u.fatal && !e.storeDown(|u.log|)
    ensures var rp := e.sha256(e.decodeMake(make).value.rpId);
            var u := HandleAll(e, HandleEvent(e, s, Make(channel, make)), evts);
            && Made(e, s, make).value in CredStore.Matching(u.store, rp)
            && StatusOf(HandleEvent(e, u, Get(channel, get))) != Some(0x2E) && LoginWorks(e, u, channel, get)
  {
    hide HandleEvent, HandleAll, StatusOf, Accepts, Verified, Extends, NotResaved, CredStore.Matching;
    var t, c := HandleEvent(e, s, Make(channel, make)), Made(e, s, make).value;
    var u := HandleAll(e, t, evts);
    RegistrationStores(e, s, channel, make);
    CredStore.UpsertHolds(s.store, c);
    RunFollows(e, t, evts);
    StoredStays(t, u, c);
    LoginExactly(e, u, channel, get);
  }

  /** The first registration at an RP: as long as later saves are under new ids, the login is made with
      that very credential, which the signer knows. */
  lemma FirstRegistrationLogsIn(e: Env, s: Server, channel: u32, make: seq<byte>, evts: seq<HidToken.AuthEvent>)
    requires Registers(e, s, channel, make) && Made(e, s, make).Some?
    requires var c := Made(e, s, make).value;
             CredStore.Matching(s.store, c.rpIdHash) == [] && c.credId !in CredStore.Ids(s.store)
    requires var t := HandleEvent(e, s, Make(channel, make));
             OnlyNewIds(t, HandleAll(e, t, evts))
    ensures var c := Made(e, s, make).value;
            var u := HandleAll(e, HandleEvent(e, s, Make(channel, make)), evts);
            var found := CredStore.Matching(u.store, c.rpIdHash);
            found != [] && found[0] == c && (c.credId, c.rpIdHash) in u.keys
  {
    hide HandleEvent, HandleAll, CredStore.Matching, SavedIn, KeysIn;
    var t, c := HandleEvent(e, s, Make(channel, make)), Made(e, s, make).value;
    RegistrationStores(e, s, channel, make);
    RunFollows(e, t, evts);
    assert t.store == s.store + [c] by {
      NewIdIsAppended(s.store, c);
    }
    CredStore.MatchingAppend(s.store, [c], c.rpIdHash);
    MatchingOne(c);
    LoginUsesEarliest(t, HandleAll(e, t, evts), c.rpIdHash);
  }

  lemma NewIdIsAppended(cs: seq<CredStore.Cred>, c: CredStore.Cred)
    requires c.credId !in CredStore.Ids(cs)
    ensures CredStore.Upsert(cs, c) == cs + [c]
  {
    forall j | 0 <= j < |cs| ensures cs[j].credId != c.credId {
      assert CredStore.Ids(cs)[j] in CredStore.Ids(cs);
    }
  }

  lemma MatchingOne(c: CredStore.Cred)
    ensures CredStore.Matching([c], c.rpIdHash) == [c]
  {
    assert [c][..0] == [];
  }

  // ----- U2F -----

  /** A check-only request for the handle in this registration reply finds it, if and only if the backend
      can open it and the signer is up. */
  predicate FindsHandleOf(e: Env, u: Server, channel: u32, reply: seq<byte>, application: seq<byte>,
      challenge: seq<byte>, trailing: seq<byte>) {
    && |reply| >= 67 && |reply| >= 67 + reply[66] as int
    && var handle := reply[67..67 + reply[66]];
       var req := Apdu.AuthReq(0x07, challenge, application, handle);
       var check := Apdu.EncodeAuthenticate(0, 0, [0, 0, 0], req, trailing);
       var t := HandleEvent(e, u, U2f(channel, check));
       && t.log != []
       && (Last(t) == U2fReply([], 0x6985) <==> Opens(e.backend, handle) && !e.signDown(|u.log|))
  }

  /** A U2F registration that is answered with a key: after any later events a check-only request for the
      handle in its reply and the same application parameter finds it, if and only if the backend can
      open the handle and the signer is up. */
  lemma RegisteredIsKnownLater(e: Env, s: Server, channel: u32, raw: seq<byte>, evts: seq<HidToken.AuthEvent>,
      challenge: seq<byte>, trailing: seq<byte>)
    requires !s.fatal && |raw| >= 71 && raw[1] == 0x01 && |challenge| == 32
    requires e.user(|s.log|) == Approved && RegisterAnswers(e, |s.log|)
    requires |e.generates(|s.log| + 1).value.handle| + |trailing| > 0
    requires !HandleAll(e, HandleEvent(e, s, U2f(channel, raw)), evts).fatal
    ensures RegisteredAfter(e, s.log + [Confirmed(raw[7..39], raw[39..71], Approved)],
                            HandleEvent(e, s, U2f(channel, raw)).log, Apdu.RegisterReq(raw[7..39], raw[39..71]))
    ensures var t := HandleEvent(e, s, U2f(channel, raw));
            && t.log != [] && Last(t).U2fReply?
            && FindsHandleOf(e, HandleAll(e, t, evts), channel, Last(t).data, raw[39..71], challenge, trailing)
  {
    var t := HandleEvent(e, s, U2f(channel, raw));
    U2fRegistrationIsServed(e, s, channel, raw);
    var r := Last(t).data;
    var handle := r[67..67 + r[66]];
    KeyIsThere(e, s, channel, raw);
    RunFollows(e, t, evts);
    var u := HandleAll(e, t, evts);
    hide HandleAll, HandleEvent, SavedIn, KeysIn, Opens, RegisteredAfter;
    CheckFinds(e, u, channel, Apdu.AuthReq(0x07, challenge, raw[39..71], handle), trailing);
  }

  lemma KeyIsThere(e: Env, s: Server, channel: u32, raw: seq<byte>)
    requires !s.fatal && |raw| >= 71 && raw[1] == 0x01
    requires e.user(|s.log|) == Approved && RegisterAnswers(e, |s.log|)
    ensures (e.generates(|s.log| + 1).value.handle, raw[39..71]) in HandleEvent(e, s, U2f(channel, raw)).keys
  {
    hide RegistrationReply, RegistrationPreimage;
  }

  lemma CheckFinds(e: Env, u: Server, channel: u32, check: Apdu.AuthReq, trailing: seq<byte>)
    requires !u.fatal && check.ctrl == 0x07 && |check.challenge| == 32 && |check.application| == 32
    requires |check.keyHandle| < 0x100 && |check.keyHandle| + |trailing| > 0
    requires (check.keyHandle, check.application) in u.keys
    ensures var t := HandleEvent(e, u, U2f(channel, Apdu.EncodeAuthenticate(0, 0, [0, 0, 0], check, trailing)));
            && t.log != []
            && (Last(t) == U2fReply([], 0x6985) <==> Opens(e.backend, check.keyHandle) && !e.signDown(|u.log|))
  {
    var raw := Apdu.EncodeAuthenticate(0, 0, [0, 0, 0], check, trailing);
    Apdu.AuthenticateLayout(0, 0, [0, 0, 0], check, trailing);
    U2fAuthenticationIsServed(e, u, channel, raw);
    hide Apdu.EncodeAuthenticate, HandleEvent, Opens, Dummy;
  }
}
