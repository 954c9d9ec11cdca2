/**
 The request handlers of main.go as functions on the server's state and the trace of its effects.
 The verifier is the caching one of UvCache, whose goroutines outlive the handlers. The signer is
 ideal: it accepts a handle that its backend can open, and only under the application parameter it
 was registered with. What the outside world does next depends on how many effects have happened.
 */
module Authenticator {
  import opened Bytes
  import opened AuthData
  import Apdu
  import CredStore
  import HidToken
  import KeyHandle
  import UvCache

  type Hash32 = b: seq<byte> | |b| == 32 witness Zeros(32)

  // CTAP2 status codes (ctap2/ctap2.go) and U2F status words (statuscode/statuscode.go).
  const OK: byte := 0x00
  const INVALID_CBOR: byte := 0x12
  const CREDENTIAL_EXCLUDED: byte := 0x19
  const UNSUPPORTED_ALG: byte := 0x26
  const OPERATION_DENIED: byte := 0x27
  const INVALID_OPTION: byte := 0x2C
  const NO_CREDENTIALS: byte := 0x2E
  const USER_ACTION_TIMEOUT: byte := 0x2F
  const NOT_ALLOWED: byte := 0x30
  const UV_INVALID: byte := 0x3F

  const SW_NO_ERROR: u16 := 0x9000
  const SW_CONDITIONS_NOT_SATISFIED: u16 := 0x6985
  const SW_WRONG_DATA: u16 := 0x6A80
  const SW_CLA_NOT_SUPPORTED: u16 := 0x6E00

  const CMD_MAKE_CREDENTIAL: byte := 0x01
  const CMD_GET_ASSERTION: byte := 0x02
  const CMD_GET_INFO: byte := 0x04

  const ES256: int := -7

  datatype Options = Options(rk: bool, uv: bool)

  /** Credential ids may be absent (nil) in a decoded list. */
  type Ids = seq<Option<seq<byte>>>

  datatype MakeReq = MakeReq(
    clientDataHash: seq<byte>, rpId: seq<byte>, rpName: seq<byte>,
    userId: seq<byte>, userName: seq<byte>, displayName: seq<byte>,
    algs: seq<int>, excludeList: Ids, options: Option<Options>)

  datatype GetReq = GetReq(rpId: seq<byte>, clientDataHash: seq<byte>, allowList: Ids, uv: Option<bool>)

  datatype User = User(id: seq<byte>, name: seq<byte>, displayName: seq<byte>)

  datatype Assertion = Assertion(handle: seq<byte>, authData: seq<byte>, signature: seq<byte>, user: Option<User>)

  datatype KeyPair = KeyPair(handle: seq<byte>, x: Hash32, y: Hash32)

  /** What GetInfo tells about the authenticator. */
  datatype Info = Info(versions: seq<string>, aaguid: seq<byte>, rk: bool, up: bool, uv: bool, maxMsgSize: nat)

  /** Where the keys are kept. */
  datatype Backend = Tpm | Memory

  /** The length of an XChaCha20-Poly1305 nonce, with which the handles of memory/memory.go begin. */
  const NONCE_LEN: nat := 24

  /** How a request for confirmation ends: it cannot be started, it is approved or rejected, or no
      answer comes in time. */
  datatype Answer = CannotStart | Approved | Rejected(noMatch: bool) | NoAnswer

  datatype Purpose = ToRegister | ToAuthenticate

  /** How the world treats one call of the caching verifier: what goes on before it (the clock, and the
      goroutines of earlier calls), whether the inner verifier refuses to start, what goes on while the
      handler waits, whether the handler's deadline strikes although an answer is there, and why a
      rejection happened. */
  datatype Visit = Visit(
    before: seq<UvCache.Action>, refused: bool, during: seq<UvCache.Action>, late: bool, noMatch: bool)

  /** Foreign code and foreign events. A function of a `nat` is asked with the number of effects
      recorded so far. */
  datatype Env = Env(
    sha256: seq<byte> -> Hash32,
    backend: Backend,
    ttl: nat,
    performsUV: bool,
    certificate: seq<byte>,
    visit: nat -> Visit,
    user: nat -> Answer,
    signDown: nat -> bool,
    signature: nat -> seq<byte>,
    generates: nat -> Option<KeyPair>,
    attests: nat -> Option<seq<byte>>,
    counter: nat -> u32,
    storeDown: nat -> bool,
    decodeMake: seq<byte> -> Option<MakeReq>,
    decodeGet: seq<byte> -> Option<GetReq>,
    encodeKey: (seq<byte>, seq<byte>) -> Option<seq<byte>>,
    encodeAttestation: seq<byte> -> Option<seq<byte>>,
    encodeAssertion: Assertion -> Option<seq<byte>>,
    encodeInfo: Info -> Option<seq<byte>>)

  /** One effect. `Prompted` and `CacheHit` are calls of the caching verifier, numbered as it numbers
      them: only the first one asks the user. */
  datatype Act =
    | Prompted(call: nat, at: int, purpose: Purpose, rpId: seq<byte>, answer: Answer)
    | CacheHit(call: nat, at: int, purpose: Purpose, rpId: seq<byte>)
    | Confirmed(challenge: seq<byte>, application: seq<byte>, answer: Answer)
    | Signed(handle: seq<byte>, application: seq<byte>, digest: seq<byte>, ok: bool)
    | Registered(application: seq<byte>, pair: Option<KeyPair>)
    | Attested(digest: seq<byte>, ok: bool)
    | LookedUp(rpIdHash: seq<byte>, ok: bool)
    | SavedCred(cred: CredStore.Cred, ok: bool)
    | Ctap2Reply(status: byte, data: seq<byte>)
    | U2fReply(data: seq<byte>, word: u16)

  type Key = (seq<byte>, seq<byte>)

  datatype Server = Server(keys: set<Key>, store: seq<CredStore.Cred>, uv: UvCache.State, log: seq<Act>, fatal: bool)

  /** The server as a process finds it: whatever keys the signer has from before, whatever credentials
      an earlier process has left on disk, and an empty cache. */
  function Start(keys: set<Key>, store: seq<CredStore.Cred>, clock: int): Server {
    Server(keys, store, UvCache.Initial(clock), [], false)
  }

  /** The digest used to ask whether a handle can be signed with at all: sha256("meticulously-Bacardi"). */
  function Dummy(e: Env): Hash32 {
    e.sha256([0x6d, 0x65, 0x74, 0x69, 0x63, 0x75, 0x6c, 0x6f, 0x75, 0x73, 0x6c, 0x79, 0x2d, 0x42, 0x61, 0x63, 0x61,
        0x72, 0x64, 0x69])
  }

  // ----- effects -----

  function Record(s: Server, a: Act): Server {
    s.(log := s.log + [a])
  }

  function Reply(e: Env, s: Server, status: byte, data: seq<byte>): Server {
    Record(s, Ctap2Reply(status, data))
  }

  function ReplyU2f(e: Env, s: Server, data: seq<byte>, status: u16): Server {
    Record(s, U2fReply(data, status))
  }

  /** The state of the cache when a call of `VerifyUser` enters it after `n` effects. */
  function Arrival(e: Env, n: nat, uv: UvCache.State): UvCache.State {
    UvCache.Meanwhile(e.ttl, uv, e.visit(n).before)
  }

  /** Whether that call is answered from the cache. */
  predicate IsHit(e: Env, n: nat, uv: UvCache.State) {
    UvCache.Fresh(e.ttl, Arrival(e, n, uv).lastOK, Arrival(e, n, uv).clock)
  }

  /** The cache after the call and the handler's wait. */
  function AfterVisit(e: Env, n: nat, uv: UvCache.State): UvCache.State {
    var arrival := Arrival(e, n, uv);
    var called := UvCache.Do(e.ttl, arrival, UvCache.Call);
    if IsHit(e, n, uv) then called else
    var started := UvCache.Do(e.ttl, called, UvCache.StartInner(|arrival.calls|, !e.visit(n).refused));
    if e.visit(n).refused then started else UvCache.Meanwhile(e.ttl, started, e.visit(n).during)
  }

  /** What the handler gets to know. */
  function Verified(e: Env, n: nat, uv: UvCache.State): Answer {
    if IsHit(e, n, uv) then Approved
    else if e.visit(n).refused then CannotStart
    else
      match AfterVisit(e, n, uv).calls[|uv.calls|]
      case Returned(ok) => if e.visit(n).late then NoAnswer else if ok then Approved else Rejected(e.visit(n).noMatch)
      case _ => NoAnswer
  }

  /** How the call is recorded. */
  function Asked(e: Env, n: nat, uv: UvCache.State, purpose: Purpose, rpId: seq<byte>): Act {
    var at := Arrival(e, n, uv).clock;
    if IsHit(e, n, uv) then CacheHit(|uv.calls|, at, purpose, rpId)
    else Prompted(|uv.calls|, at, purpose, rpId, Verified(e, n, uv))
  }

  /** A call of the caching verifier, which does not look at its prompt. */
  function Ask(e: Env, s: Server, purpose: Purpose, rpId: seq<byte>): (Server, Answer) {
    var n := |s.log|;
    (Record(s, Asked(e, n, s.uv, purpose, rpId)).(uv := AfterVisit(e, n, s.uv)), Verified(e, n, s.uv))
  }

  function Confirm(e: Env, s: Server, challenge: seq<byte>, application: seq<byte>): (Server, Answer) {
    var a := e.user(|s.log|);
    (Record(s, Confirmed(challenge, application, a)), a)
  }

  /** Handles that the backend can open at all: three records, or something after a nonce. */
  predicate Opens(backend: Backend, handle: seq<byte>) {
    match backend
    case Tpm => KeyHandle.PartsOf(handle).Some?
    case Memory => |handle| >= NONCE_LEN
  }

  /** Whether the signer knows a handle for an application parameter. */
  predicate Accepts(e: Env, keys: set<Key>, handle: seq<byte>, application: seq<byte>) {
    (handle, application) in keys && Opens(e.backend, handle)
  }

  /** Whether it would sign now. */
  predicate Signs(e: Env, s: Server, handle: seq<byte>, application: seq<byte>) {
    Accepts(e, s.keys, handle, application) && !e.signDown(|s.log|)
  }

  function Sign(e: Env, s: Server, handle: seq<byte>, application: seq<byte>, digest: seq<byte>)
    : (Server, Option<seq<byte>>)
  {
    var ok := Signs(e, s, handle, application);
    (Record(s, Signed(handle, application, digest, ok)), if ok then Some(e.signature(|s.log|)) else None)
  }

  function Generate(e: Env, s: Server, application: seq<byte>): (Server, Option<KeyPair>) {
    var p := e.generates(|s.log|);
    var t := Record(s, Registered(application, p));
    (if p.Some? then t.(keys := t.keys + {(p.value.handle, application)}) else t, p)
  }

  function Save(e: Env, s: Server, c: CredStore.Cred): (Server, bool) {
    var ok := !e.storeDown(|s.log|);
    var t := Record(s, SavedCred(c, ok));
    (if ok then t.(store := CredStore.Upsert(t.store, c)) else t, ok)
  }

  function Find(e: Env, s: Server, rpIdHash: seq<byte>): (Server, Option<seq<CredStore.Cred>>) {
    var ok := !e.storeDown(|s.log|);
    (Record(s, LookedUp(rpIdHash, ok)), if ok then Some(CredStore.Matching(s.store, rpIdHash)) else None)
  }

  // ----- CTAP2 -----

  function StatusForFailure(a: Answer): byte {
    match a
    case Rejected(noMatch) => if noMatch then UV_INVALID else OPERATION_DENIED
    case NoAnswer => USER_ACTION_TIMEOUT
    case _ => OPERATION_DENIED
  }

  function IdBytes(id: Option<seq<byte>>): seq<byte> {
    if id.Some? then id.value else []
  }

  /** From the i-th id on, the position of the first one the signer accepts, or the length. */
  function FirstSignable(e: Env, s: Server, ids: Ids, application: seq<byte>, i: nat): (r: (Server, nat))
    requires i <= |ids|
    ensures r.0.keys == s.keys && r.0.store == s.store && r.0.uv == s.uv && r.0.fatal == s.fatal
    ensures i <= r.1 <= |ids|
    decreases |ids| - i
  {
    if i == |ids| then (s, i) else
    var (t, sig) := Sign(e, s, IdBytes(ids[i]), application, Dummy(e));
    if sig.Some? then (t, i) else FirstSignable(e, t, ids, application, i + 1)
  }

  function AttestedFor(e: Env, rpIdHash: Hash32, counter: u32, handle: seq<byte>, key: seq<byte>): seq<byte> {
    AuthData.Attested(rpIdHash, Flags(e.performsUV, true), counter, handle, key)
  }

  function CredOf(req: MakeReq, rpIdHash: Hash32, handle: seq<byte>): CredStore.Cred {
    CredStore.Cred(handle, rpIdHash, req.rpId, req.rpName, req.userId, req.userName, req.displayName)
  }

  /** MakeCredential after the user's approval and the exclude list. */
  function Enroll(e: Env, s: Server, req: MakeReq): Server {
    var rp := e.sha256(req.rpId);
    var (s1, pair) := Generate(e, s, rp);
    if pair.None? then Reply(e, s1, OPERATION_DENIED, []) else
    var handle := pair.value.handle;
    var key := e.encodeKey(pair.value.x, pair.value.y);
    if key.None? then Reply(e, s1, OPERATION_DENIED, []) else
    var encoded := e.encodeAttestation(AttestedFor(e, rp, e.counter(|s1.log|), handle, key.value));
    if encoded.None? then Reply(e, s1, OPERATION_DENIED, []) else
    var s2 := if req.options.Some? && req.options.value.rk then Save(e, s1, CredOf(req, rp, handle)).0 else s1;
    Reply(e, s2, OK, encoded.value)
  }

  function MakeCredential(e: Env, s: Server, payload: seq<byte>): Server {
    var decoded := e.decodeMake(payload);
    if decoded.None? then Reply(e, s, INVALID_CBOR, []) else
    var req := decoded.value;
    if |req.clientDataHash| != 32 then Reply(e, s, INVALID_CBOR, [])
    else if ES256 !in req.algs then Reply(e, s, UNSUPPORTED_ALG, [])
    else if req.options.Some? && req.options.value.uv && !e.performsUV then Reply(e, s, INVALID_OPTION, [])
    else
      var (s1, answer) := Ask(e, s, ToRegister, req.rpId);
      if answer != Approved then Reply(e, s1, StatusForFailure(answer), []) else
      var (s2, k) := FirstSignable(e, s1, req.excludeList, e.sha256(req.rpId), 0);
      if k < |req.excludeList| then Reply(e, s2, CREDENTIAL_EXCLUDED, []) else Enroll(e, s2, req)
  }

  /** The credential an assertion is made with, or the status that says why there is none. */
  datatype Choice = Use(handle: seq<byte>, stored: Option<CredStore.Cred>) | Refuse(status: byte)

  function Choose(e: Env, s: Server, allowList: Ids, rpIdHash: Hash32): (Server, Choice) {
    if allowList != [] then
      var (t, k) := FirstSignable(e, s, allowList, rpIdHash, 0);
      (t, if k < |allowList| && allowList[k].Some? then Use(allowList[k].value, None) else Refuse(NO_CREDENTIALS))
    else
      var (t, found) := Find(e, s, rpIdHash);
      (t, if found.None? then Refuse(OPERATION_DENIED)
          else if found.value == [] then Refuse(NO_CREDENTIALS)
          else Use(found.value[0].credId, Some(found.value[0])))
  }

  function AssertionData(e: Env, rpIdHash: Hash32, counter: u32): seq<byte> {
    Head(rpIdHash, Flags(e.performsUV, false), counter)
  }

  function UserOf(stored: Option<CredStore.Cred>): Option<User> {
    if stored.None? then None
    else Some(User(stored.value.userId, stored.value.userName, stored.value.displayName))
  }

  /** GetAssertion once a credential has been chosen. */
  function Assert(e: Env, s: Server, req: GetReq, handle: seq<byte>, stored: Option<CredStore.Cred>): Server {
    var rp := e.sha256(req.rpId);
    var (s1, answer) := Ask(e, s, ToAuthenticate, req.rpId);
    if answer != Approved then Reply(e, s1, StatusForFailure(answer), []) else
    var authData := AssertionData(e, rp, e.counter(|s1.log|));
    var (s2, sig) := Sign(e, s1, handle, rp, e.sha256(authData + req.clientDataHash));
    if sig.None? then Reply(e, s2, OPERATION_DENIED, []) else
    var encoded := e.encodeAssertion(Assertion(handle, authData, sig.value, UserOf(stored)));
    if encoded.None? then Reply(e, s2, OPERATION_DENIED, []) else Reply(e, s2, OK, encoded.value)
  }

  function GetAssertion(e: Env, s: Server, payload: seq<byte>): Server {
    var decoded := e.decodeGet(payload);
    if decoded.None? then Reply(e, s, INVALID_CBOR, []) else
    var req := decoded.value;
    if |req.clientDataHash| != 32 then Reply(e, s, INVALID_CBOR, [])
    else if req.uv == Some(true) && !e.performsUV then Reply(e, s, INVALID_OPTION, [])
    else
      var (s1, choice) := Choose(e, s, req.allowList, e.sha256(req.rpId));
      match choice
      case Refuse(status) => Reply(e, s1, status, [])
      case Use(handle, stored) => Assert(e, s1, req, handle, stored)
  }

  /** Resident keys and user presence always, user verification only if the verifier identifies. */
  function InfoOf(e: Env): Info {
    Info(["FIDO_2_0", "U2F_V2"], Zeros(16), true, true, e.performsUV, 1200)
  }

  function GetInfo(e: Env, s: Server): Server {
    var encoded := e.encodeInfo(InfoOf(e));
    if encoded.None? then Reply(e, s, INVALID_CBOR, []) else Reply(e, s, OK, encoded.value)
  }

  function HandleCtap2(e: Env, s: Server, raw: seq<byte>): Server {
    if raw == [] then Reply(e, s, INVALID_CBOR, [])
    else if raw[0] == CMD_GET_INFO then GetInfo(e, s)
    else if raw[0] == CMD_MAKE_CREDENTIAL then MakeCredential(e, s, raw[1..])
    else if raw[0] == CMD_GET_ASSERTION then GetAssertion(e, s, raw[1..])
    else Reply(e, s, NOT_ALLOWED, [])
  }

  // ----- U2F -----

  /** What a U2F authentication signs. */
  function U2fPreimage(application: seq<byte>, presence: byte, counter: u32, challenge: seq<byte>): seq<byte> {
    application + [presence] + U32(counter) + challenge
  }

  /** The last part of a U2F authentication: the signature, without which the program ends. */
  function U2fSign(e: Env, s: Server, req: Apdu.AuthReq, presence: byte): Server {
    var counter := e.counter(|s.log|);
    var digest := e.sha256(U2fPreimage(req.application, presence, counter, req.challenge));
    var (s1, sig) := Sign(e, s, req.keyHandle, req.application, digest);
    if sig.None? then s1.(fatal := true)
    else ReplyU2f(e, s1, [presence] + U32(counter) + sig.value, SW_NO_ERROR)
  }

  function Authenticate(e: Env, s: Server, req: Apdu.AuthReq): Server {
    var (s1, probe) := Sign(e, s, req.keyHandle, req.application, Dummy(e));
    if probe.None? || !Apdu.KnownCtrl(req.ctrl) then ReplyU2f(e, s1, [], SW_WRONG_DATA)
    else if req.ctrl == Apdu.CTRL_CHECK_ONLY then ReplyU2f(e, s1, [], SW_CONDITIONS_NOT_SATISFIED)
    else if req.ctrl == Apdu.CTRL_ENFORCE_PRESENCE then
      var (s2, answer) := Confirm(e, s1, req.challenge, req.application);
      match answer
      case Approved => U2fSign(e, s2, req, 1)
      case Rejected(_) => ReplyU2f(e, s2, [], SW_WRONG_DATA)
      case _ => ReplyU2f(e, s2, [], SW_CONDITIONS_NOT_SATISFIED)
    else U2fSign(e, s1, req, 0)
  }

  function PublicKey(p: KeyPair): (r: seq<byte>)
    ensures |r| == 65
  {
    [4] + p.x + p.y
  }

  function RegistrationPreimage(req: Apdu.RegisterReq, p: KeyPair): seq<byte> {
    [0] + req.application + req.challenge + p.handle + PublicKey(p)
  }

  function RegistrationReply(e: Env, p: KeyPair, sig: seq<byte>): seq<byte>
    requires |p.handle| <= 255
  {
    [5] + PublicKey(p) + [|p.handle|] + p.handle + e.certificate + sig
  }

  function RegisterSite(e: Env, s: Server, req: Apdu.RegisterReq): Server {
    var (s1, pair) := Generate(e, s, req.application);
    if pair.None? || |pair.value.handle| > 255 then s1 else
    var sig := e.attests(|s1.log|);
    var s2 := Record(s1, Act.Attested(e.sha256(RegistrationPreimage(req, pair.value)), sig.Some?));
    if sig.None? then s2.(fatal := true)
    else ReplyU2f(e, s2, RegistrationReply(e, pair.value, sig.value), SW_NO_ERROR)
  }

  function Register(e: Env, s: Server, req: Apdu.RegisterReq): Server {
    var (s1, answer) := Confirm(e, s, req.challenge, req.application);
    match answer
    case Approved => RegisterSite(e, s1, req)
    case Rejected(_) => ReplyU2f(e, s1, [], SW_WRONG_DATA)
    case _ => ReplyU2f(e, s1, [], SW_CONDITIONS_NOT_SATISFIED)
  }

  // ----- the event loop -----

  const VERSION: seq<byte> := [0x55, 0x32, 0x46, 0x5f, 0x56, 0x32]

  /** One event in the loop of `run`. */
  function HandleEvent(e: Env, s: Server, evt: HidToken.AuthEvent): Server {
    if s.fatal then s
    else if evt.rawCbor.Some? then HandleCtap2(e, s, evt.rawCbor.value)
    else if evt.decoded.None? || evt.decoded.value.Err? then s
    else
      var req := evt.decoded.value.req;
      if req.authenticate.Some? then Authenticate(e, s, req.authenticate.value)
      else if req.register.Some? then Register(e, s, req.register.value)
      else if req.command == Apdu.CMD_VERSION then ReplyU2f(e, s, VERSION, SW_NO_ERROR)
      else ReplyU2f(e, s, [], SW_CLA_NOT_SUPPORTED)
  }

  function HandleAll(e: Env, s: Server, evts: seq<HidToken.AuthEvent>): Server
    decreases |evts|
  {
    if evts == [] then s else HandleEvent(e, HandleAll(e, s, evts[..|evts| - 1]), evts[|evts| - 1])
  }
}
