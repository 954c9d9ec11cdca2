/** What the handlers of main.go guarantee about one request. */
module AuthProperties {
  import opened Bytes
  import opened AuthData
  import opened Authenticator
  import opened ServerInvariant
  import Apdu
  import CredStore
  import HidFraming
  import KeyHandle
  import Lencode
  import UvCache

  function Last(s: Server): Act
    requires s.log != []
  {
    s.log[|s.log| - 1]
  }

  // ----- probing -----

  /** The j-th of the ids would be signed with when it is tried `j - i` effects after `s`. */
  predicate SignableAt(e: Env, s: Server, ids: Ids, application: seq<byte>, i: nat, j: nat)
    requires i <= j < |ids|
  {
    ids[j].Some? && Accepts(e, s.keys, ids[j].value, application) && !e.signDown(|s.log| + j - i)
  }

  /** No backend accepts an empty handle, which is what an absent id amounts to. */
  lemma EmptyIsRefused(e: Env, keys: set<Key>, application: seq<byte>)
    ensures !Accepts(e, keys, [], application)
  {
    if KeyHandle.PartsOf([]).Some? {
      KeyHandle.AcceptedIsLong([]);
    }
  }

  /** The TPM opens exactly three records tagged "TPM", the length of each in one byte; the in-memory
      backend anything that is long enough to begin with a nonce. */
  lemma OpensExactly(handle: seq<byte>)
    ensures Opens(Memory, handle) <==> |handle| >= 24
    ensures Opens(Tpm, handle) <==> exists p: KeyHandle.Parts :: IsPacked(handle, p)
  {
    hide KeyHandle.PartsOf;
    KeyHandle.AcceptedExactly(handle);
    if p: KeyHandle.Parts :| IsPacked(handle, p) {
      KeyHandle.PackedLayout(p);
      KeyHandle.PackedParsesBack(p);
    }
    if Opens(Tpm, handle) {
      var p :| KeyHandle.Packable(p) && handle == Lencode.Encoded(KeyHandle.TAG, KeyHandle.List(p));
      KeyHandle.AllAccepted(p);
      KeyHandle.PackedLayout(p);
      assert IsPacked(handle, p);
    }
  }

  predicate IsPacked(handle: seq<byte>, p: KeyHandle.Parts) {
    && |p.priv| <= 255 && |p.pub| <= 255 && |p.seed| <= 255
    && handle == Ascii("TPM") + [|p.priv|] + p.priv + Ascii("TPM") + [|p.pub|] + p.pub
                 + Ascii("TPM") + [|p.seed|] + p.seed
  }

  /** The effects of trying ids i..k in vain. */
  function Failures(ids: Ids, application: seq<byte>, digest: seq<byte>, i: nat, k: nat): (r: seq<Act>)
    requires i <= k <= |ids|
    ensures |r| == k - i
  {
    seq(k - i, j requires 0 <= j < k - i => Signed(IdBytes(ids[i + j]), application, digest, false))
  }

  lemma OneMoreFailure(ids: Ids, application: seq<byte>, digest: seq<byte>, i: nat, k: nat)
    requires i < k <= |ids|
    ensures Failures(ids, application, digest, i, k)
         == [Signed(IdBytes(ids[i]), application, digest, false)] + Failures(ids, application, digest, i + 1, k)
  {}

  /** The effects of the whole scan: tries in vain, then one that succeeds if there is one. */
  function Probes(ids: Ids, application: seq<byte>, digest: seq<byte>, i: nat, k: nat): seq<Act>
    requires i <= k <= |ids|
  {
    Failures(ids, application, digest, i, k)
    + if k < |ids| then [Signed(IdBytes(ids[k]), application, digest, true)] else []
  }

  lemma ProbesCons(ids: Ids, application: seq<byte>, digest: seq<byte>, i: nat, k: nat)
    requires i < k <= |ids|
    ensures Probes(ids, application, digest, i, k)
         == [Signed(IdBytes(ids[i]), application, digest, false)] + Probes(ids, application, digest, i + 1, k)
  {
    OneMoreFailure(ids, application, digest, i, k);
    hide Failures;
    ConcatAssociates([Signed(IdBytes(ids[i]), application, digest, false)],
                     Failures(ids, application, digest, i + 1, k),
                     if k < |ids| then [Signed(IdBytes(ids[k]), application, digest, true)] else []);
  }

  /** The scan finds exactly the first id that can be signed with. */
  lemma {:induction false} FirstSignableExactly(e: Env, s: Server, ids: Ids, application: seq<byte>, i: nat)
    requires i <= |ids|
    ensures var k := FirstSignable(e, s, ids, application, i).1;
            (forall j :: i <= j < k ==> !SignableAt(e, s, ids, application, i, j))
            && (k < |ids| ==> SignableAt(e, s, ids, application, i, k))
    decreases |ids| - i
  {
    EmptyIsRefused(e, s.keys, application);
    hide Dummy, Accepts;
    if i < |ids| {
      assert Signs(e, s, IdBytes(ids[i]), application) <==> SignableAt(e, s, ids, application, i, i);
      var s1 := Sign(e, s, IdBytes(ids[i]), application, Dummy(e)).0;
      assert s1.keys == s.keys && |s1.log| == |s.log| + 1;
      hide SignableAt, Signs, IdBytes;
      if !Signs(e, s, IdBytes(ids[i]), application) {
        FirstSignableExactly(e, s1, ids, application, i + 1);
        forall j | i + 1 <= j < |ids|
          ensures SignableAt(e, s, ids, application, i, j) <==> SignableAt(e, s1, ids, application, i + 1, j)
        {
          SignableLater(e, s, s1, ids, application, i, j);
        }
      }
    }
  }

  lemma SignableLater(e: Env, s: Server, s1: Server, ids: Ids, application: seq<byte>, i: nat, j: nat)
    requires i < j < |ids| && s1.keys == s.keys && |s1.log| == |s.log| + 1
    ensures SignableAt(e, s, ids, application, i, j) <==> SignableAt(e, s1, ids, application, i + 1, j)
  {
    hide Accepts;
  }

  /** The digest of a probe. */
  lemma ProbeDigest(e: Env)
    ensures Dummy(e) == e.sha256(Ascii("meticulously-Bacardi"))
  {
    var x: seq<byte> := [0x6d, 0x65, 0x74, 0x69, 0x63, 0x75, 0x6c, 0x6f, 0x75, 0x73, 0x6c, 0x79, 0x2d,
                         0x42, 0x61, 0x63, 0x61, 0x72, 0x64, 0x69];
    assert x == Ascii("meticulously-Bacardi");
  }

  /** It has tried the ids before that one in vain, and none after it. */
  lemma {:induction false} ScanLeavesProbes(e: Env, s: Server, ids: Ids, application: seq<byte>, i: nat)
    requires i <= |ids|
    ensures var (t, k) := FirstSignable(e, s, ids, application, i);
            t.log == s.log + Probes(ids, application, Dummy(e), i, k)
    decreases |ids| - i
  {
    hide Dummy, Accepts;
    if i < |ids| {
      var (s1, sig) := Sign(e, s, IdBytes(ids[i]), application, Dummy(e));
      if sig.None? {
        ScanLeavesProbes(e, s1, ids, application, i + 1);
        var k := FirstSignable(e, s1, ids, application, i + 1).1;
        hide Probes;
        ProbesCons(ids, application, Dummy(e), i, k);
        ConcatAssociates(s.log, [Signed(IdBytes(ids[i]), application, Dummy(e), false)],
                         Probes(ids, application, Dummy(e), i + 1, k));
      } else {
        assert Probes(ids, application, Dummy(e), i, i) == [Signed(IdBytes(ids[i]), application, Dummy(e), true)];
      }
    } else {
      assert Probes(ids, application, Dummy(e), i, i) == [];
    }
  }

  // ----- GetAssertion -----

  /** The status of the CTAP2 reply that was the last effect. */
  function StatusOf(s: Server): Option<byte> {
    if s.log != [] && Last(s).Ctap2Reply? then Some(Last(s).status) else None
  }

  predicate Succeeded(s: Server) {
    StatusOf(s) == Some(0x00)
  }

  lemma ReplyHasStatus(e: Env, s: Server, status: byte, data: seq<byte>)
    ensures StatusOf(Reply(e, s, status, data)) == Some(status)
  {}

  /** What the relying party reads in the authenticator data of an assertion. */
  predicate ReadsAsAssertion(e: Env, authData: seq<byte>, rp: Hash32, counter: u32) {
    var p := Parse(authData);
    && p.Some? && p.value.rpIdHash == rp && p.value.counter == counter && p.value.credential == None
    && HasFlag(p.value.flags, 0x01) && (HasFlag(p.value.flags, 0x04) <==> e.performsUV)
  }

  lemma AssertionReads(e: Env, rp: Hash32, counter: u32)
    ensures ReadsAsAssertion(e, AssertionData(e, rp, counter), rp, counter)
  {
    AssertionDataParses(rp, e.performsUV, counter);
    FlagsSayWhatTheyMean(e.performsUV, false);
  }

  /** The reply names the user of a stored credential, and nobody otherwise. */
  predicate IsUserOf(user: Option<User>, stored: Option<CredStore.Cred>) {
    if stored.None? then user == None
    else
      && user.Some? && user.value.id == stored.value.userId && user.value.name == stored.value.userName
      && user.value.displayName == stored.value.displayName
  }

  /** The last three effects of a successful assertion: the verifier's approval, asked of the user or
      from the cache, the one signature over sha256(authData || clientDataHash), and the reply that
      carries both. */
  ghost predicate AssertedAfter(
      e: Env, uv: UvCache.State, before: seq<Act>, log: seq<Act>, req: GetReq, handle: seq<byte>,
      stored: Option<CredStore.Cred>) {
    var n := |before|;
    var rp := e.sha256(req.rpId);
    var asked := Asked(e, n, uv, ToAuthenticate, req.rpId);
    var authData := AssertionData(e, rp, e.counter(n + 1));
    var user := UserOf(stored);
    var encoded := e.encodeAssertion(Assertion(handle, authData, e.signature(n + 1), user));
    && Granted(asked) && encoded.Some?
    && ReadsAsAssertion(e, authData, rp, e.counter(n + 1)) && IsUserOf(user, stored)
    && log == before + [asked,
                        Signed(handle, rp, e.sha256(authData + req.clientDataHash), true),
                        Ctap2Reply(0x00, encoded.value)]
  }

  /** The condition under which an assertion with a chosen credential succeeds after `n` effects: the
      verifier approves, the signer accepts the handle for this RP and is up, and the reply can be
      encoded. */
  predicate CanAssert(
      e: Env, keys: set<Key>, uv: UvCache.State, n: nat, req: GetReq, handle: seq<byte>,
      stored: Option<CredStore.Cred>) {
    var rp := e.sha256(req.rpId);
    && Verified(e, n, uv) == Approved && Accepts(e, keys, handle, rp) && !e.signDown(n + 1)
    && e.encodeAssertion(
         Assertion(handle, AssertionData(e, rp, e.counter(n + 1)), e.signature(n + 1), UserOf(stored))).Some?
  }

  lemma AssertEffects(e: Env, s: Server, req: GetReq, handle: seq<byte>, stored: Option<CredStore.Cred>)
    requires CanAssert(e, s.keys, s.uv, |s.log|, req, handle, stored)
    ensures AssertedAfter(e, s.uv, s.log, Assert(e, s, req, handle, stored).log, req, handle, stored)
  {
    var n := |s.log|;
    AssertionReads(e, e.sha256(req.rpId), e.counter(n + 1));
    AskedIsGranted(e, n, s.uv, ToAuthenticate, req.rpId);
    assert IsUserOf(UserOf(stored), stored);
    hide AssertionData, UserOf, Accepts, Asked, Verified, AfterVisit, ReadsAsAssertion, IsUserOf;
    var log := Assert(e, s, req, handle, stored).log;
    ThreeMore(s.log, log[n], log[n + 1], log[n + 2]);
  }

  lemma AssertEnds(e: Env, s: Server, req: GetReq, handle: seq<byte>, stored: Option<CredStore.Cred>)
    ensures EndsBy(e, s, |s.log|, req, handle, stored, StatusOf(Assert(e, s, req, handle, stored)))
  {
    hide AssertionData, UserOf, Accepts, Asked, Verified, AfterVisit;
  }

  lemma AssertExactly(e: Env, s: Server, req: GetReq, handle: seq<byte>, stored: Option<CredStore.Cred>)
    ensures var t := Assert(e, s, req, handle, stored);
            && (Succeeded(t) <==> CanAssert(e, s.keys, s.uv, |s.log|, req, handle, stored))
            && (Succeeded(t) ==> AssertedAfter(e, s.uv, s.log, t.log, req, handle, stored))
            && t.log != [] && EndsBy(e, s, |s.log|, req, handle, stored, StatusOf(t))
  {
    AssertEnds(e, s, req, handle, stored);
    assert CanAssert(e, s.keys, s.uv, |s.log|, req, handle, stored) ==> Verified(e, |s.log|, s.uv) == Approved;
    hide Assert, CanAssert, AssertedAfter, Verified;
    if CanAssert(e, s.keys, s.uv, |s.log|, req, handle, stored) {
      AssertEffects(e, s, req, handle, stored);
    }
  }

  /** The statuses of CTAP 2.1 for what keeps a verifier from approving. */
  function RefusalStatus(answer: Answer): byte
    requires answer != Approved
  {
    match answer
    case CannotStart => 0x27           // operation denied
    case Rejected(true) => 0x3F        // user verification invalid
    case Rejected(false) => 0x27
    case NoAnswer => 0x2F              // user action timeout
  }

  /** What the handler gets to know, where its call of the verifier missed the cache: a verdict that is
      there in time is passed on as it is, and anything else is no answer. */
  lemma VerifiedExactly(e: Env, n: nat, uv: UvCache.State)
    ensures IsHit(e, n, uv) ==> Verified(e, n, uv) == Approved
    ensures !IsHit(e, n, uv) && e.visit(n).refused ==> Verified(e, n, uv) == CannotStart
    ensures !IsHit(e, n, uv) && !e.visit(n).refused ==>
              |AfterVisit(e, n, uv).calls| == |uv.calls| + 1
              && var pc := AfterVisit(e, n, uv).calls[|uv.calls|];
                 && (Verified(e, n, uv) == Approved <==> pc == UvCache.Returned(true) && !e.visit(n).late)
                 && (Verified(e, n, uv).Rejected? <==> pc == UvCache.Returned(false) && !e.visit(n).late)
                 && (Verified(e, n, uv).Rejected? ==> Verified(e, n, uv).noMatch == e.visit(n).noMatch)
                 && Verified(e, n, uv) != CannotStart
  {}

  /** The verifier approves by a prompt that the user approved, or by a hit. */
  lemma AskedIsGranted(e: Env, n: nat, uv: UvCache.State, purpose: Purpose, rpId: seq<byte>)
    ensures Granted(Asked(e, n, uv, purpose, rpId)) <==> Verified(e, n, uv) == Approved
    ensures Asked(e, n, uv, purpose, rpId).CacheHit? <==> IsHit(e, n, uv)
    ensures Asked(e, n, uv, purpose, rpId).Prompted? <==> !IsHit(e, n, uv)
    ensures Asked(e, n, uv, purpose, rpId).purpose == purpose && Asked(e, n, uv, purpose, rpId).rpId == rpId
  {
    hide IsHit, AfterVisit;
  }

  /** The credential of an assertion: with an allow list the first entry that can be signed with,
      after trying the ones before it in vain; without one the first credential stored for the RP. */
  lemma ChoiceExactly(e: Env, s: Server, ids: Ids, rp: Hash32)
    ensures var t := Choose(e, s, ids, rp).0; t.keys == s.keys && t.store == s.store && t.uv == s.uv
    ensures var (t, choice) := Choose(e, s, ids, rp);
            var k := FirstSignable(e, s, ids, rp, 0).1;
            var found := CredStore.Matching(s.store, rp);
            if ids != [] then
              && (forall j :: 0 <= j < k ==> !SignableAt(e, s, ids, rp, 0, j))
              && (k < |ids| ==> SignableAt(e, s, ids, rp, 0, k) && ids[k].Some?)
              && t.log == s.log + Probes(ids, rp, Dummy(e), 0, k)
              && choice == if k < |ids| then Use(ids[k].value, None) else Refuse(0x2E)
            else
              && t.log == s.log + [LookedUp(rp, !e.storeDown(|s.log|))]
              && choice == if e.storeDown(|s.log|) then Refuse(0x27)
                           else if found == [] then Refuse(0x2E) else Use(found[0].credId, Some(found[0]))
  {
    hide FirstSignable, Probes, Dummy, Accepts;
    FirstSignableExactly(e, s, ids, rp, 0);
    ScanLeavesProbes(e, s, ids, rp, 0);
  }

  /** The k-th id is the first one that can be signed with. */
  ghost predicate FirstAt(e: Env, s: Server, ids: Ids, application: seq<byte>, k: nat) {
    && k < |ids| && SignableAt(e, s, ids, application, 0, k)
    && forall j :: 0 <= j < k ==> !SignableAt(e, s, ids, application, 0, j)
  }

  /** Assertion safety: a successful GetAssertion comes from a well-formed request that does not ask
      for more verification than there is. Its credential is the first entry of the allow list that
      can be signed with or, without a list, the first one stored for the RP; and the verifier's
      approval comes right before the one signature over the client data, all earlier ones being
      probes. */
  lemma AssertionIsSafe(e: Env, s: Server, payload: seq<byte>)
    requires Succeeded(GetAssertion(e, s, payload))
    ensures e.decodeGet(payload).Some?
    ensures var req := e.decodeGet(payload).value;
            var ids, rp := req.allowList, e.sha256(req.rpId);
            var found := CredStore.Matching(s.store, rp);
            var log := GetAssertion(e, s, payload).log;
            && |req.clientDataHash| == 32 && (req.uv == Some(true) ==> e.performsUV)
            && if ids == [] then
                 && found != []
                 && AssertedAfter(e, s.uv, s.log + [LookedUp(rp, true)], log, req, found[0].credId, Some(found[0]))
               else exists k :: 0 <= k < |ids| && FirstAt(e, s, ids, rp, k) && ids[k].Some?
                      && AssertedAfter(e, s.uv, s.log + Probes(ids, rp, Dummy(e), 0, k), log, req, ids[k].value, None)
  {
    hide Assert, AssertedAfter, Choose, SignableAt, Probes, Dummy, CredStore.Matching;
    if e.decodeGet(payload).Some? {
      var req := e.decodeGet(payload).value;
      var ids, rp := req.allowList, e.sha256(req.rpId);
      var (s1, choice) := Choose(e, s, ids, rp);
      ChoiceExactly(e, s, ids, rp);
      if choice.Use? {
        AssertExactly(e, s1, req, choice.handle, choice.stored);
        assert ids != [] ==> FirstAt(e, s, ids, rp, FirstSignable(e, s, ids, rp, 0).1);
      }
    }
  }

  /** How a GetAssertion ends, whatever the request. */
  lemma AssertionStatus(e: Env, s: Server, payload: seq<byte>)
    ensures var status := StatusOf(GetAssertion(e, s, payload));
            var decoded := e.decodeGet(payload);
            if decoded.None? || |decoded.value.clientDataHash| != 32 then status == Some(0x12)
            else if decoded.value.uv == Some(true) && !e.performsUV then status == Some(0x2C)
            else
              var req := decoded.value;
              var ids, rp := req.allowList, e.sha256(req.rpId);
              var found := CredStore.Matching(s.store, rp);
              if ids == [] && e.storeDown(|s.log|) then status == Some(0x27)
              else if ids == [] && found == [] then status == Some(0x2E)
              else if ids == [] then EndsBy(e, s, |s.log| + 1, req, found[0].credId, Some(found[0]), status)
              else
                (exists k :: 0 <= k < |ids| && FirstAt(e, s, ids, rp, k) && ids[k].Some?
                             && EndsBy(e, s, |s.log| + k + 1, req, ids[k].value, None, status))
                || ((forall k :: 0 <= k < |ids| ==> !SignableAt(e, s, ids, rp, 0, k)) && status == Some(0x2E))
  {
    hide Assert, CanAssert, Choose, StatusOf, Reply, SignableAt, Dummy, CredStore.Matching, Verified, RefusalStatus;
    ReplyHasStatus(e, s, INVALID_CBOR, []);
    ReplyHasStatus(e, s, INVALID_OPTION, []);
    if e.decodeGet(payload).Some? {
      var req := e.decodeGet(payload).value;
      var ids, rp := req.allowList, e.sha256(req.rpId);
      var (s1, choice) := Choose(e, s, ids, rp);
      var k := FirstSignable(e, s, ids, rp, 0).1;
      ChoiceExactly(e, s, ids, rp);
      assert ids != [] && k < |ids| ==> FirstAt(e, s, ids, rp, k);
      if choice.Use? {
        AssertExactly(e, s1, req, choice.handle, choice.stored);
      } else {
        ReplyHasStatus(e, s1, choice.status, []);
      }
    }
  }

  /** The end of an assertion with a chosen credential, after `n` effects. */
  predicate EndsBy(e: Env, s: Server, n: nat, req: GetReq, handle: seq<byte>, stored: Option<CredStore.Cred>,
      status: Option<byte>) {
    var answer := Verified(e, n, s.uv);
    status == Some(if answer != Approved then RefusalStatus(answer)
                   else if CanAssert(e, s.keys, s.uv, n, req, handle, stored) then 0x00 else 0x27)
  }

  /** A well-formed request that does not ask for more verification than there is, for which there is
      a credential that the assertion can be made with. */
  ghost predicate CanServe(e: Env, s: Server, payload: seq<byte>) {
    var decoded := e.decodeGet(payload);
    && decoded.Some? && |decoded.value.clientDataHash| == 32
    && !(decoded.value.uv == Some(true) && !e.performsUV)
    && var req := decoded.value;
       var ids, rp := req.allowList, e.sha256(req.rpId);
       var found := CredStore.Matching(s.store, rp);
       if ids == [] then
         && !e.storeDown(|s.log|) && found != []
         && CanAssert(e, s.keys, s.uv, |s.log| + 1, req, found[0].credId, Some(found[0]))
       else exists k :: 0 <= k < |ids| && FirstAt(e, s, ids, rp, k) && ids[k].Some?
                        && CanAssert(e, s.keys, s.uv, |s.log| + k + 1, req, ids[k].value, None)
  }

  /** GetAssertion succeeds exactly then. */
  lemma AssertionExactly(e: Env, s: Server, payload: seq<byte>)
    ensures Succeeded(GetAssertion(e, s, payload)) <==> CanServe(e, s, payload)
  {
    AssertionStatus(e, s, payload);
    hide GetAssertion, CanAssert, SignableAt, StatusOf, CredStore.Matching;
    if CanServe(e, s, payload) && e.decodeGet(payload).value.allowList != [] {
      var req := e.decodeGet(payload).value;
      var ids, rp := req.allowList, e.sha256(req.rpId);
      var k :| 0 <= k < |ids| && FirstAt(e, s, ids, rp, k) && ids[k].Some?
               && CanAssert(e, s.keys, s.uv, |s.log| + k + 1, req, ids[k].value, None);
      assert forall j: nat :: FirstAt(e, s, ids, rp, j) ==> j == k;
      CanAssertMeansApproved(e, s, |s.log| + k + 1, req, ids[k].value, None);
    } else if CanServe(e, s, payload) {
      var req := e.decodeGet(payload).value;
      var found := CredStore.Matching(s.store, e.sha256(req.rpId));
      CanAssertMeansApproved(e, s, |s.log| + 1, req, found[0].credId, Some(found[0]));
    }
  }

  lemma CanAssertMeansApproved(e: Env, s: Server, n: nat, req: GetReq, handle: seq<byte>,
      stored: Option<CredStore.Cred>)
    requires CanAssert(e, s.keys, s.uv, n, req, handle, stored)
    ensures Verified(e, n, s.uv) == Approved
  {
    hide Verified;
  }

  // ----- MakeCredential -----

  /** The exclude list is only looked at once the verifier has let this registration through: the user
      approved it or, while the cache was fresh, was not asked. */
  lemma ExclusionAfterApproval(e: Env, s: Server, payload: seq<byte>, i: nat)
    requires var t := MakeCredential(e, s, payload); |s.log| <= i < |t.log| && t.log[i].Signed?
    ensures e.decodeMake(payload).Some?
    ensures var asked := MakeCredential(e, s, payload).log[|s.log|];
            && i > |s.log| && asked == Asked(e, |s.log|, s.uv, ToRegister, e.decodeMake(payload).value.rpId)
            && Granted(asked) && (asked.Prompted? <==> !IsHit(e, |s.log|, s.uv))
  {
    if CanAsk(e, payload) {
      AskingComesFirst(e, s, payload);
      hide MakeCredential, CanAsk, Asked, Verified, IsHit;
      AskedIsGranted(e, |s.log|, s.uv, ToRegister, e.decodeMake(payload).value.rpId);
    } else {
      UnservableIsRefused(e, s, payload);
    }
  }

  lemma UnservableIsRefused(e: Env, s: Server, payload: seq<byte>)
    requires !CanAsk(e, payload)
    ensures forall i :: |s.log| <= i < |MakeCredential(e, s, payload).log| ==>
              MakeCredential(e, s, payload).log[i].Ctap2Reply?
  {
    hide Enroll, FirstSignable, Asked, Verified, AfterVisit;
  }

  lemma AskingComesFirst(e: Env, s: Server, payload: seq<byte>)
    requires CanAsk(e, payload)
    ensures var log := MakeCredential(e, s, payload).log;
            var n := |s.log|;
            && n + 2 <= |log| && log[n] == Asked(e, n, s.uv, ToRegister, e.decodeMake(payload).value.rpId)
            && (Verified(e, n, s.uv) != Approved ==> |log| == n + 2 && log[n + 1].Ctap2Reply?)
  {
    var req := e.decodeMake(payload).value;
    var s1 := Ask(e, s, ToRegister, req.rpId).0;
    if Verified(e, |s.log|, s.uv) == Approved {
      var s2 := FirstSignable(e, s1, req.excludeList, e.sha256(req.rpId), 0).0;
      ScanLeavesProbes(e, s1, req.excludeList, e.sha256(req.rpId), 0);
      assert s1.log <= s2.log;
      hide FirstSignable, Asked, Verified, AfterVisit, CredStore.Upsert, AttestedFor;
      EnrollAddsEffects(e, s2, req);
      hide Enroll;
    } else {
      hide FirstSignable, Asked, Verified, AfterVisit, Enroll;
    }
  }

  lemma EnrollAddsEffects(e: Env, s: Server, req: MakeReq)
    ensures s.log <= Enroll(e, s, req).log && |s.log| < |Enroll(e, s, req).log|
  {
    hide CredStore.Upsert, AttestedFor;
  }

  /** What lies behind a successful reply: one new key, registered for the RP's hash; authenticator
      data, encoded in the reply, that the RP reads back to its own hash, honest flags, this handle and
      this key; and with rk the credential, offered to the store before the reply. */
  ghost predicate EnrolledAfter(e: Env, s: Server, t: Server, req: MakeReq) {
    var rp := e.sha256(req.rpId);
    var n := |s.log|;
    && e.generates(n).Some?
    && var pair := e.generates(n).value;
       var key := e.encodeKey(pair.x, pair.y);
       && key.Some?
       && var authData := AttestedFor(e, rp, e.counter(n + 1), pair.handle, key.value);
          var body := e.encodeAttestation(authData);
          var saved := SavedCred(CredOf(req, rp, pair.handle), !e.storeDown(n + 1));
          var c := saved.cred;
          var rk := req.options.Some? && req.options.value.rk;
          && body.Some?
          && c.credId == pair.handle && c.rpIdHash == rp && c.rpId == req.rpId && c.rpName == req.rpName
          && c.userId == req.userId && c.userName == req.userName && c.displayName == req.displayName
          && t.log == s.log + [Registered(rp, Some(pair))] + (if rk then [saved] else [])
                      + [Ctap2Reply(0x00, body.value)]
          && t.keys == s.keys + {(pair.handle, rp)} && t.uv == s.uv
          && t.store == (if rk && saved.ok then CredStore.Upsert(s.store, saved.cred) else s.store)
          && (|pair.handle| < 0x1_0000 ==> ReadsBack(e, authData, rp, e.counter(n + 1), pair.handle, key.value))
  }

  /** What the relying party reads in authenticator data. */
  predicate ReadsBack(e: Env, authData: seq<byte>, rp: Hash32, counter: u32, handle: seq<byte>, key: seq<byte>) {
    var p := Parse(authData);
    && p.Some? && p.value.rpIdHash == rp && p.value.counter == counter
    && p.value.credential == Some(Credential(Zeros(16), handle, key))
    && HasFlag(p.value.flags, 0x01) && (HasFlag(p.value.flags, 0x04) <==> e.performsUV)
  }

  lemma RegistrationDataParses(e: Env, rp: Hash32, counter: u32, handle: seq<byte>, key: seq<byte>)
    requires |handle| < 0x1_0000
    ensures ReadsBack(e, AttestedFor(e, rp, counter, handle, key), rp, counter, handle, key)
  {
    AttestedDataParses(rp, e.performsUV, counter, handle, key);
    FlagsSayWhatTheyMean(e.performsUV, true);
  }

  lemma EnrollOk(e: Env, s: Server, req: MakeReq)
    requires Succeeded(Enroll(e, s, req))
    ensures EnrolledAfter(e, s, Enroll(e, s, req), req)
  {
    hide AttestedFor, CredStore.Upsert, ReadsBack;
    var n := |s.log|;
    if e.generates(n).Some? {
      var pair := e.generates(n).value;
      var key := e.encodeKey(pair.x, pair.y);
      if key.Some? && |pair.handle| < 0x1_0000 {
        RegistrationDataParses(e, e.sha256(req.rpId), e.counter(n + 1), pair.handle, key.value);
      }
    }
  }

  /** A successful MakeCredential comes from a request it can serve: the verifier approved first, then
      no entry of the exclude list could be signed with for this RP, and then the key was enrolled. */
  lemma RegistrationIsSound(e: Env, s: Server, payload: seq<byte>)
    requires Succeeded(MakeCredential(e, s, payload))
    ensures e.decodeMake(payload).Some?
    ensures var req := e.decodeMake(payload).value;
            var ids, rp := req.excludeList, e.sha256(req.rpId);
            var asked := Asked(e, |s.log|, s.uv, ToRegister, req.rpId);
            var s1 := s.(log := s.log + [asked], uv := AfterVisit(e, |s.log|, s.uv));
            && |req.clientDataHash| == 32 && -7 in req.algs
            && (req.options.Some? && req.options.value.uv ==> e.performsUV)
            && Granted(asked)
            && (forall j :: 0 <= j < |ids| ==> !SignableAt(e, s1, ids, rp, 0, j))
            && EnrolledAfter(e, s1.(log := s1.log + Probes(ids, rp, Dummy(e), 0, |ids|)),
                             MakeCredential(e, s, payload), req)
  {
    hide Enroll, EnrolledAfter, FirstSignable, Dummy, SignableAt, Probes, Asked, Verified, AfterVisit;
    if e.decodeMake(payload).Some? {
      var req := e.decodeMake(payload).value;
      var rp := e.sha256(req.rpId);
      var s1 := Ask(e, s, ToRegister, req.rpId).0;
      var (s2, k) := FirstSignable(e, s1, req.excludeList, rp, 0);
      AskedIsGranted(e, |s.log|, s.uv, ToRegister, req.rpId);
      FirstSignableExactly(e, s1, req.excludeList, rp, 0);
      ScanLeavesProbes(e, s1, req.excludeList, rp, 0);
      if k == |req.excludeList| && Succeeded(Enroll(e, s2, req)) {
        EnrollOk(e, s2, req);
      }
    }
  }

  /** A key can be made, and its public part and the attestation can be encoded. */
  predicate CanEnroll(e: Env, n: nat, req: MakeReq) {
    && e.generates(n).Some?
    && var pair := e.generates(n).value;
       var key := e.encodeKey(pair.x, pair.y);
       && key.Some?
       && e.encodeAttestation(AttestedFor(e, e.sha256(req.rpId), e.counter(n + 1), pair.handle, key.value)).Some?
  }

  lemma EnrollExactly(e: Env, s: Server, req: MakeReq)
    ensures Succeeded(Enroll(e, s, req)) <==> CanEnroll(e, |s.log|, req)
  {
    hide AttestedFor, CredStore.Upsert, Dummy;
  }

  /** The request can be put to the user. */
  predicate CanAsk(e: Env, payload: seq<byte>) {
    var decoded := e.decodeMake(payload);
    && decoded.Some? && |decoded.value.clientDataHash| == 32 && -7 in decoded.value.algs
    && !(decoded.value.options.Some? && decoded.value.options.value.uv && !e.performsUV)
  }

  /** Some entry of the exclude list is one the signer knows for this RP and signs with when asked. */
  ghost predicate SomeExcluded(e: Env, s: Server, req: MakeReq) {
    exists j :: 0 <= j < |req.excludeList|
      && req.excludeList[j].Some? && Accepts(e, s.keys, req.excludeList[j].value, e.sha256(req.rpId))
      && !e.signDown(|s.log| + 1 + j)
  }

  /** When a registration succeeds, in terms of the request, the verifier, the signer and the encoders. */
  ghost predicate CanRegister(e: Env, s: Server, payload: seq<byte>) {
    && CanAsk(e, payload)
    && var req := e.decodeMake(payload).value;
       && Verified(e, |s.log|, s.uv) == Approved && !SomeExcluded(e, s, req)
       && CanEnroll(e, |s.log| + 1 + |req.excludeList|, req)
  }

  /** A scan in vain has tried every id, and happens exactly when none can be signed with. */
  lemma NoneSignable(e: Env, s: Server, ids: Ids, application: seq<byte>)
    ensures var (t, k) := FirstSignable(e, s, ids, application, 0);
            && (k == |ids| <==> forall j :: 0 <= j < |ids| ==>
                  ids[j].None? || !Accepts(e, s.keys, ids[j].value, application) || e.signDown(|s.log| + j))
            && (k == |ids| ==> |t.log| == |s.log| + |ids|)
  {
    hide FirstSignable, Dummy, Accepts;
    FirstSignableExactly(e, s, ids, application, 0);
    ScanLeavesProbes(e, s, ids, application, 0);
    forall j | 0 <= j < |ids|
      ensures SignableAt(e, s, ids, application, 0, j)
         <==> ids[j].Some? && Accepts(e, s.keys, ids[j].value, application) && !e.signDown(|s.log| + j)
    {}
    hide SignableAt;
  }

  /** MakeCredential succeeds exactly then. */
  lemma RegistrationExactly(e: Env, s: Server, payload: seq<byte>)
    ensures Succeeded(MakeCredential(e, s, payload)) <==> CanRegister(e, s, payload)
  {
    hide Enroll, FirstSignable, Dummy, CanEnroll, StatusOf, Reply, IdBytes, Asked, Verified, AfterVisit, Accepts;
    ReplyHasStatus(e, s, INVALID_CBOR, []);
    ReplyHasStatus(e, s, UNSUPPORTED_ALG, []);
    ReplyHasStatus(e, s, INVALID_OPTION, []);
    if e.decodeMake(payload).Some? {
      var req := e.decodeMake(payload).value;
      var s1 := Ask(e, s, ToRegister, req.rpId).0;
      var s2 := FirstSignable(e, s1, req.excludeList, e.sha256(req.rpId), 0).0;
      ReplyHasStatus(e, s1, StatusForFailure(Verified(e, |s.log|, s.uv)), []);
      ReplyHasStatus(e, s2, CREDENTIAL_EXCLUDED, []);
      NoneSignable(e, s1, req.excludeList, e.sha256(req.rpId));
      EnrollExactly(e, s2, req);
    }
  }

  lemma EnrollStatus(e: Env, s: Server, req: MakeReq)
    ensures StatusOf(Enroll(e, s, req)) in {Some(0x00), Some(0x27)}
  {
    hide AttestedFor, CredStore.Upsert;
  }

  /** How a MakeCredential ends, whatever the request: the exclude list is only answered for after the
      verifier's approval, and each of its other answers has its own status. */
  lemma RegistrationStatus(e: Env, s: Server, payload: seq<byte>)
    ensures var status := StatusOf(MakeCredential(e, s, payload));
            var decoded := e.decodeMake(payload);
            var answer := Verified(e, |s.log|, s.uv);
            if decoded.None? || |decoded.value.clientDataHash| != 32 then status == Some(0x12)
            else if -7 !in decoded.value.algs then status == Some(0x26)
            else if !CanAsk(e, payload) then status == Some(0x2C)
            else if answer != Approved then status == Some(RefusalStatus(answer))
            else if SomeExcluded(e, s, decoded.value) then status == Some(0x19)
            else status == Some(if CanRegister(e, s, payload) then 0x00 else 0x27)
  {
    hide Enroll, FirstSignable, Dummy, Reply, StatusOf, Asked, Verified, AfterVisit, Accepts, CanEnroll;
    ReplyHasStatus(e, s, INVALID_CBOR, []);
    ReplyHasStatus(e, s, UNSUPPORTED_ALG, []);
    ReplyHasStatus(e, s, INVALID_OPTION, []);
    if CanAsk(e, payload) {
      var req := e.decodeMake(payload).value;
      var s1 := Ask(e, s, ToRegister, req.rpId).0;
      var s2 := FirstSignable(e, s1, req.excludeList, e.sha256(req.rpId), 0).0;
      ReplyHasStatus(e, s1, StatusForFailure(Verified(e, |s.log|, s.uv)), []);
      ReplyHasStatus(e, s2, CREDENTIAL_EXCLUDED, []);
      NoneSignable(e, s1, req.excludeList, e.sha256(req.rpId));
      EnrollStatus(e, s2, req);
      EnrollExactly(e, s2, req);
    }
  }

  // ----- U2F -----

  /** A U2F authentication that ends with a signature, as the relying party checks it: the body of the
      reply is the presence byte, the counter and the signature, and what was signed is the application
      parameter, the first five bytes of that body and the challenge. */
  ghost predicate AuthenticatedAfter(e: Env, before: seq<Act>, log: seq<Act>, req: Apdu.AuthReq, presence: byte) {
    var n := |before|;
    && |log| == n + 2 && log[..n] == before && log[n + 1].U2fReply? && log[n + 1].word == 0x9000
    && var r := log[n + 1].data;
       && |r| >= 5 && r[0] == presence && r[5..] == e.signature(n)
       && r[1] as int * 0x100_0000 + r[2] as int * 0x1_0000 + r[3] as int * 0x100 + r[4] == e.counter(n)
       && log[n] == Signed(req.keyHandle, req.application, e.sha256(req.application + r[..5] + req.challenge), true)
  }

  lemma U2fSignExactly(e: Env, s: Server, req: Apdu.AuthReq, presence: byte)
    requires Signs(e, s, req.keyHandle, req.application)
    ensures AuthenticatedAfter(e, s.log, U2fSign(e, s, req, presence).log, req, presence)
  {
    hide Accepts, U32;
    var n := |s.log|;
    var head := [presence] + U32(e.counter(n));
    var r := head + e.signature(n);
    assert r[..5] == head && r[5..] == e.signature(n);
    assert U2fPreimage(req.application, presence, e.counter(n), req.challenge)
        == req.application + head + req.challenge;
    hide U2fPreimage;
    var t := U2fSign(e, s, req, presence);
    assert t.log[n + 1].data == r && t.log[..n] == s.log;
  }

  /** Every outcome of a U2F authentication: an unknown handle is refused without asking the user, a
      check-only request never asks nor signs, a signature with presence 1 follows the user's
      confirmation of this very request, and a refusal tells the user's answer. */
  lemma AuthenticateExactly(e: Env, s: Server, req: Apdu.AuthReq)
    requires req.ctrl == 0x07 || req.ctrl == 0x03 || req.ctrl == 0x08
    ensures var log := Authenticate(e, s, req).log;
            var n := |s.log|;
            var known := Signs(e, s, req.keyHandle, req.application);
            var probe := Signed(req.keyHandle, req.application, Dummy(e), known);
            var asked := Confirmed(req.challenge, req.application, e.user(n + 1));
            if !known then log == s.log + [probe, U2fReply([], 0x6A80)]
            else if req.ctrl == 0x07 then log == s.log + [probe, U2fReply([], 0x6985)]
            else if req.ctrl == 0x08 then !e.signDown(n + 1) ==> AuthenticatedAfter(e, s.log + [probe], log, req, 0)
            else if e.user(n + 1) == Approved then
              !e.signDown(n + 2) ==> AuthenticatedAfter(e, s.log + [probe] + [asked], log, req, 1)
            else log == s.log + [probe, asked, U2fReply([], if e.user(n + 1).Rejected? then 0x6A80 else 0x6985)]
  {
    hide Dummy, U2fPreimage, U2fSign, AuthenticatedAfter, Accepts;
    var (s1, probe) := Sign(e, s, req.keyHandle, req.application, Dummy(e));
    var (s2, answer) := Confirm(e, s1, req.challenge, req.application);
    var t := Authenticate(e, s, req);
    if probe.Some? && req.ctrl == 0x08 && !e.signDown(|s1.log|) {
      U2fSignExactly(e, s1, req, 0);
    } else if probe.Some? && req.ctrl == 0x03 && answer == Approved {
      if !e.signDown(|s2.log|) {
        U2fSignExactly(e, s2, req, 1);
      }
    } else {
      var refused := U2fReply([], if answer.Rejected? then 0x6A80 else 0x6985);
      ThreeMore(s.log, Last(s1), Last(s2), refused);
      ThreeMore(s.log, Last(s1), U2fReply([], 0x6A80), refused);
      ThreeMore(s.log, Last(s1), U2fReply([], 0x6985), refused);
    }
  }

  /** The fields of a U2F registration reply, at the offsets the relying party reads them. */
  lemma RegistrationReplyLayout(e: Env, p: KeyPair, sig: seq<byte>)
    requires |p.handle| <= 255
    ensures var r := RegistrationReply(e, p, sig);
            && r[0] == 5 && r[1] == 4 && r[2..34] == p.x && r[34..66] == p.y
            && r[66] == |p.handle| && r[67..67 + |p.handle|] == p.handle
            && r[67 + |p.handle|..] == e.certificate + sig
            && |r| == 67 + |p.handle| + |e.certificate| + |sig|
  {}

  /** A U2F registration that is answered, as the relying party checks it: the reply carries the public
      key, the handle, the certificate and a signature; and what was attested is a zero byte, the
      application parameter, the challenge, and handle and public key as they are in the reply. */
  ghost predicate RegisteredAfter(e: Env, before: seq<Act>, log: seq<Act>, req: Apdu.RegisterReq) {
    var n := |before|;
    && e.generates(n).Some? && e.attests(n + 1).Some?
    && var p, sig := e.generates(n).value, e.attests(n + 1).value;
       && |log| == n + 3 && log[..n] == before && log[n] == Registered(req.application, Some(p))
       && log[n + 2].U2fReply? && log[n + 2].word == 0x9000
       && var r := log[n + 2].data;
          && |r| >= 67 && |r| >= 67 + r[66] as int
          && r[0] == 5 && r[1] == 4 && r[2..34] == p.x && r[34..66] == p.y
          && r[67..67 + r[66]] == p.handle && r[67 + r[66]..] == e.certificate + sig
          && log[n + 1] == Act.Attested(
               e.sha256([0] + req.application + req.challenge + r[67..67 + r[66]] + r[1..66]), true)
  }

  lemma RegisterSiteExactly(e: Env, s: Server, req: Apdu.RegisterReq)
    requires SiteAnswers(e, |s.log|)
    ensures RegisteredAfter(e, s.log, RegisterSite(e, s, req).log, req)
  {
    var n := |s.log|;
    var p, sig := e.generates(n).value, e.attests(n + 1).value;
    var r := RegistrationReply(e, p, sig);
    RegistrationReplyLayout(e, p, sig);
    PublicKeyIsThere(e, p, sig);
    assert RegistrationPreimage(req, p) == [0] + req.application + req.challenge + r[67..67 + r[66]] + r[1..66];
    hide RegistrationPreimage, RegistrationReply;
    var t := RegisterSite(e, s, req);
    assert t.log == s.log + [t.log[n]] + [t.log[n + 1]] + [t.log[n + 2]];
    assert t.log[..n] == s.log && t.log[n + 2] == U2fReply(r, 0x9000);
  }

  lemma PublicKeyIsThere(e: Env, p: KeyPair, sig: seq<byte>)
    requires |p.handle| <= 255
    ensures RegistrationReply(e, p, sig)[1..66] == PublicKey(p)
  {}

  /** Every outcome of a U2F registration: after the user's confirmation of this very request a key is
      made and answered for, if `registerSite` answers at all; a rejection and a missing answer are told
      apart. */
  lemma RegisterExactly(e: Env, s: Server, req: Apdu.RegisterReq)
    ensures var log := Register(e, s, req).log;
            var n := |s.log|;
            var asked := Confirmed(req.challenge, req.application, e.user(n));
            if e.user(n) == Approved then
              SiteAnswers(e, n + 1) ==> RegisteredAfter(e, s.log + [asked], log, req)
            else log == s.log + [asked] + [U2fReply([], if e.user(n).Rejected? then 0x6A80 else 0x6985)]
  {
    hide RegisterSite, RegisteredAfter;
    var s1 := Confirm(e, s, req.challenge, req.application).0;
    if e.user(|s.log|) == Approved && SiteAnswers(e, |s.log| + 1) {
      RegisterSiteExactly(e, s1, req);
    }
  }

  /** With the 386-byte certificate of attestation/attestation.go and an ECDSA signature of at most
      72 bytes every registration reply, status word included, fits one message. */
  lemma RegistrationReplyFits(e: Env, p: KeyPair, sig: seq<byte>)
    requires |p.handle| <= 255 && |e.certificate| == 386 && |sig| <= 72
    ensures |RegistrationReply(e, p, sig)| + 2 <= 782 <= HidFraming.MAX_MESSAGE
  {
    RegistrationReplyLayout(e, p, sig);
  }
}
