/**
 Whole runs of the server in main.go, from whatever keys and stored credentials a process starts
 with: who approved what is signed, and when the user was asked.
 */
module RunProperties {
  import opened Bytes
  import opened AuthData
  import opened AuthProperties
  import opened Authenticator
  import opened ServerInvariant
  import CredStore
  import HidToken
  import UvCache

  // ----- signatures -----

  /** The user was asked about this authentication at this RP, and answered OK no earlier than that. */
  ghost predicate UserApproved(e: Env, a: Act, uvLog: seq<UvCache.Event>, application: seq<byte>) {
    && a.Prompted? && a.purpose == ToAuthenticate && e.sha256(a.rpId) == application && a.answer == Approved
    && exists okAt :: UvCache.InnerOk(okAt, a.call) in uvLog && a.at <= okAt
  }

  /** Nobody was asked about this authentication: the cache was fresh, from a success recorded less than
      ttl before, behind which are an inner verdict of OK and an earlier prompt, about whatever. */
  ghost predicate CacheApproved(e: Env, before: seq<Act>, a: Act, uvLog: seq<UvCache.Event>, application: seq<byte>) {
    && a.CacheHit? && a.purpose == ToAuthenticate && e.sha256(a.rpId) == application
    && RestsOnPrompt(e.ttl, before, uvLog, a.at)
  }

  predicate UserConfirmed(a: Act, application: seq<byte>) {
    a.Confirmed? && a.answer == Approved && a.application == application
  }

  /** Over every run: a digest other than the probe is only signed when the signed data says that no
      user was present, or right after an approval for its application parameter: a U2F confirmation,
      a prompt the user approved for this purpose and RP, or a hit in the cache. */
  lemma RunsAreSafe(e: Env, start: Server, evts: seq<HidToken.AuthEvent>, i: nat)
    requires start == Start(start.keys, start.store, start.uv.clock)
    requires var log := HandleAll(e, start, evts).log; i < |log| && log[i].Signed? && log[i].digest != Dummy(e)
    ensures var s := HandleAll(e, start, evts);
            var application := s.log[i].application;
            || SaysNoPresence(e, application, s.log[i].digest)
            || (i > 0 && UserConfirmed(s.log[i - 1], application))
            || (i > 0 && UserApproved(e, s.log[i - 1], s.uv.log, application))
            || (i > 0 && CacheApproved(e, s.log[..i - 1], s.log[i - 1], s.uv.log, application))
  {
    StartIsSound(e, start.keys, start.store, start.uv.clock);
    RunFollows(e, start, evts);
    hide HandleAll;
    SignatureIsApproved(e, HandleAll(e, start, evts), i);
  }

  lemma SignatureIsApproved(e: Env, s: Server, i: nat)
    requires Sound(e, s) && i < |s.log| && s.log[i].Signed? && s.log[i].digest != Dummy(e)
    ensures var application := s.log[i].application;
            || SaysNoPresence(e, application, s.log[i].digest)
            || (i > 0 && UserConfirmed(s.log[i - 1], application))
            || (i > 0 && UserApproved(e, s.log[i - 1], s.uv.log, application))
            || (i > 0 && CacheApproved(e, s.log[..i - 1], s.log[i - 1], s.uv.log, application))
  {
    hide Dummy, SaysNoPresence, UvCache.Invariant, RestsOnPrompt, CallsAreAsked;
    var application := s.log[i].application;
    assert Justified(e, s.log[..i], application, s.log[i].digest);
    if i > 0 {
      var a := s.log[i - 1];
      assert s.log[..i][|s.log[..i]| - 1] == a;
      assert AskIsTold(e.ttl, s.log[..i - 1], a, s.uv);
      if a.Prompted? && a.answer == Approved {
        UvCache.ApprovedMiss(e.ttl, s.uv, a.at, a.call);
      }
    }
  }

  // ----- prompts -----

  /** Over every run: a call of the verifier asks the user, about its own purpose and RP, if and only if
      no success was recorded less than ttl before it. */
  lemma AskedExactly(e: Env, start: Server, evts: seq<HidToken.AuthEvent>, i: nat)
    requires start == Start(start.keys, start.store, start.uv.clock)
    requires var log := HandleAll(e, start, evts).log; i < |log| && (log[i].Prompted? || log[i].CacheHit?)
    ensures var s := HandleAll(e, start, evts);
            var a, uvLog := s.log[i], s.uv.log;
            exists m: nat | m < |uvLog| ::
              && (uvLog[m] == UvCache.Hit(a.at, a.call) || uvLog[m] == UvCache.Miss(a.at, a.call))
              && (a.Prompted? <==> forall k :: 0 <= k < m && uvLog[k].Recorded? ==> a.at - uvLog[k].at >= e.ttl)
  {
    StartIsSound(e, start.keys, start.store, start.uv.clock);
    RunFollows(e, start, evts);
    hide HandleAll, Guarded, RestsOnPrompt, CallsAreAsked, UvCache.History;
    var s := HandleAll(e, start, evts);
    var a := s.log[i];
    assert AskIsTold(e.ttl, s.log[..i], a, s.uv);
    var begin := if a.CacheHit? then UvCache.Hit(a.at, a.call) else UvCache.Miss(a.at, a.call);
    var m :| 0 <= m < |s.uv.log| && s.uv.log[m] == begin;
    UvCache.HitExactly(e.ttl, s.uv.log, m);
  }

  /** While the cache is fresh a request of any site needs nobody: whenever there is a credential to
      choose, the assertion is made without a prompt, and succeeds if and only if the signer accepts
      the credential and is up and the reply can be encoded. */
  lemma FreshCacheServesAnySite(e: Env, s: Server, payload: seq<byte>)
    requires e.decodeGet(payload).Some? && |e.decodeGet(payload).value.clientDataHash| == 32
    requires !(e.decodeGet(payload).value.uv == Some(true) && !e.performsUV)
    requires var req := e.decodeGet(payload).value;
             var (s1, choice) := Choose(e, s, req.allowList, e.sha256(req.rpId));
             choice.Use? && IsHit(e, |s1.log|, s.uv)
    ensures var req := e.decodeGet(payload).value;
            var (s1, choice) := Choose(e, s, req.allowList, e.sha256(req.rpId));
            var t, n := GetAssertion(e, s, payload), |s1.log|;
            && n < |t.log| && t.log[..n] == s1.log && t.log[n] == Asked(e, n, s.uv, ToAuthenticate, req.rpId)
            && t.log[n].CacheHit?
            && (Succeeded(t) <==> Accepts(e, s.keys, choice.handle, e.sha256(req.rpId)) && !e.signDown(n + 1)
                                  && Encodes(e, n + 1, req, choice.handle, choice.stored))
            && (Succeeded(t) ==> AssertedAfter(e, s.uv, s1.log, t.log, req, choice.handle, choice.stored))
  {
    hide CanAssert, AssertedAfter, Asked, Accepts, IsHit, AfterVisit, Dummy, Choose, AssertionData;
    var req := e.decodeGet(payload).value;
    var (s1, choice) := Choose(e, s, req.allowList, e.sha256(req.rpId));
    ChoiceExactly(e, s, req.allowList, e.sha256(req.rpId));
    AssertExactly(e, s1, req, choice.handle, choice.stored);
    HitCanAssert(e, s1, req, choice.handle, choice.stored);
    AskedIsGranted(e, |s1.log|, s.uv, ToAuthenticate, req.rpId);
    assert GetAssertion(e, s, payload) == Assert(e, s1, req, choice.handle, choice.stored);
  }

  predicate Encodes(e: Env, n: nat, req: GetReq, handle: seq<byte>, stored: Option<CredStore.Cred>) {
    var authData := AssertionData(e, e.sha256(req.rpId), e.counter(n));
    e.encodeAssertion(Assertion(handle, authData, e.signature(n), UserOf(stored))).Some?
  }

  lemma HitCanAssert(e: Env, s: Server, req: GetReq, handle: seq<byte>, stored: Option<CredStore.Cred>)
    requires IsHit(e, |s.log|, s.uv)
    ensures CanAssert(e, s.keys, s.uv, |s.log|, req, handle, stored)
       <==> Accepts(e, s.keys, handle, e.sha256(req.rpId)) && !e.signDown(|s.log| + 1)
            && Encodes(e, |s.log| + 1, req, handle, stored)
  {
    hide Accepts, IsHit, AfterVisit;
  }

  // ----- two sites -----

  const SITE_A: seq<byte> := [1]
  const SITE_B: seq<byte> := [2]
  const HANDLE: seq<byte> := Zeros(40)

  /** Four different hashes: of the two sites, of the probe, and of everything else. */
  function DemoHash(x: seq<byte>): Hash32 {
    [if x == SITE_A then 1 else if x == SITE_B then 2 else if |x| == 20 then 3 else 4] + Zeros(31)
  }

  function DemoRequest(payload: seq<byte>): Option<GetReq> {
    Some(GetReq(payload, Zeros(32), [Some(HANDLE)], None))
  }

  /** A world in which the user answers the first prompt with OK at once, one tick goes by before each
      call of the verifier, and signer and encoders always work. */
  function DemoVisit(n: nat): Visit {
    Visit([UvCache.Tick(1)], false, [UvCache.Verdict(0, true), UvCache.Store(0)], false, false)
  }

  function Demo(): Env {
    Env(DemoHash, Memory, 5, true, [], DemoVisit,
        _ => NoAnswer, _ => false, _ => [7], _ => None, _ => None, _ => 0, _ => false,
        _ => None, DemoRequest, (_, _) => None, _ => None, _ => Some([]), _ => None)
  }

  function DemoStart(): Server {
    Start({(HANDLE, DemoHash(SITE_A)), (HANDLE, DemoHash(SITE_B))}, [], 0)
  }

  function AskFor(site: seq<byte>): HidToken.AuthEvent {
    HidToken.AuthEvent(1, 0x10, None, Some([0x02] + site))
  }

  lemma FirstLogin()
    ensures var s := HandleEvent(Demo(), DemoStart(), AskFor(SITE_A));
            && |s.log| == 4 && s.log[1] == Prompted(0, 1, ToAuthenticate, SITE_A, Approved)
            && !s.log[0].Prompted? && !s.log[2].Prompted? && !s.log[3].Prompted?
            && s.keys == DemoStart().keys && s.uv.lastOK == Some(1) && s.uv.clock == 1 && !s.fatal
  {
    var e, s := Demo(), DemoStart();
    hide DemoHash, AssertionData, UserOf, AfterVisit, Verified, Asked;
    assert ([0x02] + SITE_A)[1..] == SITE_A;
    FirstVisit(Start(s.keys, [], 0).uv);
    var t := GetAssertion(e, s, SITE_A);
    assert FirstSignable(e, s, [Some(HANDLE)], DemoHash(SITE_A), 0).1 == 0;
  }

  lemma FirstVisit(uv: UvCache.State)
    requires uv == UvCache.Initial(0)
    ensures AfterVisit(Demo(), 1, uv).lastOK == Some(1) && AfterVisit(Demo(), 1, uv).clock == 1
    ensures Verified(Demo(), 1, uv) == Approved
    ensures forall purpose, rpId :: Asked(Demo(), 1, uv, purpose, rpId) == Prompted(0, 1, purpose, rpId, Approved)
  {}

  lemma SecondLogin(s: Server)
    requires |s.log| == 4 && s.keys == DemoStart().keys && s.uv.lastOK == Some(1) && s.uv.clock == 1 && !s.fatal
    ensures var t := HandleEvent(Demo(), s, AskFor(SITE_B));
            && |t.log| == 8 && t.log[..4] == s.log && !t.log[4].Prompted? && t.log[5].CacheHit? && SignsForB(t.log[5..])
  {
    var e := Demo();
    assert IsHit(e, 5, s.uv);
    assert Accepts(e, s.keys, HANDLE, e.sha256(SITE_B));
    hide DemoHash, AssertionData, UserOf, AfterVisit, IsHit, Dummy, AssertedAfter, Assert, Asked, Accepts, SignsForB;
    assert ([0x02] + SITE_B)[1..] == SITE_B;
    var before := s.log + [Signed(HANDLE, e.sha256(SITE_B), Dummy(e), true)];
    assert FirstSignable(e, s, [Some(HANDLE)], e.sha256(SITE_B), 0).1 == 0;
    assert Choose(e, s, [Some(HANDLE)], e.sha256(SITE_B)) == (s.(log := before), Use(HANDLE, None));
    FreshCacheServesAnySite(e, s, SITE_B);
    var t := GetAssertion(e, s, SITE_B);
    assert HandleEvent(e, s, AskFor(SITE_B)) == t;
    AssertedForB(s.uv, before, t.log);
    assert t.log[5..] == t.log[|before|..];
  }

  /** The verifier was asked about site B, and a digest other than the probe is signed for it. */
  predicate SignsForB(acts: seq<Act>) {
    && |acts| == 3 && (acts[0].CacheHit? || acts[0].Prompted?) && acts[0].rpId == SITE_B
    && acts[1].Signed? && acts[1].ok && acts[1].application == DemoHash(SITE_B) && acts[1].digest != Dummy(Demo())
    && acts[2] == Ctap2Reply(0x00, [])
  }

  lemma AssertedForB(uv: UvCache.State, before: seq<Act>, log: seq<Act>)
    requires AssertedAfter(Demo(), uv, before, log, DemoRequest(SITE_B).value, HANDLE, None)
    ensures before <= log && SignsForB(log[|before|..])
  {
    hide Asked;
    var e := Demo();
    AskedIsGranted(e, |before|, uv, ToAuthenticate, SITE_B);
    assert e.sha256(AssertionData(e, e.sha256(SITE_B), 0) + Zeros(32))[0] == 4;
    assert Dummy(e)[0] == 3;
  }

  /** A run of two requests, each for one of two sites: the user is only asked about the first one, and
      the second one is signed all the same. */
  lemma SecondSiteIsSignedUnasked()
    ensures var log := HandleAll(Demo(), DemoStart(), [AskFor(SITE_A), AskFor(SITE_B)]).log;
            && (forall i :: 0 <= i < |log| && log[i].Prompted? ==> log[i].rpId == SITE_A)
            && |log| == 8 && SignsForB(log[5..]) && SITE_A != SITE_B && DemoHash(SITE_A) != DemoHash(SITE_B)
  {
    assert DemoHash(SITE_A)[0] != DemoHash(SITE_B)[0];
    hide HandleEvent, SignsForB, Demo, DemoStart, AskFor, DemoHash;
    TwoEvents(Demo(), DemoStart(), AskFor(SITE_A), AskFor(SITE_B));
    hide HandleAll;
    FirstLogin();
    var s := HandleEvent(Demo(), DemoStart(), AskFor(SITE_A));
    SecondLogin(s);
    var t := HandleEvent(Demo(), s, AskFor(SITE_B));
    OnlyOnePrompt(s.log, t.log);
  }

  lemma OnlyOnePrompt(first: seq<Act>, log: seq<Act>)
    requires |first| == 4 && |log| == 8 && log[..4] == first
    requires first[1].Prompted? && first[1].rpId == SITE_A && !first[0].Prompted? && !first[2].Prompted?
        && !first[3].Prompted?
    requires !log[4].Prompted? && log[5].CacheHit? && SignsForB(log[5..])
    ensures forall i :: 0 <= i < |log| && log[i].Prompted? ==> log[i].rpId == SITE_A
  {
    assert log[6] == log[5..][1] && log[7] == log[5..][2];
    forall i | 0 <= i < |log| && log[i].Prompted? ensures i == 1 {
      assert i < 4 ==> log[i] == first[i];
    }
    assert log[1] == first[1];
  }

  /** Events are handled in order, each in the state that the ones before it have left. */
  lemma {:induction false} RunsCompose(e: Env, s: Server, first: seq<HidToken.AuthEvent>, more: seq<HidToken.AuthEvent>)
    ensures HandleAll(e, s, first + more) == HandleAll(e, HandleAll(e, s, first), more)
    ensures forall evt :: HandleAll(e, s, [evt]) == HandleEvent(e, s, evt)
    decreases |more|
  {
    hide HandleEvent;
    if more == [] {
      assert first + more == first;
    } else {
      var n := |more| - 1;
      RunsCompose(e, s, first, more[..n]);
      assert (first + more)[..|first| + n] == first + more[..n];
    }
    forall evt ensures HandleAll(e, s, [evt]) == HandleEvent(e, s, evt) {
      assert [evt][..0] == [];
    }
  }

  lemma TwoEvents(e: Env, s: Server, a: HidToken.AuthEvent, b: HidToken.AuthEvent)
    ensures HandleAll(e, s, [a, b]) == HandleEvent(e, HandleEvent(e, s, a), b)
  {
    hide HandleEvent;
    assert [a, b][..1] == [a] && [a][..0] == [];
    assert HandleAll(e, s, [a]) == HandleEvent(e, HandleAll(e, s, []), a);
  }

  // ----- replies -----

  /** A run of CTAP2 events produces exactly as many replies as events. */
  lemma {:induction false} Ctap2RunsAreAnswered(e: Env, s: Server, evts: seq<HidToken.AuthEvent>)
    requires forall evt :: evt in evts ==> evt.rawCbor.Some?
    requires !s.fatal
    ensures !HandleAll(e, s, evts).fatal
    ensures Replies(HandleAll(e, s, evts).log) == Replies(s.log) + |evts|
    decreases |evts|
  {
    if evts != [] {
      var n := |evts| - 1;
      Ctap2RunsAreAnswered(e, s, evts[..n]);
      hide Replies, HandleEvent, Sound, Extends;
      EventFollows(e, HandleAll(e, s, evts[..n]), evts[n]);
    }
  }
}
