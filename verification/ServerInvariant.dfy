/**
 What the server in main.go keeps: keys and store change only as the effect log says, every call of
 the verifier is logged as what the cache made of it, and every signature is justified. Each handler
 keeps this, from whatever keys and stored credentials the process started with, and counts its
 replies.
 */
module ServerInvariant {
  import opened Bytes
  import opened Authenticator
  import Apdu
  import CredStore
  import HidToken
  import KeyHandle
  import UvCache

  // ----- what a log says -----

  function KeyOf(a: Act): set<Key> {
    if a.Registered? && a.pair.Some? then {(a.pair.value.handle, a.application)} else {}
  }

  function KeysIn(log: seq<Act>): set<Key>
    decreases |log|
  {
    if log == [] then {} else KeysIn(log[..|log| - 1]) + KeyOf(log[|log| - 1])
  }

  function SavedOf(a: Act): seq<CredStore.Cred> {
    if a.SavedCred? && a.ok then [a.cred] else []
  }

  function SavedIn(log: seq<Act>): seq<CredStore.Cred>
    decreases |log|
  {
    if log == [] then [] else SavedIn(log[..|log| - 1]) + SavedOf(log[|log| - 1])
  }

  predicate IsReply(a: Act) {
    a.Ctap2Reply? || a.U2fReply?
  }

  function Replies(log: seq<Act>): nat
    decreases |log|
  {
    if log == [] then 0 else Replies(log[..|log| - 1]) + if IsReply(log[|log| - 1]) then 1 else 0
  }

  /** The verifier let the handler go on: the user approved, or was not asked. */
  predicate Granted(a: Act) {
    a.CacheHit? || (a.Prompted? && a.answer == Approved)
  }

  /** The act right before a signature: for CTAP2 the verifier's approval of an authentication at this
      RP, for U2F the user's confirmation for this application parameter. */
  predicate Approves(e: Env, a: Act, application: seq<byte>) {
    (Granted(a) && a.purpose == ToAuthenticate && e.sha256(a.rpId) == application)
    || (a.Confirmed? && a.answer == Approved && a.application == application)
  }

  /** What is signed carries a zero presence byte between the application parameter and the counter. */
  ghost predicate SaysNoPresence(e: Env, application: seq<byte>, digest: seq<byte>) {
    exists counter: seq<byte>, challenge: seq<byte> ::
      |counter| == 4 && digest == e.sha256(application + [0] + counter + challenge)
  }

  /** This application parameter was approved just before, or the signature itself says that no user
      was present. */
  ghost predicate Justified(e: Env, before: seq<Act>, application: seq<byte>, digest: seq<byte>) {
    || digest == Dummy(e)
    || (before != [] && Approves(e, before[|before| - 1], application))
    || SaysNoPresence(e, application, digest)
  }

  ghost predicate Guarded(e: Env, log: seq<Act>) {
    forall i :: 0 <= i < |log| && log[i].Signed? ==> Justified(e, log[..i], log[i].application, log[i].digest)
  }

  // ----- what the cache says -----

  /** The prompt that the user answered with the success that was recorded: the handler got to know
      the answer, or had given up waiting. */
  predicate IsPromptOf(a: Act, record: UvCache.Event)
    requires record.Recorded?
  {
    a.Prompted? && a.call == record.call && a.at <= record.okAt && (a.answer == Approved || a.answer == NoAnswer)
  }

  /** A success was recorded less than ttl before `at`, an inner verdict of OK is behind it, and one of
      the prompts in `before` is what the user answered with it, for whatever purpose and RP. */
  ghost predicate RestsOnPrompt(ttl: nat, before: seq<Act>, uvLog: seq<UvCache.Event>, at: int) {
    exists k: nat, j: nat | k < |uvLog| && j < |before| ::
      && uvLog[k].Recorded? && 0 <= at - uvLog[k].at < ttl && UvCache.IsBacked(uvLog, k)
      && IsPromptOf(before[j], uvLog[k])
  }

  /** A call of the verifier is logged as what the cache made of it. */
  ghost predicate AskIsTold(ttl: nat, before: seq<Act>, a: Act, uv: UvCache.State) {
    match a
    case Prompted(c, at, _, _, answer) =>
      && UvCache.Miss(at, c) in uv.log && c < |uv.calls|
      && (answer == Approved ==> uv.calls[c] == UvCache.Returned(true))
      && (answer.Rejected? ==> uv.calls[c] == UvCache.Returned(false))
      && (answer.CannotStart? ==> uv.calls[c] == UvCache.Errored)
    case CacheHit(c, at, _, _) =>
      UvCache.Hit(at, c) in uv.log && RestsOnPrompt(ttl, before, uv.log, at)
    case _ => true
  }

  predicate IsAsk(a: Act, call: nat) {
    (a.Prompted? || a.CacheHit?) && a.call == call
  }

  predicate IsAskedIn(log: seq<Act>, call: nat) {
    exists i :: 0 <= i < |log| && IsAsk(log[i], call)
  }

  ghost predicate CallsAreAsked(log: seq<Act>, calls: nat) {
    forall c :: 0 <= c < calls ==> IsAskedIn(log, c)
  }

  ghost predicate AsksAreTold(ttl: nat, log: seq<Act>, uv: UvCache.State) {
    forall i :: 0 <= i < |log| ==> AskIsTold(ttl, log[..i], log[i], uv)
  }

  /** What holds of the history of a process. */
  ghost predicate Sound(e: Env, s: Server) {
    && Guarded(e, s.log) && UvCache.Invariant(e.ttl, s.uv)
    && AsksAreTold(e.ttl, s.log, s.uv) && CallsAreAsked(s.log, |s.uv.calls|)
  }

  /** `t` comes after `s`, and its keys and store are those of `s` with what the new effects add; a new
      stored credential is under a registered pair, and so is whatever has been signed with. */
  ghost predicate Extends(s: Server, t: Server) {
    && s.log <= t.log
    && var more := t.log[|s.log|..];
       && t.keys == s.keys + KeysIn(more) && t.store == CredStore.Saves(s.store, SavedIn(more))
       && (forall c :: c in SavedIn(more) ==> (c.credId, c.rpIdHash) in t.keys)
       && forall a :: a in more && a.Signed? && a.ok ==> (a.handle, a.application) in t.keys
  }

  /** `t` is `s` after some more effects, `replies` of them replies, with a sound history if `s` has one. */
  ghost predicate Follows(e: Env, s: Server, t: Server, replies: nat) {
    Extends(s, t) && Replies(t.log) == Replies(s.log) + replies && (Sound(e, s) ==> Sound(e, t))
  }

  lemma StartIsSound(e: Env, keys: set<Key>, store: seq<CredStore.Cred>, clock: int)
    ensures Sound(e, Start(keys, store, clock))
  {}

  lemma {:induction false} SavedAppend(a: seq<Act>, b: seq<Act>)
    ensures SavedIn(a + b) == SavedIn(a) + SavedIn(b)
    decreases |b|
  {
    assert SavedIn([]) == [];
    hide SavedOf, SavedIn, KeyOf, KeysIn, Replies, IsReply;
    if b == [] {
      assert a + b == a && SavedIn(a) + [] == SavedIn(a);
    } else {
      var n := |b| - 1;
      SavedAppend(a, b[..n]);
      assert b == b[..n] + [b[n]] && a + b == a + b[..n] + [b[n]];
      LogAdds(b[..n], b[n]);
      LogAdds(a + b[..n], b[n]);
      ConcatAssociates(SavedIn(a), SavedIn(b[..n]), SavedOf(b[n]));
    }
  }

  lemma {:induction false} KeysAppend(a: seq<Act>, b: seq<Act>)
    ensures KeysIn(a + b) == KeysIn(a) + KeysIn(b)
    decreases |b|
  {
    assert KeysIn([]) == {};
    hide KeyOf, KeysIn, SavedOf, SavedIn, Replies, IsReply;
    if b == [] {
      assert a + b == a;
    } else {
      var n := |b| - 1;
      KeysAppend(a, b[..n]);
      assert b == b[..n] + [b[n]] && a + b == a + b[..n] + [b[n]];
      LogAdds(b[..n], b[n]);
      LogAdds(a + b[..n], b[n]);
    }
  }

  lemma ExtendsOn(s: Server, m: Server, t: Server)
    requires Extends(s, m) && Extends(m, t)
    ensures Extends(s, t)
  {
    hide KeysIn, SavedIn, CredStore.Saves;
    var a, b := m.log[|s.log|..], t.log[|m.log|..];
    assert t.log[|s.log|..] == a + b;
    KeysAppend(a, b);
    SavedAppend(a, b);
    CredStore.SavesAppend(s.store, SavedIn(a), SavedIn(b));
  }

  lemma FollowsItself(e: Env, s: Server)
    ensures Follows(e, s, s, 0)
  {}

  lemma FollowsOn(e: Env, s: Server, m: Server)
    requires Follows(e, s, m, 0)
    ensures forall t, n: nat :: Follows(e, m, t, n) ==> Follows(e, s, t, n)
  {
    hide Sound, Replies, Extends;
    forall t | Extends(m, t) ensures Extends(s, t) {
      ExtendsOn(s, m, t);
    }
  }

  /** A CTAP2 handler ends with its one reply and never ends the program. */
  ghost predicate AnswersOnce(e: Env, s: Server, t: Server) {
    Follows(e, s, t, 1) && t.fatal == s.fatal && t.log != [] && t.log[|t.log| - 1].Ctap2Reply?
  }

  // ----- effects -----

  lemma LogAdds(log: seq<Act>, a: Act)
    ensures KeysIn(log + [a]) == KeysIn(log) + KeyOf(a)
    ensures SavedIn(log + [a]) == SavedIn(log) + SavedOf(a)
    ensures Replies(log + [a]) == Replies(log) + if IsReply(a) then 1 else 0
  {
    assert (log + [a])[..|log|] == log;
  }

  lemma GuardedSnoc(e: Env, log: seq<Act>, a: Act)
    requires Guarded(e, log) && (a.Signed? ==> Justified(e, log, a.application, a.digest))
    ensures Guarded(e, log + [a])
  {
    hide Justified;
    forall i | 0 <= i < |log| + 1 && (log + [a])[i].Signed?
      ensures Justified(e, (log + [a])[..i], (log + [a])[i].application, (log + [a])[i].digest)
    {
      assert (log + [a])[..i] == log[..i];
    }
  }

  lemma AsksSnoc(e: Env, log: seq<Act>, a: Act, uv: UvCache.State, later: UvCache.State)
    requires AsksAreTold(e.ttl, log, uv) && UvCache.Grows(uv, later) && AskIsTold(e.ttl, log, a, later)
    ensures AsksAreTold(e.ttl, log + [a], later)
  {
    hide AskIsTold, UvCache.Grows;
    forall i | 0 <= i < |log| + 1 ensures AskIsTold(e.ttl, (log + [a])[..i], (log + [a])[i], later) {
      assert (log + [a])[..i] == log[..i];
      if i < |log| {
        ToldStaysTold(e.ttl, log[..i], log[i], uv, later);
      }
    }
  }

  lemma ToldStaysTold(ttl: nat, before: seq<Act>, a: Act, uv: UvCache.State, later: UvCache.State)
    requires AskIsTold(ttl, before, a, uv) && UvCache.Grows(uv, later)
    ensures AskIsTold(ttl, before, a, later)
  {
    if a.CacheHit? {
      var k: nat, j: nat :| k < |uv.log| && j < |before|
        && uv.log[k].Recorded? && 0 <= a.at - uv.log[k].at < ttl && UvCache.IsBacked(uv.log, k)
            && IsPromptOf(before[j], uv.log[k]);
      assert later.log[k] == uv.log[k] && later.log[..k] == uv.log[..k];
    }
  }

  lemma AskedStaysAsked(log: seq<Act>, a: Act, calls: nat)
    requires CallsAreAsked(log, calls)
    ensures CallsAreAsked(log + [a], calls)
  {
    forall c | 0 <= c < calls ensures IsAskedIn(log + [a], c) {
      assert IsAskedIn(log, c);
      var i :| 0 <= i < |log| && IsAsk(log[i], c);
      assert (log + [a])[i] == log[i];
    }
  }

  /** The history stays sound when an act that is no call of the verifier is added. */
  lemma SoundSnoc(e: Env, s: Server, t: Server, a: Act)
    requires Sound(e, s) && t.log == s.log + [a] && t.uv == s.uv && !a.Prompted? && !a.CacheHit?
    requires a.Signed? ==> Justified(e, s.log, a.application, a.digest)
    ensures Sound(e, t)
  {
    hide Guarded, UvCache.Invariant, AsksAreTold, CallsAreAsked, Justified;
    GuardedSnoc(e, s.log, a);
    assert UvCache.Grows(s.uv, s.uv);
    AsksSnoc(e, s.log, a, s.uv, s.uv);
    AskedStaysAsked(s.log, a, |s.uv.calls|);
  }

  /** One effect, and what it does to keys and store. */
  lemma OneEffect(e: Env, s: Server, t: Server, a: Act)
    requires t.log == s.log + [a] && t.keys == s.keys + KeyOf(a) && t.store == CredStore.Saves(s.store, SavedOf(a))
    requires a.SavedCred? ==> (a.cred.credId, a.cred.rpIdHash) in t.keys
    requires a.Signed? && a.ok ==> (a.handle, a.application) in t.keys
    requires Sound(e, s) ==> Sound(e, t)
    ensures Follows(e, s, t, if IsReply(a) then 1 else 0)
  {
    hide Sound, KeysIn, SavedIn, Replies, CredStore.Saves, KeyOf;
    assert t.log[|s.log|..] == [a];
    OneAct(a);
    LogAdds(s.log, a);
  }

  lemma OneAct(a: Act)
    ensures KeysIn([a]) == KeyOf(a) && SavedIn([a]) == SavedOf(a)
  {
    LogAdds([], a);
    assert [] + [a] == [a] && [] + SavedOf(a) == SavedOf(a);
  }

  lemma RecordFollows(e: Env, s: Server, a: Act)
    requires !a.Registered? && !a.SavedCred? && !a.Prompted? && !a.CacheHit?
    requires a.Signed? ==> Justified(e, s.log, a.application, a.digest)
    requires a.Signed? && a.ok ==> (a.handle, a.application) in s.keys
    ensures Follows(e, s, Record(s, a), if IsReply(a) then 1 else 0)
  {
    hide Justified, Sound, Follows;
    if Sound(e, s) {
      SoundSnoc(e, s, Record(s, a), a);
    }
    OneEffect(e, s, Record(s, a), a);
  }

  // ----- the verifier -----

  /** One visit of the cache: it grows by one call, which begins as the hit or miss that is recorded. */
  lemma VisitGrows(e: Env, n: nat, uv: UvCache.State)
    requires UvCache.Invariant(e.ttl, uv)
    ensures var arrival, after := Arrival(e, n, uv), AfterVisit(e, n, uv);
            && UvCache.Invariant(e.ttl, arrival) && UvCache.Invariant(e.ttl, after)
            && UvCache.Grows(uv, arrival) && UvCache.Grows(uv, after) && UvCache.Grows(arrival, after)
            && |arrival.calls| == |uv.calls| && |after.calls| == |uv.calls| + 1 && |after.log| > |arrival.log|
            && after.log[|arrival.log|]
               == (if IsHit(e, n, uv) then UvCache.Hit(arrival.clock, |uv.calls|)
                   else UvCache.Miss(arrival.clock, |uv.calls|))
  {
    hide UvCache.Invariant, UvCache.Grows;
    var arrival := Arrival(e, n, uv);
    UvCache.MeanwhileGrows(e.ttl, uv, e.visit(n).before);
    var called := UvCache.Do(e.ttl, arrival, UvCache.Call);
    UvCache.StepGrows(e.ttl, arrival, UvCache.Call);
    UvCache.StepKeepsInvariant(e.ttl, arrival, UvCache.Call);
    UvCache.GrowsOn(uv, arrival, called);
    if !IsHit(e, n, uv) {
      var begin := UvCache.StartInner(|arrival.calls|, !e.visit(n).refused);
      var started := UvCache.Do(e.ttl, called, begin);
      UvCache.StepGrows(e.ttl, called, begin);
      UvCache.StepKeepsInvariant(e.ttl, called, begin);
      UvCache.GrowsOn(arrival, called, started);
      UvCache.MeanwhileGrows(e.ttl, started, e.visit(n).during);
      UvCache.GrowsOn(arrival, started, AfterVisit(e, n, uv));
      UvCache.GrowsOn(uv, arrival, AfterVisit(e, n, uv));
      LaterLog(started, AfterVisit(e, n, uv), |arrival.log|);
    }
  }

  lemma LaterLog(s: UvCache.State, t: UvCache.State, i: nat)
    requires (UvCache.Grows(s, t) || s == t) && i < |s.log|
    ensures i < |t.log| && t.log[i] == s.log[i]
  {}

  /** The call behind a record that a hit rests on was a prompt. */
  lemma RecordHasPrompt(e: Env, s: Server, later: UvCache.State, k: nat)
    requires Sound(e, s) && UvCache.Invariant(e.ttl, later) && UvCache.Grows(s.uv, later)
    requires k < |later.log| && later.log[k].Recorded? && later.log[k].call < |s.uv.calls|
        && UvCache.IsBacked(later.log, k)
    ensures exists j :: 0 <= j < |s.log| && IsPromptOf(s.log[j], later.log[k])
  {
    hide Guarded, UvCache.Invariant, UvCache.IsBacked, RestsOnPrompt;
    var c := later.log[k].call;
    assert IsAskedIn(s.log, c);
    var j :| 0 <= j < |s.log| && IsAsk(s.log[j], c);
    assert AskIsTold(e.ttl, s.log[..j], s.log[j], s.uv);
    var m := UvCache.CallBehindRecord(e.ttl, later, k);
    var begin := if s.log[j].CacheHit? then UvCache.Hit(s.log[j].at, c) else UvCache.Miss(s.log[j].at, c);
    var b :| 0 <= b < |s.uv.log| && s.uv.log[b] == begin;
    assert later.log[b] == begin && b == m;
    assert IsPromptOf(s.log[j], later.log[k]);
  }

  /** What `Ask` records is what the cache made of the call. */
  lemma AskTells(e: Env, s: Server, purpose: Purpose, rpId: seq<byte>)
    requires Sound(e, s)
    ensures AskIsTold(e.ttl, s.log, Asked(e, |s.log|, s.uv, purpose, rpId), AfterVisit(e, |s.log|, s.uv))
  {
    hide Sound, UvCache.Grows, UvCache.Invariant, Arrival, AfterVisit, IsHit, Verified, RestsOnPrompt;
    var n := |s.log|;
    SoundCache(e, s);
    VisitGrows(e, n, s.uv);
    if !IsHit(e, n, s.uv) {
      VerdictTells(e, n, s.uv);
    }
    var arrival, after := Arrival(e, n, s.uv), AfterVisit(e, n, s.uv);
    if IsHit(e, n, s.uv) {
      HitRests(e, s, arrival, after);
    }
  }

  /** The answer the handler gets is where its call stands. */
  lemma VerdictTells(e: Env, n: nat, uv: UvCache.State)
    requires !IsHit(e, n, uv) && |AfterVisit(e, n, uv).calls| == |uv.calls| + 1
    ensures var pc := AfterVisit(e, n, uv).calls[|uv.calls|];
            && (Verified(e, n, uv) == Approved ==> pc == UvCache.Returned(true))
            && (Verified(e, n, uv).Rejected? ==> pc == UvCache.Returned(false))
            && (Verified(e, n, uv).CannotStart? ==> pc == UvCache.Errored)
  {}

  lemma SoundCache(e: Env, s: Server)
    requires Sound(e, s)
    ensures UvCache.Invariant(e.ttl, s.uv)
  {}

  lemma HitRests(e: Env, s: Server, arrival: UvCache.State, after: UvCache.State)
    requires Sound(e, s) && UvCache.Grows(s.uv, arrival) && UvCache.Grows(s.uv, after)
        && |arrival.calls| == |s.uv.calls|
    requires UvCache.Invariant(e.ttl, arrival) && UvCache.Invariant(e.ttl, after)
    requires UvCache.Grows(arrival, after) && |after.log| > |arrival.log| && after.log[|arrival.log|].Hit?
    ensures RestsOnPrompt(e.ttl, s.log, after.log, after.log[|arrival.log|].at)
  {
    hide Sound, UvCache.IsBacked, UvCache.History, IsPromptOf;
    var i := |arrival.log|;
    UvCache.HitIsCovered(e.ttl, after.log, i);
    var k :| 0 <= k < i && after.log[k].Recorded? && 0 <= after.log[i].at - after.log[k].at < e.ttl
        && UvCache.IsBacked(after.log, k);
    assert after.log[k] == arrival.log[k];
    RecordHasPrompt(e, s, after, k);
  }

  lemma AskFollows(e: Env, s: Server, purpose: Purpose, rpId: seq<byte>)
    ensures Follows(e, s, Ask(e, s, purpose, rpId).0, 0)
  {
    hide Follows, Asked, AfterVisit;
    var a, t := Asked(e, |s.log|, s.uv, purpose, rpId), Ask(e, s, purpose, rpId).0;
    AskedIsAsk(e, |s.log|, s.uv, purpose, rpId);
    if Sound(e, s) {
      hide UvCache.Invariant, AsksAreTold, AskIsTold, CallsAreAsked, UvCache.Grows;
      AskTells(e, s, purpose, rpId);
      VisitGrows(e, |s.log|, s.uv);
      GuardedSnoc(e, s.log, a);
      AsksSnoc(e, s.log, a, s.uv, t.uv);
      NewCallIsAsked(s.log, a, |s.uv.calls|);
    }
    hide Sound;
    OneEffect(e, s, t, a);
  }

  lemma AskedIsAsk(e: Env, n: nat, uv: UvCache.State, purpose: Purpose, rpId: seq<byte>)
    ensures IsAsk(Asked(e, n, uv, purpose, rpId), |uv.calls|)
  {}

  lemma NewCallIsAsked(log: seq<Act>, a: Act, calls: nat)
    requires CallsAreAsked(log, calls) && IsAsk(a, calls)
    ensures CallsAreAsked(log + [a], calls + 1)
  {
    AskedStaysAsked(log, a, calls);
    assert IsAsk((log + [a])[|log|], calls);
  }

  // ----- replies and the signer -----

  lemma ReplyFollows(e: Env, s: Server)
    ensures forall status, data :: AnswersOnce(e, s, Reply(e, s, status, data))
    ensures forall data, word :: Follows(e, s, ReplyU2f(e, s, data, word), 1)
  {
    hide Follows;
    forall status, data ensures AnswersOnce(e, s, Reply(e, s, status, data)) {
      RecordFollows(e, s, Ctap2Reply(status, data));
    }
    forall data, word ensures Follows(e, s, ReplyU2f(e, s, data, word), 1) {
      RecordFollows(e, s, U2fReply(data, word));
    }
  }

  lemma GenerateFollows(e: Env, s: Server, application: seq<byte>)
    ensures Follows(e, s, Generate(e, s, application).0, 0)
  {
    hide Sound, Follows;
    var a, t := Registered(application, e.generates(|s.log|)), Generate(e, s, application).0;
    if Sound(e, s) {
      SoundSnoc(e, s, t, a);
    }
    OneEffect(e, s, t, a);
  }

  lemma SaveFollows(e: Env, s: Server, c: CredStore.Cred)
    requires (c.credId, c.rpIdHash) in s.keys
    ensures Follows(e, s, Save(e, s, c).0, 0)
  {
    hide Sound, Follows, CredStore.Upsert;
    var a, t := SavedCred(c, !e.storeDown(|s.log|)), Save(e, s, c).0;
    if Sound(e, s) {
      SoundSnoc(e, s, t, a);
    }
    assert [c][..0] == [];
    OneEffect(e, s, t, a);
  }

  // ----- CTAP2 -----

  lemma {:induction false} FirstSignableFollows(e: Env, s: Server, ids: Ids, application: seq<byte>, i: nat)
    requires i <= |ids|
    ensures Follows(e, s, FirstSignable(e, s, ids, application, i).0, 0)
    decreases |ids| - i
  {
    hide Follows;
    FollowsItself(e, s);
    if i < |ids| {
      var (t, sig) := Sign(e, s, IdBytes(ids[i]), application, Dummy(e));
      RecordFollows(e, s, Signed(IdBytes(ids[i]), application, Dummy(e), sig.Some?));
      FirstSignableFollows(e, t, ids, application, i + 1);
      FollowsOn(e, s, t);
    }
  }

  lemma EnrollAnswers(e: Env, s: Server, req: MakeReq)
    ensures AnswersOnce(e, s, Enroll(e, s, req))
  {
    hide Follows, Reply, AttestedFor, CredOf;
    var rp := e.sha256(req.rpId);
    var (s1, pair) := Generate(e, s, rp);
    GenerateFollows(e, s, rp);
    FollowsOn(e, s, s1);
    ReplyFollows(e, s1);
    if pair.Some? {
      var c := CredOf(req, rp, pair.value.handle);
      assert c.credId == pair.value.handle && c.rpIdHash == rp by {
        CredOfFields(req, rp, pair.value.handle);
      }
      var s2 := Save(e, s1, c).0;
      SaveFollows(e, s1, c);
      FollowsOn(e, s, s2);
      ReplyFollows(e, s2);
    }
  }

  lemma CredOfFields(req: MakeReq, rp: Hash32, handle: seq<byte>)
    ensures CredOf(req, rp, handle).credId == handle && CredOf(req, rp, handle).rpIdHash == rp
  {}

  lemma MakeCredentialAnswers(e: Env, s: Server, payload: seq<byte>)
    ensures AnswersOnce(e, s, MakeCredential(e, s, payload))
  {
    hide Follows, Reply, Enroll, FirstSignable, Asked, AfterVisit, Verified;
    ReplyFollows(e, s);
    if e.decodeMake(payload).Some? {
      var req := e.decodeMake(payload).value;
      var s1 := Ask(e, s, ToRegister, req.rpId).0;
      AskFollows(e, s, ToRegister, req.rpId);
      FollowsOn(e, s, s1);
      ReplyFollows(e, s1);
      var s2 := FirstSignable(e, s1, req.excludeList, e.sha256(req.rpId), 0).0;
      FirstSignableFollows(e, s1, req.excludeList, e.sha256(req.rpId), 0);
      FollowsOn(e, s, s2);
      ReplyFollows(e, s2);
      EnrollAnswers(e, s2, req);
    }
  }

  lemma ChooseFollows(e: Env, s: Server, allowList: Ids, rp: Hash32)
    ensures Follows(e, s, Choose(e, s, allowList, rp).0, 0)
    ensures Choose(e, s, allowList, rp).0.fatal == s.fatal
  {
    hide Follows;
    FirstSignableFollows(e, s, allowList, rp, 0);
    RecordFollows(e, s, LookedUp(rp, !e.storeDown(|s.log|)));
  }

  /** An approval by the verifier, asked or not, is what the handler's next signature rests on. */
  lemma AskJustifies(e: Env, s: Server, rpId: seq<byte>, digest: seq<byte>)
    requires Ask(e, s, ToAuthenticate, rpId).1 == Approved
    ensures Justified(e, Ask(e, s, ToAuthenticate, rpId).0.log, e.sha256(rpId), digest)
  {
    hide Arrival, IsHit, Verified;
  }

  lemma AssertAnswers(e: Env, s: Server, req: GetReq, handle: seq<byte>, stored: Option<CredStore.Cred>)
    ensures AnswersOnce(e, s, Assert(e, s, req, handle, stored))
  {
    hide Follows, Reply, Justified, AssertionData, UserOf, Asked, AfterVisit, Verified;
    var rp := e.sha256(req.rpId);
    var (s1, answer) := Ask(e, s, ToAuthenticate, req.rpId);
    AskFollows(e, s, ToAuthenticate, req.rpId);
    FollowsOn(e, s, s1);
    ReplyFollows(e, s1);
    if answer == Approved {
      var digest := e.sha256(AssertionData(e, rp, e.counter(|s1.log|)) + req.clientDataHash);
      var (s2, sig) := Sign(e, s1, handle, rp, digest);
      AskJustifies(e, s, req.rpId, digest);
      RecordFollows(e, s1, Signed(handle, rp, digest, sig.Some?));
      FollowsOn(e, s, s2);
      ReplyFollows(e, s2);
    }
  }

  lemma GetAssertionAnswers(e: Env, s: Server, payload: seq<byte>)
    ensures AnswersOnce(e, s, GetAssertion(e, s, payload))
  {
    hide Follows, Reply, Assert, Choose;
    ReplyFollows(e, s);
    if e.decodeGet(payload).Some? {
      var req := e.decodeGet(payload).value;
      var (s1, choice) := Choose(e, s, req.allowList, e.sha256(req.rpId));
      ChooseFollows(e, s, req.allowList, e.sha256(req.rpId));
      FollowsOn(e, s, s1);
      ReplyFollows(e, s1);
      if choice.Use? {
        AssertAnswers(e, s1, req, choice.handle, choice.stored);
      }
    }
  }

  /** Every CTAP2 request is answered exactly once, whatever happens. */
  lemma Ctap2Answers(e: Env, s: Server, raw: seq<byte>)
    ensures AnswersOnce(e, s, HandleCtap2(e, s, raw))
  {
    hide AnswersOnce, Reply, MakeCredential, GetAssertion;
    ReplyFollows(e, s);
    if raw != [] {
      MakeCredentialAnswers(e, s, raw[1..]);
      GetAssertionAnswers(e, s, raw[1..]);
    }
  }

  // ----- U2F -----

  lemma U2fSignatureIsJustified(e: Env, log: seq<Act>, application: seq<byte>, presence: byte, counter: u32,
      challenge: seq<byte>)
    requires presence == 0 || (log != [] && Approves(e, log[|log| - 1], application))
    ensures Justified(e, log, application, e.sha256(U2fPreimage(application, presence, counter, challenge)))
  {
    if presence == 0 {
      assert |U32(counter)| == 4
        && e.sha256(U2fPreimage(application, 0, counter, challenge))
           == e.sha256(application + [0] + U32(counter) + challenge);
    }
  }

  lemma U2fSignAnswers(e: Env, s: Server, req: Apdu.AuthReq, presence: byte)
    requires presence == 0 || (s.log != [] && Approves(e, s.log[|s.log| - 1], req.application))
    ensures Follows(e, s, U2fSign(e, s, req, presence), if Signs(e, s, req.keyHandle, req.application) then 1 else 0)
  {
    hide Follows, Justified, Approves, U2fPreimage, ReplyU2f;
    var counter := e.counter(|s.log|);
    var digest := e.sha256(U2fPreimage(req.application, presence, counter, req.challenge));
    var (s1, sig) := Sign(e, s, req.keyHandle, req.application, digest);
    U2fSignatureIsJustified(e, s.log, req.application, presence, counter, req.challenge);
    RecordFollows(e, s, Signed(req.keyHandle, req.application, digest, sig.Some?));
    FollowsOn(e, s, s1);
    ReplyFollows(e, s1);
    EndingFollows(e, s, s1);
  }

  /** Ending the program is no effect. */
  lemma EndingFollows(e: Env, s: Server, t: Server)
    requires Follows(e, s, t, 0)
    ensures Follows(e, s, t.(fatal := true), 0)
  {}

  /** A U2F authentication goes unanswered exactly when the signer, having accepted the handle, is
      down when the signature itself is wanted; that ends the program. */
  predicate AuthenticateAnswers(e: Env, s: Server, req: Apdu.AuthReq) {
    var n := |s.log|;
    Signs(e, s, req.keyHandle, req.application) ==>
      && (req.ctrl == Apdu.CTRL_DONT_ENFORCE_PRESENCE ==> !e.signDown(n + 1))
      && (req.ctrl == Apdu.CTRL_ENFORCE_PRESENCE && e.user(n + 1) == Approved ==> !e.signDown(n + 2))
  }

  lemma AuthenticateFollows(e: Env, s: Server, req: Apdu.AuthReq)
    ensures Follows(e, s, Authenticate(e, s, req), if AuthenticateAnswers(e, s, req) then 1 else 0)
    ensures Authenticate(e, s, req).fatal <==> s.fatal || !AuthenticateAnswers(e, s, req)
  {
    hide Follows, Dummy;
    var (s1, probe) := Sign(e, s, req.keyHandle, req.application, Dummy(e));
    RecordFollows(e, s, Signed(req.keyHandle, req.application, Dummy(e), probe.Some?));
    FollowsOn(e, s, s1);
    ReplyFollows(e, s1);
    U2fSignAnswers(e, s1, req, 0);
    var (s2, answer) := Confirm(e, s1, req.challenge, req.application);
    RecordFollows(e, s1, Confirmed(req.challenge, req.application, answer));
    FollowsOn(e, s, s2);
    ReplyFollows(e, s2);
    if answer == Approved {
      U2fSignAnswers(e, s2, req, 1);
    }
  }

  /** `registerSite` answers unless no key can be made, its handle does not fit the one-byte length,
      or the attestation key fails, which ends the program. `n` effects have happened before. */
  predicate SiteAnswers(e: Env, n: nat) {
    e.generates(n).Some? && |e.generates(n).value.handle| <= 255 && e.attests(n + 1).Some?
  }

  /** The last of these: there is a key to attest. */
  predicate AttestationFails(e: Env, n: nat) {
    e.generates(n).Some? && |e.generates(n).value.handle| <= 255 && e.attests(n + 1).None?
  }

  lemma RegisterSiteFollows(e: Env, s: Server, req: Apdu.RegisterReq)
    ensures Follows(e, s, RegisterSite(e, s, req), if SiteAnswers(e, |s.log|) then 1 else 0)
    ensures RegisterSite(e, s, req).fatal <==> s.fatal || AttestationFails(e, |s.log|)
  {
    hide Follows, RegistrationPreimage, RegistrationReply;
    var (s1, pair) := Generate(e, s, req.application);
    GenerateFollows(e, s, req.application);
    FollowsOn(e, s, s1);
    if pair.Some? {
      var attested := Act.Attested(e.sha256(RegistrationPreimage(req, pair.value)), e.attests(|s1.log|).Some?);
      var s2 := Record(s1, attested);
      RecordFollows(e, s1, attested);
      FollowsOn(e, s, s2);
      EndingFollows(e, s, s2);
      ReplyFollows(e, s2);
    }
  }

  predicate RegisterAnswers(e: Env, n: nat) {
    e.user(n) != Approved || SiteAnswers(e, n + 1)
  }

  lemma RegisterFollows(e: Env, s: Server, req: Apdu.RegisterReq)
    ensures Follows(e, s, Register(e, s, req), if RegisterAnswers(e, |s.log|) then 1 else 0)
    ensures Register(e, s, req).fatal <==> s.fatal || (e.user(|s.log|) == Approved && AttestationFails(e, |s.log| + 1))
  {
    hide Follows, RegisterSite, SiteAnswers, AttestationFails;
    var (s1, answer) := Confirm(e, s, req.challenge, req.application);
    RecordFollows(e, s, Confirmed(req.challenge, req.application, answer));
    FollowsOn(e, s, s1);
    ReplyFollows(e, s1);
    RegisterSiteFollows(e, s1, req);
  }

  // ----- the event loop -----

  /** Whether an event of the token gets an answer; one that could not be decoded gets none. */
  predicate EventAnswers(e: Env, s: Server, evt: HidToken.AuthEvent) {
    if evt.rawCbor.Some? then true
    else if evt.decoded.None? || evt.decoded.value.Err? then false
    else
      var req := evt.decoded.value.req;
      if req.authenticate.Some? then AuthenticateAnswers(e, s, req.authenticate.value)
      else req.register.Some? ==> RegisterAnswers(e, |s.log|)
  }

  /** Whether an event ends the program. */
  predicate EndsProgram(e: Env, s: Server, evt: HidToken.AuthEvent) {
    && evt.rawCbor.None? && evt.decoded.Some? && evt.decoded.value.Ok?
    && var req := evt.decoded.value.req;
       if req.authenticate.Some? then !AuthenticateAnswers(e, s, req.authenticate.value)
       else req.register.Some? && e.user(|s.log|) == Approved && AttestationFails(e, |s.log| + 1)
  }

  /** Which events are answered, that none is answered twice, and which ones end the program. */
  lemma EventFollows(e: Env, s: Server, evt: HidToken.AuthEvent)
    ensures Follows(e, s, HandleEvent(e, s, evt), if !s.fatal && EventAnswers(e, s, evt) then 1 else 0)
    ensures evt.rawCbor.Some? && !s.fatal ==> AnswersOnce(e, s, HandleEvent(e, s, evt))
    ensures HandleEvent(e, s, evt).fatal <==> s.fatal || EndsProgram(e, s, evt)
  {
    hide Follows, HandleCtap2, Authenticate, Register, AuthenticateAnswers, RegisterAnswers, AttestationFails;
    FollowsItself(e, s);
    ReplyFollows(e, s);
    if evt.rawCbor.Some? {
      Ctap2Answers(e, s, evt.rawCbor.value);
    } else if evt.decoded.Some? && evt.decoded.value.Ok? {
      var req := evt.decoded.value.req;
      if req.authenticate.Some? {
        AuthenticateFollows(e, s, req.authenticate.value);
      } else if req.register.Some? {
        RegisterFollows(e, s, req.register.value);
      }
    }
  }

  /** Over every run keys and store change only as the effects say, and the history stays sound. */
  lemma {:induction false} RunFollows(e: Env, s: Server, evts: seq<HidToken.AuthEvent>)
    ensures Extends(s, HandleAll(e, s, evts))
    ensures Sound(e, s) ==> Sound(e, HandleAll(e, s, evts))
    decreases |evts|
  {
    if evts == [] {
      FollowsItself(e, s);
    } else {
      hide Sound, HandleEvent, Replies, Extends;
      var n := |evts| - 1;
      RunFollows(e, s, evts[..n]);
      EventFollows(e, HandleAll(e, s, evts[..n]), evts[n]);
      ExtendsOn(s, HandleAll(e, s, evts[..n]), HandleAll(e, s, evts));
    }
  }
}
