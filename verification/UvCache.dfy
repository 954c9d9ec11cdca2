/**
 The time-based verification cache of main.go (`cachingVerifier`), over every interleaving of its
 calls, their completion goroutines and a clock that never goes back.
 */
module UvCache {
  import opened Bytes

  predicate Fresh(ttl: nat, lastOK: Option<int>, now: int) {
    lastOK.Some? && now - lastOK.value < ttl
  }

  /** Where one call of `VerifyUser` is. `Recording` lies between the inner verdict, given at the
      time it carries, and the section that stores the time. */
  datatype Pc = Missed | Waiting | Recording(okAt: int) | Returned(ok: bool) | Errored

  /** What happened, when, and to which call. */
  datatype Event =
    | Hit(at: int, call: nat)
    | Miss(at: int, call: nat)
    | InnerOk(at: int, call: nat)
    | InnerFailed(at: int, call: nat)
    | Recorded(at: int, call: nat, okAt: int)

  datatype State = State(clock: int, lastOK: Option<int>, calls: seq<Pc>, log: seq<Event>)

  datatype Action =
    | Tick(amount: nat)                  // the clock advances
    | Call                               // a new VerifyUser runs its first critical section
    | StartInner(call: nat, ok: bool)    // the inner verifier is started, or cannot be
    | Verdict(call: nat, ok: bool)       // the inner result arrives
    | Store(call: nat)                   // the goroutine's critical section

  predicate Enabled(s: State, a: Action) {
    match a
    case Tick(_) => true
    case Call => true
    case StartInner(c, _) => c < |s.calls| && s.calls[c].Missed?
    case Verdict(c, _) => c < |s.calls| && s.calls[c].Waiting?
    case Store(c) => c < |s.calls| && s.calls[c].Recording?
  }

  function Do(ttl: nat, s: State, a: Action): State
    requires Enabled(s, a)
  {
    match a
    case Tick(amount) => s.(clock := s.clock + amount)
    case Call =>
      if Fresh(ttl, s.lastOK, s.clock) then
        s.(calls := s.calls + [Returned(true)], log := s.log + [Hit(s.clock, |s.calls|)])
      else s.(calls := s.calls + [Missed], log := s.log + [Miss(s.clock, |s.calls|)])
    case StartInner(c, ok) => s.(calls := s.calls[c := if ok then Waiting else Errored])
    case Verdict(c, ok) =>
      if ok then s.(calls := s.calls[c := Recording(s.clock)], log := s.log + [InnerOk(s.clock, c)])
      else s.(calls := s.calls[c := Returned(false)], log := s.log + [InnerFailed(s.clock, c)])
    case Store(c) =>
      s.(lastOK := Some(s.clock), calls := s.calls[c := Returned(true)],
         log := s.log + [Recorded(s.clock, c, s.calls[c].okAt)])
  }

  /** The verifier with its calls; the methods are its critical sections and what lies between them. */
  class CachingVerifier {
    const ttl: nat
    var lastOK: Option<int>
    var clock: int
    var calls: seq<Pc>
    ghost var log: seq<Event>

    constructor (ttl: nat, now: int)
      ensures this.ttl == ttl && View() == State(now, None, [], [])
    {
      this.ttl, lastOK, clock, calls, log := ttl, None, now, [], [];
    }

    ghost function View(): State reads this {
      State(clock, lastOK, calls, log)
    }

    /** `VerifyUser` up to the start of the inner verifier. */
    method VerifyUser() returns (hit: bool)
      modifies this`calls, this`log
      ensures View() == Do(ttl, old(View()), Call)
      ensures hit <==> Fresh(ttl, lastOK, clock)
    {
      if lastOK.Some? && clock - lastOK.value < ttl {
        calls, log := calls + [Returned(true)], log + [Hit(clock, |calls|)];
        return true;
      }
      calls, log := calls + [Missed], log + [Miss(clock, |calls|)];
      hit := false;
    }

    /** The goroutine takes an inner result, which is passed on at once unless it has to be recorded. */
    method Receive(call: nat, ok: bool)
      requires Enabled(View(), Verdict(call, ok))
      modifies this`calls, this`log
      ensures View() == Do(ttl, old(View()), Verdict(call, ok))
    {
      log := log + [if ok then InnerOk(clock, call) else InnerFailed(clock, call)];
      calls := calls[call := if ok then Recording(clock) else Returned(false)];
    }

    /** Its critical section, at whatever time it gets the lock. */
    method Record(call: nat)
      requires Enabled(View(), Store(call))
      modifies this`lastOK, this`calls, this`log
      ensures View() == Do(ttl, old(View()), Store(call))
    {
      lastOK := Some(clock);
      log := log + [Recorded(clock, call, calls[call].okAt)];
      calls := calls[call := Returned(true)];
    }
  }

  // ----- runs -----

  function Initial(start: int): State {
    State(start, None, [], [])
  }

  /** The state a schedule leads to from `s`, if every action of it was enabled. */
  function RunFrom(ttl: nat, s: State, actions: seq<Action>): Option<State>
    decreases |actions|
  {
    if actions == [] then Some(s) else
    var t := RunFrom(ttl, s, actions[..|actions| - 1]);
    var a := actions[|actions| - 1];
    if t.Some? && Enabled(t.value, a) then Some(Do(ttl, t.value, a)) else None
  }

  /** The state after a schedule from the start of the program. */
  function Run(ttl: nat, start: int, actions: seq<Action>): Option<State> {
    RunFrom(ttl, Initial(start), actions)
  }

  lemma RunFromSnoc(ttl: nat, s: State, actions: seq<Action>, a: Action)
    ensures var t := RunFrom(ttl, s, actions);
            RunFrom(ttl, s, actions + [a]) == if t.Some? && Enabled(t.value, a) then Some(Do(ttl, t.value, a)) else None
  {
    assert (actions + [a])[..|actions|] == actions;
  }

  lemma {:induction false} RunFromAppend(ttl: nat, s: State, actions: seq<Action>, more: seq<Action>)
    ensures var t := RunFrom(ttl, s, actions);
            RunFrom(ttl, s, actions + more) == if t.Some? then RunFrom(ttl, t.value, more) else None
    decreases |more|
  {
    if more == [] {
      assert actions + more == actions;
    } else {
      hide Do, Enabled;
      var n := |more| - 1;
      RunFromAppend(ttl, s, actions, more[..n]);
      RunFromSnoc(ttl, s, actions + more[..n], more[n]);
      assert actions + more == actions + more[..n] + [more[n]];
    }
  }

  // ----- invariant -----

  /** Reference reading of a log: the time of its last recorded success. */
  function LatestRecord(log: seq<Event>): Option<int>
    decreases |log|
  {
    if log == [] then None
    else if log[|log| - 1].Recorded? then Some(log[|log| - 1].at)
    else LatestRecord(log[..|log| - 1])
  }

  /** The call was a miss, at or before `now`, which `log` tells. */
  ghost predicate WasMissed(log: seq<Event>, call: nat, now: int) {
    exists j :: 0 <= j < |log| && log[j].Miss? && log[j].call == call && log[j].at <= now
  }

  /** What may follow a log: a hit or a miss of a new call is what the last record says, a verdict
      belongs to a call that was a miss, and a record stores a verdict. */
  ghost predicate MayFollow(ttl: nat, log: seq<Event>, x: Event) {
    && (forall i :: 0 <= i < |log| ==> log[i].at <= x.at)
    && match x
       case Hit(at, c) => Fresh(ttl, LatestRecord(log), at) && IsNew(log, c)
       case Miss(at, c) => !Fresh(ttl, LatestRecord(log), at) && IsNew(log, c)
       case InnerOk(at, c) => WasMissed(log, c, at)
       case InnerFailed(at, c) => WasMissed(log, c, at)
       case Recorded(at, c, okAt) => InnerOk(okAt, c) in log
  }

  ghost predicate IsNew(log: seq<Event>, call: nat) {
    forall i :: 0 <= i < |log| ==> log[i].call != call
  }

  ghost predicate History(ttl: nat, log: seq<Event>) {
    forall i :: 0 <= i < |log| ==> MayFollow(ttl, log[..i], log[i])
  }

  /** The call was a hit, or the inner verdict on it was OK. */
  ghost predicate WasApproved(log: seq<Event>, call: nat) {
    exists i :: 0 <= i < |log| && (log[i].Hit? || log[i].InnerOk?) && log[i].call == call
  }

  /** What the place of a call says about the log. */
  ghost predicate CallIsTold(log: seq<Event>, now: int, call: nat, pc: Pc) {
    && (pc.Missed? || pc.Waiting? ==> WasMissed(log, call, now))
    && (pc.Recording? ==> InnerOk(pc.okAt, call) in log)
    && (pc == Returned(true) ==> WasApproved(log, call))
    && (pc == Returned(true) || pc.Recording? || forall i :: 0 <= i < |log| && log[i].InnerOk? ==> log[i].call != call)
  }

  ghost predicate Invariant(ttl: nat, s: State) {
    && s.lastOK == LatestRecord(s.log) && History(ttl, s.log)
    && (forall i :: 0 <= i < |s.log| ==> s.log[i].at <= s.clock && s.log[i].call < |s.calls|)
    && (forall c :: 0 <= c < |s.calls| ==> CallIsTold(s.log, s.clock, c, s.calls[c]))
  }

  lemma HistorySnoc(ttl: nat, log: seq<Event>, x: Event)
    requires History(ttl, log) && MayFollow(ttl, log, x)
    ensures History(ttl, log + [x])
    ensures LatestRecord(log + [x]) == if x.Recorded? then Some(x.at) else LatestRecord(log)
  {
    hide MayFollow;
    assert (log + [x])[..|log|] == log;
    forall i | 0 <= i < |log| ensures (log + [x])[..i] == log[..i] {}
  }

  lemma MissedStays(log: seq<Event>, more: seq<Event>, call: nat, now: int, later: int)
    requires WasMissed(log, call, now) && log <= more && now <= later
    ensures WasMissed(more, call, later)
  {
    var j :| 0 <= j < |log| && log[j].Miss? && log[j].call == call && log[j].at <= now;
    assert more[j] == log[j];
  }

  /** What is told about a call stays told while other calls go on. */
  lemma CallStaysTold(s: State, t: State, call: nat)
    requires call < |s.calls| <= |t.calls| && t.calls[call] == s.calls[call] && s.clock <= t.clock
    requires CallIsTold(s.log, s.clock, call, s.calls[call])
    requires t.log == s.log || (|t.log| == |s.log| + 1 && s.log <= t.log && t.log[|s.log|].call != call)
    ensures CallIsTold(t.log, t.clock, call, t.calls[call])
  {
    hide WasMissed, WasApproved;
    if s.calls[call].Missed? || s.calls[call].Waiting? {
      MissedStays(s.log, t.log, call, s.clock, t.clock);
    } else if s.calls[call] == Returned(true) {
      ApprovedStays(s.log, t.log, call);
    }
  }

  lemma ApprovedStays(log: seq<Event>, more: seq<Event>, call: nat)
    requires WasApproved(log, call) && log <= more
    ensures WasApproved(more, call)
  {
    var i :| 0 <= i < |log| && (log[i].Hit? || log[i].InnerOk?) && log[i].call == call;
    assert more[i] == log[i];
  }

  lemma StepMayFollow(ttl: nat, s: State, a: Action)
    requires Invariant(ttl, s) && Enabled(s, a) && Do(ttl, s, a).log != s.log
    ensures var t := Do(ttl, s, a);
            && t.log == s.log + [t.log[|s.log|]] && MayFollow(ttl, s.log, t.log[|s.log|])
            && t.log[|s.log|].call < |t.calls|
  {
    hide LatestRecord, History, WasMissed;
  }

  lemma StepKeepsCalls(ttl: nat, s: State, a: Action, c: nat)
    requires Invariant(ttl, s) && Enabled(s, a) && c < |Do(ttl, s, a).calls|
    ensures var t := Do(ttl, s, a); CallIsTold(t.log, t.clock, c, t.calls[c])
  {
    hide LatestRecord, History, Fresh;
    var t := Do(ttl, s, a);
    if c < |s.calls| && t.calls[c] == s.calls[c] && (t.log == s.log || t.log[|s.log|].call != c) {
      hide CallIsTold;
      CallStaysTold(s, t, c);
    } else if a.Call? {
      assert s.log + [t.log[|s.log|]] == t.log;
      assert t.log[|s.log|].call == c;
    } else {
      assert CallIsTold(s.log, s.clock, c, s.calls[c]);
      match a
      case StartInner(_, ok) =>
        assert t.log == s.log;
      case Verdict(_, ok) =>
        assert t.log == s.log + [if ok then InnerOk(s.clock, c) else InnerFailed(s.clock, c)];
        assert ok ==> t.log[|s.log|] == InnerOk(s.clock, c);
      case Store(_) =>
        var i :| 0 <= i < |s.log| && s.log[i] == InnerOk(s.calls[c].okAt, c);
        assert t.log[i] == s.log[i];
      case _ =>
    }
  }

  lemma StepKeepsLog(ttl: nat, s: State, a: Action)
    requires Invariant(ttl, s) && Enabled(s, a)
    ensures var t := Do(ttl, s, a);
            && t.lastOK == LatestRecord(t.log) && History(ttl, t.log)
            && forall i :: 0 <= i < |t.log| ==> t.log[i].at <= t.clock && t.log[i].call < |t.calls|
  {
    hide CallIsTold, History, LatestRecord, MayFollow, Fresh;
    var t := Do(ttl, s, a);
    if t.log != s.log {
      StepMayFollow(ttl, s, a);
      HistorySnoc(ttl, s.log, t.log[|s.log|]);
    }
  }

  lemma StepKeepsInvariant(ttl: nat, s: State, a: Action)
    requires Invariant(ttl, s) && Enabled(s, a)
    ensures Invariant(ttl, Do(ttl, s, a))
  {
    StepKeepsLog(ttl, s, a);
    hide CallIsTold, History, LatestRecord, Do;
    var t := Do(ttl, s, a);
    forall c | 0 <= c < |t.calls| ensures CallIsTold(t.log, t.clock, c, t.calls[c]) {
      StepKeepsCalls(ttl, s, a, c);
    }
  }

  lemma {:induction false} RunKeepsInvariant(ttl: nat, s: State, actions: seq<Action>)
    requires Invariant(ttl, s) && RunFrom(ttl, s, actions).Some?
    ensures Invariant(ttl, RunFrom(ttl, s, actions).value)
    ensures s.log <= RunFrom(ttl, s, actions).value.log
    decreases |actions|
  {
    if actions != [] {
      hide Invariant;
      var n := |actions| - 1;
      RunKeepsInvariant(ttl, s, actions[..n]);
      StepKeepsInvariant(ttl, RunFrom(ttl, s, actions[..n]).value, actions[n]);
    }
  }

  lemma InvariantHolds(ttl: nat, start: int, actions: seq<Action>)
    requires Run(ttl, start, actions).Some?
    ensures Invariant(ttl, Run(ttl, start, actions).value)
  {
    RunKeepsInvariant(ttl, Initial(start), actions);
  }

  // ----- hits -----

  lemma TimesAreOrdered(ttl: nat, log: seq<Event>, i: nat, j: nat)
    requires History(ttl, log) && i < j < |log|
    ensures log[i].at <= log[j].at
  {
    assert MayFollow(ttl, log[..j], log[j]);
    assert log[..j][i] == log[i];
  }

  lemma {:induction false} LatestRecordIsThere(log: seq<Event>)
    requires LatestRecord(log).Some?
    ensures exists i :: 0 <= i < |log| && log[i].Recorded? && log[i].at == LatestRecord(log).value
    decreases |log|
  {
    var n := |log| - 1;
    if log[n].Recorded? {
      assert log[n].at == LatestRecord(log).value;
    } else {
      LatestRecordIsThere(log[..n]);
      var i :| 0 <= i < n && log[..n][i].Recorded? && log[..n][i].at == LatestRecord(log[..n]).value;
      assert log[i] == log[..n][i];
    }
  }

  lemma {:induction false} LatestRecordIsLatest(ttl: nat, log: seq<Event>, k: nat)
    requires History(ttl, log) && k < |log| && log[k].Recorded?
    ensures LatestRecord(log).Some? && log[k].at <= LatestRecord(log).value
    decreases |log|
  {
    hide History;
    var n := |log| - 1;
    if log[n].Recorded? {
      if k < n {
        TimesAreOrdered(ttl, log, k, n);
      }
    } else {
      HistoryPrefix(ttl, log, n);
      LatestRecordIsLatest(ttl, log[..n], k);
    }
  }

  lemma HistoryPrefix(ttl: nat, log: seq<Event>, n: nat)
    requires History(ttl, log) && n <= |log|
    ensures History(ttl, log[..n])
  {
    hide MayFollow;
    forall i | 0 <= i < n ensures MayFollow(ttl, log[..n][..i], log[..n][i]) {
      assert log[..n][..i] == log[..i];
    }
  }

  /** A call is a hit if and only if a success was recorded less than ttl before it. */
  lemma HitExactly(ttl: nat, log: seq<Event>, i: nat)
    requires History(ttl, log) && i < |log| && (log[i].Hit? || log[i].Miss?)
    ensures log[i].Hit? <==> exists k :: 0 <= k < i && log[k].Recorded? && log[i].at - log[k].at < ttl
  {
    assert MayFollow(ttl, log[..i], log[i]);
    HistoryPrefix(ttl, log, i);
    hide History, MayFollow, LatestRecord;
    if log[i].Hit? {
      LatestRecordIsThere(log[..i]);
      var k :| 0 <= k < i && log[..i][k].Recorded? && log[..i][k].at == LatestRecord(log[..i]).value;
      assert log[k] == log[..i][k];
    } else {
      forall k | 0 <= k < i && log[k].Recorded? ensures log[i].at - log[k].at >= ttl {
        assert log[k] == log[..i][k];
        LatestRecordIsLatest(ttl, log[..i], k);
      }
    }
  }

  /** A call begins once, as a hit or as a miss. */
  lemma OneBeginning(ttl: nat, log: seq<Event>, i: nat, j: nat)
    requires History(ttl, log) && i < j < |log|
    requires log[j].Hit? || log[j].Miss?
    ensures log[i].call != log[j].call
  {
    assert MayFollow(ttl, log[..j], log[j]);
    assert log[..j][i] == log[i];
  }

  /** A recorded success stores the verdict of a call that was a miss, given to it before. */
  ghost predicate IsBacked(log: seq<Event>, k: nat)
    requires k < |log| && log[k].Recorded?
  {
    && InnerOk(log[k].okAt, log[k].call) in log[..k] && log[k].okAt <= log[k].at
    && WasMissed(log[..k], log[k].call, log[k].okAt)
  }

  lemma RecordIsBacked(ttl: nat, log: seq<Event>, k: nat)
    requires History(ttl, log) && k < |log| && log[k].Recorded?
    ensures IsBacked(log, k)
  {
    assert MayFollow(ttl, log[..k], log[k]);
    var j :| 0 <= j < k && log[..k][j] == InnerOk(log[k].okAt, log[k].call);
    assert log[j] == log[..k][j];
    assert MayFollow(ttl, log[..j], log[j]);
    TimesAreOrdered(ttl, log, j, k);
    hide History, MayFollow;
    MissedStays(log[..j], log[..k], log[k].call, log[k].okAt, log[k].okAt);
  }

  /** The call behind a record: the one miss it began as, before the verdict, and where it stands. */
  lemma CallBehindRecord(ttl: nat, s: State, k: nat) returns (m: nat)
    requires Invariant(ttl, s) && k < |s.log| && s.log[k].Recorded? && IsBacked(s.log, k)
    ensures m < k && s.log[m].Miss? && s.log[m].call == s.log[k].call && s.log[m].at <= s.log[k].okAt
    ensures forall b :: 0 <= b < |s.log| && (s.log[b].Hit? || s.log[b].Miss?) ==>
              s.log[b].call == s.log[k].call ==> b == m
    ensures s.log[k].call < |s.calls| && (s.calls[s.log[k].call] == Returned(true) || s.calls[s.log[k].call].Recording?)
  {
    var c := s.log[k].call;
    m :| 0 <= m < k && s.log[..k][m].Miss? && s.log[..k][m].call == c && s.log[..k][m].at <= s.log[k].okAt;
    assert s.log[m] == s.log[..k][m];
    var o :| 0 <= o < k && s.log[..k][o] == InnerOk(s.log[k].okAt, c);
    assert s.log[o] == s.log[..k][o];
    assert CallIsTold(s.log, s.clock, c, s.calls[c]);
    hide CallIsTold, History;
    forall b | 0 <= b < |s.log| && (s.log[b].Hit? || s.log[b].Miss?) && s.log[b].call == c ensures b == m {
      if b < m {
        OneBeginning(ttl, s.log, b, m);
      } else if m < b {
        OneBeginning(ttl, s.log, m, b);
      }
    }
  }

  lemma ApprovedCall(ttl: nat, s: State, call: nat)
    requires Invariant(ttl, s) && call < |s.calls| && s.calls[call] == Returned(true)
    ensures History(ttl, s.log) && WasApproved(s.log, call)
  {
    hide History, WasApproved;
    assert CallIsTold(s.log, s.clock, call, s.calls[call]);
  }

  /** A miss that was approved in the end has an inner verdict of OK, no earlier than the call. */
  lemma ApprovedMiss(ttl: nat, s: State, at: int, call: nat)
    requires Invariant(ttl, s) && Miss(at, call) in s.log && call < |s.calls| && s.calls[call] == Returned(true)
    ensures exists okAt :: InnerOk(okAt, call) in s.log && at <= okAt
  {
    hide Invariant, History;
    ApprovedCall(ttl, s, call);
    var m :| 0 <= m < |s.log| && s.log[m] == Miss(at, call);
    var i :| 0 <= i < |s.log| && (s.log[i].Hit? || s.log[i].InnerOk?) && s.log[i].call == call;
    if i < m {
      OneBeginning(ttl, s.log, i, m);
    } else if s.log[i].Hit? {
      OneBeginning(ttl, s.log, m, i);
    } else {
      TimesAreOrdered(ttl, s.log, m, i);
      assert s.log[i] == InnerOk(s.log[i].at, call);
    }
  }

  /** Every cache hit at time t rests on a success that was recorded at some s with 0 <= t - s < ttl,
      and on an inner verdict of OK at or before s. */
  lemma HitIsCovered(ttl: nat, log: seq<Event>, i: nat)
    requires History(ttl, log) && i < |log| && log[i].Hit?
    ensures exists k :: 0 <= k < i && log[k].Recorded? && 0 <= log[i].at - log[k].at < ttl && IsBacked(log, k)
  {
    hide IsBacked;
    HitExactly(ttl, log, i);
    var k :| 0 <= k < i && log[k].Recorded? && log[i].at - log[k].at < ttl;
    TimesAreOrdered(ttl, log, k, i);
    RecordIsBacked(ttl, log, k);
  }

  lemma EveryHitIsCovered(ttl: nat, start: int, actions: seq<Action>, i: nat)
    requires Run(ttl, start, actions).Some?
    requires var log := Run(ttl, start, actions).value.log; i < |log| && log[i].Hit?
    ensures var log := Run(ttl, start, actions).value.log;
            exists k :: 0 <= k < i && log[k].Recorded? && 0 <= log[i].at - log[k].at < ttl && IsBacked(log, k)
  {
    InvariantHolds(ttl, start, actions);
    hide Run, IsBacked, History;
    HitIsCovered(ttl, Run(ttl, start, actions).value.log, i);
  }

  /** Hits and failures never renew the window: hits with no record between them lie within one ttl. */
  lemma HitsSpanLessThanTtl(ttl: nat, start: int, actions: seq<Action>, i: nat, j: nat)
    requires Run(ttl, start, actions).Some?
    requires var log := Run(ttl, start, actions).value.log;
             i < j < |log| && log[i].Hit? && log[j].Hit? && forall k :: i < k < j ==> !log[k].Recorded?
    ensures var log := Run(ttl, start, actions).value.log;
            0 <= log[j].at - log[i].at < ttl
  {
    InvariantHolds(ttl, start, actions);
    hide Run;
    var log := Run(ttl, start, actions).value.log;
    HitExactly(ttl, log, j);
    var k :| 0 <= k < j && log[k].Recorded? && log[j].at - log[k].at < ttl;
    TimesAreOrdered(ttl, log, i, j);
    if k < i {
      TimesAreOrdered(ttl, log, k, i);
    }
  }

  // ----- how old the verdict behind a hit may be -----

  /** The i-th event is a hit and the k-th the last record before it. */
  ghost predicate RestsOn(log: seq<Event>, i: nat, k: nat) {
    k < i < |log| && log[i].Hit? && log[k].Recorded? && forall j :: k < j < i ==> !log[j].Recorded?
  }

  /** Whatever follows, hits that rest on the k-th event come less than ttl after the verdict. */
  ghost predicate VerdictStaysYoung(ttl: nat, s: State, k: nat)
    requires k < |s.log| && s.log[k].Recorded?
  {
    forall more: seq<Action>, i: nat | RunFrom(ttl, s, more).Some? ::
      var log := RunFrom(ttl, s, more).value.log;
      RestsOn(log, i, k) ==> log[i].at - s.log[k].okAt < ttl
  }

  lemma {:induction false} LatestOfRecord(log: seq<Event>, i: nat, k: nat)
    requires k < i <= |log| && log[k].Recorded? && forall j :: k < j < i ==> !log[j].Recorded?
    ensures LatestRecord(log[..i]) == Some(log[k].at)
    decreases i
  {
    assert log[..i][..i - 1] == log[..i - 1];
    if k < i - 1 {
      LatestOfRecord(log, i - 1, k);
    }
  }

  /** A record stored in time: every hit resting on it is covered by its verdict too. */
  lemma PromptRecordStaysYoung(ttl: nat, s: State, k: nat)
    requires Invariant(ttl, s) && k < |s.log| && s.log[k].Recorded? && s.log[k].okAt == s.log[k].at
    ensures VerdictStaysYoung(ttl, s, k)
  {
    forall more: seq<Action>, i: nat | RunFrom(ttl, s, more).Some? && RestsOn(RunFrom(ttl, s, more).value.log, i, k)
      ensures RunFrom(ttl, s, more).value.log[i].at - s.log[k].okAt < ttl
    {
      RunKeepsInvariant(ttl, s, more);
      hide RunFrom;
      var log := RunFrom(ttl, s, more).value.log;
      assert MayFollow(ttl, log[..i], log[i]);
      LatestOfRecord(log, i, k);
      assert log[k] == s.log[k];
    }
  }

  /** Right after a late record the schedule "ttl - 1 later, a call" is a hit that outlives its verdict. */
  lemma LateRecordOutlivesVerdict(ttl: nat, s: State, k: nat)
    requires ttl > 0 && Invariant(ttl, s) && |s.log| == k + 1 && s.log[k].Recorded?
    requires s.clock == s.log[k].at && s.log[k].okAt < s.log[k].at
    ensures !VerdictStaysYoung(ttl, s, k)
  {
    assert s.lastOK == Some(s.clock);
    hide Invariant;
    var tick, both := [Tick(ttl - 1)], [Tick(ttl - 1), Call];
    RunFromNothing(ttl, s);
    RunFromSnoc(ttl, s, [], Tick(ttl - 1));
    RunFromSnoc(ttl, s, tick, Call);
    assert [] + tick == tick && tick + [Call] == both;
    hide RunFrom;
    var log := RunFrom(ttl, s, both).value.log;
    assert log == s.log + [Hit(s.clock + ttl - 1, |s.calls|)];
    assert RestsOn(log, k + 1, k);
    assert log[k + 1].at - s.log[k].okAt >= ttl;
  }

  lemma RunFromNothing(ttl: nat, s: State)
    ensures RunFrom(ttl, s, []) == Some(s)
  {}

  /** The window runs from when a success is recorded, not from when the user gave it. In every
      reachable state in which a goroutine is about to record: whatever happens afterwards, every hit
      that rests on the record comes less than ttl after the user's verdict, if and only if the clock
      has not advanced since that verdict. */
  lemma VerdictAgeExactly(ttl: nat, start: int, actions: seq<Action>, call: nat)
    requires ttl > 0 && Run(ttl, start, actions).Some? && Enabled(Run(ttl, start, actions).value, Store(call))
    ensures var s := Run(ttl, start, actions).value;
            VerdictStaysYoung(ttl, Do(ttl, s, Store(call)), |s.log|) <==> s.clock == s.calls[call].okAt
  {
    InvariantHolds(ttl, start, actions);
    var s := Run(ttl, start, actions).value;
    hide Run, VerdictStaysYoung;
    var t := Do(ttl, s, Store(call));
    StepKeepsInvariant(ttl, s, Store(call));
    RecordIsBacked(ttl, t.log, |s.log|);
    hide Invariant;
    if s.clock == s.calls[call].okAt {
      PromptRecordStaysYoung(ttl, t, |s.log|);
    } else {
      LateRecordOutlivesVerdict(ttl, t, |s.log|);
    }
  }

  // ----- the world around one call -----

  /** What goes on without the caller: time, inner verdicts, and goroutines. */
  predicate Background(a: Action) {
    a.Tick? || a.Verdict? || a.Store?
  }

  /** The steps of `actions` that are background steps and possible when their turn comes. */
  function Meanwhile(ttl: nat, s: State, actions: seq<Action>): (t: State)
    ensures |t.calls| == |s.calls|
    decreases |actions|
  {
    if actions == [] then s else
    var a := actions[0];
    Meanwhile(ttl, if Background(a) && Enabled(s, a) then Do(ttl, s, a) else s, actions[1..])
  }

  predicate Final(pc: Pc) {
    pc.Returned? || pc.Errored?
  }

  /** `t` is a later state than `s`. */
  ghost predicate Grows(s: State, t: State) {
    s.log <= t.log && |s.calls| <= |t.calls| && s.clock <= t.clock
    && forall c :: 0 <= c < |s.calls| && Final(s.calls[c]) ==> t.calls[c] == s.calls[c]
  }

  lemma StepGrows(ttl: nat, s: State, a: Action)
    requires Enabled(s, a)
    ensures Grows(s, Do(ttl, s, a))
  {}

  lemma GrowsOn(s: State, t: State, u: State)
    requires Grows(s, t) && Grows(t, u)
    ensures Grows(s, u)
  {}

  lemma {:induction false} MeanwhileGrows(ttl: nat, s: State, actions: seq<Action>)
    ensures Grows(s, Meanwhile(ttl, s, actions))
    ensures Invariant(ttl, s) ==> Invariant(ttl, Meanwhile(ttl, s, actions))
    decreases |actions|
  {
    if actions != [] {
      hide Invariant, Do, Grows, Enabled;
      var a := actions[0];
      MeanwhileGrows(ttl, s, actions[1..]);
      if Background(a) && Enabled(s, a) {
        var t := Do(ttl, s, a);
        StepGrows(ttl, s, a);
        if Invariant(ttl, s) {
          StepKeepsInvariant(ttl, s, a);
        }
        MeanwhileGrows(ttl, t, actions[1..]);
        GrowsOn(s, t, Meanwhile(ttl, s, actions));
      }
    } else {
      assert Grows(s, s);
    }
  }
}
