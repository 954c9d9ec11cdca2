/**
 The fingerprint verification of fprintd/fprintd.go: the attempt loop with its early returns, and
 the calls it makes on the device. A schedule says how the bus, the timers and the sensor behave.
 */
module Fprintd {
  import opened Bytes

  const MAX_ATTEMPTS: nat := 3

  /** A value in the body of a D-Bus signal. */
  datatype Value = Str(s: string) | Bool(b: bool) | Other

  type Signal = seq<Value>

  datatype Err = NoMatch | TimedOut | BadStatus(name: string) | RestartFailed(attempt: nat) | Refused(what: string)

  datatype Status = Status(matched: bool, terminal: bool, err: Option<Err>)

  function ProcessVerifyStatus(body: Signal): Status {
    if |body| < 2 then Status(false, false, None) else
    var result := if body[0].Str? then body[0].s else "";
    var done := body[1].Bool? && body[1].b;
    if !done then Status(false, false, None)
    else if result == "verify-match" then Status(true, true, None)
    else if result == "verify-no-match" then Status(false, true, Some(NoMatch))
    else Status(false, true, Some(BadStatus(result)))
  }

  predicate Terminal(body: Signal) {
    |body| >= 2 && body[1] == Bool(true)
  }

  /** One attempt: whether the overall deadline strikes while pausing or settling, whether the scan
      can be started again, the signals left over from before, and those heard until the deadline. */
  datatype Attempt = Attempt(gapExpires: bool, startFails: bool, settleExpires: bool, buffered: seq<Signal>,
      heard: seq<Signal>)

  datatype Schedule = Schedule(
    connectFails: bool, devices: Option<nat>, subscribeFails: bool, claimFails: bool, startFails: bool,
    attempts: seq<Attempt>)

  /** Calls on the device, with the answer where the code looks at it. */
  datatype Call = Claim(ok: bool) | VerifyStart(ok: bool) | VerifyStop | Release

  class Device {
    var calls: seq<Call>

    constructor ()
      ensures calls == []
    {
      calls := [];
    }

    method Invoke(c: Call)
      modifies this
      ensures calls == old(calls) + [c]
    {
      calls := calls + [c];
    }
  }

  method DrainSignals(buffered: seq<Signal>) returns (n: nat, left: seq<Signal>)
    ensures n == |buffered| && left == []
  {
    n, left := 0, buffered;
    while left != []
      invariant n + |left| == |buffered|
    {
      left, n := left[1..], n + 1;
    }
  }

  /** What the signals heard before the deadline amount to; None is a match. */
  function Heard(signals: seq<Signal>): Option<Err> {
    if signals == [] then Some(TimedOut) else
    var p := ProcessVerifyStatus(signals[0]);
    if p.matched then None else if p.terminal then p.err else Heard(signals[1..])
  }

  method WaitForVerifyResult(signals: seq<Signal>) returns (e: Option<Err>)
    ensures e == Heard(signals)
  {
    var i := 0;
    while i < |signals|
      invariant 0 <= i <= |signals|
      invariant Heard(signals) == Heard(signals[i..])
    {
      var p := ProcessVerifyStatus(signals[i]);
      if p.matched {
        return None;
      }
      if p.terminal {
        return p.err;
      }
      i := i + 1;
    }
    e := Some(TimedOut);
  }

  predicate Complete(s: Schedule) {
    |s.attempts| == MAX_ATTEMPTS
  }

  /** How the k-th attempt ends. */
  function Verdict(s: Schedule, k: nat): Option<Err>
    requires Complete(s) && 1 <= k <= MAX_ATTEMPTS
  {
    var a := s.attempts[k - 1];
    if k > 1 && a.gapExpires then Some(TimedOut)
    else if k > 1 && a.startFails then Some(RestartFailed(k))
    else if a.settleExpires then Some(TimedOut)
    else Heard(a.heard)
  }

  /** The attempt whose verdict is the result, from the k-th on: the first that is not a no-match,
      or the last one. */
  function Deciding(s: Schedule, k: nat): (r: nat)
    requires Complete(s) && 1 <= k <= MAX_ATTEMPTS
    ensures k <= r <= MAX_ATTEMPTS
    ensures forall j :: k <= j < r ==> Verdict(s, j) == Some(NoMatch)
    ensures r < MAX_ATTEMPTS ==> Verdict(s, r) != Some(NoMatch)
    decreases MAX_ATTEMPTS - k
  {
    if k == MAX_ATTEMPTS || Verdict(s, k) != Some(NoMatch) then k else Deciding(s, k + 1)
  }

  /** The calls an attempt begins with: the first one finds the scan started. */
  function RestartCalls(s: Schedule, k: nat): seq<Call>
    requires Complete(s) && 1 <= k <= MAX_ATTEMPTS
  {
    var a := s.attempts[k - 1];
    if k == 1 then [] else if a.gapExpires then [VerifyStop] else [VerifyStop, VerifyStart(!a.startFails)]
  }

  /** The restart calls of attempts 1..k. */
  function Restarts(s: Schedule, k: nat): seq<Call>
    requires Complete(s) && k <= MAX_ATTEMPTS
  {
    if k == 0 then [] else Restarts(s, k - 1) + RestartCalls(s, k)
  }

  /** All device calls of one verification, in order. */
  function Trace(s: Schedule): seq<Call>
    requires Complete(s)
  {
    if s.connectFails || s.devices.None? || s.devices.value == 0 || s.subscribeFails then []
    else if s.claimFails then [Claim(false)]
    else if s.startFails then [Claim(true), VerifyStart(false), Release]
    else [Claim(true), VerifyStart(true)] + Restarts(s, Deciding(s, 1)) + [VerifyStop] + [Release]
  }

  function Result(s: Schedule): Option<Err>
    requires Complete(s)
  {
    if s.connectFails then Some(Refused("connect"))
    else if s.devices.None? then Some(Refused("devices"))
    else if s.devices.value == 0 then Some(Refused("no devices"))
    else if s.subscribeFails then Some(Refused("subscribe"))
    else if s.claimFails then Some(Refused("claim"))
    else if s.startFails then Some(Refused("start"))
    else Verdict(s, Deciding(s, 1))
  }

  /** `verifyFingerprint`; None is success. The deferred calls run when the inner methods return. */
  method VerifyFingerprint(s: Schedule, device: Device) returns (e: Option<Err>)
    requires Complete(s)
    modifies device
    ensures e == Result(s)
    ensures device.calls == old(device.calls) + Trace(s)
  {
    hide Verdict, Restarts, Deciding;
    if s.connectFails {
      return Some(Refused("connect"));
    }
    if s.devices.None? {
      return Some(Refused("devices"));
    }
    if s.devices.value == 0 {
      return Some(Refused("no devices"));
    }
    if s.subscribeFails {
      return Some(Refused("subscribe"));
    }
    device.Invoke(Claim(!s.claimFails));
    if s.claimFails {
      return Some(Refused("claim"));
    }
    e := VerifyClaimed(s, device);
    device.Invoke(Release);
  }

  method VerifyClaimed(s: Schedule, device: Device) returns (e: Option<Err>)
    requires Complete(s)
    modifies device
    ensures e == if s.startFails then Some(Refused("start")) else Verdict(s, Deciding(s, 1))
    ensures device.calls == old(device.calls) + if s.startFails then [VerifyStart(false)]
              else [VerifyStart(true)] + Restarts(s, Deciding(s, 1)) + [VerifyStop]
  {
    hide Verdict, Restarts, Deciding;
    device.Invoke(VerifyStart(!s.startFails));
    if s.startFails {
      return Some(Refused("start"));
    }
    e := AttemptLoop(s, device);
    device.Invoke(VerifyStop);
  }

  method AttemptLoop(s: Schedule, device: Device) returns (e: Option<Err>)
    requires Complete(s)
    modifies device
    ensures e == Verdict(s, Deciding(s, 1))
    ensures device.calls == old(device.calls) + Restarts(s, Deciding(s, 1))
  {
    hide Verdict, RestartCalls;
    var lastErr: Option<Err> := None;
    var attempt := 1;
    while attempt <= MAX_ATTEMPTS
      invariant 1 <= attempt <= MAX_ATTEMPTS + 1
      invariant attempt <= MAX_ATTEMPTS ==> Deciding(s, attempt) == Deciding(s, 1)
      invariant attempt > 1 ==> Verdict(s, attempt - 1) == lastErr == Some(NoMatch)
      invariant attempt > MAX_ATTEMPTS ==> Deciding(s, 1) == MAX_ATTEMPTS
      invariant device.calls == old(device.calls) + Restarts(s, attempt - 1)
    {
      ConcatAssociates(old(device.calls), Restarts(s, attempt - 1), RestartCalls(s, attempt));
      var err := OneAttempt(s, attempt, device);
      if err.None? {
        return None;
      }
      if err != Some(NoMatch) {
        return err;
      }
      lastErr := err;
      attempt := attempt + 1;
    }
    e := lastErr;
  }

  /** The body of the loop; leaving it early with another error than no-match ends the loop too. */
  method OneAttempt(s: Schedule, attempt: nat, device: Device) returns (e: Option<Err>)
    requires Complete(s) && 1 <= attempt <= MAX_ATTEMPTS
    modifies device
    ensures e == Verdict(s, attempt)
    ensures device.calls == old(device.calls) + RestartCalls(s, attempt)
  {
    var a := s.attempts[attempt - 1];
    if attempt > 1 {
      device.Invoke(VerifyStop);
      if a.gapExpires {
        return Some(TimedOut);
      }
      device.Invoke(VerifyStart(!a.startFails));
      if a.startFails {
        return Some(RestartFailed(attempt));
      }
    }
    if a.settleExpires {
      return Some(TimedOut);
    }
    var dropped, left := DrainSignals(a.buffered);
    e := WaitForVerifyResult(left + a.heard);
    assert left + a.heard == a.heard;
  }

  // ----- the retry machine -----

  /** The position of the first terminal signal, or the number of signals. */
  function TerminalIndex(signals: seq<Signal>): (i: nat)
    ensures i <= |signals|
    ensures i < |signals| ==> Terminal(signals[i])
    ensures forall j :: 0 <= j < i ==> !Terminal(signals[j])
  {
    if signals == [] || Terminal(signals[0]) then 0 else 1 + TerminalIndex(signals[1..])
  }

  predicate FirstTerminalIs(signals: seq<Signal>, name: string) {
    var i := TerminalIndex(signals);
    i < |signals| && signals[i][0] == Str(name)
  }

  /** What is heard amounts to exactly what its first terminal signal says, and to a timeout if
      there is none. */
  lemma {:induction false} HeardIsFirstTerminal(signals: seq<Signal>)
    ensures Heard(signals) == None <==> FirstTerminalIs(signals, "verify-match")
    ensures Heard(signals) == Some(NoMatch) <==> FirstTerminalIs(signals, "verify-no-match")
    ensures Heard(signals) == Some(TimedOut) <==> TerminalIndex(signals) == |signals|
    ensures var i := TerminalIndex(signals);
            i < |signals| && !FirstTerminalIs(signals, "verify-match") && !FirstTerminalIs(signals, "verify-no-match")
            ==> Heard(signals) == Some(BadStatus(if signals[i][0].Str? then signals[i][0].s else ""))
  {
    if signals != [] && !Terminal(signals[0]) {
      HeardIsFirstTerminal(signals[1..]);
    }
  }

  predicate Reaches(s: Schedule) {
    !s.connectFails && s.devices.Some? && s.devices.value > 0 && !s.subscribeFails && !s.claimFails && !s.startFails
  }

  /** The k-th attempt gets as far as listening, and its first terminal signal carries this status. */
  predicate EndsWith(s: Schedule, k: nat, name: string)
    requires Complete(s) && 1 <= k <= MAX_ATTEMPTS
  {
    var a := s.attempts[k - 1];
    && (k == 1 || (!a.gapExpires && !a.startFails)) && !a.settleExpires
    && FirstTerminalIs(a.heard, name)
  }

  lemma VerdictExactly(s: Schedule, k: nat)
    requires Complete(s) && 1 <= k <= MAX_ATTEMPTS
    ensures Verdict(s, k) == None <==> EndsWith(s, k, "verify-match")
    ensures Verdict(s, k) == Some(NoMatch) <==> EndsWith(s, k, "verify-no-match")
  {
    HeardIsFirstTerminal(s.attempts[k - 1].heard);
  }

  /** The first k attempts ended in no match. */
  ghost predicate NoMatches(s: Schedule, k: nat)
    requires Complete(s) && k <= MAX_ATTEMPTS
  {
    forall j :: 1 <= j <= k ==> EndsWith(s, j, "verify-no-match")
  }

  /** Over every schedule: success means that some attempt ended in a match after nothing but
      no-matches; "no match" means that all three attempts ended so; anything else stops at once. */
  lemma RetryExactly(s: Schedule)
    requires Complete(s) && Reaches(s)
    ensures Result(s) == None <==>
              exists k :: 1 <= k <= MAX_ATTEMPTS && NoMatches(s, k - 1) && EndsWith(s, k, "verify-match")
    ensures Result(s) == Some(NoMatch) <==> NoMatches(s, MAX_ATTEMPTS)
    ensures NoMatches(s, Deciding(s, 1) - 1)
    ensures !(Result(s) in {None, Some(NoMatch)}) ==> !EndsWith(s, Deciding(s, 1), "verify-no-match")
  {
    forall k | 1 <= k <= MAX_ATTEMPTS
      ensures Verdict(s, k) == None <==> EndsWith(s, k, "verify-match")
      ensures Verdict(s, k) == Some(NoMatch) <==> EndsWith(s, k, "verify-no-match")
    {
      VerdictExactly(s, k);
    }
    hide EndsWith, Verdict;
    var r := Deciding(s, 1);
    assert NoMatches(s, r - 1);
    assert Result(s) == Verdict(s, r);
    assert EndsWith(s, r, "verify-no-match") <==> Verdict(s, r) == Some(NoMatch);
  }

  /** How often the calls start a scan. */
  function Starts(calls: seq<Call>): nat {
    if calls == [] then 0 else (if calls[0].VerifyStart? then 1 else 0) + Starts(calls[1..])
  }

  lemma {:induction false} StartsAppend(a: seq<Call>, b: seq<Call>)
    ensures Starts(a + b) == Starts(a) + Starts(b)
  {
    if a == [] {
      assert a + b == b;
    } else {
      StartsAppend(a[1..], b);
      assert (a + b)[1..] == a[1..] + b;
    }
  }

  lemma RestartStarts(s: Schedule, k: nat)
    requires Complete(s) && 2 <= k <= 3
    ensures Starts(RestartCalls(s, k)) == if s.attempts[k - 1].gapExpires then 0 else 1
    ensures |RestartCalls(s, k)| == 1 + Starts(RestartCalls(s, k))
  {
    var start := VerifyStart(!s.attempts[k - 1].startFails);
    assert Starts([VerifyStop]) == 0 && Starts([start]) == 1;
    assert [VerifyStop, start][1..] == [start];
  }

  lemma {:induction false} StartsOfRestarts(s: Schedule, k: nat)
    requires Complete(s) && 1 <= k <= 3
    requires NoMatches(s, k - 1)
    ensures Starts(Restarts(s, k)) == if k > 1 && s.attempts[k - 1].gapExpires then k - 2 else k - 1
    ensures |Restarts(s, k)| == k - 1 + Starts(Restarts(s, k))
  {
    if k == 1 {
      assert Restarts(s, 0) == [];
    } else {
      hide FirstTerminalIs;
      assert EndsWith(s, k - 1, "verify-no-match");
      StartsOfRestarts(s, k - 1);
      StartsAppend(Restarts(s, k - 1), RestartCalls(s, k));
      RestartStarts(s, k);
    }
  }

  /** The r-th attempt is the one that decides: it comes after no-matches only, and it is the third one
      or no such itself. */
  ghost predicate Decides(s: Schedule, r: nat)
    requires Complete(s)
  {
    1 <= r <= 3 && NoMatches(s, r - 1) && (r < 3 ==> !EndsWith(s, r, "verify-no-match"))
  }

  /** Over every schedule there is exactly one such attempt. The scan is started once for each attempt that
      gets so far and stopped once for each attempt, which with the claim and the release are all calls;
      and the result tells what became of the deciding attempt. */
  lemma AttemptsExactly(s: Schedule, r: nat)
    requires Complete(s) && Reaches(s) && Decides(s, r)
    ensures forall k: nat :: Decides(s, k) ==> k == r
    ensures var a := s.attempts[r - 1];
            && Starts(Trace(s)) == (if r > 1 && a.gapExpires then r - 1 else r)
            && |Trace(s)| == 1 + Starts(Trace(s)) + r + 1
            && Result(s) == if r > 1 && a.gapExpires then Some(TimedOut)
                            else if r > 1 && a.startFails then Some(RestartFailed(r))
                            else if a.settleExpires then Some(TimedOut) else Heard(a.heard)
  {
    hide FirstTerminalIs, Heard, Starts, Restarts, Deciding;
    forall k: nat | Decides(s, k) ensures k == r {}
    assert Deciding(s, 1) == r by {
      RetryExactly(s);
      VerdictExactly(s, Deciding(s, 1));
      assert Decides(s, Deciding(s, 1));
    }
    StartsOfRestarts(s, r);
    var front, back := [Claim(true), VerifyStart(true)], [VerifyStop, Release];
    StartsAppend(front, Restarts(s, r));
    StartsAppend(front + Restarts(s, r), back);
    OpeningStarts();
    assert Trace(s) == front + Restarts(s, r) + back;
  }

  lemma OpeningStarts()
    ensures Starts([Claim(true), VerifyStart(true)]) == 1 && Starts([VerifyStop, Release]) == 0
  {
    assert [Claim(true), VerifyStart(true)][1..] == [VerifyStart(true)];
    assert [VerifyStop, Release][1..] == [Release];
  }

  /** A scanner that cannot be had is refused, with no call when there is no device to call, and with
      nothing to stop when it cannot be claimed or started. */
  lemma RefusedExactly(s: Schedule)
    requires Complete(s)
    ensures (exists what :: Result(s) == Some(Refused(what))) <==> !Reaches(s)
    ensures Trace(s) == [] <==> s.connectFails || s.devices.None? || s.devices.value == 0 || s.subscribeFails
    ensures Trace(s) != [] && s.claimFails ==> Trace(s) == [Claim(false)]
    ensures Trace(s) != [] && !s.claimFails && s.startFails ==> Trace(s) == [Claim(true), VerifyStart(false), Release]
  {
    hide Deciding, Restarts;
    if Reaches(s) {
      HeardIsNoRefusal(s.attempts[Deciding(s, 1) - 1].heard);
    } else {
      var what :| Result(s) == Some(Refused(what));
    }
  }

  lemma {:induction false} HeardIsNoRefusal(signals: seq<Signal>)
    ensures Heard(signals).Some? ==> !Heard(signals).value.Refused?
  {
    if signals != [] {
      HeardIsNoRefusal(signals[1..]);
    }
  }

  // ----- the call discipline -----

  /** The device as the calls leave it. `Started` also stands for a start that failed. */
  datatype Phase = Free | Claimed | Started(ok: bool) | Released

  /** One call, or None when it comes out of turn: a start needs a claim and no start since the last
      stop, a release must not leave a scan running, and nothing follows it. */
  function Advance(p: Option<Phase>, c: Call): Option<Phase> {
    match (p, c)
    case (Some(Free), Claim(ok)) => Some(if ok then Claimed else Free)
    case (Some(Claimed), VerifyStart(ok)) => Some(Started(ok))
    case (Some(Claimed), VerifyStop) => Some(Claimed)
    case (Some(Claimed), Release) => Some(Released)
    case (Some(Started(_)), VerifyStop) => Some(Claimed)
    case (Some(Started(false)), Release) => Some(Released)
    case _ => None
  }

  function Track(calls: seq<Call>): Option<Phase>
    decreases |calls|
  {
    if calls == [] then Some(Free) else Advance(Track(calls[..|calls| - 1]), calls[|calls| - 1])
  }

  lemma TrackSnoc(calls: seq<Call>, c: Call)
    ensures Track(calls + [c]) == Advance(Track(calls), c)
  {
    assert (calls + [c])[..|calls|] == calls;
  }

  lemma TrackOpening(first: Call, second: Call)
    ensures Track([first]) == Advance(Some(Free), first)
    ensures Track([first, second]) == Advance(Advance(Some(Free), first), second)
  {
    TrackSnoc([], first);
    TrackSnoc([first], second);
    assert [] + [first] == [first] && [first] + [second] == [first, second];
  }

  lemma {:induction false} RestartsAreTracked(s: Schedule, k: nat)
    requires Complete(s) && 1 <= k <= MAX_ATTEMPTS
    requires forall j :: 1 <= j < k ==> Verdict(s, j) == Some(NoMatch)
    ensures var p := Track([Claim(true), VerifyStart(true)] + Restarts(s, k));
            if k > 1 && s.attempts[k - 1].gapExpires then p == Some(Claimed)
            else p == Some(Started(k == 1 || !s.attempts[k - 1].startFails))
  {
    hide Track;
    var front := [Claim(true), VerifyStart(true)];
    if k == 1 {
      TrackOpening(Claim(true), VerifyStart(true));
      assert Restarts(s, 0) == [] && Restarts(s, 1) == [];
      assert front + Restarts(s, 1) == front;
    } else {
      RestartsAreTracked(s, k - 1);
      assert Verdict(s, k - 1) == Some(NoMatch);
      var a := s.attempts[k - 1];
      var before := front + Restarts(s, k - 1);
      TrackSnoc(before, VerifyStop);
      TrackSnoc(before + [VerifyStop], VerifyStart(!a.startFails));
      assert front + Restarts(s, k) ==
        if a.gapExpires then before + [VerifyStop] else before + [VerifyStop] + [VerifyStart(!a.startFails)];
    }
  }

  lemma ClosingIsTracked(before: seq<Call>)
    requires Track(before) == Some(Claimed) || (Track(before).Some? && Track(before).value.Started?)
    ensures Track(before + [VerifyStop] + [Release]) == Some(Released)
  {
    hide Track;
    TrackSnoc(before, VerifyStop);
    TrackSnoc(before + [VerifyStop], Release);
  }

  lemma RunningDiscipline(s: Schedule)
    requires Complete(s) && Reaches(s)
    ensures Track(Trace(s)) == Some(Released) && Trace(s)[0] == Claim(true)
  {
    hide Track, Restarts, Deciding, Verdict;
    RestartsAreTracked(s, Deciding(s, 1));
    ClosingIsTracked([Claim(true), VerifyStart(true)] + Restarts(s, Deciding(s, 1)));
  }

  /** On every exit path the calls are in turn: a claimed device is released exactly once and last,
      a started scan is stopped before that, and no scan is started twice without a stop between. */
  lemma CallDiscipline(s: Schedule)
    requires Complete(s)
    ensures Track(Trace(s)) == Some(if Trace(s) != [] && !s.claimFails then Released else Free)
    ensures Trace(s) != [] ==> Trace(s)[0] == Claim(!s.claimFails)
  {
    if Reaches(s) {
      RunningDiscipline(s);
    } else {
      TrackOpening(Claim(!s.claimFails), VerifyStart(false));
      TrackSnoc([Claim(true), VerifyStart(false)], Release);
      assert [Claim(true), VerifyStart(false)] + [Release] == [Claim(true), VerifyStart(false), Release];
    }
  }
}
