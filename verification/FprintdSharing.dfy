/**
 The sharing of fingerprint scans in fprintd/fprintd.go (`VerifyPresence`) as interleaved steps:
 callers that start a scan or join the one in progress, and one goroutine per scan, whose device
 calls mix with everything else. A critical section, a device call or a channel hand-over is one step.
 */
module FprintdSharing {
  import opened Bytes
  import opened Fprintd

  /** How the world treats a scan. */
  type Plan = s: Schedule | Complete(s)
    witness Schedule(true, None, false, false, false, [IDLE_ATTEMPT, IDLE_ATTEMPT, IDLE_ATTEMPT])

  const IDLE_ATTEMPT := Attempt(false, false, false, [], [])

  /** Where the goroutine of a scan is. */
  datatype Pc = Scanning | Clearing | Sending | Finished

  /** A scan, how many of its device calls it has made, and its result channel, which holds one value. */
  datatype Scan = Scan(plan: Plan, made: nat, pc: Pc, channel: Option<Option<Err>>, receiver: Option<nat>)

  /** A call of `VerifyPresence` that holds the channel of a scan. */
  datatype Caller = Caller(scan: nat, got: Option<Option<Err>>)

  datatype State = State(active: Option<nat>, scans: seq<Scan>, callers: seq<Caller>, device: seq<Call>)

  const INIT := State(None, [], [], [])

  datatype Action =
    | Verify(plan: Plan)
    | Issue(scan: nat)
    | Return(scan: nat)
    | Clear(scan: nat)
    | Send(scan: nat)
    | Receive(scan: nat, caller: nat)

  predicate At(s: State, i: nat, pc: Pc) {
    i < |s.scans| && s.scans[i].pc == pc
  }

  predicate Enabled(s: State, a: Action) {
    match a
    case Verify(_) => true
    case Issue(i) => At(s, i, Scanning) && s.scans[i].made < |Trace(s.scans[i].plan)|
    case Return(i) => At(s, i, Scanning) && s.scans[i].made == |Trace(s.scans[i].plan)|
    case Clear(i) => At(s, i, Clearing)
    case Send(i) => At(s, i, Sending) && s.scans[i].channel == None
    case Receive(i, c) => i < |s.scans| && s.scans[i].channel.Some?
                          && c < |s.callers| && s.callers[c].scan == i && s.callers[c].got == None
  }

  function Set(s: State, i: nat, scan: Scan): State
    requires i < |s.scans|
  {
    s.(scans := s.scans[i := scan])
  }

  function Do(s: State, a: Action): State
    requires Enabled(s, a)
  {
    match a
    case Verify(plan) =>
      if s.active.Some? then s.(callers := s.callers + [Caller(s.active.value, None)])
      else State(Some(|s.scans|), s.scans + [Scan(plan, 0, Scanning, None, None)],
                 s.callers + [Caller(|s.scans|, None)], s.device)
    case Issue(i) =>
      var x := s.scans[i];
      Set(s, i, x.(made := x.made + 1)).(device := s.device + [Trace(x.plan)[x.made]])
    case Return(i) => Set(s, i, s.scans[i].(pc := Clearing))
    case Clear(i) => Set(s, i, s.scans[i].(pc := Sending)).(active := None)
    case Send(i) => Set(s, i, s.scans[i].(pc := Finished, channel := Some(Result(s.scans[i].plan))))
    case Receive(i, c) =>
      Set(s, i, s.scans[i].(channel := None, receiver := Some(c)))
      .(callers := s.callers[c := s.callers[c].(got := s.scans[i].channel)])
  }

  /** The shared object with the goroutines it started; the methods are its two critical sections. */
  class SharedScanner {
    var active: Option<nat>
    var scans: seq<Scan>
    var callers: seq<Caller>
    ghost var device: seq<Call>

    constructor ()
      ensures View() == INIT
    {
      active, scans, callers, device := None, [], [], [];
    }

    ghost function View(): State reads this {
      State(active, scans, callers, device)
    }

    /** The channel that is returned is named by its scan. */
    method VerifyPresence(plan: Plan) returns (ch: nat)
      modifies this
      ensures View() == Do(old(View()), Verify(plan))
      ensures ch == callers[|old(callers)|].scan
      ensures ch == if old(active).Some? then old(active).value else |old(scans)|
    {
      if active.Some? {
        ch := active.value;
      } else {
        ch := |scans|;
        active := Some(ch);
        scans := scans + [Scan(plan, 0, Scanning, None, None)];
      }
      callers := callers + [Caller(ch, None)];
    }

    /** After the scan its goroutine sets the field to nil without looking at it. */
    method ClearActive(scan: nat)
      requires Enabled(View(), Clear(scan))
      modifies this
      ensures View() == Do(old(View()), Clear(scan))
    {
      active := None;
      scans := scans[scan := scans[scan].(pc := Sending)];
    }
  }

  // ----- invariant -----

  /** The field names the one scan whose goroutine has not cleared it yet, which is the latest. */
  ghost predicate OneActive(s: State) {
    && (s.active.Some? ==> s.active.value + 1 == |s.scans|)
    && forall i :: 0 <= i < |s.scans| ==> (s.scans[i].pc in {Scanning, Clearing} <==> s.active == Some(i))
  }

  /** A result is the scan's own, and is sent and received at most once. */
  ghost predicate ScanIsSound(x: Scan) {
    && x.made <= |Trace(x.plan)| && (x.pc != Scanning ==> x.made == |Trace(x.plan)|)
    && (x.channel.Some? ==> x.channel.value == Result(x.plan))
    && (x.pc == Finished <==> x.channel.Some? || x.receiver.Some?)
    && !(x.channel.Some? && x.receiver.Some?)
  }

  ghost predicate CallerIsSound(s: State, c: nat)
    requires c < |s.callers|
  {
    var x := s.callers[c];
    && x.scan < |s.scans|
    && (x.got.Some? <==> s.scans[x.scan].receiver == Some(c))
    && (x.got.Some? ==> x.got.value == Result(s.scans[x.scan].plan))
  }

  /** The caller that received the result of a scan was waiting for it. */
  ghost predicate IsDelivered(s: State, i: nat)
    requires i < |s.scans|
  {
    s.scans[i].receiver.Some? ==>
      var c := s.scans[i].receiver.value; c < |s.callers| && s.callers[c].scan == i && s.callers[c].got.Some?
  }

  /** What the scans have done to the device, one scan after the other. */
  function Issued(scans: seq<Scan>): seq<Call>
    decreases |scans|
  {
    if scans == [] then [] else
    var x := scans[|scans| - 1];
    Issued(scans[..|scans| - 1]) + Trace(x.plan)[..Min(x.made, |Trace(x.plan)|)]
  }

  ghost predicate Invariant(s: State) {
    && OneActive(s)
    && (forall i :: 0 <= i < |s.scans| ==> ScanIsSound(s.scans[i]))
    && (forall c :: 0 <= c < |s.callers| ==> CallerIsSound(s, c))
    && (forall i :: 0 <= i < |s.scans| ==> IsDelivered(s, i))
    && s.device == Issued(s.scans)
  }

  /** What the scans have made of the device does not depend on where their goroutines are. */
  lemma {:induction false} IssuedDependsOn(xs: seq<Scan>, ys: seq<Scan>)
    requires |xs| == |ys| && forall i :: 0 <= i < |xs| ==> xs[i].plan == ys[i].plan && xs[i].made == ys[i].made
    ensures Issued(xs) == Issued(ys)
    decreases |xs|
  {
    if xs != [] {
      hide Trace;
      IssuedDependsOn(xs[..|xs| - 1], ys[..|ys| - 1]);
    }
  }

  lemma IssuedSnoc(xs: seq<Scan>, x: Scan)
    ensures Issued(xs + [x]) == Issued(xs) + Trace(x.plan)[..Min(x.made, |Trace(x.plan)|)]
  {
    hide Trace;
    assert (xs + [x])[..|xs|] == xs;
  }

  lemma StepKeepsDevice(s: State, a: Action)
    requires Invariant(s) && Enabled(s, a)
    ensures Do(s, a).device == Issued(Do(s, a).scans)
  {
    hide Trace, Result, CallerIsSound, Issued;
    var t := Do(s, a);
    match a
    case Verify(plan) =>
      if s.active.None? {
        IssuedSnoc(s.scans, Scan(plan, 0, Scanning, None, None));
      }
    case Issue(i) =>
      var before, x := s.scans[..i], s.scans[i];
      assert s.active == Some(i) && ScanIsSound(x);
      assert s.scans == before + [x];
      assert t.scans == before + [x.(made := x.made + 1)];
      IssuedSnoc(before, x);
      IssuedSnoc(before, x.(made := x.made + 1));
      assert Trace(x.plan)[..x.made + 1] == Trace(x.plan)[..x.made] + [Trace(x.plan)[x.made]];
    case _ =>
      IssuedDependsOn(s.scans, t.scans);
  }

  lemma StepKeepsCallers(s: State, a: Action, c: nat)
    requires Invariant(s) && Enabled(s, a) && c < |Do(s, a).callers|
    ensures CallerIsSound(Do(s, a), c)
  {
    hide Trace, Result, Issued;
    if c < |s.callers| {
      assert CallerIsSound(s, c);
    }
  }

  lemma StepKeepsActive(s: State, a: Action)
    requires Invariant(s) && Enabled(s, a)
    ensures OneActive(Do(s, a))
  {
    hide Trace, Result, Issued, CallerIsSound, ScanIsSound, IsDelivered;
  }

  lemma StepKeepsScan(s: State, a: Action, i: nat)
    requires Invariant(s) && Enabled(s, a) && i < |Do(s, a).scans|
    ensures ScanIsSound(Do(s, a).scans[i]) && IsDelivered(Do(s, a), i)
  {
    hide Trace, Result, Issued, CallerIsSound;
    if i < |s.scans| {
      assert ScanIsSound(s.scans[i]) && IsDelivered(s, i);
    }
  }

  lemma StepKeepsInvariant(s: State, a: Action)
    requires Invariant(s) && Enabled(s, a)
    ensures Invariant(Do(s, a))
  {
    StepKeepsDevice(s, a);
    StepKeepsActive(s, a);
    hide OneActive, ScanIsSound, CallerIsSound, IsDelivered, Issued, Do;
    var t := Do(s, a);
    forall i | 0 <= i < |t.scans| ensures ScanIsSound(t.scans[i]) && IsDelivered(t, i) {
      StepKeepsScan(s, a, i);
    }
    forall c | 0 <= c < |t.callers| ensures CallerIsSound(t, c) {
      StepKeepsCallers(s, a, c);
    }
  }

  // ----- runs -----

  /** The state a schedule leads to from `s`, if each of its steps was enabled. */
  function RunFrom(s: State, actions: seq<Action>): Option<State>
    decreases |actions|
  {
    if actions == [] then Some(s) else
    var t := RunFrom(s, actions[..|actions| - 1]);
    var a := actions[|actions| - 1];
    if t.Some? && Enabled(t.value, a) then Some(Do(t.value, a)) else None
  }

  function Run(actions: seq<Action>): Option<State> {
    RunFrom(INIT, actions)
  }

  lemma OneStep(s: State, actions: seq<Action>, t: State, a: Action, u: State)
    requires RunFrom(s, actions) == Some(t) && Enabled(t, a) && Do(t, a) == u
    ensures RunFrom(s, actions + [a]) == Some(u)
  {
    assert (actions + [a])[..|actions|] == actions;
  }

  lemma {:induction false} RunKeepsInvariant(s: State, actions: seq<Action>)
    requires Invariant(s) && RunFrom(s, actions).Some?
    ensures Invariant(RunFrom(s, actions).value)
    decreases |actions|
  {
    if actions != [] {
      var n := |actions| - 1;
      RunKeepsInvariant(s, actions[..n]);
      hide Invariant, Do, Enabled;
      StepKeepsInvariant(RunFrom(s, actions[..n]).value, actions[n]);
    }
  }

  // ----- what every interleaving keeps -----

  /** At most one scan is in progress, and a goroutine only ever clears its own scan; sending the
      result never blocks, although nobody may be listening. */
  lemma OneScanAtATime(actions: seq<Action>)
    requires Run(actions).Some?
    ensures var s := Run(actions).value;
            && (forall i, j :: 0 <= i < |s.scans| && 0 <= j < |s.scans| ==>
                  s.scans[i].pc == Scanning == s.scans[j].pc ==> i == j)
            && (forall i: nat :: At(s, i, Clearing) ==> s.active == Some(i))
            && (forall i: nat :: At(s, i, Sending) ==> Enabled(s, Send(i)))
  {
    RunKeepsInvariant(INIT, actions);
    var s := Run(actions).value;
    forall i: nat | At(s, i, Sending) ensures Enabled(s, Send(i)) {
      assert ScanIsSound(s.scans[i]);
    }
  }

  /** A caller that is answered gets the verdict of the scan it was given, whole; OK means that some
      attempt of that scan ended in a match after no-matches only. */
  lemma AnswerIsOfOwnScan(actions: seq<Action>, c: nat)
    requires Run(actions).Some?
    requires var s := Run(actions).value; c < |s.callers| && s.callers[c].got.Some?
    ensures var s := Run(actions).value;
            var i := s.callers[c].scan;
            && i < |s.scans| && s.scans[i].pc == Finished && s.callers[c].got.value == Result(s.scans[i].plan)
            && (s.callers[c].got.value == None ==>
                  exists k :: 1 <= k <= MAX_ATTEMPTS && NoMatches(s.scans[i].plan, k - 1)
                    && EndsWith(s.scans[i].plan, k, "verify-match"))
  {
    RunKeepsInvariant(INIT, actions);
    hide Run, NoMatches, EndsWith, Issued, OneActive;
    var s := Run(actions).value;
    assert CallerIsSound(s, c);
    var i := s.callers[c].scan;
    assert ScanIsSound(s.scans[i]);
    if Result(s.scans[i].plan) == None {
      RetryExactly(s.scans[i].plan);
    }
  }

  lemma StepKeepsReceiver(s: State, a: Action, i: nat)
    requires Invariant(s) && Enabled(s, a) && i < |s.scans| && s.scans[i].receiver.Some?
    ensures i < |Do(s, a).scans| && Do(s, a).scans[i].receiver == s.scans[i].receiver
  {
    hide OneActive, CallerIsSound, IsDelivered, Issued, Trace, Result;
    assert ScanIsSound(s.scans[i]);
  }

  /** A result that has been received stays where it is. */
  lemma {:induction false} ReceiverStays(s: State, more: seq<Action>, i: nat)
    requires Invariant(s) && RunFrom(s, more).Some? && i < |s.scans| && s.scans[i].receiver.Some?
    ensures var t := RunFrom(s, more).value; i < |t.scans| && t.scans[i].receiver == s.scans[i].receiver
    decreases |more|
  {
    if more != [] {
      hide Invariant, Do, Enabled;
      var n := |more| - 1;
      ReceiverStays(s, more[..n], i);
      RunKeepsInvariant(s, more[..n]);
      StepKeepsReceiver(RunFrom(s, more[..n]).value, more[n], i);
    }
  }

  ghost predicate OnlyCaller(s: State, i: nat) {
    forall c, d | 0 <= c < |s.callers| && 0 <= d < |s.callers| ::
      s.callers[c].scan == i && s.callers[d].scan == i ==> c == d
  }

  ghost predicate AllAnswered(s: State, i: nat) {
    forall c :: 0 <= c < |s.callers| && s.callers[c].scan == i ==> s.callers[c].got.Some?
  }

  /** The channel holds one result, whoever shares it. Once it has been received, in every continuation,
      all callers of the scan are answered if and only if there is only one: no other ever is. */
  lemma AllAnsweredExactly(actions: seq<Action>, more: seq<Action>, i: nat)
    requires Run(actions).Some? && RunFrom(Run(actions).value, more).Some?
    requires i < |Run(actions).value.scans| && Run(actions).value.scans[i].receiver.Some?
    ensures var t := RunFrom(Run(actions).value, more).value;
            && (AllAnswered(t, i) <==> OnlyCaller(t, i))
            && forall c :: 0 <= c < |t.callers| && t.callers[c].scan == i ==>
                 (t.callers[c].got.Some? <==> c == Run(actions).value.scans[i].receiver.value)
  {
    var s := Run(actions).value;
    RunKeepsInvariant(INIT, actions);
    ReceiverStays(s, more, i);
    RunKeepsInvariant(s, more);
    hide Run, RunFrom, OneActive, ScanIsSound, Issued;
    var t := RunFrom(s, more).value;
    assert IsDelivered(t, i);
    forall c | 0 <= c < |t.callers| && t.callers[c].scan == i
      ensures t.callers[c].got.Some? <==> c == s.scans[i].receiver.value
    {
      assert CallerIsSound(t, c);
    }
  }

  /** A scan shared by two callers, on a machine without a bus. */
  function Shared(pc: Pc, channel: Option<Option<Err>>, active: Option<nat>): State {
    State(active, [Scan(NO_BUS, 0, pc, channel, None)], [Caller(0, None), Caller(0, None)], [])
  }

  const NO_BUS: Plan := Schedule(true, None, false, false, false, [IDLE_ATTEMPT, IDLE_ATTEMPT, IDLE_ATTEMPT])

  lemma SharedSteps()
    ensures Do(Do(INIT, Verify(NO_BUS)), Verify(NO_BUS)) == Shared(Scanning, None, Some(0))
    ensures Trace(NO_BUS) == [] && Do(Shared(Scanning, None, Some(0)), Return(0)) == Shared(Clearing, None, Some(0))
    ensures Do(Shared(Clearing, None, Some(0)), Clear(0)) == Shared(Sending, None, None)
    ensures Do(Shared(Sending, None, None), Send(0)) == Shared(Finished, Some(Result(NO_BUS)), None)
  {}

  /** Two callers share a scan, the second one receives its result, and the first one is left waiting. */
  lemma SecondCallerStarvesFirst()
    ensures var s := Run([Verify(NO_BUS), Verify(NO_BUS), Return(0), Clear(0), Send(0), Receive(0, 1)]);
            && s.Some? && |s.value.scans| == 1 && s.value.scans[0].receiver == Some(1)
            && s.value.callers == [Caller(0, None), Caller(0, Some(Result(NO_BUS)))]
  {
    SharedSteps();
    var end := Do(Shared(Finished, Some(Result(NO_BUS)), None), Receive(0, 1));
    assert end.callers == [Caller(0, None), Caller(0, Some(Result(NO_BUS)))];
    assert RunFrom(INIT, []) == Some(INIT);
    hide RunFrom, Do, Trace, Result;
    var run := [Verify(NO_BUS), Verify(NO_BUS), Return(0), Clear(0), Send(0), Receive(0, 1)];
    assert [] + [run[0]] == run[..1] && run[..1] + [run[1]] == run[..2] && run[..2] + [run[2]] == run[..3];
    assert run[..3] + [run[3]] == run[..4] && run[..4] + [run[4]] == run[..5] && run[..5] + [run[5]] == run;
    OneStep(INIT, [], INIT, run[0], Do(INIT, run[0]));
    OneStep(INIT, run[..1], Do(INIT, run[0]), run[1], Shared(Scanning, None, Some(0)));
    OneStep(INIT, run[..2], Shared(Scanning, None, Some(0)), run[2], Shared(Clearing, None, Some(0)));
    OneStep(INIT, run[..3], Shared(Clearing, None, Some(0)), run[3], Shared(Sending, None, None));
    OneStep(INIT, run[..4], Shared(Sending, None, None), run[4], Shared(Finished, Some(Result(NO_BUS)), None));
    OneStep(INIT, run[..5], Shared(Finished, Some(Result(NO_BUS)), None), run[5], end);
  }

  // ----- the device over whole runs -----

  /** The device as seen over several scans: after a release it is free again. */
  function Session(p: Option<Phase>, calls: seq<Call>): Option<Phase>
    decreases |calls|
  {
    if calls == [] then p else
    var q := Session(p, calls[..|calls| - 1]);
    Advance(if q == Some(Released) then Some(Free) else q, calls[|calls| - 1])
  }

  lemma {:induction false} SessionAppend(p: Option<Phase>, a: seq<Call>, b: seq<Call>)
    ensures Session(p, a + b) == Session(Session(p, a), b)
    decreases |b|
  {
    if b == [] {
      assert a + b == a;
    } else {
      hide Advance;
      SessionAppend(p, a, b[..|b| - 1]);
      assert (a + b)[..|a + b| - 1] == a + b[..|b| - 1];
    }
  }

  /** A call that is in turn within one scan is in turn in a session that starts free. */
  lemma {:induction false} SessionFollowsTrack(calls: seq<Call>)
    requires Track(calls).Some?
    ensures Session(Some(Free), calls) == Track(calls)
    decreases |calls|
  {
    if calls != [] {
      SessionFollowsTrack(calls[..|calls| - 1]);
    }
  }

  lemma {:induction false} PrefixIsTracked(calls: seq<Call>, n: nat)
    requires n <= |calls| && Track(calls).Some?
    ensures Track(calls[..n]).Some?
    decreases |calls|
  {
    if n < |calls| {
      PrefixIsTracked(calls[..|calls| - 1], n);
      assert calls[..|calls| - 1][..n] == calls[..n];
    } else {
      assert calls[..n] == calls;
    }
  }

  /** After a release a session goes on as from the start. */
  lemma {:induction false} SessionRestarts(calls: seq<Call>)
    ensures calls != [] ==> Session(Some(Released), calls) == Session(Some(Free), calls)
    decreases |calls|
  {
    if |calls| > 1 {
      SessionRestarts(calls[..|calls| - 1]);
    }
  }

  /** Any part of one scan is in turn on a device that is free or released, and a whole one leaves
      it free or released. */
  lemma OneMoreScan(p: Option<Phase>, plan: Plan, n: nat)
    requires p in {Some(Free), Some(Released)} && n <= |Trace(plan)|
    ensures Session(p, Trace(plan)[..n]).Some?
    ensures n == |Trace(plan)| ==> Session(p, Trace(plan)[..n]) in {Some(Free), Some(Released)}
  {
    hide Trace, Session, Track;
    var calls := Trace(plan)[..n];
    CallDiscipline(plan);
    PrefixIsTracked(Trace(plan), n);
    SessionFollowsTrack(calls);
    SessionRestarts(calls);
    assert n == |Trace(plan)| ==> calls == Trace(plan);
    if calls == [] {
      assert Session(p, calls) == p by {
        SessionOfNothing(p);
      }
    }
  }

  lemma SessionOfNothing(p: Option<Phase>)
    ensures Session(p, []) == p
  {}

  lemma {:induction false} ScansTakeTurns(scans: seq<Scan>)
    requires forall i :: 0 <= i < |scans| ==> scans[i].made <= |Trace(scans[i].plan)|
    requires forall i :: 0 <= i < |scans| - 1 ==> scans[i].made == |Trace(scans[i].plan)|
    ensures Session(Some(Free), Issued(scans)).Some?
    ensures (scans == [] || scans[|scans| - 1].made == |Trace(scans[|scans| - 1].plan)|)
            ==> Session(Some(Free), Issued(scans)) in {Some(Free), Some(Released)}
    decreases |scans|
  {
    hide Trace, Session;
    if scans == [] {
      SessionOfNothing(Some(Free));
    } else {
      var n := |scans| - 1;
      ScansTakeTurns(scans[..n]);
      OneMoreScan(Session(Some(Free), Issued(scans[..n])), scans[n].plan, scans[n].made);
      SessionAppend(Some(Free), Issued(scans[..n]), Trace(scans[n].plan)[..scans[n].made]);
    }
  }

  /** Over every interleaving of callers and scans the device sees one scan after the other, each
      claiming, starting, stopping and releasing in turn, and nothing is left over while no scan is
      in progress. */
  lemma DeviceIsNeverShared(actions: seq<Action>)
    requires Run(actions).Some?
    ensures var s := Run(actions).value;
            && s.device == Issued(s.scans)
            && Session(Some(Free), s.device).Some?
            && (s.active == None ==> Session(Some(Free), s.device) in {Some(Free), Some(Released)})
  {
    RunKeepsInvariant(INIT, actions);
    hide Run, Session, Trace, Issued, Result;
    var s := Run(actions).value;
    forall i | 0 <= i < |s.scans| ensures s.scans[i].made <= |Trace(s.scans[i].plan)|
      ensures s.active != Some(i) ==> s.scans[i].made == |Trace(s.scans[i].plan)|
    {
      assert ScanIsSound(s.scans[i]);
    }
    ScansTakeTurns(s.scans);
  }
}
