/**
 The presence dialog of pinentry/pinentry.go as interleaved steps: callers of `ConfirmPresence`, one
 goroutine per prompt, and one short-lived goroutine per request for more time. A critical section
 or a channel hand-over is one step; timers fire whenever they like.
 */
module Pinentry {
  import opened Bytes

  datatype Result = Result(ok: bool, error: bool)

  /** Where the goroutine of a request is in `prompt`. */
  datatype Pc = Launching | Confirming | Deciding(confirmed: bool) | Sending(r: Result) | Clearing | Finished

  /** A request with what its own dialog was answered, who received its result, and how often its
      timer was reset. */
  datatype Request = Request(
    challenge: seq<byte>, application: seq<byte>, pc: Pc,
    answer: Option<bool>, sent: Option<(nat, Result)>, extensions: nat)

  /** A call of `ConfirmPresence`: refused, or holding the result channel of a request. */
  datatype Caller = Caller(challenge: seq<byte>, application: seq<byte>, attached: Option<nat>, got: Option<Result>,
      gone: bool)

  datatype Extender = Extender(request: nat, alive: bool)

  datatype State = State(active: Option<nat>, requests: seq<Request>, callers: seq<Caller>, extenders: seq<Extender>)

  const INIT := State(None, [], [], [])

  datatype Action =
    | Confirm(challenge: seq<byte>, application: seq<byte>)
    | Launched(request: nat, ok: bool)
    | Answered(request: nat, confirmed: bool)
    | DialogFailed(request: nat)
    | TakeAnswer(request: nat)
    | TimerFires(request: nat)
    | Extend(extender: nat)
    | ExtenderExpires(extender: nat)
    | Deliver(request: nat, caller: nat)
    | SendTimesOut(request: nat)
    | Clear(request: nat)
    | GiveUp(caller: nat)

  predicate At(s: State, i: nat) {
    i < |s.requests|
  }

  predicate Enabled(s: State, a: Action) {
    match a
    case Confirm(_, _) => true
    case Launched(i, _) => At(s, i) && s.requests[i].pc == Launching
    case Answered(i, _) => At(s, i) && s.requests[i].pc == Confirming
    case DialogFailed(i) => At(s, i) && s.requests[i].pc == Confirming
    case TakeAnswer(i) => At(s, i) && s.requests[i].pc.Deciding?
    case TimerFires(i) => At(s, i) && s.requests[i].pc.Deciding?
    case Extend(e) => e < |s.extenders| && s.extenders[e].alive && At(s, s.extenders[e].request)
                      && s.requests[s.extenders[e].request].pc.Deciding?
    case ExtenderExpires(e) => e < |s.extenders| && s.extenders[e].alive
    case Deliver(i, c) => At(s, i) && s.requests[i].pc.Sending? && c < |s.callers|
                          && s.callers[c].attached == Some(i) && s.callers[c].got == None && !s.callers[c].gone
    case SendTimesOut(i) => At(s, i) && s.requests[i].pc.Sending?
    case Clear(i) => At(s, i) && s.requests[i].pc == Clearing
    case GiveUp(c) => c < |s.callers| && !s.callers[c].gone
  }

  function Goto(s: State, i: nat, pc: Pc): State
    requires At(s, i)
  {
    s.(requests := s.requests[i := s.requests[i].(pc := pc)])
  }

  predicate Bounded(s: State) {
    s.active.Some? ==> At(s, s.active.value)
  }

  function Do(s: State, a: Action): (t: State)
    requires Enabled(s, a) && Bounded(s)
    ensures Bounded(t)
  {
    match a
    case Confirm(ch, app) =>
      if s.active.None? then
        var n := |s.requests|;
        State(Some(n), s.requests + [Request(ch, app, Launching, None, None, 0)],
              s.callers + [Caller(ch, app, Some(n), None, false)], s.extenders)
      else
        var r := s.requests[s.active.value];
        if ch != r.challenge || app != r.application then
          s.(callers := s.callers + [Caller(ch, app, None, None, false)])
        else
          s.(callers := s.callers + [Caller(ch, app, s.active, None, false)],
             extenders := s.extenders + [Extender(s.active.value, true)])
    case Launched(i, ok) => Goto(s, i, if ok then Confirming else Sending(Result(false, true)))
    case Answered(i, b) => s.(requests := s.requests[i := s.requests[i].(pc := Deciding(b), answer := Some(b))])
    case DialogFailed(i) => Goto(s, i, Sending(Result(false, true)))
    case TakeAnswer(i) => Goto(s, i, Sending(Result(s.requests[i].pc.confirmed, false)))
    case TimerFires(i) => Goto(s, i, Sending(Result(false, true)))
    case Extend(e) =>
      var i := s.extenders[e].request;
      s.(requests := s.requests[i := s.requests[i].(extensions := s.requests[i].extensions + 1)],
         extenders := s.extenders[e := s.extenders[e].(alive := false)])
    case ExtenderExpires(e) => s.(extenders := s.extenders[e := s.extenders[e].(alive := false)])
    case Deliver(i, c) =>
      var r := s.requests[i].pc.r;
      s.(requests := s.requests[i := s.requests[i].(pc := Clearing, sent := Some((c, r)))],
         callers := s.callers[c := s.callers[c].(got := Some(r))])
    case SendTimesOut(i) => Goto(s, i, Clearing)
    case Clear(i) => Goto(s, i, Finished).(active := None)
    case GiveUp(c) => s.(callers := s.callers[c := s.callers[c].(gone := true)])
  }

  /** The shared object with the goroutines it started; the methods are its critical sections. */
  class Pinentry {
    var activeRequest: Option<nat>
    var requests: seq<Request>
    var callers: seq<Caller>
    var extenders: seq<Extender>

    constructor ()
      ensures View() == INIT
    {
      activeRequest, requests, callers, extenders := None, [], [], [];
    }

    ghost function View(): State reads this {
      State(activeRequest, requests, callers, extenders)
    }

    /** The channel that is returned is named by its request; None is the error. */
    method ConfirmPresence(challenge: seq<byte>, application: seq<byte>) returns (pendingResult: Option<nat>)
      requires activeRequest.Some? ==> activeRequest.value < |requests|
      modifies this
      ensures View() == Do(old(View()), Confirm(challenge, application))
      ensures pendingResult == callers[|old(callers)|].attached
    {
      if activeRequest.Some? {
        var active := requests[activeRequest.value];
        if challenge != active.challenge || application != active.application {
          callers := callers + [Caller(challenge, application, None, None, false)];
          return None;
        }
        extenders := extenders + [Extender(activeRequest.value, true)];
        pendingResult := activeRequest;
      } else {
        activeRequest := Some(|requests|);
        requests := requests + [Request(challenge, application, Launching, None, None, 0)];
        pendingResult := activeRequest;
      }
      callers := callers + [Caller(challenge, application, pendingResult, None, false)];
    }

    /** The end of `sendResult`, which sets the field to nil without looking at it. */
    method ClearActive(request: nat)
      requires activeRequest.Some? ==> activeRequest.value < |requests|
      requires Enabled(View(), Clear(request))
      modifies this
      ensures View() == Do(old(View()), Clear(request))
    {
      requests := requests[request := requests[request].(pc := Finished)];
      activeRequest := None;
    }
  }

  // ----- invariant -----

  /** The field names the one request whose goroutine has not cleared it yet. */
  ghost predicate OneActive(s: State) {
    && (s.active.Some? ==> At(s, s.active.value))
    && forall i :: 0 <= i < |s.requests| ==> (s.requests[i].pc != Finished <==> s.active == Some(i))
  }

  /** A result without an error is the user's answer, and one with an error is no OK. */
  predicate Tells(x: Result, answer: Option<bool>) {
    if x.error then !x.ok else answer == Some(x.ok)
  }

  /** What a goroutine holds comes from its own dialog. */
  predicate Honest(r: Request) {
    match r.pc
    case Launching => r.answer == None && r.sent == None
    case Confirming => r.answer == None && r.sent == None
    case Deciding(b) => r.answer == Some(b) && r.sent == None
    case Sending(x) => Tells(x, r.answer) && r.sent == None
    case _ => r.sent.Some? ==> Tells(r.sent.value.1, r.answer)
  }

  /** What a caller holds is what its request sent to it, and its request is for its own pair. */
  ghost predicate Served(s: State, c: nat)
    requires c < |s.callers|
  {
    var x := s.callers[c];
    && (x.attached.Some? ==> At(s, x.attached.value)
                             && s.requests[x.attached.value].challenge == x.challenge
                             && s.requests[x.attached.value].application == x.application)
    && (x.got.Some? ==> x.attached.Some? && s.requests[x.attached.value].sent == Some((c, x.got.value)))
  }

  /** The caller that a request sent its result to has it. */
  ghost predicate IsDelivered(s: State, i: nat)
    requires At(s, i)
  {
    s.requests[i].sent.Some? ==>
      var (c, r) := s.requests[i].sent.value;
      c < |s.callers| && s.callers[c].attached == Some(i) && s.callers[c].got == Some(r)
  }

  ghost predicate Invariant(s: State) {
    && OneActive(s)
    && (forall i :: 0 <= i < |s.requests| ==> Honest(s.requests[i]))
    && (forall i :: 0 <= i < |s.requests| ==> IsDelivered(s, i))
    && (forall c :: 0 <= c < |s.callers| ==> Served(s, c))
    && (forall e :: 0 <= e < |s.extenders| ==> At(s, s.extenders[e].request))
  }

  lemma StepKeepsOneActive(s: State, a: Action)
    requires Invariant(s) && Enabled(s, a)
    ensures OneActive(Do(s, a))
  {
    hide Honest, Served;
  }

  lemma StepKeepsServed(s: State, a: Action, c: nat)
    requires Invariant(s) && Enabled(s, a) && c < |Do(s, a).callers|
    ensures Served(Do(s, a), c)
  {
    hide OneActive, IsDelivered;
    if c < |s.callers| {
      assert Served(s, c);
    }
  }

  lemma StepKeepsHonest(s: State, a: Action, i: nat)
    requires Invariant(s) && Enabled(s, a) && At(Do(s, a), i)
    ensures Honest(Do(s, a).requests[i])
  {
    hide OneActive, Served, IsDelivered;
    if At(s, i) {
      assert Honest(s.requests[i]);
    }
  }

  lemma StepKeepsExtenders(s: State, a: Action)
    requires Invariant(s) && Enabled(s, a)
    ensures var t := Do(s, a); forall e :: 0 <= e < |t.extenders| ==> At(t, t.extenders[e].request)
  {
    hide OneActive, Honest, Served, IsDelivered;
  }

  lemma StepKeepsDelivered(s: State, a: Action, i: nat)
    requires Invariant(s) && Enabled(s, a) && At(Do(s, a), i)
    ensures IsDelivered(Do(s, a), i)
  {
    hide Served;
    if At(s, i) {
      assert IsDelivered(s, i) && Honest(s.requests[i]);
    }
  }

  lemma StepKeepsInvariant(s: State, a: Action)
    requires Invariant(s) && Enabled(s, a)
    ensures Invariant(Do(s, a))
  {
    StepKeepsOneActive(s, a);
    StepKeepsExtenders(s, a);
    hide OneActive, Honest, Served, IsDelivered, Do;
    var t := Do(s, a);
    forall c | 0 <= c < |t.callers| ensures Served(t, c) {
      StepKeepsServed(s, a, c);
    }
    forall i | 0 <= i < |t.requests| ensures Honest(t.requests[i]) && IsDelivered(t, i) {
      StepKeepsHonest(s, a, i);
      StepKeepsDelivered(s, a, i);
    }
  }

  // ----- runs -----

  /** The state a schedule leads to from `s`, if each of its steps was enabled. */
  function RunFrom(s: State, actions: seq<Action>): (r: Option<State>)
    requires Bounded(s)
    ensures r.Some? ==> Bounded(r.value)
    decreases |actions|
  {
    if actions == [] then Some(s) else
    var t := RunFrom(s, actions[..|actions| - 1]);
    var a := actions[|actions| - 1];
    if t.Some? && Enabled(t.value, a) then Some(Do(t.value, a)) else None
  }

  function Run(actions: seq<Action>): (r: Option<State>)
    ensures r.Some? ==> Bounded(r.value)
  {
    RunFrom(INIT, actions)
  }

  lemma RunFromSnoc(s: State, actions: seq<Action>, a: Action)
    requires Bounded(s)
    ensures var t := RunFrom(s, actions);
            RunFrom(s, actions + [a]) == if t.Some? && Enabled(t.value, a) then Some(Do(t.value, a)) else None
  {
    assert (actions + [a])[..|actions|] == actions;
  }

  lemma {:induction false} RunKeepsInvariant(s: State, actions: seq<Action>)
    requires Invariant(s) && RunFrom(s, actions).Some?
    ensures Invariant(RunFrom(s, actions).value)
    decreases |actions|
  {
    if actions != [] {
      RunKeepsInvariant(s, actions[..|actions| - 1]);
      StepKeepsInvariant(RunFrom(s, actions[..|actions| - 1]).value, actions[|actions| - 1]);
    }
  }

  lemma InvariantHolds(actions: seq<Action>)
    requires Run(actions).Some?
    ensures Invariant(Run(actions).value)
  {
    RunKeepsInvariant(INIT, actions);
  }

  // ----- what every interleaving keeps -----

  /** At most one prompt goroutine is alive and at most one dialog is open, and the unconditional
      clear of a goroutine only ever clears that goroutine's own request. */
  lemma OneDialogAndOwnClear(actions: seq<Action>)
    requires Run(actions).Some?
    ensures var s := Run(actions).value;
            && (forall i, j :: 0 <= i < |s.requests| && 0 <= j < |s.requests| && Alive(s, i) && Alive(s, j) ==> i == j)
            && (forall i: nat :: Enabled(s, Clear(i)) ==> s.active == Some(i))
            && (s.active == None <==> forall i :: 0 <= i < |s.requests| ==> !Alive(s, i))
  {
    InvariantHolds(actions);
    var s := Run(actions).value;
    assert s.active.Some? ==> Alive(s, s.active.value);
  }

  predicate Alive(s: State, i: nat)
    requires At(s, i)
  {
    s.requests[i].pc != Finished
  }

  /** A caller that receives OK receives it from a dialog opened for its own pair which the user
      accepted, one that receives a refusal from a dialog which the user refused, and no other caller
      receives anything from that request. */
  lemma OkIsForOwnPair(actions: seq<Action>, c: nat)
    requires Run(actions).Some?
    requires var s := Run(actions).value; c < |s.callers| && s.callers[c].got.Some?
    ensures var s := Run(actions).value;
            var x := s.callers[c];
            && x.attached.Some? && At(s, x.attached.value)
            && var r := s.requests[x.attached.value];
            && r.challenge == x.challenge && r.application == x.application
            && (x.got.value.ok ==> r.answer == Some(true))
            && (!x.got.value.ok && !x.got.value.error ==> r.answer == Some(false))
            && (forall d :: 0 <= d < |s.callers| && d != c ==>
                  s.callers[d].attached == x.attached ==> s.callers[d].got == None)
  {
    InvariantHolds(actions);
    var s := Run(actions).value;
    assert Served(s, c);
    assert Honest(s.requests[s.callers[c].attached.value]);
    forall d | 0 <= d < |s.callers| && d != c && s.callers[d].attached == s.callers[c].attached
      ensures s.callers[d].got == None
    {
      assert Served(s, d);
    }
  }

  /** A request for more time reaches the active request or nobody: once the request it was made for
      is cleared it can only expire, whatever requests follow. */
  lemma ExtendersStayWithTheirRequest(actions: seq<Action>, e: nat)
    requires Run(actions).Some? && Enabled(Run(actions).value, Extend(e))
    ensures var s := Run(actions).value;
            var i := s.extenders[e].request;
            && s.active == Some(i)
            && forall j :: 0 <= j < |s.requests| && j != i ==> Do(s, Extend(e)).requests[j] == s.requests[j]
  {
    InvariantHolds(actions);
  }

  // ----- who is answered -----

  lemma StepKeepsDelivery(s: State, a: Action, i: nat)
    requires Invariant(s) && Enabled(s, a) && At(s, i) && s.requests[i].sent.Some?
    ensures At(Do(s, a), i) && Do(s, a).requests[i].sent == s.requests[i].sent
  {
    hide OneActive, Served, IsDelivered;
    assert Honest(s.requests[i]);
  }

  /** A result that has been received stays where it is. */
  lemma {:induction false} DeliveryStays(s: State, more: seq<Action>, i: nat)
    requires Invariant(s) && RunFrom(s, more).Some? && At(s, i) && s.requests[i].sent.Some?
    ensures var t := RunFrom(s, more).value; At(t, i) && t.requests[i].sent == s.requests[i].sent
    decreases |more|
  {
    if more != [] {
      var n := |more| - 1;
      hide Invariant, Do, Enabled;
      DeliveryStays(s, more[..n], i);
      RunKeepsInvariant(s, more[..n]);
      StepKeepsDelivery(RunFrom(s, more[..n]).value, more[n], i);
    }
  }

  ghost predicate OnlyCaller(s: State, i: nat) {
    forall c, d | 0 <= c < |s.callers| && 0 <= d < |s.callers| ::
      s.callers[c].attached == Some(i) && s.callers[d].attached == Some(i) ==> c == d
  }

  ghost predicate AllAnswered(s: State, i: nat) {
    forall c :: 0 <= c < |s.callers| && s.callers[c].attached == Some(i) ==> s.callers[c].got.Some?
  }

  /** The callers that share a dialog share one result. After it has been received, in every
      continuation, all of them are answered if and only if there is only one: no other ever is. */
  lemma AllAnsweredExactly(actions: seq<Action>, more: seq<Action>, i: nat)
    requires Run(actions).Some? && RunFrom(Run(actions).value, more).Some?
    requires At(Run(actions).value, i) && Run(actions).value.requests[i].sent.Some?
    ensures var t := RunFrom(Run(actions).value, more).value;
            && (AllAnswered(t, i) <==> OnlyCaller(t, i))
            && forall c :: 0 <= c < |t.callers| && t.callers[c].attached == Some(i) ==>
                 (t.callers[c].got.Some? <==> c == Run(actions).value.requests[i].sent.value.0)
  {
    var s := Run(actions).value;
    InvariantHolds(actions);
    DeliveryStays(s, more, i);
    RunKeepsInvariant(s, more);
    hide Run, RunFrom, OneActive, Honest;
    var t := RunFrom(s, more).value;
    assert IsDelivered(t, i);
    forall c | 0 <= c < |t.callers| && t.callers[c].attached == Some(i)
      ensures t.callers[c].got.Some? <==> c == s.requests[i].sent.value.0
    {
      assert Served(t, c);
    }
  }

  /** The state of one request, for a caller that opened it and, if `joined`, one that tried again. */
  function Shared(challenge: seq<byte>, application: seq<byte>, pc: Pc, answer: Option<bool>, joined: bool): State {
    var first := Caller(challenge, application, Some(0), None, false);
    State(Some(0), [Request(challenge, application, pc, answer, None, 0)],
          if joined then [first, first] else [first], if joined then [Extender(0, true)] else [])
  }

  lemma SharedSteps(challenge: seq<byte>, application: seq<byte>)
    ensures var ask := Confirm(challenge, application);
            var at := (pc, answer, joined) => Shared(challenge, application, pc, answer, joined);
            && Do(INIT, ask) == at(Launching, None, false)
            && Do(at(Launching, None, false), ask) == at(Launching, None, true)
            && Do(at(Launching, None, true), Launched(0, true)) == at(Confirming, None, true)
            && Do(at(Confirming, None, true), Answered(0, true)) == at(Deciding(true), Some(true), true)
            && Do(at(Deciding(true), Some(true), true), TakeAnswer(0))
              == at(Sending(Result(true, false)), Some(true), true)
  {}

  /** A browser that retries while the dialog is open: its second call gets the user's OK, and the first
      one never gets an answer. */
  lemma RetryStarvesFirstCall(challenge: seq<byte>, application: seq<byte>)
    ensures var s := Run([Confirm(challenge, application), Confirm(challenge, application),
                          Launched(0, true), Answered(0, true), TakeAnswer(0), Deliver(0, 1)]);
            && s.Some? && |s.value.callers| == 2 && At(s.value, 0) && s.value.requests[0].sent.Some?
            && s.value.callers[1] == Caller(challenge, application, Some(0), Some(Result(true, false)), false)
            && s.value.callers[0] == Caller(challenge, application, Some(0), None, false)
  {
    var ask := Confirm(challenge, application);
    var at := (pc, answer, joined) => Shared(challenge, application, pc, answer, joined);
    SharedSteps(challenge, application);
    assert RunFrom(INIT, []) == Some(INIT);
    var last := at(Sending(Result(true, false)), Some(true), true);
    var end := Do(last, Deliver(0, 1));
    assert end.callers[0] == last.callers[0] && end.callers[1] == last.callers[1].(got := Some(Result(true, false)));
    hide RunFrom, Do;
    var run := [ask, ask, Launched(0, true), Answered(0, true), TakeAnswer(0), Deliver(0, 1)];
    assert [] + [ask] == run[..1] && run[..1] + [ask] == run[..2] && run[..2] + [run[2]] == run[..3];
    assert run[..3] + [run[3]] == run[..4] && run[..4] + [run[4]] == run[..5] && run[..5] + [run[5]] == run;
    OneStep(INIT, [], INIT, ask, at(Launching, None, false));
    OneStep(INIT, run[..1], at(Launching, None, false), ask, at(Launching, None, true));
    OneStep(INIT, run[..2], at(Launching, None, true), run[2], at(Confirming, None, true));
    OneStep(INIT, run[..3], at(Confirming, None, true), run[3], at(Deciding(true), Some(true), true));
    OneStep(INIT, run[..4], at(Deciding(true), Some(true), true), run[4], last);
    OneStep(INIT, run[..5], last, run[5], end);
  }

  lemma OneStep(s: State, actions: seq<Action>, t: State, a: Action, u: State)
    requires Bounded(s) && RunFrom(s, actions) == Some(t) && Enabled(t, a) && Do(t, a) == u
    ensures RunFrom(s, actions + [a]) == Some(u)
  {
    RunFromSnoc(s, actions, a);
  }

  // ----- when the dialog is released -----

  /** The steps that are up to the pinentry process: it starts, it is answered, or it goes away. */
  predicate OfProcess(a: Action) {
    a.Launched? || a.Answered? || a.DialogFailed?
  }

  ghost predicate WithoutProcess(actions: seq<Action>) {
    forall i :: 0 <= i < |actions| ==> !OfProcess(actions[i])
  }

  /** The pinentry process has returned. */
  predicate PastDialog(pc: Pc) {
    !pc.Launching? && !pc.Confirming?
  }

  /** A step of the goroutine of this request after the dialog. */
  predicate IsStepOf(a: Action, request: nat) {
    match a
    case TakeAnswer(i) => i == request
    case TimerFires(i) => i == request
    case Deliver(i, _) => i == request
    case SendTimesOut(i) => i == request
    case Clear(i) => i == request
    case _ => false
  }

  function Steps(actions: seq<Action>, request: nat): nat
    decreases |actions|
  {
    if actions == [] then 0
    else Steps(actions[..|actions| - 1], request) + if IsStepOf(actions[|actions| - 1], request) then 1 else 0
  }

  /** How many steps a goroutine past the dialog still takes. */
  function Distance(pc: Pc): nat
    requires PastDialog(pc)
  {
    match pc
    case Deciding(_) => 3
    case Sending(_) => 2
    case Clearing => 1
    case Finished => 0
  }

  lemma StepTowardsRelease(s: State, a: Action, i: nat)
    requires Invariant(s) && Enabled(s, a) && At(s, i) && PastDialog(s.requests[i].pc)
    ensures var t := Do(s, a);
            && At(t, i) && PastDialog(t.requests[i].pc)
            && Distance(t.requests[i].pc) + (if IsStepOf(a, i) then 1 else 0) == Distance(s.requests[i].pc)
  {
    hide Honest, Served, IsDelivered;
  }

  /** A goroutine past the dialog can always go on without any caller. */
  lemma CanGoOn(s: State, i: nat)
    requires At(s, i) && PastDialog(s.requests[i].pc) && s.requests[i].pc != Finished
    ensures exists a :: IsStepOf(a, i) && !a.Deliver? && Enabled(s, a)
  {
    var pc := s.requests[i].pc;
    var a := if pc.Deciding? then TakeAnswer(i) else if pc.Sending? then SendTimesOut(i) else Clear(i);
    assert IsStepOf(a, i) && !a.Deliver? && Enabled(s, a);
  }

  /** Once the pinentry process has returned, whatever anyone does, the goroutine has at most three
      steps left, can always take the next one, and has released the dialog exactly when it has taken
      them. */
  lemma {:induction false} ReleasedAfterOwnSteps(s: State, more: seq<Action>, i: nat)
    requires Invariant(s) && RunFrom(s, more).Some? && At(s, i) && PastDialog(s.requests[i].pc)
    ensures var t := RunFrom(s, more).value;
            && At(t, i) && PastDialog(t.requests[i].pc)
            && Steps(more, i) + Distance(t.requests[i].pc) == Distance(s.requests[i].pc) <= 3
            && (t.requests[i].pc == Finished <==> Steps(more, i) == Distance(s.requests[i].pc))
            && (t.requests[i].pc != Finished ==> exists a :: IsStepOf(a, i) && !a.Deliver? && Enabled(t, a))
    decreases |more|
  {
    if more != [] {
      hide Do, Enabled, Invariant;
      var n := |more| - 1;
      ReleasedAfterOwnSteps(s, more[..n], i);
      RunKeepsInvariant(s, more[..n]);
      StepTowardsRelease(RunFrom(s, more[..n]).value, more[n], i);
    }
    var t := RunFrom(s, more).value;
    if t.requests[i].pc != Finished {
      CanGoOn(t, i);
    }
  }

  lemma StepHolds(s: State, a: Action, i: nat)
    requires Invariant(s) && Enabled(s, a) && !OfProcess(a) && s.active == Some(i) && !PastDialog(s.requests[i].pc)
    ensures var t := Do(s, a); t.active == Some(i) && At(t, i) && t.requests[i].pc == s.requests[i].pc
  {
    hide Served, Honest, IsDelivered;
  }

  /** Before that nothing but the pinentry process moves it, and there is no time limit: the request
      stays active whatever callers, extenders and timers do. */
  lemma {:induction false} HeldByDialog(s: State, more: seq<Action>, i: nat)
    requires Invariant(s) && RunFrom(s, more).Some? && WithoutProcess(more)
    requires s.active == Some(i) && !PastDialog(s.requests[i].pc)
    ensures var t := RunFrom(s, more).value;
            t.active == Some(i) && At(t, i) && t.requests[i].pc == s.requests[i].pc
    decreases |more|
  {
    if more != [] {
      hide Invariant, Do, Enabled, PastDialog;
      var n := |more| - 1;
      HeldByDialog(s, more[..n], i);
      RunKeepsInvariant(s, more[..n]);
      StepHolds(RunFrom(s, more[..n]).value, more[n], i);
    }
  }

  /** In every reachable state with an active request the program can release the dialog without the
      pinentry process if and only if that process has returned. */
  lemma DialogIsReleased(actions: seq<Action>)
    requires Run(actions).Some? && Run(actions).value.active.Some?
    ensures var s := Run(actions).value;
            (exists more :: WithoutProcess(more) && RunFrom(s, more).Some? && RunFrom(s, more).value.active == None)
            <==> PastDialog(s.requests[s.active.value].pc)
  {
    InvariantHolds(actions);
    var s := Run(actions).value;
    var i := s.active.value;
    if PastDialog(s.requests[i].pc) {
      assert RunFrom(s, []) == Some(s);
      var more := Release(s, [], s, i);
      assert WithoutProcess(more) && RunFrom(s, more).Some? && RunFrom(s, more).value.active == None;
    } else {
      forall more | WithoutProcess(more) && RunFrom(s, more).Some? ensures RunFrom(s, more).value.active != None {
        HeldByDialog(s, more, i);
      }
    }
  }

  /** The goroutine alone, from a state that `before` has led to. */
  lemma {:induction false} Release(start: State, before: seq<Action>, s: State, i: nat) returns (more: seq<Action>)
    requires Bounded(start) && RunFrom(start, before) == Some(s) && WithoutProcess(before)
    requires Invariant(s) && s.active == Some(i) && PastDialog(s.requests[i].pc)
    ensures WithoutProcess(more) && RunFrom(start, more).Some? && RunFrom(start, more).value.active == None
    decreases Distance(s.requests[i].pc)
  {
    assert s.requests[i].pc != Finished;
    var pc := s.requests[i].pc;
    var a := if pc.Deciding? then TakeAnswer(i) else if pc.Sending? then SendTimesOut(i) else Clear(i);
    var t := Do(s, a);
    StepKeepsInvariant(s, a);
    hide RunFrom, Invariant;
    OneStep(start, before, s, a, t);
    if pc.Clearing? {
      more := before + [a];
    } else {
      more := Release(start, before + [a], t, i);
    }
  }
}
