/** The auto-accept guard of incoming calls, reached from two event handlers. */
module AutoAccept {

  type CallId = string

  /** `accepting` counts accepts not yet settled, `accepted` those that succeeded since the call last ended. */
  datatype State = State(attempted: set<CallId>, accepting: multiset<CallId>, accepted: multiset<CallId>)

  datatype Event =
    | Incoming(call: CallId, canAccept: bool)
    | StateChanged(call: CallId, canAccept: bool)
    | AcceptSucceeded(call: CallId)
    | AcceptFailed(call: CallId)
    | Ended(call: CallId)

  function TryAccept(s: State, enabled: bool, call: CallId, canAccept: bool): (t: State) {
    if !enabled || !canAccept || call in s.attempted then s
    else s.(attempted := s.attempted + {call}, accepting := s.accepting + multiset{call})
  }

  function Step(s: State, enabled: bool, e: Event): (t: State) {
    match e
    case Incoming(call, canAccept) => if !enabled || !canAccept then s else TryAccept(s, enabled, call, canAccept)
    case StateChanged(call, canAccept) => TryAccept(s, enabled, call, canAccept)
    case AcceptSucceeded(call) =>
      if s.accepting[call] == 0 then s
      else s.(accepting := s.accepting - multiset{call}, accepted := s.accepted + multiset{call})
    case AcceptFailed(call) =>
      if s.accepting[call] == 0 then s
      else s.(accepting := s.accepting - multiset{call}, attempted := s.attempted - {call})
    case Ended(call) => s.(attempted := s.attempted - {call}, accepted := s.accepted[call := 0])
  }

  const START := State({}, multiset{}, multiset{})

  function Run(enabled: bool, es: seq<Event>): (t: State) {
    if es == [] then START else Step(Run(enabled, es[..|es| - 1]), enabled, es[|es| - 1])
  }

  /** The handlers' shared set, and the accepts they have started. */
  class AutoAcceptor {
    const enabled: bool
    var autoAcceptAttempted: set<CallId>
    ghost var accepting: multiset<CallId>
    ghost var accepted: multiset<CallId>

    ghost function Snapshot(): (s: State)
      reads this
    {
      State(autoAcceptAttempted, accepting, accepted)
    }

    constructor (enabled: bool)
      ensures this.enabled == enabled && Snapshot() == START
    {
      this.enabled := enabled;
      autoAcceptAttempted, accepting, accepted := {}, multiset{}, multiset{};
    }

    /** Runs up to the call of `acceptCall`; `started` tells whether it gets there. */
    method TryAutoAccept(call: CallId, canAccept: bool) returns (started: bool)
      modifies this
      ensures Snapshot() == TryAccept(old(Snapshot()), enabled, call, canAccept)
      ensures started <==> accepting[call] == old(accepting[call]) + 1
    {
      if !enabled || !canAccept || call in autoAcceptAttempted {
        return false;
      }
      autoAcceptAttempted := autoAcceptAttempted + {call};
      accepting := accepting + multiset{call};
      return true;
    }

    method OnIncoming(call: CallId, canAccept: bool)
      modifies this
      ensures Snapshot() == Step(old(Snapshot()), enabled, Incoming(call, canAccept))
    {
      if !enabled {
        return;
      }
      if !canAccept {
        return;
      }
      var _ := TryAutoAccept(call, canAccept);
    }

    method OnState(call: CallId, canAccept: bool)
      modifies this
      ensures Snapshot() == Step(old(Snapshot()), enabled, StateChanged(call, canAccept))
    {
      var _ := TryAutoAccept(call, canAccept);
    }

    /** The continuation of a started accept. */
    method AcceptSettled(call: CallId, ok: bool)
      requires accepting[call] > 0
      modifies this
      ensures Snapshot() == Step(old(Snapshot()), enabled, if ok then AcceptSucceeded(call) else AcceptFailed(call))
    {
      accepting := accepting - multiset{call};
      if ok {
        accepted := accepted + multiset{call};
      } else {
        autoAcceptAttempted := autoAcceptAttempted - {call};
      }
    }

    method OnEnded(call: CallId)
      modifies this
      ensures Snapshot() == Step(old(Snapshot()), enabled, Ended(call))
    {
      autoAcceptAttempted := autoAcceptAttempted - {call};
      accepted := accepted[call := 0];
    }
  }

  /** `call` never ends while one of its accepts is still outstanding. */
  predicate EndsSettled(enabled: bool, es: seq<Event>, call: CallId) {
    forall n | 0 <= n < |es| && es[n] == Ended(call) :: Run(enabled, es[..n]).accepting[call] == 0
  }

  lemma {:induction false} EndsSettledFront(enabled: bool, es: seq<Event>, call: CallId)
    requires es != [] && EndsSettled(enabled, es, call)
    ensures EndsSettled(enabled, es[..|es| - 1], call)
    ensures es[|es| - 1] == Ended(call) ==> Run(enabled, es[..|es| - 1]).accepting[call] == 0
  {
    var front := es[..|es| - 1];
    forall n | 0 <= n < |front| && front[n] == Ended(call) ensures Run(enabled, front[..n]).accepting[call] == 0 {
      assert front[..n] == es[..n];
      assert es[n] == Ended(call);
    }
  }

  /** The call has at most one accept outstanding or done, and the shared set says exactly whether it has one. */
  predicate Accounted(s: State, call: CallId) {
    s.accepting[call] + s.accepted[call] == if call in s.attempted then 1 else 0
  }

  lemma StepAccounts(s: State, enabled: bool, e: Event, call: CallId)
    requires Accounted(s, call) && (e == Ended(call) ==> s.accepting[call] == 0)
    ensures Accounted(Step(s, enabled, e), call)
  {
    if e.call != call {
      assert Step(s, enabled, e).accepting[call] == s.accepting[call];
    }
  }

  /**
   * In every interleaving of both handlers and the outcomes, a call has at most
   * one accept outstanding or done, and the shared set says exactly whether it
   * has one; so none starts beside another or after a success.
   */
  lemma {:induction false} AtMostOneAccept(enabled: bool, es: seq<Event>, call: CallId)
    requires EndsSettled(enabled, es, call)
    ensures Accounted(Run(enabled, es), call)
    decreases |es|
  {
    hide Accounted, Step, EndsSettled;
    if es == [] {
      NothingAccounted(call);
    } else {
      EndsSettledFront(enabled, es, call);
      AtMostOneAccept(enabled, es[..|es| - 1], call);
      StepAccounts(Run(enabled, es[..|es| - 1]), enabled, es[|es| - 1], call);
    }
  }

  /** A call that has not ended meets the condition whatever else happens. */
  lemma LiveCallsEndSettled(enabled: bool, es: seq<Event>, call: CallId)
    requires Ended(call) !in es
    ensures EndsSettled(enabled, es, call)
    ensures Run(enabled, es).accepting[call] <= 1
    ensures Run(enabled, es).accepted[call] > 0 ==> Run(enabled, es).accepting[call] == 0
  {
    assert EndsSettled(enabled, es, call);
    AtMostOneAccept(enabled, es, call);
  }

  lemma NothingAccounted(call: CallId)
    ensures Accounted(START, call)
  {
  }

  lemma RunStep(enabled: bool, es: seq<Event>, e: Event)
    ensures Run(enabled, es + [e]) == Step(Run(enabled, es), enabled, e)
  {
    assert (es + [e])[..|es|] == es;
  }

  /** From an end that found nothing outstanding, the call is counted afresh. */
  lemma {:induction false} AfterCleanEnd(es: seq<Event>, call: CallId, more: seq<Event>)
    requires Run(true, es).accepting[call] == 0 && Ended(call) !in more
    ensures Accounted(Run(true, es + [Ended(call)] + more), call)
    decreases |more|
  {
    var start := es + [Ended(call)];
    if more == [] {
      assert start + more == start;
      RunStep(true, es, Ended(call));
    } else {
      var front, e := more[..|more| - 1], more[|more| - 1];
      assert more == front + [e] && start + more == start + front + [e];
      hide Run, Accounted, Step;
      AfterCleanEnd(es, call, front);
      RunStep(true, start + front, e);
      StepAccounts(Run(true, start + front), true, e, call);
    }
  }

  /**
   * Exactly when a call may come in again: until it ends once more it never
   * has two accepts outstanding, whatever happens, if and only if none was
   * outstanding at its end.
   */
  lemma EndWithOutstandingAccept(es: seq<Event>, call: CallId)
    ensures Run(true, es).accepting[call] == 0
       <==> forall more | Ended(call) !in more :: Run(true, es + [Ended(call)] + more).accepting[call] <= 1
  {
    if Run(true, es).accepting[call] == 0 {
      forall more | Ended(call) !in more ensures Run(true, es + [Ended(call)] + more).accepting[call] <= 1 {
        AfterCleanEnd(es, call, more);
      }
    } else {
      var more := [Incoming(call, true)];
      RunStep(true, es, Ended(call));
      RunStep(true, es + [Ended(call)], Incoming(call, true));
      assert Ended(call) !in more && Run(true, es + [Ended(call)] + more).accepting[call] > 1;
    }
  }

  /** Such a leftover accept, when it fails, also reopens the door for a third one. */
  lemma LateFailureReopens(call: CallId)
    ensures var s := Run(true,
        [Incoming(call, true), Ended(call), Incoming(call, true), AcceptFailed(call), StateChanged(call, true)]);
      s.accepting[call] == 2
  {
    var a, b, c, d, e :=
      Incoming(call, true), Ended(call), Incoming(call, true), AcceptFailed(call), StateChanged(call, true);
    assert [a, b, c, d, e][..4] == [a, b, c, d] && [a, b, c, d][..3] == [a, b, c] && [a, b, c][..2] == [a, b]
      && [a, b][..1] == [a] && [a][..0] == [];
    var one := State({call}, multiset{call}, multiset{});
    assert Run(true, [a]) == one;
    assert Run(true, [a, b]).attempted == {} && Run(true, [a, b]).accepting[call] == 1;
    assert Run(true, [a, b, c]).attempted == {call} && Run(true, [a, b, c]).accepting[call] == 2;
    assert Run(true, [a, b, c, d]).attempted == {} && Run(true, [a, b, c, d]).accepting[call] == 1;
  }

  /** With the option off, no event of any run ever starts an accept. */
  lemma {:induction false} DisabledNeverAccepts(es: seq<Event>)
    ensures Run(false, es) == START
    decreases |es|
  {
    if es != [] {
      DisabledNeverAccepts(es[..|es| - 1]);
      if es[|es| - 1].Ended? {
        assert START.accepted[es[|es| - 1].call := 0] == START.accepted;
      }
    }
  }

  /**
   * When an event starts an accept of a call: exactly when the option is on,
   * the event is one of the two that can accept that call, and the call has
   * no accept outstanding or done. No event starts two.
   */
  lemma AcceptStartsExactly(enabled: bool, es: seq<Event>, e: Event, call: CallId)
    requires EndsSettled(enabled, es, call)
    ensures var before, after := Run(enabled, es), Step(Run(enabled, es), enabled, e);
      && after.accepting[call] <= before.accepting[call] + 1
      && (after.accepting[call] > before.accepting[call]
          <==> && enabled && (e == Incoming(call, true) || e == StateChanged(call, true))
               && before.accepting[call] == 0 && before.accepted[call] == 0)
  {
    AtMostOneAccept(enabled, es, call);
  }

  /** What becomes of an outstanding accept: a success is kept until the call ends, a failure allows a new attempt. */
  lemma AcceptOutcomes(es: seq<Event>, call: CallId)
    requires EndsSettled(true, es, call) && Run(true, es).accepting[call] == 1
    ensures var done := Step(Run(true, es), true, AcceptSucceeded(call));
      && done.accepting[call] == 0 && done.accepted[call] == 1
      && Step(done, true, StateChanged(call, true)).accepting[call] == 0
    ensures var failed := Step(Run(true, es), true, AcceptFailed(call));
      && failed.accepting[call] == 0 && failed.accepted[call] == 0
      && Step(failed, true, StateChanged(call, true)).accepting[call] == 1
      && Step(failed, true, Incoming(call, true)).accepting[call] == 1
  {
    AtMostOneAccept(true, es, call);
  }

  /** Events of one call leave every other call as it was. */
  lemma OtherCallsUntouched(s: State, enabled: bool, e: Event, call: CallId)
    requires e.call != call
    ensures var t := Step(s, enabled, e);
      && t.accepting[call] == s.accepting[call] && t.accepted[call] == s.accepted[call]
      && (call in t.attempted <==> call in s.attempted)
  {
  }
}
