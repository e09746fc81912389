/** What is left of the store's agreement with memory when writes may settle in any order. */
module AuthStoreOrder {
  import opened Prelude
  import opened CredentialRecord
  import opened AuthClient
  import opened AuthStoreRuns

  /** `SettleAt` completes or fails one write in flight, not necessarily the oldest. */
  datatype AnyEvent = Do(event: Event) | SettleAt(which: nat, ok: bool)

  function AnyStep(s: State, e: AnyEvent): (t: State) {
    match e
    case Do(event) => if event.Settle? then s else Step(s, event)
    case SettleAt(i, ok) =>
      if i >= |s.pending| then s
      else s.(saved := if ok then s.pending[i] else s.saved, pending := s.pending[..i] + s.pending[i + 1..])
  }

  function AnyRun(s: State, es: seq<AnyEvent>): (t: State)
    decreases |es|
  {
    if es == [] then s else AnyStep(AnyRun(s, es[..|es| - 1]), es[|es| - 1])
  }

  /** Memory held `w` at some moment of the run. */
  ghost predicate WasMemory(s: State, es: seq<AnyEvent>, w: Write) {
    exists n :: 0 <= n <= |es| && AnyRun(s, es[..n]).credentials == w
  }

  lemma WasMemoryExtends(s: State, es: seq<AnyEvent>, w: Write)
    requires es != [] && WasMemory(s, es[..|es| - 1], w)
    ensures WasMemory(s, es, w)
  {
    var before := es[..|es| - 1];
    var n :| 0 <= n <= |before| && AnyRun(s, before[..n]).credentials == w;
    assert before[..n] == es[..n];
  }

  lemma IsMemoryNow(s: State, es: seq<AnyEvent>)
    ensures WasMemory(s, es, AnyRun(s, es).credentials)
  {
    assert es[..|es|] == es;
  }

  /**
   * In whatever order writes settle and whichever fail, the store and every
   * write in flight hold a value memory had at some moment of the run.
   */
  lemma {:induction false} AnyOrderHoldsPastMemory(s: State, es: seq<AnyEvent>)
    requires Settled(s)
    ensures WasMemory(s, es, AnyRun(s, es).saved)
    ensures forall i | 0 <= i < |AnyRun(s, es).pending| :: WasMemory(s, es, AnyRun(s, es).pending[i])
    decreases |es|
  {
    IsMemoryNow(s, es);
    if es != [] {
      var before, e := es[..|es| - 1], es[|es| - 1];
      var past, now := AnyRun(s, before), AnyRun(s, es);
      AnyOrderHoldsPastMemory(s, before);
      hide WasMemory, AnyRun;
      WasMemoryExtends(s, es, past.saved);
      forall i | 0 <= i < |past.pending| ensures WasMemory(s, es, past.pending[i]) {
        WasMemoryExtends(s, es, past.pending[i]);
      }
      assert now == AnyStep(past, e);
      if e.Do? && !e.event.Settle? {
        StepShape(past, e.event);
      }
    }
  }

  lemma AnyRunStep(s: State, es: seq<AnyEvent>, e: AnyEvent)
    ensures AnyRun(s, es + [e]) == AnyStep(AnyRun(s, es), e)
  {
    assert (es + [e])[..|es|] == es;
  }

  /**
   * That the store ends with the newest value does need the order: two routing
   * writes that both succeed, the older one last, leave the older one stored
   * with nothing in flight.
   */
  lemma OutOfOrderEndsStale(s: State, a: Bytes, b: Bytes)
    requires Settled(s) && s.credentials.Some? && a != b && s.credentials.value.routingInfo != Some(a)
    ensures var calls := [Do(Invoke(PersistRoutingInfo(a))), Do(Invoke(PersistRoutingInfo(b)))];
      var r := AnyRun(s, calls + [SettleAt(1, true)] + [SettleAt(0, true)]);
      && r.pending == [] && r.credentials.Some? && r.saved.Some?
      && r.credentials.value.routingInfo == Some(b) && r.saved.value.routingInfo == Some(a)
  {
    var first, second := Do(Invoke(PersistRoutingInfo(a))), Do(Invoke(PersistRoutingInfo(b)));
    assert [] + [first] == [first] && [first] + [second] == [first, second];
    assert AnyRun(s, []) == s;
    AnyRunStep(s, [], first);
    AnyRunStep(s, [first], second);
    AnyRunStep(s, [first, second], SettleAt(1, true));
    AnyRunStep(s, [first, second] + [SettleAt(1, true)], SettleAt(0, true));
    hide AnyRun;
    var c := s.credentials.value.(routingInfo := Some(a));
    var d := s.credentials.value.(routingInfo := Some(b));
    assert AnyRun(s, [first, second]) == s.(credentials := Some(d), pending := [Some(c), Some(d)]);
    assert AnyRun(s, [first, second] + [SettleAt(1, true)])
      == s.(credentials := Some(d), saved := Some(d), pending := [Some(c)]);
  }
}
