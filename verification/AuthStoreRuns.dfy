/** How the store follows memory over whole runs, with writes that settle late or fail. */
module AuthStoreRuns {
  import opened Prelude
  import opened CredentialRecord
  import opened AuthClient
  import opened AuthRuns

  /** Store and memory agree and nothing is in flight, as after a completed load. */
  predicate Settled(s: State) {
    s.pending == [] && s.saved == s.credentials
  }

  /**
   * The values memory took, each with the number of events after which it took
   * it; which of them the store holds; whether the last settled write succeeded.
   */
  datatype Trace = Trace(log: seq<Write>, at: seq<nat>, savedAt: nat, lastOk: bool)

  function Extend(t: Trace, s: State, e: Event, position: nat): (u: Trace)
    requires |s.pending| <= |t.log|
  {
    var next := Step(s, e);
    if e.Settle? then
      if s.pending == [] then t
      else t.(savedAt := if e.ok then |t.log| - |s.pending| else t.savedAt, lastOk := e.ok)
    else if |next.pending| > |s.pending| then t.(log := t.log + [next.credentials], at := t.at + [position])
    else t
  }

  /** The writes in flight are the newest values, the store holds an older one. */
  predicate Follows(t: Trace, s: State) {
    && |t.at| == |t.log| && |s.pending| < |t.log|
    && t.log[|t.log| - 1] == s.credentials
    && s.pending == t.log[|t.log| - |s.pending|..]
    && t.savedAt < |t.log| - |s.pending| && s.saved == t.log[t.savedAt]
    && (t.lastOk <==> t.savedAt == |t.log| - |s.pending| - 1)
  }

  /** Apart from settling, an event either gives memory a value and queues it, or touches neither. */
  lemma StepShape(s: State, e: Event)
    requires !e.Settle?
    ensures var next := Step(s, e);
      && next.saved == s.saved
      && (|next.pending| > |s.pending| ==> next.pending == s.pending + [next.credentials])
      && (|next.pending| <= |s.pending| ==> next.pending == s.pending && next.credentials == s.credentials)
  {
    hide Next, ShouldPersist;
  }

  lemma QueueFollows(t: Trace, s: State, next: State, value: Write, position: nat)
    requires Follows(t, s)
    requires next.credentials == value && next.pending == s.pending + [value] && next.saved == s.saved
    ensures Follows(t.(log := t.log + [value], at := t.at + [position]), next)
  {
    var n := |t.log| - |s.pending|;
    var log := t.log + [value];
    assert log[n..] == t.log[n..] + [value];
  }

  lemma SettleFollows(t: Trace, s: State, ok: bool)
    requires Follows(t, s) && s.pending != []
    ensures var u := t.(savedAt := if ok then |t.log| - |s.pending| else t.savedAt, lastOk := ok);
      Follows(u, SettleFirst(s, ok))
  {
    var n := |t.log| - |s.pending|;
    assert t.log[n..][1..] == t.log[n + 1..];
    assert s.pending[0] == t.log[n];
  }

  lemma FollowsBasics(t: Trace, s: State)
    requires Follows(t, s)
    ensures |t.at| == |t.log| && |s.pending| < |t.log| && t.log[|t.log| - 1] == s.credentials
    ensures t.savedAt < |t.log| - |s.pending|
  {
  }

  lemma SameFollows(t: Trace, s: State, next: State)
    requires Follows(t, s)
    ensures next.pending == s.pending && next.credentials == s.credentials && next.saved == s.saved ==> Follows(t, next)
  {
  }

  lemma ExtendFollows(t: Trace, s: State, e: Event, position: nat)
    requires Follows(t, s)
    ensures Follows(Extend(t, s, e, position), Step(s, e))
    ensures t.savedAt <= Extend(t, s, e, position).savedAt
    ensures t.log <= Extend(t, s, e, position).log && t.at <= Extend(t, s, e, position).at
  {
    FollowsBasics(t, s);
    hide Patch, CountLogin, Assign, Follows;
    if e.Settle? {
      if s.pending != [] {
        SettleFollows(t, s, e.ok);
      }
    } else {
      StepShape(s, e);
      SameFollows(t, s, Step(s, e));
      hide Step;
      if |Step(s, e).pending| > |s.pending| {
        QueueFollows(t, s, Step(s, e), Step(s, e).credentials, position);
      }
    }
  }

  function TraceOf(s: State, es: seq<Event>): (t: Trace)
    requires Settled(s)
    ensures Follows(t, Run(s, es))
    decreases |es|
  {
    if es == [] then Trace([s.credentials], [0], 0, true)
    else
      var before := es[..|es| - 1];
      ExtendFollows(TraceOf(s, before), Run(s, before), es[|es| - 1], |es|);
      Extend(TraceOf(s, before), Run(s, before), es[|es| - 1], |es|)
  }

  /** The logged values are the values memory had at the logged moments. */
  lemma {:induction false} LogIsMemory(s: State, es: seq<Event>, i: nat)
    requires Settled(s) && i < |TraceOf(s, es).log|
    ensures TraceOf(s, es).at[i] <= |es|
    ensures TraceOf(s, es).log[i] == Run(s, es[..TraceOf(s, es).at[i]]).credentials
    decreases |es|
  {
    hide Step;
    var t := TraceOf(s, es);
    if es == [] {
      assert es[..0] == [];
    } else {
      var before := es[..|es| - 1];
      var u := TraceOf(s, before);
      ExtendFollows(u, Run(s, before), es[|es| - 1], |es|);
      if i < |u.log| {
        LogIsMemory(s, before, i);
        assert before[..t.at[i]] == es[..t.at[i]];
      } else {
        assert es[..|es|] == es;
      }
    }
  }

  /**
   * Whatever fails, the store always holds a value memory had earlier in the
   * run, and as the run goes on it only moves to later values.
   */
  lemma {:induction false} StoreHoldsPastMemory(s: State, es: seq<Event>, n: nat)
    requires Settled(s) && n <= |es|
    ensures var t := TraceOf(s, es);
      && t.at[t.savedAt] <= |es|
      && Run(s, es).saved == Run(s, es[..t.at[t.savedAt]]).credentials
      && TraceOf(s, es[..n]).savedAt <= t.savedAt && TraceOf(s, es[..n]).at <= t.at
    decreases |es|
  {
    LogIsMemory(s, es, TraceOf(s, es).savedAt);
    if n < |es| {
      var before := es[..|es| - 1];
      StoreHoldsPastMemory(s, before, n);
      assert before[..n] == es[..n];
      ExtendFollows(TraceOf(s, before), Run(s, before), es[|es| - 1], |es|);
    } else {
      assert es[..n] == es;
    }
  }

  /** Whether the most recent write to settle succeeded; true while none has. */
  function LastSettleOk(s: State, es: seq<Event>): (ok: bool) {
    if es == [] then true
    else
      var before, e := es[..|es| - 1], es[|es| - 1];
      if e.Settle? && Run(s, before).pending != [] then e.ok else LastSettleOk(s, before)
  }

  lemma {:induction false} LastOkIs(s: State, es: seq<Event>)
    requires Settled(s)
    ensures TraceOf(s, es).lastOk == LastSettleOk(s, es)
    decreases |es|
  {
    if es != [] {
      LastOkIs(s, es[..|es| - 1]);
    }
  }

  /** What the store holds once the writes in flight have all succeeded. */
  function Drained(s: State): (w: Write) {
    if s.pending == [] then s.saved else s.pending[|s.pending| - 1]
  }

  /**
   * The store is bound for the newest value of memory if and only if a write
   * is still in flight or the last one to settle succeeded. In particular, with
   * nothing in flight after a success, store and memory are equal.
   */
  lemma StoreCatchesUp(s: State, es: seq<Event>)
    requires Settled(s)
    ensures var r, t := Run(s, es), TraceOf(s, es);
      && (r.pending == [] ==> (t.savedAt == |t.log| - 1 <==> LastSettleOk(s, es)))
      && (r.pending == [] && LastSettleOk(s, es) ==> r.saved == r.credentials)
      && (r.pending != [] || LastSettleOk(s, es) ==> Drained(r) == r.credentials)
  {
    LastOkIs(s, es);
    var r, t := Run(s, es), TraceOf(s, es);
    if r.pending != [] {
      assert r.pending[|r.pending| - 1] == t.log[|t.log| - 1];
    }
  }

  /**
   * A skipped routing write is one whose value memory already has. The store
   * has it too, now or once it drains, unless the last write to settle failed
   * with none behind it.
   */
  lemma SkippedRoutingReachesStore(s: State, es: seq<Event>, info: Bytes)
    requires Settled(s) && Run(s, es).credentials.Some?
    requires !ShouldPersist(PersistRoutingInfo(info), Run(s, es).credentials.value,
                            Next(PersistRoutingInfo(info), Run(s, es).credentials.value))
    requires Run(s, es).pending != [] || LastSettleOk(s, es)
    ensures Drained(Run(s, es + [Invoke(PersistRoutingInfo(info))])).Some?
    ensures Drained(Run(s, es + [Invoke(PersistRoutingInfo(info))])).value.routingInfo == Some(info)
  {
    StoreCatchesUp(s, es);
    RunStep(s, es, Invoke(PersistRoutingInfo(info)));
  }

  /** The routing value the calls up to the stored moment leave, as far as they or the load define one. */
  function StoredRouting(s: State, es: seq<Event>): (r: Option<Option<Bytes>>)
    requires Settled(s) && s.credentials.Some?
  {
    var t := TraceOf(s, es);
    LogIsMemory(s, es, t.savedAt);
    LastDefined(Calls(es[..t.at[t.savedAt]]), Routing, Some(s.credentials.value.routingInfo))
  }

  /** Memory, as the calls, replacements and clears dictate it, at the moment whose value the store holds. */
  function StoredMemory(s: State, es: seq<Event>): (m: Option<Credentials>)
    requires Settled(s)
  {
    var t := TraceOf(s, es);
    LogIsMemory(s, es, t.savedAt);
    Memory(s.credentials, es[..t.at[t.savedAt]])
  }

  /**
   * Exactly when a skipped routing value is in the store, now or once the
   * writes in flight have succeeded, in any run: a write is still in flight, or
   * the last one to settle succeeded, or memory already had that value when it
   * asked for the write the store holds. Otherwise a failed write has kept it out.
   */
  lemma SkippedRoutingExactly(s: State, es: seq<Event>, info: Bytes)
    requires Settled(s)
    requires Run(s, es).credentials.Some? && Run(s, es).credentials.value.routingInfo == Some(info)
    ensures !ShouldPersist(PersistRoutingInfo(info), Run(s, es).credentials.value,
                           Next(PersistRoutingInfo(info), Run(s, es).credentials.value))
    ensures var skipped := Run(s, es + [Invoke(PersistRoutingInfo(info))]);
      Drained(skipped).Some? && Drained(skipped).value.routingInfo == Some(info)
      <==> Run(s, es).pending != [] || LastSettleOk(s, es)
           || (StoredMemory(s, es).Some? && StoredMemory(s, es).value.routingInfo == Some(info))
  {
    var n := TraceOf(s, es).at[TraceOf(s, es).savedAt];
    RunStep(s, es, Invoke(PersistRoutingInfo(info)));
    StoreCatchesUp(s, es);
    StoreHoldsPastMemory(s, es, |es|);
    NoLostUpdate(s, es[..n]);
    hide TraceOf, Memory;
    assert Run(s, es + [Invoke(PersistRoutingInfo(info))]) == Run(s, es);
  }

  /** With calls only, what memory had then is the last routing value they define. */
  lemma StoredRoutingOfCalls(s: State, es: seq<Event>)
    requires Settled(s) && s.credentials.Some? && OnlyCalls(es)
    ensures StoredMemory(s, es).Some? && StoredRouting(s, es) == Some(StoredMemory(s, es).value.routingInfo)
  {
    var n := TraceOf(s, es).at[TraceOf(s, es).savedAt];
    LogIsMemory(s, es, TraceOf(s, es).savedAt);
    NoLostUpdate(s, es[..n]);
    FieldsAfterRun(s, es[..n]);
    hide TraceOf, LastDefined, Calls, AttributesAfter, Memory, Run;
  }

  function FailedRoutingRun(info: Bytes): seq<Event> {
    [Invoke(PersistRoutingInfo(info)), Settle(false), Invoke(PersistRoutingInfo(info))]
  }

  /**
   * The comparison is with memory, not with the disk: after a failed write the
   * repeated call is skipped although the store never got the value.
   */
  lemma SkipAfterFailureLeavesStoreStale(s: State, info: Bytes)
    requires Settled(s) && s.credentials.Some? && s.credentials.value.routingInfo != Some(info)
    ensures var r := Run(s, FailedRoutingRun(info));
      && r.pending == [] && r.saved == s.saved
      && r.credentials.Some? && r.credentials.value.routingInfo == Some(info)
      && r.saved.value.routingInfo != Some(info)
  {
    var call, fail := Invoke(PersistRoutingInfo(info)), Settle(false);
    assert [] + [call] == [call] && [call] + [fail] == [call, fail] && [call, fail] + [call] == FailedRoutingRun(info);
    RunStep(s, [], call);
    RunStep(s, [call], fail);
    RunStep(s, [call, fail], call);
    assert Run(s, []) == s;
    hide Run;
    var c := s.credentials.value.(routingInfo := Some(info));
    assert Step(s, call) == s.(credentials := Some(c), pending := [Some(c)]);
    assert Run(s, [call, fail]) == s.(credentials := Some(c), pending := []);
  }

  // --------------------------------------------------- saving on every call

  /** A queued write, marked when the skipping client would not have asked for it. */
  datatype Entry = Entry(value: Write, redundant: bool)

  /** A client that saves on every call. */
  datatype Eager = Eager(credentials: Option<Credentials>, saved: Option<Credentials>, queue: seq<Entry>)

  function EagerAssign(e: Eager, value: Write, redundant: bool): Eager {
    e.(credentials := value, queue := e.queue + [Entry(value, redundant)])
  }

  function EagerStep(e: Eager, ev: Event): (t: Eager) {
    match ev
    case Invoke(call) =>
      if e.credentials.None? then e
      else
        var c := e.credentials.value;
        EagerAssign(e, Some(Next(call, c)), !ShouldPersist(call, c, Next(call, c)))
    case Replace(c) => EagerAssign(e, Some(c), false)
    case ClearStored => EagerAssign(e, None, false)
    case Settle(ok) =>
      if e.queue == [] then e
      else e.(saved := if ok then e.queue[0].value else e.saved, queue := e.queue[1..])
    case _ => e
  }

  function EagerRun(e: Eager, es: seq<Event>): (t: Eager)
    decreases |es|
  {
    if es == [] then e else EagerStep(EagerRun(e, es[..|es| - 1]), es[|es| - 1])
  }

  /** The event completes a write that only the eager client asked for. */
  predicate SettlesRedundant(e: Eager, ev: Event) {
    ev.Settle? && e.queue != [] && e.queue[0].redundant
  }

  /** The same schedule for the skipping client, without the completions it does not have. */
  function LazySchedule(e: Eager, es: seq<Event>): (ls: seq<Event>)
    decreases |es|
  {
    if es == [] then []
    else
      var before, ev := es[..|es| - 1], es[|es| - 1];
      LazySchedule(e, before) + if SettlesRedundant(EagerRun(e, before), ev) then [] else [ev]
  }

  function Kept(queue: seq<Entry>): (ws: seq<Write>) {
    if queue == [] then []
    else (if queue[0].redundant then [] else [queue[0].value]) + Kept(queue[1..])
  }

  /** A redundant entry repeats the value before it. */
  predicate Repeats(previous: Write, queue: seq<Entry>)
    decreases |queue|
  {
    queue != [] ==> (queue[0].redundant ==> queue[0].value == previous) && Repeats(queue[0].value, queue[1..])
  }

  function Latest(previous: Write, queue: seq<Entry>): (w: Write) {
    if queue == [] then previous else queue[|queue| - 1].value
  }

  lemma {:induction false} AppendEntry(previous: Write, queue: seq<Entry>, x: Entry)
    requires Repeats(previous, queue) && (x.redundant ==> x.value == Latest(previous, queue))
    ensures Repeats(previous, queue + [x])
    ensures Kept(queue + [x]) == Kept(queue) + if x.redundant then [] else [x.value]
    decreases |queue|
  {
    if queue == [] {
      assert queue + [x] == [x] && [x][1..] == [];
    } else {
      assert (queue + [x])[1..] == queue[1..] + [x];
      AppendEntry(queue[0].value, queue[1..], x);
    }
  }

  predicate Corresponds(s: State, e: Eager) {
    && s.credentials == e.credentials && s.saved == e.saved
    && s.pending == Kept(e.queue)
    && Repeats(e.saved, e.queue) && Latest(e.saved, e.queue) == e.credentials
  }

  lemma CorrespondsStep(s: State, e: Eager, ev: Event)
    requires Corresponds(s, e) && (ev.Settle? ==> ev.ok)
    ensures Corresponds(if SettlesRedundant(e, ev) then s else Step(s, ev), EagerStep(e, ev))
  {
    match ev
    case Invoke(call) =>
      if e.credentials.Some? {
        var c := e.credentials.value;
        SkipMeansUnchanged(call, c);
        AppendEntry(e.saved, e.queue, Entry(Some(Next(call, c)), !ShouldPersist(call, c, Next(call, c))));
      }
    case Replace(c) => AppendEntry(e.saved, e.queue, Entry(Some(c), false));
    case ClearStored => AppendEntry(e.saved, e.queue, Entry(None, false));
    case Settle(_) =>
      if e.queue != [] {
        assert Kept(e.queue) == (if e.queue[0].redundant then [] else [e.queue[0].value]) + Kept(e.queue[1..]);
      }
    case _ =>
  }

  predicate AllSettlesSucceed(es: seq<Event>) {
    forall i | 0 <= i < |es| :: es[i].Settle? ==> es[i].ok
  }

  /**
   * Every run of the client that saves on every call, with writes that
   * succeed, is matched by the skipping client on the adapted schedule.
   */
  lemma {:induction false} SavingRunIsMatched(s: State, e: Eager, es: seq<Event>)
    requires Corresponds(s, e) && AllSettlesSucceed(es)
    ensures Corresponds(Run(s, LazySchedule(e, es)), EagerRun(e, es))
    decreases |es|
  {
    if es != [] {
      var before, ev := es[..|es| - 1], es[|es| - 1];
      SavingRunIsMatched(s, e, before);
      CorrespondsStep(Run(s, LazySchedule(e, before)), EagerRun(e, before), ev);
      if SettlesRedundant(EagerRun(e, before), ev) {
        assert LazySchedule(e, es) == LazySchedule(e, before);
      } else {
        RunStep(s, LazySchedule(e, before), ev);
      }
    }
  }

  /** The adapted schedule makes the same calls in the same order. */
  lemma {:induction false} ScheduleKeepsCalls(e: Eager, es: seq<Event>)
    ensures Calls(LazySchedule(e, es)) == Calls(es)
    decreases |es|
  {
    if es != [] {
      var before, ev := es[..|es| - 1], es[|es| - 1];
      ScheduleKeepsCalls(e, before);
      if SettlesRedundant(EagerRun(e, before), ev) {
        assert LazySchedule(e, es) == LazySchedule(e, before);
      } else {
        assert LazySchedule(e, es)[..|LazySchedule(e, es)| - 1] == LazySchedule(e, before);
      }
    }
  }

  /** The write in front, if any, is one the skipping client asked for too. */
  predicate FrontWanted(e: Eager) {
    e.queue == [] || !e.queue[0].redundant
  }

  lemma EagerRunStep(e: Eager, es: seq<Event>, ev: Event)
    ensures EagerRun(e, es + [ev]) == EagerStep(EagerRun(e, es), ev)
  {
    assert (es + [ev])[..|es|] == es;
  }

  /** Settling a redundant write in front leaves the adapted schedule as it was. */
  lemma ExtendSchedule(e: Eager, es: seq<Event>, ev: Event)
    ensures EagerRun(e, es + [ev]) == EagerStep(EagerRun(e, es), ev)
    ensures LazySchedule(e, es + [ev])
         == LazySchedule(e, es) + if SettlesRedundant(EagerRun(e, es), ev) then [] else [ev]
    ensures AllSettlesSucceed(es) && (ev.Settle? ==> ev.ok) ==> AllSettlesSucceed(es + [ev])
  {
    hide EagerStep, SettlesRedundant;
    assert (es + [ev])[..|es|] == es;
  }

  /** The saving client settles its redundant writes until a wanted one is in front. */
  lemma {:induction false} SettleRedundantFront(e: Eager, es: seq<Event>) returns (fs: seq<Event>)
    requires AllSettlesSucceed(es)
    ensures AllSettlesSucceed(fs) && LazySchedule(e, fs) == LazySchedule(e, es) && FrontWanted(EagerRun(e, fs))
    decreases |EagerRun(e, es).queue|
  {
    hide AllSettlesSucceed, LazySchedule, EagerRun;
    if FrontWanted(EagerRun(e, es)) {
      fs := es;
    } else {
      ExtendSchedule(e, es, Settle(true));
      assert LazySchedule(e, es) + [] == LazySchedule(e, es);
      fs := SettleRedundantFront(e, es + [Settle(true)]);
    }
  }

  /**
   * Refinement: for every run of the client that skips unchanged writes in
   * which writes succeed, there is a run of the client that saves on every
   * call, making the same calls, after which both have the same memory and
   * the same stored record.
   */
  lemma {:induction false} SkippingRefinesSaving(s: State, e: Eager, ls: seq<Event>) returns (es: seq<Event>)
    requires Corresponds(s, e) && AllSettlesSucceed(ls)
    ensures AllSettlesSucceed(es) && LazySchedule(e, es) == ls && Calls(es) == Calls(ls)
    ensures Corresponds(Run(s, ls), EagerRun(e, es))
    decreases |ls|
  {
    if ls == [] {
      es := [];
    } else {
      var before, ev := ls[..|ls| - 1], ls[|ls| - 1];
      assert ls == before + [ev];
      es := SkippingRefinesSaving(s, e, before);
      if ev.Settle? {
        es := SettleRedundantFront(e, es);
      }
      assert !SettlesRedundant(EagerRun(e, es), ev);
      hide LazySchedule, EagerRun, Run, Calls, AllSettlesSucceed, Corresponds, SettlesRedundant;
      ExtendSchedule(e, es, ev);
      es := es + [ev];
    }
    SavingRunIsMatched(s, e, es);
    ScheduleKeepsCalls(e, es);
  }

  /**
   * The success of writes is needed: in the run where a routing write fails and
   * is repeated, saving on every call repairs the store and skipping does not.
   */
  lemma SavingRepairsAFailure(s: State, info: Bytes)
    requires Settled(s) && s.credentials.Some? && s.credentials.value.routingInfo != Some(info)
    ensures var e := Eager(s.credentials, s.saved, []);
      var eager := EagerRun(e, FailedRoutingRun(info) + [Settle(true)]);
      && eager.queue == [] && eager.saved == eager.credentials
      && eager.saved.Some? && eager.saved.value.routingInfo == Some(info)
      && Run(s, FailedRoutingRun(info)).pending == []
      && Run(s, FailedRoutingRun(info)).saved != eager.saved
  {
    SkipAfterFailureLeavesStoreStale(s, info);
    var e := Eager(s.credentials, s.saved, []);
    var call, fail := Invoke(PersistRoutingInfo(info)), Settle(false);
    assert [] + [call] == [call] && [call] + [fail] == [call, fail] && [call, fail] + [call] == FailedRoutingRun(info);
    assert EagerRun(e, []) == e;
    EagerRunStep(e, [], call);
    EagerRunStep(e, [call], fail);
    EagerRunStep(e, [call, fail], call);
    EagerRunStep(e, FailedRoutingRun(info), Settle(true));
    hide Run, EagerRun;
    var c := s.credentials.value.(routingInfo := Some(info));
    assert EagerStep(e, call) == Eager(Some(c), s.saved, [Entry(Some(c), false)]);
    assert EagerRun(e, [call, fail]) == Eager(Some(c), s.saved, []);
    assert EagerRun(e, FailedRoutingRun(info)) == Eager(Some(c), s.saved, [Entry(Some(c), true)]);
  }
}
