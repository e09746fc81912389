/** What holds over whole runs of the auth client, whatever the order of calls and settled writes. */
module AuthRuns {
  import opened Prelude
  import opened CredentialRecord
  import opened CommsConfig
  import opened AuthClient

  lemma RunStep(s: State, es: seq<Event>, e: Event)
    ensures Run(s, es + [e]) == Step(Run(s, es), e)
  {
    assert (es + [e])[..|es|] == es;
  }

  // ------------------------------------------------------- no update is lost

  /** Memory as the patches alone dictate it: no skipping, no store, no settling. */
  function Memory(m: Option<Credentials>, es: seq<Event>): (r: Option<Credentials>) {
    if es == [] then m
    else
      var before := Memory(m, es[..|es| - 1]);
      match es[|es| - 1]
      case Invoke(call) => if before.Some? then Some(Next(call, before.value)) else None
      case Replace(c) => Some(c)
      case ClearStored => None
      case _ => before
  }

  /** In every interleaving, memory is the fold of the patches in the order the calls started. */
  lemma {:induction false} NoLostUpdate(s: State, es: seq<Event>)
    ensures Run(s, es).credentials == Memory(s.credentials, es)
    decreases |es|
  {
    if es != [] {
      var before, e := es[..|es| - 1], es[|es| - 1];
      NoLostUpdate(s, before);
      if e.Invoke? && Run(s, before).credentials.Some? {
        SkipMeansUnchanged(e.call, Run(s, before).credentials.value);
      }
    }
  }

  predicate OnlyCalls(es: seq<Event>) {
    forall i | 0 <= i < |es| :: !es[i].Replace? && !es[i].ClearStored?
  }

  function Calls(es: seq<Event>): (calls: seq<Call>) {
    if es == [] then []
    else Calls(es[..|es| - 1]) + (if es[|es| - 1].Invoke? then [es[|es| - 1].call] else [])
  }

  function Fold(c: Credentials, calls: seq<Call>): (r: Credentials) {
    if calls == [] then c else Next(calls[|calls| - 1], Fold(c, calls[..|calls| - 1]))
  }

  lemma {:induction false} MemoryIsFold(c: Credentials, es: seq<Event>)
    requires OnlyCalls(es)
    ensures Memory(Some(c), es) == Some(Fold(c, Calls(es)))
    decreases |es|
  {
    if es != [] {
      var before, e := es[..|es| - 1], es[|es| - 1];
      MemoryIsFold(c, before);
      if e.Invoke? {
        assert Calls(es)[..|Calls(es)| - 1] == Calls(before);
      } else {
        assert Calls(es) == Calls(before);
      }
    }
  }

  // -------------------------------------------------- what each field ends as

  /** The last value the calls define for a field, or the initial one. */
  function LastDefined<T>(calls: seq<Call>, of: Call -> Option<T>, initial: Option<T>): (r: Option<T>) {
    if calls == [] then initial
    else OrElse(of(calls[|calls| - 1]), LastDefined(calls[..|calls| - 1], of, initial))
  }

  /** A later call that leaves the field undefined never clears it. */
  lemma {:induction false} LastDefinedIs<T>(calls: seq<Call>, of: Call -> Option<T>, initial: Option<T>, i: nat)
    requires i < |calls| && of(calls[i]).Some? && forall j | i < j < |calls| :: of(calls[j]).None?
    ensures LastDefined(calls, of, initial) == of(calls[i])
    decreases |calls|
  {
    var n := |calls| - 1;
    if i < n {
      assert of(calls[n]).None?;
      LastDefinedIs(calls[..n], of, initial, i);
    }
  }

  function MeLid(call: Call): Option<string> {
    if call.PersistSuccessAttributes? then call.attributes.meLid else None
  }

  function DisplayName(call: Call): Option<string> {
    if call.PersistSuccessAttributes? then call.attributes.meDisplayName else None
  }

  function Companion(call: Call): Option<Bytes> {
    if call.PersistSuccessAttributes? then call.attributes.companionEncStatic else None
  }

  function LastSuccess(call: Call): Option<int> {
    if call.PersistSuccessAttributes? then call.attributes.lastSuccessTs else None
  }

  function Props(call: Call): Option<int> {
    if call.PersistSuccessAttributes? then call.attributes.propsVersion else None
  }

  function AbProps(call: Call): Option<int> {
    if call.PersistSuccessAttributes? then call.attributes.abPropsVersion else None
  }

  function Location(call: Call): Option<string> {
    if call.PersistSuccessAttributes? then call.attributes.connectionLocation else None
  }

  function Creation(call: Call): Option<int> {
    if call.PersistSuccessAttributes? then call.attributes.accountCreationTs else None
  }

  function StaticKey(call: Call): Option<Bytes> {
    if call.PersistServerStaticKey? then Some(call.serverStaticKey) else None
  }

  function HasPreKeys(call: Call): Option<bool> {
    if call.PersistServerHasPreKeys? then Some(call.serverHasPreKeys) else None
  }

  /** A routing write, `Some(None)` when it clears. */
  function Routing(call: Call): Option<Option<Bytes>> {
    match call
    case PersistRoutingInfo(info) => Some(Some(info))
    case ClearRoutingInfo => Some(None)
    case _ => None
  }

  function CountedCalls(calls: seq<Call>): nat {
    if calls == [] then 0 else CountedCalls(calls[..|calls| - 1]) + if Counted(calls[|calls| - 1]) then 1 else 0
  }

  /** The attributes of the success node, in closed form. */
  ghost predicate AttributesAfter(c: Credentials, calls: seq<Call>, d: Credentials) {
    && d.meLid == LastDefined(calls, MeLid, c.meLid)
    && d.meDisplayName == LastDefined(calls, DisplayName, c.meDisplayName)
    && d.companionEncStatic == LastDefined(calls, Companion, c.companionEncStatic)
    && d.lastSuccessTs == LastDefined(calls, LastSuccess, c.lastSuccessTs)
    && d.propsVersion == LastDefined(calls, Props, c.propsVersion)
    && d.abPropsVersion == LastDefined(calls, AbProps, c.abPropsVersion)
    && d.connectionLocation == LastDefined(calls, Location, c.connectionLocation)
    && d.accountCreationTs == LastDefined(calls, Creation, c.accountCreationTs)
  }

  /** The other fields the calls write; the identity fields are never touched. */
  ghost predicate ServerFieldsAfter(c: Credentials, calls: seq<Call>, d: Credentials) {
    && d.serverStaticKey == LastDefined(calls, StaticKey, c.serverStaticKey)
    && d.serverHasPreKeys == LastDefined(calls, HasPreKeys, c.serverHasPreKeys)
    && Some(d.routingInfo) == LastDefined(calls, Routing, Some(c.routingInfo))
    && CounterOf(d) == CounterOf(c) + CountedCalls(calls)
    && (CountedCalls(calls) == 0 ==> d.loginCounter == c.loginCounter)
    && SameIdentity(c, d)
  }

  predicate SameIdentity(c: Credentials, d: Credentials) {
    && d.noiseKeyPair == c.noiseKeyPair && d.registrationInfo == c.registrationInfo && d.signedPreKey == c.signedPreKey
    && d.advSecretKey == c.advSecretKey && d.signedIdentity == c.signedIdentity && d.meJid == c.meJid
    && d.platform == c.platform && d.deviceInfo == c.deviceInfo && d.pushName == c.pushName
    && d.yearClass == c.yearClass && d.memClass == c.memClass
  }

  /** One call, field by field. */
  lemma NextAttributes(call: Call, c: Credentials)
    ensures var d := Next(call, c);
      && d.meLid == OrElse(MeLid(call), c.meLid)
      && d.meDisplayName == OrElse(DisplayName(call), c.meDisplayName)
      && d.companionEncStatic == OrElse(Companion(call), c.companionEncStatic)
      && d.lastSuccessTs == OrElse(LastSuccess(call), c.lastSuccessTs)
      && d.propsVersion == OrElse(Props(call), c.propsVersion)
      && d.abPropsVersion == OrElse(AbProps(call), c.abPropsVersion)
      && d.connectionLocation == OrElse(Location(call), c.connectionLocation)
      && d.accountCreationTs == OrElse(Creation(call), c.accountCreationTs)
  {
  }

  lemma NextServerFields(call: Call, c: Credentials)
    ensures var d := Next(call, c);
      && d.serverStaticKey == OrElse(StaticKey(call), c.serverStaticKey)
      && d.serverHasPreKeys == OrElse(HasPreKeys(call), c.serverHasPreKeys)
      && Some(d.routingInfo) == OrElse(Routing(call), Some(c.routingInfo))
      && CounterOf(d) == CounterOf(c) + (if Counted(call) then 1 else 0)
      && (!Counted(call) ==> d.loginCounter == c.loginCounter)
      && SameIdentity(c, d)
  {
  }

  lemma {:induction false} FoldAttributes(c: Credentials, calls: seq<Call>)
    ensures AttributesAfter(c, calls, Fold(c, calls))
    decreases |calls|
  {
    hide Next;
    if calls != [] {
      FoldAttributes(c, calls[..|calls| - 1]);
      NextAttributes(calls[|calls| - 1], Fold(c, calls[..|calls| - 1]));
    }
  }

  lemma {:induction false} FoldServerFields(c: Credentials, calls: seq<Call>)
    ensures ServerFieldsAfter(c, calls, Fold(c, calls))
    decreases |calls|
  {
    hide Next, CounterOf, Counted;
    if calls != [] {
      FoldServerFields(c, calls[..|calls| - 1]);
      NextServerFields(calls[|calls| - 1], Fold(c, calls[..|calls| - 1]));
    }
  }

  /**
   * From a load on, memory holds for every attribute its last defined value,
   * so a merge never clears one, and the login counter has grown by exactly
   * the counted calls.
   */
  lemma FieldsAfterRun(s: State, es: seq<Event>)
    requires s.credentials.Some? && OnlyCalls(es)
    ensures Run(s, es).credentials.Some?
    ensures AttributesAfter(s.credentials.value, Calls(es), Run(s, es).credentials.value)
    ensures ServerFieldsAfter(s.credentials.value, Calls(es), Run(s, es).credentials.value)
  {
    NoLostUpdate(s, es);
    MemoryIsFold(s.credentials.value, es);
    FoldAttributes(s.credentials.value, Calls(es));
    FoldServerFields(s.credentials.value, Calls(es));
  }

  /** The process-local count grows by every counted call, even those that find no credentials. */
  lemma {:induction false} AttemptsCounted(s: State, es: seq<Event>)
    ensures Run(s, es).connectAttemptCount == s.connectAttemptCount + CountedCalls(Calls(es))
    decreases |es|
  {
    if es != [] {
      var before, e := es[..|es| - 1], es[|es| - 1];
      AttemptsCounted(s, before);
      if e.Invoke? {
        assert Calls(es)[..|Calls(es)| - 1] == Calls(before);
      } else {
        assert Calls(es) == Calls(before);
      }
    }
  }

  /** A counted call that finds credentials always asks the store for a write. */
  lemma CountedCallIsSaved(s: State, es: seq<Event>, call: Call)
    requires Counted(call) && Run(s, es).credentials.Some?
    ensures var before, after := Run(s, es), Run(s, es + [Invoke(call)]);
      && after.pending == before.pending + [after.credentials]
      && after.credentials.Some?
      && CounterOf(after.credentials.value) == CounterOf(before.credentials.value) + 1
  {
    RunStep(s, es, Invoke(call));
    SkipMeansUnchanged(call, Run(s, es).credentials.value);
  }

  // --------------------------------------------- a rotation of the ADV secret

  /** The pairing flow's rewrite: all fields as captured before its wait, only the secret new. */
  function Rotated(captured: Credentials, secret: Bytes): Credentials {
    captured.(advSecretKey := secret)
  }

  /**
   * Rotating the secret is not one step: it captures the credentials, waits
   * for random bytes, and then replaces the whole record. Whatever happens
   * during the wait, calls, other rotations, a completed pairing or a clear,
   * the rotation amounts to changing the secret alone if and only if memory
   * then differs from what was captured in its secret at most.
   */
  lemma RotationKeepsUpdatesExactly(s: State, es: seq<Event>, secret: Bytes)
    requires s.credentials.Some?
    ensures var captured := s.credentials.value;
      var before, after := Run(s, es), Run(s, es + [Replace(Rotated(captured, secret))]);
      && after.credentials == Some(Rotated(captured, secret))
      && after.connectAttemptCount == before.connectAttemptCount
      && (before.credentials.Some? && after.credentials.value == Rotated(before.credentials.value, secret)
          <==> before.credentials.Some?
               && before.credentials.value.(advSecretKey := captured.advSecretKey) == captured)
  {
    RunStep(s, es, Replace(Rotated(s.credentials.value, secret)));
    var c, before := s.credentials.value, Run(s, es).credentials;
    hide Run;
    if before.Some? && Rotated(c, secret) == Rotated(before.value, secret) {
      assert c == Rotated(c, secret).(advSecretKey := c.advSecretKey);
      assert before.value.(advSecretKey := c.advSecretKey)
        == Rotated(before.value, secret).(advSecretKey := c.advSecretKey);
    }
  }

  /** The calls count no login and leave each field with the value it had. */
  ghost predicate CallsLeave(c: Credentials, calls: seq<Call>) {
    && CountedCalls(calls) == 0
    && LastDefined(calls, MeLid, c.meLid) == c.meLid
    && LastDefined(calls, DisplayName, c.meDisplayName) == c.meDisplayName
    && LastDefined(calls, Companion, c.companionEncStatic) == c.companionEncStatic
    && LastDefined(calls, LastSuccess, c.lastSuccessTs) == c.lastSuccessTs
    && LastDefined(calls, Props, c.propsVersion) == c.propsVersion
    && LastDefined(calls, AbProps, c.abPropsVersion) == c.abPropsVersion
    && LastDefined(calls, Location, c.connectionLocation) == c.connectionLocation
    && LastDefined(calls, Creation, c.accountCreationTs) == c.accountCreationTs
    && LastDefined(calls, StaticKey, c.serverStaticKey) == c.serverStaticKey
    && LastDefined(calls, HasPreKeys, c.serverHasPreKeys) == c.serverHasPreKeys
    && LastDefined(calls, Routing, Some(c.routingInfo)) == Some(c.routingInfo)
  }

  lemma UnchangedExactly(c: Credentials, calls: seq<Call>, d: Credentials)
    requires AttributesAfter(c, calls, d) && ServerFieldsAfter(c, calls, d)
    ensures d.(advSecretKey := c.advSecretKey) == c <==> CallsLeave(c, calls)
  {
    hide LastDefined, CountedCalls;
  }

  /** When only calls overlap the wait, in terms of those calls. */
  lemma RotationOverCalls(s: State, es: seq<Event>, secret: Bytes)
    requires s.credentials.Some? && OnlyCalls(es)
    ensures var captured := s.credentials.value;
      var before, after := Run(s, es), Run(s, es + [Replace(Rotated(captured, secret))]);
      && before.credentials.Some? && after.credentials.Some?
      && (after.credentials.value == Rotated(before.credentials.value, secret) <==> CallsLeave(captured, Calls(es)))
      && CounterOf(after.credentials.value) == CounterOf(captured)
      && after.connectAttemptCount == s.connectAttemptCount + CountedCalls(Calls(es))
  {
    hide Run, Calls, CountedCalls, AttributesAfter, ServerFieldsAfter, CallsLeave, OnlyCalls;
    RotationKeepsUpdatesExactly(s, es, secret);
    FieldsAfterRun(s, es);
    AttemptsCounted(s, es);
    UnchangedExactly(s.credentials.value, Calls(es), Run(s, es).credentials.value);
  }

  /** The record a completed pairing writes. */
  function Paired(c: Credentials, signedIdentity: Bytes, jid: string, lid: Option<string>,
      platform: Option<string>): Credentials {
    c.(signedIdentity := Some(signedIdentity), meJid := Some(jid), meLid := lid, platform := platform,
       loginCounter := Some(0))
  }

  /**
   * Completing a pairing waits for its signature checks between reading the
   * credentials and writing them, so it is exact in the same way: it amounts to
   * setting its five fields if and only if memory differs in those at most.
   */
  lemma PairingKeepsUpdatesExactly(s: State, es: seq<Event>, signedIdentity: Bytes, jid: string, lid: Option<string>,
                                   platform: Option<string>)
    requires s.credentials.Some?
    ensures var c := s.credentials.value;
      var before, after := Run(s, es), Run(s, es + [Replace(Paired(c, signedIdentity, jid, lid, platform))]);
      && after.credentials == Some(Paired(c, signedIdentity, jid, lid, platform))
      && (before.credentials.Some?
          && after.credentials.value == Paired(before.credentials.value, signedIdentity, jid, lid, platform)
          <==> before.credentials.Some? && PairingFieldsOf(before.credentials.value, c) == c)
  {
    var c, before := s.credentials.value, Run(s, es).credentials;
    RunStep(s, es, Replace(Paired(c, signedIdentity, jid, lid, platform)));
    hide Run;
    if before.Some? {
      assert PairingFieldsOf(Paired(c, signedIdentity, jid, lid, platform), c) == c;
      assert PairingFieldsOf(Paired(before.value, signedIdentity, jid, lid, platform), c)
        == PairingFieldsOf(before.value, c);
      assert Paired(PairingFieldsOf(before.value, c), signedIdentity, jid, lid, platform)
          == Paired(before.value, signedIdentity, jid, lid, platform);
    }
  }

  /** `d` with the fields a pairing sets taken from `c`. */
  function PairingFieldsOf(d: Credentials, c: Credentials): Credentials {
    d.(signedIdentity := c.signedIdentity, meJid := c.meJid, meLid := c.meLid, platform := c.platform,
       loginCounter := c.loginCounter)
  }

  /** What a completed pairing leaves in memory, and what it leaves alone. */
  lemma PairingStores(s: State, es: seq<Event>, c: Credentials, signedIdentity: Bytes, jid: string, lid: Option<string>,
                      platform: Option<string>)
    ensures var after := Run(s, es + [Replace(Paired(c, signedIdentity, jid, lid, platform))]).credentials;
      && after.Some?
      && after.value.meJid == Some(jid) && after.value.meLid == lid && after.value.platform == platform
      && after.value.signedIdentity == Some(signedIdentity) && after.value.loginCounter == Some(0)
      && after.value.noiseKeyPair == c.noiseKeyPair && after.value.registrationInfo == c.registrationInfo
      && after.value.signedPreKey == c.signedPreKey && after.value.advSecretKey == c.advSecretKey
      && after.value.serverHasPreKeys == c.serverHasPreKeys && after.value.routingInfo == c.routingInfo
  {
    RunStep(s, es, Replace(Paired(c, signedIdentity, jid, lid, platform)));
  }

  /** A rotation leaves its new secret in memory, and the keys and the own JID it captured. */
  lemma RotationStores(s: State, es: seq<Event>, c: Credentials, secret: Bytes)
    ensures var after := Run(s, es + [Replace(Rotated(c, secret))]).credentials;
      && after.Some? && after.value.advSecretKey == secret
      && after.value.noiseKeyPair == c.noiseKeyPair && after.value.registrationInfo == c.registrationInfo
      && after.value.signedPreKey == c.signedPreKey && after.value.meJid == c.meJid
  {
    RunStep(s, es, Replace(Rotated(c, secret)));
  }

  /** Login counters as numbers: the first counted login gives one, each further one adds one, no other call matters. */
  lemma LoginCounterCounts(s: State, es: seq<Event>)
    requires s.credentials.Some? && OnlyCalls(es)
    ensures Run(s, es).credentials.Some?
    ensures var before, after := s.credentials.value.loginCounter, Run(s, es).credentials.value.loginCounter;
      var logins := CountedCalls(Calls(es));
      && (logins == 0 ==> after == before)
      && (logins > 0 && before == None ==> after == Some(logins))
      && (logins > 0 && before.Some? ==> after == Some(before.value + logins))
  {
    FieldsAfterRun(s, es);
    NoLostUpdate(s, es);
    MemoryIsFold(s.credentials.value, es);
    CounterPresent(s.credentials.value, Calls(es));
    hide Run, Calls, AttributesAfter;
  }

  lemma {:induction false} CounterPresent(c: Credentials, calls: seq<Call>)
    ensures CountedCalls(calls) > 0 ==> Fold(c, calls).loginCounter.Some?
    decreases |calls|
  {
    if calls != [] {
      CounterPresent(c, calls[..|calls| - 1]);
    }
  }

  /** The worst loss: a pairing that completes during the wait is undone, and the client is unregistered again. */
  lemma RotationUndoesPairing(s: State, signedIdentity: Bytes, jid: string, lid: Option<string>,
                              platform: Option<string>, secret: Bytes)
    requires s.credentials.Some? && s.credentials.value.meJid.None?
    ensures var c := s.credentials.value;
      var pairing := [Replace(Paired(c, signedIdentity, jid, lid, platform))];
      var before, after := Run(s, pairing), Run(s, pairing + [Replace(Rotated(c, secret))]);
      && before.credentials.Some? && before.credentials.value.meJid == Some(jid)
      && after.credentials.Some? && after.credentials.value.meJid.None?
      && after.credentials.value.signedIdentity == c.signedIdentity
      && after.pending == s.pending + [before.credentials, after.credentials]
  {
    var c := s.credentials.value;
    var pair, rotate := Replace(Paired(c, signedIdentity, jid, lid, platform)), Replace(Rotated(c, secret));
    assert [] + [pair] == [pair];
    assert Run(s, []) == s;
    RunStep(s, [], pair);
    RunStep(s, [pair], rotate);
    hide Run;
  }

  /** A concrete loss: the pre-key flag set while a rotation was waiting goes back to unset. */
  lemma RotationLosesPreKeyFlag(s: State, secret: Bytes)
    requires s.credentials.Some? && s.credentials.value.serverHasPreKeys.None?
    ensures var during := [Invoke(PersistServerHasPreKeys(true))];
      var before, after := Run(s, during), Run(s, during + [Replace(Rotated(s.credentials.value, secret))]);
      && before.credentials.Some? && before.credentials.value.serverHasPreKeys == Some(true)
      && after.credentials.Some? && after.credentials.value.serverHasPreKeys.None?
  {
    var call := Invoke(PersistServerHasPreKeys(true));
    assert [] + [call] == [call];
    assert Run(s, []) == s;
    RunStep(s, [], call);
    RunStep(s, [call], Replace(Rotated(s.credentials.value, secret)));
  }

  /** A rotation that was waiting when the credentials were cleared brings the old ones back. */
  lemma RotationRevivesCleared(s: State, es: seq<Event>, secret: Bytes)
    requires s.credentials.Some? && Run(s, es).credentials.None?
    ensures Run(s, es + [Replace(Rotated(s.credentials.value, secret))]).credentials
         == Some(Rotated(s.credentials.value, secret))
    ensures es != []
  {
    RunStep(s, es, Replace(Rotated(s.credentials.value, secret)));
  }

  // --------------------------------------------------------- one-shot overrides

  /** The last override set since the last build. */
  function PendingVersion(initial: Option<string>, es: seq<Event>): (v: Option<string>) {
    if es == [] then initial
    else match es[|es| - 1]
      case SetVersion(v) => Some(v)
      case Build => None
      case _ => PendingVersion(initial, es[..|es| - 1])
  }

  function PendingMobileVersion(initial: Option<string>, es: seq<Event>): (v: Option<string>) {
    if es == [] then initial
    else match es[|es| - 1]
      case SetMobileAppVersion(v) => Some(v)
      case Build => None
      case _ => PendingMobileVersion(initial, es[..|es| - 1])
  }

  lemma {:induction false} OverridesPending(s: State, es: seq<Event>)
    ensures Run(s, es).versionOverride == PendingVersion(s.versionOverride, es)
    ensures Run(s, es).mobileAppVersionOverride == PendingMobileVersion(s.mobileAppVersionOverride, es)
    decreases |es|
  {
    if es != [] {
      OverridesPending(s, es[..|es| - 1]);
    }
  }

  lemma BuildConsumes(s: State)
    ensures Step(s, Build).versionOverride.None? && Step(s, Build).mobileAppVersionOverride.None?
  {
  }

  /**
   * In every run, a build advertises the override set last since the build
   * before it, validated for the transport, and the next build starts with
   * none, whether this one succeeds or throws.
   */
  lemma BuildUsesPendingOverrides(env: Env, url: Option<string>, options: ClientOptions, s: State, es: seq<Event>)
    ensures var r := ConfigOf(env, url, options, Run(s, es));
      var version, mobileVersion :=
        PendingVersion(s.versionOverride, es), PendingMobileVersion(s.mobileAppVersionOverride, es);
      r.Returned? ==>
        && Run(s, es).credentials.Some?
        && var transport := EffectiveTransport(Run(s, es).credentials.value, options);
           var winner := Winner(transport.Some?, mobileVersion, version, options.version);
           && (winner.Some? ==> ValidVersion(winner.value, transport.Some?) && Advertised(r.value) == winner)
           && (winner.None?
             ==> Advertised(r.value) == if transport.Some? then Some(transport.value.deviceInfo.appVersion) else None)
    ensures Run(s, es + [Build]).versionOverride.None? && Run(s, es + [Build]).mobileAppVersionOverride.None?
  {
    OverridesPending(s, es);
    BuildConsumes(Run(s, es));
    RunStep(s, es, Build);
    hide Run, Step, ValidVersion, Advertised, BuildCommsConfig, EffectiveTransport;
    var state := Run(s, es);
    if state.credentials.Some? {
      AdvertisedVersion(env, state.credentials.value, url, options, state.versionOverride,
                        state.mobileAppVersionOverride, state.connectAttemptCount);
    }
  }

  /**
   * In every run, a build is the build of memory with the version override
   * before the version option, the app-version override beside it, and the
   * counted calls so far as connect attempts; its handshake comes from memory
   * field by field, and without credentials it throws.
   */
  lemma BuildOfRun(env: Env, url: Option<string>, options: ClientOptions, s: State, es: seq<Event>)
    ensures var r, memory := ConfigOf(env, url, options, Run(s, es)), Memory(s.credentials, es);
      var version, mobileVersion :=
        PendingVersion(s.versionOverride, es), PendingMobileVersion(s.mobileAppVersionOverride, es);
      var count := s.connectAttemptCount + CountedCalls(Calls(es));
      && (memory == None ==> r.Thrown?)
      && (memory.Some? ==>
            && r == BuildCommsConfig(env, memory.value, url, options,
                                     if version.Some? then Literal(version.value) else options.version,
                                     mobileVersion, count)
            && (r.Returned? ==> HandshakeOf(env, memory.value, options, count, r.value.noise)))
  {
    NoLostUpdate(s, es);
    OverridesPending(s, es);
    AttemptsCounted(s, es);
    var state := Run(s, es);
    hide Run, BuildCommsConfig, HandshakeOf;
    if state.credentials.Some? {
      ReturnedConfigFields(env, state.credentials.value, url, options,
                           EffectiveVersion(state.versionOverride, options.version),
                           state.mobileAppVersionOverride, state.connectAttemptCount);
    }
  }

  /** A build without credentials throws, and still uses up both overrides. */
  lemma FailedBuildConsumesOverrides(env: Env, url: Option<string>, options: ClientOptions, s: State, v: string)
    requires s.credentials.None?
    ensures ConfigOf(env, url, options, Run(s, [SetVersion(v)])).Thrown?
    ensures Run(s, [SetVersion(v), Build]).versionOverride.None?
  {
    assert [] + [SetVersion(v)] == [SetVersion(v)] && [SetVersion(v)] + [Build] == [SetVersion(v), Build];
    assert Run(s, []) == s;
    RunStep(s, [], SetVersion(v));
    RunStep(s, [SetVersion(v)], Build);
  }
}
