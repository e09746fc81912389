/**
 * The auth client and the store it writes to. Each call runs to its first
 * suspension in one stretch: it changes memory and hands the store a write;
 * the store settles its writes later.
 */
module AuthClient {
  import opened Prelude
  import opened CredentialRecord
  import opened CommsConfig

  // ------------------------------------------------------------------ states

  /** A write the store was asked for: new credentials, or `None` to clear. */
  type Write = Option<Credentials>

  /** Memory of the client and contents of the store; `pending` is in request order. */
  datatype State = State(
    credentials: Option<Credentials>,
    saved: Option<Credentials>,
    pending: seq<Write>,
    connectAttemptCount: nat,
    versionOverride: Option<string>,
    mobileAppVersionOverride: Option<string>)

  datatype Event =
    | Invoke(call: Call)
    | Replace(credentials: Credentials)
    | ClearStored
    | Settle(ok: bool)
    | SetVersion(version: string)
    | SetMobileAppVersion(appVersion: string)
    | Build

  function Assign(s: State, value: Write): (t: State) {
    s.(credentials := value, pending := s.pending + [value])
  }

  /** One patch: refused without credentials, skipped when nothing is to be persisted. */
  function Patch(s: State, call: Call): (t: State) {
    if s.credentials.None? then s
    else
      var next := Next(call, s.credentials.value);
      if ShouldPersist(call, s.credentials.value, next) then Assign(s, Some(next)) else s
  }

  function CountLogin(s: State, call: Call): (t: State) {
    if Counted(call) then s.(connectAttemptCount := s.connectAttemptCount + 1) else s
  }

  function SettleFirst(s: State, ok: bool): (t: State) {
    if s.pending == [] then s
    else s.(saved := if ok then s.pending[0] else s.saved, pending := s.pending[1..])
  }

  function Step(s: State, e: Event): (t: State) {
    match e
    case Invoke(call) => Patch(CountLogin(s, call), call)
    case Replace(c) => Assign(s, Some(c))
    case ClearStored => Assign(s, None)
    case Settle(ok) => SettleFirst(s, ok)
    case SetVersion(v) => s.(versionOverride := Some(v))
    case SetMobileAppVersion(v) => s.(mobileAppVersionOverride := Some(v))
    case Build => s.(versionOverride := None, mobileAppVersionOverride := None)
  }

  function Run(s: State, es: seq<Event>): (t: State)
    decreases |es|
  {
    if es == [] then s else Step(Run(s, es[..|es| - 1]), es[|es| - 1])
  }

  // ----------------------------------------------------------------- classes

  /** The auth store, settling its writes first in, first out. */
  class AuthStore {
    var saved: Option<Credentials>
    var pending: seq<Write>

    constructor (initial: Option<Credentials>)
      ensures saved == initial && pending == []
    {
      saved, pending := initial, [];
    }

    method Save(c: Credentials)
      modifies this
      ensures saved == old(saved) && pending == old(pending) + [Some(c)]
    {
      pending := pending + [Some(c)];
    }

    method Clear()
      modifies this
      ensures saved == old(saved) && pending == old(pending) + [None]
    {
      pending := pending + [None];
    }

    /** The oldest write completes, or fails and leaves the store as it was. */
    method SettleOldest(ok: bool)
      modifies this
      ensures old(pending) == [] ==> saved == old(saved) && pending == []
      ensures old(pending) != [] ==> pending == old(pending)[1..] && saved == if ok then old(pending)[0] else old(saved)
      ensures forall s: State | s.saved == old(saved) && s.pending == old(pending) ::
        Step(s, Settle(ok)) == s.(saved := saved, pending := pending)
    {
      if pending != [] {
        if ok {
          saved := pending[0];
        }
        pending := pending[1..];
      }
    }
  }

  class WaAuthClient {
    const options: ClientOptions
    const authStore: AuthStore
    var credentials: Option<Credentials>
    var versionOverride: Option<string>
    var mobileAppVersionOverride: Option<string>
    var connectAttemptCount: nat

    constructor (options: ClientOptions, authStore: AuthStore)
      ensures this.options == options && this.authStore == authStore
      ensures credentials == None && versionOverride == None && mobileAppVersionOverride == None
          && connectAttemptCount == 0
    {
      this.options := options;
      this.authStore := authStore;
      credentials, versionOverride, mobileAppVersionOverride := None, None, None;
      connectAttemptCount := 0;
    }

    ghost function Snapshot(): (s: State)
      reads this, authStore
    {
      State(credentials, authStore.saved, authStore.pending, connectAttemptCount, versionOverride,
        mobileAppVersionOverride)
    }

    /** Memory first, then the request to the store, with nothing in between. */
    method UpdateCredentials(c: Credentials)
      modifies this, authStore
      ensures Snapshot() == Step(old(Snapshot()), Replace(c))
    {
      credentials := Some(c);
      authStore.Save(c);
    }

    /** The result is what the call resolves to once its write, if any, has settled well. */
    method PatchCredentials(buildNext: Credentials -> Credentials, shouldPersist: (Credentials, Credentials) -> bool)
      returns (r: Outcome<Credentials>)
      modifies this, authStore
      ensures old(credentials).None? ==> r == Thrown && Snapshot() == old(Snapshot())
      ensures old(credentials).Some? ==>
        var current := old(credentials).value;
        var next := buildNext(current);
        if shouldPersist(current, next)
        then r == Returned(next) && Snapshot() == Assign(old(Snapshot()), Some(next))
        else r == Returned(current) && Snapshot() == old(Snapshot())
    {
      if credentials.None? {
        return Thrown;
      }
      var current := credentials.value;
      var next := buildNext(current);
      if !shouldPersist(current, next) {
        return Returned(current);
      }
      UpdateCredentials(next);
      return Returned(next);
    }

    method PersistServerStaticKey(serverStaticKey: Bytes) returns (r: Outcome<Credentials>)
      modifies this, authStore
      ensures Snapshot() == Step(old(Snapshot()), Invoke(Call.PersistServerStaticKey(serverStaticKey)))
      ensures r.Returned? <==> old(credentials).Some?
    {
      r := PatchCredentials(
        (c: Credentials) => c.(serverStaticKey := Some(serverStaticKey)),
        (_: Credentials, _: Credentials) => true);
    }

    method PersistServerHasPreKeys(serverHasPreKeys: bool) returns (r: Outcome<Credentials>)
      modifies this, authStore
      ensures Snapshot() == Step(old(Snapshot()), Invoke(Call.PersistServerHasPreKeys(serverHasPreKeys)))
      ensures r.Returned? <==> old(credentials).Some?
    {
      r := PatchCredentials(
        (c: Credentials) => c.(serverHasPreKeys := Some(serverHasPreKeys)),
        (current: Credentials, _: Credentials) => current.serverHasPreKeys != Some(serverHasPreKeys));
    }

    method PersistRoutingInfo(routingInfo: Bytes) returns (r: Outcome<Credentials>)
      modifies this, authStore
      ensures Snapshot() == Step(old(Snapshot()), Invoke(Call.PersistRoutingInfo(routingInfo)))
      ensures r.Returned? <==> old(credentials).Some?
    {
      r := PatchCredentials(
        (c: Credentials) => c.(routingInfo := Some(routingInfo)),
        (current: Credentials, _: Credentials) =>
          !(current.routingInfo.Some? && current.routingInfo.value == routingInfo));
    }

    method ClearRoutingInfo() returns (r: Outcome<Credentials>)
      modifies this, authStore
      ensures Snapshot() == Step(old(Snapshot()), Invoke(Call.ClearRoutingInfo))
      ensures r.Returned? ==> r.value.routingInfo.None? && credentials == Some(r.value)
      ensures r.Returned? <==> old(credentials).Some?
    {
      r := PatchCredentials(
        (c: Credentials) => c.(routingInfo := None),
        (current: Credentials, _: Credentials) => current.routingInfo.Some?);
    }

    method PersistSuccessAttributes(attributes: SuccessAttributes, countsAsLogin: bool)
      returns (r: Outcome<Credentials>)
      modifies this, authStore
      ensures Snapshot() == Step(old(Snapshot()), Invoke(Call.PersistSuccessAttributes(attributes, countsAsLogin)))
      ensures r.Returned? <==> old(credentials).Some?
    {
      if countsAsLogin {
        connectAttemptCount := connectAttemptCount + 1;
      }
      r := PatchCredentials(
        (c: Credentials) => c.(meLid := OrElse(attributes.meLid, c.meLid),
                meDisplayName := OrElse(attributes.meDisplayName, c.meDisplayName),
                companionEncStatic := OrElse(attributes.companionEncStatic, c.companionEncStatic),
                lastSuccessTs := OrElse(attributes.lastSuccessTs, c.lastSuccessTs),
                loginCounter := if countsAsLogin then Some(CounterOf(c) + 1) else c.loginCounter,
                propsVersion := OrElse(attributes.propsVersion, c.propsVersion),
                abPropsVersion := OrElse(attributes.abPropsVersion, c.abPropsVersion),
                connectionLocation := OrElse(attributes.connectionLocation, c.connectionLocation),
                accountCreationTs := OrElse(attributes.accountCreationTs, c.accountCreationTs)),
        (current: Credentials, next: Credentials) => SuccessDiff(current, next));
    }

    method ClearStoredCredentials()
      modifies this, authStore
      ensures Snapshot() == Step(old(Snapshot()), ClearStored)
    {
      credentials := None;
      authStore.Clear();
    }

    method SetNextConnectVersion(version: string)
      modifies this
      ensures Snapshot() == Step(old(Snapshot()), SetVersion(version))
    {
      versionOverride := Some(version);
    }

    method SetNextConnectMobileAppVersion(appVersion: string)
      modifies this
      ensures Snapshot() == Step(old(Snapshot()), SetMobileAppVersion(appVersion))
    {
      mobileAppVersionOverride := Some(appVersion);
    }

    /** Both overrides are consumed before anything can fail, a missing set of credentials included. */
    method BuildConfig(env: Env, url: Option<string>) returns (r: Outcome<Config>)
      modifies this
      ensures Snapshot() == Step(old(Snapshot()), Build)
      ensures r == ConfigOf(env, url, options, old(Snapshot()))
    {
      var override := versionOverride;
      versionOverride := None;
      var mobileOverride := mobileAppVersionOverride;
      mobileAppVersionOverride := None;
      if credentials.None? {
        return Thrown;
      }
      r := BuildCommsConfig(env, credentials.value, url, options,
                            EffectiveVersion(override, options.version), mobileOverride, connectAttemptCount);
    }
  }

  /** The configuration a build in state `s` returns. */
  function ConfigOf(env: Env, url: Option<string>, options: ClientOptions, s: State): (r: Outcome<Config>) {
    if s.credentials.None? then Thrown
    else BuildCommsConfig(env, s.credentials.value, url, options,
                          EffectiveVersion(s.versionOverride, options.version), s.mobileAppVersionOverride,
                          s.connectAttemptCount)
  }
}
