/** The credentials record and the ways the client rewrites it. */
module CredentialRecord {
  import opened Prelude

  datatype RegistrationInfo = RegistrationInfo(registrationId: int, identityKeyPair: Bytes)

  datatype SignedPreKey = SignedPreKey(keyId: int, keyPair: Bytes, signature: Bytes)

  /** `hardware` stands for every device field but the app version. */
  datatype DeviceInfo = DeviceInfo(hardware: Bytes, appVersion: string)

  datatype Credentials = Credentials(
    noiseKeyPair: Bytes,
    registrationInfo: RegistrationInfo,
    signedPreKey: SignedPreKey,
    advSecretKey: Bytes,
    signedIdentity: Option<Bytes>,
    meJid: Option<string>,
    meLid: Option<string>,
    meDisplayName: Option<string>,
    companionEncStatic: Option<Bytes>,
    platform: Option<string>,
    serverStaticKey: Option<Bytes>,
    serverHasPreKeys: Option<bool>,
    routingInfo: Option<Bytes>,
    lastSuccessTs: Option<int>,
    loginCounter: Option<int>,
    propsVersion: Option<int>,
    abPropsVersion: Option<int>,
    connectionLocation: Option<string>,
    accountCreationTs: Option<int>,
    deviceInfo: Option<DeviceInfo>,
    pushName: Option<string>,
    yearClass: Option<int>,
    memClass: Option<int>)

  datatype SuccessAttributes = SuccessAttributes(
    meLid: Option<string>,
    meDisplayName: Option<string>,
    companionEncStatic: Option<Bytes>,
    lastSuccessTs: Option<int>,
    propsVersion: Option<int>,
    abPropsVersion: Option<int>,
    connectionLocation: Option<string>,
    accountCreationTs: Option<int>)

  /** The read-modify-write calls of the client. */
  datatype Call =
    | PersistServerStaticKey(serverStaticKey: Bytes)
    | PersistServerHasPreKeys(serverHasPreKeys: bool)
    | PersistRoutingInfo(routingInfo: Bytes)
    | ClearRoutingInfo
    | PersistSuccessAttributes(attributes: SuccessAttributes, countsAsLogin: bool)

  predicate Counted(call: Call) {
    call.PersistSuccessAttributes? && call.countsAsLogin
  }

  function CounterOf(c: Credentials): int {
    if c.loginCounter.Some? then c.loginCounter.value else 0
  }

  /** `buildNext` of a call. */
  function Next(call: Call, c: Credentials): (next: Credentials) {
    match call
    case PersistServerStaticKey(key) => c.(serverStaticKey := Some(key))
    case PersistServerHasPreKeys(flag) => c.(serverHasPreKeys := Some(flag))
    case PersistRoutingInfo(info) => c.(routingInfo := Some(info))
    case ClearRoutingInfo => c.(routingInfo := None)
    case PersistSuccessAttributes(a, counts) =>
      c.(meLid := OrElse(a.meLid, c.meLid),
         meDisplayName := OrElse(a.meDisplayName, c.meDisplayName),
         companionEncStatic := OrElse(a.companionEncStatic, c.companionEncStatic),
         lastSuccessTs := OrElse(a.lastSuccessTs, c.lastSuccessTs),
         loginCounter := if counts then Some(CounterOf(c) + 1) else c.loginCounter,
         propsVersion := OrElse(a.propsVersion, c.propsVersion),
         abPropsVersion := OrElse(a.abPropsVersion, c.abPropsVersion),
         connectionLocation := OrElse(a.connectionLocation, c.connectionLocation),
         accountCreationTs := OrElse(a.accountCreationTs, c.accountCreationTs))
  }

  /** Whether some attribute the success call compares has changed. */
  predicate SuccessDiff(c: Credentials, next: Credentials) {
    || next.loginCounter != c.loginCounter
    || next.meLid != c.meLid
    || next.meDisplayName != c.meDisplayName
    || (c.companionEncStatic.None? != next.companionEncStatic.None?)
    || (c.companionEncStatic.Some? && next.companionEncStatic.Some?
        && c.companionEncStatic.value != next.companionEncStatic.value)
    || next.lastSuccessTs != c.lastSuccessTs
    || next.propsVersion != c.propsVersion
    || next.abPropsVersion != c.abPropsVersion
    || next.connectionLocation != c.connectionLocation
    || next.accountCreationTs != c.accountCreationTs
  }

  /** `shouldPersist` of a call; the static key is always written. */
  predicate ShouldPersist(call: Call, c: Credentials, next: Credentials) {
    match call
    case PersistServerStaticKey(_) => true
    case PersistServerHasPreKeys(flag) => c.serverHasPreKeys != Some(flag)
    case PersistRoutingInfo(info) => !(c.routingInfo.Some? && c.routingInfo.value == info)
    case ClearRoutingInfo => c.routingInfo.Some?
    case PersistSuccessAttributes(_, _) => SuccessDiff(c, next)
  }

  /** A call decides not to persist only when its patch changes no field at all. */
  lemma SkipMeansUnchanged(call: Call, c: Credentials)
    ensures !ShouldPersist(call, c, Next(call, c)) ==> Next(call, c) == c
    ensures Next(call, c) != c ==> ShouldPersist(call, c, Next(call, c))
    ensures Counted(call) ==> ShouldPersist(call, c, Next(call, c))
  {
    var next := Next(call, c);
    if !ShouldPersist(call, c, next) && call.PersistSuccessAttributes? {
      assert next.companionEncStatic == c.companionEncStatic;
    }
  }

  /** Apart from the static key, which is always written, a call persists exactly when its patch changes something. */
  lemma PersistsExactly(call: Call, c: Credentials)
    ensures ShouldPersist(call, c, Next(call, c)) <==> call.PersistServerStaticKey? || Next(call, c) != c
  {
    SkipMeansUnchanged(call, c);
  }
}
