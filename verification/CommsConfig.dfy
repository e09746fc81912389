/** Building the connection settings from credentials, options and one-shot version overrides. */
module CommsConfig {
  import opened Prelude
  import opened Text
  import opened CredentialRecord

  const MAX_SAFE_INTEGER := 0x1F_FFFF_FFFF_FFFF

  // ---------------------------------------------------------------- versions

  /** `parseOptionalInt`: plain digits denoting a safe integer. */
  function ParseOptionalInt(s: string): (n: Option<nat>) {
    if IsDigits(s) && NatValue(s) <= MAX_SAFE_INTEGER then Some(NatValue(s)) else None
  }

  predicate AllNumeric(parts: seq<string>) {
    forall i | 0 <= i < |parts| :: ParseOptionalInt(parts[i]).Some?
  }

  /** `assertValidVersion` does not throw. */
  predicate ValidVersion(version: string, mobile: bool) {
    var parts := Split(version, '.');
    if mobile then |parts| == 4 && AllNumeric(parts)
    else 3 <= |parts| <= 5 && AllNumeric(parts)
  }

  predicate SafeNumbers(ns: seq<nat>) {
    forall i | 0 <= i < |ns| :: ns[i] <= 9007199254740991
  }

  /** Decimal texts of safe integers; leading zeros are allowed. */
  predicate Denotes(parts: seq<string>, ns: seq<nat>) {
    |parts| == |ns| && forall i | 0 <= i < |parts| :: IsDigits(parts[i]) && NatValue(parts[i]) == ns[i]
  }

  /**
   * The accepted versions are exactly the dotted decimal texts of four safe
   * integers on a mobile session, of three to five on a web session.
   */
  lemma ValidVersionExactly(version: string, mobile: bool)
    ensures ValidVersion(version, mobile)
       <==> exists parts, ns ::
              && Denotes(parts, ns) && SafeNumbers(ns)
              && (if mobile then |parts| == 4 else 3 <= |parts| <= 5)
              && version == Join(parts, '.')
  {
    if ValidVersion(version, mobile) {
      var parts := Split(version, '.');
      JoinSplit(version, '.');
      var ns := seq(|parts|, i requires 0 <= i < |parts| =>
        if ParseOptionalInt(parts[i]).Some? then NatValue(parts[i]) else 0);
      assert Denotes(parts, ns) && SafeNumbers(ns);
    }
    if parts, ns :|
      && Denotes(parts, ns) && SafeNumbers(ns)
      && (if mobile then |parts| == 4 else 3 <= |parts| <= 5)
      && version == Join(parts, '.')
    {
      assert Free(parts, '.') by {
        forall i | 0 <= i < |parts| ensures '.' !in parts[i] {
          assert IsDigits(parts[i]) && !IsDigit('.');
        }
      }
      SplitJoin(parts, '.');
      assert forall i | 0 <= i < |parts| :: NatValue(parts[i]) == ns[i] <= MAX_SAFE_INTEGER;
    }
  }

  // ---------------------------------------------------------------- settings

  /** What an async version resolver yields. */
  datatype Resolved = Text(s: string) | NotText | Failed

  /** The `version` option: absent, a literal, or a resolver. */
  datatype VersionOption = Unset | Literal(version: string) | Resolver(result: Resolved)

  datatype MobileTransport = MobileTransport(
    deviceInfo: DeviceInfo,
    tcpUrl: Option<string>,
    passive: Option<bool>,
    pushName: Option<string>,
    yearClass: Option<int>,
    memClass: Option<int>)

  datatype Identity = Identity(username: nat, device: nat)

  datatype MobileLogin = MobileLogin(
    identity: Identity,
    passive: bool,
    deviceInfo: DeviceInfo,
    pushName: Option<string>,
    yearClass: Option<int>,
    memClass: Option<int>)

  datatype LoginPayload = LoginPayload(
    identity: Identity,
    loginCounter: int,
    connectAttemptCount: nat,
    versionBase: Option<string>)

  datatype RegistrationPayload = RegistrationPayload(
    registrationInfo: RegistrationInfo,
    signedPreKey: SignedPreKey,
    requireFullSync: Option<bool>,
    versionBase: Option<string>)

  datatype NoiseConfig = NoiseConfig(
    clientStaticKeyPair: Bytes,
    isRegistered: bool,
    serverStaticKey: Option<Bytes>,
    routingInfo: Option<Bytes>,
    skipCertificateChain: bool,
    loginPayload: Option<MobileLogin>,
    loginPayloadConfig: Option<LoginPayload>,
    registrationPayloadConfig: Option<RegistrationPayload>)

  datatype Config = Config(url: Option<string>, rawSocket: bool, noise: NoiseConfig)

  /** The options of the client that matter here. */
  datatype ClientOptions = ClientOptions(
    version: VersionOption,
    mobileTransport: Option<MobileTransport>,
    requireFullSync: Option<bool>,
    disableNoiseCertificateChainVerification: bool)

  /**
   * The parts not modelled: JID parsing, whether the proxy can carry raw TCP,
   * and whether a mobile login payload can be encoded.
   */
  datatype Env = Env(
    loginIdentity: string -> Outcome<Identity>,
    tcpProxySupported: bool,
    payloadEncodes: MobileLogin -> bool)

  const MOBILE_URL := "tcp://g.whatsapp.net:443"

  function MobileTransportFromCredentials(c: Credentials): (t: Option<MobileTransport>) {
    if c.deviceInfo.None? then None
    else Some(MobileTransport(c.deviceInfo.value, None, None, c.pushName, c.yearClass, c.memClass))
  }

  function EffectiveTransport(c: Credentials, options: ClientOptions): (t: Option<MobileTransport>) {
    OrElse(options.mobileTransport, MobileTransportFromCredentials(c))
  }

  function ResolveVersion(version: VersionOption): (r: Outcome<Option<string>>) {
    match version
    case Unset => Returned(None)
    case Literal(s) => Returned(Some(s))
    case Resolver(Text(s)) => if s == "" then Thrown else Returned(Some(s))
    case Resolver(_) => Thrown
  }

  /** `override ?? options.version`. */
  function EffectiveVersion(override: Option<string>, version: VersionOption): (v: VersionOption) {
    if override.Some? then Literal(override.value) else version
  }

  function BuildCommsConfig(
    env: Env, c: Credentials, url: Option<string>, options: ClientOptions, version: VersionOption,
    mobileAppVersionOverride: Option<string>, connectAttemptCount: nat): (r: Outcome<Config>)
  {
    var identity := if c.meJid.Some? then env.loginIdentity(c.meJid.value) else Thrown;
    if c.meJid.Some? && identity.Thrown? then Thrown
    else
      var transport := EffectiveTransport(c, options);
      var resolution := if transport.Some? && mobileAppVersionOverride.Some? then Returned(None)
        else ResolveVersion(version);
      if resolution.Thrown? then Thrown
      else
        var resolved := resolution.value;
        if resolved.Some? && !ValidVersion(resolved.value, transport.Some?) then Thrown
        else if transport.Some? then
          MobileConfig(env, c, options, transport.value, identity, resolved, mobileAppVersionOverride)
        else
          Returned(Config(url, false, NoiseConfig(
            c.noiseKeyPair,
            c.meJid.Some?,
            if c.meJid.Some? then c.serverStaticKey else None,
            c.routingInfo,
            options.disableNoiseCertificateChainVerification,
            None,
            if identity.Returned?
            then Some(LoginPayload(identity.value, CounterOf(c), connectAttemptCount, resolved)) else None,
            if identity.Thrown?
            then Some(RegistrationPayload(c.registrationInfo, c.signedPreKey, options.requireFullSync, resolved))
            else None)))
  }

  /** The login of a mobile session, its app version replaced by a non-empty override. */
  function LoginOf(identity: Identity, transport: MobileTransport, appVersion: Option<string>): (payload: MobileLogin) {
    var deviceInfo := if appVersion.Some? && appVersion.value != ""
      then transport.deviceInfo.(appVersion := appVersion.value) else transport.deviceInfo;
    MobileLogin(identity, transport.passive == Some(true), deviceInfo,
                transport.pushName, transport.yearClass, transport.memClass)
  }

  function MobileConfig(
    env: Env, c: Credentials, options: ClientOptions, transport: MobileTransport, identity: Outcome<Identity>,
    resolved: Option<string>, mobileAppVersionOverride: Option<string>): (r: Outcome<Config>)
  {
    if !env.tcpProxySupported || identity.Thrown? then Thrown
    else if mobileAppVersionOverride.Some? && !ValidVersion(mobileAppVersionOverride.value, true) then Thrown
    else
      var payload := LoginOf(identity.value, transport, OrElse(mobileAppVersionOverride, resolved));
      if !env.payloadEncodes(payload) then Thrown
      else
        Returned(Config(OrElse(transport.tcpUrl, Some(MOBILE_URL)), true, NoiseConfig(
          c.noiseKeyPair, true, c.serverStaticKey, c.routingInfo,
          options.disableNoiseCertificateChainVerification, Some(payload), None, None)))
  }

  // -------------------------------------------------------------- properties

  /** The version a returned configuration advertises: the app version on mobile, the base on the web. */
  function Advertised(config: Config): (v: Option<string>) {
    if config.noise.loginPayload.Some? then Some(config.noise.loginPayload.value.deviceInfo.appVersion)
    else if config.noise.loginPayloadConfig.Some? then config.noise.loginPayloadConfig.value.versionBase
    else if config.noise.registrationPayloadConfig.Some? then config.noise.registrationPayloadConfig.value.versionBase
    else None
  }

  function PayloadCount(noise: NoiseConfig): nat {
    (if noise.loginPayload.Some? then 1 else 0) + (if noise.loginPayloadConfig.Some? then 1 else 0)
    + (if noise.registrationPayloadConfig.Some? then 1 else 0)
  }

  /** Exactly one payload travels; it logs in if and only if the credentials are registered. */
  lemma OnePayload(env: Env, c: Credentials, url: Option<string>, options: ClientOptions,
                   version: VersionOption, mobileOverride: Option<string>, count: nat)
    ensures var r := BuildCommsConfig(env, c, url, options, version, mobileOverride, count);
      r.Returned? ==>
        && PayloadCount(r.value.noise) == 1
        && (r.value.noise.registrationPayloadConfig.Some? <==> c.meJid.None?)
        && (r.value.noise.loginPayload.Some? <==> EffectiveTransport(c, options).Some?)
        && (r.value.noise.isRegistered <==> c.meJid.Some?)
        && (r.value.rawSocket <==> EffectiveTransport(c, options).Some?)
        && (r.value.noise.loginPayloadConfig.Some? ==>
              && r.value.noise.loginPayloadConfig.value.loginCounter == CounterOf(c)
              && r.value.noise.loginPayloadConfig.value.connectAttemptCount == count)
  {
  }

  /** The text that wins among the overrides and the option, before validation. */
  function Winner(mobile: bool, mobileOverride: Option<string>, override: Option<string>,
      option: VersionOption): (v: Option<string>) {
    if mobile && mobileOverride.Some? then mobileOverride
    else if override.Some? then override
    else match option
      case Unset => None
      case Literal(s) => Some(s)
      case Resolver(Text(s)) => Some(s)
      case Resolver(_) => None
  }

  /**
   * What a returned configuration advertises. On mobile: the app-version
   * override, else the version override, else the option, else the device's own
   * app version. On the web the app-version override plays no part. Every text
   * taken from an override or the option has passed validation for that
   * transport.
   */
  lemma AdvertisedVersion(env: Env, c: Credentials, url: Option<string>, options: ClientOptions,
                          override: Option<string>, mobileOverride: Option<string>, count: nat)
    ensures var mobile := EffectiveTransport(c, options).Some?;
      var r := BuildCommsConfig(env, c, url, options, EffectiveVersion(override, options.version), mobileOverride,
        count);
      var winner := Winner(mobile, mobileOverride, override, options.version);
      r.Returned? ==>
        && (winner.Some? ==> ValidVersion(winner.value, mobile) && Advertised(r.value) == winner)
        && (winner.None? && mobile
          ==> Advertised(r.value) == Some(EffectiveTransport(c, options).value.deviceInfo.appVersion))
        && (winner.None? && !mobile ==> Advertised(r.value) == None)
  {
    EmptyVersionInvalid();
  }

  lemma EmptyVersionInvalid()
    ensures !ValidVersion("", true) && !ValidVersion("", false)
  {
  }

  /** An invalid winner is always refused, whatever else is set. */
  lemma InvalidWinnerRefused(env: Env, c: Credentials, url: Option<string>, options: ClientOptions,
                             override: Option<string>, mobileOverride: Option<string>, count: nat)
    ensures var mobile := EffectiveTransport(c, options).Some?;
      var winner := Winner(mobile, mobileOverride, override, options.version);
      winner.Some? && !ValidVersion(winner.value, mobile) ==>
        BuildCommsConfig(
          env, c, url, options, EffectiveVersion(override, options.version), mobileOverride, count).Thrown?
  {
    AdvertisedVersion(env, c, url, options, override, mobileOverride, count);
  }

  /**
   * A version override does reach a mobile session when no app-version override
   * is pending: the two configurations differ exactly in the app version.
   */
  lemma VersionOverrideReachesMobile(env: Env, c: Credentials, url: Option<string>, options: ClientOptions,
                                     override: string, count: nat)
    requires EffectiveTransport(c, options).Some?
    ensures var r :=
        BuildCommsConfig(env, c, url, options, EffectiveVersion(Some(override), options.version), None, count);
      r.Returned? ==> Advertised(r.value) == Some(override)
    ensures ValidVersion(override, true) && c.meJid.Some? && env.loginIdentity(c.meJid.value).Returned?
        && env.tcpProxySupported
        && (forall p :: env.payloadEncodes(p))
        ==> BuildCommsConfig(
              env, c, url, options, EffectiveVersion(Some(override), options.version), None, count).Returned?
  {
    AdvertisedVersion(env, c, url, options, Some(override), None, count);
  }

  // ------------------------------------------------- what a build returns

  /** The transport of a mobile session: the option where given, else the stored device with the stored profile. */
  predicate IsTransportOf(t: MobileTransport, c: Credentials, options: ClientOptions) {
    if options.mobileTransport.Some? then Some(t) == options.mobileTransport
    else
      && Some(t.deviceInfo) == c.deviceInfo && t.tcpUrl == None && t.passive == None
      && t.pushName == c.pushName && t.yearClass == c.yearClass && t.memClass == c.memClass
  }

  /** The text that becomes the advertised version is valid; none is needed. */
  predicate VersionAccepted(mobile: bool, mobileOverride: Option<string>, version: VersionOption) {
    if mobile && mobileOverride.Some? then ValidVersion(mobileOverride.value, true)
    else
      match version
      case Unset => true
      case Literal(s) => ValidVersion(s, mobile)
      case Resolver(Text(s)) => s != "" && ValidVersion(s, mobile)
      case Resolver(_) => false
  }

  /** The login a mobile session would send. */
  predicate IsMobileLogin(payload: MobileLogin, identity: Identity, t: MobileTransport, mobileOverride: Option<string>,
                          version: VersionOption) {
    && payload.identity == identity && (payload.passive <==> t.passive == Some(true))
    && payload.pushName == t.pushName && payload.yearClass == t.yearClass && payload.memClass == t.memClass
    && payload.deviceInfo.hardware == t.deviceInfo.hardware
    && payload.deviceInfo.appVersion == (
         if mobileOverride.Some? then mobileOverride.value
         else match version
           case Literal(s) => s
           case Resolver(Text(s)) => s
           case _ => t.deviceInfo.appVersion)
  }

  /**
   * A build returns if and only if the own JID, when there is one, parses, the
   * winning version text is accepted, and a mobile session has a suitable
   * proxy, registered credentials and a login that can be encoded. A web
   * session needs no registration.
   */
  lemma BuildReturnsExactly(env: Env, c: Credentials, url: Option<string>, options: ClientOptions,
                            version: VersionOption, mobileOverride: Option<string>, count: nat)
    ensures var mobile := options.mobileTransport.Some? || c.deviceInfo.Some?;
      BuildCommsConfig(env, c, url, options, version, mobileOverride, count).Returned?
      <==> && (c.meJid.Some? ==> env.loginIdentity(c.meJid.value).Returned?)
           && VersionAccepted(mobile, mobileOverride, version)
           && (mobile ==> env.tcpProxySupported && c.meJid.Some? && exists payload, t ::
                 && IsTransportOf(t, c, options)
                 && IsMobileLogin(payload, env.loginIdentity(c.meJid.value).value, t, mobileOverride, version)
                 && env.payloadEncodes(payload))
  {
    EmptyVersionInvalid();
    hide ValidVersion;
    if (options.mobileTransport.Some? || c.deviceInfo.Some?) && c.meJid.Some?
       && env.loginIdentity(c.meJid.value).Returned? && VersionAccepted(true, mobileOverride, version) {
      MobileLoginUnique(env, c, options, env.loginIdentity(c.meJid.value).value, version, mobileOverride);
    }
  }

  /** The transport a mobile session uses and the login it sends are determined. */
  lemma MobileLoginUnique(env: Env, c: Credentials, options: ClientOptions, identity: Identity, version: VersionOption,
                          mobileOverride: Option<string>)
    requires options.mobileTransport.Some? || c.deviceInfo.Some?
    requires VersionAccepted(true, mobileOverride, version)
    ensures var t := EffectiveTransport(c, options).value;
      var resolved := if mobileOverride.Some? then None else ResolveVersion(version).value;
      var payload := LoginOf(identity, t, OrElse(mobileOverride, resolved));
      && IsTransportOf(t, c, options) && IsMobileLogin(payload, identity, t, mobileOverride, version)
      && (forall u | IsTransportOf(u, c, options) :: u == t)
      && (forall other | IsMobileLogin(other, identity, t, mobileOverride, version) :: other == payload)
  {
    EmptyVersionInvalid();
    hide ValidVersion;
  }

  /** The handshake of a returned configuration, field by field. */
  predicate HandshakeOf(env: Env, c: Credentials, options: ClientOptions, count: nat, noise: NoiseConfig) {
    var mobile := options.mobileTransport.Some? || c.deviceInfo.Some?;
    && noise.clientStaticKeyPair == c.noiseKeyPair
    && noise.routingInfo == c.routingInfo
    && noise.serverStaticKey == (if c.meJid.Some? then c.serverStaticKey else None)
    && noise.skipCertificateChain == options.disableNoiseCertificateChainVerification
    && (noise.isRegistered <==> c.meJid.Some?)
    && (noise.loginPayload.Some? <==> mobile)
    && (noise.loginPayloadConfig.Some? ==>
          && c.meJid.Some? && Returned(noise.loginPayloadConfig.value.identity) == env.loginIdentity(c.meJid.value)
          && noise.loginPayloadConfig.value.loginCounter == (if c.loginCounter.Some? then c.loginCounter.value else 0)
          && noise.loginPayloadConfig.value.connectAttemptCount == count)
    && (noise.registrationPayloadConfig.Some? <==> c.meJid.None?)
    && (noise.registrationPayloadConfig.Some? ==>
          && noise.registrationPayloadConfig.value.registrationInfo == c.registrationInfo
          && noise.registrationPayloadConfig.value.signedPreKey == c.signedPreKey
          && noise.registrationPayloadConfig.value.requireFullSync == options.requireFullSync)
  }

  /** Where every part of a returned configuration comes from. */
  lemma ReturnedConfigFields(env: Env, c: Credentials, url: Option<string>, options: ClientOptions,
                             version: VersionOption, mobileOverride: Option<string>, count: nat)
    ensures var r := BuildCommsConfig(env, c, url, options, version, mobileOverride, count);
      r.Returned? ==>
        && HandshakeOf(env, c, options, count, r.value.noise)
        && (r.value.rawSocket <==> options.mobileTransport.Some? || c.deviceInfo.Some?)
        && (!r.value.rawSocket ==> r.value.url == url)
        && (r.value.rawSocket ==> exists t ::
              && IsTransportOf(t, c, options)
              && r.value.url == (if t.tcpUrl.Some? then t.tcpUrl else Some("tcp://g.whatsapp.net:443"))
              && c.meJid.Some? && env.loginIdentity(c.meJid.value).Returned?
              && IsMobileLogin(r.value.noise.loginPayload.value, env.loginIdentity(c.meJid.value).value, t,
                               mobileOverride, version))
  {
    var r := BuildCommsConfig(env, c, url, options, version, mobileOverride, count);
    BuildReturnsExactly(env, c, url, options, version, mobileOverride, count);
    hide ValidVersion;
    if r.Returned? && r.value.rawSocket {
      MobileLoginUnique(env, c, options, env.loginIdentity(c.meJid.value).value, version, mobileOverride);
    }
  }
}
