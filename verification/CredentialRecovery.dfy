/** What load attempts leave in the stores over whole runs, with writes landing between and inside them. */
module CredentialRecovery {
  import opened Prelude
  import opened CredentialRecord
  import opened CredentialLoad

  lemma {:induction false} ApplyAppend(s: Contents, ws: seq<SignalWrite>, more: seq<SignalWrite>)
    ensures ApplyAll(s, ws + more) == ApplyAll(ApplyAll(s, ws), more)
    decreases |ws|
  {
    hide Apply;
    if ws == [] {
      assert ws + more == more;
    } else {
      assert (ws + more)[1..] == ws[1..] + more;
      ApplyAppend(Apply(s, ws[0]), ws[1..], more);
    }
  }

  /** Which writes are running does not matter to the stores. */
  lemma {:induction false} LateApart(s: Contents, ws: seq<SignalWrite>, late: seq<SignalWrite>)
    ensures ApplyAll(s.(late := late), ws) == ApplyAll(s, ws).(late := late)
    decreases |ws|
  {
    if ws != [] {
      assert Apply(s.(late := late), ws[0]) == Apply(s, ws[0]).(late := late);
      LateApart(Apply(s, ws[0]), ws[1..], late);
    }
  }

  // -------------------------------------------------------------------- runs

  /** Load attempts, and late writes of failed ones that land between them. */
  datatype Event = Load(plan: Plan) | Land(which: nat)

  function Step(s: Contents, e: Event, env: Env): (t: Contents) {
    match e
    case Load(p) => Attempt(s, p, env).0
    case Land(i) => LandLate(s, i)
  }

  function Run(s: Contents, es: seq<Event>, env: Env): (t: Contents)
    decreases |es|
  {
    if es == [] then s else Step(Run(s, es[..|es| - 1], env), es[|es| - 1], env)
  }

  lemma RunStep(s: Contents, es: seq<Event>, e: Event, env: Env)
    ensures Run(s, es + [e], env) == Step(Run(s, es, env), e, env)
  {
    assert (es + [e])[..|es|] == es;
  }

  // --------------------------------------------------- what lands in a wait

  /** The writes that land during a wait, in order. */
  function Landed(g: Progress, actions: seq<Action>, ordered: bool): (ws: seq<SignalWrite>)
    decreases |actions|
  {
    if actions == [] then []
    else
      var w := WriteOf(g, actions[0], ordered);
      (if w.Some? then [w.value] else []) + Landed(Act(g, actions[0], ordered), actions[1..], ordered)
  }

  lemma ActApplies(g: Progress, a: Action, ordered: bool)
    ensures var h, w := Act(g, a, ordered), WriteOf(g, a, ordered);
      && h.contents == (if w.Some? then Apply(g.contents, w.value) else g.contents).(late := h.contents.late)
      && (forall x | x in g.left :: Some(x) == w || x in h.left)
      && (forall x | x in h.left :: x in g.left) && (forall x | x in h.contents.late :: x in g.contents.late)
      && (w.Some? ==> w.value in g.left || w.value in g.contents.late)
  {
    hide Apply;
    if WriteOf(g, a, ordered).Some? {
      var k := if a.Late? || !ordered then a.which else 0;
      var from := if a.Own? then g.left else g.contents.late;
      assert from == from[..k] + [from[k]] + from[k + 1..];
    }
  }

  /**
   * The stores after a wait are the stores with the landed writes applied;
   * each write of the attempt has landed or is left, and nothing else lands
   * but writes that were running.
   */
  lemma {:induction false} PlayApplies(g: Progress, actions: seq<Action>, ordered: bool)
    ensures var h, ws := Play(g, actions, ordered), Landed(g, actions, ordered);
      && h.contents == ApplyAll(g.contents, ws).(late := h.contents.late)
      && (forall x | x in g.left :: x in ws || x in h.left)
      && (forall x | x in h.left :: x in g.left) && (forall x | x in h.contents.late :: x in g.contents.late)
      && (forall x | x in ws :: x in g.left || x in g.contents.late)
    decreases |actions|
  {
    hide Act, WriteOf, Apply;
    if actions != [] {
      var mid, w := Act(g, actions[0], ordered), WriteOf(g, actions[0], ordered);
      ActApplies(g, actions[0], ordered);
      PlayApplies(mid, actions[1..], ordered);
      var later := Landed(mid, actions[1..], ordered);
      LateApart(if w.Some? then Apply(g.contents, w.value) else g.contents, later, mid.contents.late);
      if w.Some? {
        assert ([w.value] + later)[1..] == later;
      } else {
        assert [] + later == later;
      }
    }
  }

  // ---------------------------------------------------------------- recovery

  /** The stores the writes go to. */
  datatype Store = Registration | PreKeyRecord | PreKeyFlag | FirstPreKey

  function StoreOf(w: SignalWrite): Store {
    match w
    case SetRegistrationInfo(_) => Registration
    case SetSignedPreKey(_) => PreKeyRecord
    case SetServerHasPreKeys(_) => PreKeyFlag
    case PutFirstPreKey => FirstPreKey
  }

  /** The store holds what `c` says. */
  predicate Holds(s: Contents, k: Store, c: Credentials) {
    match k
    case Registration => s.registrationInfo == Some(c.registrationInfo)
    case PreKeyRecord => s.signedPreKey == Some(c.signedPreKey)
    case PreKeyFlag => s.serverHasPreKeys == Some(c.serverHasPreKeys == Some(true))
    case FirstPreKey => true
  }

  predicate WriteAgrees(w: SignalWrite, c: Credentials) {
    match w
    case SetRegistrationInfo(info) => info == c.registrationInfo
    case SetSignedPreKey(record) => record == c.signedPreKey
    case SetServerHasPreKeys(flag) => flag == (c.serverHasPreKeys == Some(true))
    case PutFirstPreKey => true
  }

  /** All stores tell the same story as `c`. */
  predicate Agree(s: Contents, c: Credentials) {
    && s.auth == Some(c)
    && s.registrationInfo == Some(c.registrationInfo)
    && s.signedPreKey == Some(c.signedPreKey)
    && s.serverHasPreKeys == Some(c.serverHasPreKeys == Some(true))
  }

  predicate NoneTo(ws: seq<SignalWrite>, k: Store) {
    forall i | 0 <= i < |ws| :: StoreOf(ws[i]) != k
  }

  /** No later write goes to the same store. */
  predicate IsLast(ws: seq<SignalWrite>, i: nat) {
    i < |ws| && NoneTo(ws[i + 1..], StoreOf(ws[i]))
  }

  /** The last write to land on each store is one that agrees with `c`. */
  predicate LastWritesAgree(ws: seq<SignalWrite>, c: Credentials) {
    forall i | 0 <= i < |ws| && IsLast(ws, i) :: WriteAgrees(ws[i], c)
  }

  lemma {:induction false} Untouched(s: Contents, ws: seq<SignalWrite>, k: Store, c: Credentials)
    requires NoneTo(ws, k)
    ensures Holds(ApplyAll(s, ws), k, c) <==> Holds(s, k, c)
    decreases |ws|
  {
    if ws != [] {
      assert StoreOf(ws[0]) != k;
      assert forall i | 0 <= i < |ws[1..]| :: ws[1..][i] == ws[i + 1];
      Untouched(Apply(s, ws[0]), ws[1..], k, c);
    }
  }

  /** The last write to a store decides what it holds. */
  lemma {:induction false} LastDecides(s: Contents, ws: seq<SignalWrite>, i: nat, c: Credentials)
    requires IsLast(ws, i)
    ensures Holds(ApplyAll(s, ws), StoreOf(ws[i]), c) <==> StoreOf(ws[i]).FirstPreKey? || WriteAgrees(ws[i], c)
    decreases |ws|
  {
    hide NoneTo;
    if i == 0 {
      Untouched(Apply(s, ws[0]), ws[1..], StoreOf(ws[0]), c);
    } else {
      assert ws[1..][i - 1] == ws[i] && ws[1..][i..] == ws[i + 1..];
      LastDecides(Apply(s, ws[0]), ws[1..], i - 1, c);
    }
  }

  lemma {:induction false} LastExists(ws: seq<SignalWrite>, w: SignalWrite) returns (i: nat)
    requires w in ws
    ensures IsLast(ws, i) && StoreOf(ws[i]) == StoreOf(w)
    decreases |ws|
  {
    var n := |ws| - 1;
    if StoreOf(ws[n]) == StoreOf(w) {
      i := n;
    } else {
      assert ws == ws[..n] + [ws[n]];
      i := LastExists(ws[..n], w);
      assert ws[i + 1..] == ws[..n][i + 1..] + [ws[n]];
    }
  }

  /** With a write of `c` to every store among those that land, the last ones decide the agreement. */
  lemma AgreeExactly(s: Contents, ws: seq<SignalWrite>, c: Credentials)
    requires s.auth == Some(c) && forall w | w in RestoreWrites(c) :: w in ws
    ensures Agree(ApplyAll(s, ws), c) <==> LastWritesAgree(ws, c)
  {
    hide ApplyAll, IsLast;
    forall i | 0 <= i < |ws| && IsLast(ws, i)
      ensures Holds(ApplyAll(s, ws), StoreOf(ws[i]), c) <==> WriteAgrees(ws[i], c)
    {
      LastDecides(s, ws, i, c);
    }
    var own := RestoreWrites(c);
    assert own[0] in own && own[1] in own && own[2] in own;
    var a := LastExists(ws, own[0]);
    var b := LastExists(ws, own[1]);
    var d := LastExists(ws, own[2]);
    var t := ApplyAll(s, ws);
    assert Agree(t, c) <==> Holds(t, Registration, c) && Holds(t, PreKeyRecord, c) && Holds(t, PreKeyFlag, c);
  }

  /** Every write that lands while a restore runs, the attempt's own ones included. */
  function RestoreLandings(s: Contents, c: Credentials, p: Plan): (ws: seq<SignalWrite>) {
    var g := Progress(s, RestoreWrites(c));
    Landed(g, p.whileRestoring, false) + Play(g, p.whileRestoring, false).left
  }

  lemma RestoreExactly(s: Contents, c: Credentials, p: Plan)
    requires s.auth == Some(c)
    ensures Restore(s, c, p).0.auth == Some(c)
    ensures Restore(s, c, p).1.Returned? ==>
      Restore(s, c, p).1.value == c && (Agree(Restore(s, c, p).0, c) <==> LastWritesAgree(RestoreLandings(s, c, p), c))
    ensures forall w | w in RestoreLandings(s, c, p) :: w in RestoreWrites(c) || w in s.late
  {
    var g := Progress(s, RestoreWrites(c));
    PlayApplies(g, p.whileRestoring, false);
    var h, ws := Play(g, p.whileRestoring, false), Landed(g, p.whileRestoring, false);
    hide Play, Landed, Agree, LastWritesAgree, RestoreWrites, Select;
    ApplyAppend(s, ws, h.left);
    LateApart(ApplyAll(s, ws), h.left, h.contents.late);
    AgreeExactly(s, ws + h.left, c);
    LateOutsideAgreement(ApplyAll(s, ws + h.left), h.contents.late, c);
  }

  lemma LateOutsideAgreement(s: Contents, late: seq<SignalWrite>, c: Credentials)
    ensures Agree(s.(late := late), c) <==> Agree(s, c)
  {
  }

  /** An attempt reaches its restore: the stores at that moment, and the credentials it restores. */
  function RestorePoint(s: Contents, p: Plan, env: Env): (r: Option<(Contents, Credentials)>) {
    if p.load != Done then None
    else if Creates(s, env) then
      if p.keys == Done && p.save == Done then Some((SaveFresh(CreateKeys(s, p), p), Fresh(p))) else None
    else Some((s, s.auth.value))
  }

  lemma CreateKeysKeeps(s: Contents, p: Plan)
    ensures CreateKeys(s, p).auth == s.auth
    ensures (forall w | w in s.late :: !w.SetServerHasPreKeys?)
        ==> CreateKeys(s, p).serverHasPreKeys == s.serverHasPreKeys
    ensures p.keys != Fail || !p.keysRunning ==> forall w | w in CreateKeys(s, p).late :: w in s.late
    ensures forall w | w in CreateKeys(s, p).late :: w in s.late || w in KeyWrites(Fresh(p))
  {
    var g := Progress(s, KeyWrites(Fresh(p)));
    PlayApplies(g, p.whileKeys, true);
    var h, ws := Play(g, p.whileKeys, true), Landed(g, p.whileKeys, true);
    hide Play, Landed;
    if forall w | w in s.late :: !w.SetServerHasPreKeys? {
      FlagKept(s, ws);
      FlagKept(h.contents, h.left);
    }
  }

  lemma {:induction false} FlagKept(s: Contents, ws: seq<SignalWrite>)
    requires forall w | w in ws :: !w.SetServerHasPreKeys?
    ensures ApplyAll(s, ws).serverHasPreKeys == s.serverHasPreKeys
    decreases |ws|
  {
    if ws != [] {
      assert ws[0] in ws;
      FlagKept(Apply(s, ws[0]), ws[1..]);
    }
  }

  lemma SaveFreshKeeps(s: Contents, p: Plan)
    ensures SaveFresh(s, p).auth == if p.save == Done || p.saveLanded then Some(Fresh(p)) else s.auth
    ensures (forall w | w in s.late :: !w.SetServerHasPreKeys?)
        ==> SaveFresh(s, p).serverHasPreKeys == s.serverHasPreKeys
    ensures forall w | w in SaveFresh(s, p).late :: w in s.late
  {
    var saved := if p.save == Done || p.saveLanded then s.(auth := Some(Fresh(p))) else s;
    PlayApplies(Progress(saved, []), p.whileSaving, false);
    if forall w | w in s.late :: !w.SetServerHasPreKeys? {
      FlagKept(saved, Landed(Progress(saved, []), p.whileSaving, false));
    }
  }

  /**
   * Restore writes only ever carry credentials that are in the auth store at
   * that moment: what lands during a restore is one of them or was running
   * before. An attempt that does not reach its restore writes no flag at all.
   */
  lemma RestoreOnlyWritesSaved(s: Contents, p: Plan, env: Env)
    ensures match RestorePoint(s, p, env)
      case Some((at, c)) =>
        && Attempt(s, p, env) == Restore(at, c, p) && at.auth == Some(c) && Attempt(s, p, env).0.auth == Some(c)
        && (forall w | w in RestoreLandings(at, c, p) :: w in RestoreWrites(c) || w in at.late)
      case None =>
        && Attempt(s, p, env).1.Thrown?
        && ((forall w | w in s.late :: !w.SetServerHasPreKeys?) ==>
              Attempt(s, p, env).0.serverHasPreKeys == s.serverHasPreKeys)
  {
    hide CreateKeys, SaveFresh, Restore, RestoreLandings, RestoreWrites, KeyWrites, Fresh, Regenerates;
    CreateKeysKeeps(s, p);
    SaveFreshKeeps(CreateKeys(s, p), p);
    match RestorePoint(s, p, env)
    case Some((at, c)) => RestoreExactly(at, c, p);
    case None =>
      if p.keys == Done {
        KeysDoneLeaveNothing(s, p);
      }
  }

  lemma KeysDoneLeaveNothing(s: Contents, p: Plan)
    requires p.keys == Done
    ensures forall w | w in CreateKeys(s, p).late :: w in s.late
  {
    CreateKeysKeeps(s, p);
  }

  /**
   * An attempt that completes leaves all stores in agreement with its result
   * if and only if, on each store, the last write to land during its restore
   * agrees with that result: no write an earlier attempt left running has
   * landed, disagreeing, after the attempt's own.
   */
  lemma CompletedLoadAgrees(s: Contents, es: seq<Event>, p: Plan, env: Env)
    ensures var t := Run(s, es, env);
      var r := Attempt(t, p, env);
      r.1.Returned? ==>
        && RestorePoint(t, p, env).Some?
        && var (at, c) := RestorePoint(t, p, env).value;
           && r.1.value == c && r.0.auth == Some(c) && r.0 == Run(s, es + [Load(p)], env)
           && (Agree(r.0, c) <==> LastWritesAgree(RestoreLandings(at, c, p), c))
  {
    hide Attempt, RestorePoint, Restore, RestoreLandings, Agree, LastWritesAgree, RestoreWrites;
    RunStep(s, es, Load(p), env);
    var t := Run(s, es, env);
    hide Run;
    RestoreOnlyWritesSaved(t, p, env);
    match RestorePoint(t, p, env)
    case Some((at, c)) => RestoreExactly(at, c, p);
    case None =>
  }

  lemma RestoreOutcome(s: Contents, c: Credentials, p: Plan)
    ensures Restore(s, c, p).1 == if p.restore == Done then Returned(c) else Thrown
  {
  }

  /**
   * Which credentials an attempt returns, and when. It completes exactly when
   * each step it takes does, and it takes the steps of a creation exactly when
   * nothing is stored, or what is stored has no own JID (an empty one counts
   * as none), fails the signature check, and the check is not skipped. It then
   * returns the new credentials: the keys made for it each in its own field,
   * unregistered, the pre-key flag false. Otherwise it returns what is stored.
   */
  lemma ReturnedExactly(s: Contents, es: seq<Event>, p: Plan, env: Env)
    ensures var t := Run(s, es, env);
      var r := Attempt(t, p, env).1;
      var unregistered := t.auth.Some? && (t.auth.value.meJid == None || t.auth.value.meJid == Some(""));
      var makesNew := t.auth.None? || (unregistered && !env.skipCheck && !env.signatureValid(t.auth.value));
      && (r.Returned? <==> p.load == Done && p.restore == Done && (makesNew ==> p.keys == Done && p.save == Done))
      && (r.Returned? && makesNew ==>
            && r.value.noiseKeyPair == p.noiseKeyPair && r.value.registrationInfo == p.registrationInfo
            && r.value.signedPreKey == p.signedPreKey && r.value.advSecretKey == p.advSecretKey
            && r.value.meJid == None && r.value.meLid == None && r.value.signedIdentity == None
            && r.value.serverHasPreKeys == Some(false) && r.value.loginCounter == None
            && r.value.routingInfo == None && r.value.serverStaticKey == None && r.value.deviceInfo == None)
      && (r.Returned? && !makesNew ==> Some(r.value) == t.auth)
  {
    var t := Run(s, es, env);
    hide Run, Restore;
    if t.auth.Some? {
      RestoreOutcome(t, t.auth.value, p);
    }
    RestoreOutcome(SaveFresh(CreateKeys(t, p), p), Fresh(p), p);
  }

  /** With the check on, unregistered credentials with a bad signature are never returned as stored. */
  lemma BadSignatureNeverReturned(s: Contents, es: seq<Event>, p: Plan, env: Env)
    requires !env.skipCheck && Run(s, es, env).auth.Some?
    requires Run(s, es, env).auth.value.meJid == None || Run(s, es, env).auth.value.meJid == Some("")
    requires !env.signatureValid(Run(s, es, env).auth.value)
    requires env.signatureValid(Fresh(p))
    ensures var r := Attempt(Run(s, es, env), p, env).1;
      r.Returned? ==> Some(r.value) != Run(s, es, env).auth && env.signatureValid(r.value)
  {
    var t := Run(s, es, env);
    hide Run, Restore;
    RestoreOutcome(SaveFresh(CreateKeys(t, p), p), Fresh(p), p);
  }

  /** What an attempt leaves in the auth store: a creation whose save took effect replaces it, nothing else does. */
  lemma StoredExactly(s: Contents, p: Plan, env: Env)
    ensures var made := Attempt(s, p, env).0.auth;
      var unregistered := s.auth.Some? && (s.auth.value.meJid == None || s.auth.value.meJid == Some(""));
      var makesNew := s.auth.None? || (unregistered && !env.skipCheck && !env.signatureValid(s.auth.value));
      if p.load == Done && makesNew && p.keys == Done && (p.save == Done || p.saveLanded)
      then made == Some(Fresh(p)) else made == s.auth
  {
    hide CreateKeys, SaveFresh, Restore, Fresh;
    CreateKeysKeeps(s, p);
    SaveFreshKeeps(CreateKeys(s, p), p);
    if p.save == Done {
      RestoreExactly(SaveFresh(CreateKeys(s, p), p), Fresh(p), p);
    }
    if s.auth.Some? {
      RestoreExactly(s, s.auth.value, p);
    }
  }

  lemma {:induction false} FirstPreKeyStays(s: Contents, ws: seq<SignalWrite>)
    ensures s.firstPreKey || PutFirstPreKey in ws ==> ApplyAll(s, ws).firstPreKey
    decreases |ws|
  {
    if ws != [] {
      FirstPreKeyStays(Apply(s, ws[0]), ws[1..]);
      assert PutFirstPreKey in ws ==> ws[0] == PutFirstPreKey || PutFirstPreKey in ws[1..];
    }
  }

  /** A completed key creation has stored the first one-time pre-key, whatever lands meanwhile. */
  lemma CreationStoresFirstPreKey(s: Contents, p: Plan)
    requires p.keys == Done
    ensures CreateKeys(s, p).firstPreKey
  {
    var own := KeyWrites(Fresh(p));
    var g := Progress(s, own);
    PlayApplies(g, p.whileKeys, true);
    var h, ws := Play(g, p.whileKeys, true), Landed(g, p.whileKeys, true);
    assert own[2] == PutFirstPreKey && own[2] in own;
    hide Play, Landed, ApplyAll;
    FirstPreKeyStays(s, ws);
    FirstPreKeyStays(h.contents, h.left);
  }

  predicate LateAgrees(s: Contents, c: Credentials) {
    forall i | 0 <= i < |s.late| :: WriteAgrees(s.late[i], c)
  }

  /** With only agreeing writes running, nothing that lands can hurt. */
  lemma LateAgreementSuffices(at: Contents, c: Credentials, p: Plan)
    requires at.auth == Some(c) && LateAgrees(at, c)
    ensures LastWritesAgree(RestoreLandings(at, c, p), c)
  {
    hide IsLast, RestoreLandings, Restore;
    RestoreExactly(at, c, p);
    var ws := RestoreLandings(at, c, p);
    forall i | 0 <= i < |ws| ensures WriteAgrees(ws[i], c) {
      assert ws[i] in ws;
    }
  }

  /** The attempt leaves no write running: it completes, the process dies, or what fails had nothing else under way. */
  predicate LeavesNothing(p: Plan) {
    (p.keys == Fail ==> !p.keysRunning) && (p.restore == Fail ==> true !in p.stillRunning)
  }

  predicate AllLeaveNothing(es: seq<Event>) {
    forall i | 0 <= i < |es| && es[i].Load? :: LeavesNothing(es[i].plan)
  }

  lemma {:induction false} SelectNothing(ws: seq<SignalWrite>, running: seq<bool>)
    requires true !in running
    ensures Select(ws, running) == []
    decreases |ws|
  {
    if ws != [] && running != [] {
      assert running[0] in running;
      SelectNothing(ws[1..], running[1..]);
    }
  }

  lemma NothingIn(ws: seq<SignalWrite>)
    ensures (forall w | w in ws :: w in []) ==> ws == []
  {
    if ws != [] {
      assert ws[0] in ws;
    }
  }

  lemma AttemptLeavesNothing(s: Contents, p: Plan, env: Env)
    requires s.late == [] && LeavesNothing(p)
    ensures Attempt(s, p, env).0.late == []
    ensures RestorePoint(s, p, env).Some? ==> RestorePoint(s, p, env).value.0.late == []
  {
    hide CreateKeys, SaveFresh, Fresh, Regenerates;
    CreateKeysKeeps(s, p);
    SaveFreshKeeps(CreateKeys(s, p), p);
    NothingIn(CreateKeys(s, p).late);
    NothingIn(SaveFresh(CreateKeys(s, p), p).late);
    RestoreOnlyWritesSaved(s, p, env);
    if RestorePoint(s, p, env).Some? {
      var (at, c) := RestorePoint(s, p, env).value;
      PlayApplies(Progress(at, RestoreWrites(c)), p.whileRestoring, false);
      NothingIn(Play(Progress(at, RestoreWrites(c)), p.whileRestoring, false).contents.late);
      if p.restore == Fail {
        SelectNothing(Play(Progress(at, RestoreWrites(c)), p.whileRestoring, false).left, p.stillRunning);
      }
    }
  }

  lemma {:induction false} RunLeavesNothing(s: Contents, es: seq<Event>, env: Env)
    requires s.late == [] && AllLeaveNothing(es)
    ensures Run(s, es, env).late == []
    decreases |es|
  {
    hide Attempt, Apply;
    if es != [] {
      RunLeavesNothing(s, es[..|es| - 1], env);
      if es[|es| - 1].Load? {
        AttemptLeavesNothing(Run(s, es[..|es| - 1], env), es[|es| - 1].plan, env);
      }
    }
  }

  /**
   * After any number of crashes, and of failures that leave nothing running, at
   * any steps, the first attempt that completes leaves all stores in agreement.
   */
  lemma CrashRecovery(s: Contents, es: seq<Event>, p: Plan, env: Env)
    requires s.late == [] && AllLeaveNothing(es) && LeavesNothing(p)
    ensures var r := Attempt(Run(s, es, env), p, env);
      r.1.Returned? ==> Agree(r.0, r.1.value)
  {
    hide Attempt, RestorePoint, Agree, LastWritesAgree, RestoreLandings;
    var t := Run(s, es, env);
    RunLeavesNothing(s, es, env);
    AttemptLeavesNothing(t, p, env);
    CompletedLoadAgrees(s, es, p, env);
    RestoreOnlyWritesSaved(t, p, env);
    if Attempt(t, p, env).1.Returned? {
      var (at, c) := RestorePoint(t, p, env).value;
      LateAgreementSuffices(at, c, p);
    }
  }

  lemma LandLateKeepsAuth(s: Contents, i: nat)
    ensures LandLate(s, i).auth == s.auth
  {
  }

  /**
   * Stored credentials with a non-empty own JID survive every sequence of
   * attempts, and every attempt that completes returns them.
   */
  lemma {:induction false} RegisteredNeverReplaced(s: Contents, es: seq<Event>, env: Env, c: Credentials)
    requires s.auth == Some(c) && Registered(c)
    ensures Run(s, es, env).auth == Some(c)
    ensures es != [] && es[|es| - 1].Load? ==>
      var r := Attempt(Run(s, es[..|es| - 1], env), es[|es| - 1].plan, env).1;
      r.Returned? ==> r.value == c
    decreases |es|
  {
    hide Restore, CreateFresh, Registered, LandLate;
    if es != [] {
      var before, e := es[..|es| - 1], es[|es| - 1];
      RegisteredNeverReplaced(s, before, env, c);
      match e
      case Load(p) => RestoreExactly(Run(s, before, env), c, p);
      case Land(i) => LandLateKeepsAuth(Run(s, before, env), i);
    }
  }

  // ------------------------------------------------- writes that land too late

  predicate OnlyLandings(es: seq<Event>) {
    forall i | 0 <= i < |es| :: es[i].Land?
  }

  lemma LandingKeepsAgreement(s: Contents, i: nat, c: Credentials)
    requires Agree(s, c) && LateAgrees(s, c)
    ensures Agree(LandLate(s, i), c) && LateAgrees(LandLate(s, i), c)
  {
    if i < |s.late| {
      assert WriteAgrees(s.late[i], c);
    }
  }

  lemma {:induction false} LandingsKeepAgreement(s: Contents, es: seq<Event>, env: Env, c: Credentials)
    requires Agree(s, c) && LateAgrees(s, c) && OnlyLandings(es)
    ensures Agree(Run(s, es, env), c) && LateAgrees(Run(s, es, env), c)
    decreases |es|
  {
    hide Agree, LateAgrees, LandLate, Attempt;
    if es != [] {
      LandingsKeepAgreement(s, es[..|es| - 1], env, c);
      assert es[|es| - 1].Land?;
      LandingKeepsAgreement(Run(s, es[..|es| - 1], env), es[|es| - 1].which, c);
    }
  }

  /**
   * The agreement a completed attempt establishes outlasts every landing of
   * late writes if and only if each write still running agrees with the
   * returned credentials.
   */
  lemma AgreementLastsExactly(s: Contents, env: Env, c: Credentials)
    requires Agree(s, c)
    ensures LateAgrees(s, c) <==> forall es | OnlyLandings(es) :: Agree(Run(s, es, env), c)
  {
    if LateAgrees(s, c) {
      forall es | OnlyLandings(es) ensures Agree(Run(s, es, env), c) {
        LandingsKeepAgreement(s, es, env, c);
      }
    } else {
      var i :| 0 <= i < |s.late| && !WriteAgrees(s.late[i], c);
      var es := [Land(i)];
      assert [] + es == es;
      assert Run(s, [], env) == s;
      RunStep(s, [], Land(i), env);
      assert OnlyLandings(es) && !Agree(Run(s, es, env), c);
    }
  }

  /** The attempt leaves no key write running, and the credentials it would create pass the check. */
  predicate Clean(p: Plan, env: Env) {
    (p.keys == Fail ==> !p.keysRunning) && (env.skipCheck || env.signatureValid(Fresh(p)))
  }

  predicate AllClean(es: seq<Event>, env: Env) {
    forall i | 0 <= i < |es| && es[i].Load? :: Clean(es[i].plan, env)
  }

  /** Every late write belongs to the saved credentials; none is late while those are still to be replaced. */
  predicate LateIsSaved(s: Contents, env: Env) {
    if Creates(s, env) then s.late == [] else LateAgrees(s, s.auth.value)
  }

  lemma {:induction false} SelectSubset(ws: seq<SignalWrite>, running: seq<bool>)
    ensures forall w | w in Select(ws, running) :: w in ws
    decreases |ws|
  {
    if ws != [] && running != [] {
      SelectSubset(ws[1..], running[1..]);
    }
  }

  lemma RestoreKeepsLate(s: Contents, c: Credentials, p: Plan)
    requires s.auth == Some(c) && LateAgrees(s, c)
    ensures LateAgrees(Restore(s, c, p).0, c)
  {
    var g := Progress(s, RestoreWrites(c));
    PlayApplies(g, p.whileRestoring, false);
    var h := Play(g, p.whileRestoring, false);
    SelectSubset(h.left, p.stillRunning);
    forall w | w in Restore(s, c, p).0.late ensures WriteAgrees(w, c) {
      assert w in s.late || w in RestoreWrites(c);
    }
  }

  lemma CleanStep(s: Contents, e: Event, env: Env)
    requires LateIsSaved(s, env) && (e.Load? ==> Clean(e.plan, env))
    ensures LateIsSaved(Step(s, e, env), env)
    ensures e.Load? && RestorePoint(s, e.plan, env).Some? ==>
      LateAgrees(RestorePoint(s, e.plan, env).value.0, RestorePoint(s, e.plan, env).value.1)
  {
    match e
    case Load(p) =>
      hide CreateKeys, SaveFresh, Restore;
      CreateKeysKeeps(s, p);
      SaveFreshKeeps(CreateKeys(s, p), p);
      if Creates(s, env) {
        NothingIn(CreateKeys(s, p).late);
        NothingIn(SaveFresh(CreateKeys(s, p), p).late);
      }
      match RestorePoint(s, p, env) {
        case Some((at, c)) =>
          RestoreOnlyWritesSaved(s, p, env);
          RestoreKeepsLate(at, c, p);
        case None =>
      }
    case Land(i) =>
  }

  lemma {:induction false} LateStaysSaved(s: Contents, es: seq<Event>, env: Env)
    requires s.late == [] && AllClean(es, env)
    ensures LateIsSaved(Run(s, es, env), env)
    decreases |es|
  {
    hide Step, Clean;
    if es != [] {
      var before, e := es[..|es| - 1], es[|es| - 1];
      LateStaysSaved(s, before, env);
      CleanStep(Run(s, before, env), e, env);
    }
  }

  /**
   * Over every sequence of clean attempts, regenerating ones included, and of
   * landings between and inside them, an attempt that completes leaves the
   * stores in agreement for good: no write of an earlier attempt can undo it.
   */
  lemma CleanRecoveryIsFinal(s: Contents, es: seq<Event>, p: Plan, env: Env, landings: seq<Event>)
    requires s.late == [] && AllClean(es, env) && Clean(p, env) && OnlyLandings(landings)
    requires Attempt(Run(s, es, env), p, env).1.Returned?
    ensures var c := Attempt(Run(s, es, env), p, env).1.value;
      Agree(Run(Run(s, es + [Load(p)], env), landings, env), c)
  {
    hide Attempt, Agree, LastWritesAgree, RestoreLandings, LateAgrees, RestorePoint, Regenerates;
    var t := Run(s, es, env);
    LateStaysSaved(s, es, env);
    CleanStep(t, Load(p), env);
    CompletedLoadAgrees(s, es, p, env);
    RestoreOnlyWritesSaved(t, p, env);
    var (at, c) := RestorePoint(t, p, env).value;
    LateAgreementSuffices(at, c, p);
    var r := Attempt(t, p, env).0;
    RestoreKeepsLate(at, c, p);
    LandingsKeepAgreement(r, landings, env, c);
  }

  function AllDone(c: Credentials): Plan {
    Plan(Done, c.noiseKeyPair, c.registrationInfo, c.signedPreKey, c.advSecretKey, Done, [], false, Done, [], true,
      Done, [], [])
  }

  const EMPTY := Contents(None, None, None, None, false, [])

  /** An attempt whose random bytes fail at once: its key writes go on running. */
  function FailedEarly(c: Credentials): Plan {
    AllDone(c).(keys := Fail, keysRunning := true)
  }

  lemma AfterFailedEarly(c: Credentials, env: Env)
    ensures Attempt(EMPTY, FailedEarly(c), env) == (EMPTY.(late := KeyWrites(Fresh(FailedEarly(c)))), Thrown)
  {
    var ws := KeyWrites(Fresh(FailedEarly(c)));
    assert [] + ws == ws;
  }

  lemma SecondCreates(c: Credentials, p: Plan, env: Env)
    requires p.load == p.keys == p.save == p.restore == Done && p.whileKeys == p.whileSaving == []
    ensures var first := Attempt(EMPTY, FailedEarly(c), env).0;
      var r := Attempt(first, p, env);
      && RestorePoint(first, p, env).Some? && RestorePoint(first, p, env).value.1 == Fresh(p)
      && RestorePoint(first, p, env).value.0.late == KeyWrites(Fresh(FailedEarly(c))) && r.1 == Returned(Fresh(p))
  {
    AfterFailedEarly(c, env);
    var ws := KeyWrites(Fresh(p));
    hide KeyWrites, Fresh;
    assert ApplyAll(EMPTY.(late := KeyWrites(Fresh(FailedEarly(c)))), ws).late == KeyWrites(Fresh(FailedEarly(c)));
  }

  /**
   * Cleanness is needed: the retry completes with other keys, and a write of
   * the failed attempt then puts the abandoned registration back.
   */
  lemma LateKeyWriteBreaksAgreement(c: Credentials, d: Credentials, env: Env)
    requires c.registrationInfo != d.registrationInfo
    ensures var first := Attempt(EMPTY, FailedEarly(c), env);
      var second := Attempt(first.0, AllDone(d), env);
      var last := Step(second.0, Land(0), env);
      && first.1.Thrown? && second.1.Returned? && Agree(second.0, second.1.value)
      && last.auth == Some(second.1.value) && last.registrationInfo == Some(c.registrationInfo)
      && !Agree(last, second.1.value)
  {
    AfterFailedEarly(c, env);
    SecondCreates(c, AllDone(d), env);
    var first := Attempt(EMPTY, FailedEarly(c), env).0;
    var second := Attempt(first, AllDone(d), env);
    assert Run(first, [], env) == first;
    CompletedLoadAgrees(first, [], AllDone(d), env);
    OwnWritesAgree(Fresh(AllDone(d)));
    assert [] + RestoreWrites(Fresh(AllDone(d))) == RestoreWrites(Fresh(AllDone(d)));
  }

  lemma OwnWritesAgree(c: Credentials)
    ensures LastWritesAgree(RestoreWrites(c), c)
  {
    hide IsLast;
  }

  /**
   * It can also land inside the retry, after the retry's own registration: the
   * retry then returns with the stores already disagreeing.
   */
  lemma LateKeyWriteInsideRetry(c: Credentials, d: Credentials, env: Env)
    requires c.registrationInfo != d.registrationInfo
    ensures var first := Attempt(EMPTY, FailedEarly(c), env).0;
      var second := Attempt(first, AllDone(d).(whileRestoring := [Own(0), Late(0)]), env);
      second.1.Returned? && second.0.registrationInfo == Some(c.registrationInfo) && !Agree(second.0, second.1.value)
  {
    var p := AllDone(d).(whileRestoring := [Own(0), Late(0)]);
    SecondCreates(c, p, env);
    var first := Attempt(EMPTY, FailedEarly(c), env).0;
    var (at, made) := RestorePoint(first, p, env).value;
    RestoreOnlyWritesSaved(first, p, env);
    var own := RestoreWrites(made);
    assert [Own(0), Late(0)][1..] == [Late(0)] && [Late(0)][1..] == [];
    var g := Act(Progress(at, own), Own(0), false);
    assert g.left == own[1..] && g.contents.late == at.late;
    var h := Act(g, Late(0), false);
    assert Play(Progress(at, own), [Own(0), Late(0)], false) == h;
    assert h.contents.registrationInfo == Some(c.registrationInfo);
    RegistrationKept(h.contents, h.left);
  }

  lemma {:induction false} RegistrationKept(s: Contents, ws: seq<SignalWrite>)
    requires forall w | w in ws :: !w.SetRegistrationInfo?
    ensures ApplyAll(s, ws).registrationInfo == s.registrationInfo
    decreases |ws|
  {
    if ws != [] {
      assert ws[0] in ws;
      RegistrationKept(Apply(s, ws[0]), ws[1..]);
    }
  }
}
