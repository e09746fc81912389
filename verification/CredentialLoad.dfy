/**
 * Bringing credentials online: load them or create a fresh set, and make the
 * signal and pre-key stores agree, when any step can fail or the process can
 * die at it, and when writes an earlier attempt left running land at any
 * moment, between attempts or while another one waits.
 */
module CredentialLoad {
  import opened Prelude
  import opened CredentialRecord

  // ------------------------------------------------------------------ stores

  datatype SignalWrite =
    | SetRegistrationInfo(registrationInfo: RegistrationInfo)
    | SetSignedPreKey(signedPreKey: SignedPreKey)
    | SetServerHasPreKeys(flag: bool)
    | PutFirstPreKey

  /** Contents of the stores, and the writes a failed attempt left running. */
  datatype Contents = Contents(
    auth: Option<Credentials>,
    registrationInfo: Option<RegistrationInfo>,
    signedPreKey: Option<SignedPreKey>,
    serverHasPreKeys: Option<bool>,
    firstPreKey: bool,
    late: seq<SignalWrite>)

  function Apply(s: Contents, w: SignalWrite): (t: Contents)
    ensures t.auth == s.auth && t.late == s.late
  {
    match w
    case SetRegistrationInfo(info) => s.(registrationInfo := Some(info))
    case SetSignedPreKey(record) => s.(signedPreKey := Some(record))
    case SetServerHasPreKeys(flag) => s.(serverHasPreKeys := Some(flag))
    case PutFirstPreKey => s.(firstPreKey := true)
  }

  function ApplyAll(s: Contents, ws: seq<SignalWrite>): (t: Contents)
    ensures t.auth == s.auth && t.late == s.late
    decreases |ws|
  {
    if ws == [] then s else ApplyAll(Apply(s, ws[0]), ws[1..])
  }

  // ------------------------------------------------------------------- plans

  /** How a step ends: it completes, the process dies at it, or it throws. */
  datatype Fate = Done | Crash | Fail

  /** What lands while an attempt waits: one of its own writes, or one left running by an earlier attempt. */
  datatype Action = Own(which: nat) | Late(which: nat)

  /** Everything an attempt does not decide itself. */
  datatype Plan = Plan(
    load: Fate,
    noiseKeyPair: Bytes, registrationInfo: RegistrationInfo, signedPreKey: SignedPreKey, advSecretKey: Bytes,
    keys: Fate, whileKeys: seq<Action>, keysRunning: bool,
    save: Fate, whileSaving: seq<Action>, saveLanded: bool,
    restore: Fate, whileRestoring: seq<Action>, stillRunning: seq<bool>)

  /** The option that skips the signature check, and what the check finds. */
  datatype Env = Env(skipCheck: bool, signatureValid: Credentials -> bool)

  function Fresh(p: Plan): (c: Credentials) {
    Credentials(
      p.noiseKeyPair, p.registrationInfo, p.signedPreKey, p.advSecretKey,
      None, None, None, None, None, None, None, Some(false),
      None, None, None, None, None, None, None, None, None, None, None)
  }

  /** The ordered writes of the key creation. */
  function KeyWrites(c: Credentials): (ws: seq<SignalWrite>)
    ensures |ws| == 3
  {
    [SetRegistrationInfo(c.registrationInfo), SetSignedPreKey(c.signedPreKey), PutFirstPreKey]
  }

  /** The parallel writes of the restore. */
  function RestoreWrites(c: Credentials): (ws: seq<SignalWrite>)
    ensures |ws| == 3
  {
    [SetRegistrationInfo(c.registrationInfo), SetSignedPreKey(c.signedPreKey),
     SetServerHasPreKeys(c.serverHasPreKeys == Some(true))]
  }

  predicate Registered(c: Credentials) {
    c.meJid.Some? && c.meJid.value != ""
  }

  // ------------------------------------------------------------ while it waits

  /** A death of the process takes the running writes with it. */
  function Interrupt(s: Contents, fate: Fate): (t: Contents) {
    if fate == Crash then s.(late := []) else s
  }

  function LeaveRunning(s: Contents, ws: seq<SignalWrite>, fate: Fate): (t: Contents) {
    if fate == Crash then s.(late := []) else s.(late := s.late + ws)
  }

  /** The writes that go on running after a failure. */
  function Select(ws: seq<SignalWrite>, running: seq<bool>): (r: seq<SignalWrite>) {
    if ws == [] || running == [] then []
    else (if running[0] then [ws[0]] else []) + Select(ws[1..], running[1..])
  }

  function Remove(ws: seq<SignalWrite>, i: nat): (r: seq<SignalWrite>)
    requires i < |ws|
  {
    ws[..i] + ws[i + 1..]
  }

  /** A write left running lands. */
  function LandLate(s: Contents, i: nat): (t: Contents) {
    if i < |s.late| then Apply(s, s.late[i]).(late := Remove(s.late, i)) else s
  }

  /** A wait in progress: the stores, and the attempt's own writes still to land. */
  datatype Progress = Progress(contents: Contents, left: seq<SignalWrite>)

  /** The write an action lands, if it names one; ordered writes land first to last. */
  function WriteOf(g: Progress, a: Action, ordered: bool): (w: Option<SignalWrite>) {
    match a
    case Own(i) =>
      var k := if ordered then 0 else i;
      if k < |g.left| then Some(g.left[k]) else None
    case Late(i) => if i < |g.contents.late| then Some(g.contents.late[i]) else None
  }

  function Act(g: Progress, a: Action, ordered: bool): (h: Progress) {
    match a
    case Own(i) =>
      var k := if ordered then 0 else i;
      if k < |g.left| then Progress(Apply(g.contents, g.left[k]), Remove(g.left, k)) else g
    case Late(i) => Progress(LandLate(g.contents, i), g.left)
  }

  function Play(g: Progress, actions: seq<Action>, ordered: bool): (h: Progress)
    decreases |actions|
  {
    if actions == [] then g else Play(Act(g, actions[0], ordered), actions[1..], ordered)
  }

  // ---------------------------------------------------------------- attempts

  function Restore(s: Contents, c: Credentials, p: Plan): (r: (Contents, Outcome<Credentials>)) {
    var g := Play(Progress(s, RestoreWrites(c)), p.whileRestoring, false);
    if p.restore == Done then (ApplyAll(g.contents, g.left), Returned(c))
    else (LeaveRunning(g.contents, Select(g.left, p.stillRunning), p.restore), Thrown)
  }

  function CreateKeys(s: Contents, p: Plan): (t: Contents) {
    var g := Play(Progress(s, KeyWrites(Fresh(p))), p.whileKeys, true);
    if p.keys == Done then ApplyAll(g.contents, g.left)
    else LeaveRunning(g.contents, if p.keysRunning then g.left else [], p.keys)
  }

  /** The stores after the save and what lands while it runs. */
  function SaveFresh(s: Contents, p: Plan): (t: Contents) {
    var saved := if p.save == Done || p.saveLanded then s.(auth := Some(Fresh(p))) else s;
    Play(Progress(saved, []), p.whileSaving, false).contents
  }

  function CreateFresh(s: Contents, p: Plan): (r: (Contents, Outcome<Credentials>)) {
    var afterKeys := CreateKeys(s, p);
    if p.keys != Done then (afterKeys, Thrown)
    else if p.save != Done then (Interrupt(SaveFresh(afterKeys, p), p.save), Thrown)
    else Restore(SaveFresh(afterKeys, p), Fresh(p), p)
  }

  predicate Regenerates(c: Credentials, env: Env) {
    !Registered(c) && !env.skipCheck && !env.signatureValid(c)
  }

  predicate Creates(s: Contents, env: Env) {
    s.auth.None? || Regenerates(s.auth.value, env)
  }

  /** While the load and the check run nothing is written: what lands then might as well land before. */
  function Attempt(s: Contents, p: Plan, env: Env): (r: (Contents, Outcome<Credentials>)) {
    if p.load != Done then (Interrupt(s, p.load), Thrown)
    else if Creates(s, env) then CreateFresh(s, p)
    else Restore(s, s.auth.value, p)
  }

  /** The stores as the flow sees them. */
  class Stores {
    var auth: Option<Credentials>
    var registrationInfo: Option<RegistrationInfo>
    var signedPreKey: Option<SignedPreKey>
    var serverHasPreKeys: Option<bool>
    var firstPreKey: bool
    var late: seq<SignalWrite>

    ghost function Snapshot(): (s: Contents)
      reads this
    {
      Contents(auth, registrationInfo, signedPreKey, serverHasPreKeys, firstPreKey, late)
    }

    constructor (s: Contents)
      ensures Snapshot() == s
    {
      auth, registrationInfo, signedPreKey := s.auth, s.registrationInfo, s.signedPreKey;
      serverHasPreKeys, firstPreKey, late := s.serverHasPreKeys, s.firstPreKey, s.late;
    }

    method Write(w: SignalWrite)
      modifies this
      ensures Snapshot() == Apply(old(Snapshot()), w)
    {
      match w
      case SetRegistrationInfo(info) => registrationInfo := Some(info);
      case SetSignedPreKey(record) => signedPreKey := Some(record);
      case SetServerHasPreKeys(flag) => serverHasPreKeys := Some(flag);
      case PutFirstPreKey => firstPreKey := true;
    }

    method WriteAll(ws: seq<SignalWrite>)
      modifies this
      ensures Snapshot() == ApplyAll(old(Snapshot()), ws)
    {
      var i := 0;
      while i < |ws|
        invariant 0 <= i <= |ws|
        invariant ApplyAll(Snapshot(), ws[i..]) == ApplyAll(old(Snapshot()), ws)
      {
        Write(ws[i]);
        i := i + 1;
      }
    }

    method Land(i: nat)
      modifies this
      ensures Snapshot() == LandLate(old(Snapshot()), i)
    {
      if i < |late| {
        var w := late[i];
        late := Remove(late, i);
        Write(w);
      }
    }

    /** Waiting for `own` writes: whatever lands meanwhile, in the order it lands. */
    method Await(own: seq<SignalWrite>, actions: seq<Action>, ordered: bool) returns (left: seq<SignalWrite>)
      modifies this
      ensures Progress(Snapshot(), left) == Play(Progress(old(Snapshot()), own), actions, ordered)
    {
      left := own;
      var i := 0;
      while i < |actions|
        invariant 0 <= i <= |actions|
        invariant Play(Progress(Snapshot(), left), actions[i..], ordered)
               == Play(Progress(old(Snapshot()), own), actions, ordered)
      {
        left := LandOne(left, actions[i], ordered);
        assert actions[i..][1..] == actions[i + 1..];
        i := i + 1;
      }
    }

    method LandOne(own: seq<SignalWrite>, a: Action, ordered: bool) returns (left: seq<SignalWrite>)
      modifies this
      ensures Progress(Snapshot(), left) == Act(Progress(old(Snapshot()), own), a, ordered)
    {
      left := own;
      match a
      case Own(which) =>
        var k := if ordered then 0 else which;
        if k < |own| {
          Write(own[k]);
          left := Remove(own, k);
        }
      case Late(which) =>
        Land(which);
    }

    method EndEarly(running: seq<SignalWrite>, fate: Fate)
      modifies this
      ensures Snapshot() == LeaveRunning(old(Snapshot()), running, fate)
    {
      late := if fate == Crash then [] else late + running;
    }

    method RestoreSignalStore(c: Credentials, p: Plan) returns (r: Outcome<Credentials>)
      modifies this
      ensures (Snapshot(), r) == Restore(old(Snapshot()), c, p)
    {
      hide Play;
      var left := Await(RestoreWrites(c), p.whileRestoring, false);
      if p.restore == Done {
        WriteAll(left);
        return Returned(c);
      }
      EndEarly(Select(left, p.stillRunning), p.restore);
      return Thrown;
    }

    method CreateAndStoreInitialKeys(p: Plan) returns (ok: bool)
      modifies this
      ensures Snapshot() == CreateKeys(old(Snapshot()), p) && (ok <==> p.keys == Done)
    {
      hide Play;
      var left := Await(KeyWrites(Fresh(p)), p.whileKeys, true);
      if p.keys == Done {
        WriteAll(left);
        return true;
      }
      EndEarly(if p.keysRunning then left else [], p.keys);
      return false;
    }

    method SaveCredentials(p: Plan) returns (ok: bool)
      modifies this
      ensures Snapshot() == (var t := SaveFresh(old(Snapshot()), p); Interrupt(t, p.save)) && (ok <==> p.save == Done)
    {
      hide Play;
      if p.save == Done || p.saveLanded {
        auth := Some(Fresh(p));
      }
      var _ := Await([], p.whileSaving, false);
      if p.save == Crash {
        late := [];
      }
      return p.save == Done;
    }

    /** Keys first, then the credentials, then the restore. */
    method CreateFreshAndPersistCredentials(p: Plan) returns (r: Outcome<Credentials>)
      modifies this
      ensures (Snapshot(), r) == CreateFresh(old(Snapshot()), p)
    {
      hide CreateKeys, SaveFresh, Restore;
      var ok := CreateAndStoreInitialKeys(p);
      if !ok {
        return Thrown;
      }
      ok := SaveCredentials(p);
      if !ok {
        return Thrown;
      }
      r := RestoreSignalStore(Fresh(p), p);
    }

    method LoadOrCreateCredentials(p: Plan, env: Env) returns (r: Outcome<Credentials>)
      modifies this
      ensures (Snapshot(), r) == Attempt(old(Snapshot()), p, env)
    {
      hide CreateFresh, Restore;
      if p.load != Done {
        if p.load == Crash {
          late := [];
        }
        return Thrown;
      }
      var existing := auth;
      if existing.None? {
        r := CreateFreshAndPersistCredentials(p);
        return;
      }
      if !Registered(existing.value) && !env.skipCheck && !env.signatureValid(existing.value) {
        r := CreateFreshAndPersistCredentials(p);
        return;
      }
      r := RestoreSignalStore(existing.value, p);
    }
  }
}
