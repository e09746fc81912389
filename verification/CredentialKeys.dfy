/** When an attempt leaves keys in the stores whose credentials were never saved. */
module CredentialKeys {
  import opened Prelude
  import opened CredentialRecord
  import opened CredentialLoad
  import opened CredentialRecovery

  function LastRegistration(ws: seq<SignalWrite>): (r: Option<RegistrationInfo>) {
    if ws == [] then None
    else
      match ws[|ws| - 1]
      case SetRegistrationInfo(info) => Some(info)
      case _ => LastRegistration(ws[..|ws| - 1])
  }

  lemma {:induction false} RegistrationAfter(s: Contents, ws: seq<SignalWrite>)
    ensures ApplyAll(s, ws).registrationInfo == OrElse(LastRegistration(ws), s.registrationInfo)
    decreases |ws|
  {
    if ws != [] {
      var front, last := ws[..|ws| - 1], ws[|ws| - 1];
      RegistrationAfter(s, front);
      ApplyAppend(s, front, [last]);
      assert ws == front + [last];
      assert [last][1..] == [];
    }
  }

  /** Every write that lands from the start of an attempt that creates keys to the end of its save. */
  function KeyLandings(s: Contents, p: Plan): (ws: seq<SignalWrite>) {
    var g := Progress(s, KeyWrites(Fresh(p)));
    var keys := Landed(g, p.whileKeys, true);
    if p.keys != Done then keys
    else keys + Play(g, p.whileKeys, true).left + Landed(Progress(CreateKeys(s, p), []), p.whileSaving, false)
  }

  predicate Unsaved(p: Plan) {
    p.keys != Done || (p.save != Done && !p.saveLanded)
  }

  lemma {:induction false} LandedIgnoresAuth(g: Progress, auth: Option<Credentials>, actions: seq<Action>,
      ordered: bool)
    ensures Landed(g.(contents := g.contents.(auth := auth)), actions, ordered) == Landed(g, actions, ordered)
    decreases |actions|
  {
    if actions != [] {
      var other := g.(contents := g.contents.(auth := auth));
      var h := Act(g, actions[0], ordered);
      assert Act(other, actions[0], ordered) == h.(contents := h.contents.(auth := auth));
      LandedIgnoresAuth(h, auth, actions[1..], ordered);
    }
  }

  /** The registration in the store once the save of a creating attempt is over. */
  lemma RegistrationAfterSave(s: Contents, p: Plan)
    ensures (if p.keys != Done then CreateKeys(s, p) else SaveFresh(CreateKeys(s, p), p)).registrationInfo
         == OrElse(LastRegistration(KeyLandings(s, p)), s.registrationInfo)
  {
    var g := Progress(s, KeyWrites(Fresh(p)));
    PlayApplies(g, p.whileKeys, true);
    var h, keys := Play(g, p.whileKeys, true), Landed(g, p.whileKeys, true);
    hide Play, Landed, ApplyAll, LastRegistration, KeyWrites, Fresh;
    RegistrationAfter(s, keys);
    if p.keys == Done {
      var all := keys + h.left;
      ApplyAppend(s, keys, h.left);
      LateApart(ApplyAll(s, keys), h.left, h.contents.late);
      var afterKeys := CreateKeys(s, p);
      assert afterKeys == ApplyAll(s, all).(late := afterKeys.late);
      var saved := if p.save == Done || p.saveLanded then afterKeys.(auth := Some(Fresh(p))) else afterKeys;
      var saving := Landed(Progress(afterKeys, []), p.whileSaving, false);
      PlayApplies(Progress(saved, []), p.whileSaving, false);
      LandedIgnoresAuth(Progress(afterKeys, []), saved.auth, p.whileSaving, false);
      assert Progress(afterKeys, []).(contents := afterKeys.(auth := saved.auth)) == Progress(saved, []);
      RegistrationAfter(saved, saving);
      RegistrationAfter(s, all);
      RegistrationAfter(s, all + saving);
      RegistrationOfBoth(all, saving);
    }
  }

  lemma {:induction false} RegistrationOfBoth(a: seq<SignalWrite>, b: seq<SignalWrite>)
    ensures LastRegistration(a + b) == OrElse(LastRegistration(b), LastRegistration(a))
    decreases |b|
  {
    if b == [] {
      assert a + b == a;
    } else {
      assert (a + b)[..|a + b| - 1] == a + b[..|b| - 1];
      RegistrationOfBoth(a, b[..|b| - 1]);
    }
  }

  /**
   * Over all stores and plans, an attempt that creates leaves its registration
   * behind without ever having saved the credentials it belongs to if and only
   * if it ends before the save takes effect and its registration is the last
   * one to land.
   */
  lemma KeysCommittedExactly(s: Contents, p: Plan, env: Env)
    requires p.load == Done && Creates(s, env)
    requires s.registrationInfo != Some(p.registrationInfo) && s.auth != Some(Fresh(p))
    ensures var t := Attempt(s, p, env).0;
      t.registrationInfo == Some(p.registrationInfo) && t.auth != Some(Fresh(p))
      <==> Unsaved(p) && LastRegistration(KeyLandings(s, p)) == Some(p.registrationInfo)
  {
    hide CreateKeys, SaveFresh, Restore, KeyLandings, LastRegistration, Regenerates, Fresh;
    RegistrationAfterSave(s, p);
    CreateKeysKeeps(s, p);
    SaveFreshKeeps(CreateKeys(s, p), p);
    if p.keys == Done && p.save == Done {
      RestoreExactly(SaveFresh(CreateKeys(s, p), p), Fresh(p), p);
    }
  }

  predicate OwnLands(actions: seq<Action>) {
    exists i :: 0 <= i < |actions| && actions[i].Own?
  }

  lemma {:induction false} FirstOwnLands(g: Progress, actions: seq<Action>)
    requires g.left != [] && OwnLands(actions)
    ensures g.left[0] in Landed(g, actions, true)
    decreases |actions|
  {
    if actions[0].Late? {
      var i :| 0 <= i < |actions| && actions[i].Own?;
      assert actions[1..][i - 1].Own?;
      FirstOwnLands(Act(g, actions[0], true), actions[1..]);
    }
  }

  lemma {:induction false} OnlyLateLands(g: Progress, actions: seq<Action>, ordered: bool)
    requires g.left == [] || !OwnLands(actions)
    ensures forall w | w in Landed(g, actions, ordered) :: w in g.contents.late
    decreases |actions|
  {
    if actions != [] {
      ActApplies(g, actions[0], ordered);
      assert g.left == [] || actions[0].Late?;
      if g.left != [] {
        forall i | 0 <= i < |actions[1..]| ensures !actions[1..][i].Own? {
          assert !actions[i + 1].Own?;
        }
      }
      OnlyLateLands(Act(g, actions[0], ordered), actions[1..], ordered);
    }
  }

  lemma {:induction false} OnlyRegistration(ws: seq<SignalWrite>, info: RegistrationInfo)
    requires forall w | w in ws && w.SetRegistrationInfo? :: w.registrationInfo == info
    ensures LastRegistration(ws) == if SetRegistrationInfo(info) in ws then Some(info) else None
  {
    if ws != [] {
      var front, last := ws[..|ws| - 1], ws[|ws| - 1];
      assert ws == front + [last] && last in ws;
      OnlyRegistration(front, info);
    }
  }

  /** The attempt's registration lands if and only if some write of its key creation does. */
  lemma RegistrationLands(s: Contents, p: Plan)
    requires forall w | w in s.late :: !w.SetRegistrationInfo?
    ensures LastRegistration(KeyLandings(s, p)) == Some(p.registrationInfo) <==> p.keys == Done || OwnLands(p.whileKeys)
  {
    var own := KeyWrites(Fresh(p));
    var g := Progress(s, own);
    PlayApplies(g, p.whileKeys, true);
    if OwnLands(p.whileKeys) {
      FirstOwnLands(g, p.whileKeys);
    } else {
      OnlyLateLands(g, p.whileKeys, true);
    }
    var ws := KeyLandings(s, p);
    OnlyLateLands(Progress(CreateKeys(s, p), []), p.whileSaving, false);
    hide Play, Landed, Act, Apply, ApplyAll, LastRegistration;
    CreateKeysKeeps(s, p);
    assert own[0] == SetRegistrationInfo(p.registrationInfo) && own[0] in own;
    OnlyRegistration(ws, p.registrationInfo);
  }

  /**
   * The same in closed form when no registration of an earlier attempt is
   * still running: some key had landed when the creation ended early, or the
   * save failed without effect.
   */
  lemma KeysCommittedUndisturbed(s: Contents, p: Plan, env: Env)
    requires p.load == Done && Creates(s, env) && forall w | w in s.late :: !w.SetRegistrationInfo?
    requires s.registrationInfo != Some(p.registrationInfo) && s.auth != Some(Fresh(p))
    ensures var t := Attempt(s, p, env).0;
      t.registrationInfo == Some(p.registrationInfo) && t.auth != Some(Fresh(p))
      <==> (p.keys != Done && OwnLands(p.whileKeys)) || (p.keys == Done && p.save != Done && !p.saveLanded)
  {
    hide Attempt, KeyLandings, LastRegistration, OwnLands, Creates, Fresh;
    KeysCommittedExactly(s, p, env);
    RegistrationLands(s, p);
  }

  /** An instance: the process dies right after the first key has landed. */
  lemma KeysCommittedUnsaved(c: Credentials, env: Env)
    ensures var t := Attempt(EMPTY, AllDone(c).(keys := Crash, whileKeys := [Own(0)]), env).0;
      t.auth.None? && t.registrationInfo == Some(c.registrationInfo)
  {
    var p := AllDone(c).(keys := Crash, whileKeys := [Own(0)]);
    assert p.whileKeys[0].Own?;
    KeysCommittedUndisturbed(EMPTY, p, env);
    CreateKeysKeeps(EMPTY, p);
  }

  // ----------------------------------------------------- split bootstrap state

  /** No registration and no signed pre-key of an earlier attempt is still running. */
  predicate NoKeysLate(s: Contents) {
    forall w | w in s.late :: !w.SetRegistrationInfo? && !w.SetSignedPreKey?
  }

  function OwnCount(actions: seq<Action>): (n: nat) {
    if actions == [] then 0 else (if actions[0].Own? then 1 else 0) + OwnCount(actions[1..])
  }

  function Least(a: nat, b: nat): (m: nat) {
    if a <= b then a else b
  }

  /** The first `j` key writes have landed on stores that held `info` and `record`. */
  predicate KeysUpTo(s: Contents, c: Credentials, j: nat, info: Option<RegistrationInfo>,
      record: Option<SignedPreKey>) {
    && s.registrationInfo == (if j >= 1 then Some(c.registrationInfo) else info)
    && s.signedPreKey == (if j >= 2 then Some(c.signedPreKey) else record)
  }

  lemma KeyStep(g: Progress, a: Action, c: Credentials, j: nat, info: Option<RegistrationInfo>,
      record: Option<SignedPreKey>)
    requires j <= 3 && g.left == KeyWrites(c)[j..] && NoKeysLate(g.contents) && KeysUpTo(g.contents, c, j, info, record)
    ensures var h, k := Act(g, a, true), if a.Own? then Least(3, j + 1) else j;
      h.left == KeyWrites(c)[k..] && NoKeysLate(h.contents) && KeysUpTo(h.contents, c, k, info, record)
  {
    ActApplies(g, a, true);
    if a.Own? && j < 3 {
      assert g.left[0] == KeyWrites(c)[j];
      assert Remove(g.left, 0) == g.left[1..] == KeyWrites(c)[j + 1..];
    }
    if a.Late? && a.which < |g.contents.late| {
      assert g.contents.late[a.which] in g.contents.late;
    }
  }

  /** The ordered key writes land one per own action, up to the last. */
  lemma {:induction false} KeysInOrder(g: Progress, actions: seq<Action>, c: Credentials, j: nat,
                                       info: Option<RegistrationInfo>, record: Option<SignedPreKey>)
    requires j <= 3 && g.left == KeyWrites(c)[j..] && NoKeysLate(g.contents) && KeysUpTo(g.contents, c, j, info, record)
    ensures var h, k := Play(g, actions, true), Least(3, j + OwnCount(actions));
      h.left == KeyWrites(c)[k..] && NoKeysLate(h.contents) && KeysUpTo(h.contents, c, k, info, record)
    decreases |actions|
  {
    hide Act, KeyWrites, NoKeysLate, KeysUpTo;
    if actions != [] {
      KeyStep(g, actions[0], c, j, info, record);
      var k := if actions[0].Own? then Least(3, j + 1) else j;
      KeysInOrder(Act(g, actions[0], true), actions[1..], c, k, info, record);
    }
  }

  /** Writes of the keys of `c` and of other stores leave the keys of `c` in place. */
  lemma {:induction false} KeysStay(s: Contents, ws: seq<SignalWrite>, c: Credentials)
    requires KeysUpTo(s, c, 2, None, None)
    requires forall w | w in ws :: StoreOf(w).Registration? || StoreOf(w).PreKeyRecord? ==> WriteAgrees(w, c)
    ensures KeysUpTo(ApplyAll(s, ws), c, 2, None, None)
    decreases |ws|
  {
    if ws != [] {
      assert ws[0] in ws;
      KeysStay(Apply(s, ws[0]), ws[1..], c);
    }
  }

  lemma RemainingKeys(s: Contents, c: Credentials, k: nat, info: Option<RegistrationInfo>, record: Option<SignedPreKey>)
    requires k <= 3 && KeysUpTo(s, c, k, info, record)
    ensures KeysUpTo(ApplyAll(s, KeyWrites(c)[k..]), c, 2, None, None)
  {
    var ws := KeyWrites(c)[k..];
    var x, y, z := KeyWrites(c)[0], KeyWrites(c)[1], KeyWrites(c)[2];
    assert [x, y, z][1..] == [y, z] && [y, z][1..] == [z] && [z][1..] == [];
    assert ApplyAll(s, [z]) == Apply(s, z);
    assert ApplyAll(s, [y, z]) == ApplyAll(Apply(s, y), [z]) == Apply(Apply(s, y), z);
    assert ApplyAll(s, [x, y, z]) == ApplyAll(Apply(s, x), [y, z]);
    assert ApplyAll(Apply(s, x), [y, z]) == ApplyAll(Apply(Apply(s, x), y), [z]) == Apply(Apply(Apply(s, x), y), z);
    assert ws == if k == 0 then [x, y, z] else if k == 1 then [y, z] else if k == 2 then [z] else [];
  }

  lemma CompletedKeys(s: Contents, p: Plan)
    requires p.keys == Done && NoKeysLate(s)
    ensures KeysUpTo(CreateKeys(s, p), Fresh(p), 2, None, None) && NoKeysLate(CreateKeys(s, p))
  {
    var c := Fresh(p);
    var g := Progress(s, KeyWrites(c));
    KeysInOrder(g, p.whileKeys, c, 0, s.registrationInfo, s.signedPreKey);
    CreateKeysKeeps(s, p);
    var h := Play(g, p.whileKeys, true);
    hide Play, ApplyAll, KeyWrites, KeysUpTo;
    RemainingKeys(h.contents, c, Least(3, OwnCount(p.whileKeys)), s.registrationInfo, s.signedPreKey);
  }

  lemma SavedKeys(s: Contents, p: Plan)
    requires KeysUpTo(s, Fresh(p), 2, None, None) && NoKeysLate(s)
    ensures KeysUpTo(SaveFresh(s, p), Fresh(p), 2, None, None) && NoKeysLate(SaveFresh(s, p))
  {
    SaveFreshKeeps(s, p);
    var saved := if p.save == Done || p.saveLanded then s.(auth := Some(Fresh(p))) else s;
    var g := Progress(saved, []);
    PlayApplies(g, p.whileSaving, false);
    hide Play, Landed, Apply, ApplyAll, Fresh;
    KeysStay(saved, Landed(g, p.whileSaving, false), Fresh(p));
  }

  lemma RestoredKeys(s: Contents, c: Credentials, p: Plan)
    requires KeysUpTo(s, c, 2, None, None) && NoKeysLate(s)
    ensures KeysUpTo(Restore(s, c, p).0, c, 2, None, None)
  {
    var g := Progress(s, RestoreWrites(c));
    PlayApplies(g, p.whileRestoring, false);
    var landed, h := Landed(g, p.whileRestoring, false), Play(g, p.whileRestoring, false);
    hide Play, Landed, Apply, ApplyAll, Select;
    KeysStay(s, landed, c);
    KeysStay(h.contents, h.left, c);
  }

  /** A creation that completes, and whatever of the attempt follows it, leaves both keys in place. */
  lemma CompletedKeysStay(s: Contents, p: Plan)
    requires p.keys == Done && NoKeysLate(s)
    ensures KeysUpTo(CreateFresh(s, p).0, Fresh(p), 2, None, None)
  {
    hide CreateKeys, SaveFresh, Restore, NoKeysLate, Fresh;
    CompletedKeys(s, p);
    SavedKeys(CreateKeys(s, p), p);
    RestoredKeys(SaveFresh(CreateKeys(s, p), p), Fresh(p), p);
  }

  /**
   * The ordered writes do not rule out split state: over stores that hold
   * other keys, an attempt that creates leaves the new registration beside an
   * old signed pre-key if and only if its creation ends early after exactly
   * one of its writes.
   */
  lemma SplitBootstrapExactly(s: Contents, p: Plan, env: Env)
    requires p.load == Done && Creates(s, env) && NoKeysLate(s)
    requires s.registrationInfo != Some(p.registrationInfo) && s.signedPreKey != Some(p.signedPreKey)
    ensures var t := Attempt(s, p, env).0;
      t.registrationInfo == Some(p.registrationInfo) && t.signedPreKey != Some(p.signedPreKey)
      <==> p.keys != Done && OwnCount(p.whileKeys) == 1
    ensures var t := Attempt(s, p, env).0;
      t.signedPreKey == Some(p.signedPreKey) ==> t.registrationInfo == Some(p.registrationInfo)
  {
    var c := Fresh(p);
    hide Restore, SaveFresh, Regenerates;
    if p.keys == Done {
      CompletedKeysStay(s, p);
    } else {
      KeysInOrder(Progress(s, KeyWrites(c)), p.whileKeys, c, 0, s.registrationInfo, s.signedPreKey);
      hide Play;
    }
  }

  /** An instance over an older set: the process dies right after the first key has landed. */
  lemma SplitBootstrap(former: Credentials, c: Credentials, env: Env)
    requires c.registrationInfo != former.registrationInfo && c.signedPreKey != former.signedPreKey
    ensures var s :=
        EMPTY.(registrationInfo := Some(former.registrationInfo), signedPreKey := Some(former.signedPreKey));
      var t := Attempt(s, AllDone(c).(keys := Crash, whileKeys := [Own(0)]), env).0;
      t.registrationInfo == Some(c.registrationInfo) && t.signedPreKey == Some(former.signedPreKey)
  {
    var s := EMPTY.(registrationInfo := Some(former.registrationInfo), signedPreKey := Some(former.signedPreKey));
    var p := AllDone(c).(keys := Crash, whileKeys := [Own(0)]);
    assert p.whileKeys[1..] == [];
    KeysInOrder(Progress(s, KeyWrites(Fresh(p))), p.whileKeys, Fresh(p), 0, s.registrationInfo, s.signedPreKey);
    hide Play;
  }
}
