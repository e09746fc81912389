/** Choosing the active app-state sync key: highest epoch first, then lowest device. */
module SyncKeys {
  import opened Prelude
  import opened ByteOrder

  datatype SyncKey = SyncKey(keyId: Bytes, keyData: Bytes, timestamp: int)

  function KeyDeviceId(keyId: Bytes): (device: Option<nat>)
    ensures device.None? <==> |keyId| < 6
    ensures device.Some? ==> device.value == 256 * (keyId[0] as int) + keyId[1] as int < 0x1_0000
  {
    if |keyId| < 6 then None else Some(ReadUint16BE(keyId[0], keyId[1]))
  }

  function KeyEpoch(keyId: Bytes): (epoch: int)
    ensures -1 <= epoch < 0x1_0000_0000 && (epoch == -1 <==> |keyId| < 6)
  {
    if |keyId| < 6 then -1
    else keyId[2] as int * 16777216 + keyId[3] as int * 65536 + keyId[4] as int * 256 + keyId[5] as int
  }

  /** The key the loop holds after meeting `key` while holding `active`. */
  predicate Better(key: SyncKey, active: SyncKey) {
    var next, current := KeyEpoch(key.keyId), KeyEpoch(active.keyId);
    next > current
    || (next == current && KeyDeviceId(key.keyId).Some? && KeyDeviceId(active.keyId).Some?
        && KeyDeviceId(key.keyId).value < KeyDeviceId(active.keyId).value)
  }

  function Picked(keys: seq<SyncKey>): (r: Option<SyncKey>) {
    if keys == [] then None
    else
      var n := |keys| - 1;
      match Picked(keys[..n])
      case None => Some(keys[n])
      case Some(active) => Some(if Better(keys[n], active) then keys[n] else active)
  }

  method PickActiveSyncKey(keys: seq<SyncKey>) returns (active: Option<SyncKey>)
    ensures active == Picked(keys)
  {
    active := None;
    var i := 0;
    while i < |keys|
      invariant 0 <= i <= |keys|
      invariant active == Picked(keys[..i])
    {
      var key := keys[i];
      assert keys[..i + 1][..i] == keys[..i];
      i := i + 1;
      if active.None? {
        active := Some(key);
        continue;
      }
      var currentEpoch := KeyEpoch(active.value.keyId);
      var nextEpoch := KeyEpoch(key.keyId);
      if nextEpoch > currentEpoch {
        active := Some(key);
        continue;
      }
      if nextEpoch < currentEpoch {
        continue;
      }
      var nextDeviceId := KeyDeviceId(key.keyId);
      var currentDeviceId := KeyDeviceId(active.value.keyId);
      if nextDeviceId.Some? && currentDeviceId.Some? && nextDeviceId.value < currentDeviceId.value {
        active := Some(key);
      }
    }
    assert keys[..i] == keys;
  }

  // ---------------------------------------------------------- what is chosen

  /** Epoch and device id, the device being absent exactly for ids too short to hold one. */
  function Standing(key: SyncKey): (int, Option<nat>) {
    (KeyEpoch(key.keyId), KeyDeviceId(key.keyId))
  }

  /** The key at `i` is beaten by none, and beats every key before it. */
  predicate FirstOptimal(keys: seq<SyncKey>, i: nat) {
    && i < |keys|
    && (forall j | 0 <= j < |keys| :: !Better(keys[j], keys[i]))
    && (forall j | 0 <= j < i :: Better(keys[i], keys[j]))
  }

  /** The fold returns the first optimal key of the iteration, and one exists unless there are no keys. */
  lemma {:induction false} PickedIsFirstOptimal(keys: seq<SyncKey>) returns (i: nat)
    requires keys != []
    ensures FirstOptimal(keys, i) && Picked(keys) == Some(keys[i])
  {
    var n := |keys| - 1;
    if n == 0 {
      i := 0;
    } else {
      i := PickedIsFirstOptimal(keys[..n]);
      if Better(keys[n], keys[i]) {
        forall j | 0 <= j < n ensures Better(keys[n], keys[j]) {
          assert keys[..n][j] == keys[j] && !Better(keys[..n][j], keys[i]);
        }
        i := n;
      } else {
        forall j | 0 <= j < |keys| ensures !Better(keys[j], keys[i]) {
          if j < n { assert keys[..n][j] == keys[j]; }
        }
        forall j | 0 <= j < i ensures Better(keys[i], keys[j]) {
          assert keys[..n][j] == keys[j];
        }
      }
    }
  }

  lemma FirstOptimalUnique(keys: seq<SyncKey>, i: nat, j: nat)
    requires FirstOptimal(keys, i) && FirstOptimal(keys, j)
    ensures i == j
  {
    hide Better;
    assert !Better(keys[i], keys[j]) && !Better(keys[j], keys[i]);
  }

  /** Optimality in plain terms: the largest epoch, and within it the smallest device id. */
  lemma OptimalMeans(keys: seq<SyncKey>)
    requires keys != []
    ensures Picked(keys).Some? && Picked(keys).value in keys
    ensures forall k | k in keys :: KeyEpoch(k.keyId) <= KeyEpoch(Picked(keys).value.keyId)
    ensures forall k | k in keys && KeyEpoch(k.keyId) == KeyEpoch(Picked(keys).value.keyId) ::
        NotAbove(Picked(keys).value, k)
  {
    var i := PickedIsFirstOptimal(keys);
    forall k | k in keys
      ensures KeyEpoch(k.keyId) <= KeyEpoch(keys[i].keyId)
      ensures KeyEpoch(k.keyId) == KeyEpoch(keys[i].keyId) ==> NotAbove(keys[i], k)
    {
      assert !Better(k, keys[i]);
    }
  }

  /** The device id of `a` does not exceed that of `b`; both are absent or both present. */
  predicate NotAbove(a: SyncKey, b: SyncKey) {
    var x, y := KeyDeviceId(a.keyId), KeyDeviceId(b.keyId);
    x.Some? == y.Some? && (x.Some? ==> x.value <= y.value)
  }

  function AsSeq(r: Option<SyncKey>): seq<SyncKey> {
    if r.None? then [] else [r.value]
  }

  /** Picking from two batches is picking between the picks of the batches. */
  lemma PickConcat(xs: seq<SyncKey>, ys: seq<SyncKey>)
    ensures Picked(xs + ys) == Picked(AsSeq(Picked(xs)) + AsSeq(Picked(ys)))
  {
    if xs == [] {
      assert xs + ys == ys;
      PickSingleton(ys);
      assert AsSeq(None) + AsSeq(Picked(ys)) == AsSeq(Picked(ys));
    } else if ys == [] {
      assert xs + ys == xs;
      PickSingleton(xs);
      assert AsSeq(Picked(xs)) + AsSeq(None) == AsSeq(Picked(xs));
    } else {
      var i := PickedIsFirstOptimal(xs);
      var j := PickedIsFirstOptimal(ys);
      var pair := [xs[i], ys[j]];
      assert AsSeq(Picked(xs)) + AsSeq(Picked(ys)) == pair;
      assert pair[..1] == [xs[i]] && [xs[i]][..0] == [];
      assert Picked([xs[i]]) == Some(xs[i]);
      var k := if Better(ys[j], xs[i]) then |xs| + j else i;
      MergedOptimal(xs, ys, i, j);
      var m := PickedIsFirstOptimal(xs + ys);
      FirstOptimalUnique(xs + ys, k, m);
    }
  }

  lemma PickSingleton(keys: seq<SyncKey>)
    ensures Picked(AsSeq(Picked(keys))) == Picked(keys)
  {
    if keys != [] {
      var k := Picked(keys).value;
      assert [k][..0] == [];
    }
  }

  lemma MergedOptimal(xs: seq<SyncKey>, ys: seq<SyncKey>, i: nat, j: nat)
    requires FirstOptimal(xs, i) && FirstOptimal(ys, j)
    ensures FirstOptimal(xs + ys, if Better(ys[j], xs[i]) then |xs| + j else i)
  {
    var all := xs + ys;
    var k := if Better(ys[j], xs[i]) then |xs| + j else i;
    forall m | 0 <= m < |all| ensures !Better(all[m], all[k]) && (m < k ==> Better(all[k], all[m])) {
      if m < |xs| {
        assert all[m] == xs[m] && !Better(xs[m], xs[i]);
      } else {
        assert all[m] == ys[m - |xs|] && !Better(ys[m - |xs|], ys[j]);
      }
    }
  }

  /** Any reordering of the keys picks a key of the same epoch and device. */
  lemma OrderIrrelevant(xs: seq<SyncKey>, ys: seq<SyncKey>)
    requires xs != [] && multiset(xs) == multiset(ys)
    ensures ys != [] && Standing(Picked(xs).value) == Standing(Picked(ys).value)
  {
    assert xs[0] in multiset(xs);
    var i := PickedIsFirstOptimal(xs);
    var j := PickedIsFirstOptimal(ys);
    assert xs[i] in multiset(xs) && ys[j] in multiset(ys);
    var a :| 0 <= a < |ys| && ys[a] == xs[i];
    var b :| 0 <= b < |xs| && xs[b] == ys[j];
    assert !Better(ys[a], ys[j]) && !Better(xs[b], xs[i]);
  }

  // ------------------------------------------------------- epochs are ordered

  /** Strict lexicographic order on byte strings of equal length. */
  predicate LexLess(a: Bytes, b: Bytes)
    requires |a| == |b|
  {
    a != [] && (a[0] < b[0] || (a[0] == b[0] && LexLess(a[1..], b[1..])))
  }

  function BigEndian(s: Bytes): (n: nat) {
    if s == [] then 0 else 256 * BigEndian(s[..|s| - 1]) + s[|s| - 1] as int
  }

  lemma {:induction false} BigEndianFirst(s: Bytes)
    requires s != []
    ensures BigEndian(s) == s[0] as int * Power256(|s| - 1) + BigEndian(s[1..])
    ensures BigEndian(s[1..]) < Power256(|s| - 1)
  {
    var n := |s| - 1;
    if n == 0 {
      assert s[..0] == [] && s[1..] == [];
    } else {
      var front, p := s[..n], Power256(n - 1);
      BigEndianFirst(front);
      assert s[1..][..n - 1] == front[1..];
      assert front[0] == s[0];
      var high, mid := s[0] as int, BigEndian(front[1..]);
      assert BigEndian(s[1..]) == 256 * mid + s[n] as int;
      assert 256 * (high * p + mid) == high * (256 * p) + 256 * mid;
    }
  }

  /** The larger big-endian number has the lexicographically larger bytes. */
  lemma {:induction false} BigEndianOrder(a: Bytes, b: Bytes)
    requires |a| == |b|
    ensures BigEndian(a) < BigEndian(b) <==> LexLess(a, b)
    decreases |a|
  {
    if a != [] {
      BigEndianFirst(a);
      BigEndianFirst(b);
      BigEndianOrder(a[1..], b[1..]);
      FirstDigitDecides(a[0] as int, b[0] as int, BigEndian(a[1..]), BigEndian(b[1..]), Power256(|a| - 1));
    }
  }

  lemma FirstDigitDecides(x: int, y: int, more: nat, less: nat, p: nat)
    requires more < p && less < p
    ensures x < y ==> x * p + more < y * p + less
    ensures x == y ==> (x * p + more < y * p + less <==> more < less)
    ensures x > y ==> x * p + more > y * p + less
  {
    if x < y {
      GapAtLeast(x, y, p);
    } else if x > y {
      GapAtLeast(y, x, p);
    }
  }

  lemma GapAtLeast(x: int, y: int, p: nat)
    requires x < y
    ensures y * p >= x * p + p
  {
    var d: nat := y - x - 1;
    assert d * p >= 0;
    assert y * p == (x + 1 + d) * p == x * p + p + d * p;
  }

  /** Comparing epochs is comparing bytes 2 to 5 lexicographically. */
  lemma EpochOrderIsLexicographic(a: Bytes, b: Bytes)
    requires |a| >= 6 && |b| >= 6
    ensures KeyEpoch(a) < KeyEpoch(b) <==> LexLess(a[2..6], b[2..6])
  {
    EpochIsBigEndian(a);
    EpochIsBigEndian(b);
    BigEndianOrder(a[2..6], b[2..6]);
  }

  lemma EpochIsBigEndian(a: Bytes)
    requires |a| >= 6
    ensures KeyEpoch(a) == BigEndian(a[2..6])
  {
    var s := a[2..6];
    var t, u, v := s[..3], s[..2], s[..1];
    assert t[..2] == u && u[..1] == v && v[..0] == [];
    assert BigEndian(v) == a[2] as int;
    assert BigEndian(u) == 256 * (a[2] as int) + a[3] as int;
    assert BigEndian(t) == 256 * BigEndian(u) + a[4] as int;
  }
}
