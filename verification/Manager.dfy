/** The device manager: rounds of scanning for devices and spawning their DEVIOs. */
module Manager {

  datatype DevState = Inactive | ReadyToRun | Running | Stopped | Killed

  /** What identifies a device, and its state. */
  datatype Info = Info(id: nat, path: string, inst: nat, state: DevState) {
    function Identity(): (nat, string, nat) { (id, path, inst) }
    predicate Open() { state.Inactive? || state.ReadyToRun? }
  }

  /** A DEVIO that was started, with the identity it was given. */
  datatype Spawn = Spawn(key: nat, identity: (nat, string, nat))

  datatype State = State(devs: map<nat, Info>, spawned: seq<Spawn>)

  // One round.

  /** A device found again is left as it is. */
  function Add(s: State, id: nat, path: string): State {
    if id in s.devs then s else s.(devs := s.devs[id := Info(id, path, 0, ReadyToRun)])
  }

  function Scan(s: State, found: seq<(nat, string)>): State
    decreases |found|
  {
    if found == [] then s else Scan(Add(s, found[0].0, found[0].1), found[1..])
  }

  predicate Due(s: State, key: nat, respawn: bool) {
    key in s.devs && (s.devs[key].state.ReadyToRun? || (s.devs[key].state.Killed? && respawn))
  }

  function Launch(s: State, key: nat): State
    requires key in s.devs
  {
    State(s.devs[key := s.devs[key].(state := Running)], s.spawned + [Spawn(key, s.devs[key].Identity())])
  }

  /** Spawn what is due, in the table's order, up to the first failure. */
  function SpawnAll(s: State, keys: seq<nat>, works: nat -> bool, respawn: bool): State
    decreases |keys|
  {
    if keys == [] then s
    else if !Due(s, keys[0], respawn) then SpawnAll(s, keys[1..], works, respawn)
    else if works(keys[0]) then SpawnAll(Launch(s, keys[0]), keys[1..], works, respawn)
    else s
  }

  /** Whether that gets to the end. */
  predicate AllSpawn(s: State, keys: seq<nat>, works: nat -> bool, respawn: bool)
    decreases |keys|
  {
    keys == [] ||
    if !Due(s, keys[0], respawn) then AllSpawn(s, keys[1..], works, respawn)
    else works(keys[0]) && AllSpawn(Launch(s, keys[0]), keys[1..], works, respawn)
  }

  class Manager {
    var devs: map<nat, Info>
    var spawned: seq<Spawn>

    constructor ()
      ensures Abs() == State(map[], [])
    {
      devs, spawned := map[], [];
    }

    function Abs(): State
      reads this
    {
      State(devs, spawned)
    }

    /** The count returned is that of all devices seen, not of the new ones. */
    method ScanDevs(found: seq<(nat, string)>) returns (n: nat)
      modifies this`devs
      ensures Abs() == Scan(old(Abs()), found) && n == |found|
    {
      ghost var todo := found;
      assert todo == found[0..];
      var i := 0;
      while i < |found|
        invariant 0 <= i <= |found| && todo == found[i..]
        invariant Scan(Abs(), todo) == Scan(old(Abs()), found)
      {
        var (id, path) := found[i];
        if id !in devs {
          devs := devs[id := Info(id, path, 0, ReadyToRun)];
        }
        todo := todo[1..];
        i := i + 1;
      }
      n := i;
    }

    method SpawnAllDevios(keys: seq<nat>, works: nat -> bool, respawn: bool) returns (ok: bool)
      requires forall k | k in keys :: k in devs
      modifies this
      ensures Abs() == SpawnAll(old(Abs()), keys, works, respawn)
      ensures ok == AllSpawn(old(Abs()), keys, works, respawn)
    {
      ghost var todo := keys;
      assert todo == keys[0..];
      var i := 0;
      while i < |keys|
        invariant 0 <= i <= |keys| && todo == keys[i..]
        invariant forall k | k in keys :: k in devs
        invariant SpawnAll(Abs(), todo, works, respawn) == SpawnAll(old(Abs()), keys, works, respawn)
        invariant AllSpawn(Abs(), todo, works, respawn) == AllSpawn(old(Abs()), keys, works, respawn)
      {
        var key := keys[i];
        var info := devs[key];
        todo := todo[1..];
        i := i + 1;
        if !info.state.ReadyToRun? && !info.state.Killed? {
          continue;
        }
        if info.state.Killed? && !respawn {
          continue;
        }
        if !works(key) {
          return false;
        }
        spawned := spawned + [Spawn(key, info.Identity())];
        devs := devs[key := info.(state := Running)];
      }
      return true;
    }
  }

  // Runs without respawning.

  datatype Event =
    | Scanning(found: seq<(nat, string)>)
    | Spawning(keys: seq<nat>, works: nat -> bool)
    | SetIdentity(key: nat, id: nat, path: string, inst: nat)
    | Mark(key: nat, state: DevState)

  /** The setters of a device's identity are refused outside the two early states; the
  setter of its state never is. */
  function Step(s: State, e: Event): State {
    match e
    case Scanning(found) => Scan(s, found)
    case Spawning(keys, works) => SpawnAll(s, keys, works, false)
    case SetIdentity(key, id, path, inst) =>
      if key in s.devs && s.devs[key].Open()
      then s.(devs := s.devs[key := Info(id, path, inst, s.devs[key].state)]) else s
    case Mark(key, state) =>
      if key in s.devs then s.(devs := s.devs[key := s.devs[key].(state := state)]) else s
  }

  predicate WasSpawned(s: State, key: nat) {
    exists i | 0 <= i < |s.spawned| :: s.spawned[i].key == key
  }

  /** Nobody marks a device that was spawned as inactive or ready to run. */
  predicate Enabled(s: State, e: Event) {
    e.Mark? && (e.state.Inactive? || e.state.ReadyToRun?) ==> !WasSpawned(s, e.key)
  }

  predicate IsRun(s: State, es: seq<Event>)
    decreases |es|
  {
    es == [] || (Enabled(s, es[0]) && IsRun(Step(s, es[0]), es[1..]))
  }

  function Run(s: State, es: seq<Event>): State
    requires IsRun(s, es)
    decreases |es|
  {
    if es == [] then s else Run(Step(s, es[0]), es[1..])
  }

  /** The setters, exactly: an identity can be set while a device is inactive or ready to
  run, and a state always. */
  lemma SettersExact(s: State, key: nat, id: nat, path: string, inst: nat, state: DevState)
    requires key in s.devs
    ensures var was := s.devs[key];
      var t, u := Step(s, SetIdentity(key, id, path, inst)), Step(s, Mark(key, state));
      && t.spawned == u.spawned == s.spawned && t.devs.Keys == u.devs.Keys == s.devs.Keys
      && (forall k | k in s.devs && k != key :: t.devs[k] == u.devs[k] == s.devs[k])
      && t.devs[key].state == was.state && u.devs[key].state == state && u.devs[key].Identity() == was.Identity()
      && (was.state == Inactive || was.state == ReadyToRun ==> t.devs[key].Identity() == (id, path, inst))
      && (was.state != Inactive && was.state != ReadyToRun ==> t == s)
  {
  }

  /** Nothing is spawned twice, and what was spawned is what the table still says. */
  ghost predicate Inv(s: State) {
    && (forall i, j | 0 <= i < j < |s.spawned| :: s.spawned[i].key != s.spawned[j].key)
    && (forall i | 0 <= i < |s.spawned| :: Settled(s, s.spawned[i]))
  }

  ghost predicate Settled(s: State, p: Spawn) {
    p.key in s.devs && !s.devs[p.key].Open() && s.devs[p.key].Identity() == p.identity
  }

  lemma {:induction false} ScanInv(s: State, found: seq<(nat, string)>)
    requires Inv(s)
    ensures Inv(Scan(s, found))
    decreases |found|
  {
    if found != [] {
      assert Inv(Add(s, found[0].0, found[0].1));
      ScanInv(Add(s, found[0].0, found[0].1), found[1..]);
    }
  }

  lemma LaunchInv(s: State, key: nat)
    requires Inv(s) && Due(s, key, false)
    ensures Inv(Launch(s, key))
  {
    var t := Launch(s, key);
    forall i | 0 <= i < |t.spawned|
      ensures Settled(t, t.spawned[i])
      ensures i < |s.spawned| ==> t.spawned[i].key != key
    {
      if i < |s.spawned| {
        assert Settled(s, s.spawned[i]);
      }
    }
  }

  lemma {:induction false} SpawnAllInv(s: State, keys: seq<nat>, works: nat -> bool)
    requires Inv(s)
    ensures Inv(SpawnAll(s, keys, works, false))
    decreases |keys|
  {
    hide Inv, Launch;
    if keys != [] {
      if !Due(s, keys[0], false) {
        SpawnAllInv(s, keys[1..], works);
      } else if works(keys[0]) {
        LaunchInv(s, keys[0]);
        SpawnAllInv(Launch(s, keys[0]), keys[1..], works);
      }
    }
  }

  lemma StepInv(s: State, e: Event)
    requires Inv(s) && Enabled(s, e)
    ensures Inv(Step(s, e))
  {
    match e
    case Scanning(found) => ScanInv(s, found);
    case Spawning(keys, works) => SpawnAllInv(s, keys, works);
    case SetIdentity(key, id, path, inst) =>
    case Mark(key, state) => MarkIff(s, key, state);
  }

  /** A mark keeps the invariant if and only if it is not one that would let a spawned
  device be spawned again. */
  lemma MarkIff(s: State, key: nat, state: DevState)
    requires Inv(s)
    ensures Inv(Step(s, Mark(key, state))) <==> Enabled(s, Mark(key, state))
  {
    var t := Step(s, Mark(key, state));
    if WasSpawned(s, key) {
      var i :| 0 <= i < |s.spawned| && s.spawned[i].key == key;
      assert Settled(s, s.spawned[i]);
      assert Settled(t, t.spawned[i]) <==> !(state.Inactive? || state.ReadyToRun?);
    }
    forall i | 0 <= i < |t.spawned| && s.spawned[i].key != key
      ensures Settled(t, t.spawned[i])
    {
      assert Settled(s, s.spawned[i]);
    }
    forall i | 0 <= i < |t.spawned| && s.spawned[i].key == key
      ensures Settled(t, t.spawned[i]) <==> !(state.Inactive? || state.ReadyToRun?)
    {
      assert Settled(s, s.spawned[i]);
    }
  }

  /** Marked ready, a spawned device is spawned a second time. */
  lemma MarkedReadySpawnsTwice(s: State, key: nat, works: nat -> bool)
    requires key in s.devs && WasSpawned(s, key) && works(key)
    ensures var t := Step(Step(s, Mark(key, ReadyToRun)), Spawning([key], works));
      exists i, j | 0 <= i < j < |t.spawned| :: t.spawned[i].key == t.spawned[j].key == key
  {
    var i :| 0 <= i < |s.spawned| && s.spawned[i].key == key;
    var r := Step(s, Mark(key, ReadyToRun));
    var t := Step(r, Spawning([key], works));
    assert [key][1..] == [];
    assert t == SpawnAll(Launch(r, key), [], works, false) == Launch(r, key);
    assert t.spawned[i].key == t.spawned[|s.spawned|].key == key;
  }

  /** Over every run, a device is spawned at most once, and the identity it was
  spawned with can no longer be changed. */
  lemma {:induction false} SpawnedOnce(s: State, es: seq<Event>)
    requires Inv(s) && IsRun(s, es)
    ensures Inv(Run(s, es))
    decreases |es|
  {
    hide Inv, Step, Enabled;
    if es != [] {
      StepInv(s, es[0]);
      SpawnedOnce(Step(s, es[0]), es[1..]);
    }
  }

  /** `i` is the first of the devices found that has the identifier `k`. */
  ghost predicate FirstFound(found: seq<(nat, string)>, k: nat, i: int) {
    0 <= i < |found| && found[i].0 == k && forall j | 0 <= j < i :: found[j].0 != k
  }

  /** Scanning registers every device it is shown, under its identifier and the path it was
  first found at, ready to run, and changes no registered one. */
  lemma {:induction false} ScanKeeps(s: State, found: seq<(nat, string)>)
    ensures var t := Scan(s, found);
      && t.spawned == s.spawned
      && (forall i | 0 <= i < |found| :: found[i].0 in t.devs)
      && (forall k | k in s.devs :: k in t.devs && t.devs[k] == s.devs[k])
      && (forall k | k in t.devs && k !in s.devs ::
            exists i :: FirstFound(found, k, i) && t.devs[k] == Info(k, found[i].1, 0, ReadyToRun))
    decreases |found|
  {
    if found != [] {
      var u, rest := Add(s, found[0].0, found[0].1), found[1..];
      ScanKeeps(u, rest);
      var t := Scan(s, found);
      forall k | k in t.devs && k !in s.devs
        ensures exists i :: FirstFound(found, k, i) && t.devs[k] == Info(k, found[i].1, 0, ReadyToRun)
      {
        if k == found[0].0 {
          assert FirstFound(found, k, 0);
        } else {
          var i :| FirstFound(rest, k, i) && t.devs[k] == Info(k, rest[i].1, 0, ReadyToRun);
          assert found[i + 1] == rest[i];
          assert forall j | 0 < j < i + 1 :: found[j] == rest[j - 1];
          assert FirstFound(found, k, i + 1);
        }
      }
    }
  }

  /** The loop gets to its end if and only if every device that is due can be spawned. */
  lemma {:induction false} AllSpawnIff(s: State, keys: seq<nat>, works: nat -> bool, respawn: bool)
    ensures AllSpawn(s, keys, works, respawn) <==> forall k | k in keys && Due(s, k, respawn) :: works(k)
    decreases |keys|
  {
    if keys != [] {
      var k0, rest := keys[0], keys[1..];
      assert keys == [k0] + rest;
      if !Due(s, k0, respawn) {
        AllSpawnIff(s, rest, works, respawn);
      } else if works(k0) {
        var t := Launch(s, k0);
        AllSpawnIff(t, rest, works, respawn);
        assert forall k | k != k0 :: Due(t, k, respawn) == Due(s, k, respawn);
      }
    }
  }

  /** Up to the first failure the loop does its work, and after it nothing. */
  lemma {:induction false} SpawnStops(s: State, keys: seq<nat>, works: nat -> bool, respawn: bool, i: nat)
    requires i < |keys| && AllSpawn(s, keys[..i], works, respawn)
    requires Due(SpawnAll(s, keys[..i], works, respawn), keys[i], respawn) && !works(keys[i])
    ensures SpawnAll(s, keys, works, respawn) == SpawnAll(s, keys[..i], works, respawn)
    decreases |keys|
  {
    if i > 0 {
      assert keys[..i][1..] == keys[1..][..i - 1] && keys[..i][0] == keys[0];
      var next := if Due(s, keys[0], respawn) then Launch(s, keys[0]) else s;
      SpawnStops(next, keys[1..], works, respawn, i - 1);
    }
  }

  /** What becomes of each device when nothing fails: one that is ready runs, one that was
  killed runs if respawning is on, and no other changes; identities stay. */
  lemma {:induction false} SpawnAllRuns(s: State, keys: seq<nat>, works: nat -> bool, respawn: bool, k: nat)
    requires AllSpawn(s, keys, works, respawn) && k in s.devs
    ensures var t := SpawnAll(s, keys, works, respawn);
      && k in t.devs && t.devs[k].Identity() == s.devs[k].Identity()
      && t.devs[k].state ==
         if k in keys && (s.devs[k].state == ReadyToRun || (s.devs[k].state == Killed && respawn)) then Running
         else s.devs[k].state
    decreases |keys|
  {
    if keys != [] {
      var next := if Due(s, keys[0], respawn) then Launch(s, keys[0]) else s;
      assert keys == [keys[0]] + keys[1..];
      SpawnAllRuns(next, keys[1..], works, respawn, k);
    }
  }

  /** What the loop spawns, failing or not, is added to what was spawned before: devices of
  the table that were due, with the identity they have there. */
  lemma {:induction false} SpawnedAre(s: State, keys: seq<nat>, works: nat -> bool, respawn: bool)
    ensures var t := SpawnAll(s, keys, works, respawn);
      && s.spawned <= t.spawned
      && (forall i | |s.spawned| <= i < |t.spawned| ::
            var p := t.spawned[i];
            p.key in keys && works(p.key) && Due(s, p.key, respawn) && p.identity == s.devs[p.key].Identity())
      && (forall k | k in s.devs && k in t.devs && t.devs[k].state != s.devs[k].state ::
            exists i | |s.spawned| <= i < |t.spawned| :: t.spawned[i].key == k)
    decreases |keys|
  {
    if keys != [] {
      var k0, rest := keys[0], keys[1..];
      if !Due(s, k0, respawn) {
        SpawnedAre(s, rest, works, respawn);
      } else if works(k0) {
        var u := Launch(s, k0);
        SpawnedAre(u, rest, works, respawn);
        var t := SpawnAll(s, keys, works, respawn);
        assert t.spawned[|s.spawned|] == u.spawned[|s.spawned|] == Spawn(k0, s.devs[k0].Identity());
        assert forall k | k != k0 && k in u.devs :: u.devs[k] == s.devs[k];
      }
    }
  }
}
