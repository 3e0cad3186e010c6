/** The DEVIO's tables of SMIO actors, as a transition system.

An actor is known by the key it was started with. A slot of an actor array holds
such a key or is empty, and the hash tables map keys to slots, as the C tables
map them to addresses of array elements. */
module Registry {
  import opened Basics

  const NODES_MAX := 20

  datatype Sock = Msg(slot: nat) | Mgmt(slot: nat) | Cfg(slot: nat)

  datatype Err = Success | ErrAlloc | ErrSmioDestroy

  /** `stopped` is the reactor having been told to end, `aborted` a failed assertion. */
  datatype State = State(
    nnodes: nat,
    mgmt: seq<Option<string>>,
    msg: seq<bool>,
    cfg: seq<Option<string>>,
    smio: map<string, nat>,
    config: map<string, nat>,
    polled: set<Sock>,
    stopped: bool,
    aborted: bool)

  function Initial(): State {
    State(0, seq(NODES_MAX, _ => None), seq(NODES_MAX, _ => false), seq(NODES_MAX, _ => None),
          map[], map[], {}, false, false)
  }

  /** What the calls that may fail answered during one registration. */
  datatype Env = Env(found: bool, keyOk: bool, pipeOk: bool, msgPolled: bool, argsOk: bool,
                     spawned: bool, mgmtPolled: bool, cfgArgsOk: bool, cfgSpawned: bool)

  /** The SMIO thread, its sockets and its table entry get as far as the hash table. */
  predicate Starts(s: State, key: string, env: Env) {
    && env.found && env.keyOk && env.pipeOk && env.msgPolled && env.argsOk && env.spawned && env.mgmtPolled
    && key !in s.smio && env.cfgArgsOk && env.cfgSpawned && key !in s.config
  }

  /** A registration either goes through or leaves only a used-up slot number. */
  function Register(s: State, key: string, env: Env): (State, Err)
    requires s.nnodes < NODES_MAX && |s.mgmt| == |s.msg| == |s.cfg| == NODES_MAX
  {
    var i, t := s.nnodes, s.(nnodes := s.nnodes + 1);
    if !env.found || !env.keyOk then (s, ErrAlloc)
    else if !env.pipeOk || !env.msgPolled then (t, ErrAlloc)
    else if env.argsOk && env.spawned && !env.mgmtPolled then (t, ErrAlloc)
    else if !Starts(s, key, env) then (t, Success)
    else
      (t.(mgmt := s.mgmt[i := Some(key)], msg := s.msg[i := true], cfg := s.cfg[i := Some(key)],
          smio := s.smio[key := i], config := s.config[key := i],
          polled := s.polled + {Msg(i), Mgmt(i), Cfg(i)}), Success)
  }

  // Destroying actors through one of the two tables.

  function DestroyConfig(s: State, key: string): (State, Err)
    requires |s.cfg| == NODES_MAX
  {
    if key !in s.config then (s, ErrSmioDestroy)
    else
      var i := s.config[key];
      if i >= NODES_MAX || s.cfg[i].None? then (s.(aborted := true), Success)
      else (s.(cfg := s.cfg[i := None], config := s.config - {key}, polled := s.polled - {Cfg(i)}), Success)
  }

  function DestroySmio(s: State, key: string): (State, Err)
    requires |s.mgmt| == NODES_MAX
  {
    if key !in s.smio then (s, ErrSmioDestroy)
    else
      var i := s.smio[key];
      if i >= NODES_MAX || s.mgmt[i].None? then (s.(aborted := true), Success)
      else (s.(mgmt := s.mgmt[i := None], smio := s.smio - {key}, polled := s.polled - {Mgmt(i)}), Success)
  }

  function DestroyConfigs(s: State, keys: seq<string>): (r: (State, Err))
    requires Sizes(s)
    ensures Sizes(r.0)
    decreases |keys|
  {
    if keys == [] then (s, Success)
    else
      var (t, err) := DestroyConfig(s, keys[0]);
      if err != Success then (t, ErrSmioDestroy) else DestroyConfigs(t, keys[1..])
  }

  function DestroySmios(s: State, keys: seq<string>): (r: (State, Err))
    requires Sizes(s)
    ensures Sizes(r.0)
    decreases |keys|
  {
    if keys == [] then (s, Success)
    else
      var (t, err) := DestroySmio(s, keys[0]);
      if err != Success then (t, ErrSmioDestroy) else DestroySmios(t, keys[1..])
  }

  predicate Sizes(s: State) {
    |s.mgmt| == |s.msg| == |s.cfg| == NODES_MAX
  }

  function Unregister(s: State, key: string): (State, Err)
    requires Sizes(s)
  {
    DestroySmio(DestroyConfig(s, key).0, key)
  }

  function UnregisterAll(s: State, configKeys: seq<string>, smioKeys: seq<string>): (State, Err)
    requires Sizes(s)
  {
    var (t, err) := DestroyConfigs(s, configKeys);
    if err != Success then (t, err) else DestroySmios(t, smioKeys)
  }

  /** A config actor reports that it is done; an error here ends the reactor. */
  function ConfigDone(s: State, key: string): State
    requires Sizes(s)
  {
    var (t, err) := DestroyConfig(s, key);
    if err == Success then t else t.(stopped := true)
  }

  // Runs.

  datatype Event =
    | Registration(key: string, env: Env)
    | Unregistration(key: string)
    | UnregistrationAll(configKeys: seq<string>, smioKeys: seq<string>)
    | Done(slot: nat)

  /** `keys` lists a set, each element once, in whatever order the table gives. */
  ghost predicate Lists(keys: seq<string>, s: set<string>) {
    && (forall i, j | 0 <= i < j < |keys| :: keys[i] != keys[j])
    && (forall k :: k in s <==> k in keys)
  }

  /** A registration needs a free slot (the code's own guard is one too lax); a
  done message comes from a live config actor over a socket that is polled. */
  ghost predicate Enabled(s: State, e: Event) {
    && Sizes(s) && !s.stopped && !s.aborted
    && match e
       case Registration(_, _) => s.nnodes < NODES_MAX
       case Unregistration(_) => true
       case UnregistrationAll(cs, ss) => Lists(cs, s.config.Keys) && Lists(ss, s.smio.Keys)
       case Done(i) => i < NODES_MAX && s.cfg[i].Some? && Cfg(i) in s.polled
  }

  ghost function Step(s: State, e: Event): (t: State)
    requires Enabled(s, e)
    ensures Sizes(t)
  {
    match e
    case Registration(key, env) => Register(s, key, env).0
    case Unregistration(key) => Unregister(s, key).0
    case UnregistrationAll(cs, ss) => UnregisterAll(s, cs, ss).0
    case Done(i) => ConfigDone(s, s.cfg[i].value)
  }

  ghost predicate IsRun(s: State, es: seq<Event>)
    decreases |es|
  {
    es == [] || (Enabled(s, es[0]) && IsRun(Step(s, es[0]), es[1..]))
  }

  ghost function Final(s: State, es: seq<Event>): State
    requires IsRun(s, es)
    decreases |es|
  {
    if es == [] then s else Final(Step(s, es[0]), es[1..])
  }

  // The invariant.

  /** Each table entry names a live slot that was started with its key. */
  ghost predicate TablesLive(s: State)
    requires Sizes(s)
  {
    && (forall k | k in s.smio :: s.smio[k] < s.nnodes <= NODES_MAX && s.mgmt[s.smio[k]] == Some(k))
    && (forall k | k in s.config :: k in s.smio && s.config[k] == s.smio[k] && s.cfg[s.config[k]] == Some(k))
  }

  /** No live actor has been lost from its table. */
  ghost predicate NoOrphans(s: State)
    requires Sizes(s)
  {
    && (forall i | 0 <= i < NODES_MAX :: s.mgmt[i].Some? ==> s.mgmt[i].value in s.smio && s.smio[s.mgmt[i].value] == i)
    && (forall i | 0 <= i < NODES_MAX :: s.cfg[i].Some? ==> s.cfg[i].value in s.config && s.config[s.cfg[i].value] == i)
    && (forall i | 0 <= i < NODES_MAX :: s.msg[i] ==> i < s.nnodes)
  }

  /** The sockets polled are exactly those of live actors and message pipes. */
  ghost predicate PollsLive(s: State)
    requires Sizes(s)
  {
    forall x: Sock :: x in s.polled <==> Wanted(s, x)
  }

  ghost predicate Wanted(s: State, x: Sock)
    requires Sizes(s)
  {
    x.slot < NODES_MAX &&
    match x
    case Msg(i) => s.msg[i]
    case Mgmt(i) => s.mgmt[i].Some?
    case Cfg(i) => s.cfg[i].Some?
  }

  ghost predicate Inv(s: State) {
    && Sizes(s) && s.nnodes <= NODES_MAX && !s.stopped && !s.aborted
    && TablesLive(s) && NoOrphans(s) && PollsLive(s)
  }

  lemma InitialInv()
    ensures Inv(Initial())
  {
  }

  lemma RegisterTables(s: State, key: string, env: Env)
    requires Inv(s) && s.nnodes < NODES_MAX && Starts(s, key, env)
    ensures TablesLive(Register(s, key, env).0)
  {
    hide PollsLive;
  }

  lemma RegisterOrphans(s: State, key: string, env: Env)
    requires Inv(s) && s.nnodes < NODES_MAX && Starts(s, key, env)
    ensures NoOrphans(Register(s, key, env).0)
  {
    hide PollsLive;
  }

  lemma RegisterPolls(s: State, key: string, env: Env)
    requires Inv(s) && s.nnodes < NODES_MAX && Starts(s, key, env)
    ensures PollsLive(Register(s, key, env).0)
  {
    hide TablesLive, NoOrphans;
  }

  lemma RegisterInv(s: State, key: string, env: Env)
    requires Inv(s) && s.nnodes < NODES_MAX
    ensures Inv(Register(s, key, env).0)
  {
    if Starts(s, key, env) {
      hide TablesLive, NoOrphans, PollsLive;
      RegisterTables(s, key, env);
      RegisterOrphans(s, key, env);
      RegisterPolls(s, key, env);
    } else {
      hide PollsLive;
      PollsSame(s, Register(s, key, env).0);
    }
  }

  lemma PollsSame(s: State, t: State)
    requires Inv(s) && t == s.(nnodes := t.nnodes)
    ensures PollsLive(t)
  {
    hide TablesLive, NoOrphans;
    assert forall x: Sock :: Wanted(s, x) == Wanted(t, x);
  }

  lemma DestroyConfigInv(s: State, key: string)
    requires Inv(s)
    ensures Inv(DestroyConfig(s, key).0)
    ensures DestroyConfig(s, key).1 == Success <==> key in s.config
  {
    var t := DestroyConfig(s, key).0;
    if key in s.config {
      assert TablesLive(t);
      assert NoOrphans(t);
      assert PollsLive(t);
    }
  }

  lemma DestroySmioInv(s: State, key: string)
    requires Inv(s) && key !in s.config
    ensures Inv(DestroySmio(s, key).0)
    ensures DestroySmio(s, key).1 == Success <==> key in s.smio
  {
    var t := DestroySmio(s, key).0;
    if key in s.smio {
      assert TablesLive(t);
      assert NoOrphans(t);
      assert PollsLive(t);
    }
  }

  ghost predicate Distinct(keys: seq<string>) {
    forall i, j | 0 <= i < j < |keys| :: keys[i] != keys[j]
  }

  lemma {:induction false} DestroyConfigsInv(s: State, keys: seq<string>)
    requires Inv(s) && Distinct(keys) && forall i | 0 <= i < |keys| :: keys[i] in s.config
    ensures var (t, err) := DestroyConfigs(s, keys);
      && Inv(t) && err == Success && t.smio == s.smio && t.msg == s.msg
      && (forall k :: k in t.config <==> k in s.config && k !in keys)
    decreases |keys|
  {
    hide TablesLive, NoOrphans, PollsLive;
    if keys != [] {
      DestroyConfigInv(s, keys[0]);
      var t := DestroyConfig(s, keys[0]).0;
      DestroyConfigFrame(s, keys[0]);
      forall i | 0 <= i < |keys[1..]|
        ensures keys[1..][i] in t.config
      {
        assert keys[1..][i] == keys[i + 1] && keys[0] != keys[i + 1];
      }
      DestroyConfigsInv(t, keys[1..]);
    }
  }

  lemma DestroyConfigFrame(s: State, key: string)
    requires Inv(s) && key in s.config
    ensures var t := DestroyConfig(s, key).0;
      var i := s.config[key];
      t == s.(cfg := s.cfg[i := None], config := s.config - {key}, polled := s.polled - {Cfg(i)})
  {
  }

  lemma DestroySmioFrame(s: State, key: string)
    requires Inv(s) && key in s.smio
    ensures var t := DestroySmio(s, key).0;
      var i := s.smio[key];
      t == s.(mgmt := s.mgmt[i := None], smio := s.smio - {key}, polled := s.polled - {Mgmt(i)})
  {
  }

  lemma {:induction false} DestroySmiosInv(s: State, keys: seq<string>)
    requires Inv(s) && Distinct(keys) && s.config == map[]
    requires forall i | 0 <= i < |keys| :: keys[i] in s.smio
    ensures var (t, err) := DestroySmios(s, keys);
      && Inv(t) && err == Success && t.config == map[] && t.msg == s.msg
      && (forall k :: k in t.smio <==> k in s.smio && k !in keys)
    decreases |keys|
  {
    hide TablesLive, NoOrphans, PollsLive;
    if keys != [] {
      DestroySmioInv(s, keys[0]);
      var t := DestroySmio(s, keys[0]).0;
      DestroySmioFrame(s, keys[0]);
      forall i | 0 <= i < |keys[1..]|
        ensures keys[1..][i] in t.smio
      {
        assert keys[1..][i] == keys[i + 1] && keys[0] != keys[i + 1];
      }
      DestroySmiosInv(t, keys[1..]);
    }
  }

  /** Unregistering everything empties both tables and every actor slot; all the
  message pipes, and nothing else, stay polled. */
  lemma UnregisterAllClears(s: State, cs: seq<string>, ss: seq<string>)
    requires Inv(s) && Lists(cs, s.config.Keys) && Lists(ss, s.smio.Keys)
    ensures var (t, err) := UnregisterAll(s, cs, ss);
      && Inv(t) && err == Success && t.smio == map[] && t.config == map[]
      && (forall i | 0 <= i < NODES_MAX :: t.mgmt[i].None? && t.cfg[i].None?)
      && t.msg == s.msg && (forall x :: x in t.polled <==> x.Msg? && x.slot < NODES_MAX && s.msg[x.slot])
  {
    hide TablesLive, NoOrphans, PollsLive, DestroyConfigs, DestroySmios;
    DestroyConfigsInv(s, cs);
    var t := DestroyConfigs(s, cs).0;
    assert t.config == map[];
    DestroySmiosInv(t, ss);
    var u := DestroySmios(t, ss).0;
    assert u.smio == map[];
    EmptyTables(u);
  }

  lemma EmptyTables(s: State)
    requires Inv(s) && s.smio == map[] && s.config == map[]
    ensures forall i | 0 <= i < NODES_MAX :: s.mgmt[i].None? && s.cfg[i].None?
    ensures forall x :: x in s.polled <==> x.Msg? && x.slot < NODES_MAX && s.msg[x.slot]
  {
  }

  lemma UnregisterInv(s: State, key: string)
    requires Inv(s)
    ensures var (t, err) := Unregister(s, key);
      && Inv(t)
      && (err == Success <==> key in s.smio)
      && t.smio == s.smio - {key} && t.config == s.config - {key} && t.msg == s.msg
  {
    hide TablesLive, NoOrphans, PollsLive;
    DestroyConfigInv(s, key);
    var t := DestroyConfig(s, key).0;
    if key in s.config {
      DestroyConfigFrame(s, key);
    }
    assert key !in t.config;
    DestroySmioInv(t, key);
    if key in t.smio {
      DestroySmioFrame(t, key);
    }
  }

  /** The message pipe of an SMIO stays polled when it is unregistered. */
  lemma PipesStayPolled(s: State, key: string, i: nat)
    requires Inv(s) && i < NODES_MAX && s.msg[i]
    ensures Msg(i) in Unregister(s, key).0.polled
  {
    hide Unregister, TablesLive, NoOrphans;
    UnregisterInv(s, key);
    assert Wanted(Unregister(s, key).0, Msg(i));
  }

  /** A done message destroys exactly the config actor it came from. */
  lemma ConfigDoneOwn(s: State, i: nat)
    requires Inv(s) && i < NODES_MAX && s.cfg[i].Some?
    ensures var key := s.cfg[i].value;
      && key in s.config && s.config[key] == i
      && ConfigDone(s, key) == s.(cfg := s.cfg[i := None], config := s.config - {key}, polled := s.polled - {Cfg(i)})
      && Inv(ConfigDone(s, key))
  {
    DestroyConfigInv(s, s.cfg[i].value);
  }

  lemma StepInv(s: State, e: Event)
    requires Inv(s) && Enabled(s, e)
    ensures Inv(Step(s, e))
  {
    hide Inv, Register, Unregister, UnregisterAll, ConfigDone;
    match e
    case Registration(key, env) => RegisterInv(s, key, env);
    case Unregistration(key) => UnregisterInv(s, key);
    case UnregistrationAll(cs, ss) => UnregisterAllClears(s, cs, ss);
    case Done(i) => ConfigDoneOwn(s, i);
  }

  /** Over every run: the invariant holds, no assertion fails, and the reactor is
  never stopped by a done message. */
  lemma {:induction false} RunInv(s: State, es: seq<Event>)
    requires Inv(s) && IsRun(s, es)
    ensures Inv(Final(s, es))
    decreases |es|
  {
    hide Inv, Enabled, Step;
    if es != [] {
      StepInv(s, es[0]);
      RunInv(Step(s, es[0]), es[1..]);
    }
  }

  lemma RunSafe(es: seq<Event>)
    requires IsRun(Initial(), es)
    ensures var t := Final(Initial(), es);
      && Inv(t) && !t.stopped && !t.aborted
      && (forall k | k in t.config :: k in t.smio)
      && (forall k, k' | k in t.smio && k' in t.smio && k != k' :: t.smio[k] != t.smio[k'])
  {
    hide IsRun, Final;
    InitialInv();
    RunInv(Initial(), es);
  }

  /** The value returned does not tell whether the SMIO was registered: it is
  Success on several failures, a duplicate key among them. */
  lemma RegisterReturn(s: State, key: string, env: Env)
    requires Inv(s) && s.nnodes < NODES_MAX
    ensures var (t, err) := Register(s, key, env);
      && (err == Success <==>
          env.found && env.keyOk && env.pipeOk && env.msgPolled && (env.argsOk && env.spawned ==> env.mgmtPolled))
      && (t.smio != s.smio <==>
          && env.found && env.keyOk && env.pipeOk && env.msgPolled && env.argsOk && env.spawned && env.mgmtPolled
          && key !in s.smio && env.cfgArgsOk && env.cfgSpawned)
      && (t.smio == s.smio ==> t == s.(nnodes := s.nnodes + if env.found && env.keyOk then 1 else 0))
      && (t.smio != s.smio ==>
          && t.nnodes == s.nnodes + 1 && t.smio == s.smio[key := s.nnodes] && t.config == s.config[key := s.nnodes]
          && t.polled == s.polled + {Msg(s.nnodes), Mgmt(s.nnodes), Cfg(s.nnodes)})
  {
    hide NoOrphans, PollsLive;
    if Starts(s, key, env) {
      assert key in Register(s, key, env).0.smio;
    }
  }

  /** Destroying through a table fails an assertion exactly if the slot it names is empty. */
  lemma AbortsIff(s: State, key: string)
    requires Sizes(s) && !s.aborted
    ensures DestroyConfig(s, key).0.aborted <==>
      key in s.config && (s.config[key] >= 20 || s.cfg[s.config[key]].None?)
    ensures DestroySmio(s, key).0.aborted <==> key in s.smio && (s.smio[key] >= 20 || s.mgmt[s.smio[key]].None?)
  {
  }

  /** With the invariant, the config table never refuses a key the first one took. */
  lemma ConfigInsertSucceeds(s: State, key: string)
    requires Inv(s) && key !in s.smio
    ensures key !in s.config
  {
  }

  /** A registration that fails to create its message pipe. */
  function Failure(key: string): Event {
    Registration(key, Env(true, true, false, true, true, true, true, true, true))
  }

  /** Failed registrations use slots up for good. */
  lemma {:induction false} FailuresUseSlots(s: State, key: string, n: nat)
    requires Inv(s) && s.nnodes + n <= NODES_MAX
    ensures var es := seq(n, _ => Failure(key));
      IsRun(s, es) && Final(s, es) == s.(nnodes := s.nnodes + n)
    decreases n
  {
    var es := seq(n, _ => Failure(key));
    if n > 0 {
      var t := s.(nnodes := s.nnodes + 1);
      assert Step(s, Failure(key)) == t;
      StepInv(s, Failure(key));
      FailuresUseSlots(t, key, n - 1);
      assert es[1..] == seq(n - 1, _ => Failure(key));
    }
  }

  /** The test the code makes before it takes a slot. */
  predicate GuardPasses(s: State) {
    s.nnodes <= NODES_MAX
  }

  /** That test passes in every reachable state, also in one without a free slot,
  which twenty failures lead to. */
  lemma GuardTooLax(es: seq<Event>, key: string)
    requires IsRun(Initial(), es)
    ensures var t := Final(Initial(), es);
      GuardPasses(t)
    ensures var full := seq(NODES_MAX, _ => Failure(key));
      && IsRun(Initial(), full) && GuardPasses(Final(Initial(), full)) && Final(Initial(), full).nnodes == 20
      && |Initial().mgmt| == |Initial().msg| == |Initial().cfg| == 20
  {
    hide IsRun, Final;
    InitialInv();
    RunInv(Initial(), es);
    FailuresUseSlots(Initial(), key, NODES_MAX);
  }
}
