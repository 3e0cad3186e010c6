/** The DEVIO object itself: slot arrays, hash tables and the reactor's sockets,
changed step by step, with the rollback chain of a failed registration. */
module DevIo {
  import opened Basics
  import opened Registry

  /** How far a registration got before a step failed. The numbers order the
  labels of the rollback chain. */
  const NO_PIPE := 1
  const PIPE := 2
  const PIPE_POLLED := 3
  const ACTOR := 4
  const ACTOR_POLLED := 5
  const IN_TABLE := 6
  const CONFIG_ACTOR := 7
  const COMPLETE := 8

  /** The state after `stage`, for the slot that is next. */
  function Partial(s: State, key: string, stage: int): State
    requires Sizes(s) && s.nnodes < NODES_MAX
  {
    var i := s.nnodes;
    s.(nnodes := i + 1,
       msg := if stage >= PIPE then s.msg[i := true] else s.msg,
       mgmt := if stage >= ACTOR then s.mgmt[i := Some(key)] else s.mgmt,
       cfg := if stage >= CONFIG_ACTOR then s.cfg[i := Some(key)] else s.cfg,
       smio := if stage >= IN_TABLE then s.smio[key := i] else s.smio,
       config := if stage >= COMPLETE then s.config[key := i] else s.config,
       polled := s.polled + (if stage >= PIPE_POLLED then {Msg(i)} else {})
                 + (if stage >= ACTOR_POLLED then {Mgmt(i)} else {}) + (if stage >= COMPLETE then {Cfg(i)} else {}))
  }

  /** The next slot is unused. */
  ghost predicate Vacant(s: State) {
    && Sizes(s) && s.nnodes < NODES_MAX
    && s.mgmt[s.nnodes].None? && !s.msg[s.nnodes] && s.cfg[s.nnodes].None?
    && Msg(s.nnodes) !in s.polled && Mgmt(s.nnodes) !in s.polled && Cfg(s.nnodes) !in s.polled
  }

  /** The stage the answers of the environment lead to. */
  function Stage(s: State, key: string, env: Env): int {
    if !env.pipeOk then NO_PIPE
    else if !env.msgPolled then PIPE
    else if !env.argsOk || !env.spawned then PIPE_POLLED
    else if !env.mgmtPolled then ACTOR
    else if key in s.smio then ACTOR_POLLED
    else if !env.cfgArgsOk || !env.cfgSpawned then IN_TABLE
    else if key in s.config then CONFIG_ACTOR
    else COMPLETE
  }

  class DevIo {
    var nnodes: nat
    const pipesMgmt: array<Option<string>>
    const pipesMsg: array<bool>
    const pipesConfig: array<Option<string>>
    var smIoH: map<string, nat>
    var smIoCfgH: map<string, nat>
    var polled: set<Sock>
    var running: bool

    ghost function Abs(): State
      reads this, pipesMgmt, pipesMsg, pipesConfig
    {
      State(nnodes, pipesMgmt[..], pipesMsg[..], pipesConfig[..], smIoH, smIoCfgH, polled, !running, false)
    }

    ghost predicate Valid()
      reads this, pipesMgmt, pipesMsg, pipesConfig
    {
      pipesMgmt != pipesConfig && Inv(Abs())
    }

    constructor ()
      ensures Valid() && Abs() == Initial()
      ensures fresh(pipesMgmt) && fresh(pipesMsg) && fresh(pipesConfig)
    {
      nnodes := 0;
      pipesMgmt := new Option<string>[NODES_MAX](_ => None);
      pipesMsg := new bool[NODES_MAX](_ => false);
      pipesConfig := new Option<string>[NODES_MAX](_ => None);
      smIoH, smIoCfgH, polled, running := map[], map[], {}, true;
      new;
      assert Abs() == Initial();
      InitialInv();
    }

    /** Take a slot and fill it, up to the first step that fails. */
    method Acquire(key: string, env: Env) returns (stage: int, err: Err)
      requires pipesMgmt != pipesConfig && Vacant(Abs())
      modifies this, pipesMgmt, pipesMsg, pipesConfig
      ensures stage == Stage(old(Abs()), key, env)
      ensures Abs() == Partial(old(Abs()), key, stage)
      ensures err == if stage == NO_PIPE || stage == PIPE || stage == ACTOR then ErrAlloc else Success
    {
      var i := nnodes;
      nnodes := nnodes + 1;
      if !env.pipeOk {
        return NO_PIPE, ErrAlloc;
      }
      pipesMsg[i] := true;
      if !env.msgPolled {
        return PIPE, ErrAlloc;
      }
      polled := polled + {Msg(i)};
      if !env.argsOk {
        return PIPE_POLLED, Success;
      }
      if !env.spawned {
        return PIPE_POLLED, Success;
      }
      pipesMgmt[i] := Some(key);
      if !env.mgmtPolled {
        return ACTOR, ErrAlloc;
      }
      polled := polled + {Mgmt(i)};
      if key in smIoH {
        return ACTOR_POLLED, Success;
      }
      smIoH := smIoH[key := i];
      if !env.cfgArgsOk {
        return IN_TABLE, Success;
      }
      if !env.cfgSpawned {
        return IN_TABLE, Success;
      }
      pipesConfig[i] := Some(key);
      if key in smIoCfgH {
        return CONFIG_ACTOR, Success;
      }
      smIoCfgH := smIoCfgH[key := i];
      polled := polled + {Cfg(i)};
      return COMPLETE, Success;
    }

    /** Undo, last step first, what a failed registration had done. */
    method Rollback(ghost s: State, key: string, stage: int)
      requires pipesMgmt != pipesConfig && Vacant(s) && NO_PIPE <= stage < COMPLETE
      requires Abs() == Partial(s, key, stage)
      requires stage >= IN_TABLE ==> key !in s.smio
      modifies this, pipesMgmt, pipesMsg, pipesConfig
      ensures Abs() == s.(nnodes := s.nnodes + 1)
    {
      var i := nnodes - 1;
      assert |pipesMsg[..]| == |pipesMgmt[..]| == |pipesConfig[..]| == NODES_MAX > i >= 0;
      if stage >= CONFIG_ACTOR {
        DestroyActor(pipesConfig, i, Cfg(i));
      }
      if stage >= IN_TABLE {
        smIoH := smIoH - {key};
        assert smIoH == s.smio;
      }
      if stage >= ACTOR_POLLED {
        polled := polled - {Mgmt(i)};
      }
      if stage >= ACTOR {
        DestroyActor(pipesMgmt, i, Mgmt(i));
      }
      if stage >= PIPE_POLLED {
        polled := polled - {Msg(i)};
      }
      if stage >= PIPE {
        pipesMsg[i] := false;
      }
      assert pipesConfig[..] == s.cfg && pipesMgmt[..] == s.mgmt && pipesMsg[..] == s.msg;
      assert polled == s.polled;
    }

    /** Stop polling an actor's socket and destroy the actor. Its slot must hold one. */
    method DestroyActor(pipes: array<Option<string>>, i: nat, sock: Sock)
      requires i < pipes.Length && pipes[i].Some?
      modifies this`polled, pipes
      ensures pipes[..] == old(pipes[..])[i := None]
      ensures polled == old(polled) - {sock}
    {
      polled := polled - {sock};
      pipes[i] := None;
    }

    /** Register an SMIO under the key its module and instance make up. */
    method RegisterSm(key: string, env: Env) returns (err: Err)
      requires Valid() && nnodes < NODES_MAX
      modifies this, pipesMgmt, pipesMsg, pipesConfig
      ensures Valid()
      ensures (Abs(), err) == Register(old(Abs()), key, env)
    {
      hide TablesLive, NoOrphans, PollsLive, Partial, Stage, Register;
      ghost var s := Abs();
      RegisterInv(s, key, env);
      RegisterUnknown(s, key, env);
      if !env.found {
        return ErrAlloc;
      }
      if !env.keyOk {
        return ErrAlloc;
      }
      InvVacant(s);
      StageOutcome(s, key, env);
      var stage;
      stage, err := Acquire(key, env);
      if stage < COMPLETE {
        Rollback(s, key, stage);
      }
    }

    method DestroyConfigActor(key: string) returns (err: Err)
      requires Valid()
      modifies this`polled, this`smIoCfgH, pipesConfig
      ensures Valid()
      ensures (Abs(), err) == DestroyConfig(old(Abs()), key)
    {
      DestroyConfigInv(Abs(), key);
      hide NoOrphans, PollsLive;
      if key !in smIoCfgH {
        return ErrSmioDestroy;
      }
      DestroyActor(pipesConfig, smIoCfgH[key], Cfg(smIoCfgH[key]));
      smIoCfgH := smIoCfgH - {key};
      return Success;
    }

    method DestroySmioActor(key: string) returns (err: Err)
      requires Valid() && key !in smIoCfgH
      modifies this`polled, this`smIoH, pipesMgmt
      ensures Valid()
      ensures (Abs(), err) == DestroySmio(old(Abs()), key)
    {
      DestroySmioInv(Abs(), key);
      hide NoOrphans, PollsLive;
      if key !in smIoH {
        return ErrSmioDestroy;
      }
      DestroyActor(pipesMgmt, smIoH[key], Mgmt(smIoH[key]));
      smIoH := smIoH - {key};
      return Success;
    }

    /** Destroy the config actor if it is still there, then the SMIO. */
    method UnregisterSm(key: string) returns (err: Err)
      requires Valid()
      modifies this`polled, this`smIoH, this`smIoCfgH, pipesMgmt, pipesConfig
      ensures Valid()
      ensures (Abs(), err) == Unregister(old(Abs()), key)
    {
      hide TablesLive, NoOrphans, PollsLive;
      ghost var s := Abs();
      DestroyConfigInv(s, key);
      if key in smIoCfgH {
        DestroyConfigFrame(s, key);
      }
      err := DestroyConfigActor(key);
      err := DestroySmioActor(key);
    }

    /** Destroy the config actors with the given keys, up to the first that is missing. */
    method DestroyConfigAll(keys: seq<string>) returns (err: Err)
      requires Valid()
      modifies this`polled, this`smIoCfgH, pipesConfig
      ensures Valid()
      ensures (Abs(), err) == DestroyConfigs(old(Abs()), keys)
    {
      hide TablesLive, NoOrphans, PollsLive, DestroyConfig;
      ghost var todo := keys;
      assert todo == keys[0..];
      var j := 0;
      while j < |keys|
        invariant 0 <= j <= |keys| && todo == keys[j..]
        invariant Valid() && Sizes(Abs()) && Sizes(old(Abs()))
        invariant DestroyConfigs(Abs(), todo) == DestroyConfigs(old(Abs()), keys)
      {
        err := DestroyConfigActor(keys[j]);
        if err != Success {
          return ErrSmioDestroy;
        }
        todo := todo[1..];
        j := j + 1;
      }
      return Success;
    }

    method DestroySmioAll(keys: seq<string>) returns (err: Err)
      requires Valid() && smIoCfgH == map[]
      modifies this`polled, this`smIoH, pipesMgmt
      ensures Valid()
      ensures (Abs(), err) == DestroySmios(old(Abs()), keys)
    {
      hide TablesLive, NoOrphans, PollsLive, DestroySmio;
      ghost var todo := keys;
      assert todo == keys[0..];
      var j := 0;
      while j < |keys|
        invariant 0 <= j <= |keys| && todo == keys[j..]
        invariant Valid() && Sizes(Abs()) && Sizes(old(Abs()))
        invariant DestroySmios(Abs(), todo) == DestroySmios(old(Abs()), keys)
      {
        err := DestroySmioActor(keys[j]);
        if err != Success {
          return ErrSmioDestroy;
        }
        todo := todo[1..];
        j := j + 1;
      }
      return Success;
    }

    /** Destroy every actor, in the order the tables list their keys. */
    method UnregisterAllSm(configKeys: seq<string>, smioKeys: seq<string>) returns (err: Err)
      requires Valid() && Lists(configKeys, smIoCfgH.Keys) && Lists(smioKeys, smIoH.Keys)
      modifies this`polled, this`smIoH, this`smIoCfgH, pipesMgmt, pipesConfig
      ensures Valid()
      ensures (Abs(), err) == UnregisterAll(old(Abs()), configKeys, smioKeys)
    {
      hide TablesLive, NoOrphans, PollsLive, DestroyConfigs, DestroySmios;
      ghost var s := Abs();
      DestroyConfigsInv(s, configKeys);
      assert DestroyConfigs(s, configKeys).0.config == map[];
      err := DestroyConfigAll(configKeys);
      if err == Success {
        err := DestroySmioAll(smioKeys);
      }
    }

    /** A message from a config actor, if one could be received. Only "CONFIG DONE" does
    anything; a missing frame or a key that is not in the table ends the reactor. */
    method HandlePipeCfg(msg: Option<seq<string>>) returns (rc: int)
      requires Valid()
      modifies this`polled, this`smIoCfgH, this`running, pipesConfig
      ensures rc == 0 || rc == -1
      ensures rc == 0 <==>
        msg.Some? && |msg.value| >= 2 && (msg.value[1] == "CONFIG DONE" ==> msg.value[0] in old(smIoCfgH))
      ensures rc == 0 ==> Valid()
      ensures Abs() == if rc != 0 then old(Abs()).(stopped := true)
                       else if msg.value[1] == "CONFIG DONE" then ConfigDone(old(Abs()), msg.value[0])
                       else old(Abs())
    {
      hide TablesLive, NoOrphans, PollsLive;
      if msg.None? || |msg.value| < 2 {
        running := false;
        return -1;
      }
      var service, command := msg.value[0], msg.value[1];
      DestroyConfigInv(Abs(), service);
      if command == "CONFIG DONE" {
        var err := DestroyConfigActor(service);
        if err != Success {
          running := false;
          return -1;
        }
      }
      return 0;
    }
  }

  lemma RegisterUnknown(s: State, key: string, env: Env)
    requires Sizes(s) && s.nnodes < NODES_MAX
    ensures !env.found || !env.keyOk ==> Register(s, key, env) == (s, ErrAlloc)
  {
  }

  /** Going through every stage is registering; stopping short and rolling back is
  failing, with the error the last assignment left behind. */
  lemma StageOutcome(s: State, key: string, env: Env)
    requires Sizes(s) && s.nnodes < NODES_MAX && env.found && env.keyOk
    ensures var stage := Stage(s, key, env);
      Register(s, key, env) ==
        if stage == COMPLETE then (Partial(s, key, COMPLETE), Success)
        else
          (s.(nnodes := s.nnodes + 1),
           if stage == NO_PIPE || stage == PIPE || stage == ACTOR then ErrAlloc else Success)
    ensures NO_PIPE <= Stage(s, key, env) <= COMPLETE && (Stage(s, key, env) >= IN_TABLE ==> key !in s.smio)
  {
    if Stage(s, key, env) == COMPLETE {
      var i := s.nnodes;
      assert Partial(s, key, COMPLETE).polled == s.polled + {Msg(i), Mgmt(i), Cfg(i)};
    }
  }

  lemma InvVacant(s: State)
    requires Inv(s) && s.nnodes < NODES_MAX
    ensures Vacant(s)
    ensures forall k :: k !in s.smio ==> k !in s.config
  {
  }
}
