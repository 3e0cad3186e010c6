/** Many SMIO threads setting parameters through one DEVIO reactor.

A SET is two requests: read the register, then write it back. The reactor serves
one request at a time, but other threads' requests may come between the two. A
client waits for each reply, so its pipe never holds more than one message; the
phase of a client says what that message is. */
module Interleaving {
  import opened Basics
  import opened Endian
  import opened Messages
  import opened Rpc
  import opened Fields
  import opened Params

  /** One SET, with what its two accesses will return (four when they succeed) and
  what its local variable holds if the first of them fails. */
  datatype SetOp = SetOp(addr: u64, f: Field, value: u32, allowed: bool,
                         readAnswer: int, garbage: u32, writeAnswer: int)

  datatype Phase =
    | Ready                 // no request out
    | Asked                 // read request in the pipe
    | Told(v: u32)          // reply in the pipe; `v` is what the client will go on from
    | Writing(w: u32)       // write request in the pipe
    | Written               // reply to it in the pipe

  datatype Client = Client(todo: seq<SetOp>, phase: Phase)

  datatype System = System(clients: seq<Client>, regs: map<int, u32>)

  type Program = seq<SetOp>

  predicate ValidProgram(p: Program) {
    forall i | 0 <= i < |p| :: p[i].f.Valid()
  }

  // Running sets one after the other.

  /** What the set modifies: the register, or a leftover if reading it fails. */
  function Seen(op: SetOp, regs: map<int, u32>): u32 {
    if op.readAnswer == WORD then Reg(regs, op.addr) else op.garbage
  }

  function Stored(op: SetOp, regs: map<int, u32>, w: u32): map<int, u32> {
    if op.writeAnswer == WORD then regs[op.addr := w] else regs
  }

  function Apply(regs: map<int, u32>, op: SetOp): map<int, u32>
    requires op.f.Valid()
  {
    if op.allowed then Stored(op, regs, Updated(op.f, Seen(op, regs), op.value)) else regs
  }

  /** Applied by itself, an operation is the SET of a parameter. */
  lemma ApplyIsSet(regs: map<int, u32>, op: SetOp)
    requires op.f.Valid()
    ensures var b := Board(regs, [op.readAnswer, op.writeAnswer]);
      Apply(regs, op) == SetOutcome(b, op.addr, op.f, op.value, op.allowed, op.garbage).0.regs
  {
    hide Updated;
    assert [op.readAnswer, op.writeAnswer][1..] == [op.writeAnswer];
  }

  function Solo(regs: map<int, u32>, p: Program): map<int, u32>
    requires ValidProgram(p)
    decreases |p|
  {
    if p == [] then regs else Apply(Solo(regs, p[..|p| - 1]), p[|p| - 1])
  }

  predicate Uses(p: Program, a: int) {
    exists i | 0 <= i < |p| :: p[i].addr == a
  }

  lemma {:induction false} SoloFrames(regs: map<int, u32>, p: Program, a: int)
    requires ValidProgram(p) && !Uses(p, a)
    ensures Reg(Solo(regs, p), a) == Reg(regs, a)
    decreases |p|
  {
    hide Updated;
    if p != [] {
      var front := p[..|p| - 1];
      assert p[|p| - 1].addr != a;
      UsesPrefix(p, |p| - 1);
      SoloFrames(regs, front, a);
    }
  }

  /** A program's result on its own registers depends on those registers only. */
  lemma {:induction false} SoloLocal(r: map<int, u32>, s: map<int, u32>, p: Program, a: int)
    requires ValidProgram(p) && Uses(p, a)
    requires forall x | Uses(p, x) :: Reg(r, x) == Reg(s, x)
    ensures Reg(Solo(r, p), a) == Reg(Solo(s, p), a)
    decreases |p|, 0
  {
    hide Updated;
    var n := |p| - 1;
    var front := p[..n];
    UsesPrefix(p, n);
    LocalAt(r, s, front, a);
    assert p[n].addr == p[n].addr && Uses(p, p[n].addr);
    LocalAt(r, s, front, p[n].addr);
  }

  lemma LocalAt(r: map<int, u32>, s: map<int, u32>, p: Program, a: int)
    requires ValidProgram(p) && Reg(r, a) == Reg(s, a)
    requires forall x | Uses(p, x) :: Reg(r, x) == Reg(s, x)
    ensures Reg(Solo(r, p), a) == Reg(Solo(s, p), a)
    decreases |p|, 1
  {
    hide Solo;
    if Uses(p, a) {
      SoloLocal(r, s, p, a);
    } else {
      SoloFrames(r, p, a);
      SoloFrames(s, p, a);
    }
  }

  lemma UsesPrefix(p: Program, n: nat)
    requires n <= |p|
    ensures forall x | Uses(p[..n], x) :: Uses(p, x)
  {
    forall x | Uses(p[..n], x)
      ensures Uses(p, x)
    {
      var i :| 0 <= i < n && p[..n][i].addr == x;
      assert p[i].addr == x;
    }
  }

  // The system.

  predicate CanMove(k: Client) {
    k.phase.Ready? ==> k.todo != []
  }

  /** A client, as the system's invariant keeps it: a request out means a set begun. */
  predicate Begun(k: Client) {
    && ValidProgram(k.todo)
    && (!k.phase.Ready? ==> k.todo != [] && k.todo[0].allowed)
  }

  /** The next move of client `k`, or of the reactor on its pipe. */
  function Move(k: Client, regs: map<int, u32>): (Client, map<int, u32>)
    requires CanMove(k) && Begun(k)
  {
    var op := k.todo[0];
    match k.phase
    case Ready => if op.allowed then (k.(phase := Asked), regs) else (Client(k.todo[1..], Ready), regs)
    case Asked => (k.(phase := Told(Seen(op, regs))), regs)
    case Told(v) => (k.(phase := Writing(Updated(op.f, v, op.value))), regs)
    case Writing(w) => (k.(phase := Written), Stored(op, regs, w))
    case Written => (Client(k.todo[1..], Ready), regs)
  }

  /** The two moves of the reactor are its message handler at work: on a read request
  the client is told what it makes of the reply, and the registers stay. */
  lemma AskedIsHandled(k: Client, regs: map<int, u32>)
    requires CanMove(k) && Begun(k) && k.phase.Asked?
    requires -0x8000_0000 < k.todo[0].readAnswer <= WORD
    ensures var op := k.todo[0];
      var (b, reply) := Handle(Server(), Board(regs, [op.readAnswer]), ReadRequest(op.addr));
      var (n, data) := Received(reply, WORD, true);
      var (k', regs') := Move(k, regs);
      && regs' == b.regs && k'.phase.Told?
      && k'.phase.v == if n == WORD then NatLE(data) else op.garbage
  {
    hide Handle, Server, Received, NatLE, BytesLE, Updated;
    ClientReadRefines(Board(regs, [k.todo[0].readAnswer]), k.todo[0].addr);
  }

  /** On a write request it stores the word and replies. */
  lemma WritingIsHandled(k: Client, regs: map<int, u32>)
    requires CanMove(k) && Begun(k) && k.phase.Writing?
    requires -0x8000_0000 < k.todo[0].writeAnswer <= WORD
    ensures var op := k.todo[0];
      var (b, reply) := Handle(Server(), Board(regs, [op.writeAnswer]), WriteRequest(op.addr, k.phase.w));
      Move(k, regs) == (k.(phase := Written), b.regs)
  {
    hide Handle, Server, Received, NatLE, BytesLE, Updated;
    ClientWriteRefines(Board(regs, [k.todo[0].writeAnswer]), k.todo[0].addr, k.phase.w);
  }

  predicate Enabled(s: System, c: nat) {
    c < |s.clients| && CanMove(s.clients[c]) && Begun(s.clients[c])
  }

  function Step(s: System, c: nat): System
    requires Enabled(s, c)
  {
    var (k, regs) := Move(s.clients[c], s.regs);
    System(s.clients[c := k], regs)
  }

  ghost predicate IsSchedule(s: System, sched: seq<nat>)
    decreases |sched|
  {
    sched == [] || (Enabled(s, sched[0]) && IsSchedule(Step(s, sched[0]), sched[1..]))
  }

  ghost function Run(s: System, sched: seq<nat>): System
    requires IsSchedule(s, sched)
    decreases |sched|
  {
    if sched == [] then s else Run(Step(s, sched[0]), sched[1..])
  }

  /** The schedule can be followed from `s`, and ends in `t`. */
  ghost predicate Reaches(s: System, sched: seq<nat>, t: System) {
    IsSchedule(s, sched) && Run(s, sched) == t
  }

  function Start(ps: seq<Program>, regs: map<int, u32>): System {
    System(seq(|ps|, i requires 0 <= i < |ps| => Client(ps[i], Ready)), regs)
  }

  ghost predicate Finished(s: System) {
    forall c | 0 <= c < |s.clients| :: s.clients[c] == Client([], Ready)
  }

  // The invariant.

  /** How many sets of its program a client has completed in the registers. */
  function Progress(k: Client, p: Program): int {
    |p| - |k.todo| + (if k.phase.Written? then 1 else 0)
  }

  ghost predicate OnTrack(k: Client, p: Program, init: map<int, u32>, regs: map<int, u32>) {
    && ValidProgram(p) && Begun(k)
    && |k.todo| <= |p| && k.todo == p[|p| - |k.todo|..]
    && (forall a | Uses(p, a) :: Reg(regs, a) == Reg(Solo(init, p[..Progress(k, p)]), a))
    && (k.phase.Told? ==> k.phase.v == Seen(k.todo[0], regs))
    && (k.phase.Writing? ==> k.phase.w == Updated(k.todo[0].f, Seen(k.todo[0], regs), k.todo[0].value))
  }

  ghost predicate ProgramsApart(ps: seq<Program>) {
    forall i, j, a | 0 <= i < |ps| && 0 <= j < |ps| && i != j && Uses(ps[i], a) :: !Uses(ps[j], a)
  }

  ghost predicate Inv(s: System, ps: seq<Program>, init: map<int, u32>) {
    && |s.clients| == |ps|
    && (forall c | 0 <= c < |ps| :: OnTrack(s.clients[c], ps[c], init, s.regs))
    && (forall a | (forall c | 0 <= c < |ps| :: !Uses(ps[c], a)) :: Reg(s.regs, a) == Reg(init, a))
  }

  lemma PrefixStep(init: map<int, u32>, p: Program, n: nat)
    requires ValidProgram(p) && n < |p|
    ensures Solo(init, p[..n + 1]) == Apply(Solo(init, p[..n]), p[n])
  {
    assert p[..n + 1][..n] == p[..n];
  }

  lemma UsesOwn(p: Program, n: nat)
    requires n < |p|
    ensures Uses(p, p[n].addr)
  {
  }

  lemma StoredAt(op: SetOp, regs: map<int, u32>, w: u32, a: int)
    ensures Reg(Stored(op, regs, w), a) == if op.writeAnswer == WORD && a == op.addr then w else Reg(regs, a)
  {
  }

  /** A client's own move keeps it on track. */
  lemma MoveOnTrack(k: Client, p: Program, init: map<int, u32>, regs: map<int, u32>)
    requires CanMove(k) && OnTrack(k, p, init, regs)
    ensures var (k', regs') := Move(k, regs); OnTrack(k', p, init, regs')
  {
    hide Solo, Updated, Uses, Reg;
    var n := |p| - |k.todo|;
    var op := k.todo[0];
    assert op == p[n];
    PrefixStep(init, p, n);
    UsesOwn(p, n);
    assert k.todo[1..] == p[n + 1..];
    if k.phase.Writing? {
      forall a | Uses(p, a)
        ensures Reg(Stored(op, regs, k.phase.w), a) == Reg(Apply(Solo(init, p[..n]), op), a)
      {
        StoredAt(op, regs, k.phase.w, a);
        StoredAt(op, Solo(init, p[..n]), k.phase.w, a);
      }
    }
  }

  /** It touches no register but its own. */
  lemma MoveFrames(k: Client, p: Program, init: map<int, u32>, regs: map<int, u32>, a: int)
    requires CanMove(k) && OnTrack(k, p, init, regs) && !Uses(p, a)
    ensures Reg(Move(k, regs).1, a) == Reg(regs, a)
  {
    hide Solo, Updated;
    assert k.todo[0] == p[|p| - |k.todo|];
  }

  lemma OtherOnTrack(k: Client, p: Program, init: map<int, u32>, regs: map<int, u32>, regs': map<int, u32>)
    requires OnTrack(k, p, init, regs) && forall a | Uses(p, a) :: Reg(regs', a) == Reg(regs, a)
    ensures OnTrack(k, p, init, regs')
  {
    hide Solo, Updated;
    if k.todo != [] {
      assert k.todo[0] == p[|p| - |k.todo|];
    }
  }

  lemma StepInv(s: System, ps: seq<Program>, init: map<int, u32>, c: nat)
    requires Inv(s, ps, init) && ProgramsApart(ps) && Enabled(s, c)
    ensures Inv(Step(s, c), ps, init)
  {
    hide OnTrack, Move, Uses;
    var k := s.clients[c];
    var t := Step(s, c);
    MoveOnTrack(k, ps[c], init, s.regs);
    forall i | 0 <= i < |ps| && i != c
      ensures OnTrack(t.clients[i], ps[i], init, t.regs)
    {
      forall a | Uses(ps[i], a)
        ensures Reg(t.regs, a) == Reg(s.regs, a)
      {
        MoveFrames(k, ps[c], init, s.regs, a);
      }
      OtherOnTrack(s.clients[i], ps[i], init, s.regs, t.regs);
    }
    forall a | (forall i | 0 <= i < |ps| :: !Uses(ps[i], a))
      ensures Reg(t.regs, a) == Reg(init, a)
    {
      MoveFrames(k, ps[c], init, s.regs, a);
    }
  }

  lemma {:induction false} RunInv(s: System, ps: seq<Program>, init: map<int, u32>, sched: seq<nat>)
    requires Inv(s, ps, init) && ProgramsApart(ps) && IsSchedule(s, sched)
    ensures Inv(Run(s, sched), ps, init)
    decreases |sched|
  {
    hide Inv, Enabled, Step;
    if sched != [] {
      StepInv(s, ps, init, sched[0]);
      RunInv(Step(s, sched[0]), ps, init, sched[1..]);
    }
  }

  lemma StartInv(ps: seq<Program>, init: map<int, u32>)
    requires forall i | 0 <= i < |ps| :: ValidProgram(ps[i])
    ensures Inv(Start(ps, init), ps, init)
  {
    var s := Start(ps, init);
    forall c | 0 <= c < |ps|
      ensures OnTrack(s.clients[c], ps[c], init, init)
    {
      assert ps[c][0..] == ps[c] && ps[c][..0] == [];
    }
  }

  // Schedules come to an end, and only when all is done.

  /** The moves a client has still to make, at most. */
  function Work(k: Client): int {
    5 * |k.todo| -
    match k.phase
    case Ready => 0
    case Asked => 1
    case Told(_) => 2
    case Writing(_) => 3
    case Written => 4
  }

  function TotalWork(ks: seq<Client>): int {
    if ks == [] then 0 else Work(ks[0]) + TotalWork(ks[1..])
  }

  lemma MoveWorks(k: Client, regs: map<int, u32>)
    requires CanMove(k) && Begun(k)
    ensures Work(Move(k, regs).0) < Work(k) && Begun(Move(k, regs).0)
  {
    hide Updated;
  }

  lemma {:induction false} TotalUpdate(ks: seq<Client>, c: nat, k: Client)
    requires c < |ks|
    ensures TotalWork(ks[c := k]) == TotalWork(ks) - Work(ks[c]) + Work(k)
    decreases |ks|
  {
    hide Work;
    if c == 0 {
      assert ks[c := k][1..] == ks[1..];
    } else {
      assert ks[c := k][1..] == ks[1..][c - 1 := k];
      TotalUpdate(ks[1..], c - 1, k);
    }
  }

  lemma {:induction false} TotalPositive(ks: seq<Client>)
    requires forall c | 0 <= c < |ks| :: Begun(ks[c])
    ensures TotalWork(ks) >= 0
    decreases |ks|
  {
    if ks != [] {
      assert Begun(ks[0]);
      TotalPositive(ks[1..]);
    }
  }

  ghost predicate AllBegun(s: System) {
    forall c | 0 <= c < |s.clients| :: Begun(s.clients[c])
  }

  /** No schedule is longer than the work there is. */
  lemma {:induction false} SchedulesEnd(s: System, sched: seq<nat>)
    requires AllBegun(s) && IsSchedule(s, sched)
    ensures |sched| <= TotalWork(s.clients) && AllBegun(Run(s, sched))
    decreases |sched|
  {
    hide Work, Begun, Move, CanMove;
    if sched == [] {
      TotalPositive(s.clients);
    } else {
      var c := sched[0];
      MoveWorks(s.clients[c], s.regs);
      TotalUpdate(s.clients, c, Move(s.clients[c], s.regs).0);
      assert Step(s, c).clients == s.clients[c := Move(s.clients[c], s.regs).0];
      SchedulesEnd(Step(s, c), sched[1..]);
      assert Run(s, sched) == Run(Step(s, c), sched[1..]);
    }
  }

  /** Where no client can move, all are done: the system never gets stuck half-way. */
  lemma StuckIsFinished(ps: seq<Program>, init: map<int, u32>, sched: seq<nat>)
    requires forall i | 0 <= i < |ps| :: ValidProgram(ps[i])
    requires IsSchedule(Start(ps, init), sched)
    ensures var t := Run(Start(ps, init), sched);
      Finished(t) <==> forall c: nat :: !Enabled(t, c)
  {
    hide IsSchedule, Run;
    var s := Start(ps, init);
    assert AllBegun(s);
    SchedulesEnd(s, sched);
    var t := Run(s, sched);
    if forall c: nat :: !Enabled(t, c) {
      forall c | 0 <= c < |t.clients|
        ensures t.clients[c] == Client([], Ready)
      {
        assert !Enabled(t, c) && Begun(t.clients[c]);
      }
    }
  }

  // Serial execution.

  function Sequential(regs: map<int, u32>, ps: seq<Program>, order: seq<nat>): map<int, u32>
    requires forall i | 0 <= i < |ps| :: ValidProgram(ps[i])
    requires forall i | 0 <= i < |order| :: order[i] < |ps|
    decreases |order|
  {
    if order == [] then regs else Sequential(Solo(regs, ps[order[0]]), ps, order[1..])
  }

  /** Every client once, in some order. */
  ghost predicate IsOrder(order: seq<nat>, n: nat) {
    && (forall i | 0 <= i < |order| :: order[i] < n)
    && (forall i, j | 0 <= i < j < |order| :: order[i] != order[j])
    && (forall c: nat | c < n :: c in order)
  }

  lemma {:induction false} SequentialAt(regs: map<int, u32>, ps: seq<Program>, order: seq<nat>, a: int)
    requires forall i | 0 <= i < |ps| :: ValidProgram(ps[i])
    requires forall i | 0 <= i < |order| :: order[i] < |ps|
    requires forall i | 0 <= i < |order| :: !Uses(ps[order[i]], a)
    ensures Reg(Sequential(regs, ps, order), a) == Reg(regs, a)
    decreases |order|
  {
    hide Uses, Solo, Reg;
    if order != [] {
      assert !Uses(ps[order[0]], a);
      SoloFrames(regs, ps[order[0]], a);
      SequentialAt(Solo(regs, ps[order[0]]), ps, order[1..], a);
    }
  }

  lemma {:induction false} SequentialOwn(regs: map<int, u32>, init: map<int, u32>, ps: seq<Program>, order: seq<nat>,
                                         c: nat, a: int)
    requires forall i | 0 <= i < |ps| :: ValidProgram(ps[i])
    requires forall i | 0 <= i < |order| :: order[i] < |ps|
    requires forall i, j | 0 <= i < j < |order| :: order[i] != order[j]
    requires ProgramsApart(ps) && c < |ps| && c in order && Uses(ps[c], a)
    requires forall x | Uses(ps[c], x) :: Reg(regs, x) == Reg(init, x)
    ensures Reg(Sequential(regs, ps, order), a) == Reg(Solo(init, ps[c]), a)
    decreases |order|
  {
    hide Uses, Solo, Reg;
    var next := Solo(regs, ps[order[0]]);
    if order[0] == c {
      SoloLocal(regs, init, ps[c], a);
      forall i | 0 <= i < |order[1..]|
        ensures !Uses(ps[order[1..][i]], a)
      {
        assert order[1..][i] == order[i + 1] != order[0];
      }
      SequentialAt(next, ps, order[1..], a);
    } else {
      forall x | Uses(ps[c], x)
        ensures Reg(next, x) == Reg(init, x)
      {
        SoloFrames(regs, ps[order[0]], x);
      }
      SequentialOwn(next, init, ps, order[1..], c, a);
    }
  }

  lemma FinishedOwn(s: System, ps: seq<Program>, init: map<int, u32>, c: nat, a: int)
    requires Inv(s, ps, init) && Finished(s) && c < |ps| && Uses(ps[c], a)
    ensures Reg(s.regs, a) == Reg(Solo(init, ps[c]), a)
  {
    hide Solo, Reg;
    assert OnTrack(s.clients[c], ps[c], init, s.regs);
    assert ps[c][..|ps[c]|] == ps[c];
  }

  /** Threads that use different registers: every complete interleaving of their
  requests leaves the registers as running them one after another, in any order. */
  lemma Serializable(ps: seq<Program>, init: map<int, u32>, sched: seq<nat>, order: seq<nat>, a: int)
    requires forall i | 0 <= i < |ps| :: ValidProgram(ps[i])
    requires ProgramsApart(ps) && IsOrder(order, |ps|)
    requires IsSchedule(Start(ps, init), sched) && Finished(Run(Start(ps, init), sched))
    ensures Reg(Run(Start(ps, init), sched).regs, a) == Reg(Sequential(init, ps, order), a)
  {
    hide Uses, Solo, Reg, Run, IsSchedule, Sequential, OnTrack, Finished;
    StartInv(ps, init);
    RunInv(Start(ps, init), ps, init, sched);
    var s := Run(Start(ps, init), sched);
    if c: nat :| c < |ps| && Uses(ps[c], a) {
      FinishedOwn(s, ps, init, c, a);
      SequentialOwn(init, init, ps, order, c, a);
    } else {
      SequentialAt(init, ps, order, a);
    }
  }
}
