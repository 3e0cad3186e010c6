/** Two SMIO threads that each set a field of one and the same register.

Every value the register can end with is known exactly, so it is known exactly
when sharing a register does no harm. */
module Races {
  import opened Basics
  import opened Endian
  import opened Rpc
  import opened Fields
  import opened Interleaving

  /** The two sets: `x` into field `f` and `y` into field `g` of register `a`. */
  datatype Race = Race(a: u64, f: Field, g: Field, x: u32, y: u32) {
    predicate Valid() { f.Valid() && g.Valid() }

    /** Both are allowed, and all accesses succeed. */
    function First(): SetOp { SetOp(a, f, x, true, WORD, 0, WORD) }

    function Second(): SetOp { SetOp(a, g, y, true, WORD, 0, WORD) }

    function F(v: u32): u32
      requires Valid()
    {
      Updated(f, v, x)
    }

    function G(v: u32): u32
      requires Valid()
    {
      Updated(g, v, y)
    }

    function Programs(): seq<Program> { [[First()], [Second()]] }
  }

  /** Some complete schedule of the two threads leaves `r` in the register. */
  ghost predicate Attains(c: Race, init: map<int, u32>, r: u32) {
    exists sched :: AttainsBy(c, init, r, sched)
  }

  ghost predicate AttainsBy(c: Race, init: map<int, u32>, r: u32, sched: seq<nat>) {
    var s := Start(c.Programs(), init);
    IsSchedule(s, sched) && Finished(Run(s, sched)) && Reg(Run(s, sched).regs, c.a) == r
  }

  /** One of the two threads ran after the other. */
  predicate Serial(c: Race, v: u32, r: u32)
    requires c.Valid()
  {
    r == c.G(c.F(v)) || r == c.F(c.G(v))
  }

  /** One of the two sets is missing. */
  predicate Lost(c: Race, v: u32, r: u32)
    requires c.Valid()
  {
    r == c.F(v) || r == c.G(v)
  }

  lemma InTurn(c: Race, init: map<int, u32>)
    requires c.Valid()
    ensures ValidProgram(c.Programs()[0]) && ValidProgram(c.Programs()[1])
    ensures var v := Reg(init, c.a);
      && Reg(Sequential(init, c.Programs(), [0, 1]), c.a) == c.G(c.F(v))
      && Reg(Sequential(init, c.Programs(), [1, 0]), c.a) == c.F(c.G(v))
  {
    hide Updated, Solo;
    var v, ps := Reg(init, c.a), c.Programs();
    assert ValidProgram(ps[0]) && ValidProgram(ps[1]);
    SoloOne(init, c.First());
    SoloOne(init, c.Second());
    SoloOne(init[c.a := c.F(v)], c.Second());
    SoloOne(init[c.a := c.G(v)], c.First());
    assert [0, 1][1..] == [1] && [1][1..] == [] && [1, 0][1..] == [0] && [0][1..] == [];
    assert Sequential(init, ps, [0, 1]) == Sequential(init[c.a := c.F(v)], ps, [1]);
    assert Sequential(init, ps, [1, 0]) == Sequential(init[c.a := c.G(v)], ps, [0]);
  }

  lemma SoloOne(regs: map<int, u32>, op: SetOp)
    requires op.f.Valid()
    ensures Solo(regs, [op]) == Apply(regs, op)
  {
    hide Apply;
    assert [op][..0] == [];
  }

  // No schedule ends with anything else.

  predicate Wrote(k: Client) {
    k.todo == [] || k.phase.Written?
  }

  /** One thread: what it has read is the original, or what the other one wrote. */
  predicate Side(k: Client, op: SetOp, v: u32, other: u32, otherWrote: bool)
    requires op.f.Valid()
  {
    || k == Client([], Ready)
    || (k.todo == [op] &&
        match k.phase
        case Told(w) => w == v || (otherWrote && w == other)
        case Writing(z) => z == Updated(op.f, v, op.value) || (otherWrote && z == Updated(op.f, other, op.value))
        case _ => true)
  }

  ghost predicate RaceInv(c: Race, v: u32, s: System)
    requires c.Valid()
  {
    && |s.clients| == 2
    && var p, q, r := s.clients[0], s.clients[1], Reg(s.regs, c.a);
       && Side(p, c.First(), v, c.G(v), Wrote(q)) && Side(q, c.Second(), v, c.F(v), Wrote(p))
       && if Wrote(p) then (if Wrote(q) then Serial(c, v, r) || Lost(c, v, r) else r == c.F(v))
          else r == if Wrote(q) then c.G(v) else v
  }

  lemma StepRace(c: Race, v: u32, s: System, i: nat)
    requires c.Valid() && RaceInv(c, v, s) && Enabled(s, i)
    ensures RaceInv(c, v, Step(s, i))
  {
    hide Updated;
    assert [c.First()][1..] == [] && [c.Second()][1..] == [];
  }

  lemma {:induction false} RunRace(c: Race, v: u32, s: System, sched: seq<nat>)
    requires c.Valid() && RaceInv(c, v, s) && IsSchedule(s, sched)
    ensures RaceInv(c, v, Run(s, sched))
    decreases |sched|
  {
    hide RaceInv, Enabled, Step;
    if sched != [] {
      StepRace(c, v, s, sched[0]);
      RunRace(c, v, Step(s, sched[0]), sched[1..]);
    }
  }

  lemma AttainedIsKnown(c: Race, init: map<int, u32>, r: u32, sched: seq<nat>)
    requires c.Valid() && AttainsBy(c, init, r, sched)
    ensures Serial(c, Reg(init, c.a), r) || Lost(c, Reg(init, c.a), r)
  {
    hide Updated, IsSchedule, Run;
    RunRace(c, Reg(init, c.a), Start(c.Programs(), init), sched);
  }

  // Each of those values is reached.

  /** Four turns of two moves each, by the threads named; then both are done. */
  function Turns(c1: nat, c2: nat, c3: nat, c4: nat): seq<nat> {
    [c1, c1] + ([c2, c2] + ([c3, c3] + ([c4, c4] + ([0, 1] + []))))
  }

  function At(c: Race, first: Phase, second: Phase, regs: map<int, u32>): System {
    System([Client([c.First()], first), Client([c.Second()], second)], regs)
  }

  function Over(regs: map<int, u32>): System {
    System([Client([], Ready), Client([], Ready)], regs)
  }

  /** Two moves of thread `i` lead from `s` to `t`. */
  predicate Turn(s: System, i: nat, j: nat, t: System) {
    Enabled(s, i) && Enabled(Step(s, i), j) && Step(Step(s, i), j) == t
  }

  lemma ReadTurns(c: Race, first: Phase, second: Phase, regs: map<int, u32>)
    requires c.Valid()
    ensures Turn(At(c, Ready, second, regs), 0, 0, At(c, Told(Reg(regs, c.a)), second, regs))
    ensures Turn(At(c, first, Ready, regs), 1, 1, At(c, first, Told(Reg(regs, c.a)), regs))
  {
    hide Updated;
  }

  lemma WriteTurns(c: Race, v: u32, first: Phase, second: Phase, regs: map<int, u32>)
    requires c.Valid()
    ensures Turn(At(c, Told(v), second, regs), 0, 0, At(c, Written, second, regs[c.a := c.F(v)]))
    ensures Turn(At(c, first, Told(v), regs), 1, 1, At(c, first, Written, regs[c.a := c.G(v)]))
  {
    hide Updated;
  }

  lemma LastTurn(c: Race, regs: map<int, u32>)
    requires c.Valid()
    ensures Turn(At(c, Written, Written, regs), 0, 1, Over(regs))
  {
    hide Updated;
    assert [c.First()][1..] == [] && [c.Second()][1..] == [];
  }

  lemma RunTwo(s: System, i: nat, j: nat, t: System, rest: seq<nat>, u: System)
    requires Turn(s, i, j, t) && Reaches(t, rest, u)
    ensures Reaches(s, [i, j] + rest, u)
  {
    hide Step, Enabled;
    assert ([i, j] + rest)[1..] == [j] + rest;
    assert ([j] + rest)[1..] == rest;
    assert IsSchedule(Step(s, i), [j] + rest) && Run(Step(s, i), [j] + rest) == Run(t, rest);
  }

  lemma RunTurns(c1: nat, c2: nat, c3: nat, c4: nat, s0: System, s1: System, s2: System, s3: System, s4: System,
                 end: System)
    requires Turn(s0, c1, c1, s1) && Turn(s1, c2, c2, s2) && Turn(s2, c3, c3, s3) && Turn(s3, c4, c4, s4)
    requires Turn(s4, 0, 1, end)
    ensures Reaches(s0, Turns(c1, c2, c3, c4), end)
  {
    assert Reaches(end, [], end);
    hide Turn, Reaches;
    RunTwo(s4, 0, 1, end, [], end);
    RunTwo(s3, c4, c4, s4, [0, 1] + [], end);
    RunTwo(s2, c3, c3, s3, [c4, c4] + ([0, 1] + []), end);
    RunTwo(s1, c2, c2, s2, [c3, c3] + ([c4, c4] + ([0, 1] + [])), end);
    RunTwo(s0, c1, c1, s1, [c2, c2] + ([c3, c3] + ([c4, c4] + ([0, 1] + []))), end);
  }

  lemma Arrived(c: Race, init: map<int, u32>, regs: map<int, u32>, sched: seq<nat>)
    requires c.Valid() && Reaches(At(c, Ready, Ready, init), sched, Over(regs))
    ensures Attains(c, init, Reg(regs, c.a))
  {
    hide IsSchedule, Run;
    assert Start(c.Programs(), init) == At(c, Ready, Ready, init);
    assert AttainsBy(c, init, Reg(regs, c.a), sched);
  }

  /** Both read before either writes: the first to write loses. */
  lemma LostAttained(c: Race, init: map<int, u32>)
    requires c.Valid()
    ensures Attains(c, init, c.F(Reg(init, c.a))) && Attains(c, init, c.G(Reg(init, c.a)))
  {
    hide Updated, Turn, At, Over, Reaches, Attains, Turns;
    var v := Reg(init, c.a);
    var s := At(c, Ready, Ready, init);
    var t, u := At(c, Told(v), Ready, init), At(c, Told(v), Told(v), init);
    ReadTurns(c, Told(v), Ready, init);
    var p := init[c.a := c.F(v)];
    var p' := p[c.a := c.G(v)];
    WriteTurns(c, v, Ready, Told(v), init);
    WriteTurns(c, v, Written, Ready, p);
    LastTurn(c, p');
    RunTurns(0, 1, 0, 1, s, t, u, At(c, Written, Told(v), p), At(c, Written, Written, p'), Over(p'));
    Arrived(c, init, p', Turns(0, 1, 0, 1));
    var q := init[c.a := c.G(v)];
    var q' := q[c.a := c.F(v)];
    WriteTurns(c, v, Told(v), Ready, init);
    WriteTurns(c, v, Ready, Written, q);
    LastTurn(c, q');
    RunTurns(0, 1, 1, 0, s, t, u, At(c, Told(v), Written, q), At(c, Written, Written, q'), Over(q'));
    Arrived(c, init, q', Turns(0, 1, 1, 0));
  }

  /** One thread after the other. */
  lemma SerialAttained(c: Race, init: map<int, u32>)
    requires c.Valid()
    ensures var v := Reg(init, c.a); Attains(c, init, c.G(c.F(v))) && Attains(c, init, c.F(c.G(v)))
  {
    hide Updated, Turn, At, Over, Reaches, Attains, Turns;
    var v := Reg(init, c.a);
    var s := At(c, Ready, Ready, init);
    ReadTurns(c, Ready, Ready, init);
    var p := init[c.a := c.F(v)];
    var p' := p[c.a := c.G(c.F(v))];
    WriteTurns(c, v, Ready, Ready, init);
    ReadTurns(c, Written, Ready, p);
    WriteTurns(c, c.F(v), Written, Ready, p);
    LastTurn(c, p');
    RunTurns(0, 0, 1, 1, s, At(c, Told(v), Ready, init), At(c, Written, Ready, p),
             At(c, Written, Told(c.F(v)), p), At(c, Written, Written, p'), Over(p'));
    Arrived(c, init, p', Turns(0, 0, 1, 1));
    var q := init[c.a := c.G(v)];
    var q' := q[c.a := c.F(c.G(v))];
    ReadTurns(c, Ready, Written, q);
    WriteTurns(c, c.G(v), Ready, Written, q);
    LastTurn(c, q');
    RunTurns(1, 1, 0, 0, s, At(c, Ready, Told(v), init), At(c, Ready, Written, q),
             At(c, Told(c.G(v)), Written, q), At(c, Written, Written, q'), Over(q'));
    Arrived(c, init, q', Turns(1, 1, 0, 0));
  }

  /** The values two sets of one register can leave in it, whatever the fields: those
  of the two serial orders, and those with either set missing. */
  lemma OutcomesExact(c: Race, init: map<int, u32>, r: u32)
    requires c.Valid()
    ensures Attains(c, init, r) <==> Serial(c, Reg(init, c.a), r) || Lost(c, Reg(init, c.a), r)
  {
    hide Updated, Attains, AttainsBy;
    LostAttained(c, init);
    SerialAttained(c, init);
    if Attains(c, init, r) {
      var sched := Witness(c, init, r);
      AttainedIsKnown(c, init, r, sched);
    }
  }

  lemma Witness(c: Race, init: map<int, u32>, r: u32) returns (sched: seq<nat>)
    requires Attains(c, init, r)
    ensures AttainsBy(c, init, r, sched)
  {
    hide AttainsBy;
    sched :| AttainsBy(c, init, r, sched);
  }

  /** Every schedule ends as one of the two serial orders. */
  ghost predicate Harmless(c: Race, init: map<int, u32>)
    requires c.Valid()
  {
    forall r: u32 | Attains(c, init, r) :: Serial(c, Reg(init, c.a), r)
  }

  /** Different fields: no schedule does harm if and only if there was nothing to set,
  each field holding its new value already. */
  lemma DisjointHarmlessIff(c: Race, init: map<int, u32>)
    requires c.Valid() && Disjoint(c.f, c.g)
    ensures var v := Reg(init, c.a);
      Harmless(c, init) <==> Held(c.f, c.x) == Extract(c.f, v) && Held(c.g, c.y) == Extract(c.g, v)
  {
    hide Updated, Attains, Held, Extract;
    var v := Reg(init, c.a);
    SetsCommute(c.f, c.g, v, c.x, c.y);
    UpdatedSameIff(c.f, v, c.x);
    UpdatedSameIff(c.g, v, c.y);
    if Harmless(c, init) {
      LostAttained(c, init);
      GetAfterSet(c.g, c.F(v), c.y);
      OtherFieldKept(c.f, c.g, v, c.x);
      GetAfterSet(c.f, c.G(v), c.x);
      OtherFieldKept(c.g, c.f, v, c.y);
    } else {
      var r: u32 :| Attains(c, init, r) && !Serial(c, v, r);
      OutcomesExact(c, init, r);
    }
  }

  /** One and the same field: no schedule does harm. */
  lemma SameFieldHarmless(c: Race, init: map<int, u32>)
    requires c.Valid() && c.f == c.g
    ensures Harmless(c, init)
  {
    hide Updated, Attains;
    var v := Reg(init, c.a);
    UpdatedTwice(c.f, v, c.x, c.y);
    UpdatedTwice(c.f, v, c.y, c.x);
    forall r: u32 | Attains(c, init, r)
      ensures Serial(c, v, r)
    {
      OutcomesExact(c, init, r);
    }
  }

  /** Whenever two different fields are set and the first has something to set, some
  schedule leaves it as it was, which neither serial order does. */
  lemma UpdateLost(c: Race, init: map<int, u32>)
    requires c.Valid() && Disjoint(c.f, c.g) && Held(c.f, c.x) != Extract(c.f, Reg(init, c.a))
    ensures var v := Reg(init, c.a);
      && Attains(c, init, c.G(v)) && Extract(c.f, c.G(v)) == Extract(c.f, v)
      && forall r: u32 | Serial(c, v, r) :: Extract(c.f, r) == Held(c.f, c.x) != Extract(c.f, v)
  {
    hide Updated, Attains, Held, Extract;
    var v := Reg(init, c.a);
    LostAttained(c, init);
    OtherFieldKept(c.g, c.f, v, c.y);
    SetsCommute(c.f, c.g, v, c.x, c.y);
    GetAfterSet(c.f, c.G(v), c.x);
  }
}
