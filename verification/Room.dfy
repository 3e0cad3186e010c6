/** Exactly when gensdbfs leaves enough room, for trees without fixed positions.

A bridge is given its child's *last* address as its size, and ends one byte
earlier still, so the room reserved for a subdirectory is less than the
subdirectory takes. Rounding up to a block usually hides this. */
module Room {
  import opened Basics
  import opened Bits
  import opened Records
  import opened Layout
  import opened Chunks
  import opened Spacing

  /** Rounding the reserved size up to a block must reach the true end. Only a
  later entry that takes any space at all can be hurt. */
  ghost predicate Roomy(kids: seq<Laid>, bs: nat)
    requires bs > 0
  {
    forall i, j | 0 <= i < j < |kids| :: kids[i].LaidSub? && Window(kids[j]).len > 0 ==> Reaches(kids[i], bs)
  }

  predicate Reaches(k: Laid, bs: nat)
    requires bs > 0 && k.LaidSub?
  {
    RoundUp(k.first + k.size, bs) >= k.child + End(k.dir)
  }

  ghost predicate RoomyTree(l: LaidDir, bs: nat)
    requires bs > 0
    decreases l, 1
  {
    Roomy(l.kids, bs) && forall i | 0 <= i < |l.kids| :: RoomyIn(l.kids[i], bs)
  }

  ghost predicate RoomyIn(k: Laid, bs: nat)
    requires bs > 0
    decreases k, 0
  {
    k.LaidSub? ==> RoomyTree(k.dir, bs)
  }

  ghost predicate SomeFull(kids: seq<Laid>) {
    exists j | 0 <= j < |kids| :: Window(kids[j]).len > 0
  }

  /** Starting on a block boundary, the first entry to take space starts there. */
  lemma {:induction false} FirstFull(ks: seq<Node>, base: nat, rpos: nat, bs: nat) returns (j: nat)
    requires bs > 0 && rpos % bs == 0 && AutoKids(ks) && SomeFull(LayKids(ks, base, rpos, bs))
    ensures var ls := LayKids(ks, base, rpos, bs);
      j < |ls| && Window(ls[j]).len > 0 && Window(ls[j]).lo == rpos
    decreases |ks|
  {
    var ls := LayKids(ks, base, rpos, bs);
    var l := LayNode(ks[0], base, rpos, bs);
    if Window(l).len > 0 {
      j := 0;
    } else {
      RoundUpTo(rpos, rpos, bs);
      assert l.LaidFile? && l.size == 0 && After(l, rpos, bs) == rpos;
      var rest := LayKids(ks[1..], base, rpos, bs);
      assert ls == [l] + rest;
      var n :| 0 <= n < |ls| && Window(ls[n]).len > 0;
      assert rest[n - 1] == ls[n];
      j := FirstFull(ks[1..], base, rpos, bs);
      j := j + 1;
    }
  }

  lemma WindowStart(ks: seq<Node>, base: nat, rpos: nat, bs: nat, i: nat)
    requires bs > 0 && AutoKids(ks) && i < |ks|
    ensures Window(LayKids(ks, base, rpos, bs)[i]).lo >= rpos
  {
    hide LayKids;
    KidAt(ks, base, rpos, bs, i);
  }

  ghost predicate HeadClear(f: Laid, rest: seq<Laid>) {
    forall j | 0 <= j < |rest| :: Apart(Window(f), Window(rest[j]))
  }

  lemma HeadIff(n: Node, ks: seq<Node>, base: nat, rpos: nat, bs: nat)
    requires bs > 0 && AutoNode(n) && AutoKids(ks)
    ensures var f := LayNode(n, base, rpos, bs);
      var rest := LayKids(ks, base, After(f, rpos, bs), bs);
      HeadClear(f, rest) <==> (f.LaidSub? && SomeFull(rest) ==> Reaches(f, bs))
  {
    hide LayKids, RoundUp;
    var f := LayNode(n, base, rpos, bs);
    var next := After(f, rpos, bs);
    var rest := LayKids(ks, base, next, bs);
    RoundUpLeast(rpos + f.size, bs);
    forall j | 0 <= j < |rest|
      ensures Window(rest[j]).lo >= next
    {
      WindowStart(ks, base, next, bs, j);
    }
    if f.LaidSub? && SomeFull(rest) && !Reaches(f, bs) {
      var j := FirstFull(ks, base, next, bs);
      assert !Apart(Window(f), Window(rest[j]));
    }
  }

  lemma SplitApart(f: Laid, rest: seq<Laid>)
    ensures WindowsApart([f] + rest) <==> HeadClear(f, rest) && WindowsApart(rest)
  {
    var kids := [f] + rest;
    if WindowsApart(kids) {
      forall j | 0 <= j < |rest|
        ensures Apart(Window(f), Window(rest[j]))
      {
        assert kids[0] == f && kids[j + 1] == rest[j];
      }
      forall i, j | 0 <= i < j < |rest|
        ensures Apart(Window(rest[i]), Window(rest[j]))
      {
        assert kids[i + 1] == rest[i] && kids[j + 1] == rest[j];
      }
    }
    if HeadClear(f, rest) && WindowsApart(rest) {
      forall i, j | 0 <= i < j < |kids|
        ensures Apart(Window(kids[i]), Window(kids[j]))
      {
        assert kids[j] == rest[j - 1];
        if i > 0 {
          assert kids[i] == rest[i - 1];
        }
      }
    }
  }

  lemma SplitRoomy(f: Laid, rest: seq<Laid>, bs: nat)
    requires bs > 0
    ensures Roomy([f] + rest, bs) <==> (f.LaidSub? && SomeFull(rest) ==> Reaches(f, bs)) && Roomy(rest, bs)
  {
    hide Reaches, Window;
    var kids := [f] + rest;
    if Roomy(kids, bs) {
      if f.LaidSub? && SomeFull(rest) {
        var j :| 0 <= j < |rest| && Window(rest[j]).len > 0;
        assert kids[0] == f && kids[j + 1] == rest[j];
      }
      forall i, j | 0 <= i < j < |rest| && rest[i].LaidSub? && Window(rest[j]).len > 0
        ensures Reaches(rest[i], bs)
      {
        assert kids[i + 1] == rest[i] && kids[j + 1] == rest[j];
      }
    }
    if (f.LaidSub? && SomeFull(rest) ==> Reaches(f, bs)) && Roomy(rest, bs) {
      forall i, j | 0 <= i < j < |kids| && kids[i].LaidSub? && Window(kids[j]).len > 0
        ensures Reaches(kids[i], bs)
      {
        assert kids[j] == rest[j - 1];
        if i > 0 {
          assert kids[i] == rest[i - 1];
        }
      }
    }
  }

  lemma {:induction false} KidsIff(ks: seq<Node>, base: nat, rpos: nat, bs: nat)
    requires bs > 0 && AutoKids(ks)
    ensures var ls := LayKids(ks, base, rpos, bs); WindowsApart(ls) <==> Roomy(ls, bs)
    decreases |ks|
  {
    hide WindowsApart, Roomy, LayNode, Reaches, SomeFull, HeadClear;
    var ls := LayKids(ks, base, rpos, bs);
    if ks == [] {
      NoneRoomy(bs);
    } else {
      var f := LayNode(ks[0], base, rpos, bs);
      var rest := LayKids(ks[1..], base, After(f, rpos, bs), bs);
      assert ls == [f] + rest;
      KidsIff(ks[1..], base, After(f, rpos, bs), bs);
      HeadIff(ks[0], ks[1..], base, rpos, bs);
      SplitApart(f, rest);
      SplitRoomy(f, rest, bs);
    }
  }

  lemma NoneRoomy(bs: nat)
    requires bs > 0
    ensures WindowsApart([]) && Roomy([], bs)
  {
  }

  /** For every tree without fixed positions: the windows of the layout keep apart,
  at every level, if and only if every subdirectory's room reaches its true end. */
  lemma {:induction false} RoomIsExact(d: Dir, base: nat, table: nat, bs: nat)
    requires bs > 0 && Autos(d)
    ensures var l := Lay(d, base, table, bs); NoOverlap(l) <==> RoomyTree(l, bs)
    decreases d
  {
    hide LayKids, RoundUp, WindowsApart, Roomy, LayNode;
    var l, start := Lay(d, base, table, bs), FirstPos(d, table, bs);
    KidsIff(d.kids, base, start, bs);
    RoundUpLeast(TableSize(|d.kids|), bs);
    forall i | 0 <= i < |l.kids|
      ensures Apart(Span(l.table, TableSize(|l.kids|)), Window(l.kids[i]))
      ensures NoOverlapIn(l.kids[i]) <==> RoomyIn(l.kids[i], bs)
    {
      WindowStart(d.kids, base, start, bs, i);
      KidAt(d.kids, base, start, bs, i);
      NodeIff(d.kids[i], base, PosAt(d.kids, base, start, bs, i), bs);
    }
  }

  lemma {:induction false} NodeIff(n: Node, base: nat, rpos: nat, bs: nat)
    requires bs > 0 && AutoNode(n)
    ensures var k := LayNode(n, base, rpos, bs); NoOverlapIn(k) <==> RoomyIn(k, bs)
    decreases n
  {
    hide NoOverlap, RoomyTree, Lay;
    if n.Sub? {
      RoomIsExact(n.dir, base + rpos, 0, bs);
    }
  }

  // A condition on the input alone that leaves enough room.

  /** Nested tables, counting the directory's own. */
  function Height(d: Dir): nat
    decreases d
  {
    1 + HeightKids(d.kids)
  }

  function HeightKids(ks: seq<Node>): nat
    decreases ks
  {
    if ks == [] then 0 else Max(HeightNode(ks[0]), HeightKids(ks[1..]))
  }

  function HeightNode(n: Node): nat
    decreases n
  {
    if n.Sub? then Height(n.dir) else 0
  }

  lemma {:induction false} HeightAt(ks: seq<Node>, i: nat)
    requires i < |ks|
    ensures HeightNode(ks[i]) <= HeightKids(ks)
    decreases |ks|
  {
    hide HeightNode;
    if i > 0 {
      HeightAt(ks[1..], i - 1);
    }
  }

  /** Every file takes whole blocks, as gensdbfs arranges for writable ones. */
  predicate Blocky(d: Dir, bs: nat)
    requires bs > 0
    decreases d, 1
  {
    forall i | 0 <= i < |d.kids| :: BlockyNode(d.kids[i], bs)
  }

  predicate BlockyNode(n: Node, bs: nat)
    requires bs > 0
    decreases n, 0
  {
    if n.File? then n.size % bs == 0 else Blocky(n.dir, bs)
  }

  lemma ModSum(a: int, b: int, m: int)
    requires m > 0 && a % m == 0 && b % m == 0
    ensures (a + b) % m == 0
  {
    assert a == m * (a / m) && b == m * (b / m);
    ModOf(a + b, m, a / m + b / m, 0);
  }

  /** Rounding commutes with a shift by whole blocks. */
  lemma RoundUpShift(p: nat, x: nat, bs: nat)
    requires bs > 0 && p % bs == 0
    ensures RoundUp(p + x, bs) == p + RoundUp(x, bs)
  {
    hide RoundUp;
    RoundUpLeast(x, bs);
    ModSum(p, RoundUp(x, bs), bs);
    RoundUpTo(p + x, p + RoundUp(x, bs), bs);
  }

  /** A bridge's own range falls short of the truth by at most one byte a level. */
  lemma {:induction false} LossBound(d: Dir, base: nat, table: nat, bs: nat)
    requires bs > 0 && Autos(d) && Blocky(d, bs) && table % bs == 0
    ensures var l := Lay(d, base, table, bs); l.last + Height(d) >= RoundUp(End(l), bs)
    decreases d
  {
    hide LayKids, LayNode, RoundUp, End, LastOf;
    var l, start := Lay(d, base, table, bs), FirstPos(d, table, bs);
    RoundUpShift(table, TableSize(|d.kids|), bs);
    RoundUpLeast(TableSize(|d.kids|), bs);
    ModSum(table, RoundUp(TableSize(|d.kids|), bs), bs);
    LastAbove(l.kids, start);
    forall i | 0 <= i < |l.kids|
      ensures RoundUp(EndNode(l.kids[i]), bs) <= l.last + Height(d)
    {
      var pos := PosAt(d.kids, base, start, bs, i);
      KidAt(d.kids, base, start, bs, i);
      HeightAt(d.kids, i);
      LastAt(l.kids, start, i);
      NodeLoss(d.kids[i], base, pos, bs);
    }
    EndBound(l.kids, bs, l.last + Height(d));
    EndIs(l);
  }

  lemma EndIs(l: LaidDir)
    ensures End(l) == Max(l.table + TableSize(|l.kids|), EndKids(l.kids))
  {
  }

  lemma {:induction false} EndBound(kids: seq<Laid>, bs: nat, m: nat)
    requires bs > 0 && forall i | 0 <= i < |kids| :: RoundUp(EndNode(kids[i]), bs) <= m
    ensures RoundUp(EndKids(kids), bs) <= Max(m, 0)
    decreases |kids|
  {
    hide EndNode;
    if kids == [] {
      RoundUpTo(0, 0, bs);
    } else {
      EndBound(kids[1..], bs, m);
    }
  }

  lemma {:induction false} LastAbove(kids: seq<Laid>, start: nat)
    ensures LastOf(kids, start) >= start
    decreases |kids|
  {
    if kids != [] {
      LastAbove(kids[..|kids| - 1], start);
    }
  }

  lemma {:induction false} LastAt(kids: seq<Laid>, start: nat, i: nat)
    requires i < |kids|
    ensures LastOf(kids, start) >= kids[i].Last()
    decreases |kids|
  {
    if i < |kids| - 1 {
      LastAt(kids[..|kids| - 1], start, i);
    }
  }

  lemma {:induction false} NodeLoss(n: Node, base: nat, pos: nat, bs: nat)
    requires bs > 0 && AutoNode(n) && BlockyNode(n, bs) && pos % bs == 0
    ensures var k := LayNode(n, base, pos, bs);
      RoundUp(EndNode(k), bs) <= k.Last() + 1 + HeightNode(n)
    decreases n
  {
    hide Lay, RoundUp;
    if n.Sub? {
      LossBound(n.dir, base + pos, 0, bs);
      RoundUpShift(pos, End(Lay(n.dir, base + pos, 0, bs)), bs);
    } else {
      ModSum(pos, n.size, bs);
      RoundUpTo(pos + n.size, pos + n.size, bs);
    }
  }

  lemma {:induction false} NodeReaches(n: Node, base: nat, pos: nat, bs: nat)
    requires bs > 0 && AutoNode(n) && BlockyNode(n, bs) && pos % bs == 0
    requires n.Sub? && HeightNode(n) < bs
    ensures Reaches(LayNode(n, base, pos, bs), bs)
  {
    hide Lay, RoundUp;
    var k, sub := LayNode(n, base, pos, bs), Lay(n.dir, base + pos, 0, bs);
    LossBound(n.dir, base + pos, 0, bs);
    var m := pos + RoundUp(End(sub), bs);
    RoundUpLeast(End(sub), bs);
    ModSum(pos, RoundUp(End(sub), bs), bs);
    assert k.first + k.size >= m - HeightNode(n);
    if k.first + k.size >= m {
      RoundUpLeast(k.first + k.size, bs);
    } else {
      RoundUpTo(k.first + k.size, m, bs);
    }
  }

  /** Whole blocks and fewer levels than bytes in a block: enough room everywhere. */
  lemma {:induction false} BlocksLeaveRoom(d: Dir, base: nat, table: nat, bs: nat)
    requires bs > 0 && Autos(d) && Blocky(d, bs) && table % bs == 0 && Height(d) <= bs
    ensures RoomyTree(Lay(d, base, table, bs), bs)
    decreases d
  {
    hide LayKids, LayNode, RoundUp, Reaches, Window;
    var l, start := Lay(d, base, table, bs), FirstPos(d, table, bs);
    RoundUpLeast(TableSize(|d.kids|), bs);
    ModSum(table, RoundUp(TableSize(|d.kids|), bs), bs);
    forall i | 0 <= i < |l.kids|
      ensures l.kids[i].LaidSub? ==> Reaches(l.kids[i], bs)
      ensures RoomyIn(l.kids[i], bs)
    {
      KidAt(d.kids, base, start, bs, i);
      HeightAt(d.kids, i);
      NodeLeavesRoom(d.kids[i], base, PosAt(d.kids, base, start, bs, i), bs);
    }
  }

  lemma {:induction false} NodeLeavesRoom(n: Node, base: nat, pos: nat, bs: nat)
    requires bs > 0 && AutoNode(n) && BlockyNode(n, bs) && pos % bs == 0 && HeightNode(n) < bs
    ensures var k := LayNode(n, base, pos, bs);
      RoomyIn(k, bs) && (k.LaidSub? ==> Reaches(k, bs))
    decreases n
  {
    hide Lay, RoundUp, RoomyTree, Reaches;
    if n.Sub? {
      NodeReaches(n, base, pos, bs);
      BlocksLeaveRoom(n.dir, base + pos, 0, bs);
    }
  }

  /** So whole-block trees are laid out without any two pieces meeting. */
  lemma BlocksApart(d: Dir, base: nat, table: nat, bs: nat)
    requires bs > 0 && Autos(d) && Blocky(d, bs) && table % bs == 0 && Height(d) <= bs
    ensures AllApart(DirChunks(Lay(d, base, table, bs)))
  {
    hide Lay, NoOverlap, RoomyTree, AllApart;
    BlocksLeaveRoom(d, base, table, bs);
    RoomIsExact(d, base, table, bs);
    LayBased(d, base, table, bs);
    DirApart(Lay(d, base, table, bs));
  }

  ghost predicate AllAligned(cs: seq<Chunk>, bs: nat)
    requires bs > 0
  {
    forall i | 0 <= i < |cs| :: cs[i].at % bs == 0
  }

  /** Without fixed positions, every table and file starts on a block boundary. */
  lemma {:induction false} StartsOnBlocks(d: Dir, base: nat, table: nat, bs: nat)
    requires bs > 0 && Autos(d) && base % bs == 0 && table % bs == 0
    ensures AllAligned(DirChunks(Lay(d, base, table, bs)), bs)
    decreases d
  {
    hide LayKids, RoundUp;
    var l := Lay(d, base, table, bs);
    ModSum(base, table, bs);
    RoundUpLeast(TableSize(|d.kids|), bs);
    ModSum(table, RoundUp(TableSize(|d.kids|), bs), bs);
    KidsOnBlocks(d.kids, base, FirstPos(d, table, bs), bs);
  }

  lemma {:induction false} KidsOnBlocks(ks: seq<Node>, base: nat, rpos: nat, bs: nat)
    requires bs > 0 && AutoKids(ks) && base % bs == 0 && rpos % bs == 0
    ensures AllAligned(KidChunks(LayKids(ks, base, rpos, bs), base), bs)
    decreases ks
  {
    hide RoundUp, LayNode, NodeChunks;
    if ks != [] {
      var l := LayNode(ks[0], base, rpos, bs);
      RoundUpLeast(rpos + l.size, bs);
      NodeOnBlocks(ks[0], base, rpos, bs);
      KidsOnBlocks(ks[1..], base, After(l, rpos, bs), bs);
      var ls := LayKids(ks, base, rpos, bs);
      assert ls[1..] == LayKids(ks[1..], base, After(l, rpos, bs), bs);
      assert KidChunks(ls, base) == NodeChunks(l, base) + KidChunks(ls[1..], base);
    }
  }

  lemma {:induction false} NodeOnBlocks(n: Node, base: nat, rpos: nat, bs: nat)
    requires bs > 0 && AutoNode(n) && base % bs == 0 && rpos % bs == 0
    ensures AllAligned(NodeChunks(LayNode(n, base, rpos, bs), base), bs)
    decreases n
  {
    hide Lay;
    ModSum(base, rpos, bs);
    if n.Sub? {
      StartsOnBlocks(n.dir, base + rpos, 0, bs);
    }
  }

  /** A subdirectory whose last byte starts a block: the next file is put on it. */
  function Crowded(p: Product): Dir {
    var one := File(p, 4, 1, Auto, [7]);
    Dir(p, [Sub(p, 0, Auto, Dir(p, [one])), one])
  }

  lemma LayOne(n: Node, base: nat, rpos: nat, bs: nat)
    requires bs > 0
    ensures LayKids([n], base, rpos, bs) == [LayNode(n, base, rpos, bs)]
  {
    var l := LayNode(n, base, rpos, bs);
    assert [n][1..] == [];
    assert LayKids([n], base, rpos, bs) == [l] + LayKids([], base, After(l, rpos, bs), bs);
  }

  lemma LastOne(k: Laid, start: nat)
    ensures LastOf([k], start) == Max(start, k.Last())
  {
    assert [k][..0] == [];
  }

  lemma ChunksOne(k: Laid, base: nat)
    ensures KidChunks([k], base) == NodeChunks(k, base)
  {
    assert [k][1..] == [];
    assert KidChunks([k], base) == NodeChunks(k, base) + KidChunks([], base);
  }

  lemma CrowdedOverlaps(p: Product)
    ensures var cs := DirChunks(Lay(Crowded(p), 0, 0, 64));
      && |cs| == 4
      && cs[2].Reserved() == cs[3].Reserved() == Span(320, 1)
      && !AllApart(cs)
  {
    hide TableBytes;
    var one := File(p, 4, 1, Auto, [7]);
    var d := Dir(p, [one]);
    var inner := Lay(d, 192, 0, 64);
    var f1 := LayNode(one, 192, 128, 64);
    assert FirstPos(d, 0, 64) == 128;
    LayOne(one, 192, 128, 64);
    LastOne(f1, 128);
    assert inner.kids == [f1] && inner.last == 128;
    var sub := LayNode(Sub(p, 0, Auto, d), 0, 192, 64);
    assert sub == LaidSub(p, 192, 128, false, 192, inner);
    var f2 := LayNode(one, 0, 320, 64);
    LayOne(one, 0, 320, 64);
    var ks := Crowded(p).kids;
    assert ks[1..] == [one] && After(sub, 192, 64) == 320;
    assert LayKids(ks, 0, 192, 64) == [sub] + [f2];
    var l := Lay(Crowded(p), 0, 0, 64);
    assert FirstPos(Crowded(p), 0, 64) == 192;
    ChunksOne(f1, 192);
    ChunksOne(f2, 0);
    assert ([sub] + [f2])[1..] == [f2];
    assert KidChunks(l.kids, 0) == DirChunks(inner) + [Chunk(320, 1, [7])];
    var cs := DirChunks(l);
    assert cs[2] == DirChunks(inner)[1] == Chunk(320, 1, [7]);
    assert cs[3] == Chunk(320, 1, [7]);
    assert !Apart(cs[2].Reserved(), cs[3].Reserved());
  }
}
