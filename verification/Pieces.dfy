/** Exactly when the pieces of a tree keep apart.

Windows are one thing, the bytes stored in them another: a subdirectory that was
given more room than it needs has a hole, and a later entry could come to lie in
it. Where no directory is given a size of its own there is no such hole: a piece
lies over every block start. */
module Pieces {
  import opened Basics
  import opened Bits
  import opened Records
  import opened Layout
  import opened Chunks
  import opened Spacing
  import opened Room

  /** No directory was given a size beyond what its contents ask for. */
  ghost predicate Snug(l: LaidDir)
    decreases l, 1
  {
    forall i | 0 <= i < |l.kids| :: SnugNode(l.kids[i])
  }

  ghost predicate SnugNode(k: Laid)
    decreases k, 0
  {
    k.LaidSub? ==> k.size == k.dir.last && Snug(k.dir)
  }

  ghost predicate Covers(cs: seq<Chunk>, a: int) {
    exists i | 0 <= i < |cs| :: cs[i].Reserved().Has(a)
  }

  lemma CoversConcat(cs: seq<Chunk>, ds: seq<Chunk>, a: int)
    ensures Covers(cs + ds, a) <==> Covers(cs, a) || Covers(ds, a)
  {
    var es := cs + ds;
    if Covers(cs, a) {
      var i :| 0 <= i < |cs| && cs[i].Reserved().Has(a);
      assert es[i] == cs[i];
    }
    if Covers(ds, a) {
      var i :| 0 <= i < |ds| && ds[i].Reserved().Has(a);
      assert es[|cs| + i] == ds[i];
    }
  }

  /** Two pieces over one address meet. */
  lemma BothCover(cs: seq<Chunk>, ds: seq<Chunk>, a: int)
    requires Covers(cs, a) && Covers(ds, a)
    ensures !AllApart(cs + ds)
  {
    var es := cs + ds;
    var i :| 0 <= i < |cs| && cs[i].Reserved().Has(a);
    var j :| 0 <= j < |ds| && ds[j].Reserved().Has(a);
    assert es[i] == cs[i] && es[|cs| + j] == ds[j];
    assert !Apart(es[i].Reserved(), es[|cs| + j].Reserved());
  }

  lemma ApartParts(cs: seq<Chunk>, ds: seq<Chunk>)
    requires AllApart(cs + ds)
    ensures AllApart(cs) && AllApart(ds)
  {
    var es := cs + ds;
    forall i, j | 0 <= i < j < |cs|
      ensures Apart(cs[i].Reserved(), cs[j].Reserved())
    {
      assert es[i] == cs[i] && es[j] == cs[j];
    }
    forall i, j | 0 <= i < j < |ds|
      ensures Apart(ds[i].Reserved(), ds[j].Reserved())
    {
      assert es[|cs| + i] == ds[i] && es[|cs| + j] == ds[j];
    }
  }

  // Arithmetic on block starts.

  /** A block start not below `x` is not below `x` rounded up. */
  lemma RoundUpBelow(x: nat, a: nat, bs: nat)
    requires bs > 0 && a % bs == 0 && a >= x
    ensures a >= RoundUp(x, bs)
  {
    hide RoundUp;
    RoundUpLeast(x, bs);
    var m := RoundUp(x, bs);
    assert a == bs * (a / bs) && m == bs * (m / bs);
    if a < m {
      assert bs * (m / bs - a / bs) == m - a;
      Scaled(bs, m / bs - a / bs);
      assert false;
    }
  }

  lemma RoundUpMonotone(x: nat, y: nat, bs: nat)
    requires bs > 0 && x <= y
    ensures RoundUp(x, bs) <= RoundUp(y, bs)
  {
    hide RoundUp;
    RoundUpLeast(y, bs);
    RoundUpBelow(x, RoundUp(y, bs), bs);
  }

  // Without user sizes a bridge never reserves more blocks than it takes.

  lemma {:induction false} LastWithin(d: Dir, base: nat, table: nat, bs: nat)
    requires bs > 0 && Autos(d) && table % bs == 0 && Snug(Lay(d, base, table, bs))
    ensures var l := Lay(d, base, table, bs); l.last <= RoundUp(End(l), bs)
    decreases d
  {
    hide LayKids, LayNode, RoundUp, End, LastOf;
    var l, start := Lay(d, base, table, bs), FirstPos(d, table, bs);
    RoundUpShift(table, TableSize(|d.kids|), bs);
    RoundUpLeast(TableSize(|d.kids|), bs);
    ModSum(table, RoundUp(TableSize(|d.kids|), bs), bs);
    RoundUpMonotone(table + TableSize(|d.kids|), End(l), bs);
    forall i | 0 <= i < |l.kids|
      ensures l.kids[i].Last() <= RoundUp(End(l), bs)
    {
      var pos := PosAt(d.kids, base, start, bs, i);
      KidAt(d.kids, base, start, bs, i);
      NodeLastWithin(d.kids[i], base, pos, bs);
      EndAt(l.kids, i);
      EndIs(l);
      RoundUpMonotone(EndNode(l.kids[i]), End(l), bs);
    }
    LastBelow(l.kids, start, RoundUp(End(l), bs));
  }

  lemma {:induction false} NodeLastWithin(n: Node, base: nat, pos: nat, bs: nat)
    requires bs > 0 && AutoNode(n) && pos % bs == 0 && SnugNode(LayNode(n, base, pos, bs))
    ensures var k := LayNode(n, base, pos, bs);
      k.first == pos && (k.LaidSub? ==> k.child == pos) && pos + k.size <= RoundUp(EndNode(k), bs)
    decreases n
  {
    hide Lay, RoundUp, End;
    var k := LayNode(n, base, pos, bs);
    RoundUpLeast(EndNode(k), bs);
    if n.Sub? {
      LastWithin(n.dir, base + pos, 0, bs);
      RoundUpShift(pos, End(k.dir), bs);
    }
  }

  lemma {:induction false} EndAt(kids: seq<Laid>, i: nat)
    requires i < |kids|
    ensures EndNode(kids[i]) <= EndKids(kids)
    decreases |kids|
  {
    hide EndNode;
    if i > 0 {
      EndAt(kids[1..], i - 1);
    }
  }

  lemma {:induction false} LastBelow(kids: seq<Laid>, start: nat, m: int)
    requires start <= m && forall i | 0 <= i < |kids| :: kids[i].Last() <= m
    ensures LastOf(kids, start) <= m
    decreases |kids|
  {
    if kids != [] {
      LastBelow(kids[..|kids| - 1], start, m);
    }
  }

  // A piece over every block start.

  lemma {:induction false} DirCovered(d: Dir, base: nat, table: nat, bs: nat, a: nat)
    requires bs > 0 && Autos(d) && base % bs == 0 && table % bs == 0 && a % bs == 0
    requires Snug(Lay(d, base, table, bs))
    requires base + table <= a < base + End(Lay(d, base, table, bs))
    ensures Covers(DirChunks(Lay(d, base, table, bs)), a)
    decreases d, 2
  {
    hide LayKids, RoundUp, End, KidChunks, EndKids, TableBytes;
    var l, start := Lay(d, base, table, bs), FirstPos(d, table, bs);
    var size := TableSize(|d.kids|);
    var head := [Chunk(base + table, size, TableBytes(l))];
    CoversConcat(head, KidChunks(l.kids, base), a);
    EndIs(l);
    if a < base + table + size {
      assert head[0].Reserved().Has(a);
    } else {
      ModSum(base, table, bs);
      RoundUpBelow(base + table + size, a, bs);
      RoundUpShift(base + table, size, bs);
      RoundUpLeast(size, bs);
      ModSum(table, RoundUp(size, bs), bs);
      KidsCovered(d.kids, base, start, bs, a);
    }
  }

  lemma {:induction false} KidsCovered(ks: seq<Node>, base: nat, rpos: nat, bs: nat, a: nat)
    requires bs > 0 && AutoKids(ks) && base % bs == 0 && rpos % bs == 0 && a % bs == 0
    requires forall i | 0 <= i < |ks| :: SnugNode(LayKids(ks, base, rpos, bs)[i])
    requires base + rpos <= a < base + EndKids(LayKids(ks, base, rpos, bs))
    ensures Covers(KidChunks(LayKids(ks, base, rpos, bs), base), a)
    decreases ks, 1
  {
    hide LayNode, RoundUp, EndNode, NodeChunks, SnugNode, After;
    var ls := LayKids(ks, base, rpos, bs);
    var k := LayNode(ks[0], base, rpos, bs);
    var next := After(k, rpos, bs);
    var rest := LayKids(ks[1..], base, next, bs);
    assert ls[0] == k && ls[1..] == rest;
    CoversConcat(NodeChunks(k, base), KidChunks(rest, base), a);
    if a < base + EndNode(k) {
      NodeCovered(ks[0], base, rpos, bs, a);
    } else {
      NextBelow(ks[0], base, rpos, bs, a);
      forall i | 0 <= i < |rest|
        ensures SnugNode(rest[i])
      {
        assert rest[i] == ls[i + 1];
      }
      KidsCovered(ks[1..], base, next, bs, a);
    }
  }

  /** The next entry starts no later than the first block start past this one. */
  lemma NextBelow(n: Node, base: nat, rpos: nat, bs: nat, a: nat)
    requires bs > 0 && AutoNode(n) && base % bs == 0 && rpos % bs == 0 && a % bs == 0
    requires SnugNode(LayNode(n, base, rpos, bs)) && a >= base + EndNode(LayNode(n, base, rpos, bs))
    ensures var next := After(LayNode(n, base, rpos, bs), rpos, bs); next % bs == 0 && a >= base + next
  {
    hide LayNode, RoundUp, EndNode, SnugNode;
    var k := LayNode(n, base, rpos, bs);
    NodeLastWithin(n, base, rpos, bs);
    NodeAuto(n, base, rpos, bs);
    RoundUpLeast(EndNode(k), bs);
    RoundUpLeast(rpos + k.size, bs);
    RoundUpBelow(base + EndNode(k), a, bs);
    RoundUpShift(base, EndNode(k), bs);
    RoundUpBelow(rpos + k.size, RoundUp(EndNode(k), bs), bs);
  }

  lemma NodeAuto(n: Node, base: nat, rpos: nat, bs: nat)
    requires bs > 0 && AutoNode(n)
    ensures !LayNode(n, base, rpos, bs).fixed
  {
  }

  lemma {:induction false} NodeCovered(n: Node, base: nat, rpos: nat, bs: nat, a: nat)
    requires bs > 0 && AutoNode(n) && base % bs == 0 && rpos % bs == 0 && a % bs == 0
    requires SnugNode(LayNode(n, base, rpos, bs))
    requires base + rpos <= a < base + EndNode(LayNode(n, base, rpos, bs))
    ensures Covers(NodeChunks(LayNode(n, base, rpos, bs), base), a)
    decreases n, 0
  {
    hide Lay, RoundUp, End, DirChunks;
    var k := LayNode(n, base, rpos, bs);
    if n.Sub? {
      ModSum(base, rpos, bs);
      DirCovered(n.dir, base + rpos, 0, bs, a);
    } else {
      assert NodeChunks(k, base)[0].Reserved().Has(a);
    }
  }

  // After a directory with a fixed position.

  /** Asks for space where the allocator has got to: every directory, whose table goes
  there even if its own position is fixed, and every file without a fixed position that
  is not empty. */
  predicate Takes(n: Node) {
    n.Sub? || (n.place.Auto? && n.size > 0)
  }

  lemma AfterAligned(n: Node, base: nat, rpos: nat, bs: nat)
    requires bs > 0 && rpos % bs == 0
    ensures var next := After(LayNode(n, base, rpos, bs), rpos, bs);
      && next % bs == 0
      && (n.place.Fixed? || !Takes(n) ==> next == rpos)
  {
    hide RoundUp, Lay;
    var k := LayNode(n, base, rpos, bs);
    RoundUpLeast(rpos + k.size, bs);
    RoundUpTo(rpos, rpos, bs);
  }

  lemma TakesCovers(n: Node, base: nat, rpos: nat, bs: nat)
    requires bs > 0 && Takes(n)
    ensures Covers(NodeChunks(LayNode(n, base, rpos, bs), base), base + rpos)
  {
    hide LayKids, RoundUp, LastOf, TableBytes, KidChunks;
    var k := LayNode(n, base, rpos, bs);
    var cs := NodeChunks(k, base);
    if n.Sub? {
      assert cs == DirChunks(k.dir) && cs[0].at == base + rpos;
    } else {
      assert cs == [Chunk(base + rpos, k.size, k.content)];
    }
    assert cs[0].Reserved().Has(base + rpos);
  }

  lemma {:induction false} SomeTakesCovers(ks: seq<Node>, base: nat, rpos: nat, bs: nat, j: nat)
    requires bs > 0 && rpos % bs == 0 && j < |ks| && Takes(ks[j])
    ensures Covers(KidChunks(LayKids(ks, base, rpos, bs), base), base + rpos)
    decreases |ks|
  {
    hide LayNode, RoundUp, NodeChunks, After, Takes, Covers;
    var k := LayNode(ks[0], base, rpos, bs);
    var next := After(k, rpos, bs);
    var rest := LayKids(ks[1..], base, next, bs);
    assert LayKids(ks, base, rpos, bs)[0] == k && LayKids(ks, base, rpos, bs)[1..] == rest;
    CoversConcat(NodeChunks(k, base), KidChunks(rest, base), base + rpos);
    if Takes(ks[0]) {
      TakesCovers(ks[0], base, rpos, bs);
    } else {
      AfterAligned(ks[0], base, rpos, bs);
      SomeTakesCovers(ks[1..], base, rpos, bs, j - 1);
    }
  }

  lemma {:induction false} KidsMeet(ks: seq<Node>, base: nat, rpos: nat, bs: nat, i: nat, j: nat)
    requires bs > 0 && rpos % bs == 0 && i < j < |ks|
    requires ks[i].Sub? && ks[i].place.Fixed? && Takes(ks[j])
    ensures !AllApart(KidChunks(LayKids(ks, base, rpos, bs), base))
    decreases |ks|
  {
    hide LayNode, RoundUp, NodeChunks, After, AllApart, Covers;
    var k := LayNode(ks[0], base, rpos, bs);
    var next := After(k, rpos, bs);
    var rest := LayKids(ks[1..], base, next, bs);
    assert LayKids(ks, base, rpos, bs)[0] == k && LayKids(ks, base, rpos, bs)[1..] == rest;
    AfterAligned(ks[0], base, rpos, bs);
    if i == 0 {
      TakesCovers(ks[0], base, rpos, bs);
      SomeTakesCovers(ks[1..], base, next, bs, j - 1);
      BothCover(NodeChunks(k, base), KidChunks(rest, base), base + rpos);
    } else {
      KidsMeet(ks[1..], base, next, bs, i - 1, j - 1);
      if AllApart(NodeChunks(k, base) + KidChunks(rest, base)) {
        ApartParts(NodeChunks(k, base), KidChunks(rest, base));
      }
    }
  }

  /** A directory with a fixed position does not move the allocator on: the next entry
  that asks for space is put on the directory's own table. */
  lemma FixedBridgeOverrun(d: Dir, base: nat, table: nat, bs: nat, i: nat, j: nat)
    requires bs > 0 && table % bs == 0 && i < j < |d.kids|
    requires d.kids[i].Sub? && d.kids[i].place.Fixed? && Takes(d.kids[j])
    ensures !AllApart(DirChunks(Lay(d, base, table, bs)))
  {
    hide LayKids, RoundUp, AllApart, KidChunks, TableBytes, Takes;
    var l := Lay(d, base, table, bs);
    RoundUpLeast(TableSize(|d.kids|), bs);
    ModSum(table, RoundUp(TableSize(|d.kids|), bs), bs);
    KidsMeet(d.kids, base, FirstPos(d, table, bs), bs, i, j);
    if AllApart(DirChunks(l)) {
      ApartParts([Chunk(base + table, TableSize(|l.kids|), TableBytes(l))], KidChunks(l.kids, base));
    }
  }

  // Exactly when such a tree keeps its pieces apart.

  /** No directory with a fixed position is followed by an entry that asks for space. */
  predicate NoneAfter(ks: seq<Node>) {
    forall i, j | 0 <= i < j < |ks| :: ks[i].Sub? && ks[i].place.Fixed? ==> !Takes(ks[j])
  }

  /** Positions are fixed for directories of this level only. */
  predicate DirsFixed(ks: seq<Node>) {
    forall i | 0 <= i < |ks| :: DirFixed(ks[i])
  }

  predicate DirFixed(n: Node) {
    if n.Sub? then Autos(n.dir) else n.place.Auto?
  }

  lemma TakesIsFull(n: Node, base: nat, rpos: nat, bs: nat)
    requires bs > 0 && DirFixed(n)
    ensures var w := Window(LayNode(n, base, rpos, bs)); w.lo == rpos && (w.len > 0 <==> Takes(n))
  {
    hide Lay, End;
  }

  // From pieces to room.

  lemma SameKind(n: Node, base: nat, rpos: nat, bs: nat)
    requires bs > 0
    ensures n.Sub? <==> LayNode(n, base, rpos, bs).LaidSub?
  {
  }

  lemma ShortMeets(n: Node, ks: seq<Node>, base: nat, rpos: nat, bs: nat, j: nat)
    requires bs > 0 && AutoNode(n) && n.Sub? && base % bs == 0 && rpos % bs == 0 && j < |ks| && Takes(ks[j])
    requires SnugNode(LayNode(n, base, rpos, bs)) && LayNode(n, base, rpos, bs).LaidSub?
    requires !Reaches(LayNode(n, base, rpos, bs), bs)
    ensures var f := LayNode(n, base, rpos, bs);
      !AllApart(NodeChunks(f, base) + KidChunks(LayKids(ks, base, After(f, rpos, bs), bs), base))
  {
    hide LayKids, LayNode, RoundUp, End, AllApart, Covers, SnugNode, NodeChunks, KidChunks, Takes;
    var f := LayNode(n, base, rpos, bs);
    NodeAuto(n, base, rpos, bs);
    NodeLastWithin(n, base, rpos, bs);
    var next := After(f, rpos, bs);
    var rest := LayKids(ks, base, next, bs);
    RoundUpLeast(rpos + f.size, bs);
    ModSum(base, next, bs);
    NodeCovered(n, base, rpos, bs, base + next);
    SomeTakesCovers(ks, base, next, bs, j);
    BothCover(NodeChunks(f, base), KidChunks(rest, base), base + next);
  }

  lemma {:induction false} TopKidsRoomy(ks: seq<Node>, base: nat, rpos: nat, bs: nat)
    requires bs > 0 && DirsFixed(ks) && NoneAfter(ks) && base % bs == 0 && rpos % bs == 0
    requires var ls := LayKids(ks, base, rpos, bs);
      (forall i | 0 <= i < |ls| :: SnugNode(ls[i])) && AllApart(KidChunks(ls, base))
    ensures var ls := LayKids(ks, base, rpos, bs);
      Roomy(ls, bs) && forall i | 0 <= i < |ls| :: RoomyIn(ls[i], bs)
    decreases ks, 1
  {
    hide LayNode, RoundUp, NodeChunks, SnugNode, RoomyIn, AllApart, Roomy, Reaches, SomeFull, Takes, After, DirFixed;
    var ls := LayKids(ks, base, rpos, bs);
    if ks == [] {
      NoneRoomy(bs);
    } else {
      var f := LayNode(ks[0], base, rpos, bs);
      var next := After(f, rpos, bs);
      var rest := LayKids(ks[1..], base, next, bs);
      assert ls == [f] + rest && ls[1..] == rest && ls[0] == f;
      assert forall i | 0 <= i < |rest| :: rest[i] == ls[i + 1];
      ApartParts(NodeChunks(f, base), KidChunks(rest, base));
      AfterAligned(ks[0], base, rpos, bs);
      TopKidsRoomy(ks[1..], base, next, bs);
      TopNodeRoomy(ks[0], base, rpos, bs);
      SplitRoomy(f, rest, bs);
      SameKind(ks[0], base, rpos, bs);
      if f.LaidSub? && SomeFull(rest) && !Reaches(f, bs) {
        TopReaches(ks, base, rpos, bs);
      }
    }
  }

  lemma TopReaches(ks: seq<Node>, base: nat, rpos: nat, bs: nat)
    requires bs > 0 && ks != [] && DirsFixed(ks) && NoneAfter(ks) && base % bs == 0 && rpos % bs == 0
    requires var f := LayNode(ks[0], base, rpos, bs);
      var rest := LayKids(ks[1..], base, After(f, rpos, bs), bs);
      && SnugNode(f) && f.LaidSub? && ks[0].Sub? && SomeFull(rest)
      && AllApart(NodeChunks(f, base) + KidChunks(rest, base))
    ensures Reaches(LayNode(ks[0], base, rpos, bs), bs)
  {
    hide LayKids, LayNode, RoundUp, NodeChunks, KidChunks, SnugNode, AllApart, Reaches, Takes, Window;
    var f := LayNode(ks[0], base, rpos, bs);
    var next := After(f, rpos, bs);
    var rest := LayKids(ks[1..], base, next, bs);
    var j :| 0 <= j < |rest| && Window(rest[j]).len > 0;
    KidAt(ks[1..], base, next, bs, j);
    assert DirFixed(ks[j + 1]);
    TakesIsFull(ks[j + 1], base, PosAt(ks[1..], base, next, bs, j), bs);
    assert ks[1..][j] == ks[j + 1] && Takes(ks[j + 1]);
    assert DirFixed(ks[0]) && AutoNode(ks[0]);
    if !Reaches(f, bs) {
      ShortMeets(ks[0], ks[1..], base, rpos, bs, j);
    }
  }

  lemma {:induction false} TopNodeRoomy(n: Node, base: nat, rpos: nat, bs: nat)
    requires bs > 0 && DirFixed(n) && base % bs == 0 && rpos % bs == 0
    requires var k := LayNode(n, base, rpos, bs); SnugNode(k) && AllApart(NodeChunks(k, base))
    ensures RoomyIn(LayNode(n, base, rpos, bs), bs)
    decreases n, 0
  {
    hide Lay, AllApart, DirChunks, RoomyTree, Snug, DirsFixed, NoneAfter;
    if n.Sub? {
      ModSum(base, rpos, bs);
      AutosFixNone(n.dir);
      ApartIsRoomy(n.dir, base + rpos, 0, bs);
    }
  }

  lemma AutosFixNone(d: Dir)
    requires Autos(d)
    ensures DirsFixed(d.kids) && NoneAfter(d.kids)
  {
    assert AutoKids(d.kids);
    assert forall i | 0 <= i < |d.kids| :: AutoNode(d.kids[i]);
  }

  lemma {:induction false} ApartIsRoomy(d: Dir, base: nat, table: nat, bs: nat)
    requires bs > 0 && DirsFixed(d.kids) && NoneAfter(d.kids) && base % bs == 0 && table % bs == 0
    requires var l := Lay(d, base, table, bs); Snug(l) && AllApart(DirChunks(l))
    ensures RoomyTree(Lay(d, base, table, bs), bs)
    decreases d, 2
  {
    hide LayKids, RoundUp, AllApart, KidChunks, SnugNode, TableBytes, Roomy, RoomyIn, DirsFixed, NoneAfter;
    var l, start := Lay(d, base, table, bs), FirstPos(d, table, bs);
    RoundUpLeast(TableSize(|d.kids|), bs);
    ModSum(table, RoundUp(TableSize(|d.kids|), bs), bs);
    ApartParts([Chunk(base + table, TableSize(|l.kids|), TableBytes(l))], KidChunks(l.kids, base));
    TopKidsRoomy(d.kids, base, start, bs);
  }

  // From room to pieces.

  /** No window of a later entry starts before the allocator has got to. */
  lemma TopStart(ks: seq<Node>, base: nat, rpos: nat, bs: nat, i: nat)
    requires bs > 0 && DirsFixed(ks) && i < |ks|
    ensures Window(LayKids(ks, base, rpos, bs)[i]).lo >= rpos
  {
    hide LayKids, LayNode, Window, Takes;
    KidAt(ks, base, rpos, bs, i);
    assert DirFixed(ks[i]);
    TakesIsFull(ks[i], base, PosAt(ks, base, rpos, bs, i), bs);
  }

  lemma TopHeadClear(ks: seq<Node>, base: nat, rpos: nat, bs: nat)
    requires bs > 0 && ks != [] && DirsFixed(ks) && NoneAfter(ks)
    requires var f := LayNode(ks[0], base, rpos, bs);
      f.LaidSub? && SomeFull(LayKids(ks[1..], base, After(f, rpos, bs), bs)) ==> Reaches(f, bs)
    ensures var f := LayNode(ks[0], base, rpos, bs); HeadClear(f, LayKids(ks[1..], base, After(f, rpos, bs), bs))
  {
    hide LayKids, RoundUp, Lay, End, Takes;
    var f := LayNode(ks[0], base, rpos, bs);
    var next := After(f, rpos, bs);
    var rest := LayKids(ks[1..], base, next, bs);
    RoundUpLeast(rpos + f.size, bs);
    assert DirFixed(ks[0]);
    forall j | 0 <= j < |rest|
      ensures Apart(Window(f), Window(rest[j]))
    {
      TopStart(ks[1..], base, next, bs, j);
      KidAt(ks[1..], base, next, bs, j);
      assert DirFixed(ks[j + 1]) && ks[1..][j] == ks[j + 1];
      TakesIsFull(ks[j + 1], base, PosAt(ks[1..], base, next, bs, j), bs);
      if Window(rest[j]).len > 0 {
        assert Takes(ks[j + 1]);
        assert !(ks[0].Sub? && ks[0].place.Fixed?);
        assert SomeFull(rest);
      }
    }
  }

  lemma {:induction false} TopKidsClear(ks: seq<Node>, base: nat, rpos: nat, bs: nat)
    requires bs > 0 && DirsFixed(ks) && NoneAfter(ks) && Roomy(LayKids(ks, base, rpos, bs), bs)
    ensures WindowsApart(LayKids(ks, base, rpos, bs))
    decreases |ks|
  {
    hide WindowsApart, Roomy, LayNode, Reaches, SomeFull, HeadClear, Takes, DirFixed;
    var ls := LayKids(ks, base, rpos, bs);
    if ks == [] {
      NoneRoomy(bs);
    } else {
      var f := LayNode(ks[0], base, rpos, bs);
      var rest := LayKids(ks[1..], base, After(f, rpos, bs), bs);
      assert ls == [f] + rest;
      SplitRoomy(f, rest, bs);
      TopKidsClear(ks[1..], base, After(f, rpos, bs), bs);
      TopHeadClear(ks, base, rpos, bs);
      SplitApart(f, rest);
    }
  }

  lemma TopNoOverlap(d: Dir, base: nat, table: nat, bs: nat)
    requires bs > 0 && DirsFixed(d.kids) && NoneAfter(d.kids) && RoomyTree(Lay(d, base, table, bs), bs)
    ensures NoOverlap(Lay(d, base, table, bs))
  {
    hide LayKids, RoundUp, WindowsApart, Roomy, LayNode, NoneAfter;
    var l, start := Lay(d, base, table, bs), FirstPos(d, table, bs);
    TopKidsClear(d.kids, base, start, bs);
    RoundUpLeast(TableSize(|d.kids|), bs);
    forall i | 0 <= i < |l.kids|
      ensures Apart(Span(l.table, TableSize(|l.kids|)), Window(l.kids[i]))
      ensures NoOverlapIn(l.kids[i])
    {
      TopStart(d.kids, base, start, bs, i);
      KidAt(d.kids, base, start, bs, i);
      assert DirFixed(d.kids[i]) && RoomyIn(l.kids[i], bs);
      TopNodeClear(d.kids[i], base, PosAt(d.kids, base, start, bs, i), bs);
    }
  }

  lemma TopNodeClear(n: Node, base: nat, rpos: nat, bs: nat)
    requires bs > 0 && DirFixed(n) && RoomyIn(LayNode(n, base, rpos, bs), bs)
    ensures NoOverlapIn(LayNode(n, base, rpos, bs))
  {
    hide Lay, NoOverlap, RoomyTree;
    if n.Sub? {
      RoomIsExact(n.dir, base + rpos, 0, bs);
    }
  }

  /** For every tree in which only directories of the top level have fixed positions, and
  no directory has a size of its own: all pieces keep apart if and only if nothing that
  asks for space follows a directory with a fixed position, and every other directory
  followed by such an entry is given room, in whole blocks, up to its true end. */
  lemma TopApartIff(d: Dir, base: nat, table: nat, bs: nat)
    requires bs > 0 && DirsFixed(d.kids) && base % bs == 0 && table % bs == 0 && Snug(Lay(d, base, table, bs))
    ensures var l := Lay(d, base, table, bs);
      AllApart(DirChunks(l)) <==> NoneAfter(d.kids) && RoomyTree(l, bs)
  {
    hide Lay, AllApart, DirChunks, RoomyTree, Snug, Takes, Based, NoOverlap, DirFixed;
    var l := Lay(d, base, table, bs);
    if NoneAfter(d.kids) && RoomyTree(l, bs) {
      TopNoOverlap(d, base, table, bs);
      LayBased(d, base, table, bs);
      DirApart(l);
    }
    if AllApart(DirChunks(l)) {
      forall i, j | 0 <= i < j < |d.kids| && d.kids[i].Sub? && d.kids[i].place.Fixed?
        ensures !Takes(d.kids[j])
      {
        if Takes(d.kids[j]) {
          FixedBridgeOverrun(d, base, table, bs, i, j);
        }
      }
      ApartIsRoomy(d, base, table, bs);
    }
  }

  /** Without fixed positions room is all that matters. */
  lemma PiecesApartIff(d: Dir, base: nat, table: nat, bs: nat)
    requires bs > 0 && Autos(d) && base % bs == 0 && table % bs == 0 && Snug(Lay(d, base, table, bs))
    ensures var l := Lay(d, base, table, bs); AllApart(DirChunks(l)) <==> RoomyTree(l, bs)
  {
    hide Lay, AllApart, DirChunks, RoomyTree, Snug, DirsFixed, NoneAfter;
    AutosFixNone(d);
    TopApartIff(d, base, table, bs);
  }

  // A condition on the input alone, and why it matters.

  /** No directory is given a size. */
  predicate Unsized(d: Dir)
    decreases d, 1
  {
    forall i | 0 <= i < |d.kids| :: UnsizedNode(d.kids[i])
  }

  predicate UnsizedNode(n: Node)
    decreases n, 0
  {
    n.Sub? ==> n.size == 0 && Unsized(n.dir)
  }

  lemma {:induction false} UnsizedSnug(d: Dir, base: nat, table: nat, bs: nat)
    requires bs > 0 && Unsized(d)
    ensures Snug(Lay(d, base, table, bs))
    decreases d
  {
    hide LayKids, RoundUp, LastOf;
    var l, start := Lay(d, base, table, bs), FirstPos(d, table, bs);
    forall i | 0 <= i < |l.kids|
      ensures SnugNode(l.kids[i])
    {
      KidAt(d.kids, base, start, bs, i);
      if d.kids[i].Sub? {
        var dir, at := d.kids[i].dir, base + PosAt(d.kids, base, start, bs, i);
        UnsizedSnug(dir, at, 0, bs);
        LastAbove(Lay(dir, at, 0, bs).kids, FirstPos(dir, 0, bs));
      }
    }
  }

  /** Two levels down lies a directory with a thousand bytes of room for a table of
  64; the byte its room ends on is one past the byte the outer file is put on. */
  function Hollow(p: Product): Dir {
    var one := File(p, 4, 1, Auto, [7]);
    var inner := Dir(p, [Sub(p, 1000, Auto, Dir(p, [])), one]);
    Dir(p, [Sub(p, 0, Auto, Dir(p, [Sub(p, 0, Auto, inner)])), one])
  }

  lemma LayTwo(m: Node, n: Node, base: nat, rpos: nat, bs: nat)
    requires bs > 0
    ensures var k := LayNode(m, base, rpos, bs);
      LayKids([m, n], base, rpos, bs) == [k, LayNode(n, base, After(k, rpos, bs), bs)]
  {
    hide LayNode;
    var k := LayNode(m, base, rpos, bs);
    assert [m, n][1..] == [n];
    LayOne(n, base, After(k, rpos, bs), bs);
    assert LayKids([m, n], base, rpos, bs) == [k] + LayKids([n], base, After(k, rpos, bs), bs);
  }

  lemma LastTwo(k: Laid, m: Laid, start: nat)
    ensures LastOf([k, m], start) == Max(Max(start, k.Last()), m.Last())
  {
    assert [k, m][..1] == [k];
    LastOne(k, start);
  }

  lemma ChunksTwo(k: Laid, m: Laid, base: nat)
    ensures KidChunks([k, m], base) == NodeChunks(k, base) + NodeChunks(m, base)
  {
    hide NodeChunks;
    assert [k, m][1..] == [m];
    ChunksOne(m, base);
  }

  lemma RoundUpOne(x: nat)
    ensures RoundUp(x, 1) == x
  {
  }

  lemma HollowInner(p: Product)
    ensures var one := File(p, 4, 1, Auto, [7]);
      var l := Lay(Dir(p, [Sub(p, 1000, Auto, Dir(p, [])), one]), 320, 0, 1);
      && l.last == 1192 && End(l) == 1193
      && |DirChunks(l)| == 3 && DirChunks(l)[0].Reserved() == Span(320, 192)
      && DirChunks(l)[1].Reserved() == Span(512, 64) && DirChunks(l)[2].Reserved() == Span(1512, 1)
  {
    hide TableBytes, RoundUp;
    var one, empty := File(p, 4, 1, Auto, [7]), Dir(p, []);
    var b := Sub(p, 1000, Auto, empty);
    var d := Dir(p, [b, one]);
    RoundUpOne(192);
    RoundUpOne(64);
    RoundUpOne(1192);
    var none := Lay(empty, 512, 0, 1);
    assert none == LaidDir(p, 512, 0, [], 64) && End(none) == 64;
    var k := LayNode(b, 320, 192, 1);
    assert k == LaidSub(p, 192, 1000, false, 192, none);
    LayTwo(b, one, 320, 192, 1);
    var g := LaidFile(p, 1192, 1, false, 4, [7]);
    assert LayNode(one, 320, 1192, 1) == g;
    LastTwo(k, g, 192);
    ChunksTwo(k, g, 320);
    var l := Lay(d, 320, 0, 1);
    assert l.kids == [k, g];
    assert [k, g][1..] == [g] && [g][1..] == [];
    assert EndKids([]) == 0 && EndKids([g]) == Max(EndNode(g), EndKids([g][1..])) == 1193;
    assert EndKids([k, g]) == Max(EndNode(k), EndKids([k, g][1..])) == 1193;
    assert DirChunks(none) == [Chunk(512, 64, TableBytes(none))];
  }

  lemma HollowOuter(p: Product)
    ensures var one := File(p, 4, 1, Auto, [7]);
      var inner := Dir(p, [Sub(p, 1000, Auto, Dir(p, [])), one]);
      var l := Lay(Dir(p, [Sub(p, 0, Auto, inner)]), 192, 0, 1);
      && l.last == 1319 && End(l) == 1321
      && |DirChunks(l)| == 4 && DirChunks(l)[0].Reserved() == Span(192, 128)
      && DirChunks(l)[1].Reserved() == Span(320, 192)
      && DirChunks(l)[2].Reserved() == Span(512, 64) && DirChunks(l)[3].Reserved() == Span(1512, 1)
  {
    hide TableBytes, RoundUp, LayKids, KidChunks;
    var one := File(p, 4, 1, Auto, [7]);
    var inner := Dir(p, [Sub(p, 1000, Auto, Dir(p, [])), one]);
    var c := Sub(p, 0, Auto, inner);
    RoundUpOne(128);
    HollowInner(p);
    var k := LayNode(c, 192, 128, 1);
    assert k.dir == Lay(inner, 320, 0, 1) && k.size == 1192;
    LayOne(c, 192, 128, 1);
    LastOne(k, 128);
    ChunksOne(k, 192);
    var l := Lay(Dir(p, [c]), 192, 0, 1);
    assert l.kids == [k] && [k][1..] == [];
    assert EndKids([k]) == 1321;
  }

  lemma HollowAutos(p: Product)
    ensures Autos(Hollow(p))
  {
    var one := File(p, 4, 1, Auto, [7]);
    var b := Sub(p, 1000, Auto, Dir(p, []));
    var c := Sub(p, 0, Auto, Dir(p, [b, one]));
    assert AutoNode(b) && AutoNode(one);
    assert AutoNode(c);
    assert AutoNode(Sub(p, 0, Auto, Dir(p, [c])));
  }

  /** Sizes set on directories matter: here a directory does not reach its end and
  is followed by a file, and yet no two pieces meet. */
  lemma HollowApart(p: Product)
    ensures var l := Lay(Hollow(p), 0, 0, 1);
      Autos(Hollow(p)) && !RoomyTree(l, 1) && AllApart(DirChunks(l))
  {
    hide TableBytes, RoundUp, LayKids, KidChunks;
    var one := File(p, 4, 1, Auto, [7]);
    var inner := Dir(p, [Sub(p, 1000, Auto, Dir(p, [])), one]);
    var a := Sub(p, 0, Auto, Dir(p, [Sub(p, 0, Auto, inner)]));
    assert Hollow(p) == Dir(p, [a, one]);
    RoundUpOne(192);
    RoundUpOne(1511);
    HollowOuter(p);
    var k := LayNode(a, 0, 192, 1);
    assert k.dir == Lay(a.dir, 192, 0, 1) && k.size == 1319 && k.first == k.child == 192;
    LayTwo(a, one, 0, 192, 1);
    var f := LaidFile(p, 1511, 1, false, 4, [7]);
    assert LayNode(one, 0, 1511, 1) == f;
    ChunksTwo(k, f, 0);
    var l := Lay(Hollow(p), 0, 0, 1);
    assert l.kids == [k, f];
    assert !Reaches(l.kids[0], 1) && Window(l.kids[1]).len > 0;
    assert !Roomy(l.kids, 1);
    HollowAutos(p);
    var cs := DirChunks(l);
    assert cs == [Chunk(0, 192, TableBytes(l))] + (DirChunks(k.dir) + [Chunk(1511, 1, [7])]);
    assert cs[1] == DirChunks(k.dir)[0] && cs[2] == DirChunks(k.dir)[1];
    assert cs[3] == DirChunks(k.dir)[2] && cs[4] == DirChunks(k.dir)[3];
  }
}
