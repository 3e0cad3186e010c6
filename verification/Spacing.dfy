/** When do the pieces of a laid-out tree keep clear of one another?

Each directory gives every entry a window: a file its reserved size, a
subdirectory everything from its table to its true end. If no two windows of one
directory meet, at any level, then no two pieces of the whole tree meet. */
module Spacing {
  import opened Basics
  import opened Bits
  import opened Records
  import opened Layout
  import opened Chunks

  // The true end of a directory, one past its last reserved byte.

  function End(l: LaidDir): (e: nat)
    ensures e >= l.table + TableSize(|l.kids|)
    decreases l
  {
    Max(l.table + TableSize(|l.kids|), EndKids(l.kids))
  }

  function EndKids(kids: seq<Laid>): nat
    decreases kids
  {
    if kids == [] then 0 else Max(EndNode(kids[0]), EndKids(kids[1..]))
  }

  function EndNode(k: Laid): nat
    decreases k
  {
    if k.LaidFile? then k.first + k.size else k.child + End(k.dir)
  }

  /** The window of one entry, in the addresses of its directory. */
  function Window(k: Laid): Span {
    if k.LaidFile? then Span(k.first, k.size) else Span(k.child, End(k.dir))
  }

  ghost predicate WindowsApart(kids: seq<Laid>) {
    forall i, j | 0 <= i < j < |kids| :: Apart(Window(kids[i]), Window(kids[j]))
  }

  /** No window meets another or the table, in this directory and in those inside it. */
  ghost predicate NoOverlap(l: LaidDir)
    decreases l, 1
  {
    && WindowsApart(l.kids)
    && (forall i | 0 <= i < |l.kids| :: Apart(Span(l.table, TableSize(|l.kids|)), Window(l.kids[i])))
    && (forall i | 0 <= i < |l.kids| :: NoOverlapIn(l.kids[i]))
  }

  ghost predicate NoOverlapIn(k: Laid)
    decreases k, 0
  {
    k.LaidSub? ==> NoOverlap(k.dir)
  }

  /** Every directory was given the base its parent's position implies. */
  ghost predicate Based(l: LaidDir)
    decreases l, 1
  {
    forall i | 0 <= i < |l.kids| :: BasedNode(l.kids[i], l.base)
  }

  ghost predicate BasedNode(k: Laid, base: nat)
    decreases k, 0
  {
    k.LaidSub? ==> k.dir.base == base + k.child && k.dir.table == 0 && Based(k.dir)
  }

  // From windows to pieces.

  predicate Within(c: Span, s: Span) {
    c.len == 0 || (s.lo <= c.lo && c.lo + c.len <= s.lo + s.len)
  }

  lemma ApartWithin(s: Span, t: Span, c: Span, c': Span)
    requires Apart(s, t) && Within(c, s) && Within(c', t)
    ensures Apart(c, c')
  {
  }

  function Shift(s: Span, base: nat): Span {
    Span(base + s.lo, s.len)
  }

  ghost predicate AllWithin(cs: seq<Chunk>, s: Span) {
    forall i | 0 <= i < |cs| :: Within(cs[i].Reserved(), s)
  }

  ghost predicate AllApart(cs: seq<Chunk>) {
    forall i, j | 0 <= i < j < |cs| :: Apart(cs[i].Reserved(), cs[j].Reserved())
  }

  ghost predicate ClearOf(s: Span, cs: seq<Chunk>) {
    forall i | 0 <= i < |cs| :: Apart(s, cs[i].Reserved())
  }

  lemma {:induction false} NodeWithin(k: Laid, base: nat)
    requires BasedNode(k, base)
    ensures AllWithin(NodeChunks(k, base), Shift(Window(k), base))
    decreases k, 0
  {
    if k.LaidSub? {
      DirWithin(k.dir);
    }
  }

  /** All pieces of a directory lie between its base and its true end. */
  lemma {:induction false} DirWithin(l: LaidDir)
    requires Based(l)
    ensures AllWithin(DirChunks(l), Span(l.base, End(l)))
    decreases l, 2
  {
    KidsWithin(l.kids, l.base);
    var cs := KidChunks(l.kids, l.base);
    assert AllWithin(cs, Span(l.base, End(l)));
  }

  lemma {:induction false} KidsWithin(kids: seq<Laid>, base: nat)
    requires forall i | 0 <= i < |kids| :: BasedNode(kids[i], base)
    ensures AllWithin(KidChunks(kids, base), Span(base, EndKids(kids)))
    decreases kids, 1
  {
    if kids != [] {
      NodeWithin(kids[0], base);
      KidsWithin(kids[1..], base);
      var cs, ds := NodeChunks(kids[0], base), KidChunks(kids[1..], base);
      var u := Span(base, EndKids(kids));
      assert Window(kids[0]).lo + Window(kids[0]).len == EndNode(kids[0]);
      assert EndNode(kids[0]) <= EndKids(kids) && EndKids(kids[1..]) <= EndKids(kids);
      assert AllWithin(cs, u);
      assert AllWithin(ds, u);
      assert KidChunks(kids, base) == cs + ds;
    }
  }

  /** A span clear of every window is clear of every piece. */
  lemma {:induction false} ClearOfKids(s: Span, kids: seq<Laid>, base: nat)
    requires forall i | 0 <= i < |kids| :: BasedNode(kids[i], base)
    requires forall i | 0 <= i < |kids| :: Apart(s, Shift(Window(kids[i]), base))
    ensures ClearOf(s, KidChunks(kids, base))
    decreases |kids|
  {
    if kids != [] {
      var w, cs := Shift(Window(kids[0]), base), NodeChunks(kids[0], base);
      NodeWithin(kids[0], base);
      forall i | 0 <= i < |cs|
        ensures Apart(s, cs[i].Reserved())
      {
        ApartWithin(s, w, s, cs[i].Reserved());
      }
      ClearOfKids(s, kids[1..], base);
      assert KidChunks(kids, base) == cs + KidChunks(kids[1..], base);
    }
  }

  lemma ApartConcat(cs: seq<Chunk>, ds: seq<Chunk>, s: Span)
    requires AllApart(cs) && AllApart(ds) && AllWithin(cs, s) && ClearOf(s, ds)
    ensures AllApart(cs + ds)
  {
    var es := cs + ds;
    forall i, j | 0 <= i < j < |es|
      ensures Apart(es[i].Reserved(), es[j].Reserved())
    {
      if i < |cs| <= j {
        ApartWithin(s, ds[j - |cs|].Reserved(), cs[i].Reserved(), ds[j - |cs|].Reserved());
      } else if |cs| <= i {
        assert es[i] == ds[i - |cs|] && es[j] == ds[j - |cs|];
      }
    }
  }

  lemma {:induction false} KidsApart(kids: seq<Laid>, base: nat)
    requires forall i | 0 <= i < |kids| :: BasedNode(kids[i], base)
    requires WindowsApart(kids) && forall i | 0 <= i < |kids| :: NoOverlapIn(kids[i])
    ensures AllApart(KidChunks(kids, base))
    decreases kids, 1
  {
    if kids != [] {
      var w, cs := Shift(Window(kids[0]), base), NodeChunks(kids[0], base);
      NodeApart(kids[0], base);
      NodeWithin(kids[0], base);
      KidsApart(kids[1..], base);
      ClearOfKids(w, kids[1..], base);
      ApartConcat(cs, KidChunks(kids[1..], base), w);
    }
  }

  lemma {:induction false} NodeApart(k: Laid, base: nat)
    requires BasedNode(k, base) && NoOverlapIn(k)
    ensures AllApart(NodeChunks(k, base))
    decreases k, 0
  {
    if k.LaidSub? {
      DirApart(k.dir);
    }
  }

  /** Windows that do not meet, level by level, keep all pieces of the tree apart. */
  lemma {:induction false} DirApart(l: LaidDir)
    requires Based(l) && NoOverlap(l)
    ensures AllApart(DirChunks(l))
    decreases l, 2
  {
    var t := Span(l.base + l.table, TableSize(|l.kids|));
    KidsApart(l.kids, l.base);
    ClearOfKids(t, l.kids, l.base);
    var head := [Chunk(t.lo, t.len, TableBytes(l))];
    ApartConcat(head, KidChunks(l.kids, l.base), t);
  }

  // Where the entries of an automatic layout go.

  predicate Autos(d: Dir)
    decreases d, 1
  {
    AutoKids(d.kids)
  }

  predicate AutoKids(ks: seq<Node>)
    decreases ks, 1
  {
    forall i | 0 <= i < |ks| :: AutoNode(ks[i])
  }

  predicate AutoNode(n: Node)
    decreases n, 0
  {
    n.place.Auto? && (n.Sub? ==> Autos(n.dir))
  }

  /** The position entry `i` was allocated from. */
  function PosAt(ks: seq<Node>, base: nat, rpos: nat, bs: nat, i: nat): nat
    requires bs > 0 && i < |ks|
    decreases |ks|
  {
    if i == 0 then rpos else PosAt(ks[1..], base, After(LayNode(ks[0], base, rpos, bs), rpos, bs), bs, i - 1)
  }

  lemma {:induction false} KidAt(ks: seq<Node>, base: nat, rpos: nat, bs: nat, i: nat)
    requires bs > 0 && i < |ks|
    ensures LayKids(ks, base, rpos, bs)[i] == LayNode(ks[i], base, PosAt(ks, base, rpos, bs, i), bs)
    ensures PosAt(ks, base, rpos, bs, i) >= rpos
    ensures rpos % bs == 0 ==> PosAt(ks, base, rpos, bs, i) % bs == 0
    decreases |ks|
  {
    hide LayNode, RoundUp;
    var l := LayNode(ks[0], base, rpos, bs);
    if i > 0 {
      RoundUpLeast(rpos + l.size, bs);
      KidAt(ks[1..], base, After(l, rpos, bs), bs, i - 1);
    }
  }

  /** What the allocator gives each entry: its own product, flags and contents; the place
  the user fixed, or the one the allocator had got to; a file the size it asks for, and a
  directory that or its contents' last address, whichever is larger. */
  lemma KidLaid(d: Dir, base: nat, table: nat, bs: nat, i: nat)
    requires bs > 0 && i < |d.kids|
    ensures var n, k := d.kids[i], Lay(d, base, table, bs).kids[i];
      var pos := PosAt(d.kids, base, table + RoundUp(RECORD_SIZE * (|d.kids| + 1), bs), bs, i);
      && k.product == n.product
      && (n.place.Fixed? ==> k.first == n.place.start) && (n.place.Auto? ==> k.first == pos)
      && (n.File? ==> k.LaidFile? && k.size == n.size && k.flags == n.flags && k.content == n.content)
      && (n.Sub? ==> k.LaidSub? && k.child == pos && k.dir == Lay(n.dir, base + pos, 0, bs)
                     && k.size >= n.size && k.size >= k.dir.last && (k.size == n.size || k.size == k.dir.last))
  {
    hide LayKids, RoundUp;
    KidAt(d.kids, base, FirstPos(d, table, bs), bs, i);
  }

  /** The allocator moves on past what it places itself, to the next block, and not past an
  entry with a fixed position. */
  lemma PosNext(ks: seq<Node>, base: nat, rpos: nat, bs: nat, i: nat)
    requires bs > 0 && i + 1 < |ks|
    ensures var pos, next := PosAt(ks, base, rpos, bs, i), PosAt(ks, base, rpos, bs, i + 1);
      && PosAt(ks, base, rpos, bs, 0) == rpos
      && next == if ks[i].place.Fixed? then pos else RoundUp(pos + LayNode(ks[i], base, pos, bs).size, bs)
    decreases i
  {
    hide RoundUp, Lay;
    if i > 0 {
      PosNext(ks[1..], base, After(LayNode(ks[0], base, rpos, bs), rpos, bs), bs, i - 1);
    }
  }

  /** The bases written during allocation are the ones positions imply. */
  lemma {:induction false} LayBased(d: Dir, base: nat, table: nat, bs: nat)
    requires bs > 0
    ensures Based(Lay(d, base, table, bs))
    decreases d
  {
    var l, start := Lay(d, base, table, bs), FirstPos(d, table, bs);
    forall i | 0 <= i < |l.kids|
      ensures BasedNode(l.kids[i], base)
    {
      KidAt(d.kids, base, start, bs, i);
      if d.kids[i].Sub? {
        LayBased(d.kids[i].dir, base + PosAt(d.kids, base, start, bs, i), 0, bs);
      }
    }
  }
}
