/** The round trip stated on the tree alone: no layout, no addresses. */
module Preorder {
  import opened Basics
  import opened Endian
  import opened Records
  import opened Images
  import opened Listing
  import opened Layout
  import opened Chunks
  import opened Spacing
  import opened Room
  import opened Writer
  import opened Stored
  import opened RoundTrip
  import opened Displaced

  /** What a reader learns of one record: its nesting, what it is (0 for a table, 1 for a
  file, 2 for a bridge), a file's flags, whose it is and, for a file, its bytes. */
  datatype Seen = Seen(depth: nat, kind: byte, flags: Option<nat>, product: Product, payload: Option<seq<byte>>)

  /** The product as a record can hold it: its name has a fixed width. */
  function Shown(p: Product): Product {
    p.(name := PadName(p.name))
  }

  // The input tree, a directory's table first, each subdirectory before its contents.

  function Tree(d: Dir, depth: nat): seq<Seen>
    decreases d, 1
  {
    [Seen(depth, 0, None, Shown(d.product), None)] + TreeKids(d.kids, depth)
  }

  function TreeKids(ks: seq<Node>, depth: nat): seq<Seen>
    decreases ks, 1
  {
    if ks == [] then [] else [NodeSeen(ks[0], depth)] + (TreeIn(ks[0], depth) + TreeKids(ks[1..], depth))
  }

  function TreeIn(n: Node, depth: nat): seq<Seen>
    decreases n, 0
  {
    if n.Sub? then Tree(n.dir, depth + 1) else []
  }

  function NodeSeen(n: Node, depth: nat): Seen {
    match n
    case File(product, flags, size, place, content) =>
      Seen(depth, 1, Some(flags), Shown(product),
           if |content| <= size then Some(content + Zeros(size - |content|)) else None)
    case Sub(product, size, place, dir) => Seen(depth, 2, None, Shown(product), None)
  }

  /** As much of it as a reader with a stack of `DEPTH` levels gets to. */
  function Near(s: seq<Seen>): seq<Seen> {
    if s == [] then []
    else if s[0].depth < DEPTH then [s[0]] + Near(s[1..])
    else Near(s[1..])
  }

  lemma {:induction false} NearConcat(a: seq<Seen>, b: seq<Seen>)
    ensures Near(a + b) == Near(a) + Near(b)
    decreases |a|
  {
    if a == [] {
      assert a + b == b;
    } else {
      NearConcat(a[1..], b);
      assert (a + b)[1..] == a[1..] + b;
    }
  }

  ghost predicate DepthsIn(s: seq<Seen>, lo: int, hi: int) {
    forall i | 0 <= i < |s| :: lo <= s[i].depth < hi
  }

  lemma {:induction false} NearAll(s: seq<Seen>)
    requires DepthsIn(s, 0, DEPTH)
    ensures Near(s) == s
  {
    if s != [] {
      NearAll(s[1..]);
    }
  }

  lemma {:induction false} NearNone(s: seq<Seen>, hi: int)
    requires DepthsIn(s, DEPTH, hi)
    ensures Near(s) == []
  {
    if s != [] {
      NearNone(s[1..], hi);
    }
  }

  lemma {:induction false} TreeDepths(d: Dir, depth: nat)
    ensures DepthsIn(Tree(d, depth), depth, depth + Height(d))
    decreases d, 2
  {
    KidsDepths(d.kids, depth);
  }

  lemma SeenDepth(n: Node, depth: nat)
    ensures NodeSeen(n, depth).depth == depth
  {
  }

  lemma {:induction false} KidsDepths(ks: seq<Node>, depth: nat)
    ensures DepthsIn(TreeKids(ks, depth), depth, depth + 1 + HeightKids(ks))
    decreases ks, 1
  {
    hide TreeIn, HeightNode, NodeSeen;
    if ks != [] {
      KidsDepths(ks[1..], depth);
      NodeDepths(ks[0], depth);
      assert NodeSeen(ks[0], depth).depth == depth by {
        SeenDepth(ks[0], depth);
      }
    }
  }

  lemma {:induction false} NodeDepths(n: Node, depth: nat)
    ensures DepthsIn(TreeIn(n, depth), depth + 1, depth + 1 + HeightNode(n))
    decreases n, 0
  {
    hide Tree, Height;
    if n.Sub? {
      TreeDepths(n.dir, depth + 1);
    }
  }

  /** The deepest record of a tree is as deep as the tree is high. */
  lemma {:induction false} TreeReaches(d: Dir, depth: nat)
    ensures exists i | 0 <= i < |Tree(d, depth)| :: Tree(d, depth)[i].depth == depth + Height(d) - 1
    decreases d, 2
  {
    hide TreeKids, HeightKids;
    var s := TreeKids(d.kids, depth);
    assert Tree(d, depth)[0].depth == depth;
    if HeightKids(d.kids) > 0 {
      KidsReach(d.kids, depth);
      var i :| 0 <= i < |s| && s[i].depth == depth + HeightKids(d.kids);
      assert Tree(d, depth)[i + 1] == s[i];
    }
  }

  lemma {:induction false} KidsReach(ks: seq<Node>, depth: nat)
    requires HeightKids(ks) > 0
    ensures exists i | 0 <= i < |TreeKids(ks, depth)| :: TreeKids(ks, depth)[i].depth == depth + HeightKids(ks)
    decreases ks, 1
  {
    hide HeightNode, TreeIn, NodeSeen;
    var inside, rest := TreeIn(ks[0], depth), TreeKids(ks[1..], depth);
    var all := TreeKids(ks, depth);
    if HeightNode(ks[0]) == HeightKids(ks) {
      NodeReachesDepth(ks[0], depth);
      var i :| 0 <= i < |inside| && inside[i].depth == depth + HeightNode(ks[0]);
      assert all[1 + i] == inside[i];
    } else {
      KidsReach(ks[1..], depth);
      var i :| 0 <= i < |rest| && rest[i].depth == depth + HeightKids(ks[1..]);
      assert all[1 + |inside| + i] == rest[i];
    }
  }

  lemma {:induction false} NodeReachesDepth(n: Node, depth: nat)
    requires HeightNode(n) > 0
    ensures exists i | 0 <= i < |TreeIn(n, depth)| :: TreeIn(n, depth)[i].depth == depth + HeightNode(n)
    decreases n, 0
  {
    hide Tree, Height;
    TreeReaches(n.dir, depth + 1);
    var i :| 0 <= i < |Tree(n.dir, depth + 1)| && Tree(n.dir, depth + 1)[i].depth == depth + Height(n.dir);
    assert TreeIn(n, depth)[i].depth == depth + HeightNode(n);
  }

  lemma {:induction false} NearLength(s: seq<Seen>)
    ensures |Near(s)| <= |s|
    ensures (exists i | 0 <= i < |s| :: s[i].depth >= 4) ==> |Near(s)| < |s|
    decreases |s|
  {
    if s != [] {
      NearLength(s[1..]);
      if s[0].depth < 4 && exists i | 0 <= i < |s| :: s[i].depth >= 4 {
        var i :| 0 <= i < |s| && s[i].depth >= 4;
        assert s[1..][i - 1] == s[i];
      }
    }
  }

  /** The reader gets to all of a tree if and only if no more than four tables are nested. */
  lemma NearTreeIff(d: Dir)
    ensures |Near(Tree(d, 0))| <= |Tree(d, 0)|
    ensures |Near(Tree(d, 0))| == |Tree(d, 0)| <==> Height(d) <= 4
    ensures Height(d) <= 4 ==> Near(Tree(d, 0)) == Tree(d, 0)
  {
    hide Tree, Height, Near;
    TreeDepths(d, 0);
    NearLength(Tree(d, 0));
    if Height(d) <= 4 {
      NearAll(Tree(d, 0));
    } else {
      TreeReaches(d, 0);
    }
  }

  // What the items of a laid-out tree show.

  function View(it: Item): Seen {
    var rec := it.e.rec;
    Pow256Widths();
    BytesNatBE(VendorBytes(rec));
    BytesNatBE(DeviceBytes(rec));
    Seen(it.e.depth, RecordType(rec), if RecordType(rec) == TYPE_DEVICE then Some(NatBE(rec[4..8])) else None,
         Product(NatBE(VendorBytes(rec)), NatBE(DeviceBytes(rec)), Name(rec)), it.payload)
  }

  function Views(items: seq<Item>): (vs: seq<Seen>)
    ensures |vs| == |items|
  {
    seq<Seen>(|items|, i requires 0 <= i < |items| => View(items[i]))
  }

  lemma ViewsConcat(a: seq<Item>, b: seq<Item>)
    ensures Views(a + b) == Views(a) + Views(b)
  {
    hide View;
  }

  lemma ViewsOne(it: Item)
    ensures Views([it]) == [View(it)]
  {
    hide View;
  }

  lemma ViewAssembled(it: Item, head: seq<byte>, first: nat, last: nat, p: Product, kind: byte)
    requires |head| == 8 && it.e.rec == Assemble(head, first, last, p, kind)
    ensures View(it) ==
      Seen(it.e.depth, kind, if kind == TYPE_DEVICE then Some(NatBE(head[4..])) else None, Shown(p), it.payload)
  {
    hide Assemble, BytesBE, NatBE, PadName;
    AssembledParts(head, first, last, p, kind);
    assert it.e.rec[4..8] == it.e.rec[..8][4..];
    Pow256Widths();
    NatBytesBE(p.vendor, 8);
    NatBytesBE(p.device, 4);
  }

  lemma HeadView(l: LaidDir, base: u64, d: nat)
    ensures View(Item(Entry(HeadRecord(l), base, d), None, l.base)) ==
      Seen(d, 0, None, Shown(l.product), None)
  {
    hide View, BytesBE, Assemble, Shown;
    var last := if l.last < 0 then 0 else l.last;
    var it := Item(Entry(HeadRecord(l), base, d), None, l.base);
    ViewAssembled(it, BytesBE(SDB_MAGIC, 4) + BytesBE(|l.kids| + 1, 2) + [1, 1], 0, last, l.product, TYPE_INTERCONNECT);
  }

  lemma KidView(n: Node, at: nat, rpos: nat, bs: nat, base: u64, d: nat)
    requires bs > 0
    ensures View(KidItem(LayNode(n, at, rpos, bs), at, base, d)) == NodeSeen(n, d)
  {
    hide View, BytesBE, Lay, Shown, Assemble;
    var k := LayNode(n, at, rpos, bs);
    var it := KidItem(k, at, base, d);
    var last := if k.Last() < 0 then TWO64 - 1 else k.Last();
    if n.File? {
      Pow256Widths();
      NatBytesBE(k.flags, 4);
      assert ([0, 0, 0, 0] + BytesBE(k.flags, 4))[4..] == BytesBE(k.flags, 4);
      ViewAssembled(it, [0, 0, 0, 0] + BytesBE(k.flags, 4), k.first, last, k.product, TYPE_DEVICE);
    } else {
      ViewAssembled(it, BytesBE(k.child, 8), k.first, last, k.product, TYPE_BRIDGE);
    }
  }

  lemma {:induction false} DirViews(t: Dir, at: nat, table: nat, bs: nat, base: u64, d: nat)
    requires bs > 0 && d < DEPTH
    ensures Views(DirItems(Lay(t, at, table, bs), base, d)) == Near(Tree(t, d))
    decreases t, 2
  {
    hide View, Views, KidItems, LayKids, TreeKids, HeadRecord, RoundUp, Near, Shown;
    var l := Lay(t, at, table, bs);
    var it := Item(Entry(HeadRecord(l), base, d), None, l.base);
    ViewsConcat([it], KidItems(l.kids, at, base, d));
    ViewsOne(it);
    HeadView(l, base, d);
    KidViews(t.kids, at, FirstPos(t, table, bs), bs, base, d);
    NearConcat([Seen(d, 0, None, Shown(t.product), None)], TreeKids(t.kids, d));
    NearAll([Seen(d, 0, None, Shown(t.product), None)]);
  }

  lemma {:induction false} KidViews(ks: seq<Node>, at: nat, rpos: nat, bs: nat, base: u64, d: nat)
    requires bs > 0 && d < DEPTH
    ensures Views(KidItems(LayKids(ks, at, rpos, bs), at, base, d)) == Near(TreeKids(ks, d))
    decreases ks, 1
  {
    hide View, LayNode, After, InItems, KidItem, NodeSeen, TreeIn, KidItems, Near, TreeKids, Views;
    if ks == [] {
      NoneViews(at, rpos, bs, base, d);
    } else {
      var k := LayNode(ks[0], at, rpos, bs);
      var rest := LayKids(ks[1..], at, After(k, rpos, bs), bs);
      KidView(ks[0], at, rpos, bs, base, d);
      InViews(ks[0], at, rpos, bs, base, d);
      KidViews(ks[1..], at, After(k, rpos, bs), bs, base, d);
      SplitItems(k, rest, at, base, d);
      SplitTree(ks, d);
    }
  }

  lemma NoneViews(at: nat, rpos: nat, bs: nat, base: u64, d: nat)
    requires bs > 0 && d < DEPTH
    ensures Views(KidItems(LayKids([], at, rpos, bs), at, base, d)) == Near(TreeKids([], d)) == []
  {
  }

  lemma SplitItems(k: Laid, rest: seq<Laid>, at: nat, base: u64, d: nat)
    requires d < DEPTH
    ensures Views(KidItems([k] + rest, at, base, d)) ==
      [View(KidItem(k, at, base, d))] + (Views(InItems(k, base, d)) + Views(KidItems(rest, at, base, d)))
  {
    hide View, Views, InItems, KidItem;
    var kids, it := [k] + rest, KidItem(k, at, base, d);
    assert kids[0] == k && kids[1..] == rest;
    ViewsConcat([it], InItems(k, base, d) + KidItems(rest, at, base, d));
    ViewsConcat(InItems(k, base, d), KidItems(rest, at, base, d));
    ViewsOne(it);
  }

  lemma SplitTree(ks: seq<Node>, d: nat)
    requires d < DEPTH && ks != []
    ensures Near(TreeKids(ks, d)) == [NodeSeen(ks[0], d)] + (Near(TreeIn(ks[0], d)) + Near(TreeKids(ks[1..], d)))
  {
    hide Near, TreeIn, Shown;
    NearConcat([NodeSeen(ks[0], d)], TreeIn(ks[0], d) + TreeKids(ks[1..], d));
    NearConcat(TreeIn(ks[0], d), TreeKids(ks[1..], d));
    NearAll([NodeSeen(ks[0], d)]);
  }

  lemma {:induction false} InViews(n: Node, at: nat, rpos: nat, bs: nat, base: u64, d: nat)
    requires bs > 0 && d < DEPTH
    ensures Views(InItems(LayNode(n, at, rpos, bs), base, d)) == Near(TreeIn(n, d))
    decreases n, 0
  {
    hide Lay, DirItems, Tree, View;
    var k := LayNode(n, at, rpos, bs);
    if n.Sub? && d + 1 < DEPTH {
      DirViews(n.dir, at + rpos, 0, bs, Add64(base, k.first), d + 1);
    } else if n.Sub? {
      TreeDepths(n.dir, d + 1);
      NearNone(Tree(n.dir, d + 1), d + 1 + Height(n.dir));
    }
  }

  // The two halves together.

  /** For every tree laid out without overlap, and with nothing stored where directories
  inside displaced ones are looked for: the scan shows the tree in preorder, as deep as the
  reader goes, if and only if no displaced directory has a directory inside, and all of it if and only if, besides,
  no more than four tables are nested; the image
  holds every file with its padding; and all entries say where their files are if and only
  if no displaced directory has a file inside. */
  lemma TreeRoundTrip(d: Dir, table: nat, bs: nat)
    requires Buildable(d, table, bs) && Clear(Lay(d, 0, table, bs))
    ensures var items, img, l := Scanned(d, table, bs), Built(d, table, bs), Lay(d, 0, table, bs);
      && IsTable(ReadEntry(Native(img), table)) && Table(Native(img), table, 0, 0) == Entries(items)
      && (Views(items) == Near(Tree(d, 0)) <==> Legible(l))
      && (Views(items) == Tree(d, 0) <==> Legible(l) && Height(d) <= 4)
      && ItemsHeld(img, items) && (AllInPlace(items) <==> Straight(l))
  {
    hide Lay, Small, DirChunks, DirItems, TopItems, Table, PutAll, Entries, ItemsHeld, AllInPlace, View, Tree, Near;
    hide AllApart, Height, TopFixed, Sized, Legible, Straight, Clear, ReadEntry, IsTable, DepthsIn;
    ImageRoundTrip(d, table, bs);
    DirViews(d, 0, table, bs, 0, 0);
    TopItemsIff(Lay(d, 0, table, bs));
    NearTreeIff(d);
  }

  /** No fixed positions, files in whole blocks, moderate nesting: then nothing can go
  wrong, and every entry's range holds its file. */
  lemma BlocksRoundTrip(d: Dir, table: nat, bs: nat)
    requires bs > 0 && Autos(d) && Sized(d) && Blocky(d, bs) && table % bs == 0 && Height(d) <= bs
    requires Small(Lay(d, 0, table, bs), bs)
    ensures var items, img := Scanned(d, table, bs), Built(d, table, bs);
      && Table(Native(img), table, 0, 0) == Entries(items)
      && Views(items) == Near(Tree(d, 0)) && (Views(items) == Tree(d, 0) <==> Height(d) <= 4)
      && ItemsHeld(img, items) && AllInPlace(items)
  {
    hide Lay, Small, DirChunks, Built, Scanned, Table, Entries, ItemsHeld, AllInPlace, Views, Tree, Near, AllApart;
    hide Height, TopFixed, Sized, Legible, Straight, Clear, Blocky, ReadEntry, IsTable;
    BlocksApart(d, 0, table, bs);
    AutosTop(d);
    AutosUndisplaced(d);
    UndisplacedInPlace(d, table, bs);
    LegibleClear(Lay(d, 0, table, bs));
    TreeRoundTrip(d, table, bs);
  }

  lemma AutosUndisplaced(d: Dir)
    requires Autos(d)
    ensures forall i | 0 <= i < |d.kids| :: d.kids[i].Sub? ==> d.kids[i].place.Auto?
  {
    assert AutoKids(d.kids);
    assert forall i | 0 <= i < |d.kids| :: AutoNode(d.kids[i]);
  }

  // Directories in one another.

  /** `n` directories below the top one, each in the one before. */
  function Chain(p: Product, n: nat): Dir {
    if n == 0 then Dir(p, []) else Dir(p, [Sub(p, 0, Auto, Chain(p, n - 1))])
  }

  lemma {:induction false} ChainShape(p: Product, n: nat)
    ensures var d := Chain(p, n); Height(d) == n + 1 && Autos(d) && Sized(d) && Blocky(d, 64)
    decreases n
  {
    if n > 0 {
      ChainShape(p, n - 1);
      var k := Sub(p, 0, Auto, Chain(p, n - 1));
      assert Chain(p, n).kids == [k] && [k][1..] == [];
      assert AutoNode(k) && SizedNode(k) && BlockyNode(k, 64);
      assert HeightKids([k]) == HeightNode(k);
    }
  }

  lemma {:induction false} ChainSmall(p: Product, n: nat, base: nat)
    requires n < 64 && base + 128 * n < 0x1_0000
    ensures var l := Lay(Chain(p, n), base, 0, 64); Small(l, 64) && 64 <= l.last <= 64 + 128 * n
    decreases n
  {
    hide Lay, Small, DirChunks, TableBytes;
    if n == 0 {
      LayEmpty(p, base);
      SmallEmpty(p, base);
    } else {
      ChainSmall(p, n - 1, base + 128);
      ChainStep(p, Chain(p, n - 1), base, 64 + 128 * (n - 1));
    }
  }

  lemma SmallEmpty(p: Product, base: nat)
    requires base < TWO32
    ensures Small(LaidDir(p, base, 0, [], 64), 64)
  {
  }

  lemma ChainStep(p: Product, d: Dir, base: nat, m: nat)
    requires base < 0x1_0000 && m < 0x1_0000
    requires var sub := Lay(d, base + 128, 0, 64); Small(sub, 64) && 64 <= sub.last <= m
    ensures var l := Lay(Dir(p, [Sub(p, 0, Auto, d)]), base, 0, 64); Small(l, 64) && 64 <= l.last <= m + 128
  {
    hide Lay, Small, DirChunks, TableBytes;
    var n, sub := Sub(p, 0, Auto, d), Lay(d, base + 128, 0, 64);
    LaySingle(p, n, base);
    var k := LayNode(n, base, 128, 64);
    assert k == LaidSub(p, 128, sub.last, false, 128, sub);
    assert SmallNode(k, 64);
    SmallSingle(Lay(Dir(p, [n]), base, 0, 64), 64);
  }

  /** A chain is read back whole if and only if at most three directories lie below the
  top one. */
  lemma ChainRead(p: Product, n: nat)
    requires n < 64
    ensures var d := Chain(p, n);
      Buildable(d, 0, 64) && Clear(Lay(d, 0, 0, 64)) && (Views(Scanned(d, 0, 64)) == Tree(d, 0) <==> n <= 3)
  {
    hide Chain, Lay, Small, DirChunks, Scanned, Built, Table, Entries, ItemsHeld, AllInPlace, Views, Tree, Near;
    hide AllApart, Height, TopFixed, Sized, Legible, Straight, Clear, Blocky, Autos, ReadEntry, IsTable;
    var d := Chain(p, n);
    ChainShape(p, n);
    ChainSmall(p, n, 0);
    BlocksApart(d, 0, 0, 64);
    AutosTop(d);
    AutosUndisplaced(d);
    UndisplacedInPlace(d, 0, 64);
    LegibleClear(Lay(d, 0, 0, 64));
    TreeRoundTrip(d, 0, 64);
  }
}
