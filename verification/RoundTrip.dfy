/** Scanning the image of a tree gives the tree back. */
module RoundTrip {
  import opened Basics
  import opened Endian
  import opened Records
  import opened Images
  import opened Listing
  import opened Layout
  import opened Chunks
  import opened Spacing
  import opened Room
  import opened Writer
  import opened Stored
  import opened Filesystem

  /** An entry of the listing; for a file, the bytes that belong to it, and where
  they are stored, which need not be where the entry says. */
  datatype Item = Item(e: Entry, payload: Option<seq<byte>>, stored: nat)

  function Entries(items: seq<Item>): (es: seq<Entry>)
    ensures |es| == |items|
  {
    seq<Entry>(|items|, i requires 0 <= i < |items| => items[i].e)
  }

  lemma EntriesConcat(a: seq<Item>, b: seq<Item>)
    ensures Entries(a + b) == Entries(a) + Entries(b)
  {
  }

  // The tree in preorder: a directory's own record, its table, and its contents.

  /** `base` is the reader's idea of where the directory is. */
  function DirItems(l: LaidDir, base: u64, d: nat): seq<Item>
    requires d < DEPTH
    decreases l, 1
  {
    [Item(Entry(HeadRecord(l), base, d), None, l.base)] + KidItems(l.kids, l.base, base, d)
  }

  function KidItems(kids: seq<Laid>, at: nat, base: u64, d: nat): seq<Item>
    requires d < DEPTH
    decreases kids, 1
  {
    if kids == [] then []
    else [KidItem(kids[0], at, base, d)] + (InItems(kids[0], base, d) + KidItems(kids[1..], at, base, d))
  }

  function KidItem(k: Laid, at: nat, base: u64, d: nat): Item {
    Item(Entry(KidRecord(k), base, d), Payload(k), at + k.first)
  }

  function InItems(k: Laid, base: u64, d: nat): seq<Item>
    requires d < DEPTH
    decreases k, 0
  {
    if k.LaidSub? && d + 1 < DEPTH then DirItems(k.dir, Add64(base, k.first), d + 1) else []
  }

  function Payload(k: Laid): Option<seq<byte>> {
    if k.LaidFile? && |k.content| <= k.size then Some(k.content + Zeros(k.size - |k.content|)) else None
  }

  /** A reader that takes `base` for the directory's base finds all tables in it: it
  is right about the base, or there are no tables to find. */
  ghost predicate Found(l: LaidDir, base: u64)
    decreases l, 1
  {
    forall i | 0 <= i < |l.kids| :: FoundNode(l.kids[i], l.base, base)
  }

  ghost predicate FoundNode(k: Laid, at: nat, base: u64)
    decreases k, 0
  {
    k.LaidSub? ==> at == base && Found(k.dir, Add64(base, k.first))
  }

  function Native(img: Image): Device {
    Device(img, true, false)
  }

  lemma ReadSplit(img: Image, at: int, a: seq<byte>, b: seq<byte>)
    requires Read(img, at, |a| + |b|) == a + b
    ensures Read(img, at, |a|) == a && Read(img, at + |a|, |b|) == b
  {
    var s := Read(img, at, |a| + |b|);
    forall i | 0 <= i < |a|
      ensures Read(img, at, |a|)[i] == a[i]
    {
      assert s[i] == Get(img, at + i);
    }
    forall i | 0 <= i < |b|
      ensures Read(img, at + |a|, |b|)[i] == b[i]
    {
      assert s[|a| + i] == Get(img, at + |a| + i);
    }
  }

  ghost predicate NodeOk(k: Laid, at: nat, bs: nat) {
    SmallNode(k, bs) && BasedNode(k, at)
  }

  ghost predicate KidsOk(kids: seq<Laid>, at: nat, bs: nat) {
    at < TWO32 && forall i | 0 <= i < |kids| :: NodeOk(kids[i], at, bs)
  }

  ghost predicate DirOk(l: LaidDir, bs: nat) {
    Small(l, bs) && Based(l)
  }

  lemma {:induction false} SmallAt(kids: seq<Laid>, bs: nat, i: nat)
    requires SmallKids(kids, bs) && i < |kids|
    ensures SmallNode(kids[i], bs)
    decreases |kids|
  {
    hide SmallNode;
    if i > 0 {
      SmallAt(kids[1..], bs, i - 1);
    }
  }

  lemma DirKidsOk(l: LaidDir, bs: nat)
    requires DirOk(l, bs)
    ensures KidsOk(l.kids, l.base, bs)
  {
    hide SmallNode, BasedNode, SmallKids;
    forall i | 0 <= i < |l.kids|
      ensures NodeOk(l.kids[i], l.base, bs)
    {
      SmallAt(l.kids, bs, i);
    }
  }

  lemma SubInside(dev: Device, k: Laid, base: u64, bs: nat, d: nat)
    requires d < DEPTH && k.LaidSub? && SmallNode(k, bs)
    ensures Inside(dev, KidRecord(k), base, d) ==
      if d + 1 < DEPTH && IsTable(ReadEntry(dev, Add64(base, k.child)))
      then Table(dev, Add64(base, k.child), Add64(base, k.first), d + 1) else []
  {
    hide Table, ReadEntry, IsTable, BridgeRecord, Child, AddrFirst, IsBridge, Small, Add64;
    BridgeFields(k.child, k.first, k.Last(), k.product);
    assert KidRecord(k) == BridgeRecord(k.child, k.first, k.Last(), k.product);
  }

  lemma FileInside(dev: Device, k: Laid, base: u64, bs: nat, d: nat)
    requires d < DEPTH && k.LaidFile? && SmallNode(k, bs)
    ensures Inside(dev, KidRecord(k), base, d) == []
  {
    hide Table, ReadEntry, IsTable, Assemble, RecordType, BytesBE, Add64;
    AssembledFields([0, 0, 0, 0] + BytesBE(k.flags, 4), k.first, k.Last(), k.product, TYPE_DEVICE);
  }

  lemma {:induction false} NodeReads(img: Image, k: Laid, at: nat, base: u64, bs: nat, d: nat)
    requires d < DEPTH && NodeOk(k, at, bs) && at < TWO32 && FoundNode(k, at, base)
    requires Fits(NodeChunks(k, at)) && Holds(img, NodeChunks(k, at))
    ensures Inside(Native(img), KidRecord(k), base, d) == Entries(InItems(k, base, d))
    decreases k, 0
  {
    hide Table, Inside, DirItems, DirChunks, Fits, Holds, ReadEntry, IsTable, Small, Based, Found, Entries, KidRecord;
    if k.LaidSub? {
      SubInside(Native(img), k, base, bs, d);
      if d + 1 < DEPTH {
        assert Add64(base, k.child) == k.dir.base + k.dir.table;
        DirReads(img, k.dir, Add64(base, k.first), bs, d + 1);
      } else {
        NoEntries();
      }
    } else {
      FileInside(Native(img), k, base, bs, d);
      NoEntries();
    }
  }

  lemma NoEntries()
    ensures Entries([]) == []
  {
  }

  lemma KidChunksStep(img: Image, kids: seq<Laid>, base: nat)
    requires kids != [] && Fits(KidChunks(kids, base)) && Holds(img, KidChunks(kids, base))
    ensures Fits(NodeChunks(kids[0], base)) && Holds(img, NodeChunks(kids[0], base))
    ensures Fits(KidChunks(kids[1..], base)) && Holds(img, KidChunks(kids[1..], base))
  {
    hide Fits, Holds, NodeChunks;
    HoldsParts(img, NodeChunks(kids[0], base), KidChunks(kids[1..], base));
  }

  lemma NativeEntry(img: Image, pos: u64)
    ensures ReadEntry(Native(img), pos) == Read(img, pos, RECORD_SIZE)
  {
    hide Read;
  }

  /** The scan of a table's records, one record on. */
  lemma RestStep(img: Image, kids: seq<Laid>, pos: u64, base: u64, d: nat)
    requires d < DEPTH && kids != [] && pos + RECORD_SIZE * (|kids| + 1) <= TWO64
    requires Read(img, pos, RECORD_SIZE * |kids|) == KidRecords(kids)
    ensures var dev, rec, n := Native(img), KidRecord(kids[0]), |kids| - 1;
      && Rest(dev, pos, |kids|, base, d) ==
         [Entry(rec, base, d)] + (Inside(dev, rec, base, d) + Rest(dev, pos + RECORD_SIZE, n, base, d))
      && Read(img, pos + RECORD_SIZE, RECORD_SIZE * n) == KidRecords(kids[1..])
  {
    hide Inside, KidRecord, Read, ReadEntry;
    ReadSplit(img, pos, KidRecord(kids[0]), KidRecords(kids[1..]));
    NativeEntry(img, pos);
    assert Add64(pos, RECORD_SIZE) == pos + RECORD_SIZE;
  }

  lemma {:induction false} KidsRead(img: Image, kids: seq<Laid>, pos: u64, at: nat, base: u64, bs: nat, d: nat)
    requires d < DEPTH && KidsOk(kids, at, bs) && pos + RECORD_SIZE * (|kids| + 1) <= TWO64
    requires forall i | 0 <= i < |kids| :: FoundNode(kids[i], at, base)
    requires Read(img, pos, RECORD_SIZE * |kids|) == KidRecords(kids)
    requires Fits(KidChunks(kids, at)) && Holds(img, KidChunks(kids, at))
    ensures Rest(Native(img), pos, |kids|, base, d) == Entries(KidItems(kids, at, base, d))
    decreases kids, 1
  {
    hide Inside, InItems, KidRecord, KidRecords, Fits, Holds, NodeOk, FoundNode, Entries, Read, KidChunks, KidItems;
    hide Rest;
    if kids == [] {
      RestNone(Native(img), pos, base, d);
      NoEntries();
      NoItems(at, base, d);
    } else {
      var k, rest := kids[0], kids[1..];
      KidChunksStep(img, kids, at);
      RestStep(img, kids, pos, base, d);
      NodeReads(img, k, at, base, bs, d);
      KidsRead(img, rest, pos + RECORD_SIZE, at, base, bs, d);
      KidEntries(kids, at, base, d);
    }
  }

  lemma NoItems(at: nat, base: u64, d: nat)
    requires d < DEPTH
    ensures KidItems([], at, base, d) == []
  {
  }

  lemma KidEntries(kids: seq<Laid>, at: nat, base: u64, d: nat)
    requires d < DEPTH && kids != []
    ensures var k, rest := kids[0], kids[1..];
      Entries(KidItems(kids, at, base, d)) ==
      [Entry(KidRecord(k), base, d)] + (Entries(InItems(k, base, d)) + Entries(KidItems(rest, at, base, d)))
  {
    hide InItems, KidRecord, Entries;
    var item := KidItem(kids[0], at, base, d);
    EntriesConcat([item], InItems(kids[0], base, d) + KidItems(kids[1..], at, base, d));
    EntriesConcat(InItems(kids[0], base, d), KidItems(kids[1..], at, base, d));
    OneEntry(item);
  }

  lemma OneEntry(item: Item)
    ensures Entries([item]) == [item.e]
  {
  }

  lemma {:induction false} DirReads(img: Image, l: LaidDir, base: u64, bs: nat, d: nat)
    requires d < DEPTH && DirOk(l, bs) && Found(l, base)
    requires Fits(DirChunks(l)) && Holds(img, DirChunks(l))
    ensures var dev, pos := Native(img), l.base + l.table;
      && IsTable(ReadEntry(dev, pos))
      && Table(dev, pos, base, d) == Entries(DirItems(l, base, d))
    decreases l, 2
  {
    hide Rest, KidItems, KidChunks, KidRecords, Fits, Entries, Get, InterconnectRecord, SmallKids, Based, FoundNode;
    var dev, pos := Native(img), l.base + l.table;
    var head := Chunk(pos, TableSize(|l.kids|), TableBytes(l));
    TableHeld(img, l);
    InterconnectFields(|l.kids| + 1, l.last, l.product);
    DirKidsOk(l, bs);
    KidsRead(img, l.kids, pos + RECORD_SIZE, l.base, base, bs, d);
    var item := Item(Entry(HeadRecord(l), base, d), None, l.base);
    EntriesConcat([item], KidItems(l.kids, l.base, base, d));
    OneEntry(item);
    assert Add64(pos, RECORD_SIZE) == pos + RECORD_SIZE;
  }

  lemma TableHeld(img: Image, l: LaidDir)
    requires Fits(DirChunks(l)) && Holds(img, DirChunks(l))
    ensures var at := l.base + l.table;
      && Read(img, at, RECORD_SIZE) == HeadRecord(l)
      && Read(img, at + RECORD_SIZE, RECORD_SIZE * |l.kids|) == KidRecords(l.kids)
    ensures Fits(KidChunks(l.kids, l.base)) && Holds(img, KidChunks(l.kids, l.base))
  {
    hide HeadRecord, KidRecords, KidChunks;
    var head := Chunk(l.base + l.table, TableSize(|l.kids|), TableBytes(l));
    HoldsParts(img, [head], KidChunks(l.kids, l.base));
    assert Read(img, head.at, head.len) == Padded([head][0]);
    ReadSplit(img, head.at, HeadRecord(l), KidRecords(l.kids));
  }

  // The ranges the records announce.

  /** A table's range runs to the directory's last address, the largest of its entries' and
  of where they start; an entry's covers its size. */
  lemma RecordRanges(d: Dir, base: nat, table: nat, bs: nat)
    requires bs > 0 && Small(Lay(d, base, table, bs), bs)
    ensures var l := Lay(d, base, table, bs);
      && AddrFirst(HeadRecord(l)) == 0 && AddrLast(HeadRecord(l)) == l.last
      && (forall i | 0 <= i < |l.kids| ::
            && AddrFirst(KidRecord(l.kids[i])) == l.kids[i].first
            && AddrLast(KidRecord(l.kids[i])) == l.kids[i].first + l.kids[i].size - 1 <= l.last)
      && l.last >= FirstPos(d, table, bs)
      && (l.last == FirstPos(d, table, bs) || exists i | 0 <= i < |l.kids| :: l.last == l.kids[i].Last())
  {
    hide LayKids, RoundUp, HeadRecord, KidRecord, AddrFirst, AddrLast, LastOf, SmallKids;
    var l, start := Lay(d, base, table, bs), FirstPos(d, table, bs);
    HeadRange(l, bs);
    LastAbove(l.kids, start);
    LastReached(l.kids, start);
    forall i | 0 <= i < |l.kids|
      ensures AddrFirst(KidRecord(l.kids[i])) == l.kids[i].first
      ensures AddrLast(KidRecord(l.kids[i])) == l.kids[i].first + l.kids[i].size - 1 <= l.last
    {
      SmallAt(l.kids, bs, i);
      KidRange(l.kids[i], bs);
      LastAt(l.kids, start, i);
    }
  }

  lemma HeadRange(l: LaidDir, bs: nat)
    requires Small(l, bs)
    ensures AddrFirst(HeadRecord(l)) == 0 && AddrLast(HeadRecord(l)) == l.last
  {
    hide InterconnectRecord, AddrFirst, AddrLast, SmallKids;
    InterconnectFields(|l.kids| + 1, l.last, l.product);
  }

  lemma KidRange(k: Laid, bs: nat)
    requires SmallNode(k, bs)
    ensures AddrFirst(KidRecord(k)) == k.first && AddrLast(KidRecord(k)) == k.first + k.size - 1
  {
    hide BridgeRecord, DeviceRecord, AddrFirst, AddrLast, Small;
    if k.LaidSub? {
      BridgeFields(k.child, k.first, k.Last(), k.product);
    } else {
      DeviceFields(k.flags, k.first, k.Last(), k.product);
    }
  }

  lemma {:induction false} LastReached(kids: seq<Laid>, start: nat)
    ensures LastOf(kids, start) == start || exists i | 0 <= i < |kids| :: LastOf(kids, start) == kids[i].Last()
    decreases |kids|
  {
    if kids != [] {
      var front := kids[..|kids| - 1];
      LastReached(front, start);
      if LastOf(kids, start) != start && LastOf(kids, start) != kids[|kids| - 1].Last() {
        var i :| 0 <= i < |front| && LastOf(front, start) == front[i].Last();
        assert kids[i] == front[i];
      }
    }
  }

  // File contents.

  ghost predicate ItemHeld(img: Image, it: Item) {
    it.payload.Some? ==> Read(img, it.stored, RangeLength(it.e.rec)) == it.payload.value
  }

  /** Every file is stored where its item says. */
  ghost predicate ItemsHeld(img: Image, items: seq<Item>) {
    forall i | 0 <= i < |items| :: ItemHeld(img, items[i])
  }

  lemma FileHeld(img: Image, k: Laid, at: nat, base: u64, bs: nat, d: nat)
    requires SmallNode(k, bs) && at < TWO32
    requires k.LaidFile? ==> Fits(NodeChunks(k, at)) && Holds(img, NodeChunks(k, at))
    ensures ItemHeld(img, KidItem(k, at, base, d))
  {
    hide BytesBE, NatBE, Get, Small;
    if k.LaidFile? && |k.content| <= k.size {
      AssembledFields([0, 0, 0, 0] + BytesBE(k.flags, 4), k.first, k.Last(), k.product, TYPE_DEVICE);
      var rec := KidRecord(k);
      assert AddrFirst(rec) == k.first && AddrLast(rec) == k.first + k.size - 1;
      assert RangeLength(rec) == k.size;
      var c := NodeChunks(k, at)[0];
      assert Read(img, c.at, c.len) == Padded(c);
    }
  }

  lemma {:induction false} KidsHeld(img: Image, kids: seq<Laid>, at: nat, base: u64, bs: nat, d: nat)
    requires d < DEPTH && KidsOk(kids, at, bs)
    requires Fits(KidChunks(kids, at)) && Holds(img, KidChunks(kids, at))
    ensures ItemsHeld(img, KidItems(kids, at, base, d))
    decreases kids, 1
  {
    hide KidItem, Fits, Holds, NodeChunks, KidChunks, ItemHeld, InItems, BasedNode;
    if kids != [] {
      var k, rest := kids[0], kids[1..];
      KidChunksStep(img, kids, at);
      assert NodeOk(k, at, bs);
      FileHeld(img, k, at, base, bs, d);
      NodeHeld(img, k, at, base, bs, d);
      KidsHeld(img, rest, at, base, bs, d);
    }
  }

  lemma {:induction false} NodeHeld(img: Image, k: Laid, at: nat, base: u64, bs: nat, d: nat)
    requires d < DEPTH && NodeOk(k, at, bs) && at < TWO32
    requires Fits(NodeChunks(k, at)) && Holds(img, NodeChunks(k, at))
    ensures ItemsHeld(img, InItems(k, base, d))
    decreases k, 0
  {
    hide DirItems, DirChunks, Fits, Holds, ItemHeld, Based, SmallKids;
    if k.LaidSub? && d + 1 < DEPTH {
      assert DirOk(k.dir, bs);
      DirHeld(img, k.dir, Add64(base, k.first), bs, d + 1);
    }
  }

  lemma {:induction false} DirHeld(img: Image, l: LaidDir, base: u64, bs: nat, d: nat)
    requires d < DEPTH && DirOk(l, bs)
    requires Fits(DirChunks(l)) && Holds(img, DirChunks(l))
    ensures ItemsHeld(img, DirItems(l, base, d))
    decreases l, 2
  {
    hide KidItems, KidChunks, HeadRecord, Fits, Holds, DirChunks, SmallKids, Based;
    TableHeld(img, l);
    DirKidsOk(l, bs);
    KidsHeld(img, l.kids, l.base, base, bs, d);
  }

  // When an entry says where its file is.

  predicate InPlace(it: Item) {
    it.payload.Some? ==> it.e.Offset() == it.stored
  }

  ghost predicate AllInPlace(items: seq<Item>) {
    forall i | 0 <= i < |items| :: InPlace(items[i])
  }

  /** A reader wrong about a directory's base is wrong about all files in it. */
  lemma FileInPlaceIff(k: Laid, at: nat, base: u64, bs: nat, d: nat)
    requires SmallNode(k, bs) && at < TWO32 && base < TWO32
    ensures InPlace(KidItem(k, at, base, d)) <==> (Payload(k).None? || at == base)
  {
    hide BytesBE, NatBE, Small;
    if k.LaidFile? {
      AssembledFields([0, 0, 0, 0] + BytesBE(k.flags, 4), k.first, k.Last(), k.product, TYPE_DEVICE);
      assert AddrFirst(KidRecord(k)) == k.first;
      assert Add64(base, k.first) == base + k.first;
    }
  }

  lemma InPlaceConcat(a: seq<Item>, b: seq<Item>)
    ensures AllInPlace(a + b) <==> AllInPlace(a) && AllInPlace(b)
  {
    hide InPlace;
    var c := a + b;
    if AllInPlace(c) {
      forall i | 0 <= i < |a|
        ensures InPlace(a[i])
      {
        assert c[i] == a[i];
      }
      forall i | 0 <= i < |b|
        ensures InPlace(b[i])
      {
        assert c[|a| + i] == b[i];
      }
    }
  }

  // Conditions on the input tree.

  /** The size stored for a file is at least its real one. */
  predicate Sized(d: Dir)
    decreases d, 1
  {
    forall i | 0 <= i < |d.kids| :: SizedNode(d.kids[i])
  }

  predicate SizedNode(n: Node)
    decreases n, 0
  {
    if n.File? then |n.content| <= n.size else Sized(n.dir)
  }

  /** Positions are set in the top directory only, as the config file is read. */
  predicate TopFixed(d: Dir) {
    forall i | 0 <= i < |d.kids| :: d.kids[i].Sub? ==> Autos(d.kids[i].dir)
  }

  lemma {:induction false} LayFits(d: Dir, base: nat, table: nat, bs: nat)
    requires bs > 0 && Sized(d)
    ensures Fits(DirChunks(Lay(d, base, table, bs)))
    decreases d
  {
    hide LayKids, RoundUp;
    KidsFit(d.kids, base, FirstPos(d, table, bs), bs);
  }

  lemma {:induction false} KidsFit(ks: seq<Node>, base: nat, rpos: nat, bs: nat)
    requires bs > 0 && forall i | 0 <= i < |ks| :: SizedNode(ks[i])
    ensures Fits(KidChunks(LayKids(ks, base, rpos, bs), base))
    decreases ks
  {
    hide LayNode, After, NodeChunks;
    if ks != [] {
      var l := LayNode(ks[0], base, rpos, bs);
      NodeFits(ks[0], base, rpos, bs);
      KidsFit(ks[1..], base, After(l, rpos, bs), bs);
      var ls := LayKids(ks, base, rpos, bs);
      assert ls[1..] == LayKids(ks[1..], base, After(l, rpos, bs), bs);
      assert KidChunks(ls, base) == NodeChunks(l, base) + KidChunks(ls[1..], base);
    }
  }

  lemma {:induction false} NodeFits(n: Node, base: nat, rpos: nat, bs: nat)
    requires bs > 0 && SizedNode(n)
    ensures Fits(NodeChunks(LayNode(n, base, rpos, bs), base))
    decreases n
  {
    hide Lay, DirChunks;
    if n.Sub? {
      LayFits(n.dir, base + rpos, 0, bs);
    }
  }

  lemma AutosTop(d: Dir)
    requires Autos(d)
    ensures TopFixed(d)
  {
    assert AutoKids(d.kids);
    forall i | 0 <= i < |d.kids| && d.kids[i].Sub?
      ensures Autos(d.kids[i].dir)
    {
      assert AutoNode(d.kids[i]);
    }
  }

  // Bridges that say where their table is.

  ghost predicate Aimed(l: LaidDir)
    decreases l, 1
  {
    forall i | 0 <= i < |l.kids| :: AimedNode(l.kids[i])
  }

  ghost predicate AimedNode(k: Laid)
    decreases k, 0
  {
    k.LaidSub? ==> k.first == k.child && Aimed(k.dir)
  }

  lemma {:induction false} AutoAimed(d: Dir, base: nat, table: nat, bs: nat)
    requires bs > 0 && Autos(d)
    ensures Aimed(Lay(d, base, table, bs)) && Placed(Lay(d, base, table, bs))
    decreases d
  {
    hide LayKids, RoundUp;
    var l, start := Lay(d, base, table, bs), FirstPos(d, table, bs);
    assert AutoKids(d.kids);
    forall i | 0 <= i < |l.kids|
      ensures AimedNode(l.kids[i]) && PlacedNode(l.kids[i], base)
    {
      KidAt(d.kids, base, start, bs, i);
      if d.kids[i].Sub? {
        AutoAimed(d.kids[i].dir, base + PosAt(d.kids, base, start, bs, i), 0, bs);
      }
    }
  }

  /** Directories of the top one are aimed inside, and everything can be written. */
  lemma TopAimed(d: Dir, table: nat, bs: nat)
    requires bs > 0 && TopFixed(d)
    ensures var l := Lay(d, 0, table, bs);
      Placed(l) && forall i | 0 <= i < |l.kids| :: l.kids[i].LaidSub? ==> Aimed(l.kids[i].dir)
  {
    hide LayKids, RoundUp, Aimed, Autos;
    var l, start := Lay(d, 0, table, bs), FirstPos(d, table, bs);
    forall i | 0 <= i < |l.kids|
      ensures PlacedNode(l.kids[i], 0)
      ensures l.kids[i].LaidSub? ==> Aimed(l.kids[i].dir)
    {
      KidAt(d.kids, 0, start, bs, i);
      if d.kids[i].Sub? {
        AutoAimed(d.kids[i].dir, 0 + PosAt(d.kids, 0, start, bs, i), 0, bs);
      }
    }
  }

  lemma {:induction false} AimedFound(l: LaidDir, bs: nat)
    requires DirOk(l, bs) && Aimed(l)
    ensures l.base < TWO32 && Found(l, l.base)
    decreases l
  {
    hide SmallKids;
    DirKidsOk(l, bs);
    forall i | 0 <= i < |l.kids|
      ensures FoundNode(l.kids[i], l.base, l.base)
    {
      var k := l.kids[i];
      assert NodeOk(k, l.base, bs) && AimedNode(k);
      if k.LaidSub? {
        AimedFound(k.dir, bs);
        assert Add64(l.base, k.first) == k.dir.base;
      }
    }
  }

  lemma {:induction false} AimedInPlace(l: LaidDir, bs: nat, d: nat)
    requires d < DEPTH && DirOk(l, bs) && Aimed(l) && l.base < TWO32
    ensures AllInPlace(DirItems(l, l.base, d))
    decreases l, 2
  {
    hide SmallKids, KidItems, HeadRecord, Based, AimedNode;
    DirKidsOk(l, bs);
    KidsInPlace(l.kids, l.base, bs, d);
    var head := Item(Entry(HeadRecord(l), l.base, d), None, l.base);
    InPlaceConcat([head], KidItems(l.kids, l.base, l.base, d));
  }

  lemma {:induction false} KidsInPlace(kids: seq<Laid>, at: u64, bs: nat, d: nat)
    requires d < DEPTH && KidsOk(kids, at, bs) && forall i | 0 <= i < |kids| :: AimedNode(kids[i])
    ensures AllInPlace(KidItems(kids, at, at, d))
    decreases kids, 1
  {
    hide SmallNode, BasedNode, AimedNode, KidItem, InItems, AllInPlace;
    if kids == [] {
      NothingMisplaced();
    } else {
      var k, rest := kids[0], kids[1..];
      assert NodeOk(k, at, bs);
      OneInPlace(k, at, at, bs, d);
      NodeInPlace(k, at, bs, d);
      KidsInPlace(rest, at, bs, d);
      InPlaceConcat(InItems(k, at, d), KidItems(rest, at, at, d));
      InPlaceConcat([KidItem(k, at, at, d)], InItems(k, at, d) + KidItems(rest, at, at, d));
    }
  }

  lemma NothingMisplaced()
    ensures AllInPlace([])
  {
  }

  lemma OneInPlace(k: Laid, at: nat, base: u64, bs: nat, d: nat)
    requires SmallNode(k, bs) && at < TWO32 && base < TWO32
    ensures AllInPlace([KidItem(k, at, base, d)]) <==> (Payload(k).None? || at == base)
  {
    hide KidItem, InPlace, Payload, SmallNode;
    FileInPlaceIff(k, at, base, bs, d);
    var items := [KidItem(k, at, base, d)];
    assert AllInPlace(items) <==> InPlace(items[0]);
  }

  lemma {:induction false} NodeInPlace(k: Laid, at: u64, bs: nat, d: nat)
    requires d < DEPTH && NodeOk(k, at, bs) && AimedNode(k) && at < TWO32
    ensures AllInPlace(InItems(k, at, d))
    decreases k, 0
  {
    hide DirItems, Based, Aimed, SmallKids;
    if k.LaidSub? && d + 1 < DEPTH {
      assert Add64(at, k.first) == k.dir.base;
      AimedInPlace(k.dir, bs, d + 1);
    }
  }

  lemma HeadInPlace(head: Item)
    requires head.payload == None
    ensures AllInPlace([head])
  {
  }

  // The image of a tree.

  /** What gensdbfs is given: positions in the top directory only, sizes that hold the
  files; and a layout clear of the 32-bit limit in which nothing meets. */
  ghost predicate Buildable(d: Dir, table: nat, bs: nat) {
    && bs > 0 && TopFixed(d) && Sized(d)
    && var l := Lay(d, 0, table, bs); Small(l, bs) && AllApart(DirChunks(l))
  }

  function Built(d: Dir, table: nat, bs: nat): Image
    requires bs > 0
  {
    PutAll(map[], DirChunks(Lay(d, 0, table, bs)))
  }

  function Items(d: Dir, table: nat, bs: nat): (items: seq<Item>)
    requires bs > 0
    ensures items != []
  {
    DirItems(Lay(d, 0, table, bs), 0, 0)
  }

  /** The image holds every piece of the tree. */
  lemma BuiltHolds(d: Dir, table: nat, bs: nat)
    requires Buildable(d, table, bs)
    ensures var cs := DirChunks(Lay(d, 0, table, bs)); Fits(cs) && Holds(Built(d, table, bs), cs)
  {
    hide Lay, Small, DirChunks, AllApart, Fits, Holds, PutAll, TopFixed, Sized;
    LayFits(d, 0, table, bs);
    AllHeld(DirChunks(Lay(d, 0, table, bs)));
  }
}
