/** Reading back trees whose top directory has entries with positions set by the user.

A bridge with such a position keeps its table where the allocator had got to, and the
reader takes the position for the base of everything behind it. It finds the table,
lists its records at the wrong place, and looks for tables inside it where none are. */
module Displaced {
  import opened Basics
  import opened Endian
  import opened Records
  import opened Images
  import opened Listing
  import opened Layout
  import opened Chunks
  import opened Spacing
  import opened Room
  import opened Writer
  import opened Stored
  import opened Filesystem
  import opened RoundTrip

  // What the scan of such an image returns.

  /** The records of a table whose directories lead nowhere. */
  function Leaves(kids: seq<Laid>, at: nat, base: u64, d: nat): (items: seq<Item>)
    ensures |items| == |kids|
  {
    if kids == [] then [] else [KidItem(kids[0], at, base, d)] + Leaves(kids[1..], at, base, d)
  }

  predicate IsDisplaced(k: Laid) {
    k.LaidSub? && k.first != k.child
  }

  function TopItems(l: LaidDir): (items: seq<Item>)
    ensures items != []
  {
    [Item(Entry(HeadRecord(l), 0, 0), None, l.base)] + TopKidItems(l.kids)
  }

  function TopKidItems(kids: seq<Laid>): seq<Item> {
    if kids == [] then [] else [KidItem(kids[0], 0, 0, 0)] + (TopIn(kids[0]) + TopKidItems(kids[1..]))
  }

  function TopIn(k: Laid): seq<Item> {
    if IsDisplaced(k) then
      var base := Add64(0, k.first);
      [Item(Entry(HeadRecord(k.dir), base, 1), None, k.dir.base)] + Leaves(k.dir.kids, k.dir.base, base, 1)
    else InItems(k, 0, 0)
  }

  /** No table lies where a directory inside a displaced one is looked for. */
  ghost predicate NoTables(img: Image, k: Laid) {
    IsDisplaced(k) ==> NoTablesAt(img, k.dir.kids, Add64(0, k.first))
  }

  ghost predicate NoTablesAt(img: Image, kids: seq<Laid>, base: u64) {
    forall j | 0 <= j < |kids| && kids[j].LaidSub? :: !IsTable(ReadEntry(Native(img), Add64(base, kids[j].child)))
  }

  lemma NotInside(img: Image, k: Laid, base: u64, bs: nat, d: nat)
    requires d < DEPTH && SmallNode(k, bs)
    requires k.LaidSub? ==> !IsTable(ReadEntry(Native(img), Add64(base, k.child)))
    ensures Inside(Native(img), KidRecord(k), base, d) == []
  {
    hide Table, Inside, KidRecord, ReadEntry, IsTable, SmallNode;
    if k.LaidSub? {
      SubInside(Native(img), k, base, bs, d);
    } else {
      FileInside(Native(img), k, base, bs, d);
    }
  }

  lemma {:induction false} LeavesRead(img: Image, kids: seq<Laid>, pos: u64, at: nat, base: u64, bs: nat, d: nat)
    requires d < DEPTH && KidsOk(kids, at, bs) && pos + RECORD_SIZE * (|kids| + 1) <= TWO64
    requires NoTablesAt(img, kids, base) && Read(img, pos, RECORD_SIZE * |kids|) == KidRecords(kids)
    ensures Rest(Native(img), pos, |kids|, base, d) == Entries(Leaves(kids, at, base, d))
    decreases |kids|
  {
    hide Inside, KidRecord, KidRecords, SmallNode, BasedNode, Entries, Read, IsTable, Leaves, Rest;
    if kids == [] {
      RestNone(Native(img), pos, base, d);
      NoEntries();
      NoLeaves(at, base, d);
    } else {
      var k, rest := kids[0], kids[1..];
      RestStep(img, kids, pos, base, d);
      assert NodeOk(k, at, bs);
      NotInside(img, k, base, bs, d);
      LeavesRead(img, rest, pos + RECORD_SIZE, at, base, bs, d);
      LeafEntries(kids, at, base, d);
    }
  }

  lemma NoLeaves(at: nat, base: u64, d: nat)
    ensures Leaves([], at, base, d) == []
  {
  }

  lemma LeafEntries(kids: seq<Laid>, at: nat, base: u64, d: nat)
    requires kids != []
    ensures Entries(Leaves(kids, at, base, d)) ==
      [Entry(KidRecord(kids[0]), base, d)] + Entries(Leaves(kids[1..], at, base, d))
  {
    hide KidRecord, Entries;
    EntriesConcat([KidItem(kids[0], at, base, d)], Leaves(kids[1..], at, base, d));
    OneEntry(KidItem(kids[0], at, base, d));
  }

  /** A directory read with the wrong base. */
  lemma DisplacedReads(img: Image, l: LaidDir, base: u64, bs: nat, d: nat)
    requires d < DEPTH && DirOk(l, bs) && NoTablesAt(img, l.kids, base)
    requires Fits(DirChunks(l)) && Holds(img, DirChunks(l))
    ensures var dev, pos := Native(img), l.base + l.table;
      && IsTable(ReadEntry(dev, pos))
      && Table(dev, pos, base, d) ==
         Entries([Item(Entry(HeadRecord(l), base, d), None, l.base)] + Leaves(l.kids, l.base, base, d))
  {
    hide Rest, Leaves, KidChunks, KidRecords, Fits, Entries, Get, InterconnectRecord, SmallKids, Based, NoTablesAt;
    var pos := l.base + l.table;
    TableHeld(img, l);
    InterconnectFields(|l.kids| + 1, l.last, l.product);
    DirKidsOk(l, bs);
    LeavesRead(img, l.kids, pos + RECORD_SIZE, l.base, base, bs, d);
    var item := Item(Entry(HeadRecord(l), base, d), None, l.base);
    EntriesConcat([item], Leaves(l.kids, l.base, base, d));
    OneEntry(item);
    assert Add64(pos, RECORD_SIZE) == pos + RECORD_SIZE;
  }

  ghost predicate TopNodeOk(img: Image, k: Laid, bs: nat) {
    NodeOk(k, 0, bs) && NoTables(img, k) && (k.LaidSub? ==> Aimed(k.dir))
  }

  lemma BridgeReads(img: Image, k: Laid, bs: nat)
    requires bs > 0 && TopNodeOk(img, k, bs) && Fits(NodeChunks(k, 0)) && Holds(img, NodeChunks(k, 0))
    ensures Inside(Native(img), KidRecord(k), 0, 0) == Entries(TopIn(k))
  {
    hide DirChunks, Fits, Holds, Entries, Table, ReadEntry, IsTable, SmallKids, Based, Aimed, Leaves, DirItems, Inside;
    hide HeadRecord, KidRecord, NoTablesAt, RoundTrip.Found;
    if IsDisplaced(k) {
      assert Add64(0, k.first) == k.first;
      DisplacedReads(img, k.dir, k.first, bs, 1);
      BridgeInside(img, k, bs);
    } else {
      if k.LaidSub? {
        AimedFound(k.dir, bs);
        assert Add64(0, k.first) == k.dir.base;
      }
      NodeReads(img, k, 0, 0, bs, 0);
    }
  }

  lemma {:induction false} TopKidsRead(img: Image, kids: seq<Laid>, pos: u64, bs: nat)
    requires bs > 0 && pos + RECORD_SIZE * (|kids| + 1) <= TWO64
    requires forall i | 0 <= i < |kids| :: TopNodeOk(img, kids[i], bs)
    requires Read(img, pos, RECORD_SIZE * |kids|) == KidRecords(kids)
    requires Fits(KidChunks(kids, 0)) && Holds(img, KidChunks(kids, 0))
    ensures Rest(Native(img), pos, |kids|, 0, 0) == Entries(TopKidItems(kids))
    decreases |kids|
  {
    hide Inside, TopIn, KidRecord, KidRecords, Fits, Holds, TopNodeOk, Entries, Read, KidChunks, TopKidItems, Rest;
    if kids == [] {
      RestNone(Native(img), pos, 0, 0);
      NoEntries();
      NoTopItems();
    } else {
      var k, rest := kids[0], kids[1..];
      KidChunksStep(img, kids, 0);
      RestStep(img, kids, pos, 0, 0);
      BridgeReads(img, k, bs);
      TopKidsRead(img, rest, pos + RECORD_SIZE, bs);
      TopEntries(kids);
    }
  }

  lemma NoTopItems()
    ensures TopKidItems([]) == []
  {
  }

  lemma TopEntries(kids: seq<Laid>)
    requires kids != []
    ensures Entries(TopKidItems(kids)) ==
      [Entry(KidRecord(kids[0]), 0, 0)] + (Entries(TopIn(kids[0])) + Entries(TopKidItems(kids[1..])))
  {
    hide TopIn, KidRecord, Entries;
    var item := KidItem(kids[0], 0, 0, 0);
    EntriesConcat([item], TopIn(kids[0]) + TopKidItems(kids[1..]));
    EntriesConcat(TopIn(kids[0]), TopKidItems(kids[1..]));
    OneEntry(item);
  }

  ghost predicate TopOk(l: LaidDir, bs: nat) {
    && bs > 0 && DirOk(l, bs) && l.base == 0
    && forall i | 0 <= i < |l.kids| :: l.kids[i].LaidSub? ==> Aimed(l.kids[i].dir)
  }

  lemma TopReads(img: Image, l: LaidDir, bs: nat)
    requires TopOk(l, bs) && Fits(DirChunks(l)) && Holds(img, DirChunks(l))
    requires forall i | 0 <= i < |l.kids| :: NoTables(img, l.kids[i])
    ensures IsTable(ReadEntry(Native(img), l.table)) && Table(Native(img), l.table, 0, 0) == Entries(TopItems(l))
  {
    hide Rest, TopKidItems, KidChunks, KidRecords, Fits, Entries, Get, InterconnectRecord, SmallKids, Based, Aimed;
    hide NoTables, NodeOk;
    TableHeld(img, l);
    InterconnectFields(|l.kids| + 1, l.last, l.product);
    DirKidsOk(l, bs);
    TopKidsRead(img, l.kids, l.table + RECORD_SIZE, bs);
    var item := Item(Entry(HeadRecord(l), 0, 0), None, l.base);
    EntriesConcat([item], TopKidItems(l.kids));
    OneEntry(item);
    assert Add64(l.table, RECORD_SIZE) == l.table + RECORD_SIZE;
  }

  // Against the whole tree.

  /** No directories in this one. */
  predicate Flat(l: LaidDir) {
    forall i | 0 <= i < |l.kids| :: l.kids[i].LaidFile?
  }

  /** A bridge away from its table leads to files only. */
  predicate Legible(l: LaidDir) {
    LegibleKids(l.kids)
  }

  predicate LegibleKids(kids: seq<Laid>) {
    forall i | 0 <= i < |kids| :: IsDisplaced(kids[i]) ==> Flat(kids[i].dir)
  }

  /** Listing the directories of a table as leaves leaves something out exactly if there
  are any. */
  lemma {:induction false} LeavesIff(kids: seq<Laid>, at: nat, base: u64, d: nat)
    requires d + 1 < DEPTH
    ensures var all, leaves := KidItems(kids, at, base, d), Leaves(kids, at, base, d);
      && |leaves| <= |all| && (forall x | x in leaves :: x in all)
      && (|leaves| == |all| <==> forall i | 0 <= i < |kids| :: kids[i].LaidFile?)
      && (|leaves| == |all| ==> leaves == all)
    decreases |kids|
  {
    hide KidItem, DirItems;
    if kids != [] {
      var k, rest := kids[0], kids[1..];
      LeavesIff(rest, at, base, d);
      SomeItems(k, base, d);
      var item, inside := KidItem(k, at, base, d), InItems(k, base, d);
      hide InItems;
      assert KidItems(kids, at, base, d) == [item] + (inside + KidItems(rest, at, base, d));
      assert forall i | 0 <= i < |rest| :: rest[i] == kids[i + 1];
      if k.LaidFile? {
        assert inside + KidItems(rest, at, base, d) == KidItems(rest, at, base, d);
      }
    }
  }

  /** A directory within reach contributes at least its table's head. */
  lemma SomeItems(k: Laid, base: u64, d: nat)
    requires d + 1 < DEPTH
    ensures InItems(k, base, d) == [] <==> k.LaidFile?
  {
    hide KidItems;
  }

  lemma BridgeItemsIff(k: Laid)
    ensures var all, top := InItems(k, 0, 0), TopIn(k);
      && |top| <= |all| && (forall x | x in top :: x in all)
      && (|top| == |all| <==> (IsDisplaced(k) ==> Flat(k.dir)))
      && (|top| == |all| ==> top == all)
  {
    hide KidItems, Leaves, HeadRecord;
    if IsDisplaced(k) {
      LeavesIff(k.dir.kids, k.dir.base, Add64(0, k.first), 1);
    }
  }

  lemma {:induction false} TopKidItemsIff(kids: seq<Laid>)
    ensures var all, top := KidItems(kids, 0, 0, 0), TopKidItems(kids);
      && |top| <= |all| && (forall x | x in top :: x in all)
      && (|top| == |all| <==> LegibleKids(kids))
      && (|top| == |all| ==> top == all)
    decreases |kids|
  {
    hide KidItem, InItems, TopIn, Flat, IsDisplaced;
    if kids != [] {
      var k, rest := kids[0], kids[1..];
      BridgeItemsIff(k);
      TopKidItemsIff(rest);
      assert forall i | 0 <= i < |rest| :: rest[i] == kids[i + 1];
    }
  }

  /** The scan returns some of the tree's records, in order; all of them if and only if no
  displaced directory has a directory inside. */
  lemma TopItemsIff(l: LaidDir)
    requires l.base == 0
    ensures var all, top := DirItems(l, 0, 0), TopItems(l);
      && |top| <= |all| && (forall x | x in top :: x in all)
      && (|top| == |all| <==> Legible(l))
      && (|top| == |all| ==> top == all)
  {
    hide KidItems, TopKidItems, LegibleKids, HeadRecord;
    TopKidItemsIff(l.kids);
  }

  // Where the entries say their files are.

  predicate HasFile(l: LaidDir) {
    exists i | 0 <= i < |l.kids| :: Payload(l.kids[i]).Some?
  }

  /** A bridge away from its table leads to no file. */
  predicate Straight(l: LaidDir) {
    StraightKids(l.kids)
  }

  predicate StraightKids(kids: seq<Laid>) {
    forall i | 0 <= i < |kids| :: IsDisplaced(kids[i]) ==> !HasFile(kids[i].dir)
  }

  lemma {:induction false} LeavesInPlaceIff(kids: seq<Laid>, at: nat, base: u64, bs: nat, d: nat)
    requires KidsOk(kids, at, bs) && base < TWO32 && at != base
    ensures AllInPlace(Leaves(kids, at, base, d)) <==> forall i | 0 <= i < |kids| :: Payload(kids[i]).None?
    decreases |kids|
  {
    hide SmallNode, BasedNode, KidItem, Payload, AllInPlace;
    if kids == [] {
      NothingMisplaced();
    } else {
      var k, rest := kids[0], kids[1..];
      assert NodeOk(k, at, bs);
      OneInPlace(k, at, base, bs, d);
      LeavesInPlaceIff(rest, at, base, bs, d);
      InPlaceConcat([KidItem(k, at, base, d)], Leaves(rest, at, base, d));
      assert forall i | 0 <= i < |rest| :: rest[i] == kids[i + 1];
    }
  }

  /** The contents of one entry of the top directory. */
  lemma BridgeInPlaceIff(k: Laid, bs: nat)
    requires bs > 0 && NodeOk(k, 0, bs) && (k.LaidSub? ==> Aimed(k.dir))
    ensures AllInPlace(TopIn(k)) <==> (IsDisplaced(k) ==> !HasFile(k.dir))
  {
    hide SmallKids, Based, Aimed, DirItems, Leaves, HeadRecord, AllInPlace, Payload;
    if IsDisplaced(k) {
      var l := k.dir;
      assert Add64(0, k.first) == k.first;
      var head := Item(Entry(HeadRecord(l), k.first, 1), None, l.base);
      DirKidsOk(l, bs);
      LeavesInPlaceIff(l.kids, l.base, k.first, bs, 1);
      HeadInPlace(head);
      InPlaceConcat([head], Leaves(l.kids, l.base, k.first, 1));
    } else if k.LaidSub? {
      AimedInPlace(k.dir, bs, 1);
    } else {
      NothingMisplaced();
    }
  }

  lemma {:induction false} TopKidsInPlaceIff(kids: seq<Laid>, bs: nat)
    requires bs > 0 && KidsOk(kids, 0, bs)
    requires forall i | 0 <= i < |kids| :: kids[i].LaidSub? ==> Aimed(kids[i].dir)
    ensures AllInPlace(TopKidItems(kids)) <==> StraightKids(kids)
    decreases |kids|
  {
    hide SmallNode, BasedNode, Aimed, HasFile, IsDisplaced, KidItem, TopIn, AllInPlace;
    if kids == [] {
      NothingMisplaced();
    } else {
      var k, rest := kids[0], kids[1..];
      assert NodeOk(k, 0, bs);
      OneInPlace(k, 0, 0, bs, 0);
      BridgeInPlaceIff(k, bs);
      TopKidsInPlaceIff(rest, bs);
      InPlaceConcat(TopIn(k), TopKidItems(rest));
      InPlaceConcat([KidItem(k, 0, 0, 0)], TopIn(k) + TopKidItems(rest));
      assert forall i | 0 <= i < |rest| :: rest[i] == kids[i + 1];
    }
  }

  /** Every entry the scan returns says where its file is, if and only if no bridge with a
  file in it was given a position other than the one the allocator had reached. */
  lemma InPlaceIffStraight(l: LaidDir, bs: nat)
    requires TopOk(l, bs)
    ensures AllInPlace(TopItems(l)) <==> Straight(l)
  {
    hide SmallKids, Based, Aimed, TopKidItems, HeadRecord, AllInPlace, StraightKids;
    DirKidsOk(l, bs);
    TopKidsInPlaceIff(l.kids, bs);
    var head := Item(Entry(HeadRecord(l), 0, 0), None, l.base);
    HeadInPlace(head);
    InPlaceConcat([head], TopKidItems(l.kids));
  }

  // The image of a tree.

  /** Nothing is stored where a directory inside a displaced one is looked for. */
  ghost predicate Clear(l: LaidDir) {
    forall i | 0 <= i < |l.kids| && IsDisplaced(l.kids[i]) ::
      ClearKids(l, Add64(0, l.kids[i].first), l.kids[i].dir.kids)
  }

  ghost predicate ClearKids(l: LaidDir, base: u64, kids: seq<Laid>) {
    forall j | 0 <= j < |kids| && kids[j].LaidSub? ::
      ClearOf(Span(Add64(base, kids[j].child), RECORD_SIZE), DirChunks(l))
  }

  lemma LegibleClear(l: LaidDir)
    requires Legible(l)
    ensures Clear(l)
  {
    forall i | 0 <= i < |l.kids| && IsDisplaced(l.kids[i])
      ensures ClearKids(l, Add64(0, l.kids[i].first), l.kids[i].dir.kids)
    {
      assert Flat(l.kids[i].dir);
    }
  }

  /** Where nothing was written there is no table. */
  lemma BlankIsNoTable(cs: seq<Chunk>, a: u64)
    requires Fits(cs) && ClearOf(Span(a, RECORD_SIZE), cs)
    ensures !IsTable(ReadEntry(Native(PutAll(map[], cs)), a))
  {
    hide Fits, PutAll;
    var img := PutAll(map[], cs);
    forall k | a <= k < a + RECORD_SIZE
      ensures Get(img, k) == 0
    {
      forall i | 0 <= i < |cs|
        ensures !cs[i].Reserved().Has(k)
      {
        assert Apart(Span(a, RECORD_SIZE), cs[i].Reserved());
      }
      PutAllOutside(map[], cs, k);
    }
    var rec := ReadEntry(Native(img), a);
    assert forall i | 0 <= i < 4 :: rec[..4][i] == 0;
    ZeroBytes(rec[..4]);
  }

  lemma ZeroBytes(b: seq<byte>)
    requires |b| == 4 && forall i | 0 <= i < 4 :: b[i] == 0
    ensures NatBE(b) == 0
  {
    assert b == [0, 0, 0, 0];
    assert BytesBE(0, 4) == [0, 0, 0, 0];
    Pow256Widths();
    NatBytesBE(0, 4);
  }

  lemma ClearNoTables(l: LaidDir)
    requires Fits(DirChunks(l)) && Clear(l)
    ensures forall i | 0 <= i < |l.kids| :: NoTables(PutAll(map[], DirChunks(l)), l.kids[i])
  {
    hide Fits, PutAll, DirChunks, IsTable, ReadEntry, ClearOf;
    forall i | 0 <= i < |l.kids| && IsDisplaced(l.kids[i])
      ensures NoTables(PutAll(map[], DirChunks(l)), l.kids[i])
    {
      var base, kids := Add64(0, l.kids[i].first), l.kids[i].dir.kids;
      forall j | 0 <= j < |kids| && kids[j].LaidSub?
        ensures !IsTable(ReadEntry(Native(PutAll(map[], DirChunks(l))), Add64(base, kids[j].child)))
      {
        BlankIsNoTable(DirChunks(l), Add64(base, kids[j].child));
      }
    }
  }

  /** What a scan of the tree's image returns. */
  function Scanned(d: Dir, table: nat, bs: nat): (items: seq<Item>)
    requires bs > 0
    ensures items != []
  {
    TopItems(Lay(d, 0, table, bs))
  }

  lemma TopLaid(d: Dir, table: nat, bs: nat)
    requires Buildable(d, table, bs)
    ensures TopOk(Lay(d, 0, table, bs), bs)
  {
    hide Lay, Small, DirChunks, AllApart, Based, Aimed, TopFixed, Sized, Placed;
    LayBased(d, 0, table, bs);
    TopAimed(d, table, bs);
  }

  /** Of every tree laid out without overlap, and with nothing where directories inside
  displaced ones are looked for: what a scan of the image returns; that the image holds
  each of the files; that the scan returns all records of the tree exactly if no displaced
  directory has one inside; and that it says where the files are exactly if no displaced
  directory has a file inside. */
  lemma ImageRoundTrip(d: Dir, table: nat, bs: nat)
    requires Buildable(d, table, bs) && Clear(Lay(d, 0, table, bs))
    ensures var img := Built(d, table, bs);
      && IsTable(ReadEntry(Native(img), table))
      && Table(Native(img), table, 0, 0) == Entries(Scanned(d, table, bs))
      && ItemsHeld(img, Scanned(d, table, bs))
      && (Table(Native(img), table, 0, 0) == Entries(Items(d, table, bs)) <==> Legible(Lay(d, 0, table, bs)))
    ensures Legible(Lay(d, 0, table, bs)) ==> Scanned(d, table, bs) == Items(d, table, bs)
    ensures AllInPlace(Scanned(d, table, bs)) <==> Straight(Lay(d, 0, table, bs))
  {
    hide LayKids, RoundUp, Small, DirChunks, AllApart, Fits, Holds, Table, DirItems, TopItems, ItemsHeld, AllInPlace;
    hide Based, Aimed, PutAll, ReadEntry, TopFixed, Sized, Legible, Straight, Clear, NoTables;
    var l, img := Lay(d, 0, table, bs), Built(d, table, bs);
    BuiltHolds(d, table, bs);
    TopLaid(d, table, bs);
    ClearNoTables(l);
    TopReads(img, l, bs);
    DirHeld(img, l, 0, bs, 0);
    TopItemsIff(l);
    HeldSome(img, DirItems(l, 0, 0), TopItems(l));
    InPlaceIffStraight(l, bs);
  }

  lemma HeldSome(img: Image, all: seq<Item>, some: seq<Item>)
    requires ItemsHeld(img, all) && forall x | x in some :: x in all
    ensures ItemsHeld(img, some)
  {
    hide ItemHeld;
    forall i | 0 <= i < |some|
      ensures ItemHeld(img, some[i])
    {
      assert some[i] in some;
    }
  }

  /** Without a position on any directory all entries say where their files are. */
  lemma UndisplacedInPlace(d: Dir, table: nat, bs: nat)
    requires bs > 0 && forall i | 0 <= i < |d.kids| :: d.kids[i].Sub? ==> d.kids[i].place.Auto?
    ensures var l := Lay(d, 0, table, bs); Legible(l) && Straight(l)
  {
    hide LayKids, RoundUp, Flat, HasFile;
    forall i | 0 <= i < |d.kids|
      ensures var k := Lay(d, 0, table, bs).kids[i]; k.LaidSub? ==> k.first == k.child
    {
      KidAt(d.kids, 0, FirstPos(d, table, bs), bs, i);
    }
  }

  // Single files and directories under a displaced bridge, in every tree.

  /** All records of a table are listed, and all that is inside them. */
  lemma {:induction false} RestHas(img: Image, kids: seq<Laid>, pos: u64, base: u64, d: nat, i: nat)
    requires d < DEPTH && i < |kids| && pos + RECORD_SIZE * (|kids| + 1) <= TWO64
    requires Read(img, pos, RECORD_SIZE * |kids|) == KidRecords(kids)
    ensures var es := Rest(Native(img), pos, |kids|, base, d);
      && Entry(KidRecord(kids[i]), base, d) in es
      && forall e | e in Inside(Native(img), KidRecord(kids[i]), base, d) :: e in es
    decreases |kids|
  {
    hide Inside, KidRecord, KidRecords, Read, Rest;
    RestStep(img, kids, pos, base, d);
    if i > 0 {
      RestHas(img, kids[1..], pos + RECORD_SIZE, base, d, i - 1);
    }
  }

  /** The table of a directory, wherever the reader believes the directory to be. */
  lemma TableHas(img: Image, l: LaidDir, base: u64, bs: nat, d: nat, i: nat)
    requires d < DEPTH && Small(l, bs) && i < |l.kids|
    requires Fits(DirChunks(l)) && Holds(img, DirChunks(l))
    ensures var dev, pos := Native(img), l.base + l.table;
      && IsTable(ReadEntry(dev, pos))
      && Entry(KidRecord(l.kids[i]), base, d) in Table(dev, pos, base, d)
      && forall e | e in Inside(dev, KidRecord(l.kids[i]), base, d) :: e in Table(dev, pos, base, d)
  {
    hide Rest, Inside, KidChunks, KidRecords, KidRecord, Fits, Get, InterconnectRecord, SmallKids;
    var pos := l.base + l.table;
    TableHeld(img, l);
    InterconnectFields(|l.kids| + 1, l.last, l.product);
    RestHas(img, l.kids, pos + RECORD_SIZE, base, d, i);
    assert Add64(pos, RECORD_SIZE) == pos + RECORD_SIZE;
  }

  lemma {:induction false} KidHolds(img: Image, kids: seq<Laid>, at: nat, i: nat)
    requires i < |kids| && Fits(KidChunks(kids, at)) && Holds(img, KidChunks(kids, at))
    ensures Fits(NodeChunks(kids[i], at)) && Holds(img, NodeChunks(kids[i], at))
    decreases |kids|
  {
    hide Fits, Holds, NodeChunks, KidChunks;
    KidChunksStep(img, kids, at);
    if i > 0 {
      KidHolds(img, kids[1..], at, i - 1);
    }
  }

  /** What is stored for one directory of the top one. */
  lemma BridgeHolds(img: Image, l: LaidDir, bs: nat, i: nat)
    requires DirOk(l, bs) && l.base == 0 && Fits(DirChunks(l)) && Holds(img, DirChunks(l))
    requires i < |l.kids| && l.kids[i].LaidSub?
    ensures var k := l.kids[i];
      && NodeOk(k, 0, bs) && DirOk(k.dir, bs) && k.dir.base == k.child && k.dir.table == 0
      && Fits(DirChunks(k.dir)) && Holds(img, DirChunks(k.dir))
  {
    hide DirChunks, KidChunks, Fits, Holds, Based, SmallKids;
    DirKidsOk(l, bs);
    assert NodeOk(l.kids[i], 0, bs);
    TableHeld(img, l);
    KidHolds(img, l.kids, 0, i);
    assert NodeChunks(l.kids[i], 0) == DirChunks(l.kids[i].dir);
  }

  /** Record `j` of the top directory's bridge `i` is listed at the bridge's own position. */
  lemma BridgeRecordListed(img: Image, l: LaidDir, bs: nat, i: nat, j: nat)
    requires bs > 0 && DirOk(l, bs) && l.base == 0 && Fits(DirChunks(l)) && Holds(img, DirChunks(l))
    requires i < |l.kids| && l.kids[i].LaidSub? && j < |l.kids[i].dir.kids|
    ensures var k := l.kids[i];
      k.first < TWO64 && Entry(KidRecord(k.dir.kids[j]), k.first, 1) in Table(Native(img), l.table, 0, 0)
  {
    hide DirChunks, Fits, Holds, Table, Based, ReadEntry, IsTable, KidRecord, SmallKids, Inside, NodeChunks;
    var k := l.kids[i];
    BridgeHolds(img, l, bs, i);
    TableHas(img, l, 0, bs, 0, i);
    TableHas(img, k.dir, k.first, bs, 1, j);
    BridgeInside(img, k, bs);
  }

  /** File `j` of the top directory's bridge `i`, as the scanner lists it. */
  lemma BridgeFileRead(img: Image, l: LaidDir, bs: nat, i: nat, j: nat)
    requires bs > 0 && DirOk(l, bs) && l.base == 0 && Fits(DirChunks(l)) && Holds(img, DirChunks(l))
    requires i < |l.kids| && l.kids[i].LaidSub? && j < |l.kids[i].dir.kids|
    ensures var k := l.kids[i];
      && k.first < TWO64
      && var it := KidItem(k.dir.kids[j], k.child, k.first, 1);
         && it.e in Table(Native(img), l.table, 0, 0) && ItemHeld(img, it)
         && (InPlace(it) <==> it.payload.None? || k.first == k.child)
  {
    hide DirChunks, KidChunks, Fits, Holds, Table, Based, KidRecord, SmallKids, ItemHeld, InPlace, Payload, NodeChunks;
    var k := l.kids[i];
    BridgeHolds(img, l, bs, i);
    BridgeRecordListed(img, l, bs, i, j);
    TableHeld(img, k.dir);
    KidHolds(img, k.dir.kids, k.child, j);
    DirKidsOk(k.dir, bs);
    var f := k.dir.kids[j];
    assert NodeOk(f, k.child, bs);
    FileHeld(img, f, k.child, k.first, bs, 1);
    FileInPlaceIff(f, k.child, k.first, bs, 1);
  }

  /** Every file directly below a bridge of the top directory is listed with the bridge's
  own position as base, whatever else is in the tree; so its entry says where the file is
  if and only if that position is the one the allocator had reached. */
  lemma BridgeFileListed(d: Dir, table: nat, bs: nat, i: nat, j: nat)
    requires Buildable(d, table, bs) && i < |d.kids| && d.kids[i].Sub?
    requires j < |d.kids[i].dir.kids| && d.kids[i].dir.kids[j].File?
    ensures var img, k := Built(d, table, bs), Lay(d, 0, table, bs).kids[i];
      && k.LaidSub? && k.first < TWO64 && |k.dir.kids| == |d.kids[i].dir.kids|
      && var it := KidItem(k.dir.kids[j], k.child, k.first, 1);
         && it.e in Table(Native(img), table, 0, 0)
         && it.payload.Some? && ItemHeld(img, it)
         && (it.e.Offset() == it.stored <==> k.first == k.child)
  {
    hide LayKids, RoundUp, DirChunks, AllApart, Fits, Holds, PutAll, Table, Based, KidRecord, Small, TopFixed, ItemHeld;
    var l, sub := Lay(d, 0, table, bs), d.kids[i].dir;
    var pos := PosAt(d.kids, 0, FirstPos(d, table, bs), bs, i);
    KidAt(d.kids, 0, FirstPos(d, table, bs), bs, i);
    assert l.kids[i].dir == Lay(sub, pos, 0, bs);
    KidAt(sub.kids, pos, FirstPos(sub, 0, bs), bs, j);
    assert SizedNode(d.kids[i]);
    assert Sized(sub);
    assert SizedNode(sub.kids[j]);
    BuiltHolds(d, table, bs);
    LayBased(d, 0, table, bs);
    BridgeFileRead(Built(d, table, bs), l, bs, i, j);
  }

  lemma BridgeInside(img: Image, k: Laid, bs: nat)
    requires bs > 0 && k.LaidSub? && SmallNode(k, bs) && IsTable(ReadEntry(Native(img), k.child))
    ensures Inside(Native(img), KidRecord(k), 0, 0) == Table(Native(img), k.child, k.first, 1)
  {
    hide Table, Inside, KidRecord, ReadEntry, IsTable, Small;
    SubInside(Native(img), k, 0, bs, 0);
    assert Add64(0, k.child) == k.child && Add64(0, k.first) == k.first;
  }

  /** A directory inside a displaced one is listed, but nothing of what it holds, as long
  as nothing is stored where it is looked for. */
  lemma NestedMissed(d: Dir, table: nat, bs: nat, i: nat, j: nat)
    requires Buildable(d, table, bs) && i < |d.kids| && d.kids[i].Sub?
    requires j < |d.kids[i].dir.kids| && d.kids[i].dir.kids[j].Sub?
    requires var l := Lay(d, 0, table, bs);
      && l.kids[i].LaidSub? && j < |l.kids[i].dir.kids| && l.kids[i].dir.kids[j].LaidSub?
      && ClearOf(Span(Add64(Add64(0, l.kids[i].first), l.kids[i].dir.kids[j].child), RECORD_SIZE), DirChunks(l))
    ensures var img, k := Built(d, table, bs), Lay(d, 0, table, bs).kids[i];
      && k.first < TWO64
      && var m := k.dir.kids[j];
         && Entry(KidRecord(m), k.first, 1) in Table(Native(img), table, 0, 0)
         && Inside(Native(img), KidRecord(m), k.first, 1) == []
  {
    hide Lay, DirChunks, AllApart, Fits, Holds, PutAll, Table, Inside, Based, KidRecord, TopFixed, Sized;
    hide ReadEntry, IsTable, ClearOf, SmallKids;
    var l, img := Lay(d, 0, table, bs), Built(d, table, bs);
    var k := l.kids[i];
    var m := k.dir.kids[j];
    BuiltHolds(d, table, bs);
    TopLaid(d, table, bs);
    BridgeRecordListed(img, l, bs, i, j);
    DirKidsOk(l, bs);
    assert NodeOk(k, 0, bs);
    DirKidsOk(k.dir, bs);
    assert NodeOk(m, k.dir.base, bs);
    assert Add64(0, k.first) == k.first;
    BlankIsNoTable(DirChunks(l), Add64(k.first, m.child));
    NotInside(img, m, k.first, bs, 1);
  }

  /** Every file of the top directory is stored, with its padding, where the user wants it
  or where the allocator had got to, and is listed there. */
  lemma TopFileStored(d: Dir, table: nat, bs: nat, i: nat)
    requires Buildable(d, table, bs) && i < |d.kids| && d.kids[i].File?
    ensures var n, img := d.kids[i], Built(d, table, bs);
      var start := Lay(d, 0, table, bs).kids[i].first;
      && (n.place.Fixed? ==> start == n.place.start)
      && |n.content| <= n.size && Read(img, start, n.size) == n.content + Zeros(n.size - |n.content|)
      && exists e :: e in Table(Native(img), table, 0, 0) && e.depth == 0 && e.Offset() == start
                     && RangeLength(e.rec) == n.size && Name(e.rec) == PadName(n.product.name)
  {
    hide Lay, LayKids, RoundUp, DirChunks, AllApart, Fits, Holds, PutAll, Table, Based, KidRecord, TopFixed, Read;
    hide SmallKids;
    var l, img := Lay(d, 0, table, bs), Built(d, table, bs);
    KidLaid(d, 0, table, bs, i);
    BuiltHolds(d, table, bs);
    TopLaid(d, table, bs);
    assert SizedNode(d.kids[i]);
    TopFileRead(img, l, bs, i);
  }

  lemma TopFileRead(img: Image, l: LaidDir, bs: nat, i: nat)
    requires bs > 0 && DirOk(l, bs) && l.base == 0 && Fits(DirChunks(l)) && Holds(img, DirChunks(l))
    requires i < |l.kids| && l.kids[i].LaidFile? && |l.kids[i].content| <= l.kids[i].size
    ensures var k := l.kids[i];
      && Read(img, k.first, k.size) == k.content + Zeros(k.size - |k.content|)
      && exists e :: e in Table(Native(img), l.table, 0, 0) && e.depth == 0 && e.Offset() == k.first
                     && RangeLength(e.rec) == k.size && Name(e.rec) == PadName(k.product.name)
  {
    hide DirChunks, KidChunks, NodeChunks, Fits, Holds, Table, Based, SmallKids, Read, Inside, KidRecord, AddrFirst;
    hide AddrLast, Name, PadName, RangeLength;
    var k := l.kids[i];
    DirKidsOk(l, bs);
    assert NodeOk(k, 0, bs);
    TableHeld(img, l);
    KidHolds(img, l.kids, 0, i);
    TableHas(img, l, 0, bs, 0, i);
    FileHeld(img, k, 0, 0, bs, 0);
    FileRange(k, bs);
    FileName(k, bs);
    var e := Entry(KidRecord(k), 0, 0);
    assert e in Table(Native(img), l.table, 0, 0);
  }

  lemma FileRange(k: Laid, bs: nat)
    requires bs > 0 && SmallNode(k, bs) && k.LaidFile?
    ensures RangeLength(KidRecord(k)) == k.size && Entry(KidRecord(k), 0, 0).Offset() == k.first
  {
    hide KidRecord, AddrFirst, AddrLast;
    KidRange(k, bs);
  }

  lemma FileName(k: Laid, bs: nat)
    requires SmallNode(k, bs) && k.LaidFile?
    ensures Name(KidRecord(k)) == PadName(k.product.name)
  {
    hide Name, PadName, BytesBE, Assemble;
    AssembledParts([0, 0, 0, 0] + BytesBE(k.flags, 4), k.first, k.Last(), k.product, TYPE_DEVICE);
  }

  // Two trees.

  lemma LayEmpty(p: Product, base: nat)
    ensures Lay(Dir(p, []), base, 0, 64) == LaidDir(p, base, 0, [], 64)
    ensures DirChunks(Lay(Dir(p, []), base, 0, 64)) == [Chunk(base, 64, TableBytes(LaidDir(p, base, 0, [], 64)))]
  {
    hide TableBytes;
  }

  /** A directory with one entry, in blocks of 64. */
  lemma LaySingle(p: Product, n: Node, base: nat)
    ensures var l, k := Lay(Dir(p, [n]), base, 0, 64), LayNode(n, base, 128, 64);
      && l == LaidDir(p, base, 0, [k], Max(128, k.Last()))
      && DirChunks(l) == [Chunk(base, 128, TableBytes(l))] + NodeChunks(k, base)
  {
    hide TableBytes, LayNode, NodeChunks;
    assert FirstPos(Dir(p, [n]), 0, 64) == 128;
    LayOne(n, base, 128, 64);
    LastOne(LayNode(n, base, 128, 64), 128);
    ChunksOne(LayNode(n, base, 128, 64), base);
  }

  /** One file, in a directory that was given a position of its own. */
  function Adrift(p: Product): Dir {
    Dir(p, [Sub(p, 0, Fixed(4096), Dir(p, [File(p, 4, 1, Auto, [7])]))])
  }

  lemma AdriftLaid(p: Product)
    ensures var f := LaidFile(p, 128, 1, false, 4, [7]);
      var inner := LaidDir(p, 128, 0, [f], 128);
      var l := Lay(Adrift(p), 0, 0, 64);
      && l == LaidDir(p, 0, 0, [LaidSub(p, 4096, 128, true, 128, inner)], 4223)
      && DirChunks(l) == [Chunk(0, 128, TableBytes(l)), Chunk(128, 128, TableBytes(inner)), Chunk(256, 1, [7])]
  {
    hide TableBytes, Lay, DirChunks;
    var one := File(p, 4, 1, Auto, [7]);
    var n := Sub(p, 0, Fixed(4096), Dir(p, [one]));
    LaySingle(p, one, 128);
    LaySingle(p, n, 0);
  }

  /** The file is listed, but not where it is: the image of this tree holds it at 256, and
  the entry says 4224. */
  lemma AdriftMisplaced(p: Product)
    ensures var l := Lay(Adrift(p), 0, 0, 64);
      Buildable(Adrift(p), 0, 64) && Clear(l) && Legible(l) && !Straight(l)
  {
    hide TableBytes, Lay, DirChunks;
    var d := Adrift(p);
    var l := Lay(d, 0, 0, 64);
    AdriftLaid(p);
    var one := File(p, 4, 1, Auto, [7]);
    assert AutoNode(one);
    assert Autos(d.kids[0].dir);
    assert SizedNode(one) && SizedNode(d.kids[0]);
    var k := l.kids[0];
    assert Flat(k.dir) && Payload(k.dir.kids[0]).Some?;
    LegibleClear(l);
    SmallSingle(k.dir, 64);
    SmallSingle(l, 64);
  }

  lemma SmallSingle(l: LaidDir, bs: nat)
    requires |l.kids| == 1 && 0 <= l.last < TWO32 && l.base < TWO32 && l.table + 128 + bs <= TWO32
    requires SmallNode(l.kids[0], bs)
    ensures Small(l, bs)
  {
    assert l.kids[1..] == [];
  }

  /** A directory in a directory that was given a position of its own. */
  function Deep(p: Product): Dir {
    Dir(p, [Sub(p, 0, Fixed(65536), Dir(p, [Sub(p, 0, Auto, Dir(p, []))]))])
  }

  lemma DeepLaid(p: Product)
    ensures var none := LaidDir(p, 256, 0, [], 64);
      var inner := LaidDir(p, 128, 0, [LaidSub(p, 128, 64, false, 128, none)], 191);
      var l := Lay(Deep(p), 0, 0, 64);
      && l == LaidDir(p, 0, 0, [LaidSub(p, 65536, 191, true, 128, inner)], 65726)
      && DirChunks(l) ==
         [Chunk(0, 128, TableBytes(l)), Chunk(128, 128, TableBytes(inner)), Chunk(256, 64, TableBytes(none))]
  {
    hide TableBytes, Lay, DirChunks;
    var m := Sub(p, 0, Auto, Dir(p, []));
    var n := Sub(p, 0, Fixed(65536), Dir(p, [m]));
    LayEmpty(p, 256);
    LaySingle(p, m, 128);
    LaySingle(p, n, 0);
  }

  /** The innermost directory is never read: the scan returns fewer records than the tree
  has. */
  lemma DeepUnread(p: Product)
    ensures var l := Lay(Deep(p), 0, 0, 64);
      Buildable(Deep(p), 0, 64) && Clear(l) && !Legible(l) && |Scanned(Deep(p), 0, 64)| < |Items(Deep(p), 0, 64)|
  {
    hide TableBytes, Lay, DirChunks, TopItems, DirItems;
    var d := Deep(p);
    var l := Lay(d, 0, 0, 64);
    DeepLaid(p);
    var m := Sub(p, 0, Auto, Dir(p, []));
    assert Autos(m.dir);
    assert AutoNode(m);
    assert Autos(d.kids[0].dir);
    assert SizedNode(m);
    assert SizedNode(d.kids[0]);
    var k := l.kids[0];
    assert k.dir.kids[0].LaidSub? && !Flat(k.dir) && IsDisplaced(k);
    assert Small(k.dir.kids[0].dir, 64);
    SmallSingle(k.dir, 64);
    SmallSingle(l, 64);
    assert Add64(Add64(0, k.first), 128) == 65664;
    TopItemsIff(l);
  }
}
