/** The two command-line tools end to end: gensdbfs builds an image, sdb-read reads it. */
module Tools {
  import opened Basics
  import opened Endian
  import opened Records
  import opened Images
  import opened Listing
  import opened Layout
  import opened Chunks
  import opened Spacing
  import opened Room
  import opened Writer
  import opened Filesystem
  import opened RoundTrip
  import opened Displaced
  import opened Preorder
  import Bits
  import Representation

  /** gensdbfs: allocate, then write. */
  method BuildImage(d: Dir, table: u32, bs: u32, ghost k: nat) returns (img: Image)
    requires k < 32 && bs == Bits.Pow2(k) && TopFixed(d)
    requires Small(Lay(d, 0, table, bs), bs)
    ensures img == Built(d, table, bs)
  {
    hide Lay, Small, DirChunks, Placed, PutAll, TopFixed, Bits.Pow2;
    TopAimed(d, table, bs);
    var l := AllocStorage(d, 0, table, bs, k);
    var out := new OutFile();
    WriteSdb(l, bs, out);
    img := out.bytes;
  }

  /** Build the image of a tree, then list it: the listing shows the tree in preorder if
  and only if no displaced directory has a directory inside. */
  method BuildAndList(d: Dir, table: u32, bs: u32, ghost k: nat) returns (err: int, es: seq<Entry>)
    requires k < 32 && bs == Bits.Pow2(k) && Buildable(d, table, bs) && Clear(Lay(d, 0, table, bs))
    ensures err == OK && es == Entries(Scanned(d, table, bs))
    ensures Views(Scanned(d, table, bs)) == Near(Tree(d, 0)) <==> Legible(Lay(d, 0, table, bs))
  {
    hide Lay, Small, AllApart, Built, Scanned, Table, Entries, ItemsHeld, AllInPlace, Legible, Straight, Recognise;
    hide ReadEntry, Bits.Pow2, TopFixed, Sized, DirChunks, Views, Near, Tree, Height, Clear;
    TreeRoundTrip(d, table, bs);
    var img := BuildImage(d, table, bs, k);
    Representation.NativeRecognised(img, true, table);
    var fs := new Fs(Native(img), table);
    err := fs.DevCreate();
    es := fs.ListAll();
  }

  lemma EntriesTail(items: seq<Item>)
    requires items != []
    ensures Entries(items)[1..] == Entries(items[1..])
  {
  }

  lemma ItemRange(img: Image, items: seq<Item>, i: nat)
    requires ItemsHeld(img, items) && i + 1 < |items|
    ensures var it := items[1..][i];
      && Entries(items[1..])[i] == it.e
      && (it.payload.Some? && InPlace(it) ==> Read(img, it.e.Offset(), RangeLength(it.e.rec)) == it.payload.value)
  {
    assert ItemHeld(img, items[i + 1]);
  }

  /** A record of that name is short enough for its size and the buffer's to be added
  as `int`s. */
  ghost predicate Countable(es: seq<Entry>, name: seq<byte>, n: int) {
    forall e | e in es && Matches(ByName(name), e.rec) :: RangeLength(e.rec) + n <= INT_MAX
  }

  /** The bytes of the entry's range; they are the file if the entry says where it is. */
  ghost predicate CopyOf(img: Image, out: seq<byte>, it: Item) {
    && out == Read(img, it.e.Offset(), RangeLength(it.e.rec))
    && (it.payload.Some? && InPlace(it) ==> out == it.payload.value)
  }

  /** Open a record by name, copy it out and close it, as sdb-read does. */
  method Cat(img: Image, table: u64, name: seq<byte>, n: int, ghost items: seq<Item>)
    returns (err: int, out: seq<byte>)
    requires n > 0 && items != [] && Countable(Entries(items[1..]), name, n)
    requires IsTable(ReadEntry(Native(img), table))
    requires Table(Native(img), table, 0, 0) == Entries(items) && ItemsHeld(img, items)
    ensures err == OK || err == -ENOENT
    ensures err == -ENOENT ==> NoMatch(ByName(name), Entries(items[1..]))
    ensures err == OK ==>
      exists i :: IsFirst(ByName(name), Entries(items[1..]), i) && CopyOf(img, out, items[1..][i])
  {
    hide Table, Entries, Recognise, ReadEntry, Matches, RangeLength, Read, ItemsHeld, InPlace;
    EntriesTail(items);
    out := [];
    Representation.NativeRecognised(img, true, table);
    var fs := new Fs(Native(img), table);
    err := fs.DevCreate();
    err := fs.Open(ByName(name));
    if err == OK {
      ghost var i :|
        && IsFirst(ByName(name), Entries(items[1..]), i) && fs.At(Entries(items[1..])[i])
        && fs.fLen == RangeLength(Entries(items[1..])[i].rec) && fs.readOffset == 0;
      ItemRange(img, items, i);
      out := fs.Cat(n);
      fs.Close();
      assert CopyOf(img, out, items[1..][i]);
    }
  }

  // The same in terms of the tree.

  predicate Finds(q: seq<byte>, s: Seen) {
    var name := s.product.name;
    |q| <= NAME_LEN == |name| && name[..|q|] == q && (|q| < NAME_LEN ==> name[|q|] == BLANK)
  }

  /** `i` is the first after the root that the query finds. */
  ghost predicate FirstFound(q: seq<byte>, t: seq<Seen>, i: int) {
    1 <= i < |t| && Finds(q, t[i]) && forall j | 1 <= j < i :: !Finds(q, t[j])
  }

  lemma FoundInTree(q: seq<byte>, items: seq<Item>)
    requires items != []
    ensures forall i | 0 <= i < |items| - 1 ::
      Matches(ByName(q), Entries(items[1..])[i].rec) <==> Finds(q, Views(items)[i + 1])
  {
    forall i | 0 <= i < |items| - 1
      ensures Matches(ByName(q), Entries(items[1..])[i].rec) <==> Finds(q, Views(items)[i + 1])
    {
      assert items[1..][i] == items[i + 1];
    }
  }

  lemma FirstInTree(q: seq<byte>, items: seq<Item>, i: int)
    requires items != [] && IsFirst(ByName(q), Entries(items[1..]), i)
    ensures FirstFound(q, Views(items), i + 1)
  {
    hide Matches, Finds, Entries, Views;
    FoundInTree(q, items);
    forall j | 1 <= j < i + 1
      ensures !Finds(q, Views(items)[j])
    {
      assert !Matches(ByName(q), Entries(items[1..])[j - 1].rec);
    }
  }

  lemma NoneInTree(q: seq<byte>, items: seq<Item>)
    requires items != [] && NoMatch(ByName(q), Entries(items[1..]))
    ensures forall j | 1 <= j < |items| :: !Finds(q, Views(items)[j])
  {
    hide Matches, Finds, Entries, Views;
    FoundInTree(q, items);
    forall j | 1 <= j < |items|
      ensures !Finds(q, Views(items)[j])
    {
      assert Entries(items[1..])[j - 1] in Entries(items[1..]);
    }
  }

  /** The first record of the tree with that name; if it is a file, its bytes. */
  ghost predicate TreeCopy(q: seq<byte>, t: seq<Seen>, out: seq<byte>) {
    exists i :: FirstFound(q, t, i) && (t[i].payload.Some? ==> out == t[i].payload.value)
  }

  /** Build the image of a tree, open a file in it by name, and copy it out: the bytes
  are those of the first entry the scan finds under that name. Without displaced
  directories that is the first of the tree. */
  method BuildAndCat(d: Dir, table: u32, bs: u32, ghost k: nat, name: seq<byte>, n: int)
    returns (err: int, out: seq<byte>)
    requires k < 32 && bs == Bits.Pow2(k) && Buildable(d, table, bs) && Clear(Lay(d, 0, table, bs)) && n > 0
    requires Countable(Entries(Scanned(d, table, bs)[1..]), name, n)
    ensures err == OK || err == -ENOENT
    ensures var items := Scanned(d, table, bs)[1..];
      && (err == -ENOENT ==> NoMatch(ByName(name), Entries(items)))
      && (err == OK ==>
          exists i :: IsFirst(ByName(name), Entries(items), i) && CopyOf(Built(d, table, bs), out, items[i]))
    ensures Legible(Lay(d, 0, table, bs)) ==> var t := Near(Tree(d, 0));
      && (err == -ENOENT ==> forall j | 1 <= j < |t| :: !Finds(name, t[j]))
      && (err == OK && Straight(Lay(d, 0, table, bs)) ==> TreeCopy(name, t, out))
  {
    hide Lay, Small, AllApart, Built, Scanned, Table, Entries, ItemsHeld, Legible, Straight, IsTable;
    hide ReadEntry, Bits.Pow2, TopFixed, Sized, DirChunks, Countable, Clear, Matches, Finds, Views, Near, Tree, Height;
    hide NoMatch, CopyOf, FirstFound, TreeCopy, AllInPlace;
    TreeRoundTrip(d, table, bs);
    var img := BuildImage(d, table, bs, k);
    ghost var items := Scanned(d, table, bs);
    err, out := Cat(img, table, name, n, items);
    if err == OK {
      ghost var i :| IsFirst(ByName(name), Entries(items[1..]), i) && CopyOf(img, out, items[1..][i]);
      if Legible(Lay(d, 0, table, bs)) && Straight(Lay(d, 0, table, bs)) {
        CopyInTree(name, img, items, out, i);
      }
    } else {
      NoneInTree(name, items);
    }
  }

  lemma CopyInTree(q: seq<byte>, img: Image, items: seq<Item>, out: seq<byte>, i: int)
    requires items != [] && IsFirst(ByName(q), Entries(items[1..]), i) && AllInPlace(items)
    requires CopyOf(img, out, items[1..][i])
    ensures TreeCopy(q, Views(items), out)
  {
    hide Matches, Finds, InPlace, FirstFound, Read, RangeLength;
    FirstInTree(q, items, i);
    assert items[1..][i] == items[i + 1] && InPlace(items[i + 1]);
    assert FirstFound(q, Views(items), i + 1);
    assert Views(items)[i + 1].payload == items[i + 1].payload;
  }
}
