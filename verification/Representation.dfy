/** The listing depends on nothing but the records at the addresses it visits.

So it is the same for an image read as it is, for one whose 32-bit words are all
byte-swapped, and for either reached through the callback instead of a mapping. */
module Representation {
  import opened Basics
  import opened Endian
  import opened Records
  import opened Images
  import opened Listing
  import opened Filesystem
  import Access

  // All addresses visited satisfy `ok`.

  ghost predicate CoverTable(dev: Device, ok: u64 -> bool, at: u64, base: u64, d: nat)
    requires d < DEPTH
    decreases DEPTH - d, TWO32, 0
  {
    var head := ReadEntry(dev, at);
    ok(at) && CoverRest(dev, ok, Add64(at, RECORD_SIZE), Remaining(head), base, d)
  }

  ghost predicate CoverRest(dev: Device, ok: u64 -> bool, at: u64, n: nat, base: u64, d: nat)
    requires d < DEPTH
    decreases DEPTH - d, n, 1
  {
    n == 0 ||
    (&& ok(at) && CoverInside(dev, ok, ReadEntry(dev, at), base, d)
     && CoverRest(dev, ok, Add64(at, RECORD_SIZE), n - 1, base, d))
  }

  ghost predicate CoverInside(dev: Device, ok: u64 -> bool, rec: Record, base: u64, d: nat)
    requires d < DEPTH
    decreases DEPTH - d, 0, 0
  {
    IsBridge(rec) && d + 1 < DEPTH ==>
      var at := Add64(base, Child(rec));
      ok(at) && (Opens(dev, rec, base, d) ==> CoverTable(dev, ok, at, Add64(base, AddrFirst(rec)), d + 1))
  }

  ghost predicate Agree(dev: Device, dev': Device, ok: u64 -> bool) {
    forall a: u64 | ok(a) :: ReadEntry(dev, a) == ReadEntry(dev', a)
  }

  lemma {:induction false} SameTable(dev: Device, dev': Device, ok: u64 -> bool, at: u64, base: u64, d: nat)
    requires d < DEPTH && Agree(dev, dev', ok) && CoverTable(dev, ok, at, base, d)
    ensures Table(dev, at, base, d) == Table(dev', at, base, d)
    decreases DEPTH - d, TWO32, 0
  {
    hide CoverRest, Rest, Remaining, ReadEntry;
    SameRest(dev, dev', ok, Add64(at, RECORD_SIZE), Remaining(ReadEntry(dev, at)), base, d);
  }

  lemma {:induction false} SameRest(dev: Device, dev': Device, ok: u64 -> bool, at: u64, n: nat, base: u64, d: nat)
    requires d < DEPTH && Agree(dev, dev', ok) && CoverRest(dev, ok, at, n, base, d)
    ensures Rest(dev, at, n, base, d) == Rest(dev', at, n, base, d)
    decreases DEPTH - d, n, 1
  {
    hide CoverInside, Inside, ReadEntry;
    if n > 0 {
      assert ReadEntry(dev, at) == ReadEntry(dev', at);
      SameInside(dev, dev', ok, ReadEntry(dev, at), base, d);
      SameRest(dev, dev', ok, Add64(at, RECORD_SIZE), n - 1, base, d);
    }
  }

  lemma {:induction false} SameInside(dev: Device, dev': Device, ok: u64 -> bool, rec: Record, base: u64, d: nat)
    requires d < DEPTH && Agree(dev, dev', ok) && CoverInside(dev, ok, rec, base, d)
    ensures Inside(dev, rec, base, d) == Inside(dev', rec, base, d)
    decreases DEPTH - d, 0, 0
  {
    hide CoverTable, Table, ReadEntry;
    if IsBridge(rec) && d + 1 < DEPTH {
      var at := Add64(base, Child(rec));
      assert ReadEntry(dev, at) == ReadEntry(dev', at);
      if Opens(dev, rec, base, d) {
        SameTable(dev, dev', ok, at, Add64(base, AddrFirst(rec)), d + 1);
      }
    }
  }

  // Byte-swapped words.

  function SwapImage(img: Image): Image {
    MirrorOneToOne();
    map j | j in img :: Mirror(j) := img[j]
  }

  lemma MirrorOneToOne()
    ensures forall j, k :: Mirror(j) == Mirror(k) ==> j == k
  {
    forall j, k | Mirror(j) == Mirror(k)
      ensures j == k
    {
      MirrorTwice(j);
      MirrorTwice(k);
    }
  }

  lemma GetSwapped(img: Image, k: int)
    ensures Get(SwapImage(img), k) == Get(img, Mirror(k))
  {
    hide Mirror;
    MirrorOneToOne();
    MirrorTwice(k);
    if Mirror(k) in img {
      assert Mirror(Mirror(k)) in SwapImage(img);
    }
  }

  predicate WordAddress(a: u64) {
    a % 4 == 0
  }

  lemma SwappedReads(img: Image, at: int)
    requires at % 4 == 0
    ensures Read(img, at, RECORD_SIZE) == SwapWords(Read(SwapImage(img), at, RECORD_SIZE))
  {
    hide Get, SwapImage, Mirror;
    var s := Read(SwapImage(img), at, RECORD_SIZE);
    forall i | 0 <= i < RECORD_SIZE
      ensures Get(img, at + i) == SwapWords(s)[i]
    {
      MirrorInside(i, RECORD_SIZE);
      GetSwapped(img, at + Mirror(i));
      MirrorShift(at, Mirror(i));
      MirrorTwice(i);
    }
  }

  lemma WordInt(a: u64)
    requires a % 4 == 0
    ensures ToInt32(a) % 4 == 0
  {
  }

  lemma SwappedAgrees(img: Image, mapped: bool)
    ensures Agree(Device(img, mapped, false), Device(SwapImage(img), mapped, true), WordAddress)
  {
    hide Read, SwapWords, SwapImage, ToInt32;
    var dev, dev' := Device(img, mapped, false), Device(SwapImage(img), mapped, true);
    forall a: u64 | WordAddress(a)
      ensures ReadEntry(dev, a) == ReadEntry(dev', a)
    {
      WordInt(a);
      SwappedReads(img, if mapped then a else ToInt32(a));
    }
  }

  // Mapping against callback.

  predicate IntAddress(a: u64) {
    a < 0x8000_0000
  }

  lemma CallbackAgrees(img: Image, convert: bool)
    ensures Agree(Device(img, true, convert), Device(img, false, convert), IntAddress)
  {
    forall a: u64 | IntAddress(a)
      ensures ReadEntry(Device(img, true, convert), a) == ReadEntry(Device(img, false, convert), a)
    {
      assert ToInt32(a) == a;
    }
  }

  // The byte order the library settles on.

  lemma NativeRecognised(img: Image, mapped: bool, entry: u64)
    requires Magic(ReadEntry(Device(img, mapped, false), entry)) == SDB_MAGIC
    ensures Recognise(Device(img, mapped, false), entry) == Some(Device(img, mapped, false))
  {
    var dev := Device(img, mapped, false);
    var b := Fetch(dev, entry, 4);
    assert ReadEntry(dev, entry)[..4] == b;
    hide NatBE, NatLE;
    FourBytes(b, b[0], b[1], b[2], b[3]);
  }

  lemma SwappedRecognised(img: Image, mapped: bool, entry: u64)
    requires Magic(ReadEntry(Device(img, mapped, false), entry)) == SDB_MAGIC && entry % 4 == 0
    ensures Recognise(Device(SwapImage(img), mapped, false), entry) == Some(Device(SwapImage(img), mapped, true))
  {
    hide SwapImage;
    var dev, dev' := Device(img, mapped, false), Device(SwapImage(img), mapped, false);
    var b, b' := Fetch(dev, entry, 4), Fetch(dev', entry, 4);
    var at := if mapped then entry else ToInt32(entry);
    assert ReadEntry(dev, entry)[..4] == b;
    forall i | 0 <= i < 4
      ensures b'[i] == b[3 - i]
    {
      WordInt(entry);
      GetSwapped(img, at + i);
      MirrorShift(at, i);
      assert Mirror(i) == 3 - i;
    }
    hide NatBE, NatLE;
    FourBytes(b, b[0], b[1], b[2], b[3]);
    FourBytes(b', b'[0], b'[1], b'[2], b'[3]);
  }

  /** Whichever way the same tables are stored and reached, the library recognises
  them and lists the same records. */
  lemma RepresentationIndependence(img: Image, entry: u64, swapped: bool, mapped: bool)
    requires var dev := Device(img, true, false);
      && Magic(ReadEntry(dev, entry)) == SDB_MAGIC
      && CoverTable(dev, (a: u64) => WordAddress(a) && (mapped || IntAddress(a)), entry, 0, 0)
    ensures var stored := Device(if swapped then SwapImage(img) else img, mapped, false);
      var seen := Recognise(stored, entry);
      && seen.Some?
      && Table(seen.value, entry, 0, 0) == Table(Device(img, true, false), entry, 0, 0)
  {
    hide SwapImage, Recognise, Table, ReadEntry;
    var ok := (a: u64) => WordAddress(a) && (mapped || IntAddress(a));
    var dev, direct := Device(img, true, false), Device(img, mapped, false);
    assert ok(entry);
    CallbackAgrees(img, false);
    assert Agree(dev, direct, ok);
    SwappedAgrees(img, mapped);
    var seen := if swapped then Device(SwapImage(img), mapped, true) else direct;
    assert Agree(dev, seen, ok);
    if swapped {
      SwappedRecognised(img, mapped, entry);
    } else {
      NativeRecognised(img, mapped, entry);
    }
    SameTable(dev, seen, ok, entry, 0, 0);
  }

  /** No sequence of writes and erases in one record's range changes the listing,
  as long as that range keeps clear of the records the listing visits. */
  lemma ChangesKeepListing(img: Image, convert: bool, w: Span, cs: seq<Access.Change>, entry: u64)
    requires Access.Valid(w, cs)
    requires CoverTable(Device(img, true, convert), (a: u64) => Apart(w, Span(a, RECORD_SIZE)), entry, 0, 0)
    ensures Table(Device(Access.Run(img, w, cs), true, convert), entry, 0, 0) ==
      Table(Device(img, true, convert), entry, 0, 0)
  {
    hide Table, CoverTable, Access.Run, Get;
    var ok := (a: u64) => Apart(w, Span(a, RECORD_SIZE));
    var dev, dev' := Device(img, true, convert), Device(Access.Run(img, w, cs), true, convert);
    forall a: u64 | ok(a)
      ensures ReadEntry(dev, a) == ReadEntry(dev', a)
    {
      forall i | 0 <= i < RECORD_SIZE
        ensures Read(dev.img, a, RECORD_SIZE)[i] == Read(dev'.img, a, RECORD_SIZE)[i]
      {
        Access.RunFrames(img, w, cs, a + i);
      }
      assert Read(dev.img, a, RECORD_SIZE) == Read(dev'.img, a, RECORD_SIZE);
    }
    SameTable(dev, dev', ok, entry, 0, 0);
  }
}
