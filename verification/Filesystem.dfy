/** The library's view of one image: scanning, opening, reading and writing. */
module Filesystem {
  import opened Basics
  import opened Endian
  import opened Records
  import opened Images
  import opened Listing
  import Access

  const OK := 0
  const ENOENT := 2
  const ENOTDIR := 20

  /** What follows the first record of a new scan. When the entry point holds no
  table, the scanner reports that and yet stays ready to walk from its old count. */
  function Walk(dev: Device, entry: u64, stale: nat): seq<Entry> {
    var root := ReadEntry(dev, entry);
    if IsTable(root) then Table(dev, entry, 0, 0)[1..]
    else Inside(dev, root, 0, 0) + Rest(dev, entry, stale, 0, 0)
  }

  lemma RootFirst(dev: Device, entry: u64)
    ensures Table(dev, entry, 0, 0)[0] == Entry(ReadEntry(dev, entry), 0, 0)
  {
    hide ReadEntry, Rest, Remaining;
  }

  /** A little-endian host that reads the magic number as it is must swap words;
  one that reads it backwards need not. */
  function Recognise(dev: Device, entry: u64): Option<Device> {
    if NatLE(Fetch(dev, entry, 4)) == SDB_MAGIC then Some(dev.(convert := true))
    else if NatBE(Fetch(dev, entry, 4)) == SDB_MAGIC then Some(dev)
    else None
  }

  /** A device is recognised exactly if the four bytes at the entry point are the magic
  number in one of the two orders; words are to be swapped exactly for the second. */
  lemma RecognisedIff(dev: Device, entry: u64)
    ensures var b := Fetch(dev, entry, 4);
      && (Recognise(dev, entry).None? <==> b != [0x53, 0x44, 0x42, 0x2d] && b != [0x2d, 0x42, 0x44, 0x53])
      && (b == [0x53, 0x44, 0x42, 0x2d] ==> Recognise(dev, entry) == Some(dev))
      && (b == [0x2d, 0x42, 0x44, 0x53] ==> Recognise(dev, entry) == Some(dev.(convert := true)))
  {
    hide NatLE, NatBE, Read;
    MagicBytes(Fetch(dev, entry, 4));
  }

  lemma MagicBytes(b: seq<byte>)
    requires |b| == 4
    ensures NatBE(b) == SDB_MAGIC <==> b == [0x53, 0x44, 0x42, 0x2d]
    ensures NatLE(b) == SDB_MAGIC <==> b == [0x2d, 0x42, 0x44, 0x53]
  {
    hide NatBE, NatLE;
    var m, r: seq<byte> := [0x53, 0x44, 0x42, 0x2d], [0x2d, 0x42, 0x44, 0x53];
    FourBytes(m, 0x53, 0x44, 0x42, 0x2d);
    FourBytes(r, 0x2d, 0x42, 0x44, 0x53);
    SameNumberSameBytes(b, m);
    SameNumberSameBytes(b, r);
  }

  /** The two ways of opening: by name, or by the raw vendor and device words. */
  datatype Query = ByName(name: seq<byte>) | ById(vid: u64, did: u32)

  predicate Matches(q: Query, rec: Record) {
    match q
    case ByName(name) =>
      && |name| <= NAME_LEN
      && Name(rec)[..|name|] == name
      && (|name| < NAME_LEN ==> Name(rec)[|name|] == BLANK)
    case ById(vid, did) =>
      NatLE(VendorBytes(rec)) == vid && NatLE(DeviceBytes(rec)) == did
  }

  /** A query finds a record, whatever the two names hold, exactly if it fits the field
  and either comes to the same once blank-filled or ends where the name has a blank. */
  lemma NameMatchesIff(q: seq<byte>, name: seq<byte>, rec: Record)
    requires Name(rec) == PadName(name)
    ensures Matches(ByName(q), rec) <==> |q| <= NAME_LEN && (PadName(q) == PadName(name) || q + [BLANK] <= name)
  {
    var p := PadName(name);
    if |q| <= NAME_LEN {
      assert PadName(q)[..|q|] == q;
      if q + [BLANK] <= name {
        assert name[..|q|] == q && name[|q|] == BLANK;
        assert p[..|q|] == q;
      }
      if Matches(ByName(q), rec) && |q| < |name| && |q| < NAME_LEN {
        assert p[..|q|] == name[..|q|] && p[|q|] == name[|q|];
        assert q + [BLANK] == name[..|q| + 1];
      } else if Matches(ByName(q), rec) {
        forall i | 0 <= i < NAME_LEN
          ensures PadName(q)[i] == p[i]
        {
          assert i < |q| ==> p[..|q|][i] == p[i];
        }
      }
    }
  }

  /** A name that fits is matched by nothing but itself if and only if it fills the field
  without a blank. */
  lemma OnlyItselfIff(name: seq<byte>, rec: Record)
    requires Name(rec) == PadName(name) && |name| <= NAME_LEN
    ensures (forall q: seq<byte> | Matches(ByName(q), rec) :: q == name) <==> |name| == NAME_LEN && BLANK !in name
  {
    hide Matches;
    if |name| < NAME_LEN {
      NameMatchesIff(name + [BLANK], name, rec);
      assert PadName(name + [BLANK]) == PadName(name);
      assert Matches(ByName(name + [BLANK]), rec);
    }
    BlankFreeMatches(name, rec);
    if |name| == NAME_LEN && BLANK !in name {
      forall q: seq<byte> | Matches(ByName(q), rec)
        ensures q == name
      {
        NameMatchesIff(q, name, rec);
        if |q| < NAME_LEN {
          NoBlankWithin(q, name);
        }
      }
    }
  }

  lemma NoBlankWithin(q: seq<byte>, name: seq<byte>)
    requires |q| < NAME_LEN && |name| == NAME_LEN && (PadName(q) == PadName(name) || q + [BLANK] <= name)
    ensures BLANK in name
  {
    if PadName(q) == PadName(name) {
      assert name == PadName(q) && name[|q|] == BLANK;
    } else {
      assert name[|q|] == (q + [BLANK])[|q|];
    }
  }

  /** A name with a blank is matched by the part before its first blank. */
  lemma BlankFreeMatches(name: seq<byte>, rec: Record)
    requires Name(rec) == PadName(name) && |name| <= NAME_LEN
    ensures BLANK in name ==> exists q: seq<byte> :: BLANK !in q && q != name && Matches(ByName(q), rec)
  {
    if BLANK in name {
      var i := FirstBlank(name);
      var q := name[..i];
      assert q + [BLANK] == name[..i + 1];
      NameMatchesIff(q, name, rec);
      assert BLANK !in q && q != name && Matches(ByName(q), rec);
    }
  }

  lemma FirstBlank(name: seq<byte>) returns (i: nat)
    requires BLANK in name
    ensures i < |name| && name[i] == BLANK && BLANK !in name[..i]
  {
    i := 0;
    while name[i] != BLANK
      invariant i < |name| && BLANK !in name[..i] && BLANK in name[i..]
      decreases |name| - i
    {
      assert name[i..] == [name[i]] + name[i + 1..];
      assert name[..i + 1] == name[..i] + [name[i]];
      i := i + 1;
    }
  }

  /** Among queries without blanks only the name itself matches, if and only if the name
  has no blank either. */
  lemma BlankFreeIff(name: seq<byte>, rec: Record)
    requires Name(rec) == PadName(name) && |name| <= NAME_LEN
    ensures (forall q: seq<byte> | BLANK !in q && Matches(ByName(q), rec) :: q == name) <==> BLANK !in name
  {
    hide Matches;
    BlankFreeMatches(name, rec);
    if BLANK !in name {
      forall q: seq<byte> | BLANK !in q && Matches(ByName(q), rec)
        ensures q == name
      {
        NameMatchesIff(q, name, rec);
        BlankWithin(q, name);
        SamePadding(q, name);
      }
    }
  }

  lemma BlankWithin(q: seq<byte>, name: seq<byte>)
    ensures q + [BLANK] <= name ==> BLANK in name
  {
    if q + [BLANK] <= name {
      assert name[|q|] == (q + [BLANK])[|q|];
    }
  }

  lemma SamePadding(q: seq<byte>, name: seq<byte>)
    requires |q| <= NAME_LEN && |name| <= NAME_LEN && PadName(q) == PadName(name) && BLANK !in q && BLANK !in name
    ensures q == name
  {
    var p := PadName(q);
    assert forall i | 0 <= i < NAME_LEN :: p[i] == BLANK <==> i >= |q|;
    assert forall i | 0 <= i < NAME_LEN :: p[i] == BLANK <==> i >= |name|;
    assert |q| < NAME_LEN ==> p[|q|] == BLANK;
    assert |name| < NAME_LEN ==> p[|name|] == BLANK;
    assert q == p[..|q|] && name == p[..|name|];
  }

  /** No entry answers to a name that is too long for the field. */
  lemma LongNameFindsNothing(name: seq<byte>, es: seq<Entry>)
    requires |name| > NAME_LEN
    ensures NoMatch(ByName(name), es)
  {
  }

  /** A query made with htonll and htonl finds the values the format stores. */
  lemma IdMatchesValues(vendor: u64, device: u32, rec: Record)
    ensures HostToNet(vendor, 8) < TWO64 && HostToNet(device, 4) < TWO32
    ensures Matches(ById(HostToNet(vendor, 8), HostToNet(device, 4)), rec) <==>
      NatBE(VendorBytes(rec)) == vendor && NatBE(DeviceBytes(rec)) == device
  {
    Pow256Widths();
    hide NatLE, NatBE, BytesBE, Pow256;
    BytesNatLE(BytesBE(vendor, 8));
    BytesNatLE(BytesBE(device, 4));
    HostToNetFinds(VendorBytes(rec), vendor);
    HostToNetFinds(DeviceBytes(rec), device);
  }

  /** `i` is the first entry that answers the query. */
  ghost predicate IsFirst(q: Query, es: seq<Entry>, i: int) {
    0 <= i < |es| && Matches(q, es[i].rec) && forall j | 0 <= j < i :: !Matches(q, es[j].rec)
  }

  ghost predicate NoMatch(q: Query, es: seq<Entry>) {
    forall e | e in es :: !Matches(q, e.rec)
  }

  function RangeLength(rec: Record): u64 {
    (AddrLast(rec) + 1 - AddrFirst(rec)) % TWO64
  }

  const INT_MAX := 0x7fff_ffff

  class Fs {
    var dev: Device
    const entry: u64
    var current: Option<Record>
    var fOffset: u64
    var fLen: u64
    var readOffset: u64
    const base: array<int>
    const pos: array<int>
    const nleft: array<int>
    var depth: int

    ghost function Cursor(): Stack
      reads this, base, pos, nleft
    {
      Stack(base[..], pos[..], nleft[..], depth)
    }

    ghost predicate Shape()
      reads this, base, pos, nleft
    {
      && base != pos && base != nleft && pos != nleft
      && Cursor().Valid()
    }

    /** The entries successive scans have still to return. */
    ghost function Left(): seq<Entry>
      requires Shape() && current.Some?
      reads this, base, pos, nleft
    {
      Todo(dev, current.value, Cursor())
    }

    /** The current record and the directory it was found in. */
    ghost function Here(): Entry
      requires Shape() && current.Some?
      reads this, base, pos, nleft
    {
      Entry(current.value, base[depth], depth)
    }

    /** The entry just returned, as the fields describe it. */
    ghost predicate At(e: Entry)
      requires Shape()
      reads this, base, pos, nleft
    {
      && current == Some(e.rec) && depth == e.depth && base[depth] == e.base
      && fOffset == e.Offset()
    }

    /** Entry `i` of `es` was just returned, and the later ones are still to come. */
    ghost predicate Ahead(es: seq<Entry>, i: int)
      reads this, base, pos, nleft
    {
      Shape() && current.Some? && 0 <= i < |es| && At(es[i]) && Left() == es[i + 1..]
    }

    constructor (dev: Device, entry: u64)
      ensures Shape() && fresh(base) && fresh(pos) && fresh(nleft)
      ensures this.dev == dev && this.entry == entry && current == None
      ensures fOffset == 0 && fLen == 0 && readOffset == 0 && depth == 0 && nleft[0] == 0
    {
      this.dev, this.entry, current := dev, entry, None;
      fOffset, fLen, readOffset, depth := 0, 0, 0, 0;
      base := new int[DEPTH](_ => 0);
      pos := new int[DEPTH](_ => 0);
      nleft := new int[DEPTH](_ => 0);
    }

    /** Check the magic number and settle the byte order. The record type and the
    record count are not looked at. */
    method DevCreate() returns (err: int)
      modifies this`dev
      ensures var r := Recognise(old(dev), entry);
        if r.Some? then err == 0 && dev == r.value else err == -20 && dev == old(dev)
      ensures err == 0 <==> Fetch(old(dev), entry, 4) in [[0x53, 0x44, 0x42, 0x2d], [0x2d, 0x42, 0x44, 0x53]]
    {
      RecognisedIff(dev, entry);
      var magic := NatLE(Fetch(dev, entry, 4));
      if magic == SDB_MAGIC {
        dev := dev.(convert := true);
      } else if NatBE(Fetch(dev, entry, 4)) != SDB_MAGIC {
        return -ENOTDIR;
      }
      return OK;
    }

    /** Entering a directory: check that a table is there, then step past its head. */
    method ScanNewdir(d: int) returns (r: Option<Record>)
      requires Shape() && 0 <= d < DEPTH
      modifies this`current, this`depth, pos, nleft
      ensures Shape()
      ensures current == Some(ReadEntry(dev, old(pos[d])))
      ensures r == if IsTable(current.value) then current else None
      ensures Cursor() == if r.Some? then Enter(r.value, old(Cursor()), d) else old(Cursor())
    {
      var head := ReadEntry(dev, pos[d]);
      current := Some(head);
      if RecordType(head) != TYPE_INTERCONNECT {
        return None;
      }
      if Magic(head) != SDB_MAGIC {
        return None;
      }
      nleft[d] := (NumRecords(head) - 1) % TWO32;
      pos[d] := Add64(pos[d], RECORD_SIZE);
      depth := d;
      return Some(head);
    }

    /** Leave the exhausted levels, then read the next record. */
    method ScanOn() returns (r: Option<Record>)
      requires Shape() && current.Some?
      modifies this`current, this`depth, this`fOffset, pos, nleft
      ensures Shape() && current.Some?
      ensures Reached(Resume(dev, old(Cursor())), r)
      ensures r.None? ==> current == old(current) && fOffset == old(fOffset)
    {
      var d := depth;
      while nleft[d] == 0
        invariant Shape() && depth == d && fOffset == old(fOffset)
        invariant Cursor() == old(Cursor()).(depth := d) && current == old(current)
        invariant Pop(Cursor()) == Pop(old(Cursor()))
        decreases d
      {
        if d == 0 {
          return None;
        }
        d := d - 1;
        depth := d;
      }
      ghost var s := Cursor();
      var rec := ReadEntry(dev, pos[d]);
      current := Some(rec);
      pos[d] := Add64(pos[d], RECORD_SIZE);
      nleft[d] := nleft[d] - 1;
      fOffset := Add64(base[d], AddrFirst(rec));
      assert Cursor() == Advance(s);
      r := Some(rec);
    }

    /** The fields agree with a step of the scanner. */
    ghost predicate Reached(m: Move, r: Option<Record>)
      requires Shape() && m.at.Valid()
      reads this, base, pos, nleft
    {
      && Cursor() == m.at
      && if m.End? then r == None
         else r == current == Some(m.rec) && fOffset == Add64(m.at.base[m.at.depth], AddrFirst(m.rec))
    }

    method ScanNext() returns (r: Option<Record>)
      requires Shape() && current.Some?
      modifies this`current, this`depth, this`fOffset, base, pos, nleft
      ensures Shape() && current.Some?
      ensures Reached(old(Next(dev, current.value, Cursor())), r)
      ensures r.None? ==> current == Some(LeftBehind(dev, old(Here()))) && fOffset == old(fOffset)
    {
      hide Inside, Pending, Resume, ReadEntry, Remaining, Child, AddrFirst, IsTable, Add64;
      var d := depth;
      ghost var s, bridge := Cursor(), current.value;
      if RecordType(current.value) == TYPE_BRIDGE && d + 1 < DEPTH {
        pos[d + 1] := Add64(base[d], Child(current.value));
        base[d + 1] := Add64(base[d], AddrFirst(current.value));
        assert Cursor() == Aim(bridge, s);
        r := ScanNewdir(d + 1);
        if r.Some? {
          fOffset := Add64(base[depth], AddrFirst(r.value));
          return;
        }
      }
      r := ScanOn();
    }

    method ScanFirst() returns (r: Option<Record>)
      requires Shape()
      modifies this`current, this`depth, this`fOffset, base, pos, nleft
      ensures Shape() && current.Some? && Left() == Walk(dev, entry, old(nleft[0]))
      ensures Here() == Entry(ReadEntry(dev, entry), 0, 0)
      ensures if IsTable(ReadEntry(dev, entry))
        then r == Some(Table(dev, entry, 0, 0)[0].rec) && At(Table(dev, entry, 0, 0)[0])
        else r == None && fOffset == old(fOffset)
    {
      hide Table, Rest, Inside, Pending, ReadEntry;
      base[0], pos[0] := 0, entry;
      depth := 0;
      if IsTable(ReadEntry(dev, entry)) {
        StartLists(dev, entry, Cursor());
      } else {
        BottomLists(dev, Cursor());
      }
      r := ScanNewdir(0);
      if r.Some? {
        fOffset := Add64(base[depth], AddrFirst(r.value));
      }
    }

    /** Return the next record, or the first one of a new scan. A scan that has ended keeps
    the last offset, and would go on only inside the record it leaves as the current one. */
    method Scan(newscan: bool) returns (r: Option<Record>)
      requires Shape() && (newscan || current.Some?)
      modifies this`current, this`depth, this`fOffset, base, pos, nleft
      ensures Shape() && current.Some?
      ensures newscan ==> Left() == Walk(dev, entry, old(nleft[0])) && Here() == Entry(ReadEntry(dev, entry), 0, 0)
      ensures newscan ==> if IsTable(ReadEntry(dev, entry))
        then r == Some(Table(dev, entry, 0, 0)[0].rec) && At(Table(dev, entry, 0, 0)[0])
        else r == None && fOffset == old(fOffset)
      ensures !newscan ==> var todo := old(Left());
        if todo == [] then
          && r == None && fOffset == old(fOffset) && current == Some(LeftBehind(dev, old(Here())))
          && depth == 0 && Left() == Inside(dev, current.value, base[0], 0)
        else r == Some(todo[0].rec) && At(todo[0]) && Left() == todo[1..]
    {
      hide Table, Walk, Next, ReadEntry, Inside, Pending;
      if newscan {
        r := ScanFirst();
      } else {
        NextLists(dev, current.value, Cursor());
        if old(Next(dev, current.value, Cursor())).End? {
          NextEnds(dev, current.value, Cursor());
        }
        r := ScanNext();
      }
    }

    /** Scanning on through a known list. */
    method ScanAhead(ghost es: seq<Entry>, ghost i: int) returns (r: Option<Record>)
      requires Ahead(es, i)
      modifies this`current, this`depth, this`fOffset, base, pos, nleft
      ensures Shape() && current.Some?
      ensures if i + 1 == |es|
        then r == None && fOffset == es[i].Offset() && current == Some(LeftBehind(dev, es[i]))
        else r == Some(es[i + 1].rec) && Ahead(es, i + 1)
    {
      hide Todo, LeftBehind;
      assert Here() == es[i];
      r := Scan(false);
    }

    /** How a scan leaves the fields when it found nothing: at the last entry of `walk`, or
    at the root `e` if there was none. */
    ghost predicate Ended(walk: seq<Entry>, e: Entry, was: u64)
      reads this
    {
      if walk == [] then
        current == Some(LeftBehind(dev, e)) && fOffset == if IsTable(e.rec) then e.Offset() else was
      else
        var last := walk[|walk| - 1];
        current == Some(LeftBehind(dev, last)) && fOffset == last.Offset()
    }

    /** Start a scan and ignore the interconnect record it begins with. */
    method ScanPastRoot() returns (r: Option<Record>)
      requires Shape()
      modifies this`current, this`depth, this`fOffset, base, pos, nleft
      ensures Shape() && current.Some?
      ensures var walk := Walk(dev, entry, old(nleft[0]));
        if walk == [] then r == None && Ended([], Entry(ReadEntry(dev, entry), 0, 0), old(fOffset))
        else r == Some(walk[0].rec) && Ahead(walk, 0)
    {
      hide Walk, Todo, ReadEntry, LeftBehind, Table, IsTable, Inside;
      r := Scan(true);
      RootFirst(dev, entry);
      r := Scan(false);
    }

    /** List the whole image, as sdb-read does. */
    method ListAll() returns (es: seq<Entry>)
      requires Shape()
      modifies this`current, this`depth, this`fOffset, base, pos, nleft
      ensures es == if IsTable(ReadEntry(dev, entry)) then Table(dev, entry, 0, 0) else []
    {
      hide Table, Rest, ReadEntry, IsTable, Todo, LeftBehind, Inside, Add64, AddrFirst;
      ghost var all := if IsTable(ReadEntry(dev, entry)) then Table(dev, entry, 0, 0) else [];
      es := [];
      var r := Scan(true);
      while r.Some?
        invariant Shape()
        invariant r.Some? ==> |es| < |all| && r.value == all[|es|].rec && Ahead(all, |es|)
        invariant |es| <= |all| && es == all[..|es|] && (r.None? ==> |es| == |all|)
        decreases |all| - |es|, r.Some?
      {
        es := es + [Entry(r.value, base[depth], depth)];
        r := ScanAhead(all, |es| - 1);
      }
    }

    method SetWindow()
      requires Shape() && current.Some?
      modifies this`fOffset, this`fLen, this`readOffset
      ensures fOffset == Add64(base[depth], AddrFirst(current.value))
      ensures fLen == RangeLength(current.value) && readOffset == 0
    {
      fOffset := Add64(base[depth], AddrFirst(current.value));
      fLen := RangeLength(current.value);
      readOffset := 0;
    }

    /** Open the first record after the root that answers the query. If there is none, the
    fields are left half changed: the offset and the record of the last entry scanned, with
    the length and the position of whatever was open before. */
    method Open(q: Query) returns (err: int)
      requires Shape()
      modifies this`current, this`depth, this`fOffset, this`fLen, this`readOffset, base, pos, nleft
      ensures Shape()
      ensures err == 0 || err == -2
      ensures err == -2 ==>
        && NoMatch(q, Walk(dev, entry, old(nleft[0]))) && fLen == old(fLen) && readOffset == old(readOffset)
        && if q.ByName? && |q.name| > NAME_LEN then current == old(current) && fOffset == old(fOffset)
           else Ended(Walk(dev, entry, old(nleft[0])), Entry(ReadEntry(dev, entry), 0, 0), old(fOffset))
      ensures err == 0 ==> exists i ::
        && IsFirst(q, Walk(dev, entry, old(nleft[0])), i)
        && At(Walk(dev, entry, old(nleft[0]))[i])
        && fLen == RangeLength(Walk(dev, entry, old(nleft[0]))[i].rec) && readOffset == 0
    {
      hide Walk, Todo, ReadEntry, RangeLength, Matches, LeftBehind, IsTable;
      if q.ByName? && |q.name| > NAME_LEN {
        LongNameFindsNothing(q.name, Walk(dev, entry, nleft[0]));
        return -ENOENT;
      }
      ghost var walk := Walk(dev, entry, nleft[0]);
      var r := ScanPastRoot();
      ghost var i := 0;
      while r.Some?
        invariant Shape() && current.Some? && fLen == old(fLen) && readOffset == old(readOffset)
        invariant 0 <= i <= |walk|
        invariant forall j | 0 <= j < i :: !Matches(q, walk[j].rec)
        invariant r.Some? ==> i < |walk| && r.value == walk[i].rec && Ahead(walk, i)
        invariant r.None? ==> i == |walk| && Ended(walk, Entry(ReadEntry(dev, entry), 0, 0), old(fOffset))
        decreases |walk| - i, r.Some?
      {
        if Matches(q, r.value) {
          assert At(walk[i]);
          SetWindow();
          assert At(walk[i]) && IsFirst(q, Walk(dev, entry, old(nleft[0])), i);
          return OK;
        }
        r := ScanAhead(walk, i);
        i := i + 1;
      }
      return -ENOENT;
    }

    method Close()
      modifies this`current
      ensures current == None
    {
      current := None;
    }

    /** The opened range. */
    ghost function Opened(): Span
      reads this
    {
      Span(fOffset, fLen)
    }

    /** Where an access starts: a negative offset means "go on from here". */
    function From(offset: int): int
      reads this
    {
      if offset < 0 then readOffset else offset
    }

    /** What the library demands of an access: a start inside the record, a count
    that is not negative, and a sum that is an `int`. */
    predicate Admissible(offset: int, count: int)
      reads this
    {
      dev.mapped && From(offset) <= fLen && 0 <= count && From(offset) + count <= INT_MAX
    }

    method Fread(offset: int, count: int) returns (ret: int, buf: seq<byte>)
      requires current.Some? ==> Admissible(offset, count)
      modifies this`readOffset
      ensures current.None? ==> ret == -2 && buf == [] && readOffset == old(readOffset)
      ensures current.Some? ==>
        var from := if offset < 0 then old(readOffset) else offset;
        && ret == |buf| == (if from + count > fLen then fLen - from else count)
        && buf == Read(dev.img, fOffset + from, ret)
        && readOffset == (if ret > 0 then from + ret else old(readOffset))
    {
      if current.None? {
        return -ENOENT, [];
      }
      var off := if offset < 0 then readOffset else offset;
      var n := count;
      if off + n > fLen {
        n := fLen - off;
      }
      buf := Read(dev.img, fOffset + off, n);
      ret := n;
      if ret > 0 {
        readOffset := off + ret;
      }
    }

    method Fwrite(offset: int, data: seq<byte>) returns (ret: int)
      requires current.Some? ==> Admissible(offset, |data|)
      modifies this`dev, this`readOffset
      ensures current.None? ==> ret == -2 && dev == old(dev) && readOffset == old(readOffset)
      ensures current.Some? ==>
        var from := if offset < 0 then old(readOffset) else offset;
        && ret == (if from + |data| > fLen then fLen - from else |data|)
        && dev == old(dev).(img := Access.Apply(old(dev.img), Opened(), Access.Write(from, data)))
        && Read(dev.img, fOffset + from, ret) == data[..ret]
        && readOffset == (if ret > 0 then from + ret else old(readOffset))
    {
      hide Put;
      if current.None? {
        return -ENOENT;
      }
      var off := if offset < 0 then readOffset else offset;
      var n := |data|;
      if off + n > fLen {
        n := fLen - off;
      }
      assert data[..n] == Access.Stored(Opened(), Access.Write(off, data));
      ReadPut(dev.img, fOffset + off, data[..n]);
      dev := dev.(img := Put(dev.img, fOffset + off, data[..n]));
      ret := n;
      if ret > 0 {
        readOffset := off + ret;
      }
    }

    method Ferase(offset: int, count: int) returns (ret: int)
      requires current.Some? ==> Admissible(offset, count)
      modifies this`dev, this`readOffset
      ensures current.None? ==> ret == -2 && dev == old(dev) && readOffset == old(readOffset)
      ensures current.Some? ==>
        var from := if offset < 0 then old(readOffset) else offset;
        && ret == (if from + count > fLen then fLen - from else count)
        && dev == old(dev).(img := Access.Apply(old(dev.img), Opened(), Access.Erase(from, count)))
        && Read(dev.img, fOffset + from, ret) == seq<byte>(ret, _ => 0xFF)
        && readOffset == (if ret > 0 then from + ret else old(readOffset))
    {
      hide Put;
      if current.None? {
        return -ENOENT;
      }
      var off := if offset < 0 then readOffset else offset;
      var n := count;
      if off + n > fLen {
        n := fLen - off;
      }
      var blank := seq<byte>(n, _ => Access.ERASED);
      assert blank == Access.Stored(Opened(), Access.Erase(off, count));
      assert blank == seq<byte>(n, _ => 0xFF);
      ReadPut(dev.img, fOffset + off, blank);
      dev := dev.(img := Put(dev.img, fOffset + off, blank));
      ret := n;
      if ret > 0 {
        readOffset := off + ret;
      }
    }

    /** Copy the rest of the opened record out, `n` bytes at a time. */
    method Cat(n: int) returns (out: seq<byte>)
      requires current.Some? && dev.mapped && readOffset <= fLen
      requires n > 0 && fLen + n <= INT_MAX
      modifies this`readOffset
      ensures out == Read(dev.img, fOffset + old(readOffset), fLen - old(readOffset))
      ensures readOffset == fLen
    {
      out := [];
      var ret, buf := Fread(-1, n);
      while ret > 0
        invariant current.Some? && dev.mapped && old(readOffset) <= readOffset <= fLen
        invariant readOffset == old(readOffset) + |out| + |buf| && |buf| == ret
        invariant ret == 0 ==> readOffset == fLen
        invariant out + buf == Read(dev.img, fOffset + old(readOffset), readOffset - old(readOffset))
        decreases fLen - readOffset, ret > 0
      {
        out := out + buf;
        ret, buf := Fread(-1, n);
      }
    }
  }
}
