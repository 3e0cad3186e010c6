/** The 64-byte records of the Self-Describing Bus format, version 1.1. */
module Records {
  import opened Endian

  const RECORD_SIZE := 64
  const SDB_MAGIC := 0x5344422d
  const TYPE_INTERCONNECT: byte := 0x00
  const TYPE_DEVICE: byte := 0x01
  const TYPE_BRIDGE: byte := 0x02
  const NAME_LEN := 19
  const BLANK: byte := 0x20

  type Record = r: seq<byte> | |r| == RECORD_SIZE witness seq(RECORD_SIZE, _ => 0)

  // Field readers, in the byte order of the format.
  function RecordType(r: Record): byte { r[63] }
  function Magic(r: Record): nat { NatBE(r[..4]) }
  function NumRecords(r: Record): nat { NatBE(r[4..6]) }
  function Child(r: Record): nat { NatBE(r[..8]) }
  function AddrFirst(r: Record): nat { NatBE(r[8..16]) }
  function AddrLast(r: Record): nat { NatBE(r[16..24]) }
  function VendorBytes(r: Record): seq<byte> { r[24..32] }
  function DeviceBytes(r: Record): seq<byte> { r[32..36] }
  function Name(r: Record): seq<byte> { r[44..63] }

  /** A record that may head a table. */
  predicate IsTable(r: Record) {
    RecordType(r) == TYPE_INTERCONNECT && Magic(r) == SDB_MAGIC
  }

  predicate IsBridge(r: Record) {
    RecordType(r) == TYPE_BRIDGE
  }

  /** What the reader takes for the head of a table, and for a bridge, byte by byte. */
  lemma KindsAre(r: Record)
    ensures IsTable(r) <==> r[63] == 0 && r[..4] == [0x53, 0x44, 0x42, 0x2d]
    ensures IsBridge(r) <==> r[63] == 2
  {
    hide NatBE;
    var m: seq<byte> := [0x53, 0x44, 0x42, 0x2d];
    FourBytes(m, 0x53, 0x44, 0x42, 0x2d);
    SameNumberSameBytes(r[..4], m);
  }

  lemma FieldRanges(r: Record)
    ensures NumRecords(r) < 0x1_0000
    ensures Child(r) < TWO64 && AddrFirst(r) < TWO64 && AddrLast(r) < TWO64
  {
    Pow256Widths();
    BytesNatBE(r[4..6]);
    BytesNatBE(r[..8]);
    BytesNatBE(r[8..16]);
    BytesNatBE(r[16..24]);
  }

  /** The product part, as gensdbfs fills it and its config file may change it. */
  datatype Product = Product(vendor: u64, device: u32, name: seq<byte>)

  /** A name cut or blank-filled to its fixed width. */
  function PadName(name: seq<byte>): (p: seq<byte>)
    ensures |p| == NAME_LEN
  {
    if |name| >= NAME_LEN then name[..NAME_LEN]
    else name + seq(NAME_LEN - |name|, _ => BLANK)
  }

  lemma PadNameBytes(name: seq<byte>, i: nat)
    requires i < 19
    ensures |PadName(name)| == 19 && PadName(name)[i] == if i < |name| then name[i] else 0x20
  {
  }

  /** Before any config file: the device id is the first four bytes of the name. */
  function FillProduct(name: seq<byte>): Product {
    Pow256Widths();
    BytesNatBE(PadName(name)[..4]);
    Product(0x46696c6544617461, NatBE(PadName(name)[..4]), name)
  }

  function ProductBytes(p: Product, kind: byte): (b: seq<byte>)
    ensures |b| == 40
  {
    BytesBE(p.vendor, 8) + BytesBE(p.device, 4) + BytesBE(1, 4) + BytesBE(0, 4) + PadName(p.name) + [kind]
  }

  function Assemble(head: seq<byte>, first: nat, last: nat, p: Product, kind: byte): Record
    requires |head| == 8
  {
    head + BytesBE(first, 8) + BytesBE(last, 8) + ProductBytes(p, kind)
  }

  function InterconnectRecord(count: nat, last: nat, p: Product): Record {
    Assemble(BytesBE(SDB_MAGIC, 4) + BytesBE(count, 2) + [1, 1], 0, last, p, TYPE_INTERCONNECT)
  }

  function DeviceRecord(flags: u32, first: nat, last: nat, p: Product): Record {
    Assemble([0, 0, 0, 0] + BytesBE(flags, 4), first, last, p, TYPE_DEVICE)
  }

  function BridgeRecord(child: nat, first: nat, last: nat, p: Product): Record {
    Assemble(BytesBE(child, 8), first, last, p, TYPE_BRIDGE)
  }

  lemma AssembledParts(head: seq<byte>, first: nat, last: nat, p: Product, kind: byte)
    requires |head| == 8
    ensures var r := Assemble(head, first, last, p, kind);
      && r[..8] == head && r[8..16] == BytesBE(first, 8) && r[16..24] == BytesBE(last, 8)
      && VendorBytes(r) == BytesBE(p.vendor, 8) && DeviceBytes(r) == BytesBE(p.device, 4)
      && Name(r) == PadName(p.name) && RecordType(r) == kind
      && r[36..40] == BytesBE(1, 4) && r[40..44] == BytesBE(0, 4)
  {
  }

  /** Every field written into a record is read back from it. */
  lemma AssembledFields(head: seq<byte>, first: u64, last: u64, p: Product, kind: byte)
    requires |head| == 8
    ensures var r := Assemble(head, first, last, p, kind);
      && AddrFirst(r) == first && AddrLast(r) == last && RecordType(r) == kind
      && NatBE(VendorBytes(r)) == p.vendor && NatBE(DeviceBytes(r)) == p.device
      && Name(r) == PadName(p.name) && NatBE(r[36..40]) == 1 && NatBE(r[40..44]) == 0
  {
    Pow256Widths();
    AssembledParts(head, first, last, p, kind);
    NatBytesBE(first, 8);
    NatBytesBE(last, 8);
    NatBytesBE(p.vendor, 8);
    NatBytesBE(p.device, 4);
    NatBytesBE(1, 4);
    NatBytesBE(0, 4);
  }

  lemma InterconnectFields(count: nat, last: u64, p: Product)
    requires count < 0x1_0000
    ensures var r := InterconnectRecord(count, last, p);
      && IsTable(r) && NumRecords(r) == count && AddrFirst(r) == 0 && AddrLast(r) == last
      && r[6] == 1 && r[7] == 1
  {
    Pow256Widths();
    var head := BytesBE(SDB_MAGIC, 4) + BytesBE(count, 2) + [1, 1];
    AssembledFields(head, 0, last, p, TYPE_INTERCONNECT);
    AssembledParts(head, 0, last, p, TYPE_INTERCONNECT);
    var r := InterconnectRecord(count, last, p);
    assert r[..4] == r[..8][..4] == BytesBE(SDB_MAGIC, 4);
    assert r[4..6] == r[..8][4..6] == BytesBE(count, 2);
    NatBytesBE(SDB_MAGIC, 4);
    NatBytesBE(count, 2);
  }

  lemma BridgeFields(child: u64, first: u64, last: u64, p: Product)
    ensures var r := BridgeRecord(child, first, last, p);
      IsBridge(r) && Child(r) == child && AddrFirst(r) == first && AddrLast(r) == last
  {
    Pow256Widths();
    AssembledFields(BytesBE(child, 8), first, last, p, TYPE_BRIDGE);
    AssembledParts(BytesBE(child, 8), first, last, p, TYPE_BRIDGE);
    NatBytesBE(child, 8);
  }

  /** A file's record: no interface class or version, and the file's flags. */
  lemma DeviceFields(flags: u32, first: u64, last: u64, p: Product)
    ensures var r := DeviceRecord(flags, first, last, p);
      && r[63] == 1 && r[..4] == [0, 0, 0, 0] && NatBE(r[4..8]) == flags
      && AddrFirst(r) == first && AddrLast(r) == last
  {
    hide BytesBE, NatBE;
    var head := [0, 0, 0, 0] + BytesBE(flags, 4);
    var r := DeviceRecord(flags, first, last, p);
    AssembledParts(head, first, last, p, TYPE_DEVICE);
    AssembledFields(head, first, last, p, TYPE_DEVICE);
    assert r[..4] == r[..8][..4] && r[4..8] == r[..8][4..] == BytesBE(flags, 4);
    Pow256Widths();
    NatBytesBE(flags, 4);
  }

  /** Unless a config file says otherwise, a record's vendor is "FileData", in ASCII. */
  lemma DefaultVendor(name: seq<byte>, head: seq<byte>, first: u64, last: u64, kind: byte)
    requires |head| == 8
    ensures VendorBytes(Assemble(head, first, last, FillProduct(name), kind)) ==
      [0x46, 0x69, 0x6c, 0x65, 0x44, 0x61, 0x74, 0x61]
  {
    AssembledParts(head, first, last, FillProduct(name), kind);
    EightBytes(0x46, 0x69, 0x6c, 0x65, 0x44, 0x61, 0x74, 0x61);
  }

  lemma EightBytes(a: byte, b: byte, c: byte, d: byte, e: byte, f: byte, g: byte, h: byte)
    ensures var x := ((((((a * 256 + b) * 256 + c) * 256 + d) * 256 + e) * 256 + f) * 256 + g) * 256 + h;
      BytesBE(x, 8) == [a, b, c, d, e, f, g, h]
  {
    var x1 := a * 256 + b;
    var x2 := x1 * 256 + c;
    var x3 := x2 * 256 + d;
    var x4 := x3 * 256 + e;
    var x5 := x4 * 256 + f;
    var x6 := x5 * 256 + g;
    assert BytesBE(a, 1) == [a];
    assert BytesBE(x1, 2) == BytesBE(a, 1) + [b];
    assert BytesBE(x2, 3) == BytesBE(x1, 2) + [c];
    assert BytesBE(x3, 4) == BytesBE(x2, 3) + [d];
    assert BytesBE(x4, 5) == BytesBE(x3, 4) + [e];
    assert BytesBE(x5, 6) == BytesBE(x4, 5) + [f];
    assert BytesBE(x6, 7) == BytesBE(x5, 6) + [g];
  }

  /** Unless a config file says otherwise, a record's device id is the start of its
  name, byte for byte. */
  lemma DefaultDeviceId(name: seq<byte>, head: seq<byte>, first: u64, last: u64, kind: byte)
    requires |head| == 8
    ensures var r := Assemble(head, first, last, FillProduct(name), kind);
      DeviceBytes(r) == Name(r)[..4] == PadName(name)[..4]
  {
    AssembledParts(head, first, last, FillProduct(name), kind);
    BytesNatBE(PadName(name)[..4]);
  }
}
