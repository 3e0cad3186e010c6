/** What an allocated tree asks to be stored, and where. */
module Chunks {
  import opened Basics
  import opened Endian
  import opened Records
  import opened Layout

  /** Bytes to store at the start of a reserved span. */
  datatype Chunk = Chunk(at: nat, len: nat, bytes: seq<byte>) {
    function Reserved(): Span { Span(at, len) }
  }

  function HeadRecord(l: LaidDir): Record {
    InterconnectRecord(|l.kids| + 1, if l.last < 0 then 0 else l.last, l.product)
  }

  function KidRecord(k: Laid): Record {
    var last := if k.Last() < 0 then TWO64 - 1 else k.Last();
    match k
    case LaidFile(product, first, size, fixed, flags, content) => DeviceRecord(flags, first, last, product)
    case LaidSub(product, first, size, fixed, child, dir) => BridgeRecord(child, first, last, product)
  }

  function KidRecords(kids: seq<Laid>): (b: seq<byte>)
    ensures |b| == RECORD_SIZE * |kids|
  {
    if kids == [] then [] else KidRecord(kids[0]) + KidRecords(kids[1..])
  }

  function TableBytes(l: LaidDir): (b: seq<byte>)
    ensures |b| == TableSize(|l.kids|)
  {
    HeadRecord(l) + KidRecords(l.kids)
  }

  function DirChunks(l: LaidDir): (cs: seq<Chunk>)
    ensures |cs| >= 1
    decreases l
  {
    [Chunk(l.base + l.table, TableSize(|l.kids|), TableBytes(l))] + KidChunks(l.kids, l.base)
  }

  function KidChunks(kids: seq<Laid>, base: nat): seq<Chunk>
    decreases kids
  {
    if kids == [] then [] else NodeChunks(kids[0], base) + KidChunks(kids[1..], base)
  }

  function NodeChunks(k: Laid, base: nat): seq<Chunk>
    decreases k
  {
    match k
    case LaidFile(product, first, size, fixed, flags, content) => [Chunk(base + first, size, content)]
    case LaidSub(product, first, size, fixed, child, dir) => DirChunks(dir)
  }
}
