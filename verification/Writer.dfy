/** Writing the image file (gensdbfs, step 3). */
module Writer {
  import opened Endian
  import opened Records
  import opened Images
  import opened Layout
  import opened Chunks

  /** The output file: seekable, and zero where it was never written. */
  class OutFile {
    var bytes: Image
    var pos: nat

    constructor ()
      ensures bytes == map[] && pos == 0
    {
      bytes, pos := map[], 0;
    }

    method Seek(p: nat)
      modifies this`pos
      ensures pos == p
    {
      pos := p;
    }

    method Write(data: seq<byte>)
      modifies this
      ensures bytes == Put(old(bytes), old(pos), data) && pos == old(pos) + |data|
    {
      bytes := Put(bytes, pos, data);
      pos := pos + |data|;
    }
  }

  /** All chunks stored one after the other. */
  function PutAll(img: Image, cs: seq<Chunk>): Image
    decreases |cs|
  {
    if cs == [] then img else PutAll(Put(img, cs[0].at, cs[0].bytes), cs[1..])
  }

  lemma {:induction false} PutAllConcat(img: Image, cs: seq<Chunk>, ds: seq<Chunk>)
    ensures PutAll(img, cs + ds) == PutAll(PutAll(img, cs), ds)
    decreases |cs|
  {
    hide Put;
    if cs == [] {
      assert cs + ds == ds;
    } else {
      assert (cs + ds)[1..] == cs[1..] + ds;
      PutAllConcat(Put(img, cs[0].at, cs[0].bytes), cs[1..], ds);
    }
  }

  lemma PutOne(img: Image, c: Chunk)
    ensures PutAll(img, [c]) == Put(img, c.at, c.bytes)
  {
    hide Put;
    assert [c][1..] == [];
  }

  /** Fixed positions are only honoured where the directory's base is zero. */
  predicate Placed(l: LaidDir)
    decreases l, 1
  {
    forall i | 0 <= i < |l.kids| :: PlacedNode(l.kids[i], l.base)
  }

  predicate PlacedNode(k: Laid, base: nat)
    decreases k, 0
  {
    (k.fixed ==> base == 0) && (k.LaidSub? ==> Placed(k.dir))
  }

  method WriteTable(l: LaidDir, out: OutFile)
    modifies out
    ensures out.bytes == Put(old(out.bytes), l.base + l.table, TableBytes(l))
  {
    hide Put, KidRecord, HeadRecord;
    out.Seek(l.base + l.table);
    ghost var at := out.pos;
    out.Write(HeadRecord(l));
    ghost var done, todo := HeadRecord(l), l.kids;
    assert todo == l.kids[0..];
    var i := 1;
    while i < |l.kids| + 1
      invariant 1 <= i <= |l.kids| + 1
      invariant todo == l.kids[i - 1..]
      invariant done + KidRecords(todo) == TableBytes(l)
      invariant out.bytes == Put(old(out.bytes), at, done) && out.pos == at + |done|
    {
      PutPut(old(out.bytes), at, done, KidRecord(todo[0]));
      out.Write(KidRecord(l.kids[i - 1]));
      assert done + KidRecords(todo) == (done + KidRecord(todo[0])) + KidRecords(todo[1..]);
      done, todo := done + KidRecord(todo[0]), todo[1..];
      i := i + 1;
    }
    assert done + [] == done;
  }

  /** Copy a file's contents through a buffer of one block. */
  method CopyFile(content: seq<byte>, bs: nat, out: OutFile)
    requires bs > 0
    modifies out
    ensures out.bytes == Put(old(out.bytes), old(out.pos), content)
  {
    hide Put;
    PutNothing(out.bytes, out.pos);
    var copied := 0;
    while copied < |content|
      invariant 0 <= copied <= |content| && out.pos == old(out.pos) + copied
      invariant out.bytes == Put(old(out.bytes), old(out.pos), content[..copied])
    {
      var j := if |content| - copied < bs then |content| - copied else bs;
      PutPut(old(out.bytes), old(out.pos), content[..copied], content[copied..copied + j]);
      assert content[..copied] + content[copied..copied + j] == content[..copied + j];
      out.Write(content[copied..copied + j]);
      copied := copied + j;
    }
    assert content[..copied] == content;
  }

  lemma PutNothing(img: Image, at: int)
    ensures Put(img, at, []) == img
  {
  }

  method WriteNode(k: Laid, base: nat, bs: nat, out: OutFile)
    requires bs > 0 && PlacedNode(k, base)
    modifies out
    ensures out.bytes == PutAll(old(out.bytes), NodeChunks(k, base))
    decreases k, 0
  {
    hide Put, PutAll, DirChunks;
    if k.fixed {
      out.Seek(k.first);
    } else {
      out.Seek(base + k.first);
    }
    match k
    case LaidFile(product, first, size, fixed, flags, content) =>
      CopyFile(content, bs, out);
      PutOne(old(out.bytes), Chunk(base + first, size, content));
    case LaidSub(product, first, size, fixed, child, dir) =>
      WriteSdb(dir, bs, out);
  }

  /** Write a directory's table, then each file and each directory inside it. */
  method WriteSdb(l: LaidDir, bs: nat, out: OutFile)
    requires bs > 0 && Placed(l)
    modifies out
    ensures out.bytes == PutAll(old(out.bytes), DirChunks(l))
    decreases l, 2
  {
    hide Put, NodeChunks, PutAll, TableBytes;
    ghost var head := Chunk(l.base + l.table, TableSize(|l.kids|), TableBytes(l));
    WriteTable(l, out);
    PutOne(old(out.bytes), head);
    PutAllConcat(old(out.bytes), [head], KidChunks(l.kids, l.base));
    ghost var todo := l.kids;
    assert todo == l.kids[0..];
    var i := 1;
    while i < |l.kids| + 1
      invariant 1 <= i <= |l.kids| + 1
      invariant todo == l.kids[i - 1..]
      invariant PutAll(out.bytes, KidChunks(todo, l.base)) == PutAll(old(out.bytes), DirChunks(l))
    {
      PutAllConcat(out.bytes, NodeChunks(todo[0], l.base), KidChunks(todo[1..], l.base));
      assert PlacedNode(l.kids[i - 1], l.base);
      WriteNode(l.kids[i - 1], l.base, bs, out);
      todo := todo[1..];
      i := i + 1;
    }
    PutNone(out.bytes);
  }

  lemma PutNone(img: Image)
    ensures PutAll(img, []) == img
  {
  }
}
