/** Writing and erasing inside an opened record, as operations on images. */
module Access {
  import opened Basics
  import opened Endian
  import opened Images

  const ERASED: byte := 0xFF

  datatype Change = Write(off: nat, data: seq<byte>) | Erase(off: nat, count: nat) {
    function Data(): seq<byte> {
      if Write? then data else seq<byte>(count, _ => ERASED)
    }
  }

  /** A count that would run past the end of the record is cut short. */
  function Clip(w: Span, off: nat, count: nat): (n: nat)
    requires off <= w.len
    ensures off + n <= w.len && n <= count
    ensures n == count || off + n == w.len
  {
    if off + count > w.len then w.len - off else count
  }

  /** The bytes a change stores, after cutting. */
  function Stored(w: Span, c: Change): seq<byte>
    requires c.off <= w.len
  {
    c.Data()[..Clip(w, c.off, |c.Data()|)]
  }

  function Apply(img: Image, w: Span, c: Change): Image
    requires c.off <= w.len
  {
    Put(img, w.lo + c.off, Stored(w, c))
  }

  lemma ReadApplied(img: Image, w: Span, c: Change, i: nat)
    requires c.off <= w.len
    ensures var s := Stored(w, c);
      Get(Apply(img, w, c), w.lo + i) == if c.off <= i < c.off + |s| then s[i - c.off] else Get(img, w.lo + i)
  {
    hide Stored;
    GetPut(img, w.lo + c.off, Stored(w, c), w.lo + i);
  }

  /** A write stores its bytes in order, as many as fit. */
  lemma WriteStores(img: Image, w: Span, off: nat, data: seq<byte>, j: nat)
    requires off <= w.len && j < |data| && off + j < w.len
    ensures Get(Apply(img, w, Write(off, data)), w.lo + off + j) == data[j]
  {
  }

  lemma EraseStores(img: Image, w: Span, off: nat, count: nat, j: nat)
    requires off <= w.len && j < count && off + j < w.len
    ensures Get(Apply(img, w, Erase(off, count)), w.lo + off + j) == 0xFF
  {
  }

  predicate Valid(w: Span, cs: seq<Change>) {
    forall i | 0 <= i < |cs| :: cs[i].off <= w.len
  }

  function Run(img: Image, w: Span, cs: seq<Change>): Image
    requires Valid(w, cs)
    decreases |cs|
  {
    if cs == [] then img else Run(Apply(img, w, cs[0]), w, cs[1..])
  }

  /** Nothing outside the record is ever touched. */
  lemma {:induction false} RunFrames(img: Image, w: Span, cs: seq<Change>, k: int)
    requires Valid(w, cs) && !w.Has(k)
    ensures Get(Run(img, w, cs), k) == Get(img, k)
    decreases |cs|
  {
    if cs != [] {
      RunFrames(Apply(img, w, cs[0]), w, cs[1..], k);
    }
  }

  /** What a change gives to position `i`, if it covers it. */
  function Gives(c: Change, i: nat): Option<byte> {
    match c
    case Write(off, data) => if off <= i < off + |data| then Some(data[i - off]) else None
    case Erase(off, count) => if off <= i < off + count then Some(0xFF) else None
  }

  /** What the last change to cover position `i` has for it: a byte of the data, or 0xFF. */
  function LastStored(cs: seq<Change>, i: nat): Option<byte>
    decreases |cs|
  {
    if cs == [] then None
    else if Gives(cs[|cs| - 1], i).Some? then Gives(cs[|cs| - 1], i)
    else LastStored(cs[..|cs| - 1], i)
  }

  lemma ReadChanged(img: Image, w: Span, c: Change, i: nat)
    requires c.off <= w.len && i < w.len
    ensures Get(Apply(img, w, c), w.lo + i) == match Gives(c, i) { case Some(b) => b case None => Get(img, w.lo + i) }
  {
    hide Apply, Get;
    ReadApplied(img, w, c, i);
  }

  lemma {:induction false} RunSnoc(img: Image, w: Span, cs: seq<Change>)
    requires Valid(w, cs) && cs != []
    ensures Run(img, w, cs) == Apply(Run(img, w, cs[..|cs| - 1]), w, cs[|cs| - 1])
    decreases |cs|
  {
    hide Apply;
    var front := cs[..|cs| - 1];
    if front == [] {
      assert cs == [cs[0]];
    } else {
      assert front[1..] == cs[1..][..|cs| - 2];
      RunSnoc(Apply(img, w, cs[0]), w, cs[1..]);
    }
  }

  /** After any sequence of writes and erases, each byte of the record is what the
  last one to cover it gave it, or what it was before. */
  lemma {:induction false} ReadBack(img: Image, w: Span, cs: seq<Change>, i: nat)
    requires Valid(w, cs) && i < w.len
    ensures Get(Run(img, w, cs), w.lo + i) ==
      match LastStored(cs, i) { case Some(b) => b case None => Get(img, w.lo + i) }
    decreases |cs|
  {
    if cs != [] {
      hide Run, Apply, Get, Gives;
      var front, c := cs[..|cs| - 1], cs[|cs| - 1];
      RunSnoc(img, w, cs);
      ReadBack(img, w, front, i);
      ReadChanged(Run(img, w, front), w, c, i);
    }
  }

  /** A change made through one of two open records. */
  datatype Tagged = Tagged(first: bool, c: Change)

  predicate ValidBoth(v: Span, w: Span, ts: seq<Tagged>) {
    forall i | 0 <= i < |ts| :: ts[i].c.off <= (if ts[i].first then v else w).len
  }

  function RunBoth(img: Image, v: Span, w: Span, ts: seq<Tagged>): Image
    requires ValidBoth(v, w, ts)
    decreases |ts|
  {
    if ts == [] then img
    else RunBoth(Apply(img, if ts[0].first then v else w, ts[0].c), v, w, ts[1..])
  }

  function Mine(ts: seq<Tagged>): seq<Change> {
    if ts == [] then [] else (if ts[0].first then [ts[0].c] else []) + Mine(ts[1..])
  }

  lemma {:induction false} MineValid(v: Span, w: Span, ts: seq<Tagged>)
    requires ValidBoth(v, w, ts)
    ensures Valid(v, Mine(ts))
  {
    if ts != [] {
      MineValid(v, w, ts[1..]);
    }
  }

  /** Records with disjoint ranges cannot affect each other: however the changes
  interleave, the first record holds what its own changes make of it. */
  lemma {:induction false} Isolated(img: Image, img': Image, v: Span, w: Span, ts: seq<Tagged>, k: int)
    requires ValidBoth(v, w, ts) && Apart(v, w) && v.Has(k)
    requires forall j | v.Has(j) :: Get(img, j) == Get(img', j)
    ensures Valid(v, Mine(ts))
    ensures Get(RunBoth(img, v, w, ts), k) == Get(Run(img', v, Mine(ts)), k)
    decreases |ts|
  {
    MineValid(v, w, ts);
    if ts != [] {
      var c := ts[0].c;
      if ts[0].first {
        assert Mine(ts) == [c] + Mine(ts[1..]);
        Isolated(Apply(img, v, c), Apply(img', v, c), v, w, ts[1..], k);
      } else {
        assert Mine(ts) == Mine(ts[1..]);
        Isolated(Apply(img, w, c), img', v, w, ts[1..], k);
      }
    }
  }
}
