/** Pieces that keep apart are all found again after being written. */
module Stored {
  import opened Basics
  import opened Endian
  import opened Images
  import opened Chunks
  import opened Spacing
  import opened Writer

  function Zeros(n: nat): (s: seq<byte>)
    ensures |s| == n
  {
    seq<byte>(n, _ => 0)
  }

  /** The bytes of a chunk, then nothing up to the end of its reserved span. */
  function Padded(c: Chunk): (s: seq<byte>)
    requires |c.bytes| <= c.len
    ensures |s| == c.len
  {
    c.bytes + Zeros(c.len - |c.bytes|)
  }

  ghost predicate Fits(cs: seq<Chunk>) {
    forall i | 0 <= i < |cs| :: |cs[i].bytes| <= cs[i].len
  }

  /** Every chunk can be read back from the image, padding included. */
  ghost predicate Holds(img: Image, cs: seq<Chunk>)
    requires Fits(cs)
  {
    forall i | 0 <= i < |cs| :: Read(img, cs[i].at, cs[i].len) == Padded(cs[i])
  }

  lemma {:induction false} PutAllOutside(img: Image, cs: seq<Chunk>, k: int)
    requires Fits(cs) && forall i | 0 <= i < |cs| :: !cs[i].Reserved().Has(k)
    ensures Get(PutAll(img, cs), k) == Get(img, k)
    decreases |cs|
  {
    hide Put, Get;
    if cs != [] {
      GetPut(img, cs[0].at, cs[0].bytes, k);
      assert !cs[0].Reserved().Has(k);
      PutAllOutside(Put(img, cs[0].at, cs[0].bytes), cs[1..], k);
    }
  }

  lemma {:induction false} ChunkByte(img: Image, cs: seq<Chunk>, i: nat, k: int)
    requires Fits(cs) && AllApart(cs) && i < |cs| && cs[i].Reserved().Has(k) && Get(img, k) == 0
    ensures Get(PutAll(img, cs), k) == Padded(cs[i])[k - cs[i].at]
    decreases |cs|
  {
    hide Put, Get;
    GetPut(img, cs[0].at, cs[0].bytes, k);
    var next := Put(img, cs[0].at, cs[0].bytes);
    if i == 0 {
      forall j | 0 <= j < |cs[1..]|
        ensures !cs[1..][j].Reserved().Has(k)
      {
        assert Apart(cs[0].Reserved(), cs[j + 1].Reserved());
      }
      PutAllOutside(next, cs[1..], k);
    } else {
      assert Apart(cs[0].Reserved(), cs[i].Reserved());
      forall a, b | 0 <= a < b < |cs[1..]|
        ensures Apart(cs[1..][a].Reserved(), cs[1..][b].Reserved())
      {
        assert Apart(cs[a + 1].Reserved(), cs[b + 1].Reserved());
      }
      ChunkByte(next, cs[1..], i - 1, k);
    }
  }

  lemma AllHeld(cs: seq<Chunk>)
    requires Fits(cs) && AllApart(cs)
    ensures Holds(PutAll(map[], cs), cs)
  {
    hide AllApart, PutAll;
    var img := PutAll(map[], cs);
    forall i | 0 <= i < |cs|
      ensures Read(img, cs[i].at, cs[i].len) == Padded(cs[i])
    {
      forall j | 0 <= j < cs[i].len
        ensures Get(img, cs[i].at + j) == Padded(cs[i])[j]
      {
        ChunkByte(map[], cs, i, cs[i].at + j);
      }
    }
  }

  lemma HoldsParts(img: Image, cs: seq<Chunk>, ds: seq<Chunk>)
    requires Fits(cs + ds) && Holds(img, cs + ds)
    ensures Fits(cs) && Fits(ds) && Holds(img, cs) && Holds(img, ds)
  {
    hide Padded;
    var es := cs + ds;
    forall i | 0 <= i < |cs|
      ensures |cs[i].bytes| <= cs[i].len && Read(img, cs[i].at, cs[i].len) == Padded(cs[i])
    {
      assert es[i] == cs[i];
    }
    forall i | 0 <= i < |ds|
      ensures |ds[i].bytes| <= ds[i].len && Read(img, ds[i].at, ds[i].len) == Padded(ds[i])
    {
      assert es[|cs| + i] == ds[i];
    }
  }
}
