/** Placing a directory tree in the storage area (gensdbfs, step 2). */
module Layout {
  import opened Bits
  import opened Endian
  import opened Records

  // Rounding up to a block.

  function RoundUp(x: nat, bs: nat): nat
    requires bs > 0
  {
    (x + bs - 1) / bs * bs
  }

  /** The least multiple of the block size that is not below `x`. */
  lemma RoundUpLeast(x: nat, bs: nat)
    requires bs > 0
    ensures x <= RoundUp(x, bs) < x + bs
    ensures RoundUp(x, bs) % bs == 0
  {
    var y := x + bs - 1;
    assert y == bs * (y / bs) + y % bs;
    ModOf(RoundUp(x, bs), bs, y / bs, 0);
  }

  /** A multiple `m` of the block size less than one block above `x` is the result. */
  lemma RoundUpTo(x: nat, m: nat, bs: nat)
    requires bs > 0 && m % bs == 0 && x <= m < x + bs
    ensures RoundUp(x, bs) == m
  {
    var y := x + bs - 1;
    assert m == bs * (m / bs);
    ModOf(y, bs, m / bs, y - m);
  }

  /** SDB_ALIGN: the mask is 32 bits wide, the argument 64. */
  function SdbAlign(x: u64, bs: u32): nat
    requires bs > 0
  {
    Pow2Widths();
    And(Add64(x, bs - 1), Not(bs - 1, 32))
  }

  lemma Pow2Below(k: nat)
    requires k < 32
    ensures 0 < Pow2(k) < TWO32
  {
    Pow2Widths();
    Pow2Monotone(k + 1, 32);
  }

  lemma SdbAlignValue(x: u64, k: nat)
    requires k < 32 && x + Pow2(k) - 1 < TWO64
    ensures 0 < Pow2(k) < TWO32
    ensures var y := x + Pow2(k) - 1; SdbAlign(x, Pow2(k)) == y % TWO32 - y % Pow2(k)
  {
    hide And, Low, Pow2;
    Pow2Widths();
    Pow2Below(k);
    var y := x + Pow2(k) - 1;
    assert Add64(x, Pow2(k) - 1) == y;
    AndHighMask(y, k, 32);
    LowIsMod(y, 32);
    LowIsMod(y, k);
  }

  lemma RoundUpValue(x: nat, bs: nat)
    requires bs > 0
    ensures var y := x + bs - 1; RoundUp(x, bs) == y - y % bs
  {
  }

  /** For a block size that is a power of two, SDB_ALIGN rounds up exactly when
  nothing reaches bit 32; above that it drops whole multiples of 2^32. */
  lemma SdbAlignRounds(x: u64, k: nat)
    requires k < 32 && x + Pow2(k) - 1 < TWO64
    ensures 0 < Pow2(k) < TWO32
    ensures SdbAlign(x, Pow2(k)) == RoundUp(x, Pow2(k)) <==> x + Pow2(k) - 1 < TWO32
  {
    hide SdbAlign, RoundUp, Pow2;
    SdbAlignValue(x, k);
    RoundUpValue(x, Pow2(k));
  }

  // The block size may be any number.

  ghost predicate IsPow2(n: nat) {
    exists k: nat :: n == Pow2(k)
  }

  /** Subtracting one clears no bit in common exactly of a power of two. */
  lemma {:induction false} SharesNone(b: nat)
    requires b > 0 && And(b, b - 1) == 0
    ensures IsPow2(b)
  {
    if b % 2 == 1 {
      AndSelf(b / 2);
      assert b == Pow2(0);
    } else {
      assert (b - 1) / 2 == b / 2 - 1;
      SharesNone(b / 2);
      var k: nat :| b / 2 == Pow2(k);
      assert b == Pow2(k + 1);
    }
  }

  lemma {:induction false} AndSelf(x: nat)
    ensures And(x, x) == x
  {
    if x > 0 {
      AndSelf(x / 2);
    }
  }

  /** The value one is rounded up to the block size only if no bit of it is masked. */
  lemma AlignOne(bs: u32)
    requires bs > 0 && SdbAlign(1, bs) == RoundUp(1, bs)
    ensures IsPow2(bs)
  {
    hide And, Not, RoundUp, IsPow2;
    Pow2Widths();
    RoundUpLeast(1, bs);
    RoundUpTo(1, bs, bs);
    var m := Not(bs - 1, 32);
    assert And(bs, m) == bs;
    forall i: nat
      ensures Bit(And(bs, bs - 1), i) == Bit(0, i)
    {
      BitAnd(bs, bs - 1, i);
      BitAnd(bs, m, i);
      BitNot(bs - 1, 32, i);
      BitZero(i);
    }
    SameBits(And(bs, bs - 1), 0);
    SharesNone(bs);
  }

  /** SDB_ALIGN rounds every small value up if and only if the block size is a power of
  two. */
  lemma AlignsIffPow2(bs: u32)
    requires bs > 0
    ensures (forall x: nat | x + bs - 1 < TWO32 :: SdbAlign(x, bs) == RoundUp(x, bs)) <==> IsPow2(bs)
  {
    hide SdbAlign, RoundUp;
    if forall x: nat | x + bs - 1 < TWO32 :: SdbAlign(x, bs) == RoundUp(x, bs) {
      assert SdbAlign(1, bs) == RoundUp(1, bs);
      AlignOne(bs);
    }
    if IsPow2(bs) {
      var k: nat :| bs == Pow2(k);
      if k >= 32 {
        Pow2Monotone(32, k);
        Pow2Widths();
      }
      forall x: nat | x + bs - 1 < TWO32
        ensures SdbAlign(x, bs) == RoundUp(x, bs)
      {
        SdbAlignRounds(x, k);
      }
    }
  }

  // The tree, as read from the source directory and its config files.

  datatype Place = Auto | Fixed(start: nat)

  datatype Dir = Dir(product: Product, kids: seq<Node>)

  datatype Node =
    | File(product: Product, flags: u32, size: nat, place: Place, content: seq<byte>)
    | Sub(product: Product, size: nat, place: Place, dir: Dir)

  // The same tree after allocation.

  /** `base` is absolute; `table`, `first`, `child` and `last` are relative to it. */
  datatype LaidDir = LaidDir(product: Product, base: nat, table: nat, kids: seq<Laid>, last: int)

  datatype Laid =
    | LaidFile(product: Product, first: nat, size: nat, fixed: bool, flags: u32, content: seq<byte>)
    | LaidSub(product: Product, first: nat, size: nat, fixed: bool, child: nat, dir: LaidDir)
  {
    /** The last address of the record's own range, as it is written. */
    function Last(): int { first + size - 1 }
  }

  function Max(a: int, b: int): int {
    if a > b then a else b
  }

  function TableSize(n: nat): nat {
    RECORD_SIZE * (n + 1)
  }

  function FirstPos(d: Dir, table: nat, bs: nat): nat
    requires bs > 0
  {
    table + RoundUp(TableSize(|d.kids|), bs)
  }

  /** The layout, in exact arithmetic. */
  function Lay(d: Dir, base: nat, table: nat, bs: nat): (l: LaidDir)
    requires bs > 0
    ensures |l.kids| == |d.kids| && l.base == base && l.table == table
    decreases d
  {
    var kids := LayKids(d.kids, base, FirstPos(d, table, bs), bs);
    LaidDir(d.product, base, table, kids, LastOf(kids, FirstPos(d, table, bs)))
  }

  function LayKids(kids: seq<Node>, base: nat, rpos: nat, bs: nat): (ls: seq<Laid>)
    requires bs > 0
    ensures |ls| == |kids|
    decreases kids
  {
    if kids == [] then []
    else
      var l := LayNode(kids[0], base, rpos, bs);
      [l] + LayKids(kids[1..], base, After(l, rpos, bs), bs)
  }

  function LayNode(n: Node, base: nat, rpos: nat, bs: nat): Laid
    requires bs > 0
    decreases n
  {
    var first := if n.place.Fixed? then n.place.start else rpos;
    match n
    case File(product, flags, size, place, content) =>
      LaidFile(product, first, size, place.Fixed?, flags, content)
    case Sub(product, size, place, dir) =>
      var sub := Lay(dir, base + rpos, 0, bs);
      LaidSub(product, first, Max(size, sub.last), place.Fixed?, rpos, sub)
  }

  /** Where the next entry goes; an entry with a fixed place does not move it. */
  function After(l: Laid, rpos: nat, bs: nat): nat
    requires bs > 0
  {
    if l.fixed then rpos else RoundUp(rpos + l.size, bs)
  }

  function LastOf(kids: seq<Laid>, start: nat): int {
    if kids == [] then start
    else Max(LastOf(kids[..|kids| - 1], start), kids[|kids| - 1].Last())
  }

  // Everything stays clear of the 32-bit mask, and counts fit their field.

  predicate Small(l: LaidDir, bs: nat)
    decreases l
  {
    && |l.kids| + 1 < 0x1_0000
    && 0 <= l.last < TWO32
    && l.base < TWO32
    && l.table + TableSize(|l.kids|) + bs <= TWO32
    && SmallKids(l.kids, bs)
  }

  predicate SmallKids(kids: seq<Laid>, bs: nat)
    decreases kids
  {
    kids != [] ==> SmallNode(kids[0], bs) && SmallKids(kids[1..], bs)
  }

  predicate SmallNode(k: Laid, bs: nat)
    decreases k
  {
    && 1 <= k.first + k.size && k.first + k.size + bs <= TWO32
    && (k.LaidSub? ==> k.child + k.size + bs <= TWO32 && Small(k.dir, bs))
  }

  lemma Aligned(x: nat, k: nat)
    requires k < 32 && x + Pow2(k) <= TWO32
    ensures 0 < Pow2(k) < TWO32
    ensures SdbAlign(x, Pow2(k)) == RoundUp(x, Pow2(k))
  {
    hide SdbAlign, RoundUp;
    Pow2Widths();
    SdbAlignRounds(x, k);
  }

  /** Give one entry its place; a directory first allocates itself. */
  method PlaceNode(f: Node, base: nat, rpos: nat, bs: u32, ghost k: nat) returns (l: Laid)
    requires k < 32 && bs == Pow2(k)
    requires SmallNode(LayNode(f, base, rpos, bs), bs)
    ensures l == LayNode(f, base, rpos, bs)
    decreases f
  {
    var first := if f.place.Fixed? then f.place.start else rpos;
    match f
    case File(product, flags, size, place, content) =>
      l := LaidFile(product, first, size, place.Fixed?, flags, content);
    case Sub(product, usize, place, dir) =>
      var sub := AllocStorage(dir, base + rpos, 0, bs, k);
      var size := usize;
      if sub.last > size {
        size := sub.last;
      }
      l := LaidSub(product, first, size, place.Fixed?, rpos, sub);
  }

  /** Allocate storage for a directory and, on the way, for each one inside it. */
  method AllocStorage(d: Dir, base: nat, table: nat, bs: u32, ghost k: nat) returns (l: LaidDir)
    requires k < 32 && bs == Pow2(k)
    requires Small(Lay(d, base, table, bs), bs)
    ensures l == Lay(d, base, table, bs)
    decreases d
  {
    hide And, SdbAlign, RoundUp, Pow2, Lay, LayKids, LayNode, LastOf, Small, SmallNode, SmallKids;
    AllocStart(d, base, table, bs);
    ghost var start := FirstPos(d, table, bs);
    ghost var goal := LayKids(d.kids, base, start, bs);
    var n := |d.kids| + 1;
    Aligned(n * RECORD_SIZE, k);
    var rpos: nat := table + SdbAlign(n * RECORD_SIZE, bs);
    var last: int := rpos;
    var kids: seq<Laid> := [];
    ghost var ahead, todo := goal, d.kids;
    assert todo == d.kids[0..];
    LastNone(start);
    var i := 1;
    while i < n
      invariant 1 <= i <= n
      invariant todo == d.kids[i - 1..] && ahead == LayKids(todo, base, rpos, bs)
      invariant kids + ahead == goal && SmallKids(ahead, bs)
      invariant last == LastOf(kids, start)
    {
      AllocStep(todo, base, rpos, bs);
      var f := PlaceNode(d.kids[i - 1], base, rpos, bs, k);
      var end := f.first + f.size - 1;
      if end > last {
        last := end;
      }
      LastSnoc(kids, f, start);
      Snoc(kids, f, ahead);
      kids, ahead, todo := kids + [f], ahead[1..], todo[1..];
      if !f.fixed {
        Aligned(rpos + f.size, k);
        rpos := SdbAlign(rpos + f.size, bs);
      }
      i := i + 1;
    }
    LayNone(base, rpos, bs);
    assert kids == goal;
    l := LaidDir(d.product, base, table, kids, last);
  }

  lemma AllocStart(d: Dir, base: nat, table: nat, bs: nat)
    requires bs > 0 && Small(Lay(d, base, table, bs), bs)
    ensures var kids := LayKids(d.kids, base, FirstPos(d, table, bs), bs);
      && TableSize(|d.kids|) + bs <= TWO32 && SmallKids(kids, bs)
      && Lay(d, base, table, bs) == LaidDir(d.product, base, table, kids, LastOf(kids, FirstPos(d, table, bs)))
  {
  }

  lemma LayNone(base: nat, rpos: nat, bs: nat)
    requires bs > 0
    ensures LayKids([], base, rpos, bs) == []
  {
  }

  lemma AllocStep(ks: seq<Node>, base: nat, rpos: nat, bs: nat)
    requires bs > 0 && ks != [] && SmallKids(LayKids(ks, base, rpos, bs), bs)
    ensures var f := LayNode(ks[0], base, rpos, bs);
      var rest := LayKids(ks[1..], base, After(f, rpos, bs), bs);
      && |LayKids(ks, base, rpos, bs)| >= 1
      && LayKids(ks, base, rpos, bs)[0] == f && LayKids(ks, base, rpos, bs)[1..] == rest
      && SmallNode(f, bs) && SmallKids(rest, bs)
      && (!f.fixed ==> rpos + f.size + bs <= TWO32)
  {
    hide Lay, RoundUp;
    var ls := LayKids(ks, base, rpos, bs);
    var f := LayNode(ks[0], base, rpos, bs);
    assert ls[1..] == LayKids(ks[1..], base, After(f, rpos, bs), bs);
    assert SmallNode(ls[0], bs);
  }

  lemma Snoc<T>(a: seq<T>, x: T, ahead: seq<T>)
    requires |ahead| >= 1 && ahead[0] == x
    ensures a + ahead == (a + [x]) + ahead[1..]
  {
  }

  lemma LastNone(start: nat)
    ensures LastOf([], start) == start
  {
  }

  lemma LastSnoc(kids: seq<Laid>, f: Laid, start: nat)
    ensures LastOf(kids + [f], start) == Max(LastOf(kids, start), f.Last())
  {
    assert (kids + [f])[..|kids|] == kids;
  }
}
