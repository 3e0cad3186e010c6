/** What a complete scan lists, as a recursion over the tables of an image.

The scanner keeps a stack of at most SDBFS_DEPTH directories; here the same
order falls out of three mutually recursive functions. Nothing assumes that the
child pointers form a tree: the depth limit alone makes the recursion end. */
module Listing {
  import opened Endian
  import opened Records
  import opened Images

  const DEPTH := 4

  /** A record together with the directory it was found in. */
  datatype Entry = Entry(rec: Record, base: u64, depth: nat) {
    /** Where the record's own range starts. */
    function Offset(): u64 { Add64(base, AddrFirst(rec)) }
  }

  /** How many records follow the head `head`. The scanner subtracts one from the
  count and stops only at zero, so a table that claims no record at all, not even
  its head, makes it go once round an `int`. */
  function Remaining(head: Record): (n: nat)
    ensures n < TWO32
  {
    (NumRecords(head) - 1) % TWO32
  }

  /** A whole table: its interconnect record, then what follows it. */
  function Table(dev: Device, at: u64, base: u64, d: nat): (es: seq<Entry>)
    requires d < DEPTH
    ensures |es| >= 1
    decreases DEPTH - d, TWO32, 0
  {
    var head := ReadEntry(dev, at);
    [Entry(head, base, d)] + Rest(dev, Add64(at, RECORD_SIZE), Remaining(head), base, d)
  }

  /** The next `n` records from `at`, each bridge followed by its contents. */
  function Rest(dev: Device, at: u64, n: nat, base: u64, d: nat): seq<Entry>
    requires d < DEPTH
    decreases DEPTH - d, n, 1
  {
    if n == 0 then []
    else
      var rec := ReadEntry(dev, at);
      [Entry(rec, base, d)] + (Inside(dev, rec, base, d) + Rest(dev, Add64(at, RECORD_SIZE), n - 1, base, d))
  }

  predicate Opens(dev: Device, rec: Record, base: u64, d: nat) {
    && IsBridge(rec)
    && d + 1 < DEPTH
    && IsTable(ReadEntry(dev, Add64(base, Child(rec))))
  }

  /** Four levels: a bridge to a table is entered at the first three of them. */
  lemma OpensIff(dev: Device, rec: Record, base: u64, d: nat)
    requires rec[63] == 2 && IsTable(ReadEntry(dev, Add64(base, Child(rec))))
    ensures Opens(dev, rec, base, d) <==> d < 3
  {
  }

  /** The contents of a record: nothing, unless it is a bridge to a table that is
  really there and not nested too deep. */
  function Inside(dev: Device, rec: Record, base: u64, d: nat): seq<Entry>
    requires d < DEPTH
    decreases DEPTH - d, 0, 0
  {
    if Opens(dev, rec, base, d) then
      Table(dev, Add64(base, Child(rec)), Add64(base, AddrFirst(rec)), d + 1)
    else []
  }

  // However the child pointers are linked, a listing is finite and bounded.

  /** The most entries a table at depth `d` can lead to. */
  function Most(d: nat): nat
    decreases DEPTH - d
  {
    if d >= DEPTH then 0 else TWO32 * (1 + Most(d + 1))
  }

  lemma {:induction false} TableBound(dev: Device, at: u64, base: u64, d: nat)
    requires d < DEPTH
    ensures |Table(dev, at, base, d)| <= Most(d)
    decreases DEPTH - d, TWO32, 0
  {
    hide Rest, ReadEntry, Remaining;
    var more := Remaining(ReadEntry(dev, at));
    RestBound(dev, Add64(at, RECORD_SIZE), more, base, d);
    Product(more, TWO32 - 1, 1 + Most(d + 1));
  }

  lemma Product(n: nat, m: nat, k: nat)
    requires n <= m && k >= 1
    ensures 1 + n * k <= (m + 1) * k
  {
    assert (m + 1) * k == m * k + k;
    assert n * k <= m * k;
  }

  lemma {:induction false} RestBound(dev: Device, at: u64, n: nat, base: u64, d: nat)
    requires d < DEPTH
    ensures |Rest(dev, at, n, base, d)| <= n * (1 + Most(d + 1))
    decreases DEPTH - d, n, 1
  {
    hide Inside, ReadEntry, Most;
    if n > 0 {
      InsideBound(dev, ReadEntry(dev, at), base, d);
      RestBound(dev, Add64(at, RECORD_SIZE), n - 1, base, d);
      assert n * (1 + Most(d + 1)) == (n - 1) * (1 + Most(d + 1)) + (1 + Most(d + 1));
    }
  }

  lemma {:induction false} InsideBound(dev: Device, rec: Record, base: u64, d: nat)
    requires d < DEPTH
    ensures |Inside(dev, rec, base, d)| <= Most(d + 1)
    decreases DEPTH - d, 0, 0
  {
    hide Table, Most;
    if Opens(dev, rec, base, d) {
      TableBound(dev, Add64(base, Child(rec)), Add64(base, AddrFirst(rec)), d + 1);
    }
  }

  lemma {:induction false} RestLength(dev: Device, at: u64, n: nat, base: u64, d: nat)
    requires d < DEPTH
    ensures |Rest(dev, at, n, base, d)| >= n
    decreases n
  {
    hide Inside, ReadEntry;
    if n > 0 {
      RestLength(dev, Add64(at, RECORD_SIZE), n - 1, base, d);
    }
  }

  /** A table lists at least as many entries as it counts; one that counts none
  lists at least 2^32, whatever the image holds. */
  lemma CountIsHonoured(dev: Device, at: u64, base: u64, d: nat)
    requires d < DEPTH
    ensures var n := NumRecords(ReadEntry(dev, at));
      |Table(dev, at, base, d)| >= if n == 0 then TWO32 else n
  {
    hide Rest, ReadEntry, NumRecords;
    FieldRanges(ReadEntry(dev, at));
    RestLength(dev, Add64(at, RECORD_SIZE), Remaining(ReadEntry(dev, at)), base, d);
  }

  // The scanner's stack, read as work still to do.

  /** The arrays `base`, `this` and `nleft`, and how many levels are in use. */
  datatype Stack = Stack(base: seq<int>, pos: seq<int>, nleft: seq<int>, depth: int) {
    ghost predicate Valid() {
      && 0 <= depth < DEPTH && |base| == |pos| == |nleft| == DEPTH
      && (forall i | 0 <= i < DEPTH :: 0 <= base[i] < TWO64)
      && (forall i | 0 <= i < DEPTH :: 0 <= pos[i] < TWO64)
      && (forall i | 0 <= i < DEPTH :: nleft[i] >= 0)
    }

    ghost predicate AgreesTo(other: Stack, d: int)
      requires Valid() && other.Valid() && d < DEPTH
    {
      forall i | 0 <= i <= d :: base[i] == other.base[i] && pos[i] == other.pos[i] && nleft[i] == other.nleft[i]
    }
  }

  ghost function Pending(dev: Device, s: Stack): seq<Entry>
    requires s.Valid()
    decreases s.depth
  {
    Rest(dev, s.pos[s.depth], s.nleft[s.depth], s.base[s.depth], s.depth) +
    if s.depth == 0 then [] else Pending(dev, s.(depth := s.depth - 1))
  }

  /** All that is still to be listed after `rec` was returned. */
  ghost function Todo(dev: Device, rec: Record, s: Stack): seq<Entry>
    requires s.Valid()
  {
    Inside(dev, rec, s.base[s.depth], s.depth) + Pending(dev, s)
  }

  /** Levels above the depth are dead: overwriting them changes no work to do. */
  lemma {:induction false} PendingFrame(dev: Device, s: Stack, t: Stack)
    requires s.Valid() && t.Valid() && s.depth == t.depth && s.AgreesTo(t, s.depth)
    ensures Pending(dev, s) == Pending(dev, t)
    decreases s.depth
  {
    hide Rest;
    if s.depth > 0 {
      PendingFrame(dev, s.(depth := s.depth - 1), t.(depth := t.depth - 1));
    }
  }

  /** Reading the next record of the current table. */
  function Advance(s: Stack): (t: Stack)
    requires s.Valid() && s.nleft[s.depth] > 0
    ensures t.Valid()
  {
    var d := s.depth;
    Stack(s.base, s.pos[d := Add64(s.pos[d], RECORD_SIZE)], s.nleft[d := s.nleft[d] - 1], d)
  }

  lemma BelowFrame(dev: Device, s: Stack, t: Stack)
    requires s.Valid() && t.Valid() && s.depth == t.depth > 0 && s.AgreesTo(t, s.depth - 1)
    ensures Pending(dev, s.(depth := s.depth - 1)) == Pending(dev, t.(depth := s.depth - 1))
  {
    PendingFrame(dev, s.(depth := s.depth - 1), t.(depth := s.depth - 1));
  }

  lemma Regroup<T>(e: T, a: seq<T>, b: seq<T>, c: seq<T>)
    ensures ([e] + (a + b)) + c == [e] + (a + (b + c))
  {
  }

  lemma Join<T>(e: T, more: seq<T>, rest: seq<T>, inside: seq<T>, none: seq<T>, joined: seq<T>)
    requires inside == [e] + more && none == [] && joined == more + rest
    ensures inside + rest == [e] + (none + joined)
  {
  }

  ghost function Below(dev: Device, s: Stack): seq<Entry>
    requires s.Valid()
  {
    if s.depth == 0 then [] else Pending(dev, s.(depth := s.depth - 1))
  }

  lemma RestSome(dev: Device, at: u64, n: nat, base: u64, d: nat)
    requires d < DEPTH && n > 0
    ensures var rec := ReadEntry(dev, at);
      Rest(dev, at, n, base, d) ==
      [Entry(rec, base, d)] + (Inside(dev, rec, base, d) + Rest(dev, Add64(at, RECORD_SIZE), n - 1, base, d))
  {
    hide Inside, ReadEntry;
  }

  lemma AdvanceLists(dev: Device, s: Stack)
    requires s.Valid() && s.nleft[s.depth] > 0
    ensures var rec := ReadEntry(dev, s.pos[s.depth]);
      Pending(dev, s) == [Entry(rec, s.base[s.depth], s.depth)] + Todo(dev, rec, Advance(s))
  {
    hide Rest, Inside, ReadEntry;
    var t, d := Advance(s), s.depth;
    RestSome(dev, s.pos[d], s.nleft[d], s.base[d], d);
    if d > 0 {
      BelowFrame(dev, s, t);
    }
    assert Below(dev, s) == Below(dev, t);
    var rec := ReadEntry(dev, s.pos[d]);
    Regroup(Entry(rec, s.base[d], d), Inside(dev, rec, s.base[d], d),
            Rest(dev, t.pos[d], t.nleft[d], t.base[d], d), Below(dev, s));
  }

  /** Going into the bridge `rec`, before its table has been checked. */
  function Aim(rec: Record, s: Stack): (t: Stack)
    requires s.Valid() && s.depth + 1 < DEPTH
    ensures t.Valid() && t.depth == s.depth && t.AgreesTo(s, s.depth)
  {
    var d := s.depth;
    Stack(s.base[d + 1 := Add64(s.base[d], AddrFirst(rec))], s.pos[d + 1 := Add64(s.base[d], Child(rec))],
          s.nleft, d)
  }

  /** Having found the table `head` at the position of level `d`. */
  function Enter(head: Record, s: Stack, d: int): (t: Stack)
    requires s.Valid() && 0 <= d < DEPTH
    ensures t.Valid() && t.depth == d && t.AgreesTo(s, d - 1)
  {
    Stack(s.base, s.pos[d := Add64(s.pos[d], RECORD_SIZE)], s.nleft[d := Remaining(head)], d)
  }

  /** The table a bridge leads to: its head, and the stack inside it. */
  function ChildAt(rec: Record, s: Stack): u64
    requires s.Valid()
  {
    Add64(s.base[s.depth], Child(rec))
  }

  function Descend(dev: Device, rec: Record, s: Stack): (t: Stack)
    requires s.Valid() && s.depth + 1 < DEPTH
    ensures t.Valid() && t.depth == s.depth + 1 && t.AgreesTo(s, s.depth)
  {
    Enter(ReadEntry(dev, ChildAt(rec, s)), Aim(rec, s), s.depth + 1)
  }

  lemma InsideIsTable(dev: Device, rec: Record, base: u64, d: nat)
    requires Opens(dev, rec, base, d)
    ensures Inside(dev, rec, base, d) == Table(dev, Add64(base, Child(rec)), Add64(base, AddrFirst(rec)), d + 1)
  {
  }

  lemma TableParts(dev: Device, at: u64, base: u64, d: nat)
    requires d < DEPTH
    ensures var head := ReadEntry(dev, at);
      Table(dev, at, base, d) == [Entry(head, base, d)] + Rest(dev, Add64(at, RECORD_SIZE), Remaining(head), base, d)
  {
    hide Rest, ReadEntry, Remaining;
  }

  /** The head of a table is no bridge: nothing is listed between it and the rest. */
  lemma InsideHead(dev: Device, head: Record, base: u64, d: nat)
    requires IsTable(head) && d < DEPTH
    ensures Inside(dev, head, base, d) == []
  {
    assert !Opens(dev, head, base, d);
  }

  lemma EnterLists(dev: Device, rec: Record, s: Stack)
    requires s.Valid() && Opens(dev, rec, s.base[s.depth], s.depth)
    ensures var head, t := ReadEntry(dev, ChildAt(rec, s)), Descend(dev, rec, s);
      Todo(dev, rec, s) == [Entry(head, t.base[t.depth], t.depth)] + Todo(dev, head, t)
  {
    hide Table, Rest, Inside, ReadEntry, Remaining;
    var d, head, t := s.depth, ReadEntry(dev, ChildAt(rec, s)), Descend(dev, rec, s);
    var e, more := Entry(head, t.base[d + 1], d + 1), Rest(dev, t.pos[d + 1], t.nleft[d + 1], t.base[d + 1], d + 1);
    assert Inside(dev, rec, s.base[d], d) == [e] + more by {
      InsideIsTable(dev, rec, s.base[d], d);
      TableParts(dev, ChildAt(rec, s), t.base[d + 1], d + 1);
    }
    assert Inside(dev, head, t.base[d + 1], d + 1) == [] by {
      InsideHead(dev, head, t.base[d + 1], d + 1);
    }
    assert Pending(dev, t) == more + Pending(dev, s) by {
      PendingFrame(dev, s, t.(depth := d));
    }
    Join(e, more, Pending(dev, s), Inside(dev, rec, s.base[d], d), Inside(dev, head, t.base[d + 1], d + 1),
         Pending(dev, t));
  }

  /** Leaving the levels with nothing left ("cd .."). */
  ghost function Pop(s: Stack): (t: Stack)
    requires s.Valid()
    ensures t.Valid()
    decreases s.depth
  {
    if s.nleft[s.depth] == 0 && s.depth > 0 then Pop(s.(depth := s.depth - 1)) else s
  }

  lemma RestNone(dev: Device, at: u64, base: u64, d: nat)
    requires d < DEPTH
    ensures Rest(dev, at, 0, base, d) == []
  {
  }

  lemma {:induction false} PopLists(dev: Device, s: Stack)
    requires s.Valid()
    ensures Pending(dev, Pop(s)) == Pending(dev, s)
    ensures Pop(s).nleft[Pop(s).depth] == 0 ==> Pending(dev, s) == []
    decreases s.depth
  {
    hide Rest;
    if s.nleft[s.depth] == 0 {
      RestNone(dev, s.pos[s.depth], s.base[s.depth], s.depth);
      if s.depth > 0 {
        PopLists(dev, s.(depth := s.depth - 1));
      }
    }
  }

  /** One step of the scanner: the record returned and the stack after it. */
  datatype Move = End(at: Stack) | Found(rec: Record, at: Stack)

  ghost function Resume(dev: Device, s: Stack): (m: Move)
    requires s.Valid()
    ensures m.at.Valid()
  {
    var t := Pop(s);
    if t.nleft[t.depth] == 0 then End(t) else Found(ReadEntry(dev, t.pos[t.depth]), Advance(t))
  }

  ghost function Next(dev: Device, rec: Record, s: Stack): (m: Move)
    requires s.Valid()
    ensures m.at.Valid()
  {
    if Opens(dev, rec, s.base[s.depth], s.depth) then
      Found(ReadEntry(dev, ChildAt(rec, s)), Descend(dev, rec, s))
    else if IsBridge(rec) && s.depth + 1 < DEPTH then Resume(dev, Aim(rec, s))
    else Resume(dev, s)
  }

  /** A step returns the head of the work list and leaves its tail. */
  ghost predicate Yields(dev: Device, todo: seq<Entry>, m: Move)
    requires m.at.Valid()
  {
    if m.End? then todo == []
    else todo == [Entry(m.rec, m.at.base[m.at.depth], m.at.depth)] + Todo(dev, m.rec, m.at)
  }

  lemma ResumeLists(dev: Device, s: Stack)
    requires s.Valid()
    ensures Yields(dev, Pending(dev, s), Resume(dev, s))
  {
    var t := Pop(s);
    PopLists(dev, s);
    if t.nleft[t.depth] > 0 {
      AdvanceLists(dev, t);
    }
  }

  /** The record left as the current one when nothing follows `e`: `e` itself, or what was
  found in place of a table if `e` is a bridge. */
  function LeftBehind(dev: Device, e: Entry): Record {
    if IsBridge(e.rec) && e.depth + 1 < DEPTH then ReadEntry(dev, Add64(e.base, Child(e.rec))) else e.rec
  }

  lemma {:induction false} PopBottom(s: Stack)
    requires s.Valid()
    ensures Pop(s).nleft[Pop(s).depth] == 0 ==> Pop(s).depth == 0
    decreases s.depth
  {
    if s.nleft[s.depth] == 0 && s.depth > 0 {
      PopBottom(s.(depth := s.depth - 1));
    }
  }

  /** A scan that has ended is back at the bottom with nothing pending. */
  lemma ResumeEnds(dev: Device, s: Stack)
    requires s.Valid() && Resume(dev, s).End?
    ensures var t := Resume(dev, s).at; t.depth == 0 && Pending(dev, t) == []
  {
    hide Pending;
    PopBottom(s);
    PopLists(dev, s);
  }

  lemma NextEnds(dev: Device, rec: Record, s: Stack)
    requires s.Valid() && Next(dev, rec, s).End?
    ensures var t := Next(dev, rec, s).at; t.depth == 0 && Pending(dev, t) == []
  {
    hide Resume, Pending;
    if IsBridge(rec) && s.depth + 1 < DEPTH {
      ResumeEnds(dev, Aim(rec, s));
    } else {
      ResumeEnds(dev, s);
    }
  }

  lemma NextLists(dev: Device, rec: Record, s: Stack)
    requires s.Valid()
    ensures Yields(dev, Todo(dev, rec, s), Next(dev, rec, s))
  {
    hide Table, Rest, ReadEntry, Remaining;
    if Opens(dev, rec, s.base[s.depth], s.depth) {
      EnterLists(dev, rec, s);
    } else {
      assert Inside(dev, rec, s.base[s.depth], s.depth) == [];
      ResumeLists(dev, s);
      if IsBridge(rec) && s.depth + 1 < DEPTH {
        var t := Aim(rec, s);
        PendingFrame(dev, s, t);
        ResumeLists(dev, t);
      }
    }
  }

  /** Entering the table at the entry point lists all that follows its head. */
  lemma StartLists(dev: Device, at: u64, s: Stack)
    requires s.Valid() && s.depth == 0 && s.base[0] == 0 && s.pos[0] == at
    requires IsTable(ReadEntry(dev, at))
    ensures var head := ReadEntry(dev, at);
      Table(dev, at, 0, 0) == [Entry(head, 0, 0)] + Todo(dev, head, Enter(head, s, 0))
  {
    hide Rest, Inside, ReadEntry, Remaining;
    var head := ReadEntry(dev, at);
    var t := Enter(head, s, 0);
    TableParts(dev, at, 0, 0);
    InsideHead(dev, head, 0, 0);
    assert Pending(dev, t) == Rest(dev, t.pos[0], t.nleft[0], 0, 0);
  }

  lemma BottomLists(dev: Device, s: Stack)
    requires s.Valid() && s.depth == 0
    ensures Pending(dev, s) == Rest(dev, s.pos[0], s.nleft[0], s.base[0], 0)
  {
    hide Rest;
  }
}
