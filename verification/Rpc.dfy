/** Register access by request and reply: the SMIO's client calls, carried through
the DEVIO's message handler, against plain reads and writes of a register file. */
module Rpc {
  import opened Basics
  import opened Endian
  import opened Messages

  const OPCODE_READ_32 := 3
  const OPCODE_WRITE_32 := 6
  const WORD := 4

  /** The board behind the DEVIO: its registers, and what its next accesses return
  (the number of bytes moved, four when they succeed). */
  datatype Board = Board(regs: map<int, u32>, answers: seq<int>)

  function Reg(regs: map<int, u32>, a: int): u32 {
    if a in regs then regs[a] else 0
  }

  function Answer(b: Board): int {
    if b.answers == [] then WORD else b.answers[0]
  }

  function Answered(b: Board): Board {
    if b.answers == [] then b else b.(answers := b.answers[1..])
  }

  ghost predicate Plausible(b: Board) {
    forall i | 0 <= i < |b.answers| :: -0x8000_0000 < b.answers[i] <= WORD
  }

  // Plain access.

  function ReadReg(b: Board, a: int): (Board, Option<u32>) {
    (Answered(b), if Answer(b) == WORD then Some(Reg(b.regs, a)) else None)
  }

  function WriteReg(b: Board, a: int, v: u32): (Board, bool) {
    (Answered(b).(regs := if Answer(b) == WORD then b.regs[a := v] else b.regs), Answer(b) == WORD)
  }

  // The server side.

  function Serve(b: Board, op: int, args: seq<Frame>): Outcome<Board> {
    if op == OPCODE_READ_32 && |args| == 1 then
      Outcome(Answered(b), Answer(b), BytesLE(Reg(b.regs, NatLE(args[0])), WORD))
    else if op == OPCODE_WRITE_32 && |args| == 2 && NatLE(args[1]) < TWO32 then
      Outcome(WriteReg(b, NatLE(args[0]), NatLE(args[1])).0, WORD, BytesLE(Answer(b) % TWO32, WORD))
    else Outcome(b, -1, [])
  }

  const UINT64_ARG: u32 := 0x600_0008
  const UINT32_ARG: u32 := 0x400_0004

  function Server(): Service<Board> {
    Service(map[OPCODE_READ_32 := [UINT64_ARG, ARG_END], OPCODE_WRITE_32 := [UINT64_ARG, UINT32_ARG, ARG_END]],
            (b, op, args) => Serve(b, op, args))
  }

  // The client side.

  function ReadRequest(a: u64): seq<Frame> {
    [BytesLE(OPCODE_READ_32, 4), BytesLE(a, 8)]
  }

  function WriteRequest(a: u64, v: u32): seq<Frame> {
    [BytesLE(OPCODE_WRITE_32, 4), BytesLE(a, 8), BytesLE(v, 4)]
  }

  /** Take a reply apart: how many bytes were received (-1 for none), and the bytes. */
  function Received(reply: seq<Frame>, size: nat, acceptEmpty: bool): (int, seq<byte>) {
    if reply == [] || |reply[0]| != 4 || NatLE(reply[0]) != PARAM_OK then (-1, [])
    else if |reply| == 1 then (if acceptEmpty then 0 else -1, [])
    else if |reply[1]| != 4 || |reply| == 2 then (-1, [])
    else
      var n := ToInt32(NatLE(reply[1]));
      if n < 0 || n != |reply[2]| || |reply[2]| < size then (-1, []) else (size, reply[2][..size])
  }

  function ClientRead(b: Board, a: u64): (Board, int, u32) {
    var (b', reply) := Handle(Server(), b, ReadRequest(a));
    var (n, data) := Received(reply, WORD, true);
    Pow256Widths();
    BytesNatLE(data);
    (b', n, if n == WORD then NatLE(data) else 0)
  }

  /** The byte count the server stored comes back as an unsigned word. */
  function ClientWrite(b: Board, a: u64, v: u32): (Board, int) {
    var (b', reply) := Handle(Server(), b, WriteRequest(a, v));
    var (n, data) := Received(reply, WORD, false);
    (b', if n == WORD then NatLE(data) else -1)
  }

  /** The frames on the wire: opcode 3 or 6, the address, and the word to be written. */
  lemma RequestFrames(a: u64, v: u32)
    ensures var r, w := ReadRequest(a), WriteRequest(a, v);
      && |r| == 2 && r[0] == [3, 0, 0, 0] && |r[1]| == 8 && NatLE(r[1]) == a
      && |w| == 3 && w[0] == [6, 0, 0, 0] && |w[1]| == 8 && NatLE(w[1]) == a && |w[2]| == 4 && NatLE(w[2]) == v
  {
    hide BytesLE, NatLE;
    CodeFrame(3);
    CodeFrame(6);
    Pow256Widths();
    NatBytesLE(a, 8);
    NatBytesLE(v, 4);
  }

  /** Data is taken from a reply exactly if its first frame is an OK, its second a size,
  and its third that long and long enough. */
  lemma ReceivedIff(reply: seq<Frame>, size: nat, acceptEmpty: bool)
    requires size > 0
    ensures var (n, data) := Received(reply, size, acceptEmpty);
      && (n == size <==>
          && |reply| >= 3 && reply[0] == [0, 0, 0, 0] && |reply[1]| == 4
          && NatLE(reply[1]) == |reply[2]| < 0x8000_0000 && |reply[2]| >= size)
      && (n == size ==> data == reply[2][..size])
      && (n == 0 <==> acceptEmpty && |reply| == 1 && reply[0] == [0, 0, 0, 0])
      && (n == size || n == 0 || n == -1) && (n != size ==> data == [])
  {
    hide NatLE;
    if reply != [] && |reply[0]| == 4 {
      ZeroFrame(reply[0]);
    }
    if |reply| >= 2 && |reply[1]| == 4 {
      Pow256Widths();
      BytesNatLE(reply[1]);
    }
  }

  lemma ZeroFrame(b: seq<byte>)
    requires |b| == 4
    ensures NatLE(b) == 0 <==> b == [0, 0, 0, 0]
  {
    hide NatLE;
    var z: seq<byte> := [0, 0, 0, 0];
    FourBytes(z, 0, 0, 0, 0);
    SameNumberSameBytes(b, z);
  }

  lemma TableWords()
    ensures Described([UINT64_ARG, ARG_END]) == [UINT64_ARG]
    ensures Described([UINT64_ARG, UINT32_ARG, ARG_END]) == [UINT64_ARG, UINT32_ARG]
  {
    assert [UINT64_ARG, ARG_END][1..] == [ARG_END];
    assert [UINT64_ARG, UINT32_ARG, ARG_END][1..] == [UINT32_ARG, ARG_END];
    assert [UINT32_ARG, ARG_END][1..] == [ARG_END];
    assert Described([ARG_END]) == [];
    assert Described([UINT32_ARG, ARG_END]) == [UINT32_ARG] + [];
  }

  lemma ReadHandled(b: Board, a: u64)
    ensures Handle(Server(), b, ReadRequest(a)) == (Answered(b), Format(Answer(b), BytesLE(Reg(b.regs, a), WORD)))
  {
    hide Described, BytesLE, NatLE, Format;
    Pow256Widths();
    NatBytesLE(OPCODE_READ_32, 4);
    NatBytesLE(a, 8);
    TableWords();
    var req := ReadRequest(a);
    assert req[1..] == [BytesLE(a, 8)];
    assert AllSuit([UINT64_ARG], req[1..]);
  }

  lemma WriteHandled(b: Board, a: u64, v: u32)
    ensures Handle(Server(), b, WriteRequest(a, v)) ==
      (WriteReg(b, a, v).0, Format(WORD, BytesLE(Answer(b) % TWO32, WORD)))
  {
    hide Described, BytesLE, NatLE, Format;
    Pow256Widths();
    NatBytesLE(OPCODE_WRITE_32, 4);
    NatBytesLE(a, 8);
    NatBytesLE(v, 4);
    TableWords();
    var req := WriteRequest(a, v);
    assert req[1..] == [BytesLE(a, 8), BytesLE(v, 4)];
    assert AllSuit([UINT64_ARG, UINT32_ARG], req[1..]);
  }

  lemma FullBuffer(data: seq<byte>)
    ensures Buffer(data, |data|) == data
  {
  }

  lemma FormatReceived(ret: int, data: seq<byte>, acceptEmpty: bool)
    requires -0x8000_0000 < ret <= WORD && |data| == WORD
    ensures Received(Format(ret, data), WORD, acceptEmpty) ==
      if ret == WORD then (WORD, data) else if ret == 0 && acceptEmpty then (0, []) else (-1, [])
  {
    hide BytesLE, NatLE;
    Pow256Widths();
    NatBytesLE(PARAM_OK, 4);
    if ret > 0 {
      NatBytesLE(ret, 4);
      FullBuffer(data);
      assert data[..WORD] == data;
      assert ToInt32(ret) == ret;
    } else {
      NatBytesLE(-ret, 4);
    }
  }

  /** A client read is a plain read: four bytes and the value, or a count that is not
  four. */
  lemma ClientReadRefines(b: Board, a: u64)
    requires Plausible(b)
    ensures var (b', n, v) := ClientRead(b, a);
      var (c, r) := ReadReg(b, a);
      b' == c && (n == WORD <==> r.Some?) && (r.Some? ==> v == r.value)
  {
    hide Handle, Format, Received, BytesLE, NatLE;
    Pow256Widths();
    ReadHandled(b, a);
    NatBytesLE(Reg(b.regs, a), WORD);
    FormatReceived(Answer(b), BytesLE(Reg(b.regs, a), WORD), true);
  }

  lemma ClientWriteRefines(b: Board, a: u64, v: u32)
    requires Plausible(b)
    ensures var (b', n) := ClientWrite(b, a, v);
      var (c, ok) := WriteReg(b, a, v);
      b' == c && (n == WORD <==> ok)
  {
    hide Handle, Format, Received, BytesLE, NatLE;
    Pow256Widths();
    WriteHandled(b, a, v);
    NatBytesLE(Answer(b) % TWO32, WORD);
    FormatReceived(WORD, BytesLE(Answer(b) % TWO32, WORD), false);
  }
}
