/** SET and GET of a parameter: read, modify, write back, through the DEVIO. */
module Params {
  import opened Bits
  import opened Basics
  import opened Endian
  import opened Messages
  import opened Rpc
  import opened Fields

  const RW_OK := 0
  const RW_USR_ERR := 2
  const RW_INV := 3
  const RW_READ_EAGAIN := 4
  const RW_WRITE_EAGAIN := 5

  /** Optional bounds on a value. */
  datatype Limits = Unlimited | Between(min: u32, max: u32)

  predicate Allows(limits: Limits, chk: u32 -> bool, value: u32) {
    (limits.Between? ==> limits.min <= value <= limits.max) && chk(value)
  }

  /** A SET in terms of plain register access. When the read fails the code still
  writes, modifying whatever its local variable happens to contain. */
  function SetOutcome(b: Board, a: u64, f: Field, value: u32, allowed: bool, garbage: u32): (Board, int)
    requires f.Valid()
  {
    if !allowed then (b, RW_USR_ERR)
    else
      var (c, r) := ReadReg(b, a);
      var (d, ok) := WriteReg(c, a, Updated(f, if r.Some? then r.value else garbage, value));
      (d, if r.Some? && ok then RW_OK else RW_WRITE_EAGAIN)
  }

  function GetOutcome(b: Board, a: u64, f: Field, garbage: u32): (Board, int, nat)
    requires f.Valid()
  {
    var (c, r) := ReadReg(b, a);
    (c, if r.Some? then RW_OK else RW_READ_EAGAIN, Extract(f, if r.Some? then r.value else garbage))
  }

  /** What the `k`-th of the next accesses answers: the bytes moved, four if it succeeds. */
  function NthAnswer(b: Board, k: nat): int {
    if k < |b.answers| then b.answers[k] else 4
  }

  /** A GET changes no register and uses up one answer; it reports success exactly if the
  access moved four bytes, and then returns the field's bits. */
  lemma GetExact(b: Board, a: u64, f: Field, garbage: u32)
    requires f.Valid()
    ensures var (c, err, v) := GetOutcome(b, a, f, garbage);
      && c.regs == b.regs && (forall k: nat :: NthAnswer(c, k) == NthAnswer(b, k + 1))
      && (err == 0 <==> NthAnswer(b, 0) == 4) && (err == 4 <==> NthAnswer(b, 0) != 4)
      && (err == 0 ==> forall i: nat :: Bit(v, i) == (i < f.Size() && Bit(Reg(b.regs, a), f.off + i)))
  {
    hide Extract, Bit;
    forall i: nat
      ensures Bit(Extract(f, Reg(b.regs, a)), i) == (i < f.Size() && Bit(Reg(b.regs, a), f.off + i))
    {
      ExtractBit(f, Reg(b.regs, a), i);
    }
  }

  /** A single bit is set for every value but zero; a wider field takes the value's bits. */
  predicate ValueBit(f: Field, value: u32, i: nat) {
    if f.Flag? then value != 0 else Bit(value, i)
  }

  /** A SET that is not allowed does nothing. One that is makes two accesses, reports success
  exactly if both moved four bytes, and writes exactly if the second did: the value into
  the field, and around it the register as read, or the leftover if reading failed. */
  lemma SetExact(b: Board, a: u64, f: Field, value: u32, allowed: bool, garbage: u32)
    requires f.Valid()
    ensures var (c, err) := SetOutcome(b, a, f, value, allowed, garbage);
      && (!allowed ==> c == b && err == 2)
      && (allowed ==>
          && (err == 0 <==> NthAnswer(b, 0) == 4 && NthAnswer(b, 1) == 4) && (err != 0 ==> err == 5)
          && (forall k: nat :: NthAnswer(c, k) == NthAnswer(b, k + 2))
          && (forall x | x != a :: Reg(c.regs, x) == Reg(b.regs, x))
          && (NthAnswer(b, 1) != 4 ==> c.regs == b.regs)
          && (NthAnswer(b, 1) == 4 ==>
              var v := if NthAnswer(b, 0) == 4 then Reg(b.regs, a) else garbage;
              forall i: nat ::
                Bit(Reg(c.regs, a), i) == (if f.Has(i) then ValueBit(f, value, i - f.off) else Bit(v, i))))
  {
    hide Updated, Bit, Held;
    var v := if NthAnswer(b, 0) == 4 then Reg(b.regs, a) else garbage;
    forall i: nat
      ensures Bit(Updated(f, v, value), i) ==
        if f.Has(i) then ValueBit(f, value, i - f.off) else Bit(v, i)
    {
      UpdatedBit(f, v, value, i);
      if f.Has(i) {
        HeldBit(f, value, i - f.off);
      }
    }
  }

  /** A value is refused, with that error and no access, exactly if it is out of its bounds
  or fails its own test. */
  lemma RefusedIff(b: Board, a: u64, f: Field, value: u32, limits: Limits, chk: u32 -> bool, garbage: u32)
    requires f.Valid()
    ensures var (c, err) := SetOutcome(b, a, f, value, Allows(limits, chk, value), garbage);
      && (err == 2 <==> (limits.Between? && (value < limits.min || value > limits.max)) || !chk(value))
      && (err == 2 ==> c == b)
  {
    hide Updated;
  }

  lemma AnsweredPlausible(b: Board)
    requires Plausible(b)
    ensures Plausible(Answered(b))
  {
  }

  class Smio {
    const base: u64
    var board: Board

    constructor (base: u64, board: Board)
      ensures this.base == base && this.board == board
    {
      this.base, this.board := base, board;
    }

    /** The absolute address: the SMIO's base ORed with the offset. */
    function Address(offs: u64): u64
    {
      Pow2Widths();
      OrBelow(base, offs, 64);
      Or(base, offs)
    }

    lemma AddressBit(offs: u64, i: nat)
      ensures Bit(Address(offs), i) == (Bit(base, i) || Bit(offs, i))
    {
      hide Or, Bit;
      BitOr(base, offs, i);
    }

    method Read32(offs: u64) returns (n: int, v: u32)
      requires Plausible(board)
      modifies this`board
      ensures board == ReadReg(old(board), Address(offs)).0 && Plausible(board)
      ensures var r := ReadReg(old(board), Address(offs)).1; (n == WORD <==> r.Some?) && (r.Some? ==> v == r.value)
    {
      hide Or, ClientRead;
      ClientReadRefines(board, Address(offs));
      AnsweredPlausible(board);
      var (c, n', v') := ClientRead(board, Address(offs));
      board, n, v := c, n', v';
    }

    method Write32(offs: u64, v: u32) returns (n: int)
      requires Plausible(board)
      modifies this`board
      ensures board == WriteReg(old(board), Address(offs), v).0 && Plausible(board)
      ensures n == WORD <==> WriteReg(old(board), Address(offs), v).1
    {
      hide Or, ClientWrite;
      ClientWriteRefines(board, Address(offs), v);
      AnsweredPlausible(board);
      var (c, n') := ClientWrite(board, Address(offs), v);
      board, n := c, n';
    }

    /** SET_PARAM. `garbage` is the local variable before anything was read into it. */
    method SetParam(offs: u64, f: Field, value: u32, limits: Limits, chk: u32 -> bool, garbage: u32) returns (err: int)
      requires Plausible(board) && f.Valid()
      modifies this`board
      ensures (board, err) == SetOutcome(old(board), Address(offs), f, value, Allows(limits, chk, value), garbage)
      ensures Plausible(board)
    {
      hide Insert, Or;
      err := RW_OK;
      if (limits.Unlimited? || (limits.min <= value <= limits.max)) && chk(value) {
        var n, v := Read32(offs);
        if n != WORD {
          v := garbage;
          err := RW_WRITE_EAGAIN;
        }
        n := Write32(offs, Updated(f, v, value));
        if n != WORD {
          err := RW_WRITE_EAGAIN;
        }
      } else {
        err := RW_USR_ERR;
      }
    }

    method GetParam(offs: u64, f: Field, garbage: u32) returns (err: int, value: nat)
      requires Plausible(board) && f.Valid()
      modifies this`board
      ensures (board, err, value) == GetOutcome(old(board), Address(offs), f, garbage)
      ensures Plausible(board)
    {
      hide Extract, Or;
      err := RW_OK;
      var n, v := Read32(offs);
      if n != WORD {
        v := garbage;
        err := RW_READ_EAGAIN;
      }
      value := Extract(f, v);
    }

    /** SET_GET_PARAM_CHANNEL: the return value is a byte count or minus an error. */
    method SetGetParamChannel(rw: u32, chan: u32, value: u32, baseAddr: u32, stride: u32, num: u32, reg: u32,
                              f: Field, limits: Limits, chk: u32 -> bool, garbage: u32) returns (ret: int, got: nat)
      requires Plausible(board) && f.Valid()
      modifies this`board
      ensures 0 < num <= chan ==> ret == -3 && board == old(board)
      ensures num == 0 || chan < num ==>
        var a := Channel(baseAddr, chan, stride, reg);
        if rw == 0 then
          (board, -ret) == SetOutcome(old(board), a, f, value, Allows(limits, chk, value), garbage)
        else
          var (b, err, v) := GetOutcome(old(board), a, f, garbage);
          board == b && (err == RW_OK ==> ret == WORD && got == v) && (err != RW_OK ==> ret == -err)
    {
      hide SetOutcome, GetOutcome, Or;
      ret, got := 0, 0;
      if chan > (num - 1) % TWO32 {
        return -RW_INV, 0;
      }
      var offs := ChannelOffset(baseAddr, chan, stride, reg);
      if rw != 0 {
        var err, v := GetParam(offs, f, garbage);
        if err != RW_OK {
          return -err, 0;
        }
        return WORD, v;
      }
      var err := SetParam(offs, f, value, limits, chk, garbage);
      return -err, 0;
    }

    function Channel(baseAddr: u32, chan: u32, stride: u32, reg: u32): u64 {
      Address(ChannelOffset(baseAddr, chan, stride, reg))
    }

    /** A channel's address has the bits of the SMIO's base, of the channel's base within
    it, and of the register's offset. */
    lemma ChannelBit(baseAddr: u32, chan: u32, stride: u32, reg: u32, i: nat)
      ensures Bit(Channel(baseAddr, chan, stride, reg), i) ==
        (Bit(base, i) || Bit((baseAddr + chan * stride) % 0x1_0000_0000, i) || Bit(reg, i))
    {
      hide Or, Bit;
      AddressBit(ChannelOffset(baseAddr, chan, stride, reg), i);
      BitOr((baseAddr + chan * stride) % TWO32, reg, i);
    }
  }

  function ChannelOffset(baseAddr: u32, chan: u32, stride: u32, reg: u32): u64 {
    Pow2Widths();
    OrBelow((baseAddr + chan * stride) % TWO32, reg, 32);
    ChannelAddress(baseAddr, chan, stride, reg)
  }

  /** After a SET that reports RW_OK, a GET whose access succeeds returns what the field
  can hold of the value; other registers and disjoint fields are as before. */
  lemma SetGetLaw(b: Board, a: u64, f: Field, g: Field, value: u32, allowed: bool, garbage: u32, garbage': u32)
    requires f.Valid() && g.Valid() && Disjoint(f, g)
    requires SetOutcome(b, a, f, value, allowed, garbage).1 == RW_OK
    ensures var c := SetOutcome(b, a, f, value, allowed, garbage).0;
      && (NthAnswer(c, 0) == 4 ==>
          GetOutcome(c, a, f, garbage').1 == 0 && GetOutcome(c, a, f, garbage').2 == Held(f, value))
      && Extract(g, Reg(c.regs, a)) == Extract(g, Reg(b.regs, a))
      && (forall x | x != a :: Reg(c.regs, x) == Reg(b.regs, x))
  {
    hide Insert, Extract, Held;
    var v := Reg(b.regs, a);
    GetAfterSet(f, v, value);
    OtherFieldKept(f, g, v, value);
  }

  /** The bits outside the field survive a SET exactly when it was refused, or could
  read, or could not write, or happened on a variable with the same bits. */
  lemma SetKeepsOthers(b: Board, a: u64, f: Field, value: u32, allowed: bool, garbage: u32)
    requires f.Valid()
    ensures var c := SetOutcome(b, a, f, value, allowed, garbage).0;
      (forall i: nat | !f.Has(i) :: Bit(Reg(c.regs, a), i) == Bit(Reg(b.regs, a), i))
      <==>
      (|| !allowed || Answer(b) == WORD || Answer(Answered(b)) != WORD
       || (forall i: nat | !f.Has(i) :: Bit(garbage, i) == Bit(Reg(b.regs, a), i)))
  {
    hide Insert, Bit, Held;
    var v := Reg(b.regs, a);
    forall i: nat | !f.Has(i)
      ensures Bit(Updated(f, v, value), i) == Bit(v, i)
      ensures Bit(Updated(f, garbage, value), i) == Bit(garbage, i)
    {
      InsertBit(f, v, value, i);
      InsertBit(f, garbage, value, i);
    }
  }

  /** So a SET that reports an error may have destroyed the whole register. */
  lemma FailedSetDestroys()
    ensures var b := Board(map[0 := 0xffff_ffff], [0, WORD]);
      var (c, err) := SetOutcome(b, 0, Field.Span(0, 8), 1, true, 0);
      err == RW_WRITE_EAGAIN && Bit(Reg(b.regs, 0), 31) && !Bit(Reg(c.regs, 0), 31)
  {
    hide Insert;
    var b := Board(map[0 := 0xffff_ffff], [0, WORD]);
    Pow2Widths();
    BitNot(0, 32, 31);
    BitZero(31);
    InsertBit(Field.Span(0, 8), 0, 1, 31);
  }
}
