/** Fields of 32-bit registers: the shift-and-mask macros, bit by bit. */
module Fields {
  import opened Bits
  import opened Endian

  const WIDTH := 32

  /** A field of several bits, or a single flag bit. */
  datatype Field = Span(off: nat, size: nat) | Flag(off: nat) {
    predicate Valid() {
      if Flag? then off < WIDTH else 0 < size < WIDTH && off + size <= WIDTH
    }
    function Size(): nat { if Flag? then 1 else size }
    predicate Has(i: nat) { off <= i < off + Size() }
  }

  /** WBGEN2_GEN_MASK. */
  function Mask(off: nat, size: nat): nat {
    Shl(Ones(size), off)
  }

  /** WBGEN2_GEN_WRITE. */
  function WriteBits(value: nat, off: nat, size: nat): nat {
    Shl(And(value, Ones(size)), off)
  }

  /** WBGEN2_GEN_READ. */
  function ReadBits(reg: nat, off: nat, size: nat): nat {
    And(Shr(reg, off), Ones(size))
  }

  lemma BitMask(off: nat, size: nat, i: nat)
    ensures Bit(Mask(off, size), i) == (off <= i < off + size)
  {
    hide Shl, Ones, Bit;
    BitShl(Ones(size), off, i);
    if i >= off {
      BitOnes(size, i - off);
    }
  }

  lemma MaskBelow(off: nat, size: nat)
    requires off + size <= WIDTH
    ensures Mask(off, size) < Pow2(WIDTH)
  {
    hide Mask, Bit, Pow2;
    forall i: nat | i >= WIDTH
      ensures !Bit(Mask(off, size), i)
    {
      BitMask(off, size, i);
    }
    BelowBits(Mask(off, size), WIDTH);
  }

  /** The value SET writes back. A flag is set by any value but zero. */
  function Insert(f: Field, reg: u32, value: u32): nat
    requires f.Valid()
  {
    MaskBelow(f.off, f.Size());
    var mask := Mask(f.off, f.Size());
    if f.Flag? then (if value != 0 then Or(reg, mask) else And(reg, Not(mask, WIDTH)))
    else Or(And(reg, Not(mask, WIDTH)), WriteBits(value, f.off, f.size))
  }

  /** The value GET returns. */
  function Extract(f: Field, reg: u32): nat
    requires f.Valid()
  {
    if f.Flag? then (if And(reg, Mask(f.off, 1)) != 0 then 1 else 0) else ReadBits(reg, f.off, f.size)
  }

  /** What a field can hold of a value. */
  function Held(f: Field, value: u32): nat
    requires f.Valid()
  {
    if f.Flag? then (if value != 0 then 1 else 0) else value % Pow2(f.size)
  }

  lemma HeldBit(f: Field, value: u32, i: nat)
    requires f.Valid()
    ensures Bit(Held(f, value), i) == (i < f.Size() && (if f.Flag? then value != 0 else Bit(value, i)))
  {
    if f.Flag? {
      BitZero(i);
      if i > 0 {
        BitZero(i - 1);
      }
    } else {
      LowIsMod(value, f.size);
      BitLow(value, f.size, i);
    }
  }

  /** SET replaces exactly the bits of its field. */
  lemma InsertBit(f: Field, v: u32, value: u32, i: nat)
    requires f.Valid()
    ensures Bit(Insert(f, v, value), i) == if f.Has(i) then Bit(Held(f, value), i - f.off) else Bit(v, i)
  {
    hide And, Or, Mask, Not, Bit, Pow2, Held, Shl, Ones;
    var mask := Mask(f.off, f.Size());
    Pow2Widths();
    MaskBelow(f.off, f.Size());
    BitMask(f.off, f.Size(), i);
    BitNot(mask, WIDTH, i);
    BitAnd(v, Not(mask, WIDTH), i);
    if i >= WIDTH {
      BitAbove(v, WIDTH, i);
    }
    if f.Has(i) {
      HeldBit(f, value, i - f.off);
    }
    if f.Flag? {
      BitOr(v, mask, i);
    } else {
      BitOr(And(v, Not(mask, WIDTH)), WriteBits(value, f.off, f.size), i);
      BitShl(And(value, Ones(f.size)), f.off, i);
      if i >= f.off {
        BitAnd(value, Ones(f.size), i - f.off);
        BitOnes(f.size, i - f.off);
      }
    }
  }

  lemma InsertFits(f: Field, v: u32, value: u32)
    requires f.Valid()
    ensures Insert(f, v, value) < TWO32
  {
    hide Insert, Bit, Pow2;
    Pow2Widths();
    forall i: nat | i >= WIDTH
      ensures !Bit(Insert(f, v, value), i)
    {
      InsertBit(f, v, value, i);
      BitAbove(v, WIDTH, i);
    }
    BelowBits(Insert(f, v, value), WIDTH);
  }

  function Updated(f: Field, v: u32, value: u32): u32
    requires f.Valid()
  {
    InsertFits(f, v, value);
    Insert(f, v, value)
  }

  /** GET reads exactly the bits of its field. */
  lemma ExtractBit(f: Field, reg: u32, i: nat)
    requires f.Valid()
    ensures Bit(Extract(f, reg), i) == (i < f.Size() && Bit(reg, f.off + i))
  {
    hide Mask, Shr, Ones, And;
    if f.Flag? {
      FlagTest(f.off, reg);
      BitZero(i);
      if i > 0 {
        BitZero(i - 1);
      }
    } else {
      BitAnd(Shr(reg, f.off), Ones(f.size), i);
      BitShr(reg, f.off, i);
      BitOnes(f.size, i);
    }
  }

  lemma FlagTest(off: nat, reg: u32)
    ensures And(reg, Mask(off, 1)) != 0 <==> Bit(reg, off)
  {
    hide And, Mask, Bit;
    var x := And(reg, Mask(off, 1));
    forall i: nat
      ensures Bit(x, i) == (i == off && Bit(reg, off))
    {
      BitAnd(reg, Mask(off, 1), i);
      BitMask(off, 1, i);
    }
    if !Bit(reg, off) {
      forall i: nat
        ensures Bit(x, i) == Bit(0, i)
      {
        BitZero(i);
      }
      SameBits(x, 0);
    } else {
      BitZero(off);
      assert Bit(x, off);
    }
  }

  /** Reading a field back after setting it gives what the field can hold. */
  lemma GetAfterSet(f: Field, v: u32, value: u32)
    requires f.Valid()
    ensures Extract(f, Updated(f, v, value)) == Held(f, value)
  {
    hide Extract, Insert, Held, Bit;
    var w := Updated(f, v, value);
    forall i: nat
      ensures Bit(Extract(f, w), i) == Bit(Held(f, value), i)
    {
      ExtractBit(f, w, i);
      InsertBit(f, v, value, f.off + i);
      HeldBit(f, value, i);
    }
    SameBits(Extract(f, w), Held(f, value));
  }

  predicate Disjoint(f: Field, g: Field) {
    f.off + f.Size() <= g.off || g.off + g.Size() <= f.off
  }

  /** Setting a field leaves every field it does not share a bit with alone. */
  lemma OtherFieldKept(f: Field, g: Field, v: u32, value: u32)
    requires f.Valid() && g.Valid() && Disjoint(f, g)
    ensures Extract(g, Updated(f, v, value)) == Extract(g, v)
  {
    hide Extract, Insert, Held, Bit;
    var w := Updated(f, v, value);
    forall i: nat
      ensures Bit(Extract(g, w), i) == Bit(Extract(g, v), i)
    {
      ExtractBit(g, w, i);
      ExtractBit(g, v, i);
      InsertBit(f, v, value, g.off + i);
    }
    SameBits(Extract(g, w), Extract(g, v));
  }

  /** Sets of fields that share no bit can be done in either order. */
  lemma SetsCommute(f: Field, g: Field, v: u32, x: u32, y: u32)
    requires f.Valid() && g.Valid() && Disjoint(f, g)
    ensures Updated(f, Updated(g, v, y), x) == Updated(g, Updated(f, v, x), y)
  {
    hide Insert, Held, Bit;
    var a, b := Updated(f, Updated(g, v, y), x), Updated(g, Updated(f, v, x), y);
    forall i: nat
      ensures Bit(a, i) == Bit(b, i)
    {
      InsertBit(f, Updated(g, v, y), x, i);
      InsertBit(g, v, y, i);
      InsertBit(g, Updated(f, v, x), y, i);
      InsertBit(f, v, x, i);
    }
    SameBits(a, b);
  }

  lemma UpdatedBit(f: Field, v: u32, value: u32, i: nat)
    requires f.Valid()
    ensures Bit(Updated(f, v, value), i) == if f.Has(i) then Bit(Held(f, value), i - f.off) else Bit(v, i)
  {
    InsertBit(f, v, value, i);
  }

  /** A set changes nothing if and only if the field already holds the value. */
  lemma UpdatedSameIff(f: Field, v: u32, value: u32)
    requires f.Valid()
    ensures Updated(f, v, value) == v <==> Held(f, value) == Extract(f, v)
  {
    hide Updated, Held, Extract;
    GetAfterSet(f, v, value);
    if Held(f, value) == Extract(f, v) {
      forall i: nat
        ensures Bit(Updated(f, v, value), i) == Bit(v, i)
      {
        UpdatedBit(f, v, value, i);
        if f.Has(i) {
          ExtractBit(f, v, i - f.off);
        }
      }
      SameBits(Updated(f, v, value), v);
    }
  }

  /** Of two sets of one field only the later one counts. */
  lemma UpdatedTwice(f: Field, v: u32, x: u32, y: u32)
    requires f.Valid()
    ensures Updated(f, Updated(f, v, y), x) == Updated(f, v, x)
  {
    hide Updated, Held;
    forall i: nat
      ensures Bit(Updated(f, Updated(f, v, y), x), i) == Bit(Updated(f, v, x), i)
    {
      UpdatedBit(f, Updated(f, v, y), x, i);
      UpdatedBit(f, v, x, i);
      UpdatedBit(f, v, y, i);
    }
    SameBits(Updated(f, Updated(f, v, y), x), Updated(f, v, x));
  }

  // Addresses: the macros OR the register offset into the channel's base, which
  // they compute in 32 bits.

  function ChannelAddress(base: u32, chan: u32, stride: u32, reg: u32): nat {
    Or((base + chan * stride) % TWO32, reg)
  }

  /** ORing the offset in adds it exactly when it has no bit in common with the base. */
  lemma OrAddsIff(a: nat, reg: nat)
    ensures Or(a, reg) == a + reg <==> And(a, reg) == 0
  {
    OrPlusAnd(a, reg);
  }

  lemma {:induction false} MultipleSharesNone(a: nat, reg: nat, k: nat)
    requires a % Pow2(k) == 0 && reg < Pow2(k)
    ensures And(a, reg) == 0
    decreases k
  {
    if k > 0 && a != 0 && reg != 0 {
      HalfMod(a, Pow2(k - 1));
      MultipleSharesNone(a / 2, reg / 2, k - 1);
    }
  }

  lemma MultipleOf(base: nat, chan: nat, stride: nat, m: nat)
    requires m > 0 && base % m == 0 && stride % m == 0
    ensures (base + chan * stride) % m == 0
  {
    assert base == m * (base / m) && stride == m * (stride / m);
    var q := base / m + chan * (stride / m);
    assert base + chan * stride == m * q by {
      assert chan * stride == m * (chan * (stride / m));
    }
    ModOf(base + chan * stride, m, q, 0);
  }

  /** Bases and strides that are multiples of a power of two above every offset:
  the address is the sum. */
  lemma ChannelAdds(base: u32, stride: u32, k: nat, chan: u32, reg: u32)
    requires base % Pow2(k) == 0 && stride % Pow2(k) == 0 && reg < Pow2(k) && base + chan * stride < TWO32
    ensures (base + chan * stride) % Pow2(k) == 0
    ensures ChannelAddress(base, chan, stride, reg) == base + chan * stride + reg
  {
    hide Or, And, Pow2;
    MultipleOf(base, chan, stride, Pow2(k));
    MultipleSharesNone(base + chan * stride, reg, k);
    OrAddsIff(base + chan * stride, reg);
  }

  /** Then no two (channel, register) pairs share an address. */
  lemma ChannelsDistinct(base: u32, stride: u32, k: nat, chan: u32, reg: u32, chan': u32, reg': u32)
    requires base % Pow2(k) == 0 && stride % Pow2(k) == 0 && stride > 0
    requires base + chan * stride < TWO32 && base + chan' * stride < TWO32
    requires reg < Pow2(k) && reg' < Pow2(k)
    ensures ChannelAddress(base, chan, stride, reg) == ChannelAddress(base, chan', stride, reg') <==>
      chan == chan' && reg == reg'
  {
    hide ChannelAddress, Pow2;
    ChannelAdds(base, stride, k, chan, reg);
    ChannelAdds(base, stride, k, chan', reg');
    var a, a' := base + chan * stride, base + chan' * stride;
    if a + reg == a' + reg' {
      SameChannel(a, reg, a', reg', Pow2(k));
      SameFactor(chan, chan', stride);
    }
  }

  lemma SameChannel(a: nat, r: nat, a': nat, r': nat, m: nat)
    requires m > 0 && a % m == 0 && a' % m == 0 && r < m && r' < m && a + r == a' + r'
    ensures a == a' && r == r'
  {
    assert a == m * (a / m) && a' == m * (a' / m);
    ModOf(a + r, m, a / m, r);
    ModOf(a + r, m, a' / m, r');
  }

  lemma SameFactor(x: nat, y: nat, s: nat)
    requires s > 0 && x * s == y * s
    ensures x == y
  {
    assert s * (x - y) == 0;
    Scaled(s, x - y);
  }

  // When two registers of a channel are one.

  /** The two numbers differ only in bits that `a` has. */
  ghost predicate DifferWithin(a: nat, r: nat, r': nat) {
    forall i: nat :: Bit(a, i) || Bit(r, i) == Bit(r', i)
  }

  /** Two offsets ORed into one base give the same address if and only if they differ only
  in bits the base has. */
  lemma OrSameIff(a: nat, r: nat, r': nat)
    ensures Or(a, r) == Or(a, r') <==> DifferWithin(a, r, r')
  {
    hide Or, Bit;
    forall i: nat
      ensures Bit(Or(a, r), i) == (Bit(a, i) || Bit(r, i))
      ensures Bit(Or(a, r'), i) == (Bit(a, i) || Bit(r', i))
    {
      BitOr(a, r, i);
      BitOr(a, r', i);
    }
    if DifferWithin(a, r, r') {
      forall i: nat
        ensures Bit(Or(a, r), i) == Bit(Or(a, r'), i)
      {
        assert Bit(a, i) || Bit(r, i) == Bit(r', i);
      }
      SameBits(Or(a, r), Or(a, r'));
    }
    if Or(a, r) == Or(a, r') {
      forall i: nat
        ensures Bit(a, i) || Bit(r, i) == Bit(r', i)
      {
        BitOr(a, r, i);
        BitOr(a, r', i);
      }
    }
  }

  /** So two registers of a channel have one address if and only if they differ only in
  bits of the channel's base. */
  lemma ChannelSameIff(base: u32, chan: u32, stride: u32, reg: u32, reg': u32)
    ensures ChannelAddress(base, chan, stride, reg) == ChannelAddress(base, chan, stride, reg') <==>
      DifferWithin((base + chan * stride) % TWO32, reg, reg')
  {
    hide Or, DifferWithin;
    OrSameIff((base + chan * stride) % TWO32, reg, reg');
  }

  // The trigger interface: a stride of twelve, and registers at 0, 4 and 8.

  const TRIGGER_STRIDE: u32 := 0xc

  predicate TriggerReg(r: nat) {
    r == 0 || r == 4 || r == 8
  }

  lemma OrAboveBit(q: nat, b: nat, r: nat)
    requires b < 2
    ensures Or(2 * q + b, r) == 2 * Or(q, r / 2) + (if b == 1 || r % 2 == 1 then 1 else 0)
  {
  }

  /** One more bit below. */
  lemma OrAboveHalf(q: nat, s: nat, r: nat)
    requires Or(q + s / 2, r / 2) == q + Or(s / 2, r / 2)
    ensures Or(2 * q + s, r) == 2 * q + Or(s, r)
  {
    hide Or;
    OrAboveBit(q + s / 2, s % 2, r);
    OrAboveBit(s / 2, s % 2, r);
  }

  lemma OrNothing(q: nat)
    ensures Or(q, 0) == q + Or(0, 0)
  {
  }

  lemma OrAboveNibble(q: nat, s: nat, r: nat)
    requires s < 16 && r < 16
    ensures Or(16 * q + s, r) == 16 * q + Or(s, r)
  {
    hide Or;
    OrNothing(q);
    OrAboveHalf(q, s / 8, r / 8);
    OrAboveHalf(2 * q, s / 4, r / 4);
    OrAboveHalf(4 * q, s / 2, r / 2);
    OrAboveHalf(8 * q, s, r);
  }

  lemma SmallOrs()
    ensures Or(8, 4) == 12 && Or(4, 8) == 12 && Or(4, 4) == 4 && Or(8, 8) == 8 && Or(12, 4) == 12 && Or(12, 8) == 12
    ensures forall x: nat {:trigger Or(x, 0)} :: Or(x, 0) == x
    ensures Or(0, 4) == 4 && Or(0, 8) == 8
  {
    assert Or(1, 1) == 1 && Or(2, 1) == 3 && Or(1, 2) == 3 && Or(3, 1) == 3 && Or(3, 2) == 3 && Or(2, 2) == 2;
    assert Or(6, 2) == 6 && Or(6, 4) == 6 && Or(4, 2) == 6 && Or(2, 4) == 6 && Or(2, 2) == 2 && Or(4, 4) == 4;
  }

  /** Where each register of each channel ends up. */
  lemma TriggerAddress(chan: u32, r: u32)
    requires TriggerReg(r) && chan * TRIGGER_STRIDE < TWO32
    ensures var m := 48 * (chan / 4);
      ChannelAddress(0, chan, TRIGGER_STRIDE, r) ==
      match chan % 4
      case 0 => m + r
      case 1 => m + 12
      case 2 => m + (if r == 4 then 28 else 24)
      case _ => m + (if r == 8 then 44 else 36)
  {
    hide Or;
    SmallOrs();
    var q := chan / 4;
    assert chan == 4 * q + chan % 4;
    OrAboveNibble(3 * q, 0, r);
    OrAboveNibble(3 * q, 12, r);
    OrAboveNibble(3 * q + 1, 8, r);
    OrAboveNibble(3 * q + 2, 4, r);
  }

  /** Two registers of the trigger interface share an address if and only if they are of
  one channel and that channel's number makes them: none does in every fourth channel,
  from 0 on, all three do in the next, and two in each of the others. */
  lemma TriggerCollidesIff(chan: u32, r: u32, chan': u32, r': u32)
    requires TriggerReg(r) && TriggerReg(r') && chan * TRIGGER_STRIDE < TWO32 && chan' * TRIGGER_STRIDE < TWO32
    ensures ChannelAddress(0, chan, TRIGGER_STRIDE, r) == ChannelAddress(0, chan', TRIGGER_STRIDE, r') <==>
      chan == chan' &&
      match chan % 4
      case 0 => r == r'
      case 1 => true
      case 2 => (r == 4) == (r' == 4)
      case _ => (r == 8) == (r' == 8)
  {
    hide ChannelAddress;
    TriggerAddress(chan, r);
    TriggerAddress(chan', r');
    assert chan == 4 * (chan / 4) + chan % 4 && chan' == 4 * (chan' / 4) + chan' % 4;
  }
}
