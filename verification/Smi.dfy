/** The management interface: smi_bit_shift and smi_reg (separate MDC and MDIO ports) against
    a PHY that decodes management frames bit by bit, clause 22.2.4.5 of IEEE 802.3. */
module Smi {
  import opened Bytes

  function Pow2(n: nat): (p: nat)
    ensures p > 0
  {
    if n == 0 then 1 else 2 * Pow2(n - 1)
  }

  /** (v >> i) & 1 */
  function Bit(v: nat, i: nat): (b: nat)
    ensures b < 2
  {
    if i == 0 then v % 2 else Bit(v / 2, i - 1)
  }

  /** The low n bits of v shifted into acc, most significant first. */
  function ShiftIn(acc: nat, v: nat, n: nat): nat
    decreases n
  {
    if n == 0 then acc else ShiftIn(2 * acc + Bit(v, n - 1), v, n - 1)
  }

  datatype MgmtFrame = MgmtFrame(op: nat, phy: nat, reg: nat, data: nat)

  /** Where the PHY is in a frame.  Header counts the bits of start, operation and addresses;
      Tail counts the two turn-around bits and the sixteen data bits. */
  datatype Phase =
    | Preamble(ones: nat)
    | Header(count: nat, value: nat)
    | Tail(count: nat, header: nat, value: nat)

  const OP_WRITE := 1
  const OP_READ := 2

  /** log is the history of complete frames seen on the bus, whoever they were for. */
  datatype Phy = Phy(address: nat, regs: seq<nat>, phase: Phase, log: seq<MgmtFrame>) {
    predicate Valid() {
      && |regs| == 32
      && forall i :: 0 <= i < 32 ==> regs[i] < 0x1_0000
    }
  }

  // start 01, operation, PHY address, register address
  function Start(header: nat): nat { header / 0x1000 }
  function Operation(header: nat): nat { header / 0x400 % 4 }
  function PhyOf(header: nat): nat { header / 32 % 32 }
  function RegOf(header: nat): nat { header % 32 }

  predicate WellFormed(header: nat) {
    Start(header) == 1 && (Operation(header) == OP_WRITE || Operation(header) == OP_READ)
  }

  /** Does the PHY drive the line after this clock edge, and with what? */
  function Driven(p: Phy): int
    requires p.Valid()
  {
    match p.phase
    case Tail(c, h, _) =>
      if Operation(h) != OP_READ || PhyOf(h) != p.address then -1
      else if c == 1 then 0
      else if 2 <= c < 18 then Bit(p.regs[RegOf(h)], 17 - c)
      else -1
    case _ => -1
  }

  /** The line is pulled up when nobody drives it. */
  function Line(p: Phy): nat
    requires p.Valid()
  {
    if Driven(p) == 0 then 0 else 1
  }

  /** One clock edge with the given bit on the line. */
  function Clock(p: Phy, b: nat): Phy
    requires p.Valid()
  {
    match p.phase
    case Preamble(n) =>
      if b == 1 then p.(phase := Preamble(if n < 32 then n + 1 else 32))
      else if n >= 32 then p.(phase := Header(1, 0))
      else p.(phase := Preamble(0))
    case Header(c, v) =>
      var v' := 2 * v + b;
      if c + 1 < 14 then p.(phase := Header(c + 1, v'))
      else if WellFormed(v') then p.(phase := Tail(0, v', 0))
      else p.(phase := Preamble(0))
    case Tail(c, h, v) =>
      if c < 2 then p.(phase := Tail(c + 1, h, 0))
      else if c + 1 < 18 then p.(phase := Tail(c + 1, h, 2 * v + b))
      else
        var data := (2 * v + b) % 0x1_0000;
        p.(phase := Preamble(0),
           regs := if Operation(h) == OP_WRITE && PhyOf(h) == p.address then p.regs[RegOf(h) := data] else p.regs,
           log := p.log + [MgmtFrame(Operation(h), PhyOf(h), RegOf(h), data)])
  }

  lemma ClockValid(p: Phy, b: nat)
    requires p.Valid()
    ensures Clock(p, b).Valid() && Clock(p, b).address == p.address
  {}

  /** n bits of v, most significant first, clocked into the PHY. */
  function DriveBits(p: Phy, v: nat, n: nat): (r: Phy)
    requires p.Valid()
    ensures r.Valid()
    decreases n
  {
    if n == 0 then p
    else
      ClockValid(p, Bit(v, n - 1));
      DriveBits(Clock(p, Bit(v, n - 1)), v, n - 1)
  }

  /** n bits sampled from the line into a 32-bit shift register. */
  function SampleBits(p: Phy, data: nat, n: nat): (r: (Phy, nat))
    requires p.Valid()
    ensures r.0.Valid()
    decreases n
  {
    if n == 0 then (p, data)
    else
      ClockValid(p, Line(p));
      SampleBits(Clock(p, Line(p)), (2 * data + Line(p)) % TWO32, n - 1)
  }

  // ---------- what the PHY decodes ----------

  lemma {:induction false} ShiftPeel(acc: nat, v: nat, n: nat)
    requires n > 0
    ensures ShiftIn(acc, v, n) == 2 * ShiftIn(acc, v / 2, n - 1) + v % 2
    decreases n
  {
    if n > 1 { ShiftPeel(2 * acc + Bit(v, n - 1), v, n - 1); }
  }

  lemma Product(d: int, m: int)
    requires m > 0
    ensures d >= 1 ==> d * m >= m
    ensures d <= -1 ==> d * m <= -m
  {
    if d >= 1 { assert (d - 1) * m >= 0; }
    if d <= -1 { assert (-1 - d) * m >= 0; }
  }

  lemma Remainder(k: nat, r: nat, m: nat)
    requires r < m
    ensures (k * m + r) % m == r
  {
    var q, rem := (k * m + r) / m, (k * m + r) % m;
    assert k * m + r == q * m + rem;
    assert (k - q) * m == k * m - q * m;
    Product(k - q, m);
  }

  lemma ModDouble(v: nat, m: nat)
    requires m > 0
    ensures v % (2 * m) == 2 * (v / 2 % m) + v % 2
  {
    var a, b := v / 2 / m, v / 2 % m;
    assert v / 2 == a * m + b;
    assert v == a * (2 * m) + (2 * b + v % 2);
    Remainder(a, 2 * b + v % 2, 2 * m);
  }

  lemma TwiceProduct(a: nat, b: nat)
    ensures a * (2 * b) == 2 * (a * b)
  {}

  /** Shifting in bits is multiplication and addition. */
  lemma {:induction false} ShiftValue(acc: nat, v: nat, n: nat)
    ensures Pow2(n) > 0 && ShiftIn(acc, v, n) == acc * Pow2(n) + v % Pow2(n)
    decreases n
  {
    if n > 0 {
      ShiftPeel(acc, v, n);
      hide ShiftIn, Bit;
      ShiftValue(acc, v / 2, n - 1);
      ModDouble(v, Pow2(n - 1));
      TwiceProduct(acc, Pow2(n - 1));
    }
  }

  lemma {:induction false} PreambleRun(p: Phy, v: nat, n: nat)
    requires p.Valid() && p.phase.Preamble? && p.phase.ones <= 32
    requires forall i: nat :: i < n ==> Bit(v, i) == 1
    ensures DriveBits(p, v, n)
            == p.(phase := Preamble(if p.phase.ones + n <= 32 then p.phase.ones + n else 32))
    decreases n
  {
    if n > 0 { PreambleRun(Clock(p, 1), v, n - 1); }
  }

  /** What follows a complete header. */
  function AfterHeader(p: Phy, header: nat): Phy {
    if WellFormed(header) then p.(phase := Tail(0, header, 0)) else p.(phase := Preamble(0))
  }

  lemma HeaderForgets(p: Phy, ph: Phase, h: nat)
    ensures AfterHeader(p.(phase := ph), h) == AfterHeader(p, h)
  {}

  lemma LastHeaderBit(p: Phy, b: nat)
    requires p.Valid() && p.phase.Header? && p.phase.count == 13
    ensures Clock(p, b) == AfterHeader(p, 2 * p.phase.value + b)
  {}

  lemma {:induction false} HeaderRun(p: Phy, v: nat, n: nat)
    requires p.Valid() && p.phase.Header? && p.phase.count + n == 14 && n > 0
    ensures DriveBits(p, v, n) == AfterHeader(p, ShiftIn(p.phase.value, v, n))
    decreases n
  {
    hide WellFormed, Bit, AfterHeader;
    var b, c, x := Bit(v, n - 1), p.phase.count, p.phase.value;
    if n > 1 {
      var p' := p.(phase := Header(c + 1, 2 * x + b));
      assert Clock(p, b) == p';
      HeaderRun(p', v, n - 1);
      HeaderForgets(p, p'.phase, ShiftIn(x, v, n));
    } else {
      LastHeaderBit(p, b);
    }
  }

  function AfterTail(p: Phy, header: nat, value: nat): Phy
    requires p.Valid()
  {
    var data := value % 0x1_0000;
    p.(phase := Preamble(0),
       regs := if Operation(header) == OP_WRITE && PhyOf(header) == p.address
               then p.regs[RegOf(header) := data] else p.regs,
       log := p.log + [MgmtFrame(Operation(header), PhyOf(header), RegOf(header), data)])
  }

  lemma {:induction false} DataRun(p: Phy, v: nat, n: nat)
    requires p.Valid() && p.phase.Tail? && p.phase.count >= 2 && p.phase.count + n == 18 && n > 0
    ensures DriveBits(p, v, n) == AfterTail(p, p.phase.header, ShiftIn(p.phase.value, v, n))
    decreases n
  {
    if n > 1 { DataRun(Clock(p, Bit(v, n - 1)), v, n - 1); }
  }

  /** What the reading master sees of n data bits of a register, or pull-ups. */
  function Visible(p: Phy, h: nat): nat
    requires p.Valid()
  {
    if Operation(h) == OP_READ && PhyOf(h) == p.address then p.regs[RegOf(h)] else 0xFFFF
  }

  /** A word of n ones has ones in its n low bits. */
  lemma {:induction false} LowOnes(n: nat, i: nat)
    requires i < n
    ensures Bit(Pow2(n) - 1, i) == 1
    decreases i
  {
    if i > 0 {
      LowOnes(n - 1, i - 1);
      assert (Pow2(n) - 1) / 2 == Pow2(n - 1) - 1;
    }
  }

  lemma AllOnes(i: nat)
    requires i < 16
    ensures Bit(0xFFFF, i) == 1
  {
    Powers();
    LowOnes(16, i);
  }

  lemma Powers()
    ensures Pow2(0) == 1 && Pow2(1) == 2 && Pow2(2) == 4 && Pow2(3) == 8 && Pow2(4) == 16 && Pow2(5) == 32
    ensures Pow2(6) == 64 && Pow2(7) == 128 && Pow2(8) == 256 && Pow2(9) == 512 && Pow2(10) == 1024
    ensures Pow2(11) == 2048 && Pow2(12) == 4096 && Pow2(13) == 8192 && Pow2(14) == 16384 && Pow2(15) == 32768
    ensures Pow2(16) == 65536 && Pow2(32) == TWO32
  {
    assert Pow2(4) == 16;
    assert Pow2(8) == 256;
    assert Pow2(12) == 4096;
    assert Pow2(16) == 0x1_0000;
    assert Pow2(20) == 0x10_0000;
    assert Pow2(24) == 0x100_0000;
    assert Pow2(28) == 0x1000_0000;
  }

  lemma ShiftMod(x: nat, w: nat, n: nat)
    ensures ShiftIn(x % TWO32, w, n) % TWO32 == ShiftIn(x, w, n) % TWO32
  {
    ShiftValue(x, w, n);
    ShiftValue(x % TWO32, w, n);
    ModShift(x, Pow2(n), w % Pow2(n));
  }

  lemma ModShift(x: nat, k: nat, r: nat)
    ensures (x % TWO32 * k + r) % TWO32 == (x * k + r) % TWO32
  {
    var q, y := x / TWO32, x % TWO32;
    assert x * k == (q * k) * TWO32 + y * k by { assert x == q * TWO32 + y; }
    AddMultiple(y * k + r, q * k);
  }

  lemma AddMultiple(a: nat, k: nat)
    ensures (k * TWO32 + a) % TWO32 == a % TWO32
  {}

  /** Reading n data bits shifts them into the register and completes the frame. */
  lemma {:induction false} ReadRun(p: Phy, data: nat, n: nat)
    requires p.Valid() && p.phase.Tail? && p.phase.count >= 2 && p.phase.count + n == 18 && n > 0
    ensures var w := Visible(p, p.phase.header);
            SampleBits(p, data, n)
            == (AfterTail(p, p.phase.header, ShiftIn(p.phase.value, w, n)),
                if n == 0 then data else ShiftIn(data, w, n) % TWO32)
    decreases n
  {
    var w, b := Visible(p, p.phase.header), Line(p);
    AllOnes(n - 1);
    assert b == Bit(w, n - 1);
    if n > 1 {
      ReadRun(Clock(p, b), (2 * data + b) % TWO32, n - 1);
      ShiftMod(2 * data + b, w, n - 1);
    }
  }

  // ---------- the bits on the line ----------

  /** n bits of v, most significant first. */
  function Bits(v: nat, n: nat): (s: seq<nat>)
    ensures |s| == n
    decreases n
  {
    if n == 0 then [] else [Bit(v, n - 1)] + Bits(v, n - 1)
  }

  /** A word made of two fields has the bits of the one above those of the other. */
  lemma {:induction false} BitOfField(x: nat, y: nat, n: nat, i: nat)
    requires y < Pow2(n)
    ensures Bit(x * Pow2(n) + y, i) == if i < n then Bit(y, i) else Bit(x, i - n)
    decreases n
  {
    if n > 0 {
      var v, m := x * Pow2(n) + y, x * Pow2(n - 1) + y / 2;
      TwiceProduct(x, Pow2(n - 1));
      assert v == 2 * m + y % 2;
      assert v / 2 == m && v % 2 == y % 2;
      if i > 0 { BitOfField(x, y / 2, n - 1, i - 1); }
    }
  }

  lemma {:induction false} LowFieldBits(x: nat, y: nat, n: nat, k: nat)
    requires y < Pow2(n) && k <= n
    ensures Bits(x * Pow2(n) + y, k) == Bits(y, k)
    decreases k
  {
    hide Bit, Pow2;
    if k > 0 {
      BitOfField(x, y, n, k - 1);
      LowFieldBits(x, y, n, k - 1);
    }
  }

  lemma {:induction false} FieldBits(x: nat, y: nat, n: nat, k: nat)
    requires y < Pow2(n)
    ensures Bits(x * Pow2(n) + y, k + n) == Bits(x, k) + Bits(y, n)
    decreases k
  {
    hide Bit, Pow2;
    if k > 0 {
      BitOfField(x, y, n, k + n - 1);
      FieldBits(x, y, n, k - 1);
      assert Bits(x * Pow2(n) + y, k + n) == [Bit(x, k - 1)] + Bits(x * Pow2(n) + y, k - 1 + n);
    } else {
      LowFieldBits(x, y, n, n);
      assert Bits(x, 0) + Bits(y, n) == Bits(y, n);
    }
  }

  lemma FiveBits(a: nat)
    ensures Bits(a, 5) == [a / 16 % 2, a / 8 % 2, a / 4 % 2, a / 2 % 2, a % 2]
  {
    assert a / 2 / 2 == a / 4 && a / 4 / 2 == a / 8 && a / 8 / 2 == a / 16;
    assert Bit(a / 2, 0) == a / 2 % 2 && Bit(a / 4, 0) == a / 4 % 2 && Bit(a / 8, 0) == a / 8 % 2 && Bit(a / 16, 0) == a / 16 % 2;
    assert Bit(a, 1) == a / 2 % 2 && Bit(a / 2, 1) == a / 4 % 2 && Bit(a / 4, 1) == a / 8 % 2 && Bit(a / 8, 1) == a / 16 % 2;
    assert Bit(a, 2) == a / 4 % 2 && Bit(a / 2, 2) == a / 8 % 2 && Bit(a / 4, 2) == a / 16 % 2;
    assert Bit(a, 3) == a / 8 % 2 && Bit(a / 2, 3) == a / 16 % 2;
    assert Bit(a, 4) == a / 16 % 2;
    FiveSteps(a);
  }

  lemma FiveSteps(a: nat)
    ensures Bits(a, 5) == [Bit(a, 4), Bit(a, 3), Bit(a, 2), Bit(a, 1), Bit(a, 0)]
  {
    hide Bit;
    assert Bits(a, 1) == [Bit(a, 0)] + Bits(a, 0);
    assert Bits(a, 2) == [Bit(a, 1)] + Bits(a, 1);
    assert Bits(a, 3) == [Bit(a, 2)] + Bits(a, 2);
    assert Bits(a, 4) == [Bit(a, 3)] + Bits(a, 3);
  }

  lemma {:induction false} OnesBits(v: nat, n: nat)
    requires forall i: nat :: i < n ==> Bit(v, i) == 1
    ensures Bits(v, n) == seq(n, _ => 1)
    decreases n
  {
    if n > 0 { OnesBits(v, n - 1); }
  }

  /** The header on the line: start, operation, PHY address, register address. */
  lemma HeaderBits(phyAddress: nat, reg: nat, inning: bool)
    requires phyAddress < 32 && reg < 32
    ensures Bits((if inning then 6 else 5) * 0x400 + phyAddress * 32 + reg, 14)
            == [0, 1] + (if inning then [1, 0] else [0, 1]) + Bits(phyAddress, 5) + Bits(reg, 5)
  {
    var op := if inning then 6 else 5;
    Powers();
    StartBits(inning);
    hide Bits, Pow2;
    FieldBits(op * 32 + phyAddress, reg, 5, 9);
    FieldBits(op, phyAddress, 5, 4);
    assert (op * 32 + phyAddress) * 32 + reg == op * 0x400 + phyAddress * 32 + reg;
  }

  lemma StartBits(inning: bool)
    ensures Bits(if inning then 6 else 5, 4) == [0, 1] + if inning then [1, 0] else [0, 1]
  {
    var v := if inning then 6 else 5;
    assert Bit(v, 3) == 0 && Bit(v, 2) == 1;
    assert Bits(v, 2) == [Bit(v, 1)] + Bits(v, 1) && Bits(v, 3) == [Bit(v, 2)] + Bits(v, 2);
  }

  lemma PreambleBits()
    ensures Bits(0xFFFF_FFFF, 32) == seq(32, _ => 1)
  {
    Powers();
    hide Bit, Pow2, Bits;
    forall i: nat | i < 32
      ensures Bit(0xFFFF_FFFF, i) == 1
    {
      LowOnes(32, i);
    }
    OnesBits(0xFFFF_FFFF, 32);
  }

  lemma TurnAroundBits()
    ensures Bits(2, 2) == [1, 0]
  {
    assert Bits(2, 1) == [Bit(2, 0)] + Bits(2, 0);
  }

  /** Everything one call of smi_reg puts on the line. */
  lemma LineFrame(d0: seq<nat>, phyAddress: nat, reg: nat, val: nat, inning: bool)
    requires phyAddress < 32 && reg < 32
    ensures var h := (if inning then 6 else 5) * 0x400 + phyAddress * 32 + reg;
            d0 + Bits(0xFFFF_FFFF, 32) + Bits(h, 14) + (if inning then [] else Bits(2, 2)) + (if inning then [] else Bits(val, 16))
            == d0 + seq(32, _ => 1) + [0, 1] + (if inning then [1, 0] else [0, 1])
               + [phyAddress / 16 % 2, phyAddress / 8 % 2, phyAddress / 4 % 2, phyAddress / 2 % 2, phyAddress % 2]
               + [reg / 16 % 2, reg / 8 % 2, reg / 4 % 2, reg / 2 % 2, reg % 2]
               + if inning then [] else [1, 0] + Bits(val, 16)
  {
    PreambleBits();
    HeaderBits(phyAddress, reg, inning);
    FiveBits(phyAddress);
    FiveBits(reg);
    TurnAroundBits();
    hide Bits;
  }

  // ---------- the driver ----------

  /** driven is the history of bits the master has put on the line. */
  class Bus {
    var phy: Phy
    ghost var driven: seq<nat>

    constructor (p: Phy)
      requires p.Valid()
      ensures phy == p && driven == []
    {
      phy := p;
      driven := [];
    }

    /** smi_bit_shift. */
    method BitShift(data: nat, count: nat, inning: bool) returns (r: nat)
      requires phy.Valid() && data < TWO32
      modifies this
      ensures phy.Valid()
      ensures !inning ==> phy == DriveBits(old(phy), data, count) && r == data
      ensures inning ==> (phy, r) == SampleBits(old(phy), data, count)
      ensures driven == old(driven) + if inning then [] else Bits(data, count)
    {
      hide Clock, Line, Bit, DriveBits, SampleBits, Bits;
      NoBits(phy, data, data);
      r := data;
      var i := count;
      while i != 0
        invariant 0 <= i <= count && phy.Valid()
        invariant !inning ==> DriveBits(phy, data, i) == DriveBits(old(phy), data, count) && r == data
        invariant inning ==> SampleBits(phy, r, i) == SampleBits(old(phy), data, count)
        invariant if inning then driven == old(driven) else driven + Bits(data, i) == old(driven) + Bits(data, count)
        decreases i
      {
        i := i - 1;
        if !inning {
          var dataBit := Bit(data, i);
          FirstBit(phy, data, i);
          phy := Clock(phy, dataBit);
          driven := driven + [dataBit];
        } else {
          var dataBit := Line(phy);
          FirstSample(phy, r, i);
          phy := Clock(phy, dataBit);
          r := (2 * r + dataBit) % TWO32;
        }
      }
      NoBits(phy, data, r);
    }

    /** smi_reg: the PHY decodes exactly one frame, with the operation, addresses and data
        the caller gave; a write reaches the addressed register and nothing else, a read
        returns it. */
    method SmiReg(phyAddress: nat, reg: nat, val: nat, inning: bool) returns (r: nat)
      requires phy.Valid() && phy.phase.Preamble? && phy.phase.ones <= 32
      requires phyAddress < 32 && reg < 32 && val < TWO32
      modifies this
      ensures phy.Valid() && phy.phase == Preamble(0) && phy.address == old(phy).address
      ensures !inning ==> r == val
      ensures !inning ==> phy.log == old(phy).log + [MgmtFrame(OP_WRITE, phyAddress, reg, val % 0x1_0000)]
      ensures !inning ==> phy.regs == if phyAddress == phy.address then old(phy).regs[reg := val % 0x1_0000]
                                      else old(phy).regs
      ensures inning ==> phy.regs == old(phy).regs
      ensures inning ==> r == (val * 0x1_0000 + if phyAddress == phy.address then phy.regs[reg] else 0xFFFF) % TWO32
      ensures inning ==>
                phy.log == old(phy).log + [MgmtFrame(OP_READ, phyAddress, reg,
                                                     if phyAddress == phy.address then phy.regs[reg] else 0xFFFF)]
      // clause 22.2.4.5: preamble, start, operation, addresses, and of a write turn-around and data
      ensures driven == old(driven) + seq(32, _ => 1) + [0, 1] + (if inning then [1, 0] else [0, 1])
                        + [phyAddress / 16 % 2, phyAddress / 8 % 2, phyAddress / 4 % 2, phyAddress / 2 % 2, phyAddress % 2]
                        + [reg / 16 % 2, reg / 8 % 2, reg / 4 % 2, reg / 2 % 2, reg % 2]
                        + if inning then [] else [1, 0] + Bits(val, 16)
    {
      hide DriveBits, SampleBits, Bits;
      ghost var d0 := driven;
      ghost var p0 := phy;
      var header := (if inning then 6 else 5) * 0x400 + phyAddress * 32 + reg;
      r := BitShift(0xFFFF_FFFF, 32, false);
      r := BitShift(header, 14, false);
      HeaderPhase(p0, phyAddress, reg, inning);
      r := BitShift(2, 2, inning);
      r := BitShift(val, 16, inning);
      if inning {
        ReadPhase(p0, header, val, 16);
      } else {
        WritePhase(p0, header, val, 16);
      }
      LineFrame(d0, phyAddress, reg, val, inning);
    }

    /** A write followed by a read returns the value written. */
    method WriteThenRead(reg: nat, val: nat) returns (r: nat)
      requires phy.Valid() && phy.phase.Preamble? && phy.phase.ones <= 32
      requires phy.address < 32 && reg < 32 && val < TWO32
      modifies this
      ensures r == val % 0x1_0000
      ensures phy.regs == old(phy).regs[reg := val % 0x1_0000]
    {
      r := SmiReg(phy.address, reg, val, false);
      r := SmiReg(phy.address, reg, 0, true);
    }
  }

  lemma HeaderFields(phyAddress: nat, reg: nat, inning: bool)
    requires phyAddress < 32 && reg < 32
    ensures var h := (if inning then 6 else 5) * 0x400 + phyAddress * 32 + reg;
            && h < 0x2000 && WellFormed(h) && Operation(h) == (if inning then OP_READ else OP_WRITE)
            && PhyOf(h) == phyAddress && RegOf(h) == reg
  {
    var h := (if inning then 6 else 5) * 0x400 + phyAddress * 32 + reg;
    assert h / 32 == (if inning then 6 else 5) * 32 + phyAddress;
    assert h / 0x400 == if inning then 6 else 5;
    assert h / 0x1000 == 1;
  }

  lemma PreamblePhase(p: Phy)
    requires p.Valid() && p.phase.Preamble? && p.phase.ones <= 32
    ensures DriveBits(p, 0xFFFF_FFFF, 32) == p.(phase := Preamble(32))
  {
    Powers();
    hide DriveBits, Bit, Pow2;
    forall i: nat | i < 32
      ensures Bit(0xFFFF_FFFF, i) == 1
    {
      LowOnes(32, i);
    }
    PreambleRun(p, 0xFFFF_FFFF, 32);
  }

  /** A header of 14 bits whose top bit is the start's zero. */
  lemma StartPhase(p: Phy, h: nat, n: nat)
    requires p.Valid() && p.phase == Preamble(32) && h < 0x2000 && n == 13
    ensures DriveBits(p, h, n + 1) == AfterHeader(p, h)
  {
    hide DriveBits, ShiftIn, Pow2, Bit;
    Powers();
    TopBitZero(h, n);
    FirstBit(p, h, n);
    HeaderRun(p.(phase := Header(1, 0)), h, n);
    ShiftValue(0, h, n);
  }

  lemma FirstBit(p: Phy, v: nat, n: nat)
    requires p.Valid()
    ensures Clock(p, Bit(v, n)).Valid() && DriveBits(p, v, n + 1) == DriveBits(Clock(p, Bit(v, n)), v, n)
    ensures Bits(v, n + 1) == [Bit(v, n)] + Bits(v, n)
  {
    ClockValid(p, Bit(v, n));
  }

  lemma FirstSample(p: Phy, r: nat, n: nat)
    requires p.Valid()
    ensures Clock(p, Line(p)).Valid()
    ensures SampleBits(p, r, n + 1) == SampleBits(Clock(p, Line(p)), (2 * r + Line(p)) % TWO32, n)
  {
    ClockValid(p, Line(p));
  }

  lemma NoBits(p: Phy, v: nat, r: nat)
    requires p.Valid()
    ensures DriveBits(p, v, 0) == p && SampleBits(p, r, 0) == (p, r) && Bits(v, 0) == []
  {}

  lemma {:induction false} TopBitZero(h: nat, n: nat)
    requires h < Pow2(n)
    ensures Bit(h, n) == 0
    decreases n
  {
    if n > 0 { TopBitZero(h / 2, n - 1); }
  }

  /** 32 ones and the 14 header bits bring the PHY to the turn-around. */
  lemma HeaderPhase(p: Phy, phyAddress: nat, reg: nat, inning: bool)
    requires p.Valid() && p.phase.Preamble? && p.phase.ones <= 32 && phyAddress < 32 && reg < 32
    ensures var h := (if inning then 6 else 5) * 0x400 + phyAddress * 32 + reg;
            && DriveBits(DriveBits(p, 0xFFFF_FFFF, 32), h, 14) == p.(phase := Tail(0, h, 0))
            && h < 0x2000 && WellFormed(h) && Operation(h) == (if inning then OP_READ else OP_WRITE)
            && PhyOf(h) == phyAddress && RegOf(h) == reg
  {
    hide DriveBits;
    HeaderFields(phyAddress, reg, inning);
    PreamblePhase(p);
    StartPhase(p.(phase := Preamble(32)), (if inning then 6 else 5) * 0x400 + phyAddress * 32 + reg, 13);
  }

  lemma TurnAround(p: Phy, h: nat)
    requires p.Valid()
    ensures DriveBits(p.(phase := Tail(0, h, 0)), 2, 2) == p.(phase := Tail(2, h, 0))
    ensures SampleBits(p.(phase := Tail(0, h, 0)), 2, 2).0 == p.(phase := Tail(2, h, 0))
  {
    var t1 := p.(phase := Tail(1, h, 0));
    assert Clock(p.(phase := Tail(0, h, 0)), Bit(2, 1)) == t1;
    assert Clock(t1, Bit(2, 0)) == p.(phase := Tail(2, h, 0));
    assert Clock(t1, Line(t1)) == p.(phase := Tail(2, h, 0));
  }

  lemma WritePhase(p: Phy, h: nat, val: nat, n: nat)
    requires p.Valid() && n == 16
    ensures DriveBits(DriveBits(p.(phase := Tail(0, h, 0)), 2, 2), val, n) == AfterTail(p, h, val)
  {
    hide DriveBits, ShiftIn, Pow2, Bit, Clock;
    TurnAround(p, h);
    DataRun(p.(phase := Tail(2, h, 0)), val, n);
    ShiftValue(0, val, n);
    Powers();
  }

  lemma ReadPhase(p: Phy, h: nat, val: nat, n: nat)
    requires p.Valid() && n == 16
    ensures Visible(p, h) < 0x1_0000
    ensures SampleBits(SampleBits(p.(phase := Tail(0, h, 0)), 2, 2).0, val, n)
            == (AfterTail(p, h, Visible(p, h)), (val * 0x1_0000 + Visible(p, h)) % TWO32)
  {
    hide SampleBits, ShiftIn, Pow2, Bit, Clock;
    var w := Visible(p, h);
    TurnAround(p, h);
    ReadRun(p.(phase := Tail(2, h, 0)), val, n);
    ShiftValue(val, w, n);
    ShiftValue(0, w, n);
    Powers();
  }
}
