/**
 * The instructions the checkpoint boot ROM is made of: how the generator encodes them, and
 * what the interpreter makes of each word. A trap, and anything else the ROM must not run
 * into, ends a run with None.
 */
module BootMachine {
  import opened Powers
  import opened ByteOrder
  import opened PageWalk
  import opened Wrappers

  const RomBase: nat := 0x10000
  const RomWords: nat := 1024

  // ---- Encoders ----

  function Word(op: nat, rd: nat, f3: nat, rs1: nat, top: nat): nat {
    op + rd * 128 + f3 * 4096 + rs1 * 32768 + top * 1048576
  }

  /** auipc takes the upper twenty bits, one more when addi will subtract. */
  function AuipcWord(rd: nat, off: nat): nat {
    var a := if off / 2048 % 2 == 1 then (off + 2048) % 0x1_0000_0000 else off;
    0x17 + rd * 128 + a / 4096 * 4096
  }

  function AddiWord(rd: nat, off: nat): nat { Word(0x13, rd, 0, rd, off % 4096) }

  function SetiWord(rd: nat, data: nat): nat { Word(0x13, rd, 0, 0, data % 4096) }

  function LdWord(rd: nat, rs1: nat): nat { Word(0x03, rd, 3, rs1, 0) }

  function SdWord(rs1: nat, rs2: nat): nat { Word(0x23, 0, 3, rs1, rs2) }

  function FldWord(rd: nat, rs1: nat): nat { Word(0x07, rd, 3, rs1, 0) }

  function CsrrwWord(rs: nat, csr: nat): nat { Word(0x73, 0, 1, rs, csr) }

  function CsrrsWord(rd: nat, csr: nat): nat { Word(0x73, rd, 2, 0, csr) }

  const DretWord: nat := 0x7b200073
  const ReadHartIdWord: nat := 0xf1402573
  const BranchIfZeroWord: nat := 0x00050663

  // ---- The machine ----

  /** The CSRs later instructions depend on; log has the value last written to each CSR. */
  datatype CsrFile = CsrFile(
    fs: nat, mprv: bool, locked: bool, dpc: nat, dcsr: nat, dscratch: nat, log: map<nat, nat>)

  /** fp has the floating-point registers loaded so far; stores lists what went to devices. */
  datatype Cpu = Cpu(
    pc: nat, reg: seq<nat>, priv: nat, debug: bool, compressed: bool, hartid: nat,
    file: CsrFile, fp: map<nat, nat>, stores: seq<(nat, nat)>)

  /** M-mode in debug mode, nothing between it and memory. */
  predicate Ready(c: Cpu) {
    |c.reg| == 32 && c.reg[0] == 0 && c.priv == 3 && c.debug && !c.file.mprv && !c.file.locked
  }

  function Set(c: Cpu, rd: nat, v: nat): (d: Cpu)
    requires rd < |c.reg|
    ensures |d.reg| == |c.reg|
  {
    c.(pc := c.pc + 4, reg := if rd == 0 then c.reg else c.reg[rd := v])
  }

  /** A load into a floating-point register turns the FPU state dirty. */
  function FpSet(c: Cpu, rd: nat, v: nat): (d: Cpu)
    ensures d.reg == c.reg
  {
    c.(pc := c.pc + 4, fp := c.fp[rd := v], file := c.file.(fs := 3))
  }

  function Sext12(x: nat): int { if x < 2048 then x else x - 4096 }

  function Wrap(x: int): nat { x % WordLimit }

  /** The CSRs that may be read and written from M-mode in debug mode. */
  predicate KnownCsr(c: Cpu, csr: nat) {
    || (csr in {0x001, 0x002, 0x003} && c.file.fs != 0)
    || csr in {0x105, 0x106, 0x140, 0x141, 0x142, 0x143, 0x144, 0x180}
    || 0x300 <= csr <= 0x306 || csr == 0x320 || 0x323 <= csr <= 0x344
    || csr in {0x3a0, 0x3a2} || 0x3b0 <= csr <= 0x3bf
    || csr in {0x7a0, 0xb00, 0xb02} || 0xb03 <= csr <= 0xb1f
    || (csr in {0x7b0, 0x7b1, 0x7b2} && c.debug)
  }

  predicate AnyLock(cfgs: nat) {
    exists i :: 0 <= i < 8 && ByteAtPos(cfgs, i) / 128 % 2 == 1
  }

  function ByteAtPos(w: nat, i: nat): nat
    requires i < 8
  {
    match i
    case 0 => w % 256
    case 1 => w / 0x100 % 256
    case 2 => w / 0x1_0000 % 256
    case 3 => w / 0x100_0000 % 256
    case 4 => w / 0x1_0000_0000 % 256
    case 5 => w / 0x100_0000_0000 % 256
    case 6 => w / 0x1_0000_0000_0000 % 256
    case _ => w / 0x100_0000_0000_0000 % 256
  }

  /** csr_write, for what later instructions depend on. */
  function FileWrite(f: CsrFile, compressed: bool, csr: nat, v: nat): CsrFile {
    var f := f.(log := f.log[csr := v]);
    if csr == 0x7b0 then f.(dcsr := f.dcsr - DcsrWritable(f.dcsr) + DcsrWritable(v))
    else if csr == 0x7b1 then f.(dpc := v - v % (if compressed then 2 else 4))
    else if csr == 0x7b2 then f.(dscratch := v)
    else if csr == 0x300 then f.(fs := v / 0x2000 % 4, mprv := v / 0x20000 % 2 == 1)
    else if csr == 0x3a0 then f.(locked := f.locked || AnyLock(v))
    else if csr in {0x001, 0x002, 0x003} then f.(fs := 3)
    else f
  }

  function WriteCsr(c: Cpu, csr: nat, v: nat): Cpu {
    c.(file := FileWrite(c.file, c.compressed, csr, v))
  }

  /** dcsr & 0x603 */
  function DcsrWritable(v: nat): (r: nat)
    ensures r <= v
  {
    v / 512 % 4 * 512 + v % 4
  }

  function LoadRom(rom: seq<nat>, addr: nat): Option<nat>
    requires |rom| == RomWords
  {
    if addr % 8 == 0 && RomBase <= addr && addr + 8 <= RomBase + 4 * RomWords then
      var i := (addr - RomBase) / 4;
      Some(rom[i] + rom[i + 1] * 0x1_0000_0000)
    else None
  }

  function Exec(c: Cpu, rom: seq<nat>, op: nat, rd: nat, f3: nat, rs1: nat, top: nat): (r: Option<Cpu>)
    requires |rom| == RomWords && |c.reg| == 32 && rd < 32 && rs1 < 32 && top < 4096
    ensures r.Some? ==> |r.value.reg| == 32
  {
    var addr := Wrap(c.reg[rs1] + Sext12(top));
    match op
    case 0x17 =>
      var upper := f3 * 4096 + rs1 * 32768 + top * 1048576;
      Some(Set(c, rd, Wrap(c.pc + if upper < 0x8000_0000 then upper else upper - 0x1_0000_0000)))
    case 0x13 => if f3 != 0 then None else Some(Set(c, rd, addr))
    case 0x03 =>
      var v := LoadRom(rom, addr);
      if f3 != 3 || c.file.mprv || c.file.locked || v.None? then None else Some(Set(c, rd, v.value))
    case 0x07 =>
      var v := LoadRom(rom, addr);
      if f3 != 3 || c.file.fs == 0 || c.file.mprv || c.file.locked || v.None? then None
      else Some(FpSet(c, rd, v.value))
    case 0x23 =>
      var at := Wrap(c.reg[rs1] + Sext12(top / 32 * 32 + rd));
      if f3 != 3 || at % 8 != 0 || c.file.mprv || c.file.locked then None
      else if RomBase <= at + 7 && at < RomBase + 4 * RomWords then None
      else Some(c.(pc := c.pc + 4, stores := c.stores + [(at, c.reg[top % 32])]))
    case 0x63 =>
      var imm := rd % 2 * 2048 + rd / 2 * 2 + top / 32 % 64 * 32 - top / 2048 * 4096;
      if f3 != 0 then None
      else Some(c.(pc := Wrap(c.pc + if c.reg[rs1] == c.reg[top % 32] then imm else 4)))
    case 0x73 =>
      if f3 == 1 then
        if rd != 0 || !KnownCsr(c, top) then None
        else Some(WriteCsr(c, top, c.reg[rs1]).(pc := c.pc + 4))
      else if f3 == 2 then
        if rs1 != 0 then None
        else if top == 0xf14 then Some(Set(c, rd, c.hartid))
        else if top == 0x7b2 && c.debug then Some(Set(c, rd, c.file.dscratch))
        else None
      else if f3 == 0 && top == 0x7b2 && rd == 0 && rs1 == 0 && c.debug && c.priv == 3 then
        Some(c.(priv := c.file.dcsr % 4, pc := c.file.dpc, debug := false))
      else if f3 == 0 && top == 0x105 && rd == 0 && c.priv == 3 then Some(c.(pc := c.pc + 4)) // wfi
      else None
    case 0x6f =>
      var imm := (f3 + rs1 * 8) * 4096 + top % 2 * 2048 + top / 2 % 1024 * 2 - top / 2048 * 0x100000;
      Some(Set(c, rd, Wrap(c.pc + 4)).(pc := Wrap(c.pc + imm)))
    case _ => None
  }

  function Step(c: Cpu, rom: seq<nat>): (r: Option<Cpu>)
    requires |rom| == RomWords && |c.reg| == 32
    ensures r.Some? ==> |r.value.reg| == 32
  {
    if c.pc % 4 != 0 || c.pc < RomBase || c.pc >= RomBase + 4 * RomWords then None
    else
      var w := rom[(c.pc - RomBase) / 4];
      if w >= 0x1_0000_0000 then None
      else Exec(c, rom, w % 128, w / 128 % 32, w / 4096 % 8, w / 32768 % 32, w / 1048576)
  }

  function Steps(c: Cpu, rom: seq<nat>, n: nat): Option<Cpu>
    requires |rom| == RomWords && |c.reg| == 32
    decreases n
  {
    if n == 0 then Some(c)
    else match Step(c, rom) case None => None case Some(d) => Steps(d, rom, n - 1)
  }

  lemma {:induction false} StepsAppend(c: Cpu, rom: seq<nat>, m: nat, n: nat)
    requires |rom| == RomWords && |c.reg| == 32
    requires Steps(c, rom, m).Some? && |Steps(c, rom, m).value.reg| == 32
    ensures Steps(c, rom, m + n) == Steps(Steps(c, rom, m).value, rom, n)
    decreases m
  {
    hide Step;
    if m > 0 {
      StepsAppend(Step(c, rom).value, rom, m - 1, n);
    }
  }

  // ---- Each instruction, from its encoding ----

  lemma Fields(op: nat, rd: nat, f3: nat, rs1: nat, top: nat)
    requires op < 128 && rd < 32 && f3 < 8 && rs1 < 32 && top < 4096
    ensures var w := Word(op, rd, f3, rs1, top);
            && w < 0x1_0000_0000 && w % 128 == op && w / 128 % 32 == rd && w / 4096 % 8 == f3
            && w / 32768 % 32 == rs1 && w / 1048576 == top
  {
    var w := Word(op, rd, f3, rs1, top);
    DivModUnique(w, 128, rd + f3 * 32 + rs1 * 256 + top * 8192, op);
    DivModUnique(rd + f3 * 32 + rs1 * 256 + top * 8192, 32, f3 + rs1 * 8 + top * 256, rd);
    DivModUnique(w, 4096, f3 + rs1 * 8 + top * 256, rd * 128 + op);
    DivModUnique(f3 + rs1 * 8 + top * 256, 8, rs1 + top * 32, f3);
    DivModUnique(w, 32768, rs1 + top * 32, f3 * 4096 + rd * 128 + op);
    DivModUnique(rs1 + top * 32, 32, top, rs1);
    DivModUnique(w, 1048576, top, rs1 * 32768 + f3 * 4096 + rd * 128 + op);
  }

  lemma StepWord(c: Cpu, rom: seq<nat>, at: nat, op: nat, rd: nat, f3: nat, rs1: nat, top: nat)
    requires |rom| == RomWords && |c.reg| == 32 && at < RomWords && c.pc == RomBase + 4 * at
    requires op < 128 && rd < 32 && f3 < 8 && rs1 < 32 && top < 4096
    requires rom[at] == Word(op, rd, f3, rs1, top)
    ensures Step(c, rom) == Exec(c, rom, op, rd, f3, rs1, top)
  {
    hide Exec, Word;
    Fields(op, rd, f3, rs1, top);
  }

  lemma ExecAuipc(c: Cpu, rom: seq<nat>, rd: nat, up: nat)
    requires |rom| == RomWords && |c.reg| == 32 && rd < 32 && up < 2 && c.pc < 0x100000
    ensures Exec(c, rom, 0x17, rd, up, 0, 0) == Some(Set(c, rd, c.pc + up * 4096))
  {
  }

  lemma ExecAddi(c: Cpu, rom: seq<nat>, rd: nat, rs1: nat, imm: nat)
    requires |rom| == RomWords && |c.reg| == 32 && rd < 32 && rs1 < 32 && imm < 4096
    ensures Exec(c, rom, 0x13, rd, 0, rs1, imm) == Some(Set(c, rd, Wrap(c.reg[rs1] + Sext12(imm))))
  {
  }

  lemma TwoSteps(c: Cpu, rom: seq<nat>, c1: Cpu, c2: Cpu)
    requires |rom| == RomWords && |c.reg| == 32 && |c1.reg| == 32
    requires Step(c, rom) == Some(c1) && Step(c1, rom) == Some(c2)
    ensures Steps(c, rom, 2) == Some(c2)
  {
    hide Step;
    assert |c2.reg| == 32;
    assert Steps(c2, rom, 0) == Some(c2);
    assert Steps(c1, rom, 1) == Some(c2);
  }

  /** auipc then addi: the address off bytes behind the auipc. */
  lemma StepsAddress(c: Cpu, rom: seq<nat>, at: nat, rd: nat, off: nat)
    requires |rom| == RomWords && |c.reg| == 32 && at + 1 < RomWords && c.pc == RomBase + 4 * at
    requires 0 < rd < 32 && off < 4096
    requires rom[at] == AuipcWord(rd, off) && rom[at + 1] == AddiWord(rd, off)
    ensures Steps(c, rom, 2) == Some(c.(pc := c.pc + 8, reg := c.reg[rd := c.pc + off]))
  {
    hide Exec, AuipcWord, Word, Step, Steps;
    var up := if off >= 2048 then 1 else 0;
    AuipcIs(rd, off, up);
    StepWord(c, rom, at, 0x17, rd, up, 0, 0);
    ExecAuipc(c, rom, rd, up);
    var c1 := Set(c, rd, c.pc + up * 4096);
    StepWord(c1, rom, at + 1, 0x13, rd, 0, rd, off % 4096);
    ExecAddi(c1, rom, rd, rd, off % 4096);
    var c2 := Set(c1, rd, c.pc + off);
    assert c1.reg[rd := c.pc + off] == c.reg[rd := c.pc + off];
    TwoSteps(c, rom, c1, c2);
  }

  lemma AuipcIs(rd: nat, off: nat, up: nat)
    requires off < 4096 && up == if off >= 2048 then 1 else 0
    ensures AuipcWord(rd, off) == Word(0x17, rd, up, 0, 0)
  {
  }

  /** The words of the generator, as an assembler prints them. */
  lemma Encodings()
    ensures AuipcWord(1, 0x7ff) == 0x00000097 && AuipcWord(1, 0x800) == 0x00001097   // auipc x1, 0 and 1
    ensures AddiWord(1, 0x7ff) == 0x7ff08093 && AddiWord(2, 0x800) == 0x80010113     // addi x1, x1, 2047; addi x2, x2, -2048
    ensures SetiWord(1, 5) == 0x00500093                                             // addi x1, x0, 5
    ensures LdWord(2, 1) == 0x0000b103 && SdWord(1, 2) == 0x0020b023                 // ld x2, 0(x1); sd x2, 0(x1)
    ensures FldWord(5, 1) == 0x0000b287                                              // fld f5, 0(x1)
    ensures CsrrwWord(1, 0x300) == 0x30009073 && CsrrsWord(1, 0x7b2) == 0x7b2020f3   // csrrw x0, mstatus, x1; csrrs x1, dscratch, x0
  {
  }

  /** A load from the ROM makes the number whose bytes are those of the two words, lowest byte and lower word first. */
  lemma RomBytes(rom: seq<nat>, addr: nat, k: nat)
    requires |rom| == RomWords && addr % 8 == 0 && 0x10000 <= addr && addr + 8 <= 0x11000 && k < 8
    requires rom[(addr - 0x10000) / 4] < 0x1_0000_0000 && rom[(addr - 0x10000) / 4 + 1] < 0x1_0000_0000
    ensures LoadRom(rom, addr).Some?
    ensures LoadRom(rom, addr).value / Pow2(8 * k) % 256 == rom[(addr - 0x10000 + k) / 4] / Pow2(8 * (k % 4)) % 256
  {
    hide *;
    var i := (addr - 0x10000) / 4;
    LoadRomIs(rom, addr);
    WordIndex(addr - 0x10000, k);
    WordBytes(rom[i], rom[i + 1], LoadRom(rom, addr).value, k);
  }

  lemma LoadRomIs(rom: seq<nat>, addr: nat)
    requires |rom| == RomWords && addr % 8 == 0 && 0x10000 <= addr && addr + 8 <= 0x11000
    ensures var i := (addr - 0x10000) / 4; i + 1 < |rom| && LoadRom(rom, addr) == Some(rom[i] + rom[i + 1] * 0x1_0000_0000)
  {
  }

  lemma WordIndex(x: nat, k: nat)
    requires x % 8 == 0 && k < 8
    ensures (x + k) / 4 == x / 4 + (if k < 4 then 0 else 1) && k % 4 == if k < 4 then k else k - 4
  {
    var q := x / 8;
    DivModUnique(x, 4, 2 * q, 0);
    if k < 4 {
      DivModUnique(x + k, 4, 2 * q, k);
    } else {
      DivModUnique(x + k, 4, 2 * q + 1, k - 4);
    }
  }

  lemma WordBytes(low: nat, high: nat, v: nat, k: nat)
    requires low < 0x1_0000_0000 && v == low + high * 0x1_0000_0000 && k < 8
    ensures v / Pow2(8 * k) % 256 == if k < 4 then low / Pow2(8 * k) % 256 else high / Pow2(8 * (k - 4)) % 256
  {
    hide *;
    HighWord(low, high, v);
    if k < 4 {
      CutBytes(v, 4, k);
    } else {
      Pow2Add(32, 8 * (k - 4));
      Quotients(v, Pow2(32), Pow2(8 * (k - 4)));
    }
  }

  lemma HighWord(low: nat, high: nat, v: nat)
    requires low < 0x1_0000_0000 && v == low + high * 0x1_0000_0000
    ensures Pow2(32) == 0x1_0000_0000 && v % Pow2(8 * 4) == low && v / Pow2(32) == high
  {
    hide *;
    SmallPowers();
    Times(8, 8, 256, 256);
    Times(16, 16, 0x10000, 0x10000);
    DivModUnique(v, 0x1_0000_0000, high, low);
  }

  /** A write of a CSR traps if it is a floating-point one and the FPU is off, a debug one outside debug mode, or read-only. */
  lemma CsrTraps(c: Cpu, rom: seq<nat>, rs: nat, csr: nat)
    requires |rom| == RomWords && |c.reg| == 32 && rs < 32 && csr < 4096
    requires (csr in {0x001, 0x002, 0x003} && c.file.fs == 0) || (csr in {0x7b0, 0x7b1, 0x7b2} && !c.debug) || csr >= 0xc00
    ensures Exec(c, rom, 0x73, 0, 1, rs, csr) == None
  {
  }
}
