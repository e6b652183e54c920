/**
 * The building blocks of the boot ROM, what the generator puts into the code and data areas
 * for each, and what running each does to the machine.
 */
module BootBlocks {
  import opened PageWalk
  import opened BootMachine
  import opened Wrappers

  datatype Block =
    | HangOthers                      // park every hart but 0
    | Csr64(csr: nat, val: nat)
    | Csr12(csr: nat, val: nat)
    | Reg64(rn: nat, val: nat)
    | FpReg(rn: nat, low: nat, high: nat)
    | Io64(addr: nat, val: nat)
    | SaveX1                          // to dscratch
    | RestoreX1

  const Lo32: nat := 0x1_0000_0000

  function CodeLen(b: Block): nat {
    match b
    case HangOthers => 4
    case Csr64(_, _) => 4
    case Csr12(_, _) => 2
    case Reg64(_, _) => 3
    case FpReg(_, _, _) => 3
    case Io64(_, _) => 7
    case _ => 1
  }

  function DataLen(b: Block): nat {
    match b
    case Csr64(_, _) => 2
    case Reg64(_, _) => 2
    case FpReg(_, _, _) => 2
    case Io64(_, _) => 4
    case _ => 0
  }

  /** The words of block b, placed at word c of the code and word d of the data. */
  function Code(b: Block, c: nat, d: nat): (ws: seq<nat>)
    requires c <= d
    ensures |ws| == CodeLen(b)
  {
    var off := 4 * (d - c);
    match b
    case HangOthers => [ReadHartIdWord, BranchIfZeroWord, 0x10500073, 0xffdff06f]
    case Csr64(csr, _) => [AuipcWord(1, off), AddiWord(1, off), LdWord(1, 1), CsrrwWord(1, csr)]
    case Csr12(csr, val) => [SetiWord(1, val), CsrrwWord(1, csr)]
    case Reg64(rn, _) => [AuipcWord(rn, off), AddiWord(rn, off), LdWord(rn, rn)]
    case FpReg(rn, _, _) => [AuipcWord(1, off), AddiWord(1, off), FldWord(rn, 1)]
    case Io64(_, _) =>
      var off2 := 4 * (d + 2 - (c + 3));
      [AuipcWord(1, off), AddiWord(1, off), LdWord(1, 1),
       AuipcWord(2, IntOff(off2)), AddiWord(2, IntOff(off2)), LdWord(2, 2), SdWord(1, 2)]
    case SaveX1 => [CsrrwWord(1, 0x7b2)]
    case RestoreX1 => [CsrrsWord(1, 0x7b2)]
  }

  function IntOff(x: int): nat { if x < 0 then 0 else x }

  function Data(b: Block): (ws: seq<nat>)
    ensures |ws| == DataLen(b)
  {
    match b
    case Csr64(_, val) => [val % Lo32, val / Lo32]
    case Reg64(_, val) => [val % Lo32, val / Lo32]
    case FpReg(_, low, high) => [low, high]
    case Io64(addr, val) => [addr % Lo32, addr / Lo32, val % Lo32, val / Lo32]
    case _ => []
  }

  /** What the machine is like after block b, whose data stand at word d. */
  function Effect(b: Block, d: nat, c: Cpu): Cpu
    requires |c.reg| == 32 && (b.Reg64? ==> b.rn < 32)
  {
    var next := c.pc + 4 * CodeLen(b);
    match b
    case HangOthers => c.(pc := next, reg := c.reg[10 := c.hartid])
    case Csr64(csr, val) => WriteCsr(c.(reg := c.reg[1 := val]), csr, val).(pc := next)
    case Csr12(csr, val) =>
      var v := Wrap(Sext12(val % 4096));
      WriteCsr(c.(reg := c.reg[1 := v]), csr, v).(pc := next)
    case Reg64(rn, val) => c.(pc := next, reg := c.reg[rn := val])
    case FpReg(rn, low, high) =>
      c.(pc := next, reg := c.reg[1 := RomBase + 4 * d], fp := c.fp[rn := low + high * Lo32], file := c.file.(fs := 3))
    case Io64(addr, val) => c.(pc := next, reg := c.reg[1 := addr][2 := val], stores := c.stores + [(addr, val)])
    case SaveX1 => WriteCsr(c, 0x7b2, c.reg[1]).(pc := next)
    case RestoreX1 => c.(pc := next, reg := c.reg[1 := c.file.dscratch])
  }

  /** Nothing stops the machine in block b. */
  predicate Legal(b: Block, c: Cpu) {
    match b
    case HangOthers => c.hartid == 0
    case Csr64(csr, val) =>
      && csr < 4096 && val < WordLimit && KnownCsr(c, csr)
      && (csr == 0x300 ==> val / 0x20000 % 2 == 0) && (csr == 0x3a0 ==> !AnyLock(val))
    case Csr12(csr, val) => csr < 4096 && csr != 0x300 && csr != 0x3a0 && KnownCsr(c, csr)
    case Reg64(rn, val) => 1 <= rn < 32 && val < WordLimit
    case FpReg(rn, _, _) => rn < 32 && c.file.fs != 0
    case Io64(addr, val) =>
      addr < WordLimit && addr % 8 == 0 && val < WordLimit && !(RomBase <= addr + 7 && addr < RomBase + 4 * RomWords)
    case _ => true
  }

  /** The instructions that run; of the parking loop only the branch around it. */
  function Ran(b: Block): nat {
    if b.HangOthers? then 2 else CodeLen(b)
  }

  ghost predicate Placed(rom: seq<nat>, b: Block, c: nat, d: nat)
    requires |rom| == RomWords
  {
    && c + CodeLen(b) <= d && d + DataLen(b) <= RomWords
    && rom[c..c + CodeLen(b)] == Code(b, c, d)
    && rom[d..d + DataLen(b)] == Data(b)
  }

  // ---- Running one block ----

  lemma Join(v: nat)
    ensures v % Lo32 + v / Lo32 * Lo32 == v
  {
  }

  /** auipc, addi, ld: the double word at data word d arrives in rd. */
  lemma StepsLoad(c: Cpu, rom: seq<nat>, at: nat, d: nat, rd: nat, v: nat)
    requires |rom| == RomWords && Ready(c) && c.pc == RomBase + 4 * at && at + 3 <= d && d + 2 <= RomWords && d % 2 == 0
    requires 0 < rd < 32
    requires rom[at] == AuipcWord(rd, 4 * (d - at)) && rom[at + 1] == AddiWord(rd, 4 * (d - at))
    requires rom[at + 2] == LdWord(rd, rd)
    requires rom[d] == v % Lo32 && rom[d + 1] == v / Lo32
    ensures Steps(c, rom, 3) == Some(c.(pc := c.pc + 12, reg := c.reg[rd := v]))
  {
    hide Exec, AuipcWord, AddiWord, Word, Step, Steps;
    StepsAddress(c, rom, at, rd, 4 * (d - at));
    var c2 := c.(pc := c.pc + 8, reg := c.reg[rd := RomBase + 4 * d]);
    StepWord(c2, rom, at + 2, 0x03, rd, 3, rd, 0);
    ExecLd(c2, rom, rd, d, v);
    assert c2.reg[rd := v] == c.reg[rd := v];
    OneMore(c, rom, 2, c2, c.(pc := c.pc + 12, reg := c.reg[rd := v]));
  }

  lemma ExecLd(c: Cpu, rom: seq<nat>, rd: nat, d: nat, v: nat)
    requires |rom| == RomWords && |c.reg| == 32 && !c.file.mprv && !c.file.locked && 0 < rd < 32
    requires d % 2 == 0 && d + 2 <= RomWords && c.reg[rd] == RomBase + 4 * d
    requires rom[d] == v % Lo32 && rom[d + 1] == v / Lo32
    ensures Exec(c, rom, 0x03, rd, 3, rd, 0) == Some(Set(c, rd, v))
  {
    Join(v);
    assert Wrap(c.reg[rd] + Sext12(0)) == RomBase + 4 * d;
    assert LoadRom(rom, RomBase + 4 * d) == Some(v);
  }

  lemma OneMore(c: Cpu, rom: seq<nat>, n: nat, c1: Cpu, c2: Cpu)
    requires |rom| == RomWords && |c.reg| == 32 && |c1.reg| == 32
    requires Steps(c, rom, n) == Some(c1) && Step(c1, rom) == Some(c2)
    ensures Steps(c, rom, n + 1) == Some(c2)
  {
    hide Step;
    StepsAppend(c, rom, n, 1);
    assert |c2.reg| == 32;
    assert Steps(c2, rom, 0) == Some(c2);
  }

  lemma StepCsrrw(c: Cpu, rom: seq<nat>, at: nat, csr: nat)
    requires |rom| == RomWords && |c.reg| == 32 && at < RomWords && c.pc == RomBase + 4 * at
    requires csr < 4096 && KnownCsr(c, csr) && rom[at] == CsrrwWord(1, csr)
    ensures Step(c, rom) == Some(WriteCsr(c, csr, c.reg[1]).(pc := c.pc + 4))
  {
    hide Step, Word, FileWrite, KnownCsr;
    StepWord(c, rom, at, 0x73, 0, 1, 1, csr);
  }

  lemma RunCsr64(c: Cpu, rom: seq<nat>, at: nat, d: nat, csr: nat, val: nat)
    requires |rom| == RomWords && Ready(c) && c.pc == RomBase + 4 * at && d % 2 == 0
    requires Placed(rom, Csr64(csr, val), at, d) && Legal(Csr64(csr, val), c)
    ensures Steps(c, rom, 4) == Some(Effect(Csr64(csr, val), d, c))
  {
    hide Exec, AuipcWord, AddiWord, Word, Step, Steps, KnownCsr, AnyLock, FileWrite;
    var b := Csr64(csr, val);
    Slices(rom, b, at, d);
    StepsLoad(c, rom, at, d, 1, val);
    var c3 := c.(pc := c.pc + 12, reg := c.reg[1 := val]);
    KnownKept(c, c3, csr);
    StepCsrrw(c3, rom, at + 3, csr);
    OneMore(c, rom, 3, c3, Effect(b, d, c));
  }

  lemma KnownKept(c: Cpu, c': Cpu, csr: nat)
    requires c'.file.fs == c.file.fs && c'.debug == c.debug
    ensures KnownCsr(c', csr) == KnownCsr(c, csr)
  {
  }

  lemma Slices(rom: seq<nat>, b: Block, c: nat, d: nat)
    requires |rom| == RomWords && Placed(rom, b, c, d)
    ensures c + CodeLen(b) <= d && d + DataLen(b) <= RomWords
    ensures forall i :: 0 <= i < CodeLen(b) ==> rom[c + i] == Code(b, c, d)[i]
    ensures forall i :: 0 <= i < DataLen(b) ==> rom[d + i] == Data(b)[i]
  {
    forall i | 0 <= i < CodeLen(b) ensures rom[c + i] == Code(b, c, d)[i] {
      assert rom[c..c + CodeLen(b)][i] == rom[c + i];
    }
    forall i | 0 <= i < DataLen(b) ensures rom[d + i] == Data(b)[i] {
      assert rom[d..d + DataLen(b)][i] == rom[d + i];
    }
  }

  lemma RunCsr12(c: Cpu, rom: seq<nat>, at: nat, d: nat, csr: nat, val: nat)
    requires |rom| == RomWords && Ready(c) && c.pc == RomBase + 4 * at
    requires Placed(rom, Csr12(csr, val), at, d) && Legal(Csr12(csr, val), c)
    ensures Steps(c, rom, 2) == Some(Effect(Csr12(csr, val), d, c))
  {
    hide Exec, Word, Step, Steps, KnownCsr, AnyLock, FileWrite, Wrap, Sext12;
    var b := Csr12(csr, val);
    Slices(rom, b, at, d);
    var v := Wrap(Sext12(val % 4096));
    StepWord(c, rom, at, 0x13, 1, 0, 0, val % 4096);
    ExecAddi(c, rom, 1, 0, val % 4096);
    var c1 := c.(pc := c.pc + 4, reg := c.reg[1 := v]);
    KnownKept(c, c1, csr);
    StepCsrrw(c1, rom, at + 1, csr);
    OneStep(c, rom, c1);
    OneMore(c, rom, 1, c1, Effect(b, d, c));
  }

  lemma OneStep(c: Cpu, rom: seq<nat>, c1: Cpu)
    requires |rom| == RomWords && |c.reg| == 32 && Step(c, rom) == Some(c1)
    ensures Steps(c, rom, 1) == Some(c1)
  {
    hide Step;
    assert |c1.reg| == 32;
    assert Steps(c1, rom, 0) == Some(c1);
  }

  lemma RunReg64(c: Cpu, rom: seq<nat>, at: nat, d: nat, rn: nat, val: nat)
    requires |rom| == RomWords && Ready(c) && c.pc == RomBase + 4 * at && d % 2 == 0
    requires Placed(rom, Reg64(rn, val), at, d) && Legal(Reg64(rn, val), c)
    ensures Steps(c, rom, 3) == Some(Effect(Reg64(rn, val), d, c))
  {
    hide Exec, AuipcWord, AddiWord, Word, Step, Steps;
    Slices(rom, Reg64(rn, val), at, d);
    StepsLoad(c, rom, at, d, rn, val);
  }

  lemma RunFpReg(c: Cpu, rom: seq<nat>, at: nat, d: nat, b: Block)
    requires |rom| == RomWords && Ready(c) && c.pc == RomBase + 4 * at && d % 2 == 0
    requires b.FpReg? && Placed(rom, b, at, d) && Legal(b, c)
    ensures Steps(c, rom, 3) == Some(Effect(b, d, c))
  {
    hide Exec, AuipcWord, AddiWord, Word, Step, Steps;
    Slices(rom, b, at, d);
    StepsAddress(c, rom, at, 1, 4 * (d - at));
    var c2 := c.(pc := c.pc + 8, reg := c.reg[1 := RomBase + 4 * d]);
    StepWord(c2, rom, at + 2, 0x07, b.rn, 3, 1, 0);
    ExecFld(c2, rom, b.rn, d);
    OneMore(c, rom, 2, c2, Effect(b, d, c));
  }

  lemma ExecFld(c: Cpu, rom: seq<nat>, rn: nat, d: nat)
    requires |rom| == RomWords && |c.reg| == 32 && !c.file.mprv && !c.file.locked && rn < 32 && c.file.fs != 0
    requires d % 2 == 0 && d + 2 <= RomWords && c.reg[1] == RomBase + 4 * d
    ensures Exec(c, rom, 0x07, rn, 3, 1, 0) == Some(FpSet(c, rn, rom[d] + rom[d + 1] * Lo32))
  {
    assert Wrap(c.reg[1] + Sext12(0)) == RomBase + 4 * d;
    assert LoadRom(rom, RomBase + 4 * d) == Some(rom[d] + rom[d + 1] * Lo32);
  }

  lemma Io64Words(rom: seq<nat>, at: nat, d: nat, addr: nat, val: nat)
    requires |rom| == RomWords && Placed(rom, Io64(addr, val), at, d)
    ensures at + 7 <= d && d + 4 <= RomWords
    ensures rom[at] == AuipcWord(1, 4 * (d - at)) && rom[at + 1] == AddiWord(1, 4 * (d - at)) && rom[at + 2] == LdWord(1, 1)
    ensures rom[at + 3] == AuipcWord(2, 4 * (d + 2 - (at + 3))) && rom[at + 4] == AddiWord(2, 4 * (d + 2 - (at + 3)))
    ensures rom[at + 5] == LdWord(2, 2) && rom[at + 6] == SdWord(1, 2)
    ensures rom[d] == addr % Lo32 && rom[d + 1] == addr / Lo32
    ensures rom[d + 2] == val % Lo32 && rom[d + 3] == val / Lo32
  {
    hide AuipcWord, AddiWord, Word, LdWord, SdWord;
    var b := Io64(addr, val);
    Slices(rom, b, at, d);
    assert rom[at + 0] == Code(b, at, d)[0] && rom[at + 1] == Code(b, at, d)[1] && rom[at + 2] == Code(b, at, d)[2];
    assert rom[at + 3] == Code(b, at, d)[3] && rom[at + 4] == Code(b, at, d)[4];
    assert rom[at + 5] == Code(b, at, d)[5] && rom[at + 6] == Code(b, at, d)[6];
    assert rom[d + 0] == Data(b)[0] && rom[d + 1] == Data(b)[1];
    assert rom[d + 2] == Data(b)[2] && rom[d + 3] == Data(b)[3];
  }

  lemma RunIo64(c: Cpu, rom: seq<nat>, at: nat, d: nat, addr: nat, val: nat)
    requires |rom| == RomWords && Ready(c) && c.pc == RomBase + 4 * at && d % 2 == 0
    requires Placed(rom, Io64(addr, val), at, d) && Legal(Io64(addr, val), c)
    ensures Steps(c, rom, 7) == Some(Effect(Io64(addr, val), d, c))
  {
    hide Exec, AuipcWord, AddiWord, Word, Step, Steps;
    var b := Io64(addr, val);
    Io64Words(rom, at, d, addr, val);
    StepsLoad(c, rom, at, d, 1, addr);
    var c3 := c.(pc := c.pc + 12, reg := c.reg[1 := addr]);
    StepsLoad(c3, rom, at + 3, d + 2, 2, val);
    var c6 := c3.(pc := c.pc + 24, reg := c3.reg[2 := val]);
    StepsAppend(c, rom, 3, 3);
    StepWord(c6, rom, at + 6, 0x23, 0, 3, 1, 2);
    ExecSd(c6, rom, addr);
    OneMore(c, rom, 6, c6, Effect(b, d, c));
  }

  lemma ExecSd(c: Cpu, rom: seq<nat>, addr: nat)
    requires |rom| == RomWords && |c.reg| == 32 && !c.file.mprv && !c.file.locked
    requires c.reg[1] == addr < WordLimit && addr % 8 == 0 && !(RomBase <= addr + 7 && addr < RomBase + 4 * RomWords)
    ensures Exec(c, rom, 0x23, 0, 3, 1, 2) == Some(c.(pc := c.pc + 4, stores := c.stores + [(addr, c.reg[2])]))
  {
    assert Wrap(c.reg[1] + Sext12(0)) == addr;
  }

  lemma RunX1(c: Cpu, rom: seq<nat>, at: nat, d: nat, b: Block)
    requires |rom| == RomWords && Ready(c) && c.pc == RomBase + 4 * at
    requires (b.SaveX1? || b.RestoreX1?) && Placed(rom, b, at, d)
    ensures Steps(c, rom, 1) == Some(Effect(b, d, c))
  {
    hide Exec, Word, Step, Steps, FileWrite;
    Slices(rom, b, at, d);
    if b.SaveX1? {
      StepCsrrw(c, rom, at, 0x7b2);
    } else {
      StepWord(c, rom, at, 0x73, 1, 2, 0, 0x7b2);
      ExecReadDscratch(c, rom);
    }
    OneStep(c, rom, Effect(b, d, c));
  }

  lemma ExecReadDscratch(c: Cpu, rom: seq<nat>)
    requires |rom| == RomWords && |c.reg| == 32 && c.debug
    ensures Exec(c, rom, 0x73, 1, 2, 0, 0x7b2) == Some(Set(c, 1, c.file.dscratch))
  {
  }

  lemma RunHangOthers(c: Cpu, rom: seq<nat>, at: nat, d: nat)
    requires |rom| == RomWords && Ready(c) && c.pc == RomBase + 4 * at
    requires Placed(rom, HangOthers, at, d) && Legal(HangOthers, c)
    ensures Steps(c, rom, 2) == Some(Effect(HangOthers, d, c))
  {
    hide Exec, Step, Steps;
    Slices(rom, HangOthers, at, d);
    assert ReadHartIdWord == Word(0x73, 10, 2, 0, 0xf14);
    assert BranchIfZeroWord == Word(0x63, 12, 0, 10, 0);
    StepWord(c, rom, at, 0x73, 10, 2, 0, 0xf14);
    ExecReadHartId(c, rom);
    var c1 := c.(pc := c.pc + 4, reg := c.reg[10 := c.hartid]);
    StepWord(c1, rom, at + 1, 0x63, 12, 0, 10, 0);
    ExecBranch(c1, rom);
    TwoSteps(c, rom, c1, Effect(HangOthers, d, c));
  }

  lemma ExecReadHartId(c: Cpu, rom: seq<nat>)
    requires |rom| == RomWords && |c.reg| == 32
    ensures Exec(c, rom, 0x73, 10, 2, 0, 0xf14) == Some(Set(c, 10, c.hartid))
  {
  }

  /** beqz a0, 1f: taken by hart 0, over the two words of the parking loop. */
  lemma ExecBranch(c: Cpu, rom: seq<nat>)
    requires |rom| == RomWords && |c.reg| == 32 && c.reg[0] == 0 && c.reg[10] == 0 && c.pc < 0x100000
    ensures Exec(c, rom, 0x63, 12, 0, 10, 0) == Some(c.(pc := c.pc + 12))
  {
  }

  /** c in the parking loop placed at word `at`: nothing but x10 has changed since `from`. */
  ghost predicate Parked(c: Cpu, from: Cpu, at: nat) {
    && |from.reg| == 32 && (c.pc == RomBase + 4 * (at + 2) || c.pc == RomBase + 4 * (at + 3))
    && c == from.(pc := c.pc, reg := from.reg[10 := from.hartid])
  }

  lemma Park(c: Cpu, rom: seq<nat>, at: nat, d: nat)
    requires |rom| == RomWords && Ready(c) && c.pc == RomBase + 4 * at
    requires Placed(rom, HangOthers, at, d) && 0 < c.hartid < WordLimit
    ensures Steps(c, rom, 2).Some? && Parked(Steps(c, rom, 2).value, c, at)
  {
    hide Exec, Step, Steps;
    Slices(rom, HangOthers, at, d);
    assert ReadHartIdWord == Word(0x73, 10, 2, 0, 0xf14);
    assert BranchIfZeroWord == Word(0x63, 12, 0, 10, 0);
    StepWord(c, rom, at, 0x73, 10, 2, 0, 0xf14);
    ExecReadHartId(c, rom);
    var c1 := c.(pc := c.pc + 4, reg := c.reg[10 := c.hartid]);
    StepWord(c1, rom, at + 1, 0x63, 12, 0, 10, 0);
    ExecNoBranch(c1, rom);
    TwoSteps(c, rom, c1, c1.(pc := c.pc + 8));
    assert c1.(pc := c.pc + 8) == c.(pc := RomBase + 4 * (at + 2), reg := c.reg[10 := c.hartid]);
  }

  lemma ExecNoBranch(c: Cpu, rom: seq<nat>)
    requires |rom| == RomWords && |c.reg| == 32 && c.reg[0] == 0 && c.reg[10] != 0 && c.pc < 0x100000
    ensures Exec(c, rom, 0x63, 12, 0, 10, 0) == Some(c.(pc := c.pc + 4))
  {
  }

  lemma ParkedStep(c: Cpu, from: Cpu, rom: seq<nat>, at: nat, d: nat)
    requires |rom| == RomWords && Ready(from) && Placed(rom, HangOthers, at, d) && Parked(c, from, at)
    ensures |c.reg| == 32 && Step(c, rom).Some? && Parked(Step(c, rom).value, from, at)
  {
    hide Exec, Step;
    Slices(rom, HangOthers, at, d);
    assert 0x10500073 == Word(0x73, 0, 0, 0, 0x105);
    assert 0xffdff06f == Word(0x6f, 0, 7, 31, 0xffd);
    if c.pc == RomBase + 4 * (at + 2) {
      StepWord(c, rom, at + 2, 0x73, 0, 0, 0, 0x105);
      ExecWfi(c, rom);
      assert c.(pc := c.pc + 4) == from.(pc := RomBase + 4 * (at + 3), reg := from.reg[10 := from.hartid]);
    } else {
      StepWord(c, rom, at + 3, 0x6f, 0, 7, 31, 0xffd);
      ExecJumpBack(c, rom);
      assert c.(pc := c.pc - 4) == from.(pc := RomBase + 4 * (at + 2), reg := from.reg[10 := from.hartid]);
    }
  }

  lemma ExecWfi(c: Cpu, rom: seq<nat>)
    requires |rom| == RomWords && |c.reg| == 32 && c.priv == 3
    ensures Exec(c, rom, 0x73, 0, 0, 0, 0x105) == Some(c.(pc := c.pc + 4))
  {
  }

  lemma ExecJumpBack(c: Cpu, rom: seq<nat>)
    requires |rom| == RomWords && |c.reg| == 32 && 4 <= c.pc < 0x100000
    ensures Exec(c, rom, 0x6f, 0, 7, 31, 0xffd) == Some(c.(pc := c.pc - 4))
  {
  }

  /** A hart other than 0 never leaves the parking loop, however long it runs. */
  lemma {:induction false} HangParks(c: Cpu, rom: seq<nat>, at: nat, d: nat, n: nat)
    requires |rom| == RomWords && Ready(c) && c.pc == RomBase + 4 * at
    requires Placed(rom, HangOthers, at, d) && 0 < c.hartid < WordLimit
    ensures Steps(c, rom, 2 + n).Some? && Parked(Steps(c, rom, 2 + n).value, c, at)
  {
    hide Exec, Step, Steps, Placed, Parked;
    if n == 0 {
      Park(c, rom, at, d);
    } else {
      HangParks(c, rom, at, d, n - 1);
      var c1 := Steps(c, rom, 2 + n - 1).value;
      ParkedStep(c1, c, rom, at, d);
      OneMore(c, rom, 2 + n - 1, c1, Step(c1, rom).value);
    }
  }

  lemma RunBlock(c: Cpu, rom: seq<nat>, at: nat, d: nat, b: Block)
    requires |rom| == RomWords && Ready(c) && c.pc == RomBase + 4 * at && d % 2 == 0
    requires Placed(rom, b, at, d) && Legal(b, c)
    ensures b.Reg64? ==> b.rn < 32
    ensures Steps(c, rom, Ran(b)) == Some(Effect(b, d, c))
  {
    hide Steps, Effect, Placed, AnyLock, KnownCsr;
    match b
    case HangOthers => RunHangOthers(c, rom, at, d);
    case Csr64(csr, val) => RunCsr64(c, rom, at, d, csr, val);
    case Csr12(csr, val) => RunCsr12(c, rom, at, d, csr, val);
    case Reg64(rn, val) => RunReg64(c, rom, at, d, rn, val);
    case FpReg(_, _, _) => RunFpReg(c, rom, at, d, b);
    case Io64(addr, val) => RunIo64(c, rom, at, d, addr, val);
    case _ => RunX1(c, rom, at, d, b);
  }
}
