/**
 * The whole boot ROM: which blocks it is made of, and why running them from any register
 * contents ends with the saved registers, program counter and privilege.
 */
module BootProgram {
  import opened Powers
  import opened PageWalk
  import opened BootMachine
  import opened BootBlocks
  import opened Wrappers

  const DataStart: nat := 0x2c0 // word of byte 0xb00

  /** What a checkpoint saves of hart 0; csr gives the value recovered into each CSR. */
  datatype Saved = Saved(
    pc: nat, priv: nat, reg: seq<nat>, fs: nat, csr: nat -> nat, fp: seq<nat>,
    timecmp: nat, rtc: nat, clint: nat, compressed: bool, single: bool)

  /** What the restoration relies on: an aligned pc, MPRV clear, no locked PMP entry. */
  ghost predicate Sane(s: Saved) {
    && s.priv in {0, 1, 3} && |s.reg| == |s.fp| == 32
    && (forall i :: 0 <= i < 32 ==> s.reg[i] < WordLimit && s.fp[i] < WordLimit)
    && s.pc < WordLimit && s.pc % (if s.compressed then 2 else 4) == 0
    && (forall n :: s.csr(n) < WordLimit)
    && s.csr(0x300) / 0x2000 % 4 == s.fs && s.csr(0x300) / 0x20000 % 2 == 0
    && !AnyLock(s.csr(0x3a0))
    && s.timecmp < WordLimit && s.rtc < WordLimit
    && s.clint % 8 == 0 && s.clint >= RomBase + 4 * RomWords && s.clint + 0x10000 <= WordLimit
  }

  // ---- The blocks ----

  /** The high half of each register is taken from the integer register of that number. */
  function Fps(s: Saved): (bs: seq<Block>)
    requires |s.fp| == |s.reg| == 32
    ensures |bs| == 32
  {
    seq(32, i requires 0 <= i < 32 => FpReg(i, s.fp[i] % Lo32, s.reg[i] / Lo32))
  }

  function Counters(s: Saved): (bs: seq<Block>)
    ensures |bs| == 58
  {
    seq(58, i requires 0 <= i < 58 =>
      if i % 2 == 0 then Csr12(0xb03 + i / 2, 0) else Csr64(0x323 + i / 2, s.csr(0x323 + i / 2)))
  }

  function PmpAddrs(s: Saved): (bs: seq<Block>)
    ensures |bs| == 16
  {
    seq(16, i requires 0 <= i < 16 => Csr64(0x3b0 + i, s.csr(0x3b0 + i)))
  }

  function Regs(s: Saved, lo: nat, hi: nat): (bs: seq<Block>)
    requires lo <= hi <= |s.reg|
    ensures |bs| == hi - lo
  {
    seq(hi - lo, i requires 0 <= i < hi - lo => Reg64(lo + i, s.reg[lo + i]))
  }

  function Debug(s: Saved): seq<Block> {
    (if s.single then [HangOthers] else []) + [Csr64(0x7b1, s.pc), Csr12(0x7b0, 0x600 + s.priv)]
  }

  function Float(s: Saved): seq<Block>
    requires |s.fp| == |s.reg| == 32
  {
    if s.fs == 0 then [] else [Csr12(0x001, s.csr(0x001)), Csr12(0x002, s.csr(0x002)), Csr12(0x003, s.csr(0x003))] + Fps(s)
  }

  function Setup(s: Saved): seq<Block> {
    [Csr64(0x7a0, s.csr(0x7a0)),
     Csr64(0x302, s.csr(0x302)), Csr64(0x303, s.csr(0x303)), Csr64(0x304, s.csr(0x304)),
     Csr64(0x305, s.csr(0x305)), Csr64(0x105, s.csr(0x105)),
     Csr12(0x320, s.csr(0x320)), Csr12(0x306, s.csr(0x306)), Csr12(0x106, s.csr(0x106))]
  }

  function PmpCfgs(s: Saved): seq<Block> { [Csr64(0x3a0, s.csr(0x3a0)), Csr64(0x3a2, s.csr(0x3a2))] }

  function Traps(s: Saved): seq<Block> {
    [Csr64(0x340, s.csr(0x340)), Csr64(0x341, s.csr(0x341)), Csr64(0x342, s.csr(0x342)), Csr64(0x343, s.csr(0x343)),
     Csr64(0x140, s.csr(0x140)), Csr64(0x141, s.csr(0x141)), Csr64(0x142, s.csr(0x142)), Csr64(0x143, s.csr(0x143)),
     Csr64(0x344, s.csr(0x344))]
  }

  function Clint(s: Saved): seq<Block> {
    [Io64(s.clint + 0x4000, s.timecmp), Csr64(0xb02, s.csr(0xb02)), Csr64(0xb00, s.csr(0xb00)),
     Io64(s.clint + 0xbff8, s.rtc)]
  }

  /** satp comes last; x1, which its recovery needs, waits in dscratch. */
  function Last(s: Saved): seq<Block> { [SaveX1, Csr64(0x180, s.csr(0x180)), RestoreX1] }

  function Middle(s: Saved): seq<Block>
    requires |s.fp| == |s.reg| == 32
  {
    [Csr64(0x301, s.csr(0x301))] + Float(s) + Counters(s) + Setup(s) + PmpAddrs(s) + PmpCfgs(s) + Traps(s)
    + Regs(s, 3, 32) + Clint(s)
  }

  function Program(s: Saved): seq<Block>
    requires |s.fp| == |s.reg| == 32
  {
    Debug(s) + [Csr64(0x300, s.csr(0x300))] + Middle(s) + Regs(s, 1, 3) + Last(s)
  }

  // ---- Sequences of blocks ----

  function CodeSize(bs: seq<Block>): nat {
    if bs == [] then 0 else CodeLen(bs[0]) + CodeSize(bs[1..])
  }

  function DataSize(bs: seq<Block>): (n: nat)
    ensures n % 2 == 0
  {
    if bs == [] then 0 else DataLen(bs[0]) + DataSize(bs[1..])
  }

  function RanSize(bs: seq<Block>): nat {
    if bs == [] then 0 else Ran(bs[0]) + RanSize(bs[1..])
  }

  ghost predicate AllPlaced(rom: seq<nat>, bs: seq<Block>, at: nat, d: nat)
    requires |rom| == RomWords
    decreases |bs|
  {
    bs == [] || (Placed(rom, bs[0], at, d) && AllPlaced(rom, bs[1..], at + CodeLen(bs[0]), d + DataLen(bs[0])))
  }

  predicate Shaped(b: Block) { b.Reg64? ==> b.rn < 32 }

  ghost predicate AllShaped(bs: seq<Block>) { forall i :: 0 <= i < |bs| ==> Shaped(bs[i]) }

  lemma EffectShape(b: Block, d: nat, c: Cpu)
    requires |c.reg| == 32 && Shaped(b)
    ensures |Effect(b, d, c).reg| == 32 && Effect(b, d, c).pc == c.pc + 4 * CodeLen(b)
  {
    hide FileWrite, Wrap, Sext12;
  }

  function Effects(bs: seq<Block>, d: nat, c: Cpu): (r: Cpu)
    requires |c.reg| == 32 && AllShaped(bs)
    ensures |r.reg| == 32
    decreases |bs|
  {
    if bs == [] then c
    else
      EffectShape(bs[0], d, c);
      Effects(bs[1..], d + DataLen(bs[0]), Effect(bs[0], d, c))
  }

  ghost predicate AllLegal(bs: seq<Block>, d: nat, c: Cpu)
    requires |c.reg| == 32 && AllShaped(bs)
    decreases |bs|
  {
    bs == [] ||
    (EffectShape(bs[0], d, c);
     Ready(c) && Legal(bs[0], c) && AllLegal(bs[1..], d + DataLen(bs[0]), Effect(bs[0], d, c)))
  }

  lemma {:induction false} RunAll(c: Cpu, rom: seq<nat>, at: nat, d: nat, bs: seq<Block>)
    requires |rom| == RomWords && |c.reg| == 32 && AllShaped(bs)
    requires AllPlaced(rom, bs, at, d) && AllLegal(bs, d, c)
    requires c.pc == RomBase + 4 * at && d % 2 == 0
    ensures Steps(c, rom, RanSize(bs)) == Some(Effects(bs, d, c))
    ensures Effects(bs, d, c).pc == RomBase + 4 * (at + CodeSize(bs))
    decreases |bs|
  {
    hide Placed, Effect, Legal, Step, Ready;
    if bs != [] {
      var b := bs[0];
      EffectShape(b, d, c);
      RunBlock(c, rom, at, d, b);
      RunAll(Effect(b, d, c), rom, at + CodeLen(b), d + DataLen(b), bs[1..]);
      StepsAppend(c, rom, Ran(b), RanSize(bs[1..]));
    }
  }

  lemma {:induction false} EffectsAppend(a: seq<Block>, b: seq<Block>, d: nat, c: Cpu)
    requires |c.reg| == 32 && AllShaped(a) && AllShaped(b)
    ensures AllShaped(a + b)
    ensures Effects(a + b, d, c) == Effects(b, d + DataSize(a), Effects(a, d, c))
    ensures AllLegal(a, d, c) && AllLegal(b, d + DataSize(a), Effects(a, d, c)) ==> AllLegal(a + b, d, c)
    decreases |a|
  {
    hide Effect, Legal, Ready;
    if a == [] {
      assert a + b == b;
    } else {
      EffectShape(a[0], d, c);
      assert (a + b)[1..] == a[1..] + b;
      EffectsAppend(a[1..], b, d + DataLen(a[0]), Effect(a[0], d, c));
    }
  }

  // ---- What the blocks leave behind ----

  /** CSRs recovered from a 12-bit immediate. */
  predicate ShortCsr(csr: nat) {
    csr in {0x001, 0x002, 0x003, 0x106, 0x306, 0x320} || 0xb03 <= csr <= 0xb1f
  }

  /** CSRs recovered in full between the privilege and the last three blocks. */
  predicate LongCsr(csr: nat) {
    || csr in {0x301, 0x7a0, 0x302, 0x303, 0x304, 0x305, 0x105, 0x3a0, 0x3a2}
    || csr in {0x340, 0x341, 0x342, 0x343, 0x140, 0x141, 0x142, 0x143, 0x344, 0xb00, 0xb02}
    || 0x323 <= csr <= 0x33f || 0x3b0 <= csr <= 0x3bf
  }

  /** What a 12-bit recovery is given: the counters are reset, the others recovered. */
  function ShortVal(s: Saved, csr: nat): nat { if 0xb03 <= csr <= 0xb1f then 0 else s.csr(csr) }

  /** What the recovery of a CSR writes into it. */
  function Recovered(s: Saved, csr: nat): nat {
    if ShortCsr(csr) then Wrap(Sext12(ShortVal(s, csr) % 4096)) else s.csr(csr)
  }

  /** What the recovery of a floating-point register loads. */
  function LoadedFp(s: Saved, rn: nat): nat
    requires |s.fp| == |s.reg| == 32 && rn < 32
  {
    s.fp[rn] % Lo32 + s.reg[rn] / Lo32 * Lo32
  }

  ghost predicate Harmless(s: Saved, b: Block)
    requires Sane(s)
  {
    match b
    case Csr64(csr, val) => LongCsr(csr) && val == s.csr(csr)
    case Csr12(csr, val) => ShortCsr(csr) && val == ShortVal(s, csr) && (csr <= 0x003 ==> s.fs != 0)
    case Reg64(rn, val) => 1 <= rn < 32 && val == s.reg[rn]
    case FpReg(rn, low, high) => rn < 32 && s.fs != 0 && low == s.fp[rn] % Lo32 && high == s.reg[rn] / Lo32
    case Io64(addr, val) => addr % 8 == 0 && RomBase + 4 * RomWords <= addr < WordLimit && val < WordLimit
    case _ => false
  }

  /** The debug CSRs have been written what the final dret resumes from. */
  predicate ResumeLogged(s: Saved, c: Cpu) {
    && 0x7b0 in c.file.log && c.file.log[0x7b0] == 0x600 + s.priv
    && 0x7b1 in c.file.log && c.file.log[0x7b1] == s.pc
  }

  ghost predicate During(s: Saved, c: Cpu) {
    && Ready(c) && c.hartid == 0 && c.compressed == s.compressed
    && c.file.dpc == s.pc && c.file.dcsr % 4 == s.priv && ResumeLogged(s, c)
    && (if s.fs == 0 then c.file.fs == 0 else c.file.fs == s.fs || c.file.fs == 3)
  }

  predicate Logged(s: Saved, c: Cpu, csr: nat) {
    csr in c.file.log && c.file.log[csr] == Recovered(s, csr)
  }

  /** The floating-point register has been loaded, and the FPU state is dirty. */
  predicate FpLoaded(s: Saved, c: Cpu, rn: nat)
    requires |s.fp| == |s.reg| == 32 && rn < 32
  {
    rn in c.fp && c.fp[rn] == LoadedFp(s, rn) && c.file.fs == 3
  }

  /** Registers 3 to 31, and 1 and 2 if nothing but register loads follows. */
  predicate Clobbers(b: Block, rn: nat) {
    match b
    case Reg64(r, _) => r == rn
    case Io64(_, _) => rn == 1 || rn == 2
    case _ => rn == 1
  }

  lemma HarmlessStep(s: Saved, b: Block, d: nat, c: Cpu)
    requires Sane(s) && During(s, c) && Harmless(s, b)
    ensures Shaped(b) && Legal(b, c) && |Effect(b, d, c).reg| == 32 && During(s, Effect(b, d, c))
    ensures forall j :: 1 <= j < 32 && !Clobbers(b, j) ==> Effect(b, d, c).reg[j] == c.reg[j]
    ensures forall j :: 3 <= j < 32 && Clobbers(b, j) ==> b.Reg64? && b.rn == j
    ensures b.Reg64? ==> Effect(b, d, c).reg[b.rn] == s.reg[b.rn]
  {
    hide AnyLock, DcsrWritable, Wrap, Sext12, ShortVal;
    if b.Csr12? {
      ShortKnown(c, b.csr);
    }
    if b.Csr64? {
      LongKnown(c, b.csr);
    }
  }

  /** A block recovers its own CSR, and no other block of the stretch writes it anything else. */
  lemma HarmlessLogs(s: Saved, b: Block, d: nat, c: Cpu)
    requires Sane(s) && During(s, c) && Harmless(s, b)
    ensures forall n :: Logged(s, c, n) ==> Logged(s, Effect(b, d, c), n)
    ensures b.Csr64? || b.Csr12? ==> Logged(s, Effect(b, d, c), b.csr)
  {
    hide Sane, AnyLock, DcsrWritable, Wrap, Sext12, ShortVal, Recovered, ShortCsr, LongCsr;
    if b.Csr64? {
      LongKnown(c, b.csr);
    }
    if b.Csr64? || b.Csr12? {
      RecoveredIs(s, b.csr);
    }
  }

  lemma RecoveredIs(s: Saved, csr: nat)
    ensures Recovered(s, csr) == if ShortCsr(csr) then Wrap(Sext12(ShortVal(s, csr) % 4096)) else s.csr(csr)
  {
  }

  lemma HarmlessLoads(s: Saved, b: Block, d: nat, c: Cpu)
    requires Sane(s) && During(s, c) && Harmless(s, b)
    ensures |s.reg| == |s.fp| == 32
    ensures forall n :: 0 <= n < 32 && FpLoaded(s, c, n) ==> FpLoaded(s, Effect(b, d, c), n)
    ensures b.FpReg? ==> b.rn < 32 && FpLoaded(s, Effect(b, d, c), b.rn)
  {
    hide AnyLock, DcsrWritable, Wrap, Sext12, ShortVal, ShortCsr;
    if b.Csr64? {
      LongKnown(c, b.csr);
    }
    if b.Csr12? {
      ShortKnown(c, b.csr);
    }
  }

  lemma ShortKnown(c: Cpu, csr: nat)
    requires ShortCsr(csr) && (csr <= 0x003 ==> c.file.fs != 0)
    ensures KnownCsr(c, csr) && csr < 4096 && csr != 0x300 && csr != 0x7b0 && csr != 0x7b1
  {
  }

  lemma LongKnown(c: Cpu, csr: nat)
    requires LongCsr(csr)
    ensures KnownCsr(c, csr) && csr < 4096 && !ShortCsr(csr) && csr != 0x300 && csr > 0x003 && csr != 0x7b0 && csr != 0x7b1
  {
  }

  /** A stretch of harmless blocks: what it recovers is right, and what was right stays so. */
  lemma {:induction false} Stretch(s: Saved, bs: seq<Block>, d: nat, c: Cpu)
    requires Sane(s) && During(s, c)
    requires forall i :: 0 <= i < |bs| ==> Harmless(s, bs[i])
    ensures |c.reg| == |s.reg| == 32 && AllShaped(bs) && AllLegal(bs, d, c) && During(s, Effects(bs, d, c))
    ensures forall j :: 3 <= j < 32 && c.reg[j] == s.reg[j] ==> Effects(bs, d, c).reg[j] == s.reg[j]
    ensures forall i :: 0 <= i < |bs| && bs[i].Reg64? && bs[i].rn >= 3 ==> Effects(bs, d, c).reg[bs[i].rn] == s.reg[bs[i].rn]
    ensures forall n :: Logged(s, c, n) ==> Logged(s, Effects(bs, d, c), n)
    ensures forall i :: 0 <= i < |bs| && (bs[i].Csr64? || bs[i].Csr12?) ==> Logged(s, Effects(bs, d, c), bs[i].csr)
    ensures |s.fp| == 32 && forall n :: 0 <= n < 32 && FpLoaded(s, c, n) ==> FpLoaded(s, Effects(bs, d, c), n)
    ensures forall i :: 0 <= i < |bs| && bs[i].FpReg? ==> bs[i].rn < 32 && FpLoaded(s, Effects(bs, d, c), bs[i].rn)
    decreases |bs|
  {
    hide Effect, Legal, Harmless, ShortCsr, Logged, FpLoaded, Clobbers;
    if bs != [] {
      var b := bs[0];
      HarmlessStep(s, b, d, c);
      var c1 := Effect(b, d, c);
      Stretch(s, bs[1..], d + DataLen(b), c1);
      HarmlessLogs(s, b, d, c);
      HarmlessLoads(s, b, d, c);
      forall i | 0 <= i < |bs| ensures Shaped(bs[i]) {
        if i > 0 {
          assert bs[1..][i - 1] == bs[i];
        }
      }
      assert forall i :: 0 < i < |bs| ==> bs[i] == bs[1..][i - 1];
    }
  }

  // ---- What the devices are sent ----

  function Sent(b: Block): seq<(nat, nat)> {
    match b
    case Io64(addr, val) => [(addr, val)]
    case _ => []
  }

  function AllSent(bs: seq<Block>): seq<(nat, nat)> {
    if bs == [] then [] else Sent(bs[0]) + AllSent(bs[1..])
  }

  predicate NoDevice(bs: seq<Block>) { forall i :: 0 <= i < |bs| ==> !bs[i].Io64? }

  lemma SentOnce(b: Block, d: nat, c: Cpu)
    requires |c.reg| == 32 && Shaped(b)
    ensures Effect(b, d, c).stores == c.stores + Sent(b)
  {
    hide FileWrite, Wrap, Sext12;
  }

  lemma {:induction false} EffectsSend(bs: seq<Block>, d: nat, c: Cpu)
    requires |c.reg| == 32 && AllShaped(bs)
    ensures Effects(bs, d, c).stores == c.stores + AllSent(bs)
    decreases |bs|
  {
    hide Effect, Sent;
    if bs != [] {
      EffectShape(bs[0], d, c);
      SentOnce(bs[0], d, c);
      EffectsSend(bs[1..], d + DataLen(bs[0]), Effect(bs[0], d, c));
      assert c.stores + Sent(bs[0]) + AllSent(bs[1..]) == c.stores + (Sent(bs[0]) + AllSent(bs[1..]));
    }
  }

  lemma {:induction false} SentAppend(a: seq<Block>, b: seq<Block>)
    ensures AllSent(a + b) == AllSent(a) + AllSent(b)
    decreases |a|
  {
    hide Sent;
    if a == [] {
      assert a + b == b;
    } else {
      assert (a + b)[1..] == a[1..] + b;
      SentAppend(a[1..], b);
    }
  }

  lemma {:induction false} NothingSent(bs: seq<Block>)
    requires NoDevice(bs)
    ensures AllSent(bs) == []
    decreases |bs|
  {
    if bs != [] {
      NothingSent(bs[1..]);
    }
  }

  lemma NoDeviceParts(s: Saved)
    requires Sane(s)
    ensures NoDevice(Float(s)) && NoDevice(Counters(s)) && NoDevice(Setup(s)) && NoDevice(PmpAddrs(s)) && NoDevice(PmpCfgs(s))
    ensures NoDevice(Traps(s)) && NoDevice(Regs(s, 3, 32)) && NoDevice(Regs(s, 1, 3)) && NoDevice(Last(s)) && NoDevice(Debug(s))
  {
    hide AnyLock;
  }

  lemma ClintSends(s: Saved)
    ensures AllSent(Clint(s)) == [(s.clint + 0x4000, s.timecmp), (s.clint + 0xbff8, s.rtc)]
  {
    var a, b, c, d := [Clint(s)[0]], [Clint(s)[1]], [Clint(s)[2]], [Clint(s)[3]];
    assert Clint(s) == a + b + c + d;
    SentAppend(a + b + c, d);
    SentAppend(a + b, c);
    SentAppend(a, b);
  }

  /** Two stores leave the ROM, and no others. */
  lemma ProgramSends(s: Saved)
    requires Sane(s)
    ensures AllSent(Program(s)) == [(s.clint + 0x4000, s.timecmp), (s.clint + 0xbff8, s.rtc)]
  {
    hide Sent, AllSent, Float, Counters, Setup, PmpAddrs, PmpCfgs, Traps, Regs, Clint, Last, Debug, AnyLock, NoDevice;
    NoDeviceParts(s);
    ClintSends(s);
    MiddleSends(s);
    var status := [Csr64(0x300, s.csr(0x300))];
    OneQuiet(status[0]);
    NothingSent(Debug(s));
    NothingSent(Regs(s, 1, 3));
    NothingSent(Last(s));
    SentAppend(Debug(s), status);
    SentAppend(Debug(s) + status, Middle(s));
    SentAppend(Debug(s) + status + Middle(s), Regs(s, 1, 3));
    SentAppend(Debug(s) + status + Middle(s) + Regs(s, 1, 3), Last(s));
  }

  lemma OneQuiet(b: Block)
    requires !b.Io64?
    ensures AllSent([b]) == []
  {
    NothingSent([b]);
  }

  lemma MiddleSends(s: Saved)
    requires Sane(s)
    ensures AllSent(Middle(s)) == AllSent(Clint(s))
  {
    hide Sent, AllSent, Float, Counters, Setup, PmpAddrs, PmpCfgs, Traps, Regs, Clint, AnyLock, NoDevice;
    NoDeviceParts(s);
    var a := [Csr64(0x301, s.csr(0x301))];
    OneQuiet(a[0]);
    NothingSent(Float(s));
    NothingSent(Counters(s));
    NothingSent(Setup(s));
    NothingSent(PmpAddrs(s));
    NothingSent(PmpCfgs(s));
    NothingSent(Traps(s));
    NothingSent(Regs(s, 3, 32));
    SentAppend(a, Float(s));
    SentAppend(a + Float(s), Counters(s));
    SentAppend(a + Float(s) + Counters(s), Setup(s));
    SentAppend(a + Float(s) + Counters(s) + Setup(s), PmpAddrs(s));
    SentAppend(a + Float(s) + Counters(s) + Setup(s) + PmpAddrs(s), PmpCfgs(s));
    SentAppend(a + Float(s) + Counters(s) + Setup(s) + PmpAddrs(s) + PmpCfgs(s), Traps(s));
    SentAppend(a + Float(s) + Counters(s) + Setup(s) + PmpAddrs(s) + PmpCfgs(s) + Traps(s), Regs(s, 3, 32));
    SentAppend(a + Float(s) + Counters(s) + Setup(s) + PmpAddrs(s) + PmpCfgs(s) + Traps(s) + Regs(s, 3, 32), Clint(s));
  }

  // ---- The whole program ----

  /** The machine out of reset, in debug mode, with any register contents. */
  predicate AtReset(s: Saved, c: Cpu) {
    Ready(c) && c.hartid == 0 && c.compressed == s.compressed && c.pc == RomBase
  }

  lemma DcsrField(old_: nat, priv: nat)
    requires priv < 4
    ensures (old_ - DcsrWritable(old_) + DcsrWritable(0x600 + priv)) % 4 == priv
  {
  }

  ghost predicate EarlyDone(s: Saved, c: Cpu) {
    && Ready(c) && c.hartid == 0 && c.compressed == s.compressed
    && c.file.dpc == s.pc && c.file.dcsr % 4 == s.priv && ResumeLogged(s, c)
  }

  lemma DebugPart(s: Saved, d: nat, c: Cpu)
    requires Sane(s) && AtReset(s, c)
    ensures AllShaped(Debug(s)) && |c.reg| == 32 && AllLegal(Debug(s), d, c) && EarlyDone(s, Effects(Debug(s), d, c))
  {
    hide AnyLock, DcsrWritable;
    var c' := if s.single then Effect(HangOthers, d, c) else c;
    var rest := [Csr64(0x7b1, s.pc), Csr12(0x7b0, 0x600 + s.priv)];
    DebugPair(s, d, c');
    if s.single {
      var one := [HangOthers];
      assert Debug(s) == one + rest;
      assert one[1..] == [];
      assert DataSize(one) == 0;
      assert Effects(one, d, c) == c';
      assert AllLegal(one, d, c);
      EffectsAppend(one, rest, d, c);
    } else {
      assert Debug(s) == rest;
    }
  }

  lemma DebugPair(s: Saved, d: nat, c: Cpu)
    requires Sane(s) && Ready(c) && c.hartid == 0 && c.compressed == s.compressed
    ensures var bs := [Csr64(0x7b1, s.pc), Csr12(0x7b0, 0x600 + s.priv)];
            AllShaped(bs) && AllLegal(bs, d, c) && EarlyDone(s, Effects(bs, d, c))
  {
    hide AnyLock, DcsrWritable;
    var bs := [Csr64(0x7b1, s.pc), Csr12(0x7b0, 0x600 + s.priv)];
    var c1 := Effect(bs[0], d, c);
    DcsrField(c1.file.dcsr, s.priv);
    assert Wrap(Sext12((0x600 + s.priv) % 4096)) == 0x600 + s.priv;
    TwoBlocks(bs[0], bs[1], d, c);
  }

  lemma TwoBlocks(a: Block, b: Block, d: nat, c: Cpu)
    requires |c.reg| == 32 && Shaped(a) && Shaped(b) && |Effect(a, d, c).reg| == 32
    ensures AllShaped([a, b]) && Effects([a, b], d, c) == Effect(b, d + DataLen(a), Effect(a, d, c))
    ensures AllLegal([a, b], d, c) <==>
              Ready(c) && Legal(a, c) && Ready(Effect(a, d, c)) && Legal(b, Effect(a, d, c))
  {
    hide Effect, Legal, Ready;
    var bs := [a, b];
    assert bs[1..] == [b] && bs[1..][1..] == [];
    EffectShape(a, d, c);
    EffectShape(b, d + DataLen(a), Effect(a, d, c));
    OneBlock(b, d + DataLen(a), Effect(a, d, c));
    assert bs[1..] == [b];
  }

  lemma OneBlock(b: Block, d: nat, c: Cpu)
    requires |c.reg| == 32 && Shaped(b)
    ensures AllShaped([b]) && Effects([b], d, c) == Effect(b, d, c)
    ensures AllLegal([b], d, c) <==> Ready(c) && Legal(b, c)
  {
    hide Effect, Legal, Ready;
    var bs := [b];
    assert bs[1..] == [];
    EffectShape(b, d, c);
  }

  lemma StatusPart(s: Saved, d: nat, c: Cpu)
    requires Sane(s) && EarlyDone(s, c)
    ensures var bs := [Csr64(0x300, s.csr(0x300))];
            AllShaped(bs) && |c.reg| == 32 && AllLegal(bs, d, c) && During(s, Effects(bs, d, c))
            && Logged(s, Effects(bs, d, c), 0x300)
  {
    hide AnyLock, DcsrWritable;
    var bs := [Csr64(0x300, s.csr(0x300))];
    assert bs[1..] == [];
    EffectShape(bs[0], d, c);
  }

  ghost predicate InMiddle(s: Saved, b: Block)
    requires Sane(s)
  {
    || b == Csr64(0x301, s.csr(0x301)) || b in Float(s) || b in Counters(s) || b in Setup(s) || b in PmpAddrs(s)
    || b in PmpCfgs(s) || b in Traps(s) || b in Regs(s, 3, 32) || b in Clint(s)
  }

  lemma MiddleParts(s: Saved, b: Block)
    requires Sane(s)
    ensures b in Middle(s) <==> InMiddle(s, b)
  {
    hide Float, Counters, Setup, PmpAddrs, PmpCfgs, Traps, Regs, Clint;
  }

  lemma ListedSetup(s: Saved, n: nat)
    requires n in {0x7a0, 0x302, 0x303, 0x304, 0x305, 0x105}
    ensures Csr64(n, s.csr(n)) in Setup(s)
  {
    var i := if n == 0x7a0 then 0 else if n == 0x105 then 5 else n - 0x301;
    assert Setup(s)[i] == Csr64(n, s.csr(n));
  }

  lemma ListedTraps(s: Saved, n: nat)
    requires n in {0x340, 0x341, 0x342, 0x343, 0x140, 0x141, 0x142, 0x143, 0x344}
    ensures Csr64(n, s.csr(n)) in Traps(s)
  {
    var i := if n == 0x344 then 8 else if n >= 0x340 then n - 0x340 else n - 0x140 + 4;
    assert Traps(s)[i] == Csr64(n, s.csr(n));
  }

  lemma Listed(s: Saved, n: nat)
    requires Sane(s) && LongCsr(n)
    ensures InMiddle(s, Csr64(n, s.csr(n)))
  {
    hide Float, Counters, Setup, PmpAddrs, Traps, Regs, Sane;
    if 0x323 <= n <= 0x33f {
      ListedCounter(s, n);
    } else if 0x3b0 <= n <= 0x3bf {
      ListedAddr(s, n);
    } else if n in {0x7a0, 0x302, 0x303, 0x304, 0x305, 0x105} {
      ListedSetup(s, n);
    } else if n in {0x340, 0x341, 0x342, 0x343, 0x140, 0x141, 0x142, 0x143, 0x344} {
      ListedTraps(s, n);
    } else if n == 0x3a0 || n == 0x3a2 {
      assert PmpCfgs(s)[if n == 0x3a0 then 0 else 1] == Csr64(n, s.csr(n));
    } else if n == 0xb00 || n == 0xb02 {
      assert Clint(s)[if n == 0xb02 then 1 else 2] == Csr64(n, s.csr(n));
    }
  }

  lemma ListedCounter(s: Saved, n: nat)
    requires 0x323 <= n <= 0x33f
    ensures Csr64(n, s.csr(n)) in Counters(s)
  {
    assert Counters(s)[2 * (n - 0x323) + 1] == Csr64(n, s.csr(n));
  }

  lemma ListedShort(s: Saved, n: nat)
    requires Sane(s) && ShortCsr(n) && (n <= 0x003 ==> s.fs != 0)
    ensures InMiddle(s, Csr12(n, ShortVal(s, n)))
  {
    hide AnyLock, PmpAddrs, Traps, Regs, PmpCfgs, Clint;
    var b := Csr12(n, ShortVal(s, n));
    if n <= 0x003 {
      assert Float(s)[n - 1] == b;
    } else if 0xb03 <= n {
      assert Counters(s)[2 * (n - 0xb03)] == b;
    } else {
      assert Setup(s)[if n == 0x320 then 6 else if n == 0x306 then 7 else 8] == b;
    }
  }

  lemma ListedFp(s: Saved, i: nat)
    requires Sane(s) && i < 32 && s.fs != 0
    ensures |s.fp| == |s.reg| == 32 && InMiddle(s, FpReg(i, s.fp[i] % Lo32, s.reg[i] / Lo32))
  {
    hide AnyLock, Counters, Setup, PmpAddrs, Traps, Regs, PmpCfgs, Clint;
    assert Fps(s)[i] == FpReg(i, s.fp[i] % Lo32, s.reg[i] / Lo32);
    assert Float(s)[i + 3] == Fps(s)[i];
  }

  lemma ListedAddr(s: Saved, n: nat)
    requires 0x3b0 <= n <= 0x3bf
    ensures Csr64(n, s.csr(n)) in PmpAddrs(s)
  {
    assert PmpAddrs(s)[n - 0x3b0] == Csr64(n, s.csr(n));
  }

  lemma CountersHarmless(s: Saved, i: nat)
    requires Sane(s) && i < 58
    ensures Harmless(s, Counters(s)[i])
  {
    hide AnyLock;
  }

  lemma SetupHarmless(s: Saved, i: nat)
    requires Sane(s) && i < 9
    ensures Harmless(s, Setup(s)[i]) && Harmless(s, Traps(s)[i])
  {
    hide AnyLock;
  }

  lemma FloatHarmless(s: Saved, b: Block)
    requires Sane(s) && b in Float(s)
    ensures Harmless(s, b)
  {
    hide AnyLock;
  }

  lemma RestHarmless(s: Saved, b: Block)
    requires Sane(s)
    requires b == Csr64(0x301, s.csr(0x301)) || b in PmpAddrs(s) || b in PmpCfgs(s) || b in Regs(s, 3, 32) || b in Clint(s)
    ensures Harmless(s, b)
  {
    hide AnyLock;
  }

  lemma PartsHarmless(s: Saved, b: Block)
    requires Sane(s) && InMiddle(s, b)
    ensures Harmless(s, b)
  {
    hide AnyLock, Harmless, Float, Counters, Setup, PmpAddrs, PmpCfgs, Traps, Regs, Clint;
    if b in Counters(s) {
      var i :| 0 <= i < |Counters(s)| && b == Counters(s)[i];
      CountersHarmless(s, i);
    } else if b in Setup(s) {
      SetupSize(s);
      var i :| 0 <= i < |Setup(s)| && b == Setup(s)[i];
      SetupHarmless(s, i);
    } else if b in Traps(s) {
      SetupSize(s);
      var i :| 0 <= i < |Traps(s)| && b == Traps(s)[i];
      SetupHarmless(s, i);
    } else if b in Float(s) {
      FloatHarmless(s, b);
    } else {
      RestHarmless(s, b);
    }
  }

  lemma SetupSize(s: Saved)
    ensures |Setup(s)| == |Traps(s)| == 9
  {
  }

  lemma MiddleHarmless(s: Saved)
    requires Sane(s)
    ensures forall i :: 0 <= i < |Middle(s)| ==> Harmless(s, Middle(s)[i])
    ensures forall j :: 3 <= j < 32 ==> Reg64(j, s.reg[j]) in Middle(s)
    ensures forall n :: LongCsr(n) ==> Csr64(n, s.csr(n)) in Middle(s)
    ensures forall n :: ShortCsr(n) && (n <= 0x003 ==> s.fs != 0) ==> Csr12(n, ShortVal(s, n)) in Middle(s)
    ensures s.fs != 0 ==> forall i :: 0 <= i < 32 ==> FpReg(i, s.fp[i] % Lo32, s.reg[i] / Lo32) in Middle(s)
  {
    hide Middle, Harmless, LongCsr, ShortCsr, ShortVal, InMiddle, AnyLock;
    forall n | ShortCsr(n) && (n <= 0x003 ==> s.fs != 0) ensures Csr12(n, ShortVal(s, n)) in Middle(s) {
      ListedShort(s, n);
      MiddleParts(s, Csr12(n, ShortVal(s, n)));
    }
    if s.fs != 0 {
      forall i | 0 <= i < 32 ensures FpReg(i, s.fp[i] % Lo32, s.reg[i] / Lo32) in Middle(s) {
        ListedFp(s, i);
        MiddleParts(s, FpReg(i, s.fp[i] % Lo32, s.reg[i] / Lo32));
      }
    }
    forall j | 3 <= j < 32 ensures |s.reg| == 32 && Reg64(j, s.reg[j]) in Middle(s) {
      ListedReg(s, j);
      MiddleParts(s, Reg64(j, s.reg[j]));
    }
    forall n | LongCsr(n) ensures Csr64(n, s.csr(n)) in Middle(s) {
      Listed(s, n);
      MiddleParts(s, Csr64(n, s.csr(n)));
    }
    forall i | 0 <= i < |Middle(s)| ensures Harmless(s, Middle(s)[i]) {
      MiddleParts(s, Middle(s)[i]);
      PartsHarmless(s, Middle(s)[i]);
    }
  }

  lemma ListedReg(s: Saved, j: nat)
    requires Sane(s) && 3 <= j < 32
    ensures |s.reg| == 32 && InMiddle(s, Reg64(j, s.reg[j]))
  {
    assert Regs(s, 3, 32)[j - 3] == Reg64(j, s.reg[j]);
  }

  /** What is right once everything but x1 and x2 is back. */
  ghost predicate Restored(s: Saved, c: Cpu, from: nat)
    requires Sane(s)
  {
    && During(s, c)
    && (forall j :: from <= j < 32 ==> c.reg[j] == s.reg[j])
    && (forall n :: LongCsr(n) || n == 0x300 || ShortDue(s, n) ==> Logged(s, c, n))
    && (s.fs != 0 ==> forall i :: 0 <= i < 32 ==> FpLoaded(s, c, i))
  }

  /** The CSRs whose 12-bit recovery is in the ROM. */
  predicate ShortDue(s: Saved, csr: nat) {
    ShortCsr(csr) && (csr <= 0x003 ==> s.fs != 0)
  }

  lemma MiddlePart(s: Saved, d: nat, c: Cpu)
    requires Sane(s) && During(s, c) && Logged(s, c, 0x300)
    ensures AllShaped(Middle(s)) && AllLegal(Middle(s), d, c) && Restored(s, Effects(Middle(s), d, c), 3)
  {
    hide Middle, Harmless, LongCsr, ShortCsr, ShortVal, Logged, FpLoaded, AnyLock;
    MiddleHarmless(s);
    Stretch(s, Middle(s), d, c);
    var c' := Effects(Middle(s), d, c);
    forall j | 3 <= j < 32 ensures c'.reg[j] == s.reg[j] {
      var i :| 0 <= i < |Middle(s)| && Middle(s)[i] == Reg64(j, s.reg[j]);
    }
    forall n | LongCsr(n) ensures Logged(s, c', n) {
      var i :| 0 <= i < |Middle(s)| && Middle(s)[i] == Csr64(n, s.csr(n));
    }
    forall n | ShortDue(s, n) ensures Logged(s, c', n) {
      var i :| 0 <= i < |Middle(s)| && Middle(s)[i] == Csr12(n, ShortVal(s, n));
    }
    if s.fs != 0 {
      forall j | 0 <= j < 32 ensures FpLoaded(s, c', j) {
        var i :| 0 <= i < |Middle(s)| && Middle(s)[i] == FpReg(j, s.fp[j] % Lo32, s.reg[j] / Lo32);
      }
    }
  }

  /** Nothing but registers and the CSRs of the last three blocks changes. */
  lemma RestoredKept(s: Saved, c: Cpu, from: nat, c': Cpu, to: nat)
    requires Sane(s) && Restored(s, c, from)
    requires Ready(c') && c'.hartid == c.hartid && c'.compressed == c.compressed && c'.fp == c.fp
    requires c'.file.dpc == c.file.dpc && c'.file.dcsr == c.file.dcsr && c'.file.fs == c.file.fs
    requires forall n :: n in c.file.log && n != 0x180 && n != 0x7b2 ==>
               n in c'.file.log && c'.file.log[n] == c.file.log[n]
    requires forall j :: to <= j < 32 ==> c'.reg[j] == s.reg[j]
    ensures Restored(s, c', to)
  {
    hide AnyLock, LoadedFp, Recovered, ShortCsr, LongCsr;
    SatpNotLong();
    forall n | LongCsr(n) || n == 0x300 || ShortDue(s, n) ensures Logged(s, c', n) {
      assert Logged(s, c, n);
    }
    if s.fs != 0 {
      forall i | 0 <= i < 32 ensures FpLoaded(s, c', i) {
        assert FpLoaded(s, c, i);
      }
    }
  }

  lemma PairPart(s: Saved, d: nat, c: Cpu)
    requires Sane(s) && Restored(s, c, 3)
    ensures AllShaped(Regs(s, 1, 3)) && AllLegal(Regs(s, 1, 3), d, c) && Restored(s, Effects(Regs(s, 1, 3), d, c), 1)
  {
    hide LongCsr, ShortCsr, Recovered, LoadedFp, AnyLock;
    assert Regs(s, 1, 3) == [Reg64(1, s.reg[1]), Reg64(2, s.reg[2])];
    TwoBlocks(Reg64(1, s.reg[1]), Reg64(2, s.reg[2]), d, c);
    RestoredKept(s, c, 3, Effects(Regs(s, 1, 3), d, c), 1);
  }

  lemma LastPart(s: Saved, d: nat, c: Cpu)
    requires Sane(s) && Restored(s, c, 1)
    ensures AllShaped(Last(s)) && AllLegal(Last(s), d, c)
    ensures Restored(s, Effects(Last(s), d, c), 1) && Logged(s, Effects(Last(s), d, c), 0x180)
  {
    hide AnyLock, DcsrWritable, LoadedFp;
    var bs := Last(s);
    SatpNotLong();
    var c1 := Effect(bs[0], d, c);
    var c2 := Effect(bs[1], d, c1);
    var c3 := Effect(bs[2], d + 2, c2);
    assert c3.reg == c2.reg[1 := c.reg[1]];
    TwoBlocks(bs[1], bs[2], d, c1);
    assert bs[1..] == [bs[1], bs[2]];
    RestoredKept(s, c, 1, c3, 1);
  }

  lemma SatpNotLong()
    ensures !LongCsr(0x180) && !LongCsr(0x7b2) && !ShortCsr(0x180) && !ShortCsr(0x7b2)
  {
  }

  /** The blocks, put together. */
  lemma ProgramEffect(s: Saved, d: nat, c: Cpu)
    requires Sane(s) && AtReset(s, c)
    ensures AllShaped(Program(s)) && |c.reg| == 32 && AllLegal(Program(s), d, c)
    ensures Restored(s, Effects(Program(s), d, c), 1) && Logged(s, Effects(Program(s), d, c), 0x180)
  {
    hide Debug, Middle, Regs, Last, AllLegal, Effects, AllShaped, Restored, EarlyDone, AnyLock, LongCsr;
    var a, b, m, r, l := Debug(s), [Csr64(0x300, s.csr(0x300))], Middle(s), Regs(s, 1, 3), Last(s);
    DebugPart(s, d, c);
    var d1, c1 := d + DataSize(a), Effects(a, d, c);
    StatusPart(s, d1, c1);
    var d2, c2 := d1 + DataSize(b), Effects(b, d1, c1);
    EffectsAppend(a, b, d, c);
    DataAppend(a, b);
    MiddlePart(s, d2, c2);
    RestoredShape(s, Effects(m, d2, c2), 3);
    EffectsAppend(a + b, m, d, c);
    DataAppend(a + b, m);
    var d3, c3 := d2 + DataSize(m), Effects(m, d2, c2);
    PairPart(s, d3, c3);
    EffectsAppend(a + b + m, r, d, c);
    DataAppend(a + b + m, r);
    var d4, c4 := d3 + DataSize(r), Effects(r, d3, c3);
    LastPart(s, d4, c4);
    EffectsAppend(a + b + m + r, l, d, c);
  }

  lemma RestoredShape(s: Saved, c: Cpu, from: nat)
    requires Sane(s) && Restored(s, c, from)
    ensures |c.reg| == 32
  {
  }

  lemma {:induction false} DataAppend(a: seq<Block>, b: seq<Block>)
    ensures DataSize(a + b) == DataSize(a) + DataSize(b)
    ensures CodeSize(a + b) == CodeSize(a) + CodeSize(b)
    decreases |a|
  {
    if a == [] {
      assert a + b == b;
    } else {
      assert (a + b)[1..] == a[1..] + b;
      DataAppend(a[1..], b);
    }
  }

  /** A ROM image that holds the program of a checkpoint, then dret. */
  ghost predicate Built(rom: seq<nat>, s: Saved)
    requires Sane(s)
  {
    && |rom| == RomWords && CodeSize(Program(s)) < DataStart
    && AllPlaced(rom, Program(s), 0, DataStart)
    && rom[CodeSize(Program(s))] == DretWord
  }

  /** The CSRs that come back in full. */
  predicate FullCsr(n: nat) {
    || n in {0x180, 0x300, 0x301, 0x302, 0x303, 0x304, 0x305, 0x105, 0x340, 0x341, 0x342, 0x343, 0x344, 0x140, 0x141, 0x142, 0x143}
    || n in {0x3a0, 0x3a2, 0x7a0, 0xb00, 0xb02} || 0x3b0 <= n <= 0x3bf || 0x323 <= n <= 0x33f
  }

  /** The sign-extended twelve bits that a recovery with one immediate can carry. */
  function TwelveBits(v: nat): nat {
    if v % 4096 < 2048 then v % 4096 else 0x1_0000_0000_0000_0000 - 4096 + v % 4096
  }

  /** csr was last written v. */
  predicate LastWritten(c: Cpu, csr: nat, v: nat) {
    csr in c.file.log && c.file.log[csr] == v
  }

  /**
   * The point of the boot ROM: from any register contents it runs without a trap and ends
   * with the saved registers, program counter and privilege. Of the CSRs, those recovered in
   * full were last written their values, the counters zero, the others what twelve bits
   * carry. The CLINT was sent timecmp and the time, in this order and nothing else. The FPU
   * is left off, or on and dirty, each register with the high half of its integer namesake.
   */
  lemma BootRestores(rom: seq<nat>, s: Saved, c: Cpu)
    requires Sane(s) && Built(rom, s) && AtReset(s, c)
    ensures |c.reg| == |s.reg| == |s.fp| == 32
    ensures var end := Steps(c, rom, RanSize(Program(s)) + 1);
            && end.Some? && |end.value.reg| == 32
            && (forall j :: 1 <= j < 32 ==> end.value.reg[j] == s.reg[j])
            && end.value.pc == s.pc && end.value.priv == s.priv && !end.value.debug
            && (forall n :: FullCsr(n) ==> LastWritten(end.value, n, s.csr(n)))
            && (forall n :: 0xb03 <= n <= 0xb1f ==> LastWritten(end.value, n, 0))
            && (forall n :: n in {0x106, 0x306, 0x320} || (n in {0x001, 0x002, 0x003} && s.fs != 0) ==>
                  LastWritten(end.value, n, TwelveBits(s.csr(n))))
            && LastWritten(end.value, 0x7b0, 0x600 + s.priv) && LastWritten(end.value, 0x7b1, s.pc)
            && end.value.stores == c.stores + [(s.clint + 0x4000, s.timecmp), (s.clint + 0xbff8, s.rtc)]
            && end.value.file.fs == (if s.fs == 0 then 0 else 3)
            && (s.fs != 0 ==> forall i :: 0 <= i < 32 ==>
                  i in end.value.fp && end.value.fp[i] == s.fp[i] % 0x1_0000_0000 + s.reg[i] / 0x1_0000_0000 * 0x1_0000_0000)
  {
    hide Program, AllPlaced, AllLegal, AllShaped, Effects, Step, LongCsr, ShortDue, Recovered, LoadedFp, AnyLock, Legal,
         AllSent, FullCsr, LastWritten, TwelveBits;
    ProgramEffect(s, DataStart, c);
    DataStartIs();
    RunAll(c, rom, 0, DataStart, Program(s));
    var c1 := Effects(Program(s), DataStart, c);
    StepDret(s, c1, rom, CodeSize(Program(s)));
    var end := c1.(priv := s.priv, pc := s.pc, debug := false);
    OneMore(c, rom, RanSize(Program(s)), c1, end);
    EffectsSend(Program(s), DataStart, c);
    ProgramSends(s);
    EndKeeps(s, c1, end);
    EndNumbers(s, end);
  }

  lemma EndKeeps(s: Saved, c: Cpu, end: Cpu)
    requires Sane(s) && Restored(s, c, 1) && Logged(s, c, 0x180) && end.file == c.file && end.fp == c.fp
    ensures ResumeLogged(s, end)
    ensures forall n :: LongCsr(n) || n == 0x300 || n == 0x180 || ShortDue(s, n) ==> Logged(s, end, n)
    ensures end.file.fs == if s.fs == 0 then 0 else 3
    ensures |s.fp| == |s.reg| == 32
    ensures s.fs != 0 ==> forall i :: 0 <= i < 32 ==> FpLoaded(s, end, i)
  {
    hide AnyLock, LoadedFp, Recovered, ShortCsr, LongCsr;
    forall n | LongCsr(n) || n == 0x300 || ShortDue(s, n) ensures Logged(s, end, n) {
      assert Logged(s, c, n);
    }
    if s.fs != 0 {
      assert FpLoaded(s, c, 0);
      forall i | 0 <= i < 32 ensures FpLoaded(s, end, i) {
        assert FpLoaded(s, c, i);
      }
    }
  }

  lemma EndNumbers(s: Saved, end: Cpu)
    requires ResumeLogged(s, end) && |s.fp| == |s.reg| == 32
    requires forall n :: LongCsr(n) || n == 0x300 || n == 0x180 || ShortDue(s, n) ==> Logged(s, end, n)
    requires s.fs != 0 ==> forall i :: 0 <= i < 32 ==> FpLoaded(s, end, i)
    ensures forall n :: FullCsr(n) ==> LastWritten(end, n, s.csr(n))
    ensures forall n :: 0xb03 <= n <= 0xb1f ==> LastWritten(end, n, 0)
    ensures forall n :: n in {0x106, 0x306, 0x320} || (n in {0x001, 0x002, 0x003} && s.fs != 0) ==> LastWritten(end, n, TwelveBits(s.csr(n)))
    ensures LastWritten(end, 0x7b0, 0x600 + s.priv) && LastWritten(end, 0x7b1, s.pc)
    ensures s.fs != 0 ==> forall i :: 0 <= i < 32 ==>
              i in end.fp && end.fp[i] == s.fp[i] % 0x1_0000_0000 + s.reg[i] / 0x1_0000_0000 * 0x1_0000_0000
  {
    hide LongCsr, ShortDue, Recovered, FullCsr, TwelveBits, LoadedFp;
    forall n | FullCsr(n) ensures LastWritten(end, n, s.csr(n)) {
      FullIsRecovered(s, n);
      assert Logged(s, end, n);
    }
    forall n | 0xb03 <= n <= 0xb1f ensures LastWritten(end, n, 0) {
      CounterIsReset(s, n);
      assert Logged(s, end, n);
    }
    forall n | n in {0x106, 0x306, 0x320} || (n in {0x001, 0x002, 0x003} && s.fs != 0) ensures LastWritten(end, n, TwelveBits(s.csr(n))) {
      ShortIsRecovered(s, n);
      assert Logged(s, end, n);
    }
    forall i | s.fs != 0 && 0 <= i < 32
      ensures i in end.fp && end.fp[i] == s.fp[i] % 0x1_0000_0000 + s.reg[i] / 0x1_0000_0000 * 0x1_0000_0000
    {
      assert FpLoaded(s, end, i);
      LoadedFpIs(s, i);
    }
  }

  lemma FullIsRecovered(s: Saved, n: nat)
    requires FullCsr(n)
    ensures (LongCsr(n) || n == 0x300 || n == 0x180) && Recovered(s, n) == s.csr(n)
  {
  }

  lemma CounterIsReset(s: Saved, n: nat)
    requires 0xb03 <= n <= 0xb1f
    ensures ShortDue(s, n) && Recovered(s, n) == 0
  {
  }

  lemma ShortIsRecovered(s: Saved, n: nat)
    requires n in {0x106, 0x306, 0x320} || (n in {0x001, 0x002, 0x003} && s.fs != 0)
    ensures ShortDue(s, n) && Recovered(s, n) == TwelveBits(s.csr(n))
  {
  }

  lemma LoadedFpIs(s: Saved, i: nat)
    requires |s.fp| == |s.reg| == 32 && i < 32
    ensures LoadedFp(s, i) == s.fp[i] % 0x1_0000_0000 + s.reg[i] / 0x1_0000_0000 * 0x1_0000_0000
  {
  }

  lemma DataStartIs()
    ensures DataStart % 2 == 0 && DataStart < RomWords
  {
  }

  lemma StepDret(s: Saved, c: Cpu, rom: seq<nat>, at: nat)
    requires |rom| == RomWords && at < RomWords && During(s, c) && c.pc == RomBase + 4 * at && rom[at] == DretWord
    ensures |c.reg| == 32 && Step(c, rom) == Some(c.(priv := s.priv, pc := s.pc, debug := false))
  {
    hide Step;
    assert DretWord == Word(0x73, 0, 0, 0, 0x7b2);
    StepWord(c, rom, at, 0x73, 0, 0, 0, 0x7b2);
  }

  /** A checkpoint of one hart parks the others for good: none of them leaves the loop at the start of the ROM. */
  lemma OthersPark(rom: seq<nat>, s: Saved, c: Cpu, n: nat)
    requires Sane(s) && Built(rom, s) && s.single
    requires Ready(c) && c.pc == RomBase && 0 < c.hartid < WordLimit
    ensures Steps(c, rom, 2 + n).Some?
    ensures var end := Steps(c, rom, 2 + n).value; 0x10008 <= end.pc <= 0x1000c && end == c.(pc := end.pc, reg := c.reg[10 := c.hartid])
  {
    hide Exec, Step, Steps, Placed, Program, AllPlaced, AnyLock;
    FirstBlock(rom, s);
    HangParks(c, rom, 0, DataStart, n);
  }

  /** With more harts there is no such loop, and the recovery of dpc comes first. */
  lemma FirstBlock(rom: seq<nat>, s: Saved)
    requires Sane(s) && Built(rom, s)
    ensures |rom| == RomWords && Placed(rom, if s.single then HangOthers else Csr64(0x7b1, s.pc), 0, DataStart)
  {
    hide Placed, Middle, Regs, Last, AnyLock, CodeSize;
    var bs := Program(s);
    assert bs[0] == if s.single then HangOthers else Csr64(0x7b1, s.pc);
  }

  // ---- What comes back ----

  /**
   * A 32-bit counter-enable or counter-inhibit register comes back if and only if its upper
   * bits repeat bit 11; the others recovered in full, always.
   */
  lemma ShortCsrBack(s: Saved, csr: nat)
    requires csr in {0x106, 0x306, 0x320} && s.csr(csr) < Lo32
    ensures Recovered(s, csr) % Lo32 == s.csr(csr) <==> s.csr(csr) < 2048 || s.csr(csr) >= Lo32 - 2048
  {
    hide Wrap, Sext12;
    Sext32(s.csr(csr));
  }

  lemma Sext32(v: nat)
    requires v < Lo32
    ensures Wrap(Sext12(v % 4096)) % Lo32 == v <==> v < 2048 || v >= Lo32 - 2048
  {
    var l := v % 4096;
    if l < 2048 {
      assert Wrap(Sext12(l)) == l;
    } else {
      assert Wrap(Sext12(l)) == WordLimit - (4096 - l);
      assert Wrap(Sext12(l)) % Lo32 == Lo32 - (4096 - l) by {
        DivModUnique(WordLimit - (4096 - l), Lo32, Lo32 - 1, Lo32 - (4096 - l));
      }
    }
  }

  /** The rounding mode and the accrued flags always come back. */
  lemma FpCsrsBack(s: Saved, csr: nat)
    requires csr in {0x001, 0x002, 0x003} && s.csr(csr) < 0x100
    ensures Recovered(s, csr) == s.csr(csr)
  {
  }

  /** A floating-point register comes back if and only if its high half is that of the integer register. */
  lemma FpBack(s: Saved, rn: nat)
    requires |s.fp| == |s.reg| == 32 && rn < 32
    ensures LoadedFp(s, rn) == s.fp[rn] <==> s.fp[rn] / Lo32 == s.reg[rn] / Lo32
  {
    Halves(s.fp[rn], s.reg[rn] / Lo32);
  }

  lemma Halves(v: nat, h: nat)
    ensures v % Lo32 + h * Lo32 == v <==> v / Lo32 == h
  {
  }
}
