/**
 * The generator of the boot ROM: methods that append code and data to the image, and the
 * proof that the image they build is the one whose run restores the checkpoint.
 */
module BootRom {
  import opened PageWalk
  import opened BootMachine
  import opened BootBlocks
  import opened BootProgram

  // ---- Appending a block ----

  lemma {:induction false} PlacedLast(rom: seq<nat>, bs: seq<Block>, b: Block, at: nat, d: nat)
    requires |rom| == RomWords
    requires AllPlaced(rom, bs, at, d) && Placed(rom, b, at + CodeSize(bs), d + DataSize(bs))
    ensures AllPlaced(rom, bs + [b], at, d)
    decreases |bs|
  {
    hide Placed;
    var all := bs + [b];
    if bs == [] {
      assert all[1..] == [];
    } else {
      assert all[1..] == bs[1..] + [b];
      PlacedLast(rom, bs[1..], b, at + CodeLen(bs[0]), d + DataLen(bs[0]));
    }
  }

  /** Blocks already placed do not notice what is written behind them. */
  lemma {:induction false} PlacedKept(rom: seq<nat>, rom': seq<nat>, bs: seq<Block>, at: nat, d: nat, c1: nat, d0: nat, d1: nat)
    requires |rom| == |rom'| == RomWords && AllPlaced(rom, bs, at, d)
    requires at + CodeSize(bs) <= c1 <= d0 <= d && d + DataSize(bs) <= d1
    requires forall i :: 0 <= i < RomWords && (i < c1 || d0 <= i < d1) ==> rom'[i] == rom[i]
    ensures AllPlaced(rom', bs, at, d)
    decreases |bs|
  {
    hide BootBlocks.Code, BootBlocks.Data;
    if bs != [] {
      var b := bs[0];
      assert rom'[at..at + CodeLen(b)] == rom[at..at + CodeLen(b)];
      assert rom'[d..d + DataLen(b)] == rom[d..d + DataLen(b)];
      PlacedKept(rom, rom', bs[1..], at + CodeLen(b), d + DataLen(b), c1, d0, d1);
    }
  }

  lemma SizesLast(bs: seq<Block>, b: Block)
    ensures CodeSize(bs + [b]) == CodeSize(bs) + CodeLen(b)
    ensures DataSize(bs + [b]) == DataSize(bs) + DataLen(b)
  {
    DataAppend(bs, [b]);
    assert [b][1..] == [];
  }

  lemma RomWordsIs()
    ensures RomWords == 1024
  {
  }

  lemma Csr64Placed(rom: seq<nat>, c: nat, d: nat, csr: nat, val: nat)
    requires |rom| == RomWords && c + 4 <= d && d + 2 <= RomWords
    requires var off := 4 * (d - c); rom[c] == AuipcWord(1, off) && rom[c + 1] == AddiWord(1, off) && rom[c + 2] == LdWord(1, 1)
    requires rom[c + 3] == CsrrwWord(1, csr) && rom[d] == val % Lo32 && rom[d + 1] == val / Lo32
    ensures Placed(rom, Csr64(csr, val), c, d) && CodeLen(Csr64(csr, val)) == 4 && DataLen(Csr64(csr, val)) == 2
  {
    hide AuipcWord, AddiWord, LdWord, CsrrwWord;
    var b := Csr64(csr, val);
    assert rom[c..c + 4] == BootBlocks.Code(b, c, d);
    assert rom[d..d + 2] == BootBlocks.Data(b);
  }

  lemma Reg64Placed(rom: seq<nat>, c: nat, d: nat, rn: nat, val: nat)
    requires |rom| == RomWords && c + 3 <= d && d + 2 <= RomWords
    requires var off := 4 * (d - c); rom[c] == AuipcWord(rn, off) && rom[c + 1] == AddiWord(rn, off) && rom[c + 2] == LdWord(rn, rn)
    requires rom[d] == val % Lo32 && rom[d + 1] == val / Lo32
    ensures Placed(rom, Reg64(rn, val), c, d) && CodeLen(Reg64(rn, val)) == 3 && DataLen(Reg64(rn, val)) == 2
  {
    hide AuipcWord, AddiWord, LdWord;
    var b := Reg64(rn, val);
    assert rom[c..c + 3] == BootBlocks.Code(b, c, d);
    assert rom[d..d + 2] == BootBlocks.Data(b);
  }

  lemma IoPlaced(rom: seq<nat>, c: nat, d: nat, addr: nat, val: nat)
    requires |rom| == RomWords && c + 7 <= d && d + 4 <= RomWords
    requires var off := 4 * (d - c); rom[c] == AuipcWord(1, off) && rom[c + 1] == AddiWord(1, off) && rom[c + 2] == LdWord(1, 1)
    requires var off2 := 4 * (d + 2 - (c + 3));
             rom[c + 3] == AuipcWord(2, off2) && rom[c + 4] == AddiWord(2, off2) && rom[c + 5] == LdWord(2, 2)
    requires rom[c + 6] == SdWord(1, 2)
    requires rom[d] == addr % Lo32 && rom[d + 1] == addr / Lo32 && rom[d + 2] == val % Lo32 && rom[d + 3] == val / Lo32
    ensures Placed(rom, Io64(addr, val), c, d) && CodeLen(Io64(addr, val)) == 7 && DataLen(Io64(addr, val)) == 4
  {
    hide AuipcWord, AddiWord, LdWord, SdWord;
    var b := Io64(addr, val);
    assert rom[c..c + 7] == BootBlocks.Code(b, c, d);
    assert rom[d..d + 4] == BootBlocks.Data(b);
  }

  class Image {
    const rom: array<nat>
    var codePos: nat
    var dataPos: nat
    // the blocks emitted so far
    ghost var blocks: seq<Block>

    ghost predicate Valid()
      reads this, rom
    {
      && rom.Length == RomWords
      && codePos == CodeSize(blocks) <= DataStart && dataPos == DataStart + DataSize(blocks) <= RomWords
      && AllPlaced(rom[..], blocks, 0, DataStart)
    }

    lemma ValidIs()
      ensures Valid() <==> (&& rom.Length == RomWords
                            && codePos == CodeSize(blocks) <= DataStart && dataPos == DataStart + DataSize(blocks) <= RomWords
                            && AllPlaced(rom[..], blocks, 0, DataStart))
      ensures forall c: nat, d: nat :: Room(c, d) <==> codePos + c <= DataStart && dataPos + d <= RomWords
      ensures DataStart == 704
    {
    }

    /** There is room for another block. */
    predicate Room(code: nat, data: nat)
      reads this
    {
      codePos + code <= DataStart && dataPos + data <= RomWords
    }

    constructor ()
      ensures Valid() && blocks == [] && codePos == 0 && dataPos == DataStart && fresh(rom)
    {
      rom := new nat[RomWords](_ => 0);
      codePos, dataPos := 0, DataStart;
      blocks := [];
    }

    method Emit(w: nat)
      requires rom.Length == RomWords && codePos < RomWords
      modifies rom, this`codePos
      ensures rom[..] == old(rom[..])[old(codePos) := w] && codePos == old(codePos) + 1
    {
      rom[codePos] := w;
      codePos := codePos + 1;
    }

    method EmitData(v: nat)
      requires rom.Length == RomWords && dataPos + 1 < RomWords
      modifies rom, this`dataPos
      ensures rom[..] == old(rom[..])[old(dataPos) := v % Lo32][old(dataPos) + 1 := v / Lo32]
      ensures dataPos == old(dataPos) + 2
    {
      rom[dataPos] := v % Lo32;
      dataPos := dataPos + 1;
      rom[dataPos] := v / Lo32;
      dataPos := dataPos + 1;
    }

    /** The words of b stand at the old positions: b has been appended. */
    ghost method Appended(b: Block, was: seq<nat>)
      requires rom.Length == RomWords == |was|
      requires CodeSize(blocks) + CodeLen(b) == codePos <= DataStart
      requires DataStart + DataSize(blocks) + DataLen(b) == dataPos <= RomWords
      requires AllPlaced(was, blocks, 0, DataStart)
      requires forall i :: 0 <= i < RomWords && (i < CodeSize(blocks) || DataStart <= i < DataStart + DataSize(blocks))
                           ==> rom[i] == was[i]
      requires Placed(rom[..], b, CodeSize(blocks), DataStart + DataSize(blocks))
      modifies this`blocks
      ensures Valid() && blocks == old(blocks) + [b]
    {
      hide Placed, AllPlaced;
      PlacedKept(was, rom[..], blocks, 0, DataStart, CodeSize(blocks), DataStart, DataStart + DataSize(blocks));
      PlacedLast(rom[..], blocks, b, 0, DataStart);
      SizesLast(blocks, b);
      blocks := blocks + [b];
    }

    /** auipc, addi, ld, and the double word they load into rn. */
    method EmitLoad(rn: nat, v: nat)
      requires rom.Length == RomWords && codePos + 3 <= dataPos && dataPos + 1 < RomWords
      modifies rom, this`codePos, this`dataPos
      ensures codePos == old(codePos) + 3 && dataPos == old(dataPos) + 2
      ensures var off := 4 * (old(dataPos) - old(codePos));
              && rom[old(codePos)] == AuipcWord(rn, off) && rom[old(codePos) + 1] == AddiWord(rn, off)
              && rom[old(codePos) + 2] == LdWord(rn, rn)
      ensures rom[old(dataPos)] == v % Lo32 && rom[old(dataPos) + 1] == v / Lo32
      ensures forall i :: 0 <= i < RomWords && !(old(codePos) <= i < old(codePos) + 3) && !(old(dataPos) <= i < old(dataPos) + 2)
                ==> rom[i] == old(rom[i])
    {
      hide *;
      RomWordsIs();
      ghost var was := rom[..];
      var off := 4 * (dataPos - codePos);
      Emit(AuipcWord(rn, off));
      Emit(AddiWord(rn, off));
      Emit(LdWord(rn, rn));
      EmitData(v);
    }

    method CreateCsr12Recovery(csr: nat, val: nat)
      requires Valid() && Room(2, 0)
      modifies this, rom
      ensures Valid() && blocks == old(blocks) + [Csr12(csr, val)]
      ensures codePos == old(codePos) + 2 && dataPos == old(dataPos)
    {
      hide AllPlaced, Word;
      ghost var was := rom[..];
      Emit(SetiWord(1, val));
      Emit(CsrrwWord(1, csr));
      Appended(Csr12(csr, val), was);
    }

    method CreateCsr64Recovery(csr: nat, val: nat)
      requires Valid() && Room(4, 2)
      modifies this, rom
      ensures Valid() && blocks == old(blocks) + [Csr64(csr, val)]
      ensures codePos == old(codePos) + 4 && dataPos == old(dataPos) + 2
    {
      hide *;
      RomWordsIs();
      ValidIs();
      ghost var was := rom[..];
      ghost var c, d := codePos, dataPos;
      EmitLoad(1, val);
      Emit(CsrrwWord(1, csr));
      Csr64Placed(rom[..], c, d, csr, val);
      Appended(Csr64(csr, val), was);
    }

    method CreateRegRecovery(rn: nat, val: nat)
      requires Valid() && Room(3, 2) && rn < 32
      modifies this, rom
      ensures Valid() && blocks == old(blocks) + [Reg64(rn, val)]
      ensures codePos == old(codePos) + 3 && dataPos == old(dataPos) + 2
    {
      hide *;
      RomWordsIs();
      ValidIs();
      ghost var was := rom[..];
      ghost var c, d := codePos, dataPos;
      EmitLoad(rn, val);
      Reg64Placed(rom[..], c, d, rn, val);
      Appended(Reg64(rn, val), was);
    }

    method CreateFpRecovery(rn: nat, low: nat, high: nat)
      requires Valid() && Room(3, 2) && rn < 32 && low < Lo32 && high < Lo32
      modifies this, rom
      ensures Valid() && blocks == old(blocks) + [FpReg(rn, low, high)]
      ensures codePos == old(codePos) + 3 && dataPos == old(dataPos) + 2
    {
      hide AllPlaced, Word, AuipcWord, AddiWord, LdWord, CodeSize, DataSize;
      ghost var was := rom[..];
      var off := 4 * (dataPos - codePos);
      Emit(AuipcWord(1, off));
      Emit(AddiWord(1, off));
      Emit(FldWord(rn, 1));
      EmitPair(low, high);
      Appended(FpReg(rn, low, high), was);
    }

    method EmitPair(low: nat, high: nat)
      requires rom.Length == RomWords && dataPos + 1 < RomWords
      modifies rom, this`dataPos
      ensures rom[..] == old(rom[..])[old(dataPos) := low][old(dataPos) + 1 := high]
      ensures dataPos == old(dataPos) + 2
    {
      rom[dataPos] := low;
      dataPos := dataPos + 1;
      rom[dataPos] := high;
      dataPos := dataPos + 1;
    }

    method CreateIo64Recovery(addr: nat, val: nat)
      requires Valid() && Room(7, 4)
      modifies this, rom
      ensures Valid() && blocks == old(blocks) + [Io64(addr, val)]
      ensures codePos == old(codePos) + 7 && dataPos == old(dataPos) + 4
    {
      hide *;
      RomWordsIs();
      ValidIs();
      ghost var was := rom[..];
      ghost var c, d := codePos, dataPos;
      EmitLoad(1, addr);
      EmitLoad(2, val);
      Emit(SdWord(1, 2));
      IoPlaced(rom[..], c, d, addr, val);
      Appended(Io64(addr, val), was);
    }

    method CreateHangNonzeroHart()
      requires Valid() && Room(4, 0)
      modifies this, rom
      ensures Valid() && blocks == old(blocks) + [HangOthers]
      ensures codePos == old(codePos) + 4 && dataPos == old(dataPos)
    {
      hide AllPlaced, CodeSize, DataSize;
      ghost var was := rom[..];
      Emit(ReadHartIdWord);
      Emit(BranchIfZeroWord);
      Emit(0x10500073);
      Emit(0xffdff06f);
      Appended(HangOthers, was);
    }

    // ---- The parts of create_boot_rom ----

    method EmitFloat(s: Saved)
      requires Valid() && Room(102, 64) && Sane(s)
      modifies this, rom
      ensures Valid() && blocks == old(blocks) + Float(s)
      ensures codePos <= old(codePos) + 102 && dataPos <= old(dataPos) + 64
    {
      hide AllPlaced, CodeSize, DataSize, AnyLock;
      if s.fs != 0 {
        CreateCsr12Recovery(0x001, s.csr(0x001));
        CreateCsr12Recovery(0x002, s.csr(0x002));
        CreateCsr12Recovery(0x003, s.csr(0x003));
        ghost var before, c, d := blocks, codePos, dataPos;
        var i := 0;
        while i < 32
          invariant i <= 32 && Valid() && blocks == before + Fps(s)[..i]
          invariant codePos == c + 3 * i && dataPos == d + 2 * i
        {
          HalfFits(s.reg[i]);
          CreateFpRecovery(i, s.fp[i] % Lo32, s.reg[i] / Lo32);
          assert Fps(s)[..i + 1] == Fps(s)[..i] + [FpReg(i, s.fp[i] % Lo32, s.reg[i] / Lo32)];
          i := i + 1;
        }
        assert Fps(s)[..32] == Fps(s);
      }
    }

    method EmitCounters(s: Saved)
      requires Valid() && Room(174, 58)
      modifies this, rom
      ensures Valid() && blocks == old(blocks) + Counters(s)
      ensures codePos == old(codePos) + 174 && dataPos == old(dataPos) + 58
    {
      hide AllPlaced, CodeSize, DataSize;
      ghost var before, c, d := blocks, codePos, dataPos;
      var i := 3;
      while i < 32
        invariant 3 <= i <= 32 && Valid() && blocks == before + Counters(s)[..2 * (i - 3)]
        invariant codePos == c + 6 * (i - 3) && dataPos == d + 2 * (i - 3)
      {
        CreateCsr12Recovery(0xb00 + i, 0);
        CreateCsr64Recovery(0x320 + i, s.csr(0x320 + i));
        assert Counters(s)[..2 * (i - 2)] == Counters(s)[..2 * (i - 3)] + [Csr12(0xb00 + i, 0), Csr64(0x320 + i, s.csr(0x320 + i))];
        i := i + 1;
      }
      assert Counters(s)[..58] == Counters(s);
    }

    method EmitSetup(s: Saved)
      requires Valid() && Room(30, 12)
      modifies this, rom
      ensures Valid() && blocks == old(blocks) + Setup(s)
      ensures codePos == old(codePos) + 30 && dataPos == old(dataPos) + 12
    {
      hide AllPlaced, CodeSize, DataSize;
      CreateCsr64Recovery(0x7a0, s.csr(0x7a0));
      CreateCsr64Recovery(0x302, s.csr(0x302));
      CreateCsr64Recovery(0x303, s.csr(0x303));
      CreateCsr64Recovery(0x304, s.csr(0x304));
      CreateCsr64Recovery(0x305, s.csr(0x305));
      CreateCsr64Recovery(0x105, s.csr(0x105));
      CreateCsr12Recovery(0x320, s.csr(0x320));
      CreateCsr12Recovery(0x306, s.csr(0x306));
      CreateCsr12Recovery(0x106, s.csr(0x106));
    }

    method EmitPmp(s: Saved)
      requires Valid() && Room(72, 36)
      modifies this, rom
      ensures Valid() && blocks == old(blocks) + PmpAddrs(s) + PmpCfgs(s)
      ensures codePos == old(codePos) + 72 && dataPos == old(dataPos) + 36
    {
      hide AllPlaced, CodeSize, DataSize;
      ghost var before, c, d := blocks, codePos, dataPos;
      var i := 0;
      while i < 16
        invariant i <= 16 && Valid() && blocks == before + PmpAddrs(s)[..i]
        invariant codePos == c + 4 * i && dataPos == d + 2 * i
      {
        CreateCsr64Recovery(0x3b0 + i, s.csr(0x3b0 + i));
        assert PmpAddrs(s)[..i + 1] == PmpAddrs(s)[..i] + [Csr64(0x3b0 + i, s.csr(0x3b0 + i))];
        i := i + 1;
      }
      assert PmpAddrs(s)[..16] == PmpAddrs(s);
      i := 0;
      while i < 4
        invariant i in {0, 2, 4} && Valid() && blocks == before + PmpAddrs(s) + PmpCfgs(s)[..i / 2]
        invariant codePos == c + 64 + 2 * i && dataPos == d + 32 + i
      {
        CreateCsr64Recovery(0x3a0 + i, s.csr(0x3a0 + i));
        i := i + 2;
      }
    }

    method EmitTraps(s: Saved)
      requires Valid() && Room(36, 18)
      modifies this, rom
      ensures Valid() && blocks == old(blocks) + Traps(s)
      ensures codePos == old(codePos) + 36 && dataPos == old(dataPos) + 18
    {
      hide AllPlaced, CodeSize, DataSize;
      CreateCsr64Recovery(0x340, s.csr(0x340));
      CreateCsr64Recovery(0x341, s.csr(0x341));
      CreateCsr64Recovery(0x342, s.csr(0x342));
      CreateCsr64Recovery(0x343, s.csr(0x343));
      CreateCsr64Recovery(0x140, s.csr(0x140));
      CreateCsr64Recovery(0x141, s.csr(0x141));
      CreateCsr64Recovery(0x142, s.csr(0x142));
      CreateCsr64Recovery(0x143, s.csr(0x143));
      CreateCsr64Recovery(0x344, s.csr(0x344));
    }

    method EmitRegs(s: Saved, lo: nat, hi: nat)
      requires Valid() && lo <= hi <= 32 == |s.reg| && Room(3 * (hi - lo), 2 * (hi - lo))
      modifies this, rom
      ensures Valid() && blocks == old(blocks) + Regs(s, lo, hi)
      ensures codePos == old(codePos) + 3 * (hi - lo) && dataPos == old(dataPos) + 2 * (hi - lo)
    {
      hide AllPlaced, CodeSize, DataSize;
      ghost var before, c, d := blocks, codePos, dataPos;
      var i := lo;
      while i < hi
        invariant lo <= i <= hi && Valid() && blocks == before + Regs(s, lo, hi)[..i - lo]
        invariant codePos == c + 3 * (i - lo) && dataPos == d + 2 * (i - lo)
      {
        CreateRegRecovery(i, s.reg[i]);
        assert Regs(s, lo, hi)[..i - lo + 1] == Regs(s, lo, hi)[..i - lo] + [Reg64(i, s.reg[i])];
        i := i + 1;
      }
      assert Regs(s, lo, hi)[..hi - lo] == Regs(s, lo, hi);
    }

    method EmitClint(s: Saved)
      requires Valid() && Room(22, 12)
      modifies this, rom
      ensures Valid() && blocks == old(blocks) + Clint(s)
      ensures codePos == old(codePos) + 22 && dataPos == old(dataPos) + 12
    {
      hide AllPlaced, CodeSize, DataSize;
      CreateIo64Recovery(s.clint + 0x4000, s.timecmp);
      CreateCsr64Recovery(0xb02, s.csr(0xb02));
      CreateCsr64Recovery(0xb00, s.csr(0xb00));
      CreateIo64Recovery(s.clint + 0xbff8, s.rtc);
    }

    method EmitWord(w: nat, ghost b: Block)
      requires Valid() && Room(1, 0) && CodeLen(b) == 1 && DataLen(b) == 0 && BootBlocks.Code(b, codePos, dataPos) == [w]
      requires codePos <= dataPos
      modifies this, rom
      ensures Valid() && blocks == old(blocks) + [b]
      ensures codePos == old(codePos) + 1 && dataPos == old(dataPos)
    {
      hide AllPlaced, CodeSize, DataSize, BootBlocks.Code, BootBlocks.Data, CodeLen, DataLen;
      ghost var was, c, d := rom[..], codePos, dataPos;
      Emit(w);
      assert rom[c..c + 1] == [w];
      assert rom[d..d] == BootBlocks.Data(b);
      Appended(b, was);
    }

    method EmitLast(s: Saved)
      requires Valid() && Room(6, 2)
      modifies this, rom
      ensures Valid() && blocks == old(blocks) + Last(s)
      ensures codePos == old(codePos) + 6 && dataPos == old(dataPos) + 2
    {
      hide AllPlaced, CodeSize, DataSize;
      EmitWord(CsrrwWord(1, 0x7b2), SaveX1);
      CreateCsr64Recovery(0x180, s.csr(0x180));
      EmitWord(CsrrsWord(1, 0x7b2), RestoreX1);
    }

    method EmitDebug(s: Saved)
      requires Valid() && blocks == [] && codePos == 0 && dataPos == DataStart
      modifies this, rom
      ensures Valid() && blocks == Debug(s) && codePos <= 10 && dataPos == DataStart + 2
    {
      hide AllPlaced, CodeSize, DataSize;
      if s.single {
        CreateHangNonzeroHart();
      }
      CreateCsr64Recovery(0x7b1, s.pc);
      CreateCsr12Recovery(0x7b0, 0x600 + s.priv);
    }

    method EmitMiddle(s: Saved)
      requires Valid() && Room(527, 260) && Sane(s)
      modifies this, rom
      ensures Valid() && blocks == old(blocks) + Middle(s)
      ensures codePos <= old(codePos) + 527 && dataPos <= old(dataPos) + 260
    {
      hide AllPlaced, CodeSize, DataSize, AnyLock, Float, Counters, Setup, PmpAddrs, PmpCfgs, Traps, Regs, Clint, Middle;
      SaneShape(s);
      CreateCsr64Recovery(0x301, s.csr(0x301));
      EmitFloat(s);
      EmitCounters(s);
      EmitSetup(s);
      EmitPmp(s);
      EmitTraps(s);
      EmitRegs(s, 3, 32);
      EmitClint(s);
      MiddleIs(s, old(blocks));
    }
  }

  lemma HalfFits(v: nat)
    requires v < WordLimit
    ensures v / Lo32 < Lo32
  {
  }

  lemma SaneShape(s: Saved)
    requires Sane(s)
    ensures |s.reg| == |s.fp| == 32
  {
  }

  lemma MiddleIs(s: Saved, bs: seq<Block>)
    requires |s.reg| == |s.fp| == 32
    ensures bs + [Csr64(0x301, s.csr(0x301))] + Float(s) + Counters(s) + Setup(s) + PmpAddrs(s) + PmpCfgs(s) + Traps(s)
            + Regs(s, 3, 32) + Clint(s) == bs + Middle(s)
  {
    hide Float, Counters, Setup, PmpAddrs, PmpCfgs, Traps, Regs, Clint;
  }

  /** The image for a checkpoint, and whether it passed the size check: it always does. */
  method CreateBootRom(s: Saved) returns (rom: array<nat>, fits: bool)
    requires Sane(s)
    ensures fits && Built(rom[..], s)
  {
    hide AllPlaced, CodeSize, DataSize, AnyLock, Debug, Middle, Regs, Last;
    var image := new Image();
    image.EmitDebug(s);
    image.CreateCsr64Recovery(0x300, s.csr(0x300));
    image.EmitMiddle(s);
    image.EmitRegs(s, 1, 3);
    image.EmitLast(s);
    assert image.blocks == Program(s);
    ghost var was := image.rom[..];
    image.Emit(DretWord);
    fits := !(RomWords <= image.dataPos || DataStart <= image.codePos);
    rom := image.rom;
    PlacedKept(was, rom[..], Program(s), 0, DataStart, image.codePos - 1, DataStart, image.dataPos);
  }
}
