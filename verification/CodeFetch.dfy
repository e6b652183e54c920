/**
 * Fetching an instruction of up to 32 bits. Within a page a code-TLB hit and a miss give the
 * same; in the last halfword of a page a miss insists on the next page and a hit does not.
 */
module CodeFetch {
  import opened Powers
  import opened PageWalk
  import opened SoftTlb
  import opened Wrappers
  import opened ByteOrder
  import opened MemoryLaws

  const Half: nat := 0x1_0000

  /** Addresses wrap at 64 bits. */
  function NextHalf(va: nat): nat { (va + 2) % WordLimit }

  predicate LastHalf(va: nat) { va % PageSize >= PageSize - 2 }

  /** The reply of a miss: four bytes are asked for, and the next page too if they reach into it. */
  function InsnReply(c: Config, mem: seq<nat>, va: nat): Reply {
    match Resolve(c, mem, va, 4, Code)
    case PageFaulted => Raised(PageFaultCause, va)
    case Host(ptr, _) => if LastHalf(va) then CrossReply(c, mem, va, ptr) else Value(Bytes(mem, Index(ptr), 4))
    case _ => Raised(AccessFaultCause, va)
  }

  function CrossReply(c: Config, mem: seq<nat>, va: nat, ptr: int): Reply {
    match Resolve(c, mem, NextHalf(va), 2, Code)
    case PageFaulted => Raised(PageFaultCause, va)
    case Host(next, _) => Value(Bytes(mem, Index(ptr), 2) + Half * Bytes(mem, Index(next), 2))
    case _ => Raised(AccessFaultCause, va)
  }

  /** The reply of a hit, whose first byte is at ptr: the next page only matters to a long instruction. */
  function HitReply(c: Config, mem: seq<nat>, va: nat, ptr: nat): Reply {
    if !LastHalf(va) then Value(Bytes(mem, ptr, 4))
    else if Bytes(mem, ptr, 2) % 4 != 3 then Value(Bytes(mem, ptr, 2))
    else
      match FetchReply(c, mem, NextHalf(va))
      case Value(high) => Value(Bytes(mem, ptr, 2) + Half * high)
      case r => r
  }

  /** What a miss leaves behind: the first page's entry if all of that page may be executed. */
  function MissLearns(c: Config, mem: seq<nat>, tlb: seq<Entry>, va: nat): seq<Entry>
    requires |tlb| == TlbSize
  {
    match Resolve(c, mem, va, 4, Code)
    case Host(ptr, paddr) =>
      if PmpOk(c, Index(paddr - paddr % PageSize), PageSize, Code)
      then tlb[Slot(va) := Entry(va - va % PageSize, ptr - va, paddr - va)] else tlb
    case _ => tlb
  }

  /** The translation a miss puts to use. */
  ghost function MissHolds(c: Config, mem: seq<nat>, va: nat): iset<Use> {
    match Resolve(c, mem, va, 4, Code)
    case Host(ptr, paddr) =>
      if PmpOk(c, Index(paddr - paddr % PageSize), PageSize, Code)
      then iset{Use(Code, Entry(va - va % PageSize, ptr - va, paddr - va))} else iset{}
    case _ => iset{}
  }

  /** The translation a hit puts to use, behind the one it took. */
  ghost function HitHolds(c: Config, mem: seq<nat>, va: nat, ptr: nat): iset<Use> {
    if LastHalf(va) && Bytes(mem, ptr, 2) % 4 == 3 then Fresh(c, mem, NextHalf(va), 2, Code) else iset{}
  }

  /** The translations the fetch may take from the TLB are still right. */
  ghost predicate FetchRight(c: Config, mem: seq<nat>, held: iset<Use>, va: nat) {
    StillRight(c, mem, held, va, Code) && (LastHalf(va) ==> StillRight(c, mem, held, NextHalf(va), Code))
  }

  /** What a hit learns: the next page's entry, if a long instruction reaches into it. */
  function HitLearns(c: Config, mem: seq<nat>, tlb: seq<Entry>, va: nat, ptr: nat): seq<Entry>
    requires |tlb| == TlbSize
  {
    if LastHalf(va) && Bytes(mem, ptr, 2) % 4 == 3 then Learned(c, mem, tlb, NextHalf(va), 2, Code) else tlb
  }

  lemma FitsInPage(va: nat)
    requires va % 2 == 0
    ensures InPage(va, 2) && (LastHalf(va) || InPage(va, 4))
  {
  }

  /** A page that may be executed throughout may be executed here. */
  lemma FirstHalfToo(c: Config, mem: seq<nat>, va: nat, ptr: int, paddr: int)
    requires Granular(c) && va % 2 == 0 && Resolve(c, mem, va, 4, Code) == Host(ptr, paddr)
    requires paddr >= 0 && PmpOk(c, paddr - paddr % PageSize, PageSize, Code)
    ensures Resolve(c, mem, va, 2, Code) == Host(ptr, paddr)
  {
    hide Walk, PmpOk, Lookup, Granular, Bytes;
    WalkOffset(c, mem, va, Code);
    var base: nat := paddr - paddr % PageSize;
    PageBase(va, paddr, base);
    PmpOkUniform(c, base, PageSize, paddr, 2, Code);
  }

  lemma PageBase(va: nat, p: nat, base: nat)
    requires va % 2 == 0 && p % PageSize == va % PageSize && base == p - p % PageSize
    ensures SamePage(base, p) && InPage(base, PageSize) && InPage(p, 2)
  {
  }

  lemma HostPhysical(c: Config, mem: seq<nat>, va: nat, n: nat)
    ensures Resolve(c, mem, va, n, Code).Host? ==> Resolve(c, mem, va, n, Code).paddr >= 0
  {
    hide Walk, PmpOk, Lookup, Bytes;
  }

  /** target_read_insn_slow for 32 bits. */
  method ReadInsnSlow(t: Hart, va: nat) returns (r: Reply)
    requires t.Valid() && va % 2 == 0
    modifies t.tlbCode, t`held
    ensures t.Valid() && r == InsnReply(t.Config(), t.mem[..], va)
    ensures t.held == old(t.held) + MissHolds(t.Config(), t.mem[..], va)
    ensures t.tlbCode[..] == MissLearns(t.Config(), t.mem[..], old(t.tlbCode[..]), va)
  {
    hide Resolve, Agrees, StillRight, AllHeld, AllPlaced, Granular, Backed, InPage, SamePage, Bytes, PmpOk;
    ghost var c, m, tlb := t.Config(), t.mem[..], t.tlbCode[..];
    var idx := Slot(va);
    FitsInPage(va);
    HostPhysical(c, m, va, 4);
    t.Hold(MissHolds(c, m, va));
    match Resolve(t.Config(), t.mem[..], va, 4, Code) {
      case PageFaulted => r := Raised(PageFaultCause, va);
      case AccessFaulted => r := Raised(AccessFaultCause, va);
      case Nowhere(_) => r := Raised(AccessFaultCause, va);
      case Device(_) => r := Raised(AccessFaultCause, va);
      case Host(ptr, paddr) =>
        if PmpOk(t.Config(), Index(paddr - paddr % PageSize), PageSize, Code) {
          var e := Entry(va - va % PageSize, ptr - va, paddr - va);
          IndexIs(paddr);
          FirstHalfToo(c, m, va, ptr, paddr);
          NewEntry(c, m, va, 2, Code, ptr, paddr, t.mem.Length, e);
          InstalledPlaced(tlb, t.mem.Length, idx, e);
          InstalledHeld(tlb, Code, t.held, idx, e);
          assert t.held + iset{Use(Code, e)} == t.held;
          t.tlbCode[idx] := e;
          assert t.tlbCode[..] == tlb[idx := e];
        }
        if !LastHalf(va) {
          return Value(Bytes(t.mem[..], Index(ptr), 4));
        }
        match Resolve(t.Config(), t.mem[..], NextHalf(va), 2, Code) {
          case PageFaulted => r := Raised(PageFaultCause, va);
          case AccessFaulted => r := Raised(AccessFaultCause, va);
          case Nowhere(_) => r := Raised(AccessFaultCause, va);
          case Device(_) => r := Raised(AccessFaultCause, va);
          case Host(next, _) =>
            r := Value(Bytes(t.mem[..], Index(ptr), 2) + Half * Bytes(t.mem[..], Index(next), 2));
        }
    }
  }

  lemma IndexIs(paddr: int)
    requires paddr >= 0
    ensures Index(paddr - paddr % PageSize) == paddr - paddr % PageSize >= 0
  {
  }

  /** The fetch of the interpreter loop at a new pc. */
  method FetchInsn(t: Hart, va: nat) returns (r: Reply)
    requires t.Valid() && va % 2 == 0
    modifies t.tlbCode, t`held
    ensures t.Valid()
    ensures var was := old(t.tlbCode[..]);
            t.held == old(t.held) + if Hits(was, va)
                                    then HitHolds(t.Config(), t.mem[..], va, Index(was[Slot(va)].memAddend + va))
                                    else MissHolds(t.Config(), t.mem[..], va)
    ensures var was := old(t.tlbCode[..]);
            t.tlbCode[..] == if Hits(was, va)
                             then HitLearns(t.Config(), t.mem[..], was, va, Index(was[Slot(va)].memAddend + va))
                             else MissLearns(t.Config(), t.mem[..], was, va)
    ensures !Hits(old(t.tlbCode[..]), va) ==> r == InsnReply(t.Config(), t.mem[..], va)
    ensures var was := old(t.tlbCode[..]);
            FetchRight(t.Config(), t.mem[..], old(t.held), va) && Hits(was, va) ==>
              && Resolve(t.Config(), t.mem[..], va, 2, Code) == Host(was[Slot(va)].memAddend + va, was[Slot(va)].paddrAddend + va)
              && r == HitReply(t.Config(), t.mem[..], va, Index(was[Slot(va)].memAddend + va))
  {
    hide Resolve, Agrees, StillRight, AllHeld, AllPlaced, Granular, Backed, InPage, SamePage, Bytes, PmpOk;
    var idx := Slot(va);
    FitsInPage(va);
    ghost var c, m, tlb := t.Config(), t.mem[..], t.tlbCode[..];
    if t.tlbCode[idx].vaddr == va - va % PageSize {
      Hit(c, m, tlb, Code, t.held, t.mem.Length, idx, va, 2);
      var ptr := t.tlbCode[idx].memAddend + va;
      if !LastHalf(va) {
        return Value(Bytes(t.mem[..], ptr, 4));
      }
      var low := Bytes(t.mem[..], ptr, 2);
      if low % 4 != 3 {
        return Value(low);
      }
      EvenNext(va);
      var high := t.TargetReadInsn(NextHalf(va));
      return if high.Value? then Value(low + Half * high.v) else high;
    }
    r := ReadInsnSlow(t, va);
  }

  lemma EvenNext(va: nat)
    requires va % 2 == 0
    ensures NextHalf(va) % 2 == 0
  {
  }

  // ---- When the TLB can be seen ----

  /** The same instruction or the same trap; the upper half of a compressed one means nothing. */
  predicate SameInsn(a: Reply, b: Reply) {
    if a.Value? && b.Value? then a.v % Half == b.v % Half && (a.v % 4 == 3 ==> a.v == b.v) else a == b
  }

  /**
   * Hit and miss fetch the same if and only if the instruction does not start in the last
   * halfword of a page, or the four bytes there are executable and the next page is RAM to
   * execute as well, even for an instruction that does not reach it.
   */
  lemma HitIsMiss(c: Config, mem: seq<nat>, va: nat, ptr: nat, paddr: nat)
    requires Granular(c) && va % 2 == 0 && va < WordLimit && Resolve(c, mem, va, 2, Code) == Host(ptr, paddr)
    ensures SameInsn(HitReply(c, mem, va, ptr), InsnReply(c, mem, va)) <==>
              !LastHalf(va) || (PmpOk(c, paddr, 4, Code) && Resolve(c, mem, NextHalf(va), 2, Code).Host?)
  {
    hide Granular, Bytes, InPage, SamePage;
    FitsInPage(va);
    if LastHalf(va) {
      WiderResolve(c, mem, va, ptr, paddr);
      LastHalfSame(c, mem, va, ptr);
    } else {
      SamePageItself(va);
      ResolveUniform(c, mem, va, 2, va, 4, Code);
    }
  }

  lemma SamePageItself(va: nat)
    ensures SamePage(va, va)
  {
  }

  /** Only protection depends on the size. */
  lemma WiderResolve(c: Config, mem: seq<nat>, va: nat, ptr: nat, paddr: nat)
    requires Resolve(c, mem, va, 2, Code) == Host(ptr, paddr)
    ensures Resolve(c, mem, va, 4, Code) == if PmpOk(c, paddr, 4, Code) then Host(ptr, paddr) else AccessFaulted
  {
    hide Walk, PmpOk, Lookup, Bytes;
  }

  lemma LastHalfSame(c: Config, mem: seq<nat>, va: nat, ptr: nat)
    requires LastHalf(va) && va < WordLimit
    requires Resolve(c, mem, va, 4, Code).Host? ==> Resolve(c, mem, va, 4, Code).ptr == ptr
    requires Resolve(c, mem, va, 4, Code).Host? || Resolve(c, mem, va, 4, Code) == AccessFaulted
    ensures SameInsn(HitReply(c, mem, va, ptr), InsnReply(c, mem, va)) <==>
              Resolve(c, mem, va, 4, Code).Host? && Resolve(c, mem, NextHalf(va), 2, Code).Host?
  {
    hide Resolve, Bytes, LastHalf;
    NextDiffers(va);
    var next := Resolve(c, mem, NextHalf(va), 2, Code);
    if next.Host? {
      UpperHalf(Bytes(mem, ptr, 2), Bytes(mem, Index(next.ptr), 2));
    }
  }

  lemma NextDiffers(va: nat)
    requires va < WordLimit
    ensures NextHalf(va) != va
  {
  }

  lemma UpperHalf(low: nat, high: nat)
    ensures (low + Half * high) % Half == low % Half && (low + Half * high) % 4 == low % 4
  {
    AddTimes(low, high, Half);
    assert Half * high == 4 * (0x4000 * high);
    AddTimes(low, 0x4000 * high, 4);
  }

  lemma AddTimes(low: nat, k: nat, d: nat)
    requires d > 0
    ensures (low + d * k) % d == low % d
  {
    DivModUnique(low + d * k, d, low / d + k, low % d);
  }

  /** An instruction aligned to its four bytes never starts in a last halfword. */
  lemma AlignedInsn(c: Config, mem: seq<nat>, va: nat, ptr: nat, paddr: nat)
    requires Granular(c) && va % 4 == 0 && va < WordLimit && Resolve(c, mem, va, 2, Code) == Host(ptr, paddr)
    ensures SameInsn(HitReply(c, mem, va, ptr), InsnReply(c, mem, va))
  {
    hide Granular, Resolve, Bytes, HitReply, InsnReply, SameInsn;
    AlignedNotLast(va);
    HitIsMiss(c, mem, va, ptr, paddr);
  }

  lemma AlignedNotLast(va: nat)
    requires va % 4 == 0
    ensures va % 2 == 0 && !LastHalf(va)
  {
  }

  /** A compressed instruction in the last halfword of RAM: a hit runs it, a miss traps. */
  lemma EndOfRam(c: Config, mem: seq<nat>)
    requires c.ranges == [Range(0, PageSize, true, 0)] && c.priv == PrvM && c.mode == 0 && c.pmp == [] && c.pal == 12
    requires |mem| == PageSize && mem[PageSize - 2] == 1 && mem[PageSize - 1] == 0
    ensures Resolve(c, mem, PageSize - 2, 2, Code) == Host(PageSize - 2, PageSize - 2)
    ensures HitReply(c, mem, PageSize - 2, PageSize - 2) == Value(1)
    ensures InsnReply(c, mem, PageSize - 2) == Raised(AccessFaultCause, PageSize - 2)
  {
    hide Pow2, Lookup;
    var va := PageSize - 2;
    Twelve();
    OneRange(c.ranges);
    assert Bytes(mem, va + 2, 0) == 0 && Bytes(mem, va + 1, 1) == 0 && Bytes(mem, va, 2) == 1;
  }

  lemma Twelve()
    ensures Pow2(12) == 4096
  {
    TwelveSplit(0);
    assert Pow2(0) == 1;
  }

  lemma OneRange(rs: seq<Range>)
    requires rs == [Range(0, PageSize, true, 0)]
    ensures Lookup(rs, PageSize - 2) == Some(rs[0]) && Lookup(rs, PageSize) == None
  {
    assert rs[..0] == [];
  }

  // ---- The bytes of an instruction ----

  /**
   * What a miss delivers: the four bytes at the address, the upper two from the page behind,
   * at the next address modulo 2^64, if only two are left of the page; lowest byte first.
   */
  lemma InsnBytes(c: Config, mem: seq<nat>, va: nat, ptr: nat, paddr: int)
    requires va % 2 == 0 && Resolve(c, mem, va, 4, Code) == Host(ptr, paddr) && AreBytes(mem) && ptr + 2 <= |mem|
    ensures va % 4096 <= 4092 && ptr + 4 <= |mem| ==>
      InsnReply(c, mem, va).Value? && HasBytes(InsnReply(c, mem, va).v, mem[ptr..ptr + 4])
    ensures var next := Resolve(c, mem, (va + 2) % 0x1_0000_0000_0000_0000, 2, Code);
      va % 4096 > 4092 && next.Host? && 0 <= next.ptr && next.ptr + 2 <= |mem| ==>
        && InsnReply(c, mem, va).Value?
        && HasBytes(InsnReply(c, mem, va).v, mem[ptr..ptr + 2] + mem[next.ptr..next.ptr + 2])
  {
    hide *;
    NextIs(va);
    var next := Resolve(c, mem, NextHalf(va), 2, Code);
    InsnReplyIs(c, mem, va, ptr, paddr);
    if va % 4096 <= 4092 {
      if ptr + 4 <= |mem| {
        LoadedBytes(mem, ptr, 4);
      }
    } else if next.Host? && 0 <= next.ptr && next.ptr + 2 <= |mem| {
      HalvesJoin(mem, ptr, next.ptr);
    }
  }

  lemma NextIs(va: nat)
    ensures NextHalf(va) == (va + 2) % 0x1_0000_0000_0000_0000
  {
  }

  lemma InsnReplyIs(c: Config, mem: seq<nat>, va: nat, ptr: nat, paddr: int)
    requires va % 2 == 0 && Resolve(c, mem, va, 4, Code) == Host(ptr, paddr)
    ensures va % 4096 <= 4092 ==> InsnReply(c, mem, va) == Value(Bytes(mem, ptr, 4))
    ensures var next := Resolve(c, mem, NextHalf(va), 2, Code);
      va % 4096 > 4092 && next.Host? && 0 <= next.ptr ==>
        InsnReply(c, mem, va) == Value(Bytes(mem, ptr, 2) + Half * Bytes(mem, next.ptr, 2))
  {
    hide Resolve, Bytes, NextHalf;
  }

  lemma HalvesJoin(mem: seq<nat>, at: nat, next: nat)
    requires at + 2 <= |mem| && next + 2 <= |mem| && AreBytes(mem)
    ensures HasBytes(Bytes(mem, at, 2) + Half * Bytes(mem, next, 2), mem[at..at + 2] + mem[next..next + 2])
  {
    hide Bytes, HasBytes, Pow2;
    LoadedBytes(mem, next, 2);
    TwoBytes(mem, at);
    var high := Bytes(mem, next, 2);
    Prepend(mem[at + 1], high, mem[next..next + 2]);
    Prepend(mem[at], mem[at + 1] + 256 * high, [mem[at + 1]] + mem[next..next + 2]);
    assert [mem[at]] + ([mem[at + 1]] + mem[next..next + 2]) == mem[at..at + 2] + mem[next..next + 2];
  }

  lemma TwoBytes(mem: seq<nat>, at: nat)
    requires at + 2 <= |mem|
    ensures Bytes(mem, at, 2) == mem[at] + 256 * mem[at + 1]
  {
    assert Bytes(mem, at + 2, 0) == 0;
    assert Bytes(mem, at + 1, 1) == mem[at + 1];
  }
}
