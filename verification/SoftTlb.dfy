/**
 * The software TLBs of a hart. A load, store or fetch may take its answer from a TLB entry;
 * that answer is the one a fresh walk gives as long as the translations used for its page since
 * the last flush are still right. Which changes leave them right is said exactly.
 */
module SoftTlb {
  import opened Powers
  import opened PageWalk

  const TlbSize: nat := 256

  /** vaddr is the page, or -1; the addends lead from an address to its host byte and physical address. */
  datatype Entry = Entry(vaddr: int, memAddend: int, paddrAddend: int)

  const NoEntry := Entry(-1, 0, 0)

  datatype Cause = Misaligned | PageFaultCause | AccessFaultCause

  datatype Reply =
    | Value(v: nat)
    | Stored
    | Raised(cause: Cause, tval: nat)
    | AtDevice(paddr: int)
    | AtNowhere(paddr: int)

  // ---- The answers without a TLB ----

  function LoadReply(c: Config, mem: seq<nat>, va: nat, size: nat): Reply
    requires size > 0
  {
    if va % size != 0 then Raised(Misaligned, va)
    else
      match Resolve(c, mem, va, size, Read)
      case PageFaulted => Raised(PageFaultCause, va)
      case AccessFaulted => Raised(AccessFaultCause, va)
      case Nowhere(p) => AtNowhere(p)
      case Device(p) => AtDevice(p)
      case Host(ptr, _) => Value(Bytes(mem, Index(ptr), size))
  }

  function StoreReply(c: Config, mem: seq<nat>, va: nat, size: nat, val: nat): (r: (seq<nat>, Reply))
    requires size > 0
  {
    if va % size != 0 then (mem, Raised(Misaligned, va))
    else
      match Resolve(c, mem, va, size, Write)
      case PageFaulted => (mem, Raised(PageFaultCause, va))
      case AccessFaulted => (mem, Raised(AccessFaultCause, va))
      case Nowhere(p) => (mem, AtNowhere(p))
      case Device(p) => (mem, AtDevice(p))
      case Host(ptr, _) => (Put(mem, Index(ptr), size, val), Stored)
  }

  function FetchReply(c: Config, mem: seq<nat>, va: nat): Reply {
    match Resolve(c, mem, va, 2, Code)
    case PageFaulted => Raised(PageFaultCause, va)
    case Host(ptr, _) => Value(Bytes(mem, Index(ptr), 2))
    case _ => Raised(AccessFaultCause, va) // only RAM holds code
  }

  function Index(i: int): nat { if i < 0 then 0 else i }

  // ---- What a TLB answers and learns ----

  function Slot(va: nat): (i: nat)
    ensures i < TlbSize
  {
    va / PageSize % TlbSize
  }

  predicate Hits(tlb: seq<Entry>, va: nat)
    requires |tlb| == TlbSize
  {
    tlb[Slot(va)].vaddr == va - va % PageSize
  }

  /** The TLB after an access: a miss that reaches RAM leaves its page's entry behind. */
  function Learned(c: Config, mem: seq<nat>, tlb: seq<Entry>, va: nat, n: nat, a: Access): seq<Entry>
    requires |tlb| == TlbSize
  {
    if Hits(tlb, va) then tlb
    else
      match Resolve(c, mem, va, n, a)
      case Host(ptr, paddr) =>
        if a == Code && !PmpOk(c, Index(paddr - paddr % PageSize), PageSize, Code) then tlb
        else tlb[Slot(va) := Entry(va - va % PageSize, ptr - va, paddr - va)]
      case _ => tlb
  }

  /** A translation in use for one kind of access since the last flush. */
  datatype Use = Use(a: Access, e: Entry)

  /** The translation an access that reaches RAM puts to use. */
  ghost function Fresh(c: Config, mem: seq<nat>, va: nat, n: nat, a: Access): iset<Use> {
    match Resolve(c, mem, va, n, a)
    case Host(ptr, paddr) =>
      if a == Code && !PmpOk(c, Index(paddr - paddr % PageSize), PageSize, Code) then iset{}
      else iset{Use(a, Entry(va - va % PageSize, ptr - va, paddr - va))}
    case _ => iset{}
  }

  /** The memory after n bytes of v are stored from at on, lowest first. */
  function Put(mem: seq<nat>, at: nat, n: nat, v: nat): (r: seq<nat>)
    ensures |r| == |mem|
    decreases n
  {
    if n == 0 || at >= |mem| then mem else Put(mem[at := v % 256], at + 1, n - 1, v / 256)
  }

  // ---- Entries ----

  ghost predicate Agrees(c: Config, mem: seq<nat>, e: Entry, a: Access) {
    e.vaddr >= 0 ==>
      forall va: nat, n: nat {:trigger Resolve(c, mem, va, n, a)} :: SamePage(va, e.vaddr) && InPage(va, n) ==>
        Resolve(c, mem, va, n, a) == Host(e.memAddend + va, e.paddrAddend + va)
  }

  /** The translations held for this kind of access to the page of va are still right. */
  ghost predicate StillRight(c: Config, mem: seq<nat>, held: iset<Use>, va: nat, a: Access) {
    forall u :: u in held && u.a == a && u.e.vaddr == va - va % PageSize ==> Agrees(c, mem, u.e, a)
  }

  /** Every valid entry is a translation in use since the last flush. */
  ghost predicate AllHeld(tlb: seq<Entry>, a: Access, held: iset<Use>) {
    forall i :: 0 <= i < |tlb| && tlb[i].vaddr != -1 ==> Use(a, tlb[i]) in held
  }

  /** A valid entry maps one page to one page of host memory. */
  predicate Placed(e: Entry, host: nat) {
    e.vaddr != -1 ==>
      e.vaddr >= 0 && e.vaddr % PageSize == 0 && 0 <= e.memAddend + e.vaddr && e.memAddend + e.vaddr + PageSize <= host
  }

  ghost predicate AllPlaced(tlb: seq<Entry>, host: nat) {
    forall i :: 0 <= i < |tlb| ==> Placed(tlb[i], host)
  }

  lemma FlushedHeld(tlb: seq<Entry>, a: Access, held: iset<Use>, host: nat)
    requires forall i :: 0 <= i < |tlb| ==> tlb[i].vaddr == -1
    ensures AllHeld(tlb, a, held) && AllPlaced(tlb, host)
  {
  }

  lemma InstalledHeld(tlb: seq<Entry>, a: Access, held: iset<Use>, i: nat, e: Entry)
    requires i < |tlb| && AllHeld(tlb, a, held)
    ensures AllHeld(tlb[i := e], a, held + iset{Use(a, e)})
  {
  }

  lemma MoreHeld(tlb: seq<Entry>, a: Access, held: iset<Use>, more: iset<Use>)
    requires AllHeld(tlb, a, held)
    ensures AllHeld(tlb, a, held + more)
  {
  }

  lemma InstalledPlaced(tlb: seq<Entry>, host: nat, i: nat, e: Entry)
    requires i < |tlb| && AllPlaced(tlb, host) && Placed(e, host)
    ensures AllPlaced(tlb[i := e], host)
  {
  }

  /** The entry a slow path installs: right for the access at hand, hence for its whole page. */
  lemma NewEntry(c: Config, mem: seq<nat>, va: nat, n: nat, a: Access, ptr: int, paddr: int, host: nat, e: Entry)
    requires Granular(c) && Backed(c.ranges, host) && InPage(va, n)
    requires Resolve(c, mem, va, n, a) == Host(ptr, paddr)
    requires e == Entry(va - va % PageSize, ptr - va, paddr - va)
    ensures Agrees(c, mem, e, a) && Placed(e, host)
    ensures 0 <= ptr && ptr + n <= host
  {
    hide Resolve, Granular, Backed;
    ResolveInside(c, mem, va, n, a, host);
    forall x: nat, k: nat {:trigger Resolve(c, mem, x, k, a)} | SamePage(x, e.vaddr) && InPage(x, k)
      ensures Resolve(c, mem, x, k, a) == Host(e.memAddend + x, e.paddrAddend + x)
    {
      ResolveUniform(c, mem, va, n, x, k, a);
    }
  }

  /** A hit: the host byte lies inside, and while the entry is right it is the one a walk finds. */
  lemma Hit(c: Config, mem: seq<nat>, tlb: seq<Entry>, a: Access, held: iset<Use>, host: nat, i: nat, va: nat, n: nat)
    requires i < |tlb| && AllPlaced(tlb, host) && tlb[i].vaddr == va - va % PageSize && InPage(va, n)
    requires AllHeld(tlb, a, held)
    ensures 0 <= tlb[i].memAddend + va && tlb[i].memAddend + va + n <= host
    ensures StillRight(c, mem, held, va, a) ==>
              Resolve(c, mem, va, n, a) == Host(tlb[i].memAddend + va, tlb[i].paddrAddend + va)
  {
    assert Placed(tlb[i], host);
    if StillRight(c, mem, held, va, a) {
      assert Use(a, tlb[i]) in held;
      assert Agrees(c, mem, tlb[i], a);
    }
  }

  predicate AccessSize(size: nat) { size in {1, 2, 4, 8, 16} }

  lemma AlignedInPage(va: nat, size: nat)
    requires AccessSize(size) && va % size == 0
    ensures InPage(va, size)
  {
  }

  /** Stores n bytes of val into host memory. */
  method PutBytes(mem: array<nat>, at: nat, n: nat, val: nat)
    requires at + n <= mem.Length
    modifies mem
    ensures mem[..] == Put(old(mem[..]), at, n, val)
  {
    var i, v := 0, val;
    while i < n
      invariant i <= n
      invariant Put(mem[..], at + i, n - i, v) == Put(old(mem[..]), at, n, val)
    {
      ghost var was := mem[..];
      mem[at + i] := v % 256;
      assert mem[..] == was[at + i := v % 256];
      i, v := i + 1, v / 256;
    }
  }

  class Hart {
    const ranges: seq<Range>
    const pal: nat
    const mem: array<nat>

    const tlbRead: array<Entry>
    const tlbWrite: array<Entry>
    const tlbCode: array<Entry>

    var priv: nat
    var mprv: bool
    var mpp: nat
    var sum: bool
    var mxr: bool
    var mode: nat
    var root: nat
    var pmp: seq<PmpRange>

    // the translations used since the last flush
    ghost var held: iset<Use>

    function Config(): Config
      reads this
    {
      PageWalk.Config(priv, mprv, mpp, sum, mxr, mode, root, pmp, pal, ranges)
    }

    ghost predicate Valid()
      reads this, mem, tlbRead, tlbWrite, tlbCode
    {
      && tlbRead.Length == TlbSize && tlbWrite.Length == TlbSize && tlbCode.Length == TlbSize
      && tlbRead != tlbWrite && tlbRead != tlbCode && tlbWrite != tlbCode
      && Granular(Config()) && Backed(ranges, mem.Length) && mode in {0, 8, 9}
      && AllPlaced(tlbRead[..], mem.Length) && AllPlaced(tlbWrite[..], mem.Length) && AllPlaced(tlbCode[..], mem.Length)
      && AllHeld(tlbRead[..], Read, held) && AllHeld(tlbWrite[..], Write, held) && AllHeld(tlbCode[..], Code, held)
    }

    ghost predicate Flushed()
      reads this, tlbRead, tlbWrite, tlbCode
    {
      && (forall i :: 0 <= i < tlbRead.Length ==> tlbRead[i].vaddr == -1)
      && (forall i :: 0 <= i < tlbWrite.Length ==> tlbWrite[i].vaddr == -1)
      && (forall i :: 0 <= i < tlbCode.Length ==> tlbCode[i].vaddr == -1)
    }

    constructor (ranges: seq<Range>, pal: nat, mem: array<nat>)
      requires Backed(ranges, mem.Length) && pal >= 12
      requires forall i :: 0 <= i < |ranges| ==> ranges[i].addr % PageSize == 0 && ranges[i].size % PageSize == 0
      ensures Valid() && held == iset{} && fresh(tlbRead) && fresh(tlbWrite) && fresh(tlbCode) && this.mem == mem
      ensures Config() == PageWalk.Config(PrvM, false, 0, false, false, 0, 0, [], pal, ranges)
    {
      this.ranges, this.pal, this.mem := ranges, pal, mem;
      tlbRead := new Entry[TlbSize](_ => NoEntry);
      tlbWrite := new Entry[TlbSize](_ => NoEntry);
      tlbCode := new Entry[TlbSize](_ => NoEntry);
      priv, mprv, mpp, sum, mxr := PrvM, false, 0, false, false;
      mode, root, pmp := 0, 0, [];
      held := iset{};
    }

    method TlbFlushAll()
      requires tlbRead.Length == TlbSize && tlbWrite.Length == TlbSize && tlbCode.Length == TlbSize
      requires tlbRead != tlbWrite && tlbRead != tlbCode && tlbWrite != tlbCode
      requires Granular(Config()) && Backed(ranges, mem.Length) && mode in {0, 8, 9}
      modifies tlbRead, tlbWrite, tlbCode, this`held
      ensures Valid() && held == iset{} && Flushed()
    {
      var i := 0;
      while i < TlbSize
        invariant i <= TlbSize
        invariant forall j :: 0 <= j < i ==> tlbRead[j].vaddr == -1 && tlbWrite[j].vaddr == -1 && tlbCode[j].vaddr == -1
      {
        tlbRead[i] := tlbRead[i].(vaddr := -1);
        tlbWrite[i] := tlbWrite[i].(vaddr := -1);
        tlbCode[i] := tlbCode[i].(vaddr := -1);
        i := i + 1;
      }
      held := iset{};
      FlushedHeld(tlbRead[..], Read, held, mem.Length);
      FlushedHeld(tlbWrite[..], Write, held, mem.Length);
      FlushedHeld(tlbCode[..], Code, held, mem.Length);
    }

    /** Accounts for the translation an access has used, for an entry already in its TLB. */
    ghost method Hold(more: iset<Use>)
      requires Valid()
      modifies this`held
      ensures Valid() && held == old(held) + more
    {
      hide AllHeld, AllPlaced, Granular, Backed;
      MoreHeld(tlbRead[..], Read, held, more);
      MoreHeld(tlbWrite[..], Write, held, more);
      MoreHeld(tlbCode[..], Code, held, more);
      held := held + more;
    }

    method TargetRead(va: nat, size: nat) returns (r: Reply)
      requires Valid() && AccessSize(size)
      modifies tlbRead, this`held
      ensures Valid()
      ensures (va % size == 0 ==> StillRight(Config(), mem[..], old(held), va, Read)) ==> r == LoadReply(Config(), mem[..], va, size)
      ensures var was := old(tlbRead[..]);
              if va % size != 0 then r == Raised(Misaligned, va) && tlbRead[..] == was && held == old(held)
              else
                && tlbRead[..] == Learned(Config(), mem[..], was, va, size, Read)
                && held == old(held) + Fresh(Config(), mem[..], va, size, Read)
                && r == if Hits(was, va) then Value(Bytes(mem[..], Index(was[Slot(va)].memAddend + va), size))
                        else LoadReply(Config(), mem[..], va, size)
    {
      hide Resolve, Agrees, StillRight, AllHeld, AllPlaced, Granular, Backed, InPage, SamePage, Bytes;
      if va % size != 0 {
        return Raised(Misaligned, va);
      }
      AlignedInPage(va, size);
      var idx := Slot(va);
      ghost var c, m, tlb := Config(), mem[..], tlbRead[..];
      if tlbRead[idx].vaddr == va - va % PageSize {
        Hit(c, m, tlb, Read, held, mem.Length, idx, va, size);
        Hold(Fresh(c, m, va, size, Read));
        return Value(Bytes(mem[..], tlbRead[idx].memAddend + va, size));
      }
      Hold(Fresh(c, m, va, size, Read));
      match Resolve(Config(), mem[..], va, size, Read) {
        case PageFaulted => r := Raised(PageFaultCause, va);
        case AccessFaulted => r := Raised(AccessFaultCause, va);
        case Nowhere(p) => r := AtNowhere(p);
        case Device(p) => r := AtDevice(p);
        case Host(ptr, paddr) =>
          var e := Entry(va - va % PageSize, ptr - va, paddr - va);
          NewEntry(c, m, va, size, Read, ptr, paddr, mem.Length, e);
          InstalledPlaced(tlb, mem.Length, idx, e);
          InstalledHeld(tlb, Read, held, idx, e);
          assert held + iset{Use(Read, e)} == held;
          tlbRead[idx] := e;
          assert tlbRead[..] == tlb[idx := e];
          r := Value(Bytes(mem[..], ptr, size));
      }
    }

    method TargetWrite(va: nat, size: nat, val: nat) returns (r: Reply)
      requires Valid() && AccessSize(size)
      modifies tlbWrite, mem, this`held
      ensures Valid()
      ensures (va % size == 0 ==> StillRight(Config(), old(mem[..]), old(held), va, Write)) ==>
                (mem[..], r) == StoreReply(Config(), old(mem[..]), va, size, val)
      ensures var was := old(tlbWrite[..]);
              if va % size != 0 then
                r == Raised(Misaligned, va) && tlbWrite[..] == was && mem[..] == old(mem[..]) && held == old(held)
              else
                && tlbWrite[..] == Learned(Config(), old(mem[..]), was, va, size, Write)
                && held == old(held) + Fresh(Config(), old(mem[..]), va, size, Write)
                && (mem[..], r) == if Hits(was, va) then (Put(old(mem[..]), Index(was[Slot(va)].memAddend + va), size, val), Stored)
                                   else StoreReply(Config(), old(mem[..]), va, size, val)
    {
      hide Resolve, Agrees, StillRight, AllHeld, AllPlaced, Granular, Backed, InPage, SamePage, Bytes, Put;
      ghost var c, m, tlb := Config(), mem[..], tlbWrite[..];
      if va % size != 0 {
        return Raised(Misaligned, va);
      }
      AlignedInPage(va, size);
      var idx := Slot(va);
      if tlbWrite[idx].vaddr == va - va % PageSize {
        Hit(c, m, tlb, Write, held, mem.Length, idx, va, size);
        Hold(Fresh(c, m, va, size, Write));
        PutBytes(mem, tlbWrite[idx].memAddend + va, size, val);
        return Stored;
      }
      Hold(Fresh(c, m, va, size, Write));
      match Resolve(Config(), mem[..], va, size, Write) {
        case PageFaulted => r := Raised(PageFaultCause, va);
        case AccessFaulted => r := Raised(AccessFaultCause, va);
        case Nowhere(p) => r := AtNowhere(p);
        case Device(p) => r := AtDevice(p);
        case Host(ptr, paddr) =>
          var e := Entry(va - va % PageSize, ptr - va, paddr - va);
          NewEntry(c, m, va, size, Write, ptr, paddr, mem.Length, e);
          InstalledPlaced(tlb, mem.Length, idx, e);
          InstalledHeld(tlb, Write, held, idx, e);
          assert held + iset{Use(Write, e)} == held;
          tlbWrite[idx] := e;
          assert tlbWrite[..] == tlb[idx := e];
          PutBytes(mem, ptr, size, val);
          r := Stored;
      }
    }

    /** A store by another hart or a device, which no TLB takes notice of. */
    method OtherWrite(at: nat, b: nat)
      requires Valid() && at < mem.Length
      modifies mem
      ensures Valid() && mem[..] == old(mem[..])[at := b % 256]
    {
      hide AllHeld, Granular, Backed, AllPlaced;
      mem[at] := b % 256;
    }

    /** One halfword of an instruction; addresses of code are even. */
    method TargetReadInsn(va: nat) returns (r: Reply)
      requires Valid() && va % 2 == 0
      modifies tlbCode, this`held
      ensures Valid()
      ensures StillRight(Config(), mem[..], old(held), va, Code) ==> r == FetchReply(Config(), mem[..], va)
      ensures var was := old(tlbCode[..]);
              && tlbCode[..] == Learned(Config(), mem[..], was, va, 2, Code)
              && held == old(held) + Fresh(Config(), mem[..], va, 2, Code)
              && r == if Hits(was, va) then Value(Bytes(mem[..], Index(was[Slot(va)].memAddend + va), 2))
                      else FetchReply(Config(), mem[..], va)
    {
      hide Resolve, Agrees, StillRight, AllHeld, AllPlaced, Granular, Backed, InPage, SamePage, Bytes, PmpOk;
      AlignedInPage(va, 2);
      var idx := Slot(va);
      ghost var c, m, tlb := Config(), mem[..], tlbCode[..];
      if tlbCode[idx].vaddr == va - va % PageSize {
        Hit(c, m, tlb, Code, held, mem.Length, idx, va, 2);
        Hold(Fresh(c, m, va, 2, Code));
        return Value(Bytes(mem[..], tlbCode[idx].memAddend + va, 2));
      }
      Hold(Fresh(c, m, va, 2, Code));
      match Resolve(Config(), mem[..], va, 2, Code) {
        case PageFaulted => r := Raised(PageFaultCause, va);
        case AccessFaulted => r := Raised(AccessFaultCause, va);
        case Nowhere(_) => r := Raised(AccessFaultCause, va);
        case Device(_) => r := Raised(AccessFaultCause, va);
        case Host(ptr, paddr) =>
          var e := Entry(va - va % PageSize, ptr - va, paddr - va);
          NewEntry(c, m, va, 2, Code, ptr, paddr, mem.Length, e);
          if PmpOk(Config(), Index(paddr - paddr % PageSize), PageSize, Code) {
            InstalledPlaced(tlb, mem.Length, idx, e);
            InstalledHeld(tlb, Code, held, idx, e);
            assert held + iset{Use(Code, e)} == held;
            tlbCode[idx] := e;
            assert tlbCode[..] == tlb[idx := e];
          }
          r := Value(Bytes(mem[..], ptr, 2));
      }
    }

    // ---- Changes of the translation regime ----

    /** After a flush the fields may take any values: no entry is left that could be wrong. */
    ghost method Flushes()
      requires tlbRead.Length == TlbSize && tlbWrite.Length == TlbSize && tlbCode.Length == TlbSize
      requires tlbRead != tlbWrite && tlbRead != tlbCode && tlbWrite != tlbCode
      requires Granular(Config()) && Backed(ranges, mem.Length) && mode in {0, 8, 9} && Flushed()
      ensures Valid()
    {
      FlushedHeld(tlbRead[..], Read, held, mem.Length);
      FlushedHeld(tlbWrite[..], Write, held, mem.Length);
      FlushedHeld(tlbCode[..], Code, held, mem.Length);
    }

    /** mstatus.MPP changes without a flush. */
    method AssignMpp(mpp': nat)
      requires Valid()
      modifies this`mpp
      ensures Valid() && mpp == mpp'
    {
      hide AllHeld, Granular, Backed, AllPlaced;
      GranularIgnoresMpp(Config(), mpp');
      mpp := mpp';
    }

    /** set_mstatus, for the four fields that translation depends on. */
    method SetMstatus(mprv': bool, mpp': nat, sum': bool, mxr': bool)
      requires Valid()
      modifies tlbRead, tlbWrite, tlbCode, this`held, this`mprv, this`mpp, this`sum, this`mxr
      ensures Valid() && Config() == old(Config()).(mprv := mprv', mpp := mpp', sum := sum', mxr := mxr')
      ensures var flush := mprv' != old(mprv) || sum' != old(sum) || mxr' != old(mxr) || (old(mprv) && mpp' != old(mpp));
              && held == (if flush then iset{} else old(held))
              && if flush then Flushed() else unchanged(tlbRead, tlbWrite, tlbCode)
    {
      hide Granular, Backed, AllHeld, AllPlaced;
      if RegimeChange(Config(), mprv', mpp', sum', mxr') {
        TlbFlushAll();
        GranularAnyStatus(Config(), mprv', mpp', sum', mxr');
        mprv, mpp, sum, mxr := mprv', mpp', sum', mxr';
        Flushes();
      } else {
        AssignMpp(mpp');
      }
    }

    method SetPriv(priv': nat)
      requires Valid()
      modifies tlbRead, tlbWrite, tlbCode, this`held, this`priv
      ensures Valid() && Config() == old(Config()).(priv := priv')
      ensures held == if priv' != old(priv) then iset{} else old(held)
      ensures if priv' != old(priv) then Flushed() else unchanged(tlbRead, tlbWrite, tlbCode)
    {
      hide Granular, Backed, AllHeld, AllPlaced;
      if priv != priv' {
        TlbFlushAll();
        GranularAnyPriv(Config(), priv');
        priv := priv';
        Flushes();
      }
    }

    /** A write to satp: modes other than bare, Sv39 and Sv48 are ignored, but flush all the same. */
    method WriteSatp(mode': nat, root': nat)
      requires Valid()
      modifies tlbRead, tlbWrite, tlbCode, this`held, this`mode, this`root
      ensures Valid() && held == iset{} && Flushed()
      ensures Config() == if mode' in {0, 8, 9} then old(Config()).(mode := mode', root := root') else old(Config())
    {
      hide Granular, Backed, AllHeld, AllPlaced;
      if mode' == 0 || mode' == 8 || mode' == 9 {
        mode, root := mode', root';
      }
      GranularAnyRoot(old(Config()), mode, root);
      TlbFlushAll();
    }

    /** unpack_pmpaddrs replaces the decoded entries and flushes. */
    method WritePmp(pmp': seq<PmpRange>)
      requires Valid()
      requires forall i :: 0 <= i < |pmp'| ==> pmp'[i].lo % PageSize == 0 && pmp'[i].hi % PageSize == 0
      modifies tlbRead, tlbWrite, tlbCode, this`held, this`pmp
      ensures Valid() && held == iset{} && Flushed() && Config() == old(Config()).(pmp := pmp')
    {
      hide Backed, AllHeld, AllPlaced;
      pmp := pmp';
      TlbFlushAll();
    }

    /** A trap into M-mode. From M-mode itself nothing is flushed. */
    method TrapToM()
      requires Valid()
      modifies tlbRead, tlbWrite, tlbCode, this`held, this`priv, this`mpp
      ensures Valid() && Config() == old(Config()).(mpp := old(priv), priv := PrvM)
      ensures held == if old(priv) != PrvM then iset{} else old(held)
      ensures if old(priv) != PrvM then Flushed() else unchanged(tlbRead, tlbWrite, tlbCode)
    {
      AssignMpp(priv);
      SetPriv(PrvM);
    }

    method Mret()
      requires Valid()
      modifies tlbRead, tlbWrite, tlbCode, this`held, this`priv, this`mpp
      ensures Valid() && Config() == old(Config()).(priv := old(mpp), mpp := 0)
      ensures held == if old(priv) != old(mpp) then iset{} else old(held)
      ensures if old(priv) != old(mpp) then Flushed() else unchanged(tlbRead, tlbWrite, tlbCode)
    {
      var to := mpp;
      AssignMpp(0);
      SetPriv(to);
    }
  }

  /** Does set_mstatus flush? */
  predicate RegimeChange(c: Config, mprv: bool, mpp: nat, sum: bool, mxr: bool) {
    c.mprv != mprv || c.sum != sum || c.mxr != mxr || (c.mprv && c.mpp != mpp)
  }

  lemma GranularIgnoresMpp(c: Config, mpp: nat)
    requires Granular(c)
    ensures Granular(c.(mpp := mpp))
  {
  }

  lemma GranularAnyStatus(c: Config, mprv: bool, mpp: nat, sum: bool, mxr: bool)
    requires Granular(c)
    ensures Granular(c.(mprv := mprv, mpp := mpp, sum := sum, mxr := mxr))
  {
  }

  lemma GranularAnyPriv(c: Config, priv: nat)
    requires Granular(c)
    ensures Granular(c.(priv := priv))
  {
  }

  lemma GranularAnyRoot(c: Config, mode: nat, root: nat)
    requires Granular(c)
    ensures Granular(c.(mode := mode, root := root))
  {
  }

  // ---- Whole runs ----

  datatype Op =
    | Load(va: nat, size: nat)
    | Store(va: nat, size: nat, val: nat)
    | Fetch(va: nat)
    | OtherStore(at: nat, b: nat)
    | Mstatus(mprv: bool, mpp: nat, sum: bool, mxr: bool)
    | Satp(mode: nat, root: nat)
    | Priv(priv: nat)
    | Pmp(pmp: seq<PmpRange>)
    | Trap
    | MretOp
    | SfenceVma

  /** A hart without TLBs, which only remembers the translations it has used since the last flush. */
  datatype Plain = Plain(c: Config, mem: seq<nat>, held: iset<Use>)

  ghost predicate Legal(op: Op, host: nat) {
    match op
    case Load(_, size) => AccessSize(size)
    case Store(_, size, _) => AccessSize(size)
    case Fetch(va) => va % 2 == 0
    case OtherStore(at, _) => at < host
    case Pmp(p) => forall i :: 0 <= i < |p| ==> p[i].lo % PageSize == 0 && p[i].hi % PageSize == 0
    case _ => true
  }

  /** Which operations flush. */
  predicate Flushes(c: Config, op: Op) {
    match op
    case Mstatus(mprv, mpp, sum, mxr) => RegimeChange(c, mprv, mpp, sum, mxr)
    case Priv(priv) => priv != c.priv
    case Trap => c.priv != PrvM
    case MretOp => c.mpp != c.priv
    case _ => op.Satp? || op.Pmp? || op.SfenceVma?
  }

  /** What an operation makes of the configuration. */
  function Reconfigured(c: Config, op: Op): Config {
    match op
    case Mstatus(mprv, mpp, sum, mxr) => c.(mprv := mprv, mpp := mpp, sum := sum, mxr := mxr)
    case Satp(mode, root) => if mode in {0, 8, 9} then c.(mode := mode, root := root) else c
    case Priv(priv) => c.(priv := priv)
    case Pmp(pmp) => c.(pmp := pmp)
    case Trap => c.(mpp := c.priv, priv := PrvM)
    case MretOp => c.(priv := c.mpp, mpp := 0)
    case _ => c
  }

  /** The translation an operation puts to use. */
  ghost function Used(c: Config, mem: seq<nat>, op: Op): iset<Use>
    requires Legal(op, |mem|)
  {
    match op
    case Load(va, size) => if va % size == 0 then Fresh(c, mem, va, size, Read) else iset{}
    case Store(va, size, _) => if va % size == 0 then Fresh(c, mem, va, size, Write) else iset{}
    case Fetch(va) => Fresh(c, mem, va, 2, Code)
    case _ => iset{}
  }

  /** Memory and reply; only loads, stores and fetches reply. */
  ghost function Answered(c: Config, mem: seq<nat>, op: Op): (r: (seq<nat>, Reply))
    requires Legal(op, |mem|)
    ensures |r.0| == |mem|
  {
    match op
    case Load(va, size) => (mem, LoadReply(c, mem, va, size))
    case Store(va, size, val) => StoreReply(c, mem, va, size, val)
    case Fetch(va) => (mem, FetchReply(c, mem, va))
    case OtherStore(at, b) => (mem[at := b % 256], Stored)
    case _ => (mem, Stored)
  }

  /** One operation of the hart without TLBs. */
  ghost function PlainStep(s: Plain, op: Op): (r: (Plain, Reply))
    requires Legal(op, |s.mem|)
    ensures |r.0.mem| == |s.mem|
  {
    var held := if Flushes(s.c, op) then iset{} else s.held + Used(s.c, s.mem, op);
    (Plain(Reconfigured(s.c, op), Answered(s.c, s.mem, op).0, held), Answered(s.c, s.mem, op).1)
  }

  /** Software plays by the rules: an access finds the translations used for its page still right. */
  ghost predicate Fenced(s: Plain, op: Op) {
    match op
    case Load(va, size) => size > 0 && va % size == 0 ==> StillRight(s.c, s.mem, s.held, va, Read)
    case Store(va, size, _) => size > 0 && va % size == 0 ==> StillRight(s.c, s.mem, s.held, va, Write)
    case Fetch(va) => StillRight(s.c, s.mem, s.held, va, Code)
    case _ => true
  }

  ghost predicate RunFenced(s: Plain, ops: seq<Op>)
    requires forall i :: 0 <= i < |ops| ==> Legal(ops[i], |s.mem|)
    decreases |ops|
  {
    ops == [] || (Fenced(s, ops[0]) && RunFenced(PlainStep(s, ops[0]).0, ops[1..]))
  }

  ghost function PlainRun(s: Plain, ops: seq<Op>): (r: (Plain, seq<Reply>))
    requires forall i :: 0 <= i < |ops| ==> Legal(ops[i], |s.mem|)
    ensures |r.1| == |ops|
    decreases |ops|
  {
    if ops == [] then (s, [])
    else
      var first := PlainStep(s, ops[0]);
      var rest := PlainRun(first.0, ops[1..]);
      (rest.0, [first.1] + rest.1)
  }

  method Step(t: Hart, op: Op) returns (r: Reply)
    requires t.Valid() && Legal(op, t.mem.Length)
    modifies t, t.mem, t.tlbRead, t.tlbWrite, t.tlbCode
    ensures t.Valid()
    ensures var was := Plain(old(t.Config()), old(t.mem[..]), old(t.held));
            Fenced(was, op) ==> (Plain(t.Config(), t.mem[..], t.held), r) == PlainStep(was, op)
  {
    hide Hart.Valid, LoadReply, StoreReply, FetchReply, Fresh, StillRight;
    r := Stored;
    assert t.held + iset{} == t.held;
    match op
    case Load(va, size) => r := t.TargetRead(va, size);
    case Store(va, size, val) => r := t.TargetWrite(va, size, val);
    case Fetch(va) => r := t.TargetReadInsn(va);
    case OtherStore(at, b) => t.OtherWrite(at, b);
    case Mstatus(mprv, mpp, sum, mxr) => t.SetMstatus(mprv, mpp, sum, mxr);
    case Satp(mode, root) => t.WriteSatp(mode, root);
    case Priv(priv) => t.SetPriv(priv);
    case Pmp(pmp) => t.WritePmp(pmp);
    case Trap => t.TrapToM();
    case MretOp => t.Mret();
    case SfenceVma =>
      ValidShape(t);
      t.TlbFlushAll();
  }

  lemma ValidShape(t: Hart)
    requires t.Valid()
    ensures t.tlbRead.Length == TlbSize && t.tlbWrite.Length == TlbSize && t.tlbCode.Length == TlbSize
    ensures t.tlbRead != t.tlbWrite && t.tlbRead != t.tlbCode && t.tlbWrite != t.tlbCode
    ensures Granular(t.Config()) && Backed(t.ranges, t.mem.Length) && t.mode in {0, 8, 9}
  {
  }

  /** The TLBs are invisible: a fenced run has the replies and the memory of a hart without them. */
  method Run(t: Hart, ops: seq<Op>) returns (replies: seq<Reply>)
    requires t.Valid() && forall i :: 0 <= i < |ops| ==> Legal(ops[i], t.mem.Length)
    modifies t, t.mem, t.tlbRead, t.tlbWrite, t.tlbCode
    ensures t.Valid()
    ensures var was := Plain(old(t.Config()), old(t.mem[..]), old(t.held));
            RunFenced(was, ops) ==>
              && replies == PlainRun(was, ops).1
              && Plain(t.Config(), t.mem[..], t.held) == PlainRun(was, ops).0
  {
    hide Hart.Valid, PlainStep, Fenced, Legal;
    replies := [];
    var i := 0;
    ghost var was := Plain(t.Config(), t.mem[..], t.held);
    assert ops[0..] == ops;
    while i < |ops|
      invariant i <= |ops| && t.Valid()
      invariant RunFenced(was, ops) ==>
                  var now := Plain(t.Config(), t.mem[..], t.held);
                  && RunFenced(now, ops[i..])
                  && PlainRun(was, ops).0 == PlainRun(now, ops[i..]).0
                  && PlainRun(was, ops).1 == replies + PlainRun(now, ops[i..]).1
    {
      ghost var now := Plain(t.Config(), t.mem[..], t.held);
      assert ops[i..][0] == ops[i] && ops[i..][1..] == ops[i + 1..];
      var r := Step(t, ops[i]);
      ghost var next := Plain(t.Config(), t.mem[..], t.held);
      if RunFenced(was, ops) {
        assert PlainRun(now, ops[i..]).1 == [r] + PlainRun(next, ops[i + 1..]).1;
      }
      replies := replies + [r];
      i := i + 1;
    }
    assert ops[i..] == [];
  }
}
