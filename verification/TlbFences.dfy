/**
 * When the TLBs can be seen. A translation in use stays right or goes wrong as a whole; a change
 * of MPP under MPRV is the only change of the status that is not flushed although it matters,
 * and which translations it spoils is said exactly.
 */
module TlbFences {
  import opened Powers
  import opened PageWalk
  import opened SoftTlb
  import opened Wrappers

  // ---- One translation ----

  /** A hit on any address of the page goes where a walk goes if and only if the entry is right. */
  lemma AgreesAt(c: Config, mem: seq<nat>, e: Entry, a: Access, va: nat, n: nat)
    requires Granular(c) && e.vaddr >= 0 && SamePage(va, e.vaddr) && InPage(va, n)
    ensures Agrees(c, mem, e, a) <==> Resolve(c, mem, va, n, a) == Host(e.memAddend + va, e.paddrAddend + va)
  {
    hide Resolve, Granular;
    if Resolve(c, mem, va, n, a) == Host(e.memAddend + va, e.paddrAddend + va) {
      forall x: nat, k: nat {:trigger Resolve(c, mem, x, k, a)} | SamePage(x, e.vaddr) && InPage(x, k)
        ensures Resolve(c, mem, x, k, a) == Host(e.memAddend + x, e.paddrAddend + x)
      {
        ResolveUniform(c, mem, va, n, x, k, a);
      }
    }
  }

  lemma ResolveParts(c: Config, mem: seq<nat>, va: nat, n: nat, a: Access, ptr: int, p: int)
    ensures Resolve(c, mem, va, n, a) == Host(ptr, p) <==>
              && p >= 0 && Walk(c, mem, va, a) == Paddr(p) && PmpOk(c, p, n, a)
              && (var f := Lookup(c.ranges, p); f.Some? && f.value.isRam && ptr == f.value.host + (p - f.value.addr))
  {
    hide Walk, PmpOk, Lookup;
  }

  lemma {:induction false} ScanRises(rs: seq<PmpRange>, priv: nat, p: nat, n: nat, a: Access)
    requires priv < PrvM && PmpScan(rs, priv, p, n, a)
    ensures PmpScan(rs, PrvM, p, n, a)
    decreases |rs|
  {
    hide BitOf;
    if rs != [] && !(rs[0].lo < p + n && p < rs[0].hi) {
      ScanRises(rs[1..], priv, p, n, a);
    }
  }

  lemma {:induction false} ScanAlike(rs: seq<PmpRange>, priv: nat, priv': nat, p: nat, n: nat, a: Access)
    requires priv < PrvM && priv' < PrvM
    ensures PmpScan(rs, priv, p, n, a) == PmpScan(rs, priv', p, n, a)
    decreases |rs|
  {
    hide BitOf;
    if rs != [] {
      ScanAlike(rs[1..], priv, priv', p, n, a);
    }
  }

  // ---- MPP changes under MPRV ----

  /** A data translation survives a change of MPP if and only if the walk and the protection still allow it. */
  lemma MppExact(c: Config, mem: seq<nat>, e: Entry, a: Access, mpp: nat)
    requires Granular(c) && c.mprv && a != Code && e.vaddr >= 0 && Agrees(c, mem, e, a)
    ensures var p := e.paddrAddend + e.vaddr;
            && p >= 0 && Walk(c, mem, e.vaddr, a) == Paddr(p) && PmpScan(c.pmp, c.mpp, p, 1, a)
            && (Agrees(c.(mpp := mpp), mem, e, a) <==>
                  Walk(c.(mpp := mpp), mem, e.vaddr, a) == Paddr(p) && PmpScan(c.pmp, mpp, p, 1, a))
  {
    hide Walk, PmpScan, Lookup, Agrees, Resolve, Granular;
    var va: nat, c' := e.vaddr, c.(mpp := mpp);
    FirstByte(va);
    GranularIgnoresMpp(c, mpp);
    AgreesAt(c, mem, e, a, va, 1);
    AgreesAt(c', mem, e, a, va, 1);
    ResolveParts(c, mem, va, 1, a, e.memAddend + va, e.paddrAddend + va);
    ResolveParts(c', mem, va, 1, a, e.memAddend + va, e.paddrAddend + va);
  }

  lemma FirstByte(va: nat)
    ensures SamePage(va, va) && InPage(va, 1)
  {
  }

  lemma Untranslated(c: Config, mem: seq<nat>, va: nat, a: Access)
    requires EffectivePriv(c, a) == PrvM || c.mode < 8
    ensures Walk(c, mem, va, a) == Paddr(va)
  {
  }

  /** A rise to M, as at a trap from M: exactly the translations that map a page to itself stay right. */
  lemma MppRise(c: Config, mem: seq<nat>, e: Entry, a: Access)
    requires Granular(c) && c.mprv && c.mpp < PrvM && a != Code && e.vaddr >= 0 && Agrees(c, mem, e, a)
    ensures Agrees(c.(mpp := PrvM), mem, e, a) <==> e.paddrAddend == 0
    ensures c.mode < 8 ==> e.paddrAddend == 0
  {
    hide Walk, PmpScan, Agrees, Granular;
    MppExact(c, mem, e, a, PrvM);
    Untranslated(c.(mpp := PrvM), mem, e.vaddr, a);
    ScanRises(c.pmp, c.mpp, e.paddrAddend + e.vaddr, 1, a);
    if c.mode < 8 {
      Untranslated(c, mem, e.vaddr, a);
    }
  }

  /**
   * A fall from M, as at a return to M: exactly the translations stay right that the page table
   * maps to themselves and the protection grants; without a page table, those it grants.
   */
  lemma MppFall(c: Config, mem: seq<nat>, e: Entry, a: Access, mpp: nat)
    requires Granular(c) && c.mprv && c.mpp == PrvM && mpp < PrvM && a != Code && e.vaddr >= 0 && Agrees(c, mem, e, a)
    ensures Agrees(c.(mpp := mpp), mem, e, a) <==>
              Walk(c.(mpp := mpp), mem, e.vaddr, a) == Paddr(e.vaddr) && PmpScan(c.pmp, mpp, e.vaddr, 1, a)
    ensures c.mode < 8 ==> (Agrees(c.(mpp := mpp), mem, e, a) <==> PmpScan(c.pmp, mpp, e.vaddr, 1, a))
  {
    hide Walk, PmpScan, Agrees, Granular;
    MppExact(c, mem, e, a, mpp);
    Untranslated(c, mem, e.vaddr, a);
    if c.mode < 8 {
      Untranslated(c.(mpp := mpp), mem, e.vaddr, a);
    }
  }

  /** Between the lower modes only the walk matters, and without a page table nothing does. */
  lemma MppBelow(c: Config, mem: seq<nat>, e: Entry, a: Access, mpp: nat)
    requires Granular(c) && c.mprv && c.mpp < PrvM && mpp < PrvM && a != Code && e.vaddr >= 0 && Agrees(c, mem, e, a)
    ensures Agrees(c.(mpp := mpp), mem, e, a) <==>
              Walk(c.(mpp := mpp), mem, e.vaddr, a) == Walk(c, mem, e.vaddr, a)
    ensures c.mode < 8 ==> Agrees(c.(mpp := mpp), mem, e, a)
  {
    hide Walk, PmpScan, Agrees, Granular;
    MppExact(c, mem, e, a, mpp);
    ScanAlike(c.pmp, c.mpp, mpp, e.paddrAddend + e.vaddr, 1, a);
    if c.mode < 8 {
      Untranslated(c, mem, e.vaddr, a);
      Untranslated(c.(mpp := mpp), mem, e.vaddr, a);
    }
  }

  // ---- Changes that spoil nothing ----

  /** Whatever reached RAM reaches the same byte after the change. */
  ghost predicate Keeps(c: Config, m: seq<nat>, c': Config, m': seq<nat>) {
    forall va: nat, n: nat, a: Access {:trigger Resolve(c', m', va, n, a)} ::
      InPage(va, n) && Resolve(c, m, va, n, a).Host? ==> Resolve(c', m', va, n, a) == Resolve(c, m, va, n, a)
  }

  lemma KeepsRight(c: Config, m: seq<nat>, c': Config, m': seq<nat>, e: Entry, a: Access)
    requires Keeps(c, m, c', m') && Agrees(c, m, e, a)
    ensures Agrees(c', m', e, a)
  {
    hide Resolve;
    if e.vaddr >= 0 {
      forall va: nat, n: nat {:trigger Resolve(c', m', va, n, a)} | SamePage(va, e.vaddr) && InPage(va, n)
        ensures Resolve(c', m', va, n, a) == Host(e.memAddend + va, e.paddrAddend + va)
      {
        assert Resolve(c, m, va, n, a) == Host(e.memAddend + va, e.paddrAddend + va);
      }
    }
  }

  /** No weaker condition will do: otherwise some translation a hart may hold is spoilt. */
  lemma KeepsExact(c: Config, m: seq<nat>, c': Config, m': seq<nat>, host: nat) returns (e: Entry, a: Access)
    requires Granular(c) && Backed(c.ranges, host) && !Keeps(c, m, c', m')
    ensures e.vaddr >= 0 && Placed(e, host) && Agrees(c, m, e, a) && !Agrees(c', m', e, a)
  {
    hide Resolve, Granular, Backed;
    var va: nat, n: nat, b: Access :|
      InPage(va, n) && Resolve(c, m, va, n, b).Host? && Resolve(c', m', va, n, b) != Resolve(c, m, va, n, b);
    var t := Resolve(c, m, va, n, b);
    e, a := Entry(va - va % PageSize, t.ptr - va, t.paddr - va), b;
    NewEntry(c, m, va, n, a, t.ptr, t.paddr, host, e);
    PageStartOf(va);
  }

  lemma PageStartOf(va: nat)
    ensures va - va % PageSize >= 0 && SamePage(va, va - va % PageSize)
  {
  }

  /** Every walk has the outcome it had. */
  ghost predicate SameWalks(c: Config, m: seq<nat>, m': seq<nat>) {
    forall va: nat, a: Access :: Walk(c, m, va, a) == Walk(c, m', va, a)
  }

  /** A store that changes no walk spoils nothing. */
  lemma SameWalksKeep(c: Config, m: seq<nat>, m': seq<nat>)
    requires SameWalks(c, m, m')
    ensures Keeps(c, m, c, m')
  {
    hide Walk;
    forall va: nat, n: nat, a: Access {:trigger Resolve(c, m', va, n, a)} ensures Resolve(c, m', va, n, a) == Resolve(c, m, va, n, a) {
      assert Walk(c, m, va, a) == Walk(c, m', va, a);
    }
  }

  lemma {:induction false} WalkFromIgnoresMpp(c: Config, mem: seq<nat>, va: nat, a: Access, priv: nat, table: nat, j: nat, mpp: nat)
    requires !c.mprv
    ensures WalkFrom(c.(mpp := mpp), mem, va, a, priv, table, j) == WalkFrom(c, mem, va, a, priv, table, j)
    decreases j
  {
    hide Bytes, Pow2, Lookup, PmpScan, Decide, ReadPte, Merge;
    var at := table + va / Pow2(12 + 9 * j) % 512 * 8;
    PteIgnoresMpp(c, mem, at, mpp);
    var pte := ReadPte(c, mem, at);
    if pte.Some? {
      DecideIgnoresMpp(c, pte.value, a, priv, j, mpp);
      var level := Decide(c, pte.value, a, priv, j);
      if level.Next? && j > 0 {
        WalkFromIgnoresMpp(c, mem, va, a, priv, level.table, j - 1, mpp);
      }
    }
  }

  lemma PteIgnoresMpp(c: Config, mem: seq<nat>, at: nat, mpp: nat)
    requires !c.mprv
    ensures ReadPte(c.(mpp := mpp), mem, at) == ReadPte(c, mem, at)
  {
    hide Bytes, Pow2, Lookup, PmpScan;
  }

  lemma DecideIgnoresMpp(c: Config, pte: nat, a: Access, priv: nat, j: nat, mpp: nat)
    ensures Decide(c.(mpp := mpp), pte, a, priv, j) == Decide(c, pte, a, priv, j)
  {
    hide BitOf, Pow2;
  }

  /** With MPRV clear nothing depends on MPP. */
  lemma ClearMprvKeeps(c: Config, mem: seq<nat>, mpp: nat)
    requires !c.mprv
    ensures Keeps(c, mem, c.(mpp := mpp), mem)
  {
    hide Resolve;
    forall va: nat, n: nat, a: Access {:trigger Resolve(c.(mpp := mpp), mem, va, n, a)}
      ensures Resolve(c.(mpp := mpp), mem, va, n, a) == Resolve(c, mem, va, n, a)
    {
      ResolveIgnoresMpp(c, mem, va, n, a, mpp);
    }
  }

  /** A write of mstatus that flushes nothing spoils nothing. */
  lemma StatusKeeps(c: Config, mem: seq<nat>, mprv: bool, mpp: nat, sum: bool, mxr: bool)
    requires mprv == c.mprv && sum == c.sum && mxr == c.mxr && (mpp == c.mpp || !c.mprv)
    ensures Keeps(c, mem, c.(mprv := mprv, mpp := mpp, sum := sum, mxr := mxr), mem)
  {
    hide Resolve, Keeps;
    var c' := c.(mprv := mprv, mpp := mpp, sum := sum, mxr := mxr);
    if c.mprv {
      assert c' == c;
      SameKeeps(c, mem);
    } else {
      assert c' == c.(mpp := mpp);
      ClearMprvKeeps(c, mem, mpp);
    }
  }

  lemma SameKeeps(c: Config, mem: seq<nat>)
    ensures Keeps(c, mem, c, mem)
  {
    hide Resolve;
  }

  lemma ResolveIgnoresMpp(c: Config, mem: seq<nat>, va: nat, n: nat, a: Access, mpp: nat)
    requires !c.mprv
    ensures Resolve(c.(mpp := mpp), mem, va, n, a) == Resolve(c, mem, va, n, a)
  {
    hide WalkFrom, Lookup, PmpScan, Bytes;
    if !(c.priv == PrvM || c.mode < 8) {
      WalkFromIgnoresMpp(c, mem, va, a, c.priv, c.root * PageSize, c.mode - 8 + 2, mpp);
    }
  }

  /** In M-mode fetches do not depend on MPP either. */
  lemma FetchIgnoresMpp(c: Config, mem: seq<nat>, va: nat, n: nat, mpp: nat)
    requires c.priv == PrvM
    ensures Resolve(c.(mpp := mpp), mem, va, n, Code) == Resolve(c, mem, va, n, Code)
  {
    hide PmpScan, Lookup;
  }

  /** All data translations map addresses to themselves. */
  ghost predicate Identity(c: Config, mem: seq<nat>) {
    forall va: nat, n: nat, a: Access {:trigger Resolve(c, mem, va, n, a)} ::
      a != Code && InPage(va, n) && Resolve(c, mem, va, n, a).Host? ==> Resolve(c, mem, va, n, a).paddr == va
  }

  /** A trap from M under MPRV spoils nothing if and only if all data translations were identities. */
  lemma TrapKeeps(c: Config, mem: seq<nat>)
    requires c.mprv && c.priv == PrvM && c.mpp < PrvM
    ensures Keeps(c, mem, c.(mpp := PrvM), mem) <==> Identity(c, mem)
    ensures c.mode < 8 ==> Identity(c, mem)
  {
    hide Resolve;
    forall va: nat, n: nat, a: Access {:trigger Resolve(c, mem, va, n, a)} | InPage(va, n) && Resolve(c, mem, va, n, a).Host?
      ensures Resolve(c.(mpp := PrvM), mem, va, n, a) == Resolve(c, mem, va, n, a) <==>
                a == Code || Resolve(c, mem, va, n, a).paddr == va
      ensures c.mode < 8 && a != Code ==> Resolve(c, mem, va, n, a).paddr == va
    {
      if a == Code {
        FetchIgnoresMpp(c, mem, va, n, PrvM);
      } else {
        RiseAt(c, mem, va, n, a);
      }
    }
    if Keeps(c, mem, c.(mpp := PrvM), mem) {
      forall va: nat, n: nat, a: Access {:trigger Resolve(c, mem, va, n, a)} |
        a != Code && InPage(va, n) && Resolve(c, mem, va, n, a).Host?
        ensures Resolve(c, mem, va, n, a).paddr == va
      {
        assert Resolve(c.(mpp := PrvM), mem, va, n, a) == Resolve(c, mem, va, n, a);
      }
    }
  }

  lemma RiseAt(c: Config, mem: seq<nat>, va: nat, n: nat, a: Access)
    requires c.mprv && c.mpp < PrvM && a != Code && Resolve(c, mem, va, n, a).Host?
    ensures Resolve(c.(mpp := PrvM), mem, va, n, a) == Resolve(c, mem, va, n, a) <==> Resolve(c, mem, va, n, a).paddr == va
    ensures c.mode < 8 ==> Resolve(c, mem, va, n, a).paddr == va
  {
    hide Walk, PmpScan, Lookup, Resolve;
    var t, c' := Resolve(c, mem, va, n, a), c.(mpp := PrvM);
    ResolveParts(c, mem, va, n, a, t.ptr, t.paddr);
    ResolveParts(c', mem, va, n, a, t.ptr, t.paddr);
    Untranslated(c', mem, va, a);
    ScanRises(c.pmp, c.mpp, t.paddr, n, a);
    if c.mode < 8 {
      Untranslated(c, mem, va, a);
    }
  }

  /** The mode mpp reaches all data M reaches, at the same addresses. */
  ghost predicate Granted(c: Config, mem: seq<nat>, mpp: nat) {
    forall va: nat, n: nat, a: Access {:trigger Resolve(c, mem, va, n, a)} ::
      a != Code && InPage(va, n) && Resolve(c, mem, va, n, a).Host? ==>
        Walk(c.(mpp := mpp), mem, va, a) == Paddr(va) && PmpScan(c.pmp, mpp, va, n, a)
  }

  /** A return from M to M under MPRV spoils nothing if and only if the mode MPP falls to reaches what M reached. */
  lemma MretKeeps(c: Config, mem: seq<nat>, mpp: nat)
    requires c.mprv && c.priv == PrvM && c.mpp == PrvM && mpp < PrvM
    ensures Keeps(c, mem, c.(mpp := mpp), mem) <==> Granted(c, mem, mpp)
  {
    hide Resolve, PmpScan, Walk;
    forall va: nat, n: nat, a: Access {:trigger Resolve(c, mem, va, n, a)} | InPage(va, n) && Resolve(c, mem, va, n, a).Host?
      ensures Resolve(c.(mpp := mpp), mem, va, n, a) == Resolve(c, mem, va, n, a) <==>
                a == Code || (Walk(c.(mpp := mpp), mem, va, a) == Paddr(va) && PmpScan(c.pmp, mpp, va, n, a))
    {
      if a == Code {
        FetchIgnoresMpp(c, mem, va, n, mpp);
      } else {
        FallAt(c, mem, va, n, a, mpp);
      }
    }
    if Keeps(c, mem, c.(mpp := mpp), mem) {
      forall va: nat, n: nat, a: Access {:trigger Resolve(c, mem, va, n, a)} |
        a != Code && InPage(va, n) && Resolve(c, mem, va, n, a).Host?
        ensures Walk(c.(mpp := mpp), mem, va, a) == Paddr(va) && PmpScan(c.pmp, mpp, va, n, a)
      {
        assert Resolve(c.(mpp := mpp), mem, va, n, a) == Resolve(c, mem, va, n, a);
      }
    }
  }

  lemma FallAt(c: Config, mem: seq<nat>, va: nat, n: nat, a: Access, mpp: nat)
    requires c.mprv && c.mpp == PrvM && a != Code && Resolve(c, mem, va, n, a).Host?
    ensures Resolve(c.(mpp := mpp), mem, va, n, a) == Resolve(c, mem, va, n, a) <==>
              Walk(c.(mpp := mpp), mem, va, a) == Paddr(va) && PmpScan(c.pmp, mpp, va, n, a)
  {
    hide Walk, PmpScan, Lookup, Resolve;
    var t, c' := Resolve(c, mem, va, n, a), c.(mpp := mpp);
    ResolveParts(c, mem, va, n, a, t.ptr, t.paddr);
    ResolveParts(c', mem, va, n, a, t.ptr, t.paddr);
    Untranslated(c, mem, va, a);
  }

  // ---- Runs that fence every change that spoils something ----

  /** All translations in use are right. */
  ghost predicate AllRight(s: Plain) {
    forall u :: u in s.held ==> Agrees(s.c, s.mem, u.e, u.a)
  }

  /** Is nothing spoilt after the operation? A flush settles everything. */
  ghost predicate RightAfter(s: Plain, right: bool, op: Op)
    requires Legal(op, |s.mem|)
  {
    Flushes(s.c, op) || (right && Keeps(s.c, s.mem, PlainStep(s, op).0.c, PlainStep(s, op).0.mem))
  }

  /** No access comes between a change that spoils something and the next flush. */
  ghost predicate RunSettled(s: Plain, right: bool, ops: seq<Op>)
    requires forall i :: 0 <= i < |ops| ==> Legal(ops[i], |s.mem|)
    decreases |ops|
  {
    ops == [] ||
    ((ops[0].Load? || ops[0].Store? || ops[0].Fetch? ==> right)
     && RunSettled(PlainStep(s, ops[0]).0, RightAfter(s, right, ops[0]), ops[1..]))
  }

  /** Such a run is fenced, so that its replies are those of a hart without TLBs. */
  lemma {:induction false} SettledIsFenced(s: Plain, right: bool, ops: seq<Op>)
    requires forall i :: 0 <= i < |ops| ==> Legal(ops[i], |s.mem|)
    requires Granular(s.c) && Backed(s.c.ranges, |s.mem|) && (right ==> AllRight(s)) && RunSettled(s, right, ops)
    ensures RunFenced(s, ops)
    decreases |ops|
  {
    hide Granular, Backed, AllRight, RightAfter, PlainStep, Legal, Fenced;
    if ops != [] {
      var op, next := ops[0], PlainStep(s, ops[0]).0;
      StepGranular(s, op);
      AccessFenced(s, op, right);
      if RightAfter(s, right, op) {
        StepRight(s, right, op);
      }
      SettledIsFenced(next, RightAfter(s, right, op), ops[1..]);
    }
  }

  lemma StepGranular(s: Plain, op: Op)
    requires Legal(op, |s.mem|) && Granular(s.c) && Backed(s.c.ranges, |s.mem|)
    ensures var r := PlainStep(s, op).0; Granular(r.c) && Backed(r.c.ranges, |r.mem|)
  {
    hide Resolve, Fresh, StoreReply, LoadReply, FetchReply;
  }

  lemma AccessFenced(s: Plain, op: Op, right: bool)
    requires (right ==> AllRight(s)) && (op.Load? || op.Store? || op.Fetch? ==> right)
    ensures Fenced(s, op)
  {
    hide Agrees;
  }

  lemma StepRight(s: Plain, right: bool, op: Op)
    requires Legal(op, |s.mem|) && Granular(s.c) && Backed(s.c.ranges, |s.mem|) && (right ==> AllRight(s))
    requires RightAfter(s, right, op)
    ensures AllRight(PlainStep(s, op).0)
  {
    hide Agrees, Keeps, Granular, Backed, Answered, Reconfigured, Flushes, Used;
    var next := PlainStep(s, op).0;
    if !Flushes(s.c, op) {
      forall u | u in next.held ensures Agrees(next.c, next.mem, u.e, u.a) {
        if u in Used(s.c, s.mem, op) {
          UsedRight(s.c, s.mem, op, u);
        }
        KeepsRight(s.c, s.mem, next.c, next.mem, u.e, u.a);
      }
    }
  }

  lemma UsedRight(c: Config, mem: seq<nat>, op: Op, u: Use)
    requires Legal(op, |mem|) && Granular(c) && Backed(c.ranges, |mem|) && u in Used(c, mem, op)
    ensures Agrees(c, mem, u.e, u.a)
  {
    hide Resolve, Granular, Backed, Agrees, PmpOk;
    match op
    case Load(va, size) =>
      AlignedInPage(va, size);
      FreshRight(c, mem, va, size, Read, u);
    case Store(va, size, _) =>
      AlignedInPage(va, size);
      FreshRight(c, mem, va, size, Write, u);
    case Fetch(va) =>
      AlignedInPage(va, 2);
      FreshRight(c, mem, va, 2, Code, u);
    case _ =>
  }

  lemma FreshRight(c: Config, mem: seq<nat>, va: nat, n: nat, a: Access, u: Use)
    requires Granular(c) && Backed(c.ranges, |mem|) && InPage(va, n) && u in Fresh(c, mem, va, n, a)
    ensures Agrees(c, mem, u.e, u.a)
  {
    hide Resolve, Granular, Backed, Agrees, PmpOk;
    var t := Resolve(c, mem, va, n, a);
    NewEntry(c, mem, va, n, a, t.ptr, t.paddr, |mem|, u.e);
  }

  // ---- Harts that run into it ----

  /**
   * With MPRV set and MPP at M, a load, an mret from M to M, and the same load again, which
   * still answers where a walk now faults.
   */
  method MprvStale(mem: array<nat>) returns (t: Hart, before: Reply, after: Reply)
    requires mem.Length == PageSize
    ensures t.Valid() && t.Config().mprv && !StillRight(t.Config(), mem[..], t.held, 0, Read) && mem[..] == old(mem[..])
    ensures before == after == Value(Bytes(mem[..], 0, 1))
    ensures LoadReply(t.Config(), mem[..], 0, 1) == Raised(AccessFaultCause, 0)
  {
    hide Resolve, StillRight, AllHeld, AllPlaced, Granular, Bytes, Fresh;
    var ranges := [Range(0, PageSize, true, 0)];
    t := new Hart(ranges, 12, mem);
    t.SetMstatus(true, PrvM, false, false);
    BarePage(t.Config(), mem[..]);
    assert t.tlbRead[0].vaddr == -1;
    before := t.TargetRead(0, 1);
    assert t.tlbRead[..][0] == Entry(0, 0, 0);
    t.Mret();
    BarePage(t.Config(), mem[..]);
    ghost var held := t.held;
    after := t.TargetRead(0, 1);
    LessRight(t.Config(), mem[..], held, t.held, 0, Read);
  }

  lemma LessRight(c: Config, mem: seq<nat>, held: iset<Use>, more: iset<Use>, va: nat, a: Access)
    requires held <= more && !StillRight(c, mem, held, va, a)
    ensures !StillRight(c, mem, more, va, a)
  {
    hide Agrees;
  }

  /** One page of RAM, untranslated and unprotected: M may use it, U may not. */
  lemma BarePage(c: Config, mem: seq<nat>)
    requires c.ranges == [Range(0, PageSize, true, 0)] && c.mprv && c.mode == 0 && c.pmp == [] && c.pal == 12
    ensures Resolve(c, mem, 0, 1, Read) == if c.mpp == PrvM then Host(0, 0) else AccessFaulted
  {
    assert Lookup(c.ranges, 0) == Some(c.ranges[0]);
  }

  const Giga: nat := 0x4000_0000

  /** The first gigabyte is mapped to the second, for supervisor reads. */
  ghost predicate MapsUp(mem: seq<nat>) {
    |mem| == 2 * PageSize && mem[..8] == [0x43, 0, 0, 0x10, 0, 0, 0, 0]
  }

  /**
   * With MPRV set, MPP at S and a page table, a load, a trap from M to M, and the same load
   * again, which still answers from the translated page where M reads untranslated.
   */
  method TrapStale(mem: array<nat>) returns (t: Hart, before: Reply, after: Reply)
    requires MapsUp(mem[..])
    ensures t.Valid() && t.Config().mprv && !StillRight(t.Config(), mem[..], t.held, 0, Read) && mem[..] == old(mem[..])
    ensures before == after == Value(mem[PageSize])
    ensures LoadReply(t.Config(), mem[..], 0, 1) == Value(0x43)
    ensures mem[PageSize] != 0x43 ==> after != LoadReply(t.Config(), mem[..], 0, 1)
  {
    hide Resolve, StillRight, AllHeld, AllPlaced, Granular, Bytes, Fresh;
    var ranges := [Range(0, PageSize, true, 0), Range(Giga, PageSize, true, PageSize)];
    t := new Hart(ranges, 40, mem);
    t.SetMstatus(true, PrvS, false, false);
    t.WriteSatp(8, 0);
    t.WritePmp([PmpRange(0, 2 * Giga, 1)]);
    UpPage(t.Config(), mem[..]);
    assert t.tlbRead[0].vaddr == -1;
    before := t.TargetRead(0, 1);
    assert t.tlbRead[..][0] == Entry(0, PageSize, Giga);
    t.TrapToM();
    UpPage(t.Config(), mem[..]);
    after := t.TargetRead(0, 1);
    OneByte(mem[..], PageSize);
    OneByte(mem[..], 0);
    HeldSpoilt(t.Config(), mem[..], t.tlbRead[..], t.held);
  }

  lemma HeldSpoilt(c: Config, mem: seq<nat>, tlb: seq<Entry>, held: iset<Use>)
    requires |tlb| > 0 && AllHeld(tlb, Read, held) && tlb[0] == Entry(0, PageSize, Giga)
    requires Resolve(c, mem, 0, 1, Read) == Host(0, 0)
    ensures !StillRight(c, mem, held, 0, Read)
  {
    hide Resolve;
    assert Use(Read, tlb[0]) in held;
    FirstByte(0);
  }

  lemma OneByte(mem: seq<nat>, i: nat)
    requires i < |mem|
    ensures Bytes(mem, i, 1) == mem[i]
  {
    assert Bytes(mem, i + 1, 0) == 0;
  }

  ghost predicate UpConfig(c: Config) {
    && c.ranges == [Range(0, PageSize, true, 0), Range(Giga, PageSize, true, PageSize)]
    && c.mprv && c.mode == 8 && c.root == 0 && c.pmp == [PmpRange(0, 2 * Giga, 1)] && c.pal == 40
  }

  lemma UpPage(c: Config, mem: seq<nat>)
    requires UpConfig(c) && MapsUp(mem)
    ensures c.mpp == PrvM ==> Resolve(c, mem, 0, 1, Read) == Host(0, 0)
    ensures c.mpp == PrvS ==> Resolve(c, mem, 0, 1, Read) == Host(PageSize, Giga)
  {
    hide Pow2, Lookup, WalkFrom, PmpOk;
    UpLookup(c.ranges);
    if c.mpp == PrvM {
      UpAllowed(c, 0, 1);
    }
    if c.mpp == PrvS {
      UpAllowed(c, Giga, 1);
      UpCanonical();
      UpWalk(c, mem);
    }
  }

  lemma UpLookup(rs: seq<Range>)
    requires rs == [Range(0, PageSize, true, 0), Range(Giga, PageSize, true, PageSize)]
    ensures Lookup(rs, 0) == Some(rs[0]) && Lookup(rs, Giga) == Some(rs[1])
  {
    assert rs[..1] == [rs[0]];
  }

  lemma UpPowers()
    ensures Pow2(30) == Giga && Pow2(38) == 256 * Giga && Pow2(40) == 1024 * Giga
  {
    assert Pow2(2) == 4 && Pow2(8) == 256 && Pow2(10) == 1024;
    Pow2Add(10, 10);
    Pow2Add(20, 10);
    Pow2Add(30, 8);
    Pow2Add(30, 10);
  }

  lemma UpCanonical()
    ensures Canonical(0, 3)
  {
    hide Pow2;
    UpPowers();
  }

  lemma UpAllowed(c: Config, p: nat, n: nat)
    requires UpConfig(c) && (p == 0 || p == Giga) && 1 <= n <= 8 && (c.mpp == PrvM || c.mpp == PrvS)
    ensures PmpOk(c, p, n, Read)
  {
    hide Pow2, BitOf;
    UpPowers();
    OneBits();
    DivModUnique(p, 1024 * Giga, 0, p);
  }

  lemma OneBits()
    ensures BitOf(1, 0) && !BitOf(1, 7)
  {
    assert Pow2(0) == 1 && Pow2(7) == 128;
  }

  lemma UpEntry(mem: seq<nat>)
    requires MapsUp(mem)
    ensures Bytes(mem, 0, 8) == 0x1000_0043
  {
    hide Bytes;
    forall k | 0 <= k < 8 ensures ByteAt(mem, k) == mem[..8][k] {
    }
    BytesStep(mem, 7);
    BytesStep(mem, 6);
    BytesStep(mem, 5);
    BytesStep(mem, 4);
    BytesStep(mem, 3);
    BytesStep(mem, 2);
    BytesStep(mem, 1);
    BytesStep(mem, 0);
    BytesNone(mem, 8);
  }

  lemma BytesStep(mem: seq<nat>, k: nat)
    requires k < 8
    ensures Bytes(mem, k, 8 - k) == ByteAt(mem, k) + 256 * Bytes(mem, k + 1, 7 - k)
  {
  }

  lemma BytesNone(mem: seq<nat>, k: nat)
    ensures Bytes(mem, k, 0) == 0
  {
  }

  lemma UpLeaf(c: Config)
    requires c.mprv && c.mpp == PrvS
    ensures Decide(c, 0x1000_0043, Read, PrvS, 2) == Leaf(Giga)
  {
    assert Pow2(0) == 1 && Pow2(2) == 4 && Pow2(4) == 16 && Pow2(6) == 64;
    assert BitOf(1, 0);
  }

  lemma UpWalk(c: Config, mem: seq<nat>)
    requires UpConfig(c) && MapsUp(mem) && c.mpp == PrvS
    ensures WalkFrom(c, mem, 0, Read, PrvS, 0, 2) == Paddr(Giga)
  {
    hide Pow2, PmpOk, Lookup, Decide, Bytes;
    UpPowers();
    UpAllowed(c, 0, 8);
    UpLookup(c.ranges);
    UpEntry(mem);
    UpLeaf(c);
    assert ReadPte(c, mem, 0) == Some(0x1000_0043);
  }
}
