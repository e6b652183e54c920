/**
 * What an address means to a hart without any TLB: the page-table walk, the physical memory
 * protection check, and the lookup of the memory range. All three are uniform over a page.
 */
module PageWalk {
  import opened Powers
  import opened Wrappers

  const PageSize: nat := 4096
  const WordLimit: nat := 0x1_0000_0000_0000_0000

  datatype Access = Read | Write | Code

  /** A decoded PMP entry: the interval [lo, hi) and its configuration byte. */
  datatype PmpRange = PmpRange(lo: nat, hi: nat, cfg: nat)

  /** A memory range; size is orgSize, or 0 while disabled; host is where its bytes live. */
  datatype Range = Range(addr: nat, size: nat, isRam: bool, host: nat)

  /** Everything but memory that translation depends on. */
  datatype Config = Config(
    priv: nat, mprv: bool, mpp: nat, sum: bool, mxr: bool,
    mode: nat, root: nat, pmp: seq<PmpRange>, pal: nat, ranges: seq<Range>)

  const PrvS: nat := 1
  const PrvM: nat := 3

  function BitOf(w: nat, k: nat): bool { w / Pow2(k) % 2 == 1 }

  function PermBit(a: Access): nat {
    match a case Read => 0 case Write => 1 case Code => 2
  }

  function EffectivePriv(c: Config, a: Access): nat {
    if c.mprv && a != Code then c.mpp else c.priv
  }

  // ---- Physical memory protection ----

  function PmpScan(rs: seq<PmpRange>, priv: nat, paddr: nat, size: nat, a: Access): bool {
    if rs == [] then priv == PrvM
    else if rs[0].lo < paddr + size && paddr < rs[0].hi then
      (if priv < PrvM || BitOf(rs[0].cfg, 7) then BitOf(rs[0].cfg, PermBit(a)) else true)
    else PmpScan(rs[1..], priv, paddr, size, a)
  }

  function PmpOk(c: Config, paddr: nat, size: nat, a: Access): bool {
    paddr / Pow2(c.pal) == 0 && PmpScan(c.pmp, EffectivePriv(c, a), paddr, size, a)
  }

  // ---- Memory ranges ----

  function Lookup(map_: seq<Range>, paddr: nat): Option<Range> {
    if map_ == [] then None
    else
      var r := map_[|map_| - 1];
      if r.addr <= paddr < r.addr + r.size then Some(r) else Lookup(map_[..|map_| - 1], paddr)
  }

  // ---- The walk ----

  datatype Outcome = Paddr(p: int) | PageFault | AccessFault

  function ByteAt(mem: seq<nat>, i: nat): nat { if i < |mem| then mem[i] else 0 }

  function Bytes(mem: seq<nat>, at: nat, n: nat): nat
    decreases n
  {
    if n == 0 then 0 else ByteAt(mem, at) + 256 * Bytes(mem, at + 1, n - 1)
  }

  /** riscv_phys_read_u64, which here serves page-table entries that lie in RAM only. */
  function ReadPte(c: Config, mem: seq<nat>, paddr: nat): Option<nat> {
    if !PmpOk(c, paddr, 8, Read) then None
    else
      match Lookup(c.ranges, paddr)
      case None => None
      case Some(r) => if r.isRam && r.addr <= paddr then Some(Bytes(mem, r.host + (paddr - r.addr), 8)) else None
  }

  function Canonical(va: nat, levels: nat): bool {
    va < Pow2(11 + 9 * levels) || va + Pow2(11 + 9 * levels) >= WordLimit
  }

  /** May a leaf with these bits be used for this access? */
  function LeafAllowed(c: Config, pte: nat, priv: nat, a: Access): bool {
    var xwr := pte / 2 % 8;
    var user := BitOf(pte, 4);
    && xwr != 2 && xwr != 6
    && (if priv == PrvS then user ==> c.sum else user)
    && BitOf(if c.mxr && xwr >= 4 && xwr % 2 == 0 then xwr + 1 else xwr, PermBit(a))
  }

  datatype Level = Fault | Next(table: nat) | Leaf(frame: nat)

  /** What a page-table entry says with j levels below it. Superpage alignment tests j bits. */
  function Decide(c: Config, pte: nat, a: Access, priv: nat, j: nat): Level {
    var paddr := pte / 1024 * 4096 % WordLimit;
    if !BitOf(pte, 0) then Fault
    else if pte / 2 % 8 == 0 then
      if j == 0 then Fault else Next(paddr)
    else if !LeafAllowed(c, pte, priv, a) then Fault
    else if pte / 1024 % Pow2(j) != 0 then Fault
    else if !BitOf(pte, 6) || (a == Write && !BitOf(pte, 7)) then Fault
    else Leaf(paddr)
  }

  /**
   * Sv39 asks that all 9 * j low bits of a superpage's page number be clear. The j bits the
   * code tests decide that exactly when one of them is set or the others are clear too.
   */
  lemma SuperpageTest(ppn: nat, j: nat)
    ensures Pow2(j) > 0 && Pow2(8 * j) > 0 && Pow2(9 * j) > 0
    ensures (ppn % Pow2(j) == 0 <==> ppn % Pow2(9 * j) == 0)
            <==> ppn % Pow2(j) != 0 || ppn / Pow2(j) % Pow2(8 * j) == 0
  {
    Pow2Add(j, 8 * j);
    ModProduct(ppn, Pow2(j), Pow2(8 * j));
  }

  lemma ModProduct(x: nat, a: nat, b: nat)
    requires a > 0 && b > 0
    ensures a * b > 0
    ensures x % (a * b) == 0 <==> x % a == 0 && x / a % b == 0
  {
    hide *;
    var q, r := x / a, x % a;
    var p, s := q / b, q % b;
    Nested(x, a, b, q, r, p, s);
    NestedRest(x, a, a * b, p, s * a, r, s);
  }

  lemma Nested(x: nat, a: nat, b: nat, q: nat, r: nat, p: nat, s: nat)
    requires a > 0 && x == a * q + r && q == b * p + s && s < b
    ensures a * b > 0 && x == p * (a * b) + (s * a + r)
    ensures s * a + a <= a * b && (s > 0 ==> s * a >= a) && (s == 0 ==> s * a == 0)
  {
    hide *;
    Distribute(a, b, p, s);
    MulMono(s + 1, b, a);
    if s > 0 {
      MulMono(1, s, a);
    }
  }

  lemma NestedRest(x: nat, a: nat, m: nat, p: nat, t: nat, r: nat, s: nat)
    requires m > 0 && x == p * m + (t + r) && r < a && t + a <= m && (s > 0 ==> t >= a) && (s == 0 ==> t == 0)
    ensures x % m == 0 <==> r == 0 && s == 0
  {
    hide *;
    DivModUnique(x, m, p, t + r);
  }

  lemma Distribute(a: nat, b: nat, p: nat, s: nat)
    ensures a * (b * p + s) == p * (a * b) + s * a
    ensures (s + 1) * a == s * a + a && b * a == a * b
  {
  }

  /** A misaligned superpage that the code accepts: page number 2, one level up. */
  lemma MisalignedAccepted(c: Config)
    ensures Decide(c, 2 * 1024 + 0x43, Read, PrvS, 1) == Leaf(2 * PageSize) && 2 % Pow2(9) != 0
  {
    assert Pow2(1) == 2 && Pow2(6) == 64 && Pow2(7) == 128 && Pow2(4) == 16 && Pow2(0) == 1;
    assert Pow2(9) == 512;
  }

  function Merge(frame: nat, va: nat, span: nat): int
    requires span > 0
  {
    frame - frame % span + va % span
  }

  function WalkFrom(c: Config, mem: seq<nat>, va: nat, a: Access, priv: nat, table: nat, j: nat): Outcome
    decreases j
  {
    var span := Pow2(12 + 9 * j);
    match ReadPte(c, mem, table + va / span % 512 * 8)
    case None => AccessFault
    case Some(pte) =>
      match Decide(c, pte, a, priv, j)
      case Fault => PageFault
      case Leaf(frame) => Paddr(Merge(frame, va, span))
      case Next(next) => if j == 0 then PageFault else WalkFrom(c, mem, va, a, priv, next, j - 1)
  }

  /** satp holds no other modes than 0 (bare), 8 (Sv39) and 9 (Sv48). */
  function Walk(c: Config, mem: seq<nat>, va: nat, a: Access): Outcome {
    var priv := EffectivePriv(c, a);
    if priv == PrvM || c.mode < 8 then Paddr(va)
    else
      var levels := c.mode - 8 + 3;
      if !Canonical(va, levels) then PageFault
      else WalkFrom(c, mem, va, a, priv, c.root * PageSize, levels - 1)
  }

  // ---- The walk of the privileged architecture ----

  /** Readable, writable, executable, for user mode: the bits of an entry. */
  predicate SpecAllows(c: Config, pte: nat, priv: nat, a: Access) {
    && (if BitOf(pte, 4) then priv != PrvS || (c.sum && a != Code) else priv == PrvS)
    && match a
       case Read => BitOf(pte, 1) || (c.mxr && BitOf(pte, 3))
       case Write => BitOf(pte, 2)
       case Code => BitOf(pte, 3)
  }

  /**
   * Section 4.3.2 of the RISC-V privileged architecture, with accessed and dirty bits left to
   * software. Supervisor code is never fetched from user pages, and a superpage is aligned.
   */
  function SpecDecide(c: Config, pte: nat, a: Access, priv: nat, j: nat): Level {
    var paddr := pte / 1024 * 4096 % WordLimit;
    if !BitOf(pte, 0) || (BitOf(pte, 2) && !BitOf(pte, 1)) then Fault
    else if !BitOf(pte, 1) && !BitOf(pte, 3) then
      if j == 0 then Fault else Next(paddr)
    else if !SpecAllows(c, pte, priv, a) then Fault
    else if pte / 1024 % Pow2(9 * j) != 0 then Fault
    else if !BitOf(pte, 6) || (a == Write && !BitOf(pte, 7)) then Fault
    else Leaf(paddr)
  }

  function SpecWalkFrom(c: Config, mem: seq<nat>, va: nat, a: Access, priv: nat, table: nat, j: nat): Outcome
    decreases j
  {
    var span := Pow2(12 + 9 * j);
    match ReadPte(c, mem, table + va / span % 512 * 8)
    case None => AccessFault
    case Some(pte) =>
      match SpecDecide(c, pte, a, priv, j)
      case Fault => PageFault
      case Leaf(frame) => Paddr(Merge(frame, va, span))
      case Next(next) => if j == 0 then PageFault else SpecWalkFrom(c, mem, va, a, priv, next, j - 1)
  }

  function SpecWalk(c: Config, mem: seq<nat>, va: nat, a: Access): Outcome {
    var priv := EffectivePriv(c, a);
    if priv == PrvM || c.mode < 8 then Paddr(va)
    else
      var levels := c.mode - 8 + 3;
      if !Canonical(va, levels) then PageFault
      else SpecWalkFrom(c, mem, va, a, priv, c.root * PageSize, levels - 1)
  }

  /** A leaf the architecture refuses: a misaligned superpage, or a user page to fetch supervisor code from. */
  predicate Irregular(pte: nat, a: Access, priv: nat, j: nat) {
    pte / 1024 % Pow2(9 * j) != 0 || (BitOf(pte, 4) && priv == PrvS && a == Code)
  }

  /** The walk accepts an irregular leaf. */
  predicate AstrayFrom(c: Config, mem: seq<nat>, va: nat, a: Access, priv: nat, table: nat, j: nat)
    decreases j
  {
    match ReadPte(c, mem, table + va / Pow2(12 + 9 * j) % 512 * 8)
    case None => false
    case Some(pte) =>
      match Decide(c, pte, a, priv, j)
      case Fault => false
      case Leaf(_) => Irregular(pte, a, priv, j)
      case Next(next) => j > 0 && AstrayFrom(c, mem, va, a, priv, next, j - 1)
  }

  predicate Astray(c: Config, mem: seq<nat>, va: nat, a: Access) {
    var priv := EffectivePriv(c, a);
    && priv != PrvM && c.mode >= 8 && Canonical(va, c.mode - 8 + 3)
    && AstrayFrom(c, mem, va, a, priv, c.root * PageSize, c.mode - 8 + 2)
  }

  lemma LeafBits(pte: nat)
    ensures var xwr := pte / 2 % 8;
            && (BitOf(pte, 1) <==> xwr % 2 == 1)
            && (BitOf(pte, 2) <==> xwr / 2 % 2 == 1)
            && (BitOf(pte, 3) <==> xwr / 4 == 1)
  {
    hide *;
    BitIs(pte, 1, 2);
    BitIs(pte, 2, 4);
    BitIs(pte, 3, 8);
    FieldBits(pte);
  }

  lemma BitIs(w: nat, k: nat, p: nat)
    requires p > 0 && k <= 3 && p == (if k == 0 then 1 else if k == 1 then 2 else if k == 2 then 4 else 8)
    ensures BitOf(w, k) <==> w / p % 2 == 1
  {
    assert Pow2(0) == 1 && Pow2(1) == 2 && Pow2(2) == 4 && Pow2(3) == 8;
  }

  lemma FieldBits(w: nat)
    ensures w / 2 % 8 % 2 == w / 2 % 2 && w / 2 % 8 / 2 % 2 == w / 4 % 2 && w / 2 % 8 / 4 == w / 8 % 2
  {
    var y := w / 2;
    Octal(y / 8, y % 8, y);
    DivModUnique(w, 4, y / 2, y % 2 * 2 + w % 2);
    DivModUnique(w, 8, y / 4, y % 4 * 2 + w % 2);
  }

  lemma Octal(q: nat, r: nat, y: nat)
    requires r < 8 && y == 8 * q + r
    ensures y % 2 == r % 2 && y / 2 % 2 == r / 2 % 2 && y / 4 % 2 == r / 4
  {
    DivModUnique(y, 2, 4 * q + r / 2, r % 2);
    DivModUnique(4 * q + r / 2, 2, 2 * q + r / 4, r / 2 % 2);
    DivModUnique(y, 4, 2 * q + r / 4, r % 4);
    DivModUnique(2 * q + r / 4, 2, q, r / 4);
  }

  lemma LowBits(x: nat, a: Access)
    requires x < 8
    ensures BitOf(x, PermBit(a)) <==> match a case Read => x % 2 == 1 case Write => x / 2 % 2 == 1 case Code => x / 4 == 1
  {
    hide BitOf;
    BitIs(x, PermBit(a), match a case Read => 1 case Write => 2 case Code => 4);
  }

  lemma AllowedIsSpec(c: Config, pte: nat, priv: nat, a: Access)
    ensures LeafAllowed(c, pte, priv, a)
       <==> !(BitOf(pte, 2) && !BitOf(pte, 1)) &&
            (SpecAllows(c, pte, priv, a) || (LeafAllowed(c, pte, priv, a) && BitOf(pte, 4) && priv == PrvS && a == Code))
    ensures SpecAllows(c, pte, priv, a) ==> !(BitOf(pte, 4) && priv == PrvS && a == Code)
  {
    hide BitOf;
    var xwr := pte / 2 % 8;
    LeafBits(pte);
    LowBits(if c.mxr && xwr >= 4 && xwr % 2 == 0 then xwr + 1 else xwr, a);
  }

  lemma AlignedTests(ppn: nat, j: nat)
    ensures Pow2(j) > 0 && Pow2(9 * j) > 0
    ensures ppn % Pow2(9 * j) == 0 ==> ppn % Pow2(j) == 0
  {
    hide *;
    Pow2Add(j, 8 * j);
    ModProduct(ppn, Pow2(j), Pow2(8 * j));
  }

  lemma DecideIsSpec(c: Config, pte: nat, a: Access, priv: nat, j: nat)
    ensures SpecDecide(c, pte, a, priv, j)
         == if Decide(c, pte, a, priv, j).Leaf? && Irregular(pte, a, priv, j) then Fault else Decide(c, pte, a, priv, j)
  {
    hide BitOf, LeafAllowed, SpecAllows, Pow2;
    LeafBits(pte);
    AllowedIsSpec(c, pte, priv, a);
    AlignedTests(pte / 1024, j);
  }

  lemma {:induction false} WalkFromIsSpec(c: Config, mem: seq<nat>, va: nat, a: Access, priv: nat, table: nat, j: nat)
    ensures var o, astray := WalkFrom(c, mem, va, a, priv, table, j), AstrayFrom(c, mem, va, a, priv, table, j);
            && (astray ==> o.Paddr?)
            && SpecWalkFrom(c, mem, va, a, priv, table, j) == if astray then PageFault else o
    decreases j
  {
    hide Decide, SpecDecide, Irregular, ReadPte, Pow2, Merge, Bytes;
    var pte := ReadPte(c, mem, table + va / Pow2(12 + 9 * j) % 512 * 8);
    if pte.Some? {
      DecideIsSpec(c, pte.value, a, priv, j);
      var level := Decide(c, pte.value, a, priv, j);
      if level.Next? && j > 0 {
        WalkFromIsSpec(c, mem, va, a, priv, level.table, j - 1);
      }
    }
  }

  /**
   * The walk is the architecture's if and only if the leaf it accepts, if any, is regular;
   * where it is not, the architecture faults and the code translates.
   */
  lemma WalkIsSpec(c: Config, mem: seq<nat>, va: nat, a: Access)
    ensures SpecWalk(c, mem, va, a) == Walk(c, mem, va, a) <==> !Astray(c, mem, va, a)
    ensures Astray(c, mem, va, a) ==> SpecWalk(c, mem, va, a) == PageFault && Walk(c, mem, va, a).Paddr?
  {
    hide Canonical, AstrayFrom, WalkFrom, SpecWalkFrom;
    if EffectivePriv(c, a) != PrvM && c.mode >= 8 {
      WalkFromIsSpec(c, mem, va, a, EffectivePriv(c, a), c.root * PageSize, c.mode - 8 + 2);
    }
  }

  /** With SUM set the code lets supervisor mode fetch from a user page. */
  lemma UserCodeAccepted(c: Config)
    requires c.sum
    ensures Decide(c, 0x5B, Code, PrvS, 0).Leaf? && SpecDecide(c, 0x5B, Code, PrvS, 0) == Fault
  {
    assert Pow2(0) == 1 && Pow2(1) == 2 && Pow2(2) == 4 && Pow2(3) == 8 && Pow2(4) == 16 && Pow2(6) == 64;
    assert BitOf(0x5B, 4) && BitOf(0x5B, 0) && BitOf(0x5B, 6);
    assert 0x5B / 2 % 8 == 5 && BitOf(5, 2);
  }

  // ---- What an access reaches ----

  datatype Target =
    | Host(ptr: int, paddr: int)  // a byte of RAM
    | Device(paddr: int)
    | Nowhere(paddr: int)         // no range: left to the device under test
    | PageFaulted
    | AccessFaulted

  function Resolve(c: Config, mem: seq<nat>, va: nat, size: nat, a: Access): Target {
    match Walk(c, mem, va, a)
    case PageFault => PageFaulted
    case AccessFault => AccessFaulted
    case Paddr(p) =>
      if p < 0 || !PmpOk(c, p, size, a) then AccessFaulted
      else
        match Lookup(c.ranges, p)
        case None => Nowhere(p)
        case Some(r) => if r.isRam then Host(r.host + (p - r.addr), p) else Device(p)
  }

  // ---- Uniformity over a page ----

  /** PMP entries and memory ranges that begin and end at page boundaries. */
  ghost predicate Granular(c: Config) {
    && c.pal >= 12
    && (forall i :: 0 <= i < |c.pmp| ==> c.pmp[i].lo % PageSize == 0 && c.pmp[i].hi % PageSize == 0)
    && (forall i :: 0 <= i < |c.ranges| ==> c.ranges[i].addr % PageSize == 0 && c.ranges[i].size % PageSize == 0)
  }

  predicate SamePage(x: nat, y: nat) { x / PageSize == y / PageSize }

  predicate InPage(x: nat, size: nat) { size > 0 && x % PageSize + size <= PageSize }

  lemma {:induction false} PmpScanUniform(rs: seq<PmpRange>, priv: nat, x: nat, n: nat, y: nat, k: nat, a: Access)
    requires forall i :: 0 <= i < |rs| ==> rs[i].lo % PageSize == 0 && rs[i].hi % PageSize == 0
    requires SamePage(x, y) && InPage(x, n) && InPage(y, k)
    ensures PmpScan(rs, priv, x, n, a) == PmpScan(rs, priv, y, k, a)
  {
    if rs != [] {
      PageBound(rs[0].lo, x, n, y, k);
      PageBound(rs[0].hi, x, n, y, k);
      PmpScanUniform(rs[1..], priv, x, n, y, k, a);
    }
  }

  /** A page boundary has a whole page on one side of it. */
  lemma PageBound(b: nat, x: nat, n: nat, y: nat, k: nat)
    requires b % PageSize == 0 && SamePage(x, y) && InPage(x, n) && InPage(y, k)
    ensures (b < x + n) == (b < y + k) == (b <= x) == (b <= y)
  {
  }

  lemma {:induction false} LookupUniform(map_: seq<Range>, x: nat, y: nat)
    requires forall i :: 0 <= i < |map_| ==> map_[i].addr % PageSize == 0 && map_[i].size % PageSize == 0
    requires SamePage(x, y)
    ensures Lookup(map_, x) == Lookup(map_, y)
  {
    if map_ != [] {
      var r := map_[|map_| - 1];
      BoundAligned(r.addr, r.size);
      PageSide(r.addr, x, y);
      PageSide(r.addr + r.size, x, y);
      LookupUniform(map_[..|map_| - 1], x, y);
    }
  }

  lemma BoundAligned(a: nat, b: nat)
    requires a % PageSize == 0 && b % PageSize == 0
    ensures (a + b) % PageSize == 0
  {
  }

  lemma PageSide(b: nat, x: nat, y: nat)
    requires b % PageSize == 0 && SamePage(x, y)
    ensures (b <= x) == (b <= y)
  {
  }

  lemma LookupFinds(map_: seq<Range>, x: nat)
    ensures match Lookup(map_, x)
            case None => true
            case Some(r) => r in map_ && r.addr <= x < r.addr + r.size
  {
  }

  lemma DivSame(x: nat, y: nat, k: nat)
    requires SamePage(x, y)
    ensures x / Pow2(12 + k) == y / Pow2(12 + k)
    ensures x % Pow2(12 + k) - x == y % Pow2(12 + k) - y
  {
    hide *;
    TwelveSplit(k);
    DivTwice(x, Pow2(k));
    DivTwice(y, Pow2(k));
    SamePageDef(x, y);
    ModDiv(x, Pow2(12 + k));
    ModDiv(y, Pow2(12 + k));
  }

  lemma SamePageDef(x: nat, y: nat)
    ensures SamePage(x, y) <==> x / 4096 == y / 4096
  {
  }

  lemma TwelveSplit(k: nat)
    ensures Pow2(12 + k) == 4096 * Pow2(k)
  {
    Pow2Add(12, k);
    assert Pow2(12) == 4096 by {
      assert Pow2(4) == 16;
      Pow2Add(4, 4);
      Pow2Add(8, 4);
    }
  }

  lemma DivTwice(x: nat, m: nat)
    requires m > 0
    ensures x / (4096 * m) == x / 4096 / m
  {
    var q, r := x / 4096, x % 4096;
    var qq, rr := q / m, q % m;
    assert x == 4096 * q + r && q == m * qq + rr;
    assert x == 4096 * m * qq + (4096 * rr + r);
    assert 0 <= 4096 * rr + r < 4096 * m;
    DivModUnique(x, 4096 * m, qq, 4096 * rr + r);
  }

  lemma ModDiv(x: nat, m: nat)
    requires m > 0
    ensures x % m == x - m * (x / m)
  {
  }

  lemma CanonicalUniform(x: nat, y: nat, levels: nat)
    requires SamePage(x, y) && 1 <= levels
    ensures Canonical(x, levels) == Canonical(y, levels)
  {
    var b := Pow2(11 + 9 * levels);
    TwelveSplit(9 * levels - 1);
    BoundSides(x, y, b, Pow2(9 * levels - 1));
  }

  lemma BoundSides(x: nat, y: nat, b: nat, m: nat)
    requires SamePage(x, y) && b == 4096 * m
    ensures (x < b) == (y < b)
    ensures (x + b >= WordLimit) == (y + b >= WordLimit)
  {
  }

  function Moved(o: Outcome, d: int): Outcome {
    if o.Paddr? then Paddr(o.p + d) else o
  }

  lemma {:induction false} WalkFromUniform(c: Config, mem: seq<nat>, x: nat, y: nat, a: Access, priv: nat, table: nat, j: nat)
    requires SamePage(x, y)
    ensures WalkFrom(c, mem, y, a, priv, table, j) == Moved(WalkFrom(c, mem, x, a, priv, table, j), y - x)
    decreases j
  {
    hide Decide, ReadPte, Pow2, SamePage, Bytes, Merge;
    DivSame(x, y, 9 * j);
    var pte := ReadPte(c, mem, table + x / Pow2(12 + 9 * j) % 512 * 8);
    if pte.Some? {
      var level := Decide(c, pte.value, a, priv, j);
      if level.Leaf? {
        MergeMoved(level.frame, x, y, Pow2(12 + 9 * j));
      } else if level.Next? && j > 0 {
        WalkFromUniform(c, mem, x, y, a, priv, level.table, j - 1);
      }
    }
  }

  lemma MergeMoved(frame: nat, x: nat, y: nat, span: nat)
    requires span > 0 && x / span == y / span
    ensures Merge(frame, y, span) == Merge(frame, x, span) + (y - x)
  {
    ModDiv(x, span);
    ModDiv(y, span);
  }

  lemma WalkUniform(c: Config, mem: seq<nat>, x: nat, y: nat, a: Access)
    requires SamePage(x, y)
    ensures Walk(c, mem, y, a) == Moved(Walk(c, mem, x, a), y - x)
  {
    if !(EffectivePriv(c, a) == PrvM || c.mode < 8) {
      var levels := c.mode - 8 + 3;
      CanonicalUniform(x, y, levels);
      WalkFromUniform(c, mem, x, y, a, EffectivePriv(c, a), c.root * PageSize, levels - 1);
    }
  }

  /** A walk moves whole pages: the offset within the page is that of the virtual address. */
  lemma {:induction false} WalkFromOffset(c: Config, mem: seq<nat>, va: nat, a: Access, priv: nat, table: nat, j: nat)
    ensures var o := WalkFrom(c, mem, va, a, priv, table, j);
            o.Paddr? ==> o.p >= 0 && o.p % PageSize == va % PageSize
    decreases j
  {
    hide Decide, ReadPte, Pow2, Merge, Bytes;
    var span := Pow2(12 + 9 * j);
    TwelveSplit(9 * j);
    var pte := ReadPte(c, mem, table + va / span % 512 * 8);
    if pte.Some? {
      var level := Decide(c, pte.value, a, priv, j);
      if level.Leaf? {
        MergeOffset(level.frame, va, span, Pow2(9 * j));
      } else if level.Next? && j > 0 {
        WalkFromOffset(c, mem, va, a, priv, level.table, j - 1);
      }
    }
  }

  lemma MergeOffset(frame: nat, va: nat, span: nat, m: nat)
    requires span == 4096 * m && m > 0
    ensures Merge(frame, va, span) >= 0
    ensures Merge(frame, va, span) % 4096 == va % 4096
  {
    hide *;
    var f := SplitSpan(frame, span, m);
    var v := SplitSpan(va, span, m);
    MergeMultiples(frame, va, span, f, v);
  }

  lemma MergeMultiples(frame: nat, va: nat, span: nat, f: int, v: int)
    requires span > 0 && frame - frame % span == 4096 * f && va - va % span == 4096 * v
    ensures Merge(frame, va, span) >= 0
    ensures Merge(frame, va, span) % 4096 == va % 4096
  {
    hide *;
    MergeIs(frame, va, span, f, v);
    Multiples(va, f, v);
  }

  lemma MergeIs(frame: nat, va: nat, span: nat, f: int, v: int)
    requires span > 0 && frame - frame % span == 4096 * f && va - va % span == 4096 * v
    ensures Merge(frame, va, span) == 4096 * f + (va - 4096 * v) >= 0
  {
    ModUnder(frame, span);
  }

  lemma ModUnder(x: nat, d: nat)
    requires d > 0
    ensures 0 <= x % d <= x
  {
  }

  lemma SplitSpan(x: nat, span: nat, m: nat) returns (f: int)
    requires m > 0 && span == 4096 * m
    ensures x - x % span == 4096 * f
  {
    ModDiv(x, span);
    f := m * (x / span);
    assert 4096 * m * (x / span) == 4096 * f;
  }

  lemma Multiples(va: nat, q: int, v: int)
    ensures (4096 * q + (va - 4096 * v)) % 4096 == va % 4096
  {
  }

  lemma WalkOffset(c: Config, mem: seq<nat>, va: nat, a: Access)
    ensures var o := Walk(c, mem, va, a);
            o.Paddr? ==> o.p >= 0 && o.p % PageSize == va % PageSize
  {
    if !(EffectivePriv(c, a) == PrvM || c.mode < 8) {
      WalkFromOffset(c, mem, va, a, EffectivePriv(c, a), c.root * PageSize, c.mode - 8 + 2);
    }
  }

  function MovedTarget(t: Target, d: int): Target {
    match t
    case Host(ptr, p) => Host(ptr + d, p + d)
    case Device(p) => Device(p + d)
    case Nowhere(p) => Nowhere(p + d)
    case _ => t
  }

  lemma SamePageMoved(x: nat, y: nat, p: nat, q: int)
    requires SamePage(x, y) && p % PageSize == x % PageSize && q == p + (y - x)
    ensures q >= 0 && SamePage(p, q) && q % PageSize == y % PageSize
  {
  }

  lemma PmpOkUniform(c: Config, x: nat, n: nat, y: nat, k: nat, a: Access)
    requires Granular(c) && SamePage(x, y) && InPage(x, n) && InPage(y, k)
    ensures PmpOk(c, x, n, a) == PmpOk(c, y, k, a)
  {
    DivSame(x, y, c.pal - 12);
    PmpScanUniform(c.pmp, EffectivePriv(c, a), x, n, y, k, a);
  }

  /** Two accesses to one page reach places that lie as far apart as their addresses. */
  lemma ResolveUniform(c: Config, mem: seq<nat>, x: nat, n: nat, y: nat, k: nat, a: Access)
    requires Granular(c) && SamePage(x, y) && InPage(x, n) && InPage(y, k)
    ensures Resolve(c, mem, y, k, a) == MovedTarget(Resolve(c, mem, x, n, a), y - x)
  {
    hide Walk, PmpOk, Lookup, Granular, SamePage, InPage, Bytes;
    WalkUniform(c, mem, x, y, a);
    WalkOffset(c, mem, x, a);
    var o := Walk(c, mem, x, a);
    if o.Paddr? {
      InPageIs(x, n);
      InPageIs(y, k);
      SamePageMoved(x, y, o.p, o.p + (y - x));
      InPageIs(o.p, n);
      InPageIs(o.p + (y - x), k);
      PmpOkUniform(c, o.p, n, o.p + (y - x), k, a);
      GranularRanges(c);
      LookupUniform(c.ranges, o.p, o.p + (y - x));
    }
  }

  lemma InPageIs(x: nat, size: nat)
    ensures InPage(x, size) <==> size > 0 && x % PageSize + size <= PageSize
  {
  }

  lemma GranularRanges(c: Config)
    requires Granular(c)
    ensures forall i :: 0 <= i < |c.ranges| ==> c.ranges[i].addr % PageSize == 0 && c.ranges[i].size % PageSize == 0
  {
  }

  /** Every RAM range has its bytes inside host memory. */
  ghost predicate Backed(ranges: seq<Range>, host: nat) {
    forall i :: 0 <= i < |ranges| && ranges[i].isRam ==> ranges[i].host + ranges[i].size <= host
  }

  /** The whole page around a byte of RAM is backed. */
  lemma ResolveInside(c: Config, mem: seq<nat>, va: nat, n: nat, a: Access, host: nat)
    requires Granular(c) && Backed(c.ranges, host) && InPage(va, n)
    ensures var t := Resolve(c, mem, va, n, a);
            t.Host? ==> va % PageSize <= t.ptr && t.ptr - va % PageSize + PageSize <= host
  {
    hide Walk, PmpOk, Lookup, Bytes;
    WalkOffset(c, mem, va, a);
    var o := Walk(c, mem, va, a);
    if o.Paddr? && o.p >= 0 {
      LookupFinds(c.ranges, o.p);
      var f := Lookup(c.ranges, o.p);
      if f.Some? {
        PageInside(f.value.addr, f.value.size, o.p, va);
      }
    }
  }

  lemma PageInside(addr: nat, size: nat, p: nat, va: nat)
    requires addr % PageSize == 0 && size % PageSize == 0 && addr <= p < addr + size && p % PageSize == va % PageSize
    ensures addr <= p - va % PageSize && p - va % PageSize + PageSize <= addr + size
  {
  }
}
