/**
 * The physical memory protection registers: how CSR writes respect locked entries, and what
 * the decoded intervals mean.
 */
module PmpRegisters {
  import opened Powers
  import opened PageWalk
  import opened Wrappers

  // the registers name sixteen entries, of which eight are implemented
  const PmpN: nat := 8
  const PmpMax: nat := 16

  const AddrBits: nat := 38

  datatype Mode = Off | Tor | Na4 | Napot

  // ---- Configuration bytes ----

  function ByteOf(w: nat, i: nat): (b: nat)
    ensures b < 256
  {
    w / Pow2(8 * i) % 256
  }

  function ModeOf(cfg: nat): Mode {
    match cfg / 8 % 4
    case 0 => Off
    case 1 => Tor
    case 2 => Na4
    case _ => Napot
  }

  predicate LockBit(cfg: nat) { cfg / 128 % 2 == 1 }

  /** cfg & ~PMPCFG_RES: the two reserved bits read as zero. */
  function Cleaned(cfg: nat): nat {
    cfg / 128 * 128 + cfg % 32
  }

  lemma CleanedKeeps(cfg: nat)
    ensures Cleaned(Cleaned(cfg)) == Cleaned(cfg)
    ensures LockBit(Cleaned(cfg)) == LockBit(cfg) && ModeOf(Cleaned(cfg)) == ModeOf(cfg)
  {
    CleanedParts(cfg / 128, cfg % 32);
    LowParts(cfg / 32, cfg % 32);
  }

  lemma CleanedParts(h: nat, l: nat)
    requires l < 32
    ensures (h * 128 + l) / 128 == h && (h * 128 + l) % 32 == l
    ensures (h * 128 + l) / 8 % 4 == l / 8
  {
    DivModUnique(h * 128 + l, 128, h, l);
    DivModUnique(h * 128 + l, 32, h * 4, l);
    LowParts(h * 4, l);
  }

  lemma LowParts(q: nat, l: nat)
    requires l < 32
    ensures (q * 32 + l) / 8 % 4 == l / 8
  {
    DivModUnique(q * 32 + l, 8, q * 4 + l / 8, l % 8);
    DivModUnique(q * 4 + l / 8, 4, q, l / 8);
  }

  /** What a write of val makes of entry i's byte. */
  function WrittenByte(orig: nat, val: nat, i: nat): nat {
    Cleaned(if LockBit(ByteOf(orig, i)) then ByteOf(orig, i) else ByteOf(val, i))
  }

  lemma ByteAppended(w: nat, i: nat, b: nat, k: nat)
    requires w < Pow2(8 * i) && b < 256 && k <= i
    ensures ByteOf(w + b * Pow2(8 * i), k) == if k == i then b else ByteOf(w, k)
    ensures w + b * Pow2(8 * i) < Pow2(8 * (i + 1))
  {
    hide *;
    Pow2Add(8 * i, 8);
    Eight();
    MulMono(b, 255, Pow2(8 * i));
    ByteIs(w + b * Pow2(8 * i), k);
    ByteIs(w, k);
    if k == i {
      DivModUnique(w + b * Pow2(8 * i), Pow2(8 * i), b, w);
    } else {
      Pow2Add(8 * k, 8 * (i - k));
      Pow2Add(8 * (i - k) - 8, 8);
      LowByteKept(w, b, Pow2(8 * k), Pow2(8 * (i - k) - 8), Pow2(8 * i));
    }
  }

  lemma Eight()
    ensures Pow2(8) == 256
  {
    assert Pow2(4) == 16;
    Pow2Add(4, 4);
  }

  lemma ByteIs(w: nat, i: nat)
    ensures ByteOf(w, i) == w / Pow2(8 * i) % 256
  {
  }

  lemma LowByteKept(w: nat, b: nat, m: nat, e: nat, p: nat)
    requires m > 0 && p == m * (e * 256)
    ensures (w + b * p) / m % 256 == w / m % 256
  {
    var q := w / m;
    assert b * p == b * e * 256 * m;
    assert (q + b * e * 256) * m == q * m + b * e * 256 * m;
    DivModUnique(w + b * p, m, q + b * e * 256, w % m);
    AddMultiple(q, b * e);
  }

  lemma AddMultiple(q: int, k: int)
    ensures (q + k * 256) % 256 == q % 256
  {
  }

  // ---- Decoding ----

  /** How many ones end the register, of the 64 looked at. */
  function Ones(a: nat): (t: nat)
    ensures t <= 64
  {
    OnesFrom(a, 0)
  }

  function OnesFrom(a: nat, j: nat): (t: nat)
    requires j <= 64
    ensures j <= t <= 64
    ensures t < 64 ==> !BitOf(a, t)
    ensures forall k :: j <= k < t ==> BitOf(a, k)
    decreases 64 - j
  {
    if j == 64 || !BitOf(a, j) then j else OnesFrom(a, j + 1)
  }

  /** x & ~(d - 1), for a power of two. */
  function Aligned(x: nat, d: nat): (lo: nat)
    requires d > 0
    ensures lo <= x
  {
    x - x % d
  }

  /** The interval of entry i, whose register is a and whose predecessor's is prev. */
  function Interval(cfg: nat, i: nat, a: nat, prev: nat): Option<PmpRange> {
    match ModeOf(cfg)
    case Off => None
    case Tor => Some(PmpRange(if i == 0 then 0 else prev * 4 % WordLimit, a * 4 % WordLimit, cfg))
    case Na4 => Some(PmpRange(a * 4 % WordLimit, (a * 4 % WordLimit + 4) % WordLimit, cfg))
    case Napot =>
      var j := Ones(a) + 3;
      if j >= 64 then Some(PmpRange(0, WordLimit - 1, cfg))
      else
        var lo := Aligned(a * 4 % WordLimit, Pow2(j));
        var hi := (lo + Pow2(j)) % WordLimit;
        Some(PmpRange(lo, if hi <= lo then WordLimit - 1 else hi, cfg))
  }

  /** The registers as values: pmpcfg0, pmpcfg2, and the sixteen pmpaddr. */
  datatype Registers = Registers(cfg0: nat, cfg2: nat, addr: seq<nat>) {
    function Cfg(i: nat): nat
      requires i < PmpMax
    {
      if i < 8 then ByteOf(cfg0, i) else ByteOf(cfg2, i - 8)
    }

    function Entry(i: nat): Option<PmpRange>
      requires i < PmpMax == |addr|
    {
      Interval(Cfg(i), i, addr[i], if i == 0 then 0 else addr[i - 1])
    }

    /** The active entries among the first n, in order of priority. */
    function Active(n: nat): (rs: seq<PmpRange>)
      requires n <= PmpMax == |addr|
      ensures |rs| <= n
    {
      if n == 0 then []
      else Active(n - 1) + (match Entry(n - 1) case None => [] case Some(r) => [r])
    }

    predicate Locked(i: nat)
      requires i < PmpMax
    {
      LockBit(Cfg(i))
    }

    /** No register holds a bit it does not implement. */
    ghost predicate Proper() {
      && |addr| == PmpMax && cfg2 == 0
      && (forall i :: 0 <= i < 8 ==> Cleaned(ByteOf(cfg0, i)) == ByteOf(cfg0, i))
      && (forall i :: 0 <= i < PmpMax ==> addr[i] < Pow2(AddrBits))
    }
  }

  // ---- Writes ----

  datatype Write = Cfg(c: nat, val: nat) | Addr(n: nat, val: nat)

  predicate LegalWrite(w: Write) {
    match w
    case Cfg(c, _) => c == 0 || c == 2
    case Addr(n, _) => n < PmpMax
  }

  /** Entry n's address register also bounds entry n + 1 when that one is a top-of-range entry. */
  predicate AddrFrozen(r: Registers, n: nat)
    requires n < PmpN
  {
    LockBit(r.Cfg(n)) || (n + 1 < 8 && ModeOf(r.Cfg(n + 1)) == Tor && LockBit(r.Cfg(n + 1)))
  }

  ghost predicate Written(r: Registers, w: Write, r': Registers)
    requires |r.addr| == PmpMax && LegalWrite(w)
  {
    match w
    case Cfg(c, val) =>
      && r'.addr == r.addr && r'.cfg2 == r.cfg2
      && (if c == 0 then forall i :: 0 <= i < 8 ==> ByteOf(r'.cfg0, i) == WrittenByte(r.cfg0, val, i)
          else r'.cfg0 == r.cfg0)
    case Addr(n, val) =>
      && r'.cfg0 == r.cfg0 && r'.cfg2 == r.cfg2
      && r'.addr == if n < PmpN && !AddrFrozen(r, n) then r.addr[n := Low(val, AddrBits)] else r.addr
  }

  lemma WrittenProper(r: Registers, w: Write, r': Registers)
    requires r.Proper() && LegalWrite(w) && Written(r, w, r')
    ensures r'.Proper()
  {
    hide Pow2;
    if w.Cfg? && w.c == 0 {
      forall i | 0 <= i < 8 ensures Cleaned(ByteOf(r'.cfg0, i)) == ByteOf(r'.cfg0, i) {
        assert ByteOf(r'.cfg0, i) == WrittenByte(r.cfg0, w.val, i);
        CleanedKeeps(if LockBit(ByteOf(r.cfg0, i)) then ByteOf(r.cfg0, i) else ByteOf(w.val, i));
      }
    }
  }

  /** One CSR write leaves a locked entry's byte and interval as they were. */
  lemma LockedKept(r: Registers, w: Write, r': Registers, i: nat)
    requires r.Proper() && LegalWrite(w) && Written(r, w, r')
    requires i < PmpMax && r.Locked(i)
    ensures |r'.addr| == PmpMax && r'.Locked(i) && r'.Cfg(i) == r.Cfg(i) && r'.Entry(i) == r.Entry(i)
  {
    hide Pow2, ByteOf, Ones, Cleaned;
    ZeroBytes(r, i);
    if w.Cfg? && w.c == 0 {
      assert ByteOf(r'.cfg0, i) == WrittenByte(r.cfg0, w.val, i);
    }
  }

  lemma ZeroBytes(r: Registers, i: nat)
    requires r.Proper() && i < PmpMax && r.Locked(i)
    ensures i < 8
  {
    hide ByteOf, Cleaned;
    ZeroByte(i - 8);
  }

  lemma ZeroByte(k: int)
    ensures k >= 0 ==> ByteOf(0, k) == 0
  {
    if k >= 0 {
      DivModUnique(0, Pow2(8 * k), 0, 0);
    }
  }

  /** Once locked, for good: no sequence of CSR writes moves a locked entry. */
  lemma {:induction false} LockedForever(run: seq<Registers>, ws: seq<Write>, i: nat)
    requires |run| == |ws| + 1 && run[0].Proper()
    requires forall k :: 0 <= k < |ws| ==> LegalWrite(ws[k])
    requires forall k :: 0 <= k < |ws| ==> |run[k].addr| == PmpMax && Written(run[k], ws[k], run[k + 1])
    requires i < PmpMax && run[0].Locked(i)
    ensures var last := run[|ws|];
            last.Proper() && last.Locked(i) && last.Cfg(i) == run[0].Cfg(i) && last.Entry(i) == run[0].Entry(i)
    decreases |ws|
  {
    hide Written, Registers.Entry, Registers.Cfg, Registers.Proper, LegalWrite, LockBit;
    if |ws| > 0 {
      LockedKept(run[0], ws[0], run[1], i);
      WrittenProper(run[0], ws[0], run[1]);
      LockedForever(run[1..], ws[1..], i);
    }
  }

  /** A write to a register that no lock freezes does take effect. */
  lemma UnlockedWritten(r: Registers, w: Write, r': Registers)
    requires r.Proper() && LegalWrite(w) && Written(r, w, r')
    ensures w.Addr? && w.n < PmpN && !AddrFrozen(r, w.n) ==> r'.addr[w.n] == Low(w.val, AddrBits)
    ensures w.Cfg? && w.c == 0 ==>
              forall i :: 0 <= i < 8 && !r.Locked(i) ==> r'.Cfg(i) == Cleaned(ByteOf(w.val, i))
  {
    hide Pow2, ByteOf, Cleaned, Low;
  }

  // ---- What an entry covers ----

  /**
   * The addresses an entry is about, in the terms of the privileged architecture: those from
   * the preceding register up to its own, the word it names, or those that agree with it above
   * its trailing ones and the zero that ends them.
   */
  predicate Matches(cfg: nat, i: nat, a: nat, prev: nat, x: nat) {
    match ModeOf(cfg)
    case Off => false
    case Tor => (i == 0 || prev * 4 <= x) && x < a * 4
    case Na4 => x / 4 == a
    case Napot => x / 4 / Pow2(Ones(a) + 1) == a / Pow2(Ones(a) + 1)
  }

  /** The decoded interval holds exactly the addresses that match; no register makes it wrap. */
  lemma EntryCovers(cfg: nat, i: nat, a: nat, prev: nat, x: nat)
    requires a < Pow2(AddrBits) && prev < Pow2(AddrBits)
    ensures Interval(cfg, i, a, prev).None? <==> ModeOf(cfg) == Off
    ensures Matches(cfg, i, a, prev, x) <==> InInterval(Interval(cfg, i, a, prev), x)
  {
    hide Pow2, Ones, ModeOf;
    Thirty();
    if ModeOf(cfg) == Napot {
      NapotExact(cfg, i, a, prev, x);
    } else {
      NoWrap(a);
      NoWrap(prev);
    }
  }

  /** The interval e holds exactly the addresses the entry is about. */
  ghost predicate Covers(e: Option<PmpRange>, cfg: nat, i: nat, a: nat, prev: nat) {
    forall x: nat :: InInterval(e, x) <==> Matches(cfg, i, a, prev, x)
  }

  lemma IntervalCovers(cfg: nat, i: nat, a: nat, prev: nat)
    requires a < Pow2(AddrBits) && prev < Pow2(AddrBits)
    ensures Covers(Interval(cfg, i, a, prev), cfg, i, a, prev)
  {
    hide Matches, InInterval, Interval, Pow2;
    forall x: nat ensures InInterval(Interval(cfg, i, a, prev), x) <==> Matches(cfg, i, a, prev, x) {
      EntryCovers(cfg, i, a, prev, x);
    }
  }

  predicate InInterval(e: Option<PmpRange>, x: nat) {
    e.Some? && e.value.lo <= x < e.value.hi
  }

  lemma NoWrap(a: nat)
    requires a < 0x40_0000_0000
    ensures a * 4 % WordLimit == a * 4 && (a * 4 + 4) % WordLimit == a * 4 + 4
  {
  }

  /**
   * A NAPOT entry covers exactly the addresses that agree with its register above the
   * trailing ones and the zero that ends them.
   */
  lemma NapotExact(cfg: nat, i: nat, a: nat, prev: nat, x: nat)
    requires ModeOf(cfg) == Napot && a < Pow2(AddrBits)
    ensures Interval(cfg, i, a, prev).Some?
    ensures var e := Interval(cfg, i, a, prev).value;
            (e.lo <= x < e.hi) <==> x / 4 / Pow2(Ones(a) + 1) == a / Pow2(Ones(a) + 1)
  {
    hide *;
    var t := Ones(a);
    OnesBelow(a);
    Thirty();
    AddrBitsIs();
    Pow2Le(t + 3, AddrBits + 3);
    Pow2Add(t + 1, 2);
    FourIs();
    NapotLow(a, Pow2(t + 1), Pow2(t + 3));
    NapotCovers(a / Pow2(t + 1), Pow2(t + 1), Pow2(t + 3), x);
    NapotInterval(cfg, i, a, prev, t + 3);
  }

  lemma AddrBitsIs()
    ensures AddrBits == 38
  {
  }

  lemma FourIs()
    ensures Pow2(2) == 4
  {
  }

  lemma NapotInterval(cfg: nat, i: nat, a: nat, prev: nat, j: nat)
    requires ModeOf(cfg) == Napot && a < 0x40_0000_0000
    requires j == Ones(a) + 3 && j < 64 && Pow2(j) <= 0x200_0000_0000
    ensures var lo := Aligned(a * 4, Pow2(j));
            Interval(cfg, i, a, prev) == Some(PmpRange(lo, lo + Pow2(j), cfg))
  {
    hide Pow2, Ones, Aligned;
    NoWrap(a);
    assert (Aligned(a * 4, Pow2(j)) + Pow2(j)) % WordLimit == Aligned(a * 4, Pow2(j)) + Pow2(j);
  }

  /** A register below 2^38 ends in at most 38 ones. */
  lemma OnesBelow(a: nat)
    requires a < Pow2(AddrBits)
    ensures Ones(a) <= AddrBits
  {
    hide Pow2;
    if Ones(a) > AddrBits {
      assert BitOf(a, AddrBits);
      DivModUnique(a, Pow2(AddrBits), 0, a);
    }
  }

  lemma Thirty()
    ensures Pow2(AddrBits) == 0x40_0000_0000 && Pow2(AddrBits + 3) == 0x200_0000_0000
  {
    Eight();
    assert Pow2(3) == 8 && Pow2(6) == 64;
    Pow2Add(8, 8);
    Pow2Add(16, 16);
    Pow2Add(32, 6);
    Pow2Add(38, 3);
  }

  lemma NapotLow(a: nat, m: nat, j: nat)
    requires m > 0 && j == m * 4
    ensures Aligned(a * 4, j) == a / m * j
  {
    var q, r := a / m, a % m;
    assert (q * m + r) * 4 == q * (m * 4) + r * 4;
    DivModUnique(a * 4, j, q, r * 4);
  }

  /** The span of length j = 4m that starts at q * j. */
  lemma NapotCovers(q: nat, m: nat, j: nat, x: nat)
    requires m > 0 && j == m * 4
    ensures (q * j <= x < q * j + j) <==> x / 4 / m == q
  {
    if q * j <= x < q * j + j {
      WordInside(q, m, x);
      DivModUnique(x / 4, m, q, x / 4 - q * m);
    } else if x / 4 / m == q {
      QuotientBounds(x / 4, m);
      WordInside(q, m, x);
      assert false;
    }
  }

  lemma WordInside(q: nat, m: nat, x: nat)
    ensures (q * (m * 4) <= x < q * (m * 4) + m * 4) <==> q * m <= x / 4 < q * m + m
  {
    assert q * (m * 4) == q * m * 4;
  }

  lemma QuotientBounds(w: nat, m: nat)
    requires m > 0
    ensures w / m * m <= w < w / m * m + m
  {
  }

  // ---- The registers of a hart ----

  class Pmp {
    var cfg0: nat
    var cfg2: nat
    const addr: array<nat>
    // the unpacked entries, of which the first count are active
    const entries: array<PmpRange>
    var count: nat

    function Regs(): Registers
      reads this, addr
    {
      Registers(cfg0, cfg2, addr[..])
    }

    ghost predicate Valid()
      reads this, addr, entries
    {
      && addr.Length == entries.Length == PmpMax
      && Regs().Proper()
      && count <= PmpMax && entries[..count] == Regs().Active(PmpMax)
    }

    constructor ()
      ensures Valid() && count == 0 && fresh(addr) && fresh(entries)
    {
      cfg0, cfg2, count := 0, 0, 0;
      addr := new nat[PmpMax](_ => 0);
      entries := new PmpRange[PmpMax](_ => PmpRange(0, 0, 0));
      new;
      forall i | 0 <= i < 8 ensures Cleaned(ByteOf(cfg0, i)) == ByteOf(cfg0, i) {
        ZeroByte(i);
      }
      NoneActive(Regs(), PmpMax);
    }

    method TrailingOnes(a: nat) returns (j: nat)
      ensures j == Ones(a)
    {
      j := 0;
      while j < 64
        invariant j <= 64 && Ones(a) == OnesFrom(a, j)
      {
        if !BitOf(a, j) {
          break;
        }
        j := j + 1;
      }
    }

    method UnpackEntry(cfg: nat, i: nat, a: nat, prev: nat) returns (e: Option<PmpRange>)
      ensures e == Interval(cfg, i, a, prev)
      ensures a < Pow2(AddrBits) && prev < Pow2(AddrBits) ==> Covers(e, cfg, i, a, prev)
    {
      hide Pow2, Ones, Covers, Aligned;
      if a < Pow2(AddrBits) && prev < Pow2(AddrBits) {
        IntervalCovers(cfg, i, a, prev);
      }
      match ModeOf(cfg)
      case Off => e := None;
      case Tor => e := Some(PmpRange(if i == 0 then 0 else prev * 4 % WordLimit, a * 4 % WordLimit, cfg));
      case Na4 => e := Some(PmpRange(a * 4 % WordLimit, (a * 4 % WordLimit + 4) % WordLimit, cfg));
      case Napot =>
        var t := TrailingOnes(a);
        var j := t + 3;
        if j >= 64 {
          return Some(PmpRange(0, WordLimit - 1, cfg));
        }
        var lo := Aligned(a * 4 % WordLimit, Pow2(j));
        var hi := (lo + Pow2(j)) % WordLimit;
        e := Some(PmpRange(lo, if hi <= lo then WordLimit - 1 else hi, cfg));
    }

    /** Recomputes every interval from the registers. */
    method UnpackPmpaddrs()
      requires addr.Length == entries.Length == PmpMax
      modifies this`count, entries
      ensures count <= PmpMax && entries[..count] == Regs().Active(PmpMax)
    {
      hide ByteOf, Interval, Covers, Pow2;
      count := 0;
      var i := 0;
      while i < PmpMax
        invariant i <= PmpMax && count <= i
        invariant entries[..count] == Regs().Active(i)
      {
        var cfg := if i < 8 then ByteOf(cfg0, i) else ByteOf(cfg2, i - 8);
        var e := UnpackEntry(cfg, i, addr[i], if i == 0 then 0 else addr[i - 1]);
        ghost var before := entries[..count];
        assert Regs().Entry(i) == e;
        if e.Some? {
          entries[count] := e.value;
          count := count + 1;
          assert entries[..count] == before + [e.value];
        }
        i := i + 1;
      }
    }

    /** A write of pmpcfg0 or pmpcfg2; the latter configures entries that do not exist. */
    method WriteCfg(c: nat, val: nat)
      requires Valid() && (c == 0 || c == 2)
      modifies this`cfg0, this`count, entries
      ensures Valid() && Written(old(Regs()), Cfg(c, val), Regs())
    {
      hide Pow2, ByteOf, Cleaned, Ones, Interval;
      if PmpN <= c / 2 * 8 {
        return;
      }
      var orig: nat, newVal: nat := cfg0, 0;
      var i := 0;
      ZeroPower();
      while i < 8
        modifies {}
        invariant i <= 8 && newVal < Pow2(8 * i)
        invariant forall k :: 0 <= k < i ==> ByteOf(newVal, k) == WrittenByte(orig, val, k)
      {
        var cfg := ByteOf(orig, i);
        if !LockBit(cfg) {
          cfg := ByteOf(val, i);
        }
        cfg := Cleaned(cfg);
        CleanedByte(if LockBit(ByteOf(orig, i)) then ByteOf(orig, i) else ByteOf(val, i));
        forall k | 0 <= k <= i ensures ByteOf(newVal + cfg * Pow2(8 * i), k) == if k == i then cfg else ByteOf(newVal, k) {
          ByteAppended(newVal, i, cfg, k);
        }
        ByteAppended(newVal, i, cfg, i);
        newVal := newVal + cfg * Pow2(8 * i);
        i := i + 1;
      }
      cfg0 := newVal;
      WrittenProper(old(Regs()), Cfg(c, val), Regs());
      UnpackPmpaddrs();
    }

    /** A write of one pmpaddr, ignored when that entry or the range above it is locked. */
    method WriteAddr(n: nat, val: nat)
      requires Valid() && n < PmpMax
      modifies addr, this`count, entries
      ensures Valid() && Written(old(Regs()), Addr(n, val), Regs())
    {
      hide Pow2, ByteOf, Cleaned, Ones, Interval;
      if PmpN <= n {
        return;
      }
      var cfg := ByteOf(cfg0, n);
      if LockBit(cfg) {
        return;
      }
      var next := if n + 1 < 8 then ByteOf(cfg0, n + 1) else 0; // shifted out beyond entry 7
      if ModeOf(next) == Tor && LockBit(next) {
        return;
      }
      ghost var was := addr[..];
      addr[n] := Low(val, AddrBits);
      assert addr[..] == was[n := Low(val, AddrBits)];
      WrittenProper(old(Regs()), Addr(n, val), Regs());
      UnpackPmpaddrs();
    }
  }

  lemma ZeroPower()
    ensures Pow2(8 * 0) == 1
  {
  }

  lemma CleanedByte(cfg: nat)
    requires cfg < 256
    ensures Cleaned(cfg) < 256
  {
  }

  lemma {:induction false} NoneActive(r: Registers, n: nat)
    requires |r.addr| == PmpMax && r.cfg0 == 0 && r.cfg2 == 0 && n <= PmpMax
    ensures r.Active(n) == []
  {
    if n > 0 {
      ZeroByte(n - 1);
      ZeroByte(n - 9);
      NoneActive(r, n - 1);
    }
  }
}
