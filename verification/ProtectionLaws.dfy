/**
 * Which entry of the physical memory protection decides an access and which memory range
 * serves it, in plain numbers: from the bits of a configuration byte to the registers.
 */
module ProtectionLaws {
  import opened Powers
  import opened ByteOrder
  import opened PageWalk
  import opened PmpRegisters
  import opened Wrappers

  // ---- The first entry decides ----

  /** What the configuration byte says: R, W and X are its bits 0, 1 and 2, L is bit 7. */
  predicate Granted(cfg: nat, priv: nat, a: Access) {
    if priv < 3 || cfg / 128 % 2 == 1 then
      match a case Read => cfg % 2 == 1 case Write => cfg / 2 % 2 == 1 case Code => cfg / 4 % 2 == 1
    else true
  }

  lemma ConfigBits(cfg: nat, priv: nat, a: Access)
    ensures Granted(cfg, priv, a) <==> if priv < PrvM || BitOf(cfg, 7) then BitOf(cfg, PermBit(a)) else true
  {
    assert Pow2(0) == 1 && Pow2(1) == 2 && Pow2(2) == 4 && Pow2(3) == 8;
    assert Pow2(7) == 128;
  }

  /** The first of the entries that meets the access decides it. */
  lemma {:induction false} FirstDecides(rs: seq<PmpRange>, priv: nat, paddr: nat, size: nat, a: Access, i: nat)
    requires i < |rs| && rs[i].lo < paddr + size && paddr < rs[i].hi
    requires forall k :: 0 <= k < i ==> !(rs[k].lo < paddr + size && paddr < rs[k].hi)
    ensures PmpScan(rs, priv, paddr, size, a) <==> Granted(rs[i].cfg, priv, a)
    decreases i
  {
    hide BitOf, Granted, PermBit;
    if i == 0 {
      ConfigBits(rs[0].cfg, priv, a);
    } else {
      FirstDecides(rs[1..], priv, paddr, size, a, i - 1);
    }
  }

  /** Without any, M-mode may do everything and the lower modes nothing. */
  lemma {:induction false} NoneDecides(rs: seq<PmpRange>, priv: nat, paddr: nat, size: nat, a: Access)
    requires forall k :: 0 <= k < |rs| ==> !(rs[k].lo < paddr + size && paddr < rs[k].hi)
    ensures PmpScan(rs, priv, paddr, size, a) <==> priv == 3
  {
    if rs != [] {
      NoneDecides(rs[1..], priv, paddr, size, a);
    }
  }

  /** The whole check: an implemented address, then the privilege the access is made with. */
  lemma CheckDecides(c: Config, paddr: nat, size: nat, a: Access, i: nat)
    requires i <= |c.pmp|
    requires forall k :: 0 <= k < i ==> !(c.pmp[k].lo < paddr + size && paddr < c.pmp[k].hi)
    requires i < |c.pmp| ==> c.pmp[i].lo < paddr + size && paddr < c.pmp[i].hi
    ensures var priv := if c.mprv && (a == Read || a == Write) then c.mpp else c.priv;
      PmpOk(c, paddr, size, a) <==>
        paddr < Pow2(c.pal) && if i < |c.pmp| then Granted(c.pmp[i].cfg, priv, a) else priv == 3
  {
    hide PmpScan, Granted, Pow2;
    var priv := EffectivePriv(c, a);
    NoQuotient(paddr, Pow2(c.pal));
    if i < |c.pmp| {
      FirstDecides(c.pmp, priv, paddr, size, a, i);
    } else {
      NoneDecides(c.pmp, priv, paddr, size, a);
    }
  }

  lemma NoQuotient(x: nat, d: nat)
    requires d > 0
    ensures x / d == 0 <==> x < d
  {
    assert x == d * (x / d) + x % d;
    if x < d {
      DivModUnique(x, d, 0, x);
    }
  }

  /** Of the memory ranges that hold an address the last one serves it. */
  lemma {:induction false} LastServes(map_: seq<Range>, paddr: nat, i: nat)
    requires i <= |map_| && forall k :: i <= k < |map_| ==> !(map_[k].addr <= paddr < map_[k].addr + map_[k].size)
    requires i > 0 ==> map_[i - 1].addr <= paddr < map_[i - 1].addr + map_[i - 1].size
    ensures Lookup(map_, paddr) == if i > 0 then Some(map_[i - 1]) else None
    decreases |map_|
  {
    if i < |map_| {
      LastServes(map_[..|map_| - 1], paddr, i);
    }
  }

  // ---- From the registers ----

  /** The test of the scan, on the interval of register i. */
  predicate Caught(r: Registers, i: nat, paddr: nat, size: nat)
    requires i < PmpMax == |r.addr|
  {
    var e := r.Entry(i);
    e.Some? && e.value.lo < paddr + size && paddr < e.value.hi
  }

  lemma {:induction false} ScanAppend(rs: seq<PmpRange>, ts: seq<PmpRange>, priv: nat, paddr: nat, size: nat, a: Access)
    requires forall k :: 0 <= k < |rs| ==> !(rs[k].lo < paddr + size && paddr < rs[k].hi)
    ensures PmpScan(rs + ts, priv, paddr, size, a) == PmpScan(ts, priv, paddr, size, a)
  {
    if rs == [] {
      assert rs + ts == ts;
    } else {
      assert (rs + ts)[1..] == rs[1..] + ts;
      ScanAppend(rs[1..], ts, priv, paddr, size, a);
    }
  }

  lemma {:induction false} NothingCaught(r: Registers, n: nat, paddr: nat, size: nat)
    requires n <= PmpMax == |r.addr| && forall k :: 0 <= k < n ==> !Caught(r, k, paddr, size)
    ensures forall k :: 0 <= k < |r.Active(n)| ==> !(r.Active(n)[k].lo < paddr + size && paddr < r.Active(n)[k].hi)
  {
    hide r.Entry;
    if n > 0 {
      NothingCaught(r, n - 1, paddr, size);
      assert !Caught(r, n - 1, paddr, size);
    }
  }

  lemma {:induction false} ActiveFrom(r: Registers, i: nat, n: nat) returns (ts: seq<PmpRange>)
    requires i < n <= PmpMax == |r.addr| && r.Entry(i).Some?
    ensures r.Active(n) == r.Active(i) + [r.Entry(i).value] + ts
    decreases n
  {
    hide r.Entry;
    if n == i + 1 {
      ts := [];
    } else {
      ts := ActiveFrom(r, i, n - 1);
      ts := ts + (match r.Entry(n - 1) case None => [] case Some(e) => [e]);
    }
  }

  lemma EntryConfig(r: Registers, i: nat)
    requires i < PmpMax == |r.addr| && r.Entry(i).Some?
    ensures r.Entry(i).value.cfg == r.Cfg(i)
  {
  }

  /** The lowest register pair that catches an access decides it, by its own configuration byte. */
  lemma LowestDecides(r: Registers, priv: nat, paddr: nat, size: nat, a: Access, i: nat)
    requires i <= PmpMax == |r.addr| && forall k :: 0 <= k < i ==> !Caught(r, k, paddr, size)
    requires i < PmpMax ==> Caught(r, i, paddr, size)
    ensures PmpScan(r.Active(PmpMax), priv, paddr, size, a) <==> if i < PmpMax then Granted(r.Cfg(i), priv, a) else priv == 3
  {
    hide PmpScan, Granted, r.Active, r.Cfg, r.Entry;
    NothingCaught(r, i, paddr, size);
    if i < PmpMax {
      var ts := ActiveFrom(r, i, PmpMax);
      EntryConfig(r, i);
      var rest := [r.Entry(i).value] + ts;
      assert r.Active(PmpMax) == r.Active(i) + rest;
      ScanAppend(r.Active(i), rest, priv, paddr, size, a);
      FirstDecides(rest, priv, paddr, size, a, 0);
    } else {
      NoneDecides(r.Active(PmpMax), priv, paddr, size, a);
    }
  }

  // ---- What catches ----

  /** Address x is one that entry i is about. */
  predicate About(r: Registers, i: nat, x: nat)
    requires i < PmpMax == |r.addr|
  {
    Matches(r.Cfg(i), i, r.addr[i], if i == 0 then 0 else r.addr[i - 1], x)
  }

  /** Some byte of the access is one the entry is about. */
  ghost predicate Touches(r: Registers, i: nat, paddr: nat, size: nat)
    requires i < PmpMax == |r.addr|
  {
    exists x: nat :: paddr <= x < paddr + size && About(r, i, x)
  }

  /** A top-of-range entry with no address in it, whose bounds lie inside the access. */
  predicate Straddles(r: Registers, i: nat, paddr: nat, size: nat)
    requires i < PmpMax == |r.addr|
  {
    && r.Cfg(i) / 8 % 4 == 1 && i > 0
    && r.addr[i] <= r.addr[i - 1] && r.addr[i - 1] * 4 < paddr + size && paddr < r.addr[i] * 4
  }

  lemma IntervalShape(cfg: nat, i: nat, a: nat, prev: nat)
    requires a < Pow2(AddrBits) && prev < Pow2(AddrBits)
    ensures var e := Interval(cfg, i, a, prev);
      e.Some? ==> if cfg / 8 % 4 == 1 then e.value.lo == (if i == 0 then 0 else prev * 4) && e.value.hi == a * 4 else e.value.lo < e.value.hi
    ensures cfg / 8 % 4 == 1 ==> Interval(cfg, i, a, prev).Some?
  {
    hide Pow2, Ones, Aligned;
    Thirty();
    NoWrap(a);
    NoWrap(prev);
    if ModeOf(cfg) == Napot {
      NapotNotEmpty(cfg, i, a, prev);
    }
  }

  lemma NapotNotEmpty(cfg: nat, i: nat, a: nat, prev: nat)
    requires a < Pow2(AddrBits) && ModeOf(cfg) == Napot
    ensures Interval(cfg, i, a, prev).Some?
    ensures Interval(cfg, i, a, prev).value.lo < Interval(cfg, i, a, prev).value.hi
  {
    hide *;
    var x := a * 4;
    NapotExact(cfg, i, a, prev, x);
    WordOf(a);
  }

  lemma WordOf(a: nat)
    ensures a * 4 / 4 == a
  {
  }

  /**
   * The interval test catches the accesses that touch what an entry is about, and besides
   * them exactly those that straddle a top-of-range entry with nothing in it.
   */
  lemma CaughtExactly(r: Registers, i: nat, paddr: nat, size: nat)
    requires r.Proper() && i < PmpMax && size > 0
    ensures Caught(r, i, paddr, size) <==> Touches(r, i, paddr, size) || Straddles(r, i, paddr, size)
    ensures !(Touches(r, i, paddr, size) && Straddles(r, i, paddr, size))
  {
    ProperSize(r);
    hide Pow2, Interval, About, r.Cfg, r.Proper, Caught;
    var e := r.Entry(i);
    EntryShape(r, i);
    CaughtDef(r, i, paddr, size);
    forall x: nat ensures About(r, i, x) <==> e.Some? && e.value.lo <= x < e.value.hi {
      AboutInterval(r, i, x);
    }
    if e.Some? && e.value.lo < e.value.hi {
      var x := if paddr < e.value.lo then e.value.lo else paddr;
      assert About(r, i, x) <==> x < e.value.hi;
    }
  }

  lemma ProperSize(r: Registers)
    requires r.Proper()
    ensures |r.addr| == PmpMax
  {
  }

  lemma CaughtDef(r: Registers, i: nat, paddr: nat, size: nat)
    requires i < PmpMax == |r.addr|
    ensures var e := r.Entry(i); Caught(r, i, paddr, size) <==> e.Some? && e.value.lo < paddr + size && paddr < e.value.hi
  {
  }

  lemma AboutInterval(r: Registers, i: nat, x: nat)
    requires r.Proper() && i < PmpMax
    ensures var e := r.Entry(i); About(r, i, x) <==> e.Some? && e.value.lo <= x < e.value.hi
  {
    ProperSize(r);
    hide Pow2, Interval, Matches, r.Cfg, r.Proper;
    PrevSmall(r, i);
    EntryCovers(r.Cfg(i), i, r.addr[i], if i == 0 then 0 else r.addr[i - 1], x);
  }

  lemma EntryShape(r: Registers, i: nat)
    requires r.Proper() && i < PmpMax
    ensures r.Cfg(i) / 8 % 4 == 1 ==>
      r.Entry(i).Some? && r.Entry(i).value.lo == (if i == 0 then 0 else r.addr[i - 1] * 4) && r.Entry(i).value.hi == r.addr[i] * 4
    ensures r.Cfg(i) / 8 % 4 != 1 && r.Entry(i).Some? ==> r.Entry(i).value.lo < r.Entry(i).value.hi
  {
    ProperSize(r);
    hide Pow2, Interval, r.Cfg, r.Proper;
    PrevSmall(r, i);
    IntervalShape(r.Cfg(i), i, r.addr[i], if i == 0 then 0 else r.addr[i - 1]);
  }

  lemma PrevSmall(r: Registers, i: nat)
    requires r.Proper() && i < PmpMax
    ensures r.addr[i] < Pow2(AddrBits) && (if i == 0 then 0 else r.addr[i - 1]) < Pow2(AddrBits)
  {
    Thirty();
    hide Pow2;
  }

  // ---- What an entry is about, in numbers ----

  /** Bits 3 and 4 of the configuration byte: off, top of range, one word. */
  lemma AboutInNumbers(r: Registers, i: nat, x: nat)
    requires |r.addr| == PmpMax && i < PmpMax
    ensures r.Cfg(i) / 8 % 4 == 0 ==> !About(r, i, x)
    ensures r.Cfg(i) / 8 % 4 == 1 ==> (About(r, i, x) <==> (i == 0 || r.addr[i - 1] * 4 <= x) && x < r.addr[i] * 4)
    ensures r.Cfg(i) / 8 % 4 == 2 ==> (About(r, i, x) <==> r.addr[i] * 4 <= x < r.addr[i] * 4 + 4)
    ensures r.Cfg(i) / 8 % 4 == 3 ==> (About(r, i, x) <==> x / 4 / Pow2(Ones(r.addr[i]) + 1) == r.addr[i] / Pow2(Ones(r.addr[i]) + 1))
  {
    hide r.Cfg, Pow2, Ones;
  }

  /** A power-of-two region: t ones end the register, and the region has 2^(t + 3) bytes. */
  lemma NapotInNumbers(r: Registers, i: nat, x: nat, t: nat)
    requires |r.addr| == PmpMax && i < PmpMax && r.Cfg(i) / 8 % 4 == 3
    requires t < 64 && r.addr[i] % Pow2(t + 1) == Pow2(t) - 1
    ensures About(r, i, x) <==> x / Pow2(t + 3) == r.addr[i] / Pow2(t + 1)
  {
    hide r.Cfg, Pow2, Ones, About;
    AboutInNumbers(r, i, x);
    TrailingOnes(r.addr[i], t);
    Pow2Add(2, t + 1);
    FourIs();
    Quotients(x, 4, Pow2(t + 1));
  }

  lemma {:induction false} TrailingOnes(a: nat, t: nat)
    requires t < 64 && a % Pow2(t + 1) == Pow2(t) - 1
    ensures Ones(a) == t
  {
    hide Pow2, BitOf;
    forall k | 0 <= k <= t ensures BitOf(a, k) <==> k < t {
      OneBit(a, t, k);
    }
    OnesUntil(a, t, 0);
  }

  lemma {:induction false} OnesUntil(a: nat, t: nat, j: nat)
    requires j <= t < 64 && !BitOf(a, t) && forall k :: j <= k < t ==> BitOf(a, k)
    ensures OnesFrom(a, j) == t
    decreases t - j
  {
    hide BitOf;
    if j < t {
      OnesUntil(a, t, j + 1);
    }
  }

  lemma OneBit(a: nat, t: nat, k: nat)
    requires k <= t && a % Pow2(t + 1) == Pow2(t) - 1
    ensures BitOf(a, k) <==> k < t
  {
    hide *;
    var q, p := a / Pow2(t + 1), Pow2(k);
    Pow2Add(k, t - k);
    Pow2Double(t + 1);
    Pow2Even(t - k);
    BitDef(a, k);
    OddQuotient(a, q, p, Pow2(t - k), Pow2(t), Pow2(t + 1));
    OddOrNot(q, Pow2(t - k));
    Pow2Zero();
  }

  lemma BitDef(a: nat, k: nat)
    ensures BitOf(a, k) <==> a / Pow2(k) % 2 == 1
  {
  }

  lemma OddQuotient(a: nat, q: nat, p: nat, h: nat, m: nat, n: nat)
    requires p > 0 && h > 0 && m == p * h && n == 2 * m && q == a / n && a % n == m - 1
    ensures a / p == 2 * q * h + (h - 1)
  {
    assert a == n * q + (m - 1);
    assert n * q == (2 * q * h) * p;
    assert m - 1 == (h - 1) * p + (p - 1);
    assert a == (2 * q * h + (h - 1)) * p + (p - 1);
    DivModUnique(a, p, 2 * q * h + (h - 1), p - 1);
  }

  lemma OddOrNot(q: nat, h: nat)
    requires h == 1 || h % 2 == 0
    ensures h > 0 ==> ((2 * q * h + (h - 1)) % 2 == 1 <==> h != 1)
  {
    assert 2 * q * h == 2 * (q * h);
  }

  // ---- What a write leaves, in numbers ----

  /** Byte i of pmpcfg0 keeps a locked value; otherwise it takes the written one with bits 5 and 6 cleared. */
  lemma CfgWriteInNumbers(r: Registers, val: nat, r': Registers, i: nat)
    requires r.Proper() && Written(r, Cfg(0, val), r') && i < 8
    ensures var was, new_, given := r.cfg0 / Pow2(8 * i) % 256, r'.cfg0 / Pow2(8 * i) % 256, val / Pow2(8 * i) % 256;
      if was / 128 % 2 == 1 then new_ == was
      else new_ % 32 == given % 32 && new_ / 32 % 4 == 0 && new_ / 128 == given / 128
  {
    hide Pow2, Cleaned;
    assert ByteOf(r'.cfg0, i) == WrittenByte(r.cfg0, val, i);
    CleanedBits(ByteOf(val, i));
  }

  lemma CleanedBits(b: nat)
    requires b < 256
    ensures Cleaned(b) % 32 == b % 32 && Cleaned(b) / 32 % 4 == 0 && Cleaned(b) / 128 == b / 128
  {
  }

  /** Address register n keeps its value when entry n, or a top-of-range entry above it, is locked; else it takes 38 bits. */
  lemma AddrWriteInNumbers(r: Registers, n: nat, val: nat, r': Registers)
    requires r.Proper() && n < 8 && Written(r, Addr(n, val), r')
    ensures |r.addr| == 16
    ensures var own, above := r.cfg0 / Pow2(8 * n) % 256, if n < 7 then r.cfg0 / Pow2(8 * (n + 1)) % 256 else 0;
      r'.addr == r.addr[n := if own >= 128 || (above >= 128 && above / 8 % 4 == 1) then r.addr[n] else val % 0x40_0000_0000]
  {
    ProperSize(r);
    FrozenInNumbers(r, n);
    hide Pow2, ByteOf, r.Proper, AddrFrozen;
    Thirty();
    assert r.addr[n := r.addr[n]] == r.addr;
  }

  lemma FrozenInNumbers(r: Registers, n: nat)
    requires n < 8
    ensures var own, above := r.cfg0 / Pow2(8 * n) % 256, if n < 7 then r.cfg0 / Pow2(8 * (n + 1)) % 256 else 0;
      AddrFrozen(r, n) <==> own >= 128 || (above >= 128 && above / 8 % 4 == 1)
  {
    hide *;
    FrozenDef(r, n);
    ByteIs(r.cfg0, n);
    ByteIs(r.cfg0, n + 1);
    LockedByte(ByteOf(r.cfg0, n));
    LockedByte(ByteOf(r.cfg0, n + 1));
  }

  lemma FrozenDef(r: Registers, n: nat)
    requires n < 8
    ensures AddrFrozen(r, n) <==>
      LockBit(ByteOf(r.cfg0, n)) || (n < 7 && ModeOf(ByteOf(r.cfg0, n + 1)) == Tor && LockBit(ByteOf(r.cfg0, n + 1)))
  {
    hide ByteOf, LockBit, ModeOf;
  }

  lemma LockedByte(b: nat)
    requires b < 256
    ensures (LockBit(b) <==> b >= 128) && (ModeOf(b) == Tor <==> b / 8 % 4 == 1)
  {
  }

  ghost predicate EmptyBelowWhole(r: Registers) {
    && r.Proper() && r.Cfg(0) == 0 && r.Cfg(1) == 0x08 && r.Cfg(2) == 0 && r.Cfg(3) == 0x0f
    && r.addr[0] == r.addr[1] == 1 && r.addr[2] == 0 && r.addr[3] == 0x1000
  }

  /**
   * Entry 1 is a top-of-range entry with nothing in it, at address 4, and entry 3 grants
   * everything below 0x4000; a load of eight bytes at 0 by a lower mode is denied by entry 1.
   */
  lemma EmptyEntryCatches(r: Registers, priv: nat, x: nat)
    requires EmptyBelowWhole(r) && priv < 3
    ensures |r.addr| == PmpMax && !About(r, 0, x) && !About(r, 1, x) && !About(r, 2, x)
    ensures About(r, 3, x) <==> x < 0x4000
    ensures Granted(r.Cfg(3), priv, Read) && !PmpScan(r.Active(PmpMax), priv, 0, 8, Read)
  {
    hide *;
    WholeDef(r);
    SizeIs();
    AboutInNumbers(r, 0, x);
    AboutInNumbers(r, 1, x);
    AboutInNumbers(r, 2, x);
    AboutInNumbers(r, 3, x);
    CaughtDef(r, 0, 0, 8);
    OffNone(r, 0);
    StraddlesDef(r, 1, 0, 8);
    CaughtExactly(r, 1, 0, 8);
    LowestDecides(r, priv, 0, 8, Read, 1);
    GrantedDef(0x08, priv);
    GrantedDef(0x0f, priv);
  }

  lemma WholeDef(r: Registers)
    requires EmptyBelowWhole(r)
    ensures r.Proper() && |r.addr| == 16 && r.Cfg(0) == 0 && r.Cfg(1) == 0x08 && r.Cfg(2) == 0 && r.Cfg(3) == 0x0f
    ensures r.addr[0] == r.addr[1] == 1 && r.addr[2] == 0 && r.addr[3] == 0x1000
  {
    ProperSize(r);
    hide r.Cfg, r.Proper;
  }

  lemma SizeIs()
    ensures PmpMax == 16
  {
  }

  lemma OffNone(r: Registers, i: nat)
    requires |r.addr| == PmpMax && i < PmpMax && r.Cfg(i) == 0
    ensures r.Entry(i) == None
  {
    hide r.Cfg;
  }

  lemma StraddlesDef(r: Registers, i: nat, paddr: nat, size: nat)
    requires |r.addr| == PmpMax && i < PmpMax
    ensures Straddles(r, i, paddr, size) <==>
      && r.Cfg(i) / 8 % 4 == 1 && i > 0
      && r.addr[i] <= r.addr[i - 1] && r.addr[i - 1] * 4 < paddr + size && paddr < r.addr[i] * 4
  {
    hide r.Cfg;
  }

  lemma GrantedDef(cfg: nat, priv: nat)
    requires priv < 3
    ensures Granted(cfg, priv, Read) <==> cfg % 2 == 1
  {
  }
}
