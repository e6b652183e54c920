/**
 * The page-table walk in plain numbers: the bits of an entry, canonical addresses, and what
 * Sv39 and Sv48 make of an address level by level.
 */
module TranslationLaws {
  import opened Powers
  import opened PageWalk
  import opened Wrappers

  // ---- Entries ----

  /** The bits V, R, W, X, U, A and D of an entry are its bits 0 to 4, 6 and 7. */
  lemma {:induction false} EntryBits(pte: nat)
    ensures (BitOf(pte, 0) <==> pte % 2 == 1) && (BitOf(pte, 4) <==> pte / 16 % 2 == 1)
    ensures (BitOf(pte, 6) <==> pte / 64 % 2 == 1) && (BitOf(pte, 7) <==> pte / 128 % 2 == 1)
    ensures pte / 2 % 8 == pte / 2 % 2 + pte / 4 % 2 * 2 + pte / 8 % 2 * 4
  {
    assert Pow2(0) == 1 && Pow2(4) == 16 && Pow2(6) == 64 && Pow2(7) == 128;
    FieldBits(pte);
  }

  /** A leaf grants the access: not write-only, U as the privilege asks, and R, W or X; MXR reads what can be executed. */
  predicate GrantsAccess(c: Config, pte: nat, priv: nat, a: Access) {
    && !(pte / 4 % 2 == 1 && pte / 2 % 2 == 0)
    && (if priv == 1 then pte / 16 % 2 == 1 ==> c.sum else pte / 16 % 2 == 1)
    && match a
       case Read => pte / 2 % 2 == 1 || (c.mxr && pte / 8 % 2 == 1)
       case Write => pte / 4 % 2 == 1
       case Code => pte / 8 % 2 == 1
  }

  lemma GrantIs(c: Config, pte: nat, priv: nat, a: Access)
    ensures LeafAllowed(c, pte, priv, a) <==> GrantsAccess(c, pte, priv, a)
  {
    hide BitOf;
    EntryBits(pte);
    FieldBits(pte);
    var xwr := pte / 2 % 8;
    LowBits(if c.mxr && xwr >= 4 && xwr % 2 == 0 then xwr + 1 else xwr, a);
  }

  /** What the walk makes of an entry with j levels below it. */
  lemma EntryInNumbers(c: Config, pte: nat, a: Access, priv: nat, j: nat)
    ensures var frame, leaf := pte / 1024 * 4096 % 0x1_0000_0000_0000_0000, pte / 2 % 2 + pte / 4 % 2 + pte / 8 % 2 > 0;
      Decide(c, pte, a, priv, j) ==
        if pte % 2 == 0 then Fault
        else if !leaf then (if j == 0 then Fault else Next(frame))
        else if GrantsAccess(c, pte, priv, a) && pte / 1024 % Pow2(j) == 0
          && pte / 64 % 2 == 1 && (a == Write ==> pte / 128 % 2 == 1) then Leaf(frame)
        else Fault
  {
    hide BitOf, LeafAllowed, GrantsAccess, Pow2;
    EntryBits(pte);
    GrantIs(c, pte, priv, a);
  }

  /** An address is canonical when its upper bits repeat bit 38, or bit 47 under Sv48. */
  lemma CanonicalInNumbers(va: nat)
    ensures Canonical(va, 3) <==> va < 0x40_0000_0000 || va >= 0x1_0000_0000_0000_0000 - 0x40_0000_0000
    ensures Canonical(va, 4) <==> va < 0x8000_0000_0000 || va >= 0x1_0000_0000_0000_0000 - 0x8000_0000_0000
  {
    hide Pow2;
    WalkPowers();
  }

  lemma WalkPowers()
    ensures Pow2(12) == 0x1000 && Pow2(21) == 0x20_0000 && Pow2(30) == 0x4000_0000 && Pow2(39) == 0x80_0000_0000
    ensures Pow2(38) == 0x40_0000_0000 && Pow2(47) == 0x8000_0000_0000
  {
    hide *;
    SmallPowers();
    Times(8, 1, 256, 2);
    Times(9, 3, 512, 8);
    Times(12, 8, 0x1000, 256);
    Times(20, 1, 0x10_0000, 2);
    Times(21, 9, 0x20_0000, 512);
    Times(30, 8, 0x4000_0000, 256);
    Times(30, 9, 0x4000_0000, 512);
    Times(39, 8, 0x80_0000_0000, 256);
  }

  // ---- The walk ----

  /** The entry of the table for this address, if it can be read. */
  predicate EntryAt(c: Config, mem: seq<nat>, table: nat, index: nat, pte: nat) {
    ReadPte(c, mem, table + index % 512 * 8) == Some(pte)
  }

  /** An entry that points to the next table. */
  predicate Points(pte: nat) { pte % 2 == 1 && pte / 2 % 2 == 0 && pte / 4 % 2 == 0 && pte / 8 % 2 == 0 }

  /** A leaf for the access, as the code tests it j levels above the last. */
  predicate Serves(c: Config, pte: nat, a: Access, priv: nat, j: nat) {
    && pte % 2 == 1 && pte / 2 % 2 + pte / 4 % 2 + pte / 8 % 2 > 0 && GrantsAccess(c, pte, priv, a)
    && pte / 1024 % Pow2(j) == 0 && pte / 64 % 2 == 1 && (a == Write ==> pte / 128 % 2 == 1)
  }

  function FrameOf(pte: nat): nat { pte / 1024 * 4096 % 0x1_0000_0000_0000_0000 }

  function Over(x: nat, d: nat): nat
    requires d > 0
  {
    DivNat(x, d);
    x / d
  }

  /** k is the part of the address that picks the entry j levels above the last. */
  predicate Picks(va: nat, j: nat, k: nat) { k == Over(va, Pow2(12 + 9 * j)) }

  lemma PicksBy(va: nat, j: nat, span: nat)
    requires span > 0 && Pow2(12 + 9 * j) == span
    ensures Picks(va, j, Over(va, span))
  {
    hide Over, Pow2;
  }

  lemma OverIs(x: nat, d: nat)
    requires d > 0
    ensures Over(x, d) == x / d
  {
  }

  lemma StepDown(c: Config, mem: seq<nat>, va: nat, a: Access, priv: nat, table: nat, j: nat, k: nat, pte: nat)
    requires j > 0 && Picks(va, j, k) && EntryAt(c, mem, table, k, pte) && Points(pte)
    ensures WalkFrom(c, mem, va, a, priv, table, j) == WalkFrom(c, mem, va, a, priv, FrameOf(pte), j - 1)
  {
    hide *;
    WalkFromDef(c, mem, va, a, priv, table, j, k, pte);
    EntryInNumbers(c, pte, a, priv, j);
    PointsDef(pte);
  }

  lemma Arrive(c: Config, mem: seq<nat>, va: nat, a: Access, priv: nat, table: nat, j: nat, k: nat, pte: nat)
    requires Picks(va, j, k) && EntryAt(c, mem, table, k, pte) && !(Points(pte) && j > 0)
    ensures WalkFrom(c, mem, va, a, priv, table, j) ==
      if Serves(c, pte, a, priv, j) then Paddr(Merge(FrameOf(pte), va, Pow2(12 + 9 * j))) else PageFault
  {
    hide *;
    WalkFromDef(c, mem, va, a, priv, table, j, k, pte);
    Decided(c, pte, a, priv, j);
  }

  /** What an entry that does not point on means. */
  lemma Decided(c: Config, pte: nat, a: Access, priv: nat, j: nat)
    ensures !(Points(pte) && j > 0) ==> Decide(c, pte, a, priv, j) == if Serves(c, pte, a, priv, j) then Leaf(FrameOf(pte)) else Fault
  {
    hide *;
    EntryInNumbers(c, pte, a, priv, j);
    PointsDef(pte);
    ServesDef(c, pte, a, priv, j);
  }

  lemma PointsDef(pte: nat)
    ensures Points(pte) <==> pte % 2 == 1 && pte / 2 % 2 == 0 && pte / 4 % 2 == 0 && pte / 8 % 2 == 0
    ensures FrameOf(pte) == pte / 1024 * 4096 % 0x1_0000_0000_0000_0000
  {
  }

  lemma ServesDef(c: Config, pte: nat, a: Access, priv: nat, j: nat)
    ensures Serves(c, pte, a, priv, j) <==>
      && pte % 2 == 1 && pte / 2 % 2 + pte / 4 % 2 + pte / 8 % 2 > 0 && GrantsAccess(c, pte, priv, a)
      && pte / 1024 % Pow2(j) == 0 && pte / 64 % 2 == 1 && (a == Write ==> pte / 128 % 2 == 1)
  {
    hide GrantsAccess, Pow2;
  }

  lemma WalkFromDef(c: Config, mem: seq<nat>, va: nat, a: Access, priv: nat, table: nat, j: nat, k: nat, pte: nat)
    requires Picks(va, j, k) && EntryAt(c, mem, table, k, pte)
    ensures WalkFrom(c, mem, va, a, priv, table, j) ==
      match Decide(c, pte, a, priv, j)
      case Fault => PageFault
      case Leaf(frame) => Paddr(Merge(frame, va, Pow2(12 + 9 * j)))
      case Next(next) => if j == 0 then PageFault else WalkFrom(c, mem, va, a, priv, next, j - 1)
  {
    hide Decide, ReadPte, Pow2, Merge;
  }

  lemma MergeDef(frame: nat, va: nat, span: nat)
    requires span > 0
    ensures Merge(frame, va, span) == frame / span * span + va % span
  {
    Rounded(frame, span);
  }

  lemma Rounded(x: nat, d: nat)
    requires d > 0
    ensures x - x % d == x / d * d
  {
  }

  /** Does the walk translate addresses at all for this access, and from which table? */
  predicate Translates(c: Config, va: nat, a: Access, priv: nat) {
    && priv == (if c.mprv && (a == Read || a == Write) then c.mpp else c.priv) && priv != 3
    && (c.mode == 8 || c.mode == 9)
    && var half: nat := if c.mode == 8 then 0x40_0000_0000 else 0x8000_0000_0000;
       va < half || va >= 0x1_0000_0000_0000_0000 - half
  }

  lemma WalkStarts(c: Config, mem: seq<nat>, va: nat, a: Access, priv: nat)
    requires Translates(c, va, a, priv)
    ensures Walk(c, mem, va, a) == WalkFrom(c, mem, va, a, priv, c.root * 4096, if c.mode == 8 then 2 else 3)
  {
    CanonicalInNumbers(va);
    hide WalkFrom, Canonical, Pow2;
  }

  /** Without translation, or from M-mode, an address is physical; one that is not canonical faults. */
  lemma WalkEnds(c: Config, mem: seq<nat>, va: nat, a: Access)
    ensures var priv := if c.mprv && (a == Read || a == Write) then c.mpp else c.priv;
      && (priv == 3 || c.mode == 0 ==> Walk(c, mem, va, a) == Paddr(va))
      && (priv != 3 && (c.mode == 8 || c.mode == 9) && !Translates(c, va, a, priv) ==> Walk(c, mem, va, a) == PageFault)
  {
    CanonicalInNumbers(va);
    hide WalkFrom, Canonical, Pow2;
  }

  /** Sv39, a page of 1 GiB: bits 30 to 38 pick the entry. */
  lemma Sv39Gigapage(c: Config, mem: seq<nat>, va: nat, a: Access, priv: nat, p2: nat)
    requires c.mode == 8 && Translates(c, va, a, priv)
    requires EntryAt(c, mem, c.root * 4096, va / 0x4000_0000, p2) && !Points(p2)
    ensures Walk(c, mem, va, a) ==
      if Serves(c, p2, a, priv, 2) then Paddr(FrameOf(p2) / 0x4000_0000 * 0x4000_0000 + va % 0x4000_0000) else PageFault
  {
    hide *;
    WalkPowers();
    WalkStarts(c, mem, va, a, priv);
    PicksBy(va, 2, 0x4000_0000);
    OverIs(va, 0x4000_0000);
    Arrive(c, mem, va, a, priv, c.root * 4096, 2, va / 0x4000_0000, p2);
    MergeDef(FrameOf(p2), va, 0x4000_0000);
  }

  /** Sv39, a page of 2 MiB: bits 21 to 29 pick the entry of the second table. */
  lemma Sv39Megapage(c: Config, mem: seq<nat>, va: nat, a: Access, priv: nat, p2: nat, p1: nat)
    requires c.mode == 8 && Translates(c, va, a, priv)
    requires EntryAt(c, mem, c.root * 4096, va / 0x4000_0000, p2) && Points(p2)
    requires EntryAt(c, mem, FrameOf(p2), va / 0x20_0000, p1) && !Points(p1)
    ensures Walk(c, mem, va, a) ==
      if Serves(c, p1, a, priv, 1) then Paddr(FrameOf(p1) / 0x20_0000 * 0x20_0000 + va % 0x20_0000) else PageFault
  {
    hide *;
    WalkPowers();
    WalkStarts(c, mem, va, a, priv);
    PicksBy(va, 2, 0x4000_0000);
    OverIs(va, 0x4000_0000);
    StepDown(c, mem, va, a, priv, c.root * 4096, 2, va / 0x4000_0000, p2);
    PicksBy(va, 1, 0x20_0000);
    OverIs(va, 0x20_0000);
    Arrive(c, mem, va, a, priv, FrameOf(p2), 1, va / 0x20_0000, p1);
    MergeDef(FrameOf(p1), va, 0x20_0000);
  }

  /** Sv39, a page of 4 KiB: bits 12 to 20 pick the entry of the third table, which must be a leaf. */
  lemma Sv39Page(c: Config, mem: seq<nat>, va: nat, a: Access, priv: nat, p2: nat, p1: nat, p0: nat)
    requires c.mode == 8 && Translates(c, va, a, priv)
    requires EntryAt(c, mem, c.root * 4096, va / 0x4000_0000, p2) && Points(p2)
    requires EntryAt(c, mem, FrameOf(p2), va / 0x20_0000, p1) && Points(p1)
    requires EntryAt(c, mem, FrameOf(p1), va / 0x1000, p0)
    ensures Walk(c, mem, va, a) ==
      if Serves(c, p0, a, priv, 0) then Paddr(FrameOf(p0) / 0x1000 * 0x1000 + va % 0x1000) else PageFault
  {
    hide *;
    WalkPowers();
    WalkStarts(c, mem, va, a, priv);
    PicksBy(va, 2, 0x4000_0000);
    OverIs(va, 0x4000_0000);
    StepDown(c, mem, va, a, priv, c.root * 4096, 2, va / 0x4000_0000, p2);
    PicksBy(va, 1, 0x20_0000);
    OverIs(va, 0x20_0000);
    StepDown(c, mem, va, a, priv, FrameOf(p2), 1, va / 0x20_0000, p1);
    PicksBy(va, 0, 0x1000);
    OverIs(va, 0x1000);
    Arrive(c, mem, va, a, priv, FrameOf(p1), 0, va / 0x1000, p0);
    MergeDef(FrameOf(p0), va, 0x1000);
  }

  /** Sv48, a page of 4 KiB: one table more, picked from by bits 39 to 47. */
  lemma Sv48Page(c: Config, mem: seq<nat>, va: nat, a: Access, priv: nat, p3: nat, p2: nat, p1: nat, p0: nat)
    requires c.mode == 9 && Translates(c, va, a, priv)
    requires EntryAt(c, mem, c.root * 4096, va / 0x80_0000_0000, p3) && Points(p3)
    requires EntryAt(c, mem, FrameOf(p3), va / 0x4000_0000, p2) && Points(p2)
    requires EntryAt(c, mem, FrameOf(p2), va / 0x20_0000, p1) && Points(p1)
    requires EntryAt(c, mem, FrameOf(p1), va / 0x1000, p0)
    ensures Walk(c, mem, va, a) ==
      if Serves(c, p0, a, priv, 0) then Paddr(FrameOf(p0) / 0x1000 * 0x1000 + va % 0x1000) else PageFault
  {
    hide *;
    WalkPowers();
    WalkStarts(c, mem, va, a, priv);
    PicksBy(va, 3, 0x80_0000_0000);
    OverIs(va, 0x80_0000_0000);
    StepDown(c, mem, va, a, priv, c.root * 4096, 3, va / 0x80_0000_0000, p3);
    PicksBy(va, 2, 0x4000_0000);
    OverIs(va, 0x4000_0000);
    StepDown(c, mem, va, a, priv, FrameOf(p3), 2, va / 0x4000_0000, p2);
    PicksBy(va, 1, 0x20_0000);
    OverIs(va, 0x20_0000);
    StepDown(c, mem, va, a, priv, FrameOf(p2), 1, va / 0x20_0000, p1);
    PicksBy(va, 0, 0x1000);
    OverIs(va, 0x1000);
    Arrive(c, mem, va, a, priv, FrameOf(p1), 0, va / 0x1000, p0);
    MergeDef(FrameOf(p0), va, 0x1000);
  }
}
