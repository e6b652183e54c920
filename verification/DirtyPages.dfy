/**
 * Dirty-page tracking of a RAM range shared by several harts. Only the slow store path marks
 * a page; the fast path marks nothing, and still no store is missed, because a valid write
 * entry into the RAM always finds its page marked already.
 */
module DirtyPages {
  import opened Powers
  import opened PageWalk
  import opened SoftTlb

  // ---- Bitmaps of 32-bit words ----

  /** w | (1 << k) */
  function SetBit(w: nat, k: nat): nat {
    if BitOf(w, k) then w else w + Pow2(k)
  }

  predicate Marked(bitmap: seq<nat>, page: nat) {
    page / 32 < |bitmap| && BitOf(bitmap[page / 32], page % 32)
  }

  lemma SetBits(w: nat, k: nat, j: nat)
    ensures BitOf(SetBit(w, k), j) == (BitOf(w, j) || j == k)
  {
    hide *;
    SetBitIs(w, k);
    BitDef(w, k);
    BitDef(w, j);
    BitDef(w + Pow2(k), j);
    if !BitOf(w, k) {
      if j < k {
        BelowBit(w, k, j);
      } else if j == k {
        AtBit(w, Pow2(k));
      } else {
        AboveBit(w, k, j);
      }
    }
  }

  lemma SetBitIs(w: nat, k: nat)
    ensures SetBit(w, k) == if BitOf(w, k) then w else w + Pow2(k)
  {
  }

  lemma BitDef(w: nat, k: nat)
    ensures BitOf(w, k) <==> w / Pow2(k) % 2 == 1
  {
  }

  lemma AtBit(w: nat, m: nat)
    requires m > 0
    ensures (w + m) / m == w / m + 1
  {
    DivModUnique(w + m, m, w / m + 1, w % m);
  }

  lemma BelowBit(w: nat, k: nat, j: nat)
    requires j < k
    ensures (w + Pow2(k)) / Pow2(j) % 2 == w / Pow2(j) % 2
  {
    Pow2Add(j, k - j);
    Pow2Even(k - j);
    EvenMultiple(w, Pow2(j), Pow2(k - j), Pow2(k));
  }

  lemma EvenMultiple(w: nat, m: nat, e: nat, p: nat)
    requires m > 0 && p == m * e && e % 2 == 0
    ensures (w + p) / m % 2 == w / m % 2
  {
    var q, r := w / m, w % m;
    assert (q + e) * m == q * m + e * m;
    DivModUnique(w + p, m, q + e, r);
  }

  lemma AboveBit(w: nat, k: nat, j: nat)
    requires k < j && w / Pow2(k) % 2 == 0
    ensures (w + Pow2(k)) / Pow2(j) == w / Pow2(j)
  {
    Pow2Add(k, j - k);
    Pow2Even(j - k);
    NoCarry(w, Pow2(k), Pow2(j - k), Pow2(j));
  }

  lemma NoCarry(w: nat, m: nat, e: nat, p: nat)
    requires m > 0 && e > 0 && p == m * e && e % 2 == 0 && w / m % 2 == 0
    ensures (w + m) / p == w / p
  {
    NoCarryParts(w, m, e, p, w / m, w % m);
  }

  lemma NoCarryParts(w: nat, m: nat, e: nat, p: nat, q: nat, r: nat)
    requires m > 0 && e > 0 && p == m * e && e % 2 == 0 && q % 2 == 0
    requires w == q * m + r && r < m
    ensures (w + m) / p == w / p
  {
    hide *;
    EvenRemainder(q, e);
    DivNat(q, e);
    var a: nat, b: nat := q / e, q % e;
    assert q == a * e + b;
    Regroup(q, m, e, p, a, b);
    RoomAbove(b, e, m, p, r);
    DivModUnique(w, p, a, b * m + r);
    DivModUnique(w + m, p, a, b * m + r + m);
  }

  lemma Regroup(q: nat, m: nat, e: nat, p: nat, a: nat, b: nat)
    requires q == a * e + b && p == m * e
    ensures q * m == a * p + b * m
  {
    assert (a * e + b) * m == a * e * m + b * m;
    assert a * e * m == a * (m * e);
  }

  lemma RoomAbove(b: nat, e: nat, m: nat, p: nat, r: nat)
    requires b < e && b % 2 == 0 && e % 2 == 0 && p == m * e && r < m
    ensures 0 <= b * m + r && b * m + r + m < p
  {
    MulMono(b + 2, e, m);
    assert (b + 2) * m == b * m + 2 * m;
  }

  lemma EvenRemainder(q: nat, e: nat)
    requires e > 0 && e % 2 == 0 && q % 2 == 0
    ensures q % e % 2 == 0
  {
    var f, h := e / 2, q / 2;
    var a := h / f;
    assert e == 2 * f && q == 2 * h;
    assert h == a * f + h % f;
    assert a * (2 * f) == 2 * (a * f);
    DivModUnique(q, e, a, 2 * (h % f));
  }

  lemma MarkSets(bitmap: seq<nat>, page: nat, bitmap': seq<nat>)
    requires page / 32 < |bitmap|
    requires bitmap' == bitmap[page / 32 := SetBit(bitmap[page / 32], page % 32)]
    ensures forall p: nat :: Marked(bitmap', p) <==> Marked(bitmap, p) || p == page
  {
    hide SetBit, BitOf;
    forall p: nat ensures Marked(bitmap', p) <==> Marked(bitmap, p) || p == page {
      if p / 32 == page / 32 {
        SetBits(bitmap[page / 32], page % 32, p % 32);
      }
    }
  }

  lemma ZeroUnmarked(bitmap: seq<nat>)
    requires forall i :: 0 <= i < |bitmap| ==> bitmap[i] == 0
    ensures forall p: nat :: !Marked(bitmap, p)
  {
    forall p: nat ensures !Marked(bitmap, p) {
      if p / 32 < |bitmap| {
        ZeroBit(p % 32);
      }
    }
  }

  lemma ZeroBit(k: nat)
    ensures !BitOf(0, k)
  {
    DivModUnique(0, Pow2(k), 0, 0);
  }

  // ---- The harts' write entries ----

  /** The host window [base, base + size) of the tracked RAM. */
  datatype Window = Window(base: nat, pages: nat) {
    predicate Holds(ptr: int) { base <= ptr < base + PageSize * pages }

    /** The page a host pointer into the window belongs to. */
    function PageOf(ptr: int): nat
      requires Holds(ptr)
    {
      (ptr - base) / PageSize
    }

    /** A host page is a page of the window or has no byte in common with it. */
    predicate Fits(ptr: int) {
      if Holds(ptr) then (ptr - base) % PageSize == 0
      else ptr + PageSize <= base || base + PageSize * pages <= ptr
    }
  }

  function PageStart(e: Entry): int { e.memAddend + e.vaddr }

  /** A valid entry into the RAM stands for a page that is marked. */
  predicate Tracked(w: Window, e: Entry, bitmap: seq<nat>) {
    e.vaddr != -1 ==> w.Fits(PageStart(e)) && (w.Holds(PageStart(e)) ==> Marked(bitmap, w.PageOf(PageStart(e))))
  }

  ghost predicate AllTracked(w: Window, tlb: seq<Entry>, bitmap: seq<nat>, host: nat) {
    forall i :: 0 <= i < |tlb| ==> Placed(tlb[i], host) && Tracked(w, tlb[i], bitmap)
  }

  lemma StillTracked(w: Window, tlb: seq<Entry>, bitmap: seq<nat>, bitmap': seq<nat>, host: nat)
    requires AllTracked(w, tlb, bitmap, host)
    requires forall p: nat :: Marked(bitmap, p) ==> Marked(bitmap', p)
    ensures AllTracked(w, tlb, bitmap', host)
  {
    hide Marked, Window.Fits, Window.Holds, Window.PageOf;
    forall i | 0 <= i < |tlb| ensures Placed(tlb[i], host) && Tracked(w, tlb[i], bitmap') {
      assert Tracked(w, tlb[i], bitmap);
    }
  }

  lemma InstalledTracked(w: Window, tlb: seq<Entry>, bitmap: seq<nat>, host: nat, i: nat, e: Entry)
    requires i < |tlb| && AllTracked(w, tlb, bitmap, host) && Placed(e, host) && Tracked(w, e, bitmap)
    ensures AllTracked(w, tlb[i := e], bitmap, host)
  {
    hide Placed, Tracked;
  }

  /** The bytes [ptr, ptr + n) lie in one page of the window, or all outside it. */
  ghost predicate OnePage(w: Window, ptr: int, n: nat) {
    && (w.Holds(ptr) ==> w.PageOf(ptr) < w.pages)
    && (forall b :: ptr <= b < ptr + n ==> w.Holds(b) == w.Holds(ptr))
    && (forall b :: ptr <= b < ptr + n && w.Holds(b) ==> w.PageOf(b) == w.PageOf(ptr))
  }

  lemma WithinOnePage(w: Window, start: int, ptr: int, n: nat)
    requires w.Fits(start) && start <= ptr && ptr + n <= start + PageSize && n > 0
    ensures w.Holds(ptr) == w.Holds(start) && OnePage(w, ptr, n)
    ensures w.Holds(ptr) ==> w.PageOf(ptr) == w.PageOf(start)
  {
  }

  /** A TLB after a flush. */
  function Emptied(tlb: seq<Entry>): (r: seq<Entry>)
    ensures |r| == |tlb|
  {
    seq(|tlb|, k requires 0 <= k < |tlb| => tlb[k].(vaddr := -1))
  }

  /** A TLB after its entries into the RAM were dropped. */
  function Swept(w: Window, tlb: seq<Entry>): (r: seq<Entry>)
    ensures |r| == |tlb|
  {
    seq(|tlb|, k requires 0 <= k < |tlb| => SweptEntry(w, tlb[k]))
  }

  function SweptEntry(w: Window, e: Entry): Entry {
    if e.vaddr != -1 && w.Holds(PageStart(e)) then e.(vaddr := -1) else e
  }

  /** A sweep drops exactly the entries that lead into the RAM. */
  lemma SweptInNumbers(w: Window, tlb: seq<Entry>, k: nat)
    requires k < |tlb|
    ensures var start := tlb[k].memAddend + tlb[k].vaddr;
      Swept(w, tlb)[k] ==
        if tlb[k].vaddr != -1 && w.base <= start < w.base + 4096 * w.pages then Entry(-1, tlb[k].memAddend, tlb[k].paddrAddend)
        else tlb[k]
  {
  }

  class Machine {
    const ram: Window
    const mem: array<nat>
    // dirty_bits_tab, of which one is current
    const tab0: array<nat>
    const tab1: array<nat>
    var index: nat
    // the write TLB of each hart
    const tlbs: seq<array<Entry>>

    // the pages of the RAM with a byte stored to since the last harvest
    ghost var stored: set<nat>

    function Current(): array<nat>
      reads this`index
    {
      if index == 0 then tab0 else tab1
    }

    ghost predicate Valid()
      reads this, tab0, tab1, set t | t in tlbs
    {
      ValidBut(Current()[..])
    }

    constructor (ram: Window, mem: array<nat>, harts: nat)
      requires ram.base + PageSize * ram.pages <= mem.Length
      ensures Valid() && stored == {} && |tlbs| == harts && this.mem == mem && this.ram == ram
      ensures fresh(tab0) && fresh(tab1) && forall i :: 0 <= i < |tlbs| ==> fresh(tlbs[i])
      ensures Entries() == Start([], harts).tlbs
    {
      this.ram, this.mem := ram, mem;
      var words := (ram.pages + 31) / 32;
      var a := new nat[words](_ => 0);
      var b := new nat[words](_ => 0);
      tab0, tab1, index := a, b, 0;
      stored := {};
      var ts: seq<array<Entry>> := [];
      while |ts| < harts
        modifies {}
        invariant |ts| <= harts
        invariant forall i :: 0 <= i < |ts| ==> fresh(ts[i]) && ts[i].Length == TlbSize && ts[i] !in ts[..i]
        invariant forall i :: 0 <= i < |ts| ==> forall j :: 0 <= j < TlbSize ==> ts[i][j] == NoEntry
      {
        var t := new Entry[TlbSize](_ => NoEntry);
        ts := ts + [t];
      }
      tlbs := ts;
      new;
      assert forall i :: 0 <= i < |tlbs| ==> tlbs[i][..] == Start([], harts).tlbs[i];
      ZeroUnmarked(tab0[..]);
    }

    method SetDirtyBit(offset: nat)
      requires Valid() && offset < PageSize * ram.pages
      modifies Current()
      ensures forall p: nat :: Marked(Current()[..], p) <==> Marked(old(Current()[..]), p) || p == offset / PageSize
    {
      var page := offset / PageSize;
      var bits := Current();
      bits[page / 32] := SetBit(bits[page / 32], page % 32);
      MarkSets(old(Current()[..]), page, bits[..]);
    }

    /**
     * An aligned store of hart i, whose slow path would reach the host byte ptr of some RAM.
     * A hit on a write entry goes straight to memory and marks nothing.
     */
    method Store(i: nat, va: nat, n: nat, val: nat, ptr: int, paddr: int) returns (at: int)
      requires Valid() && i < |tlbs| && AccessSize(n) && va % n == 0
      requires va % PageSize <= ptr && ptr - va % PageSize + PageSize <= mem.Length && ram.Fits(ptr - va % PageSize)
      modifies mem, tlbs[i], Current(), this`stored
      ensures Valid() && 0 <= at && at + n <= mem.Length
      ensures mem[..] == Put(old(mem[..]), at, n, val)
      ensures OnePage(ram, at, n)
      ensures stored == old(stored) + (if ram.Holds(at) then {ram.PageOf(at)} else {})
      ensures var was := old(tlbs[i][..]);
              if Hits(was, va) then at == was[Slot(va)].memAddend + va && tlbs[i][..] == was
              else at == ptr && tlbs[i][..] == was[Slot(va) := Entry(va - va % PageSize, ptr - va, paddr - va)]
    {
      hide Valid, ValidBut, OnePage, Put, Marked, Window.Holds, Window.PageOf, Window.Fits;
      Shape();
      AlignedInPage(va, n);
      var idx := Slot(va);
      if tlbs[i][idx].vaddr == va - va % PageSize {
        at := tlbs[i][idx].memAddend + va;
        HitMarked(i, idx, va, n);
      } else {
        at := ptr;
        SlowStore(i, idx, va, n, ptr, paddr);
      }
      PutBytes(mem, at, n, val);
    }

    lemma Shape()
      requires Valid()
      ensures mem !in {tab0, tab1} && Current() in {tab0, tab1}
      ensures forall i :: 0 <= i < |tlbs| ==> tlbs[i].Length == TlbSize
      ensures forall i, j :: 0 <= i < j < |tlbs| ==> tlbs[i] != tlbs[j]
    {
    }

    /** What a hit relies on: its entry fits one page of memory, and that page is marked. */
    lemma HitMarked(i: nat, idx: nat, va: nat, n: nat)
      requires Valid() && i < |tlbs| && idx < TlbSize == tlbs[i].Length
      requires tlbs[i][idx].vaddr == va - va % PageSize && InPage(va, n)
      ensures var at := tlbs[i][idx].memAddend + va; 0 <= at && at + n <= mem.Length && OnePage(ram, at, n)
      ensures var at := tlbs[i][idx].memAddend + va; ram.Holds(at) ==> ram.PageOf(at) in stored
    {
      hide Marked;
      var e := tlbs[i][idx];
      assert Placed(tlbs[i][..][idx], mem.Length) && Tracked(ram, tlbs[i][..][idx], Current()[..]);
      WithinOnePage(ram, PageStart(e), e.memAddend + va, n);
    }

    method SlowStore(i: nat, idx: nat, va: nat, n: nat, ptr: int, paddr: int)
      requires Valid() && i < |tlbs| && idx < TlbSize && InPage(va, n)
      requires va % PageSize <= ptr && ptr - va % PageSize + PageSize <= mem.Length && ram.Fits(ptr - va % PageSize)
      modifies tlbs[i], Current(), this`stored
      ensures Valid() && ptr + n <= mem.Length && OnePage(ram, ptr, n)
      ensures stored == old(stored) + (if ram.Holds(ptr) then {ram.PageOf(ptr)} else {})
      ensures tlbs[i][..] == old(tlbs[i][..])[idx := Entry(va - va % PageSize, ptr - va, paddr - va)]
    {
      hide Marked;
      WithinOnePage(ram, ptr - va % PageSize, ptr, n);
      ghost var bits := Current()[..];
      if ram.Holds(ptr) {
        SetDirtyBit(ptr - ram.base);
        stored := stored + {ram.PageOf(ptr)};
      }
      var e := Entry(va - va % PageSize, ptr - va, paddr - va);
      Install(i, idx, e, bits);
    }

    method Install(i: nat, idx: nat, e: Entry, ghost bits: seq<nat>)
      requires ValidBut(bits) && i < |tlbs| && idx < TlbSize
      requires Placed(e, mem.Length) && Tracked(ram, e, Current()[..])
      modifies tlbs[i]
      ensures Valid() && tlbs[i][..] == old(tlbs[i][..])[idx := e]
    {
      hide Marked, Tracked, Placed, AllTracked;
      ghost var entries := tlbs[i][..];
      tlbs[i][idx] := e;
      assert tlbs[i][..] == entries[idx := e];
      forall j | 0 <= j < |tlbs| ensures AllTracked(ram, tlbs[j][..], Current()[..], mem.Length) {
        StillTracked(ram, old(tlbs[j][..]), bits, Current()[..], mem.Length);
        if j == i {
          InstalledTracked(ram, entries, Current()[..], mem.Length, idx, e);
        }
      }
    }

    /** Valid, but for entries tracked by an earlier state of the bitmap only. */
    ghost predicate ValidBut(bits: seq<nat>)
      reads this, tab0, tab1, set t | t in tlbs
    {
      && index in {0, 1} && tab0 != tab1
      && tab0.Length == tab1.Length == (ram.pages + 31) / 32
      && ram.base + PageSize * ram.pages <= mem.Length
      && mem !in {tab0, tab1}
      && (forall i, j :: 0 <= i < j < |tlbs| ==> tlbs[i] != tlbs[j])
      && (forall i :: 0 <= i < |tlbs| ==> tlbs[i].Length == TlbSize)
      && (forall i :: 0 <= i < |tlbs| ==> AllTracked(ram, tlbs[i][..], bits, mem.Length))
      && (forall p: nat :: Marked(bits, p) ==> Marked(Current()[..], p))
      && (forall p: nat :: Marked(Current()[..], p) <==> p in stored)
      && (forall p :: p in stored ==> p < ram.pages)
    }

    /** Drops every write entry of hart i. */
    method TlbFlushAll(i: nat)
      requires Valid() && i < |tlbs|
      modifies tlbs[i]
      ensures Valid() && tlbs[i][..] == Emptied(old(tlbs[i][..]))
    {
      hide Marked;
      var tlb := tlbs[i];
      var k := 0;
      while k < TlbSize
        invariant k <= TlbSize && Valid()
        invariant forall j :: 0 <= j < TlbSize ==> tlb[j] == if j < k then old(tlb[j]).(vaddr := -1) else old(tlb[j])
      {
        ghost var entries := tlb[..];
        tlb[k] := tlb[k].(vaddr := -1);
        assert tlb[..] == entries[k := tlb[k]];
        InstalledTracked(ram, entries, Current()[..], mem.Length, k, tlb[k]);
        k := k + 1;
      }
      assert tlb[..] == Emptied(old(tlb[..]));
    }

    /** Drops the write entries of hart i that lead into the RAM, and no other. */
    method FlushTlbWriteRangeRam(i: nat)
      requires Valid() && i < |tlbs|
      modifies tlbs[i]
      ensures Valid() && tlbs[i][..] == Swept(ram, old(tlbs[i][..]))
    {
      hide Marked, Window.Fits;
      var tlb := tlbs[i];
      var k := 0;
      while k < TlbSize
        invariant k <= TlbSize && Valid()
        invariant forall j :: 0 <= j < TlbSize ==> tlb[j] == if j < k then SweptEntry(ram, old(tlb[j])) else old(tlb[j])
      {
        if tlb[k].vaddr != -1 {
          var ptr := tlb[k].memAddend + tlb[k].vaddr;
          if ram.base <= ptr && ptr < ram.base + PageSize * ram.pages {
            ghost var entries := tlb[..];
            tlb[k] := tlb[k].(vaddr := -1);
            assert tlb[..] == entries[k := tlb[k]];
            InstalledTracked(ram, entries, Current()[..], mem.Length, k, tlb[k]);
          }
        }
        k := k + 1;
      }
      assert tlb[..] == Swept(ram, old(tlb[..]));
    }

    /** The write TLBs as values. */
    ghost function Entries(): (ts: seq<seq<Entry>>)
      reads this, set t | t in tlbs
      ensures |ts| == |tlbs|
    {
      seq(|tlbs|, i requires 0 <= i < |tlbs| reads set t | t in tlbs => tlbs[i][..])
    }

    ghost predicate NoRamEntries(harts: nat)
      requires harts <= |tlbs|
      reads this, set t | t in tlbs
    {
      forall i :: 0 <= i < harts ==>
        forall k :: 0 <= k < tlbs[i].Length && tlbs[i][k].vaddr != -1 ==> !ram.Holds(PageStart(tlbs[i][k]))
    }

    method FlushTlbWriteRange()
      requires Valid()
      modifies set t | t in tlbs
      ensures Valid() && NoRamEntries(|tlbs|)
      ensures forall i :: 0 <= i < |tlbs| ==> tlbs[i][..] == Swept(ram, old(tlbs[i][..]))
    {
      var i := 0;
      while i < |tlbs|
        invariant i <= |tlbs| && Valid()
        invariant forall j :: 0 <= j < |tlbs| ==> tlbs[j][..] == if j < i then Swept(ram, old(tlbs[j][..])) else old(tlbs[j][..])
      {
        FlushTlbWriteRangeRam(i);
        i := i + 1;
      }
      forall j | 0 <= j < |tlbs|
        ensures forall k :: 0 <= k < tlbs[j].Length && tlbs[j][k].vaddr != -1 ==> !ram.Holds(PageStart(tlbs[j][k]))
      {
        assert forall k :: 0 <= k < tlbs[j].Length ==> tlbs[j][k] == Swept(ram, old(tlbs[j][..]))[k];
      }
    }

    method HasDirtyBits() returns (some: bool)
      requires Valid()
      ensures some == exists k :: 0 <= k < Current().Length && Current()[k] != 0
    {
      some := false;
      var bits := Current();
      var k := 0;
      while k < bits.Length
        invariant k <= bits.Length && !some
        invariant forall j :: 0 <= j < k ==> bits[j] == 0
      {
        if bits[k] != 0 {
          some := true;
          break;
        }
        k := k + 1;
      }
    }

    /**
     * get_dirty_bits: hands out the marks since the last harvest and starts afresh. With no
     * mark at all the flush is skipped, since then no write entry into the RAM exists.
     */
    method Harvest() returns (bitmap: array<nat>)
      requires Valid()
      modifies this`index, this`stored, tab0, tab1, set t | t in tlbs
      ensures Valid() && stored == {}
      ensures bitmap != Current()
      ensures bitmap.Length == (ram.pages + 31) / 32
      ensures forall p: nat :: Marked(bitmap[..], p) <==> p in old(stored)
      ensures forall p :: p in old(stored) ==> p < ram.pages
      ensures forall i :: 0 <= i < |tlbs| ==> tlbs[i][..] == Swept(ram, old(tlbs[i][..]))
    {
      bitmap := Current();
      ghost var marks := bitmap[..];
      var some := HasDirtyBits();
      if some && ram.pages != 0 {
        FlushTlbWriteRange();
      } else if !some {
        ZeroUnmarked(marks);
        UnmarkedNoEntries();
      }
      assert bitmap[..] == marks;
      index := 1 - index;
      var bits := Current();
      forall k | 0 <= k < bits.Length {
        bits[k] := 0;
      }
      stored := {};
      ZeroUnmarked(bits[..]);
    }

    /** phys_mem_is_dirty_bit, page by page, over a bitmap that was handed out. */
    method MarkedPages(bitmap: array<nat>, ghost pages: set<nat>) returns (marked: set<nat>)
      requires bitmap.Length == (ram.pages + 31) / 32
      requires forall p: nat :: Marked(bitmap[..], p) <==> p in pages
      requires forall p :: p in pages ==> p < ram.pages
      ensures marked == pages
    {
      marked := {};
      var p := 0;
      while p < ram.pages
        invariant p <= ram.pages
        invariant forall q :: q in marked <==> q in pages && q < p
      {
        if BitOf(bitmap[p / 32], p % 32) {
          marked := marked + {p};
        }
        assert Marked(bitmap[..], p) <==> BitOf(bitmap[p / 32], p % 32);
        p := p + 1;
      }
    }

    lemma UnmarkedNoEntries()
      requires Valid() && forall p: nat :: !Marked(Current()[..], p)
      ensures NoRamEntries(|tlbs|)
    {
    }
  }

  // ---- Whole runs ----

  datatype Op =
    | StoreBy(hart: nat, va: nat, n: nat, val: nat, ptr: int, paddr: int)
    | FlushBy(hart: nat)
    | HarvestNow

  datatype Event = Wrote(at: int) | Flushed | Harvested(pages: set<nat>)

  predicate Legal(op: Op, ram: Window, host: nat, harts: nat) {
    match op
    case StoreBy(i, va, n, _, ptr, _) =>
      && i < harts && AccessSize(n) && va % n == 0
      && va % PageSize <= ptr && ptr - va % PageSize + PageSize <= host && ram.Fits(ptr - va % PageSize)
    case FlushBy(i) => i < harts
    case HarvestNow => true
  }

  /** The pages of the RAM that the log shows written since its last harvest. */
  ghost function Since(ram: Window, log: seq<Event>): set<nat>
    decreases |log|
  {
    if log == [] then {} else After(ram, Since(ram, log[..|log| - 1]), log[|log| - 1])
  }

  ghost function After(ram: Window, pages: set<nat>, e: Event): set<nat> {
    if e.Harvested? then {}
    else if e.Wrote? && ram.Holds(e.at) then pages + {ram.PageOf(e.at)}
    else pages
  }

  /** Every harvest reports exactly the pages written since the harvest before it. */
  ghost predicate Exact(ram: Window, log: seq<Event>) {
    forall j {:trigger log[j]} :: 0 <= j < |log| && log[j].Harvested? ==> log[j].pages == Since(ram, log[..j])
  }

  lemma ExactGrows(ram: Window, log: seq<Event>, e: Event)
    requires Exact(ram, log)
    requires e.Harvested? ==> e.pages == Since(ram, log)
    ensures Exact(ram, log + [e])
    ensures Since(ram, log + [e]) == After(ram, Since(ram, log), e)
  {
    var longer := log + [e];
    assert longer[..|log|] == log;
    forall j {:trigger longer[j]} | 0 <= j < |longer| && longer[j].Harvested?
      ensures longer[j].pages == Since(ram, longer[..j])
    {
      if j < |log| {
        assert longer[..j] == log[..j];
        assert longer[j] == log[j];
      }
    }
  }

  /** The page of the RAM that a store at this host address goes to. */
  predicate GoesTo(ram: Window, at: int, p: nat) {
    ram.base + 4096 * p <= at < ram.base + 4096 * p + 4096 && p < ram.pages
  }

  lemma PageInNumbers(ram: Window, at: int, p: nat)
    ensures GoesTo(ram, at, p) <==> ram.Holds(at) && ram.PageOf(at) == p
  {
    if ram.Holds(at) && ram.PageOf(at) == p {
      assert at - ram.base == 4096 * p + (at - ram.base) % 4096;
    }
    if GoesTo(ram, at, p) {
      DivModUnique(at - ram.base, 4096, p, at - ram.base - 4096 * p);
    }
  }

  /** Event i stores to page p, and no harvest follows it before event j. */
  predicate WroteLast(ram: Window, log: seq<Event>, j: nat, p: nat, i: nat) {
    i < j <= |log| && log[i].Wrote? && GoesTo(ram, log[i].at, p) && forall k :: i < k < j ==> !log[k].Harvested?
  }

  lemma {:induction false} SinceInNumbers(ram: Window, log: seq<Event>, j: nat, p: nat)
    requires j <= |log|
    ensures p in Since(ram, log[..j]) <==> exists i: nat :: WroteLast(ram, log, j, p, i)
    decreases j
  {
    hide GoesTo;
    if j > 0 {
      var k := j - 1;
      assert log[..j][..k] == log[..k] && log[..j][k] == log[k];
      SinceInNumbers(ram, log, k, p);
      if log[k].Wrote? {
        PageInNumbers(ram, log[k].at, p);
      }
      forall i: nat | i < k
        ensures WroteLast(ram, log, j, p, i) <==> WroteLast(ram, log, k, p, i) && !log[k].Harvested?
      {
      }
      assert WroteLast(ram, log, j, p, k) <==> log[k].Wrote? && GoesTo(ram, log[k].at, p);
      if i: nat :| WroteLast(ram, log, k, p, i) {
        assert !log[k].Harvested? ==> WroteLast(ram, log, j, p, i);
      }
      if i: nat :| WroteLast(ram, log, j, p, i) {
        assert i < k ==> WroteLast(ram, log, k, p, i);
      }
    } else {
      assert log[..0] == [];
    }
  }

  /** A harvest reports a page exactly when a byte of it was stored to and no harvest lies between. */
  lemma HarvestInNumbers(ram: Window, log: seq<Event>, j: nat, p: nat)
    requires Exact(ram, log) && j < |log| && log[j].Harvested?
    ensures p in log[j].pages <==> exists i: nat :: WroteLast(ram, log, j, p, i)
  {
    hide WroteLast, Since;
    SinceInNumbers(ram, log, j, p);
  }

  /** Page p is bit p % 32 of word p / 32. */
  lemma MarkInNumbers(bitmap: seq<nat>, p: nat)
    requires |bitmap| * 32 > p
    ensures p / 32 < |bitmap| && (Marked(bitmap, p) <==> bitmap[p / 32] / Pow2(p % 32) % 2 == 1)
  {
    BitDef(bitmap[p / 32], p % 32);
  }

  /** The machine as a value: memory, the write TLB of each hart, and what has happened. */
  datatype State = State(mem: seq<nat>, tlbs: seq<seq<Entry>>, log: seq<Event>)

  ghost predicate Shaped(s: State) { forall i :: 0 <= i < |s.tlbs| ==> |s.tlbs[i]| == TlbSize }

  /** One operation, with no bitmap: a harvest is told by the log alone. */
  ghost function Apply(ram: Window, s: State, op: Op): (r: State)
    requires Shaped(s) && Legal(op, ram, |s.mem|, |s.tlbs|)
    ensures Shaped(r) && |r.mem| == |s.mem| && |r.tlbs| == |s.tlbs|
  {
    match op
    case StoreBy(i, va, n, val, ptr, paddr) =>
      var tlb := s.tlbs[i];
      if Hits(tlb, va) then
        var at := tlb[Slot(va)].memAddend + va;
        State(Put(s.mem, Index(at), n, val), s.tlbs, s.log + [Wrote(at)])
      else
        var e := Entry(va - va % PageSize, ptr - va, paddr - va);
        State(Put(s.mem, Index(ptr), n, val), s.tlbs[i := tlb[Slot(va) := e]], s.log + [Wrote(ptr)])
    case FlushBy(i) => s.(tlbs := s.tlbs[i := Emptied(s.tlbs[i])], log := s.log + [Flushed])
    case HarvestNow =>
      s.(tlbs := seq(|s.tlbs|, i requires 0 <= i < |s.tlbs| => Swept(ram, s.tlbs[i])),
         log := s.log + [Harvested(Since(ram, s.log))])
  }

  ghost function Replay(ram: Window, s: State, ops: seq<Op>): (r: State)
    requires Shaped(s) && forall i :: 0 <= i < |ops| ==> Legal(ops[i], ram, |s.mem|, |s.tlbs|)
    ensures Shaped(r) && |r.mem| == |s.mem| && |r.tlbs| == |s.tlbs|
    decreases |ops|
  {
    if ops == [] then s else Apply(ram, Replay(ram, s, ops[..|ops| - 1]), ops[|ops| - 1])
  }

  ghost function Start(mem: seq<nat>, harts: nat): (s: State)
    ensures Shaped(s)
  {
    State(mem, seq(harts, _ => seq(TlbSize, _ => NoEntry)), [])
  }

  lemma ReplayNext(ram: Window, s: State, ops: seq<Op>, k: nat)
    requires k < |ops| && Shaped(s) && forall i :: 0 <= i < |ops| ==> Legal(ops[i], ram, |s.mem|, |s.tlbs|)
    ensures Replay(ram, s, ops[..k + 1]) == Apply(ram, Replay(ram, s, ops[..k]), ops[k])
  {
    assert ops[..k + 1][..k] == ops[..k];
  }

  /** One operation of the machine is one of the value. */
  method Perform(m: Machine, op: Op, ghost s: State) returns (e: Event)
    requires m.Valid() && Shaped(s) && Legal(op, m.ram, |s.mem|, |s.tlbs|)
    requires s.mem == m.mem[..] && s.tlbs == m.Entries() && m.stored == Since(m.ram, s.log)
    modifies m`index, m`stored, m.tab0, m.tab1, m.mem, set t | t in m.tlbs
    ensures m.Valid() && m.mem[..] == Apply(m.ram, s, op).mem && m.Entries() == Apply(m.ram, s, op).tlbs
    ensures s.log + [e] == Apply(m.ram, s, op).log && m.stored == Since(m.ram, s.log + [e])
  {
    hide Machine.Valid, Put, Marked, Swept, Emptied, Since;
    LegalIs(op, m.ram, |s.mem|, |s.tlbs|);
    m.Shape();
    e := Flushed;
    match op {
      case StoreBy(i, va, n, val, ptr, paddr) =>
        assert s.tlbs[i] == m.tlbs[i][..];
        var at := m.Store(i, va, n, val, ptr, paddr);
        e := Wrote(at);
        assert forall j :: 0 <= j < |s.tlbs| ==> m.tlbs[j][..] == Apply(m.ram, s, op).tlbs[j];
      case FlushBy(i) =>
        assert s.tlbs[i] == m.tlbs[i][..];
        m.TlbFlushAll(i);
        assert forall j :: 0 <= j < |s.tlbs| ==> m.tlbs[j][..] == Apply(m.ram, s, op).tlbs[j];
      case HarvestNow =>
        e := PerformHarvest(m, s);
    }
    assert m.Entries() == Apply(m.ram, s, op).tlbs;
    SinceNext(m.ram, s.log, e);
  }

  method PerformHarvest(m: Machine, ghost s: State) returns (e: Event)
    requires m.Valid() && Shaped(s) && s.mem == m.mem[..] && s.tlbs == m.Entries() && m.stored == Since(m.ram, s.log)
    modifies m`index, m`stored, m.tab0, m.tab1, set t | t in m.tlbs
    ensures m.Valid() && m.mem[..] == s.mem && |m.tlbs| == |s.tlbs|
    ensures forall j :: 0 <= j < |s.tlbs| ==> m.tlbs[j][..] == Swept(m.ram, s.tlbs[j])
    ensures e == Harvested(Since(m.ram, s.log)) && m.stored == After(m.ram, Since(m.ram, s.log), e)
  {
    hide Machine.Valid, Put, Marked, Swept, Since;
    m.Shape();
    ghost var pages := m.stored;
    assert forall i :: 0 <= i < |s.tlbs| ==> s.tlbs[i] == m.tlbs[i][..];
    var bitmap := m.Harvest();
    var marked := m.MarkedPages(bitmap, pages);
    e := Harvested(marked);
  }

  lemma SinceNext(ram: Window, log: seq<Event>, e: Event)
    ensures Since(ram, log + [e]) == After(ram, Since(ram, log), e)
  {
    assert (log + [e])[..|log|] == log;
  }

  /**
   * Any interleaving of stores, flushes and harvests: memory and log are those of the machine
   * without a bitmap, and each harvest reports exactly the pages written since the one before.
   */
  method Run(mem: array<nat>, ram: Window, harts: nat, ops: seq<Op>) returns (log: seq<Event>)
    requires ram.base + PageSize * ram.pages <= mem.Length
    requires forall i :: 0 <= i < |ops| ==> Legal(ops[i], ram, mem.Length, harts)
    modifies mem
    ensures mem[..] == Replay(ram, Start(old(mem[..]), harts), ops).mem
    ensures log == Replay(ram, Start(old(mem[..]), harts), ops).log
    ensures |log| == |ops| && Exact(ram, log)
  {
    hide Machine.Valid, Exact, Since, Legal, Put, Marked, Apply, Replay;
    var m := new Machine(ram, mem, harts);
    log := [];
    ExactNone(ram);
    ghost var s0 := Start(mem[..], harts);
    ReplayNone(ram, s0);
    var k := 0;
    assert ops[..0] == [];
    while k < |ops|
      invariant k <= |ops| && |log| == k
      invariant m.Valid() && m.ram == ram && m.mem == mem && |m.tlbs| == harts && fresh(m)
      invariant fresh(m.tab0) && fresh(m.tab1) && forall i :: 0 <= i < |m.tlbs| ==> fresh(m.tlbs[i])
      invariant State(mem[..], m.Entries(), log) == Replay(ram, s0, ops[..k])
      invariant Exact(ram, log) && m.stored == Since(ram, log)
    {
      ghost var s := Replay(ram, s0, ops[..k]);
      ReplayNext(ram, s0, ops, k);
      var e := Perform(m, ops[k], s);
      ApplyLog(ram, s, ops[k], e);
      ExactGrows(ram, log, e);
      log := log + [e];
      k := k + 1;
    }
    assert ops[..k] == ops;
  }

  lemma ReplayNone(ram: Window, s: State)
    requires Shaped(s)
    ensures Replay(ram, s, []) == s
  {
  }

  lemma ApplyLog(ram: Window, s: State, op: Op, e: Event)
    requires Shaped(s) && Legal(op, ram, |s.mem|, |s.tlbs|) && s.log + [e] == Apply(ram, s, op).log
    ensures e.Harvested? ==> e.pages == Since(ram, s.log)
  {
    hide Put, Since;
    assert (s.log + [e])[|s.log|] == e;
  }

  lemma ExactNone(ram: Window)
    ensures Exact(ram, []) && Since(ram, []) == {}
  {
  }

  lemma LegalIs(op: Op, ram: Window, host: nat, harts: nat)
    requires Legal(op, ram, host, harts)
    ensures match op
            case StoreBy(i, va, n, _, ptr, _) =>
              && i < harts && AccessSize(n) && va % n == 0
              && va % PageSize <= ptr && ptr - va % PageSize + PageSize <= host && ram.Fits(ptr - va % PageSize)
            case FlushBy(i) => i < harts
            case HarvestNow => true
  {
  }
}
