/**
 * Guest memory as a virtio device reaches it: page by page, through a pointer that is good
 * for one page only. Copies that cross pages act on one flat memory.
 */
module GuestMemory {
  import opened Wrappers

  const VirtioPage: nat := 4096

  /** Guest memory as a flat map from physical addresses to bytes. */
  type Flat = imap<nat, nat>

  ghost predicate Covers(m: Flat, addr: nat, n: nat) {
    forall a: nat :: addr <= a < addr + n ==> a in m
  }

  /** The memory with bytes laid over it from addr on. */
  ghost function Overlay(m: Flat, addr: nat, bytes: seq<nat>): Flat {
    imap a: nat | a in m :: if addr <= a < addr + |bytes| then bytes[a - addr] else m[a]
  }

  ghost function Bytes(m: Flat, addr: nat, n: nat): (s: seq<nat>)
    requires Covers(m, addr, n)
    ensures |s| == n
  {
    seq(n, i requires 0 <= i < n => m[addr + i])
  }

  lemma OverlayTwice(m: Flat, addr: nat, x: seq<nat>, y: seq<nat>)
    ensures Overlay(Overlay(m, addr, x), addr + |x|, y) == Overlay(m, addr, x + y)
  {
  }

  lemma OverlayNothing(m: Flat, addr: nat)
    ensures Overlay(m, addr, []) == m
  {
  }

  lemma BytesJoin(m: Flat, addr: nat, k: nat, n: nat)
    requires k <= n && Covers(m, addr, n)
    ensures Covers(m, addr, k) && Covers(m, addr + k, n - k)
    ensures Bytes(m, addr, k) + Bytes(m, addr + k, n - k) == Bytes(m, addr, n)
  {
  }

  function PageOf(a: nat): nat { a / VirtioPage }

  function OffsetOf(a: nat): (o: nat)
    ensures o < VirtioPage
  {
    a % VirtioPage
  }

  lemma SamePage(a: nat, b: nat)
    ensures PageOf(a) == PageOf(b) ==> a - b == OffsetOf(a) - OffsetOf(b)
    ensures b <= a && OffsetOf(b) + (a - b) < VirtioPage ==> PageOf(a) == PageOf(b)
  {
  }

  /** The RAM pages, each at its place in host memory, no two overlapping. */
  ghost predicate Framed(frames: map<nat, nat>, size: nat) {
    && (forall p :: p in frames ==> frames[p] + VirtioPage <= size)
    && (forall p, q :: p in frames && q in frames && p != q ==>
          frames[p] + VirtioPage <= frames[q] || frames[q] + VirtioPage <= frames[p])
  }

  ghost function FlatOf(frames: map<nat, nat>, ram: seq<nat>): Flat
    requires Framed(frames, |ram|)
  {
    imap a: nat | PageOf(a) in frames :: ram[frames[PageOf(a)] + OffsetOf(a)]
  }

  /** A write within one frame is a write to flat memory. */
  lemma FrameWrite(frames: map<nat, nat>, ram: seq<nat>, ram': seq<nat>, addr: nat, ptr: nat, data: seq<nat>)
    requires Framed(frames, |ram|) && |ram'| == |ram| && PageOf(addr) in frames
    requires ptr == frames[PageOf(addr)] + OffsetOf(addr) && OffsetOf(addr) + |data| <= VirtioPage
    requires forall i :: 0 <= i < |ram| ==> ram'[i] == if ptr <= i < ptr + |data| then data[i - ptr] else ram[i]
    ensures FlatOf(frames, ram') == Overlay(FlatOf(frames, ram), addr, data)
  {
    hide PageOf, OffsetOf;
    var m, m' := FlatOf(frames, ram), Overlay(FlatOf(frames, ram), addr, data);
    forall a: nat | a in m ensures FlatOf(frames, ram')[a] == m'[a] {
      SamePage(a, addr);
      var i := frames[PageOf(a)] + OffsetOf(a);
      if PageOf(a) == PageOf(addr) {
        assert i == ptr + (a - addr);
      }
    }
  }

  lemma FrameRead(frames: map<nat, nat>, ram: seq<nat>, addr: nat, ptr: nat, l: nat)
    requires Framed(frames, |ram|) && PageOf(addr) in frames
    requires ptr == frames[PageOf(addr)] + OffsetOf(addr) && OffsetOf(addr) + l <= VirtioPage
    ensures Covers(FlatOf(frames, ram), addr, l) && ptr + l <= |ram|
    ensures ram[ptr..ptr + l] == Bytes(FlatOf(frames, ram), addr, l)
  {
    hide PageOf, OffsetOf;
    var m := FlatOf(frames, ram);
    forall a: nat | addr <= a < addr + l ensures a in m && m[a] == ram[ptr + (a - addr)] {
      SamePage(a, addr);
    }
  }

  /**
   * What a failed copy to RAM leaves: the bytes meant for addresses before the first one that
   * is not RAM are stored, and no others.
   */
  ghost predicate PartStored(was: Flat, now: Flat, addr: nat, data: seq<nat>) {
    exists k: nat :: PartUpTo(was, now, addr, data, k)
  }

  ghost predicate PartUpTo(was: Flat, now: Flat, addr: nat, data: seq<nat>, k: nat) {
    && k < |data| && Covers(was, addr, k) && addr + k !in was
    && now == Overlay(was, addr, data[..k])
  }

  lemma PartTo(frames: map<nat, nat>, ram: seq<nat>, now: Flat, addr: nat, data: seq<nat>, k: nat)
    requires Framed(frames, |ram|) && k < |data| && PageOf(addr + k) !in frames
    requires Covers(FlatOf(frames, ram), addr, k) && now == Overlay(FlatOf(frames, ram), addr, data[..k])
    ensures PartStored(FlatOf(frames, ram), now, addr, data)
  {
    hide Framed, Covers, Overlay, PageOf;
    assert PartUpTo(FlatOf(frames, ram), now, addr, data, k);
  }

  /** There is one such memory: the first address that is not RAM tells how much was stored. */
  lemma OnePart(was: Flat, x: Flat, y: Flat, addr: nat, data: seq<nat>)
    requires PartStored(was, x, addr, data) && PartStored(was, y, addr, data)
    ensures x == y
  {
    var i: nat :| PartUpTo(was, x, addr, data, i);
    var j: nat :| PartUpTo(was, y, addr, data, j);
    FirstHole(was, addr, i, j);
  }

  lemma FirstHole(m: Flat, addr: nat, i: nat, j: nat)
    requires Covers(m, addr, i) && addr + i !in m
    requires Covers(m, addr, j) && addr + j !in m
    ensures i == j
  {
  }

  /** What a failed copy from RAM leaves: the bytes before the hole are fetched, the rest stay. */
  ghost predicate FrontFetched(m: Flat, addr: nat, was: seq<nat>, now: seq<nat>) {
    exists k: nat :: FrontUpTo(m, addr, was, now, k)
  }

  ghost predicate FrontUpTo(m: Flat, addr: nat, was: seq<nat>, now: seq<nat>, k: nat) {
    && k < |was| && Covers(m, addr, k) && addr + k !in m
    && now == Bytes(m, addr, k) + was[k..]
  }

  lemma FrontTo(frames: map<nat, nat>, ram: seq<nat>, addr: nat, was: seq<nat>, now: seq<nat>, k: nat)
    requires Framed(frames, |ram|) && k < |was| && PageOf(addr + k) !in frames
    requires Covers(FlatOf(frames, ram), addr, k)
    requires |now| == |was| && now[..k] == Bytes(FlatOf(frames, ram), addr, k) && now[k..] == was[k..]
    ensures FrontFetched(FlatOf(frames, ram), addr, was, now)
  {
    hide Framed, Covers, Bytes, PageOf;
    assert now == now[..k] + now[k..];
    assert FrontUpTo(FlatOf(frames, ram), addr, was, now, k);
  }

  class Guest {
    // where each RAM page lives in host memory
    const frames: map<nat, nat>
    const ram: array<nat>

    ghost predicate Valid() { Framed(frames, ram.Length) }

    constructor (frames: map<nat, nat>, ram: array<nat>)
      requires Framed(frames, ram.Length)
      ensures Valid() && this.frames == frames && this.ram == ram
    {
      this.frames, this.ram := frames, ram;
    }

    ghost function Mem(): Flat
      requires Valid()
      reads ram
    {
      FlatOf(frames, ram[..])
    }

    /** The pointer to a byte of RAM; it leads to the bytes up to the end of the page. */
    function GetRamPtr(addr: nat): (ptr: Option<nat>)
      requires Valid()
      ensures ptr.None? <==> PageOf(addr) !in frames
      ensures ptr.Some? ==> ptr.value + VirtioPage - OffsetOf(addr) <= ram.Length
    {
      if PageOf(addr) in frames then Some(frames[PageOf(addr)] + OffsetOf(addr)) else None
    }

    /** memcpy to a pointer, within one page. */
    method CopyIn(ptr: nat, ghost addr: nat, buf: array<nat>, at: nat, l: nat)
      requires Valid() && GetRamPtr(addr) == Some(ptr) && OffsetOf(addr) + l <= VirtioPage
      requires buf != ram && at + l <= buf.Length
      modifies ram
      ensures Covers(old(Mem()), addr, l) && Mem() == Overlay(old(Mem()), addr, buf[at..at + l])
    {
      hide PageOf, OffsetOf, FlatOf, Overlay, Framed;
      ghost var was := ram[..];
      forall i | 0 <= i < l {
        ram[ptr + i] := buf[at + i];
      }
      FrameRead(frames, was, addr, ptr, l);
      FrameWrite(frames, was, ram[..], addr, ptr, buf[at..at + l]);
    }

    /** memcpy from a pointer, within one page. */
    method CopyOut(ptr: nat, ghost addr: nat, buf: array<nat>, at: nat, l: nat)
      requires Valid() && GetRamPtr(addr) == Some(ptr) && OffsetOf(addr) + l <= VirtioPage
      requires buf != ram && at + l <= buf.Length
      modifies buf
      ensures Covers(Mem(), addr, l) && buf[..] == Laid(old(buf[..]), at, Bytes(Mem(), addr, l))
    {
      hide PageOf, OffsetOf, FlatOf, Overlay, Framed, Bytes, Covers;
      FrameRead(frames, ram[..], addr, ptr, l);
      forall i | 0 <= i < l {
        buf[at + i] := ram[ptr + i];
      }
      assert buf[..] == Laid(old(buf[..]), at, ram[..][ptr..ptr + l]);
    }

    /** virtio_memcpy_to_ram: stops with -1 at the first page that is not RAM. */
    method MemcpyToRam(addr: nat, buf: array<nat>, at: nat, count: nat) returns (ret: int)
      requires Valid() && buf != ram && at + count <= buf.Length
      modifies ram
      ensures ret == 0 || ret == -1
      ensures ret == 0 <==> Covers(old(Mem()), addr, count)
      ensures ret == 0 ==> Mem() == Overlay(old(Mem()), addr, buf[at..at + count])
      ensures ret == -1 ==> PartStored(old(Mem()), Mem(), addr, buf[at..at + count])
    {
      hide PageOf, OffsetOf, FlatOf, Overlay, Framed, Covers;
      ghost var was, data := Mem(), buf[at..at + count];
      var a: nat, left: nat := addr, count;
      OverlayNothing(was, addr);
      CoversNothing(was, addr);
      while left > 0
        invariant left <= count && a == addr + (count - left)
        invariant Covers(was, addr, count - left)
        invariant Mem() == Overlay(was, addr, data[..count - left])
        decreases left
      {
        var l := if left < VirtioPage - OffsetOf(a) then left else VirtioPage - OffsetOf(a);
        var ptr := GetRamPtr(a);
        if ptr.None? {
          NotCovered(frames, old(ram[..]), addr, count, a);
          PartTo(frames, old(ram[..]), Mem(), addr, data, count - left);
          return -1;
        }
        var done := count - left;
        SliceOf(buf[..], at, count, done, l);
        CopyIn(ptr.value, a, buf, at + done, l);
        OverlayTwice(was, addr, data[..done], data[done..done + l]);
        OverlayCovers(was, addr, data[..done], a, l);
        JoinCovers(was, addr, done, l);
        assert data[..done + l] == data[..done] + data[done..done + l];
        a, left := a + l, left - l;
      }
      assert data[..count] == data;
      ret := 0;
    }

    /** virtio_memcpy_from_ram, into buf from position at on. */
    method MemcpyFromRam(buf: array<nat>, at: nat, addr: nat, count: nat) returns (ret: int)
      requires Valid() && buf != ram && at + count <= buf.Length
      modifies buf
      ensures ret == 0 || ret == -1
      ensures ret == 0 <==> Covers(Mem(), addr, count)
      ensures ret == 0 ==> buf[at..at + count] == Bytes(Mem(), addr, count)
      ensures ret == -1 ==> FrontFetched(Mem(), addr, old(buf[at..at + count]), buf[at..at + count])
      ensures buf[..at] == old(buf[..at]) && buf[at + count..] == old(buf[at + count..])
    {
      hide PageOf, OffsetOf, FlatOf, Overlay, Framed, Covers, Bytes, Laid;
      ghost var m, was := Mem(), buf[..];
      var a: nat, left: nat := addr, count;
      CoversNothing(m, addr);
      LaidNothing(was, at, Bytes(m, addr, 0));
      while left > 0
        invariant left <= count && a == addr + (count - left)
        invariant Mem() == m && Covers(m, addr, count - left)
        invariant buf[..] == Laid(was, at, Bytes(m, addr, count - left))
        decreases left
      {
        var l := if left < VirtioPage - OffsetOf(a) then left else VirtioPage - OffsetOf(a);
        var ptr := GetRamPtr(a);
        if ptr.None? {
          NotCovered(frames, ram[..], addr, count, a);
          LaidSlices(was, at, count, Bytes(m, addr, count - left));
          FrontTo(frames, ram[..], addr, was[at..at + count], buf[at..at + count], count - left);
          return -1;
        }
        var done := count - left;
        CopyOut(ptr.value, a, buf, at + done, l);
        LaidTwice(was, at, Bytes(m, addr, done), Bytes(m, a, l));
        JoinCovers(m, addr, done, l);
        BytesJoin(m, addr, done, done + l);
        a, left := a + l, left - l;
      }
      LaidSlices(was, at, count, Bytes(m, addr, count));
      ret := 0;
    }
  }

  /** The buffer with bytes laid over it from position at on. */
  ghost function Laid(s: seq<nat>, at: nat, x: seq<nat>): (r: seq<nat>)
    requires at + |x| <= |s|
    ensures |r| == |s|
  {
    s[..at] + x + s[at + |x|..]
  }

  lemma LaidNothing(s: seq<nat>, at: nat, x: seq<nat>)
    requires at <= |s| && |x| == 0
    ensures Laid(s, at, x) == s
  {
  }

  lemma LaidTwice(s: seq<nat>, at: nat, x: seq<nat>, y: seq<nat>)
    requires at + |x| + |y| <= |s|
    ensures Laid(Laid(s, at, x), at + |x|, y) == Laid(s, at, x + y)
  {
    var a, b := Laid(Laid(s, at, x), at + |x|, y), Laid(s, at, x + y);
    assert forall i :: 0 <= i < |s| ==> a[i] == b[i];
  }

  lemma LaidSlices(s: seq<nat>, at: nat, count: nat, x: seq<nat>)
    requires |x| <= count && at + count <= |s|
    ensures var r := Laid(s, at, x);
            && r[..at] == s[..at] && r[at + count..] == s[at + count..]
            && r[at..at + count][..|x|] == x && r[at..at + count][|x|..] == s[at..at + count][|x|..]
            && (|x| == count ==> r[at..at + count] == x)
  {
    var r := Laid(s, at, x);
    assert forall i :: 0 <= i < |s| ==> r[i] == if at <= i < at + |x| then x[i - at] else s[i];
  }

  lemma NotCovered(frames: map<nat, nat>, ram: seq<nat>, addr: nat, count: nat, a: nat)
    requires Framed(frames, |ram|) && addr <= a < addr + count && PageOf(a) !in frames
    ensures !Covers(FlatOf(frames, ram), addr, count)
  {
    assert a !in FlatOf(frames, ram);
  }

  lemma SliceOf(s: seq<nat>, at: nat, count: nat, k: nat, l: nat)
    requires at + count <= |s| && k + l <= count
    ensures s[at..at + count][k..k + l] == s[at + k..at + k + l]
  {
    var a, b := s[at..at + count][k..k + l], s[at + k..at + k + l];
    assert |a| == |b| && forall i :: 0 <= i < l ==> a[i] == b[i];
    assert a == b;
  }

  lemma OverlayCovers(m: Flat, addr: nat, bytes: seq<nat>, a: nat, l: nat)
    requires Covers(Overlay(m, addr, bytes), a, l)
    ensures Covers(m, a, l)
  {
    forall i: nat | a <= i < a + l ensures i in m {
      assert i in Overlay(m, addr, bytes);
    }
  }

  lemma CoversNothing(m: Flat, addr: nat)
    ensures Covers(m, addr, 0)
  {
  }

  lemma JoinCovers(m: Flat, addr: nat, k: nat, l: nat)
    requires Covers(m, addr, k) && Covers(m, addr + k, l)
    ensures Covers(m, addr, k + l)
  {
  }
}
