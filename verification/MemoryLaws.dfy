/**
 * What host memory holds after a store and what a load makes of it, byte by byte, and that a
 * load gives back what was stored.
 */
module MemoryLaws {
  import opened Powers
  import opened ByteOrder
  import opened PageWalk
  import opened SoftTlb
  import opened Wrappers

  /** A load makes the number whose bytes stand in memory from the address on, lowest first. */
  lemma {:induction false} LoadedBytes(mem: seq<nat>, at: nat, n: nat)
    requires at + n <= |mem| && AreBytes(mem)
    ensures HasBytes(Bytes(mem, at, n), mem[at..at + n])
    decreases n
  {
    hide HasBytes, Pow2;
    if n == 0 {
      assert mem[at..at + n] == [];
      NoBytes();
    } else {
      LoadedBytes(mem, at + 1, n - 1);
      Prepend(mem[at], Bytes(mem, at + 1, n - 1), mem[at + 1..at + n]);
      assert [mem[at]] + mem[at + 1..at + n] == mem[at..at + n];
    }
  }

  /** A store leaves byte k of the value k places on, and every other byte alone. */
  lemma {:induction false} StoredBytes(mem: seq<nat>, at: nat, n: nat, v: nat)
    requires at + n <= |mem|
    ensures forall k :: 0 <= k < n ==> Put(mem, at, n, v)[at + k] == v / Pow2(8 * k) % 256
    ensures forall i :: 0 <= i < |mem| && !(at <= i < at + n) ==> Put(mem, at, n, v)[i] == mem[i]
    decreases n
  {
    hide Pow2;
    if n > 0 {
      var was := mem[at := v % 256];
      StoredBytes(was, at + 1, n - 1, v / 256);
      forall k | 0 <= k < n ensures Put(mem, at, n, v)[at + k] == v / Pow2(8 * k) % 256 {
        ByteStep(v, k);
        if k > 0 {
          assert Put(was, at + 1, n - 1, v / 256)[at + 1 + (k - 1)] == v / 256 / Pow2(8 * (k - 1)) % 256;
        }
      }
    }
  }

  /** Loading what was stored gives it back, cut to its size. */
  lemma ReadBack(mem: seq<nat>, at: nat, n: nat, v: nat)
    requires at + n <= |mem| && AreBytes(mem)
    ensures AreBytes(Put(mem, at, n, v)) && Bytes(Put(mem, at, n, v), at, n) == v % Pow2(8 * n)
  {
    hide Bytes, Put, Pow2;
    var mem' := Put(mem, at, n, v);
    StoredBytes(mem, at, n, v);
    forall i | 0 <= i < |mem'| ensures mem'[i] < 256 {
      if at <= i < at + n {
        assert mem'[at + (i - at)] == v / Pow2(8 * (i - at)) % 256;
      }
    }
    LoadedBytes(mem', at, n);
    forall k | 0 <= k < n ensures mem'[at..at + n][k] == v % Pow2(8 * n) / Pow2(8 * k) % 256 {
      CutBytes(v, n, k);
    }
    BytesDetermine(Bytes(mem', at, n), v % Pow2(8 * n), mem'[at..at + n]);
  }

  /** Loading from elsewhere gives what it gave before. */
  lemma {:induction false} ReadElsewhere(mem: seq<nat>, at: nat, n: nat, v: nat, x: nat, k: nat)
    requires at + n <= |mem| && (x + k <= at || at + n <= x)
    ensures Bytes(Put(mem, at, n, v), x, k) == Bytes(mem, x, k)
    decreases k
  {
    hide Put, Pow2;
    StoredBytes(mem, at, n, v);
    if k > 0 {
      ReadElsewhere(mem, at, n, v, x + 1, k - 1);
    }
  }

  /** A store followed by a load of the same address and size, when the load goes where the store went. */
  lemma ReadAfterWrite(s: Plain, va: nat, size: nat, val: nat)
    requires Granular(s.c) && Backed(s.c.ranges, |s.mem|) && AreBytes(s.mem) && AccessSize(size) && va % size == 0
    requires Resolve(s.c, s.mem, va, size, Write).Host?
    requires Resolve(s.c, PlainStep(s, Store(va, size, val)).0.mem, va, size, Read) == Resolve(s.c, s.mem, va, size, Write)
    ensures PlainRun(s, [Store(va, size, val), Load(va, size)]).1 == [Stored, Value(val % Pow2(8 * size))]
  {
    hide Resolve, Granular, Backed, Bytes, Put, Pow2, AreBytes, Fresh;
    var ops := [Store(va, size, val), Load(va, size)];
    var t := Resolve(s.c, s.mem, va, size, Write);
    AlignedInPage(va, size);
    NewEntry(s.c, s.mem, va, size, Write, t.ptr, t.paddr, |s.mem|, Entry(va - va % PageSize, t.ptr - va, t.paddr - va));
    ReadBack(s.mem, t.ptr, size, val);
    var s1 := PlainStep(s, ops[0]).0;
    assert s1.mem == Put(s.mem, t.ptr, size, val);
    assert PlainStep(s1, ops[1]).1 == Value(val % Pow2(8 * size));
    assert ops[1..] == [ops[1]] && ops[1..][1..] == [];
    assert PlainRun(s1, ops[1..]).1 == [Value(val % Pow2(8 * size))];
  }

  /** Without translation that is so whenever the load is granted. */
  lemma BareReadAfterWrite(s: Plain, va: nat, size: nat, val: nat)
    requires Granular(s.c) && Backed(s.c.ranges, |s.mem|) && AreBytes(s.mem) && AccessSize(size) && va % size == 0
    requires s.c.mode == 0 && Resolve(s.c, s.mem, va, size, Write).Host? && PmpOk(s.c, va, size, Read)
    ensures PlainRun(s, [Store(va, size, val), Load(va, size)]).1 == [Stored, Value(val % Pow2(8 * size))]
  {
    BareSame(s.c, s.mem, PlainStep(s, Store(va, size, val)).0.mem, va, size);
    hide *;
    ReadAfterWrite(s, va, size, val);
  }

  lemma BareSame(c: Config, mem: seq<nat>, mem': seq<nat>, va: nat, size: nat)
    requires c.mode == 0 && Resolve(c, mem, va, size, Write).Host? && PmpOk(c, va, size, Read)
    ensures Resolve(c, mem', va, size, Read) == Resolve(c, mem, va, size, Write)
  {
    hide PmpOk, Lookup;
  }

  // ---- What an access is answered ----

  /** Where the bytes of a physical address live. */
  predicate LivesAt(c: Config, p: int, ptr: int) {
    p >= 0 && match Lookup(c.ranges, p) case None => false case Some(r) => r.isRam && ptr == r.host + (p - r.addr)
  }

  /** A load: misalignment first, then the walk, the protection, and what memory range there is. */
  lemma LoadAnswers(c: Config, mem: seq<nat>, va: nat, size: nat, p: int)
    requires size > 0
    ensures va % size != 0 ==> LoadReply(c, mem, va, size) == Raised(Misaligned, va)
    ensures va % size == 0 && Walk(c, mem, va, Read) == PageFault ==> LoadReply(c, mem, va, size) == Raised(PageFaultCause, va)
    ensures va % size == 0 && Walk(c, mem, va, Read) == AccessFault ==> LoadReply(c, mem, va, size) == Raised(AccessFaultCause, va)
    ensures va % size == 0 && Walk(c, mem, va, Read) == Paddr(p) && p >= 0 ==>
      var reply := LoadReply(c, mem, va, size);
      if !PmpOk(c, p, size, Read) then reply == Raised(AccessFaultCause, va)
      else if Lookup(c.ranges, p).None? then reply == AtNowhere(p)
      else if !Lookup(c.ranges, p).value.isRam then reply == AtDevice(p)
      else forall ptr: nat :: LivesAt(c, p, ptr) ==> reply == Value(Bytes(mem, ptr, size))
  {
    hide Walk, PmpOk, Lookup, Bytes;
  }

  /** A store likewise; it changes memory only where its bytes live. */
  lemma StoreAnswers(c: Config, mem: seq<nat>, va: nat, size: nat, val: nat, p: int)
    requires size > 0
    ensures StoreReply(c, mem, va, size, val).1 != Stored ==> StoreReply(c, mem, va, size, val).0 == mem
    ensures va % size != 0 ==> StoreReply(c, mem, va, size, val).1 == Raised(Misaligned, va)
    ensures va % size == 0 && Walk(c, mem, va, Write) == PageFault ==> StoreReply(c, mem, va, size, val).1 == Raised(PageFaultCause, va)
    ensures va % size == 0 && Walk(c, mem, va, Write) == AccessFault ==> StoreReply(c, mem, va, size, val).1 == Raised(AccessFaultCause, va)
    ensures va % size == 0 && Walk(c, mem, va, Write) == Paddr(p) && p >= 0 ==>
      var reply := StoreReply(c, mem, va, size, val);
      if !PmpOk(c, p, size, Write) then reply.1 == Raised(AccessFaultCause, va)
      else if Lookup(c.ranges, p).None? then reply.1 == AtNowhere(p)
      else if !Lookup(c.ranges, p).value.isRam then reply.1 == AtDevice(p)
      else forall ptr: nat :: LivesAt(c, p, ptr) ==> reply == (Put(mem, ptr, size, val), Stored)
  {
    hide Walk, PmpOk, Lookup, Put;
  }

  /** A fetch of two bytes: code lives in RAM only. */
  lemma FetchAnswers(c: Config, mem: seq<nat>, va: nat, p: int)
    ensures Walk(c, mem, va, Code) == PageFault ==> FetchReply(c, mem, va) == Raised(PageFaultCause, va)
    ensures Walk(c, mem, va, Code) == AccessFault ==> FetchReply(c, mem, va) == Raised(AccessFaultCause, va)
    ensures Walk(c, mem, va, Code) == Paddr(p) && p >= 0 ==>
      if PmpOk(c, p, 2, Code) && Lookup(c.ranges, p).Some? && Lookup(c.ranges, p).value.isRam
      then forall ptr: nat :: LivesAt(c, p, ptr) ==> FetchReply(c, mem, va) == Value(Bytes(mem, ptr, 2))
      else FetchReply(c, mem, va) == Raised(AccessFaultCause, va)
  {
    hide Walk, PmpOk, Lookup, Bytes;
  }
}
