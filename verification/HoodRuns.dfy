/**
 * Whole runs of the Robin-hood table: any sequence of operations has the replies and the
 * final contents that the same sequence has on a finite map.
 */
module HoodRuns {
  import opened HoodLayout
  import opened HoodSteps
  import opened HoodSizes
  import opened HoodFits
  import opened HoodCrowds
  import opened HoodTable

  datatype Op<K, V> =
    | Insert(key: K, val: V)
    | InsertOrAssign(key: K, val: V)
    | Index(key: K, blank: V, val: V) // t[key] = val, through the reference operator[] creates
    | Erase(key: K)
    | Find(key: K)
    | Reserve(c: nat)
    | Clear

  datatype Reply<V> = Flag(b: bool) | Found(val: V) | Missing | Done

  /** What an operation means on a finite map. */
  function MapStep<K, V>(m: map<K, V>, op: Op<K, V>): (r: (map<K, V>, Reply<V>)) {
    match op
    case Insert(k, v) => (if k in m then m else m[k := v], Flag(k !in m))
    case InsertOrAssign(k, v) => (m[k := v], Flag(k !in m))
    case Index(k, _, v) => (m[k := v], Done)
    case Erase(k) => (m - {k}, Flag(k in m))
    case Find(k) => (m, if k in m then Found(m[k]) else Missing)
    case Reserve(_) => (m, Done)
    case Clear => (map[], Done)
  }

  function MapRun<K, V>(m: map<K, V>, ops: seq<Op<K, V>>): (r: (map<K, V>, seq<Reply<V>>))
    ensures |r.1| == |ops|
    decreases |ops|
  {
    if ops == [] then (m, [])
    else
      var before := MapRun(m, ops[..|ops| - 1]);
      var last := MapStep(before.0, ops[|ops| - 1]);
      (last.0, before.1 + [last.1])
  }

  /** No moment of the run holds more than 126 elements, nor reserves for more. */
  ghost predicate Modest<K, V>(m: map<K, V>, ops: seq<Op<K, V>>) {
    forall i {:trigger ops[..i]} :: 0 <= i <= |ops| ==>
      |MapRun(m, ops[..i]).0| <= 126 && (i < |ops| && ops[i].Reserve? ==> ops[i].c <= 126)
  }

  /** Will this operation throw? A question about the table as it stands. */
  ghost predicate Throws<K, V>(h: K -> nat, s: Snapshot<K, V>, op: Op<K, V>) {
    match op
    case Insert(k, _) => k !in s.m && s.Stuck(h)
    case InsertOrAssign(k, _) => k !in s.m && s.Stuck(h)
    case Index(k, _, _) => k !in s.m && s.Stuck(h)
    case Reserve(c) => s.CannotReserve(h, c)
    case _ => false
  }

  method Perform<K(==), V>(t: Table<K, V>, op: Op<K, V>) returns (ok: bool, reply: Reply<V>)
    requires t.Valid()
    modifies t, t.kv, t.info
    ensures ok <==> !Throws(t.h, old(t.View()), op)
    ensures ok ==> t.Valid() && t.m == MapStep(old(t.m), op).0 && reply == MapStep(old(t.m), op).1
    ensures ok ==> (t.kv == old(t.kv) || fresh(t.kv)) && (t.info == old(t.info) || fresh(t.info))
    ensures ok && old(t.Healthy()) && !Crowd(t.m.Keys, t.h, t.mask + 1) ==> t.Healthy()
  {
    hide Table.Valid, Table.Healthy, Snapshot.Stuck, Snapshot.CannotReserve, Crowd, SizeFor;
    ok, reply := true, Done;
    match op
    case Insert(k, v) =>
      var idx, inserted;
      ok, idx, inserted := t.Insert(k, v);
      reply := Flag(inserted);
    case InsertOrAssign(k, v) =>
      var inserted;
      ok, inserted := t.InsertOrAssign(k, v);
      reply := Flag(inserted);
    case Index(k, blank, v) =>
      var idx, inserted;
      ok, idx, inserted := t.Insert(k, blank);
      if ok {
        ghost var keys := t.m.Keys;
        t.Assign(k, idx, v);
        assert old(t.m)[k := blank][k := v] == old(t.m)[k := v];
        assert t.m.Keys == keys;
      }
    case Erase(k) =>
      var erased := t.Erase(k);
      reply := Flag(erased);
    case Find(k) =>
      var idx := t.FindIdx(k);
      reply := if idx == t.kv.Length then Missing else Found(t.kv[idx].val);
    case Reserve(c) =>
      ok := t.Reserve(c);
    case Clear =>
      t.Clear();
  }

  // ---- Runs that never throw ----

  /**
   * At no moment of the run do the keys crowd together under any table size, and a table of
   * size slots would always have room for one more.
   */
  ghost predicate Calm<K, V>(h: K -> nat, load: nat, size: nat, ops: seq<Op<K, V>>) {
    && PowerOfTwo(size) && InitialNumElements <= size
    && forall i {:trigger ops[..i]} :: 0 <= i <= |ops| ==>
         && |MapRun(map[], ops[..i]).0| < Allowed(size, load)
         && NoCrowd(MapRun(map[], ops[..i]).0.Keys, h)
         && (i < |ops| && ops[i].Reserve? ==> ops[i].c <= Allowed(size, load))
  }

  ghost predicate NoCrowd<K>(keys: set<K>, h: K -> nat) {
    forall n: nat :: n > 0 ==> !Crowd(keys, h, n)
  }

  /** What calm means for one operation. */
  lemma CalmPerforms<K, V>(t: Table<K, V>, op: Op<K, V>, size: nat)
    requires t.Valid() && t.Healthy() && PowerOfTwo(size) && InitialNumElements <= size <= t.room
    requires |t.m| < Allowed(size, t.load) && NoCrowd(t.m.Keys, t.h)
    requires op.Reserve? ==> op.c <= Allowed(size, t.load)
    ensures !Throws(t.h, t.View(), op)
  {
    hide Table.Valid, Table.Healthy, Snapshot.Stuck, Snapshot.CannotReserve, Allowed, Crowd, PowerOfTwo, SizeFor, NoCrowd;
    t.ValidParts();
    match op
    case Insert(k, _) => NotStuck(t, size);
    case InsertOrAssign(k, _) => NotStuck(t, size);
    case Index(k, _, _) => NotStuck(t, size);
    case Reserve(c) =>
      var least := if c > |t.m| then c else |t.m|;
      var n := SizeExists(least, t.load, size);
      Uncrowded(t, n);
      t.ReserveIs(c, n);
    case _ =>
  }

  lemma Uncrowded<K, V>(t: Table<K, V>, n: nat)
    requires NoCrowd(t.m.Keys, t.h) && n > 0
    ensures !t.CrowdedBeforeLast(n) && !Crowd(t.m.Keys, t.h, n)
  {
    hide Crowd;
    t.MovedIs(n);
    if t.CrowdedBeforeLast(n) {
      BeforeLastIsCrowd(t.h, n, t.kv[..], t.m, t.pos);
    }
  }

  lemma NotStuck<K, V>(t: Table<K, V>, size: nat)
    requires t.Valid() && t.Healthy() && PowerOfTwo(size) && InitialNumElements <= size <= t.room
    requires |t.m| < Allowed(size, t.load) && NoCrowd(t.m.Keys, t.h)
    ensures !t.Stuck()
  {
    hide *;
    t.ValidParts();
    t.HealthyIs();
    t.RoomIs();
    t.StuckIs();
    EightIsPower();
    var n := t.mask + 1;
    if t.mask == 0 {
      if size > InitialNumElements {
        NextPower(InitialNumElements, size);
      }
    } else {
      t.Allocated();
      FitParts(t.h, t.load, n, t.scale, t.kv[..], t.info[..], t.m, t.pos, t.maxAllowed);
      Uncrowded(t, 2 * n);
      if n < size {
        NextPower(n, size);
      } else {
        AllowedMono(size, n, t.load);
      }
    }
  }

  /** The least size that admits c elements is no larger than one that does. */
  lemma SizeExists(c: nat, load: nat, size: nat) returns (n: nat)
    requires 10 < load < 100 && PowerOfTwo(size) && InitialNumElements <= size < SizeLimit && c <= Allowed(size, load)
    ensures 0 < n <= size && SizeFor(c, load, n)
  {
    hide PowerOfTwo, Allowed, SizeFor, TooSmallBelow;
    EightIsPower();
    NoneSmaller(load, c);
    n := InitialNumElements;
    while Allowed(n, load) < c
      invariant PowerOfTwo(n) && InitialNumElements <= n <= size && TooSmallBelow(c, load, n)
      decreases size - n
    {
      NextSize(c, load, n);
      NextPower(n, size);
      DoubleWraps(n);
      n := 2 * n;
    }
    LeastSize(c, load, n);
  }

  /** Powers of two are at least twice apart. */
  lemma NextPower(a: nat, b: nat)
    requires PowerOfTwo(a) && PowerOfTwo(b) && a < b
    ensures 2 * a <= b
  {
    hide PowerOfTwo;
    if b < 2 * a {
      PowerOfTwoUnique(b, a);
    }
  }

  /** The tables a run meets: each holds the map so far, and none but the last throws. */
  ghost predicate Along<K, V>(h: K -> nat, load: nat, room: nat, ops: seq<Op<K, V>>, states: seq<Snapshot<K, V>>, n: nat) {
    && |states| == n + 1 && n <= |ops|
    && (forall i {:trigger states[i]} :: 0 <= i <= n ==>
          states[i].load == load && states[i].room == room && states[i].m == MapRun(map[], ops[..i]).0)
    && (forall i {:trigger states[i]} {:trigger ops[i]} :: 0 <= i < n ==> !Throws(h, states[i], ops[i]))
  }

  lemma AlongNone<K, V>(h: K -> nat, load: nat, room: nat, ops: seq<Op<K, V>>, states: seq<Snapshot<K, V>>)
    requires |states| == 1 && states[0].load == load && states[0].room == room && states[0].m == map[]
    ensures Along(h, load, room, ops, states, 0) && MapRun<K, V>(map[], ops[..0]) == (map[], [])
  {
    assert ops[..0] == [];
  }

  lemma AlongNext<K, V>(h: K -> nat, load: nat, room: nat, ops: seq<Op<K, V>>, states: seq<Snapshot<K, V>>, n: nat,
                        next: Snapshot<K, V>)
    requires Along(h, load, room, ops, states, n) && n < |ops| && !Throws(h, states[n], ops[n])
    requires next.load == load && next.room == room && next.m == MapRun(map[], ops[..n + 1]).0
    ensures Along(h, load, room, ops, states + [next], n + 1)
  {
    hide Throws, MapRun;
  }

  /**
   * A run gives the replies of the run on a map, up to the first operation that throws in the
   * table it meets; and a calm run, given the memory, is never cut short, whatever the hash function.
   */
  method Run<K(==), V>(h: K -> nat, load: nat, room: nat, ops: seq<Op<K, V>>)
    returns (ok: bool, replies: seq<Reply<V>>, ghost states: seq<Snapshot<K, V>>)
    requires 10 < load < 100 && 8 <= room && 2 * room < SizeLimit
    ensures |replies| <= |ops| && replies == MapRun(map[], ops[..|replies|]).1
    ensures Along(h, load, room, ops, states, |replies|)
    ensures if ok then |replies| == |ops| else |replies| < |ops| && Throws(h, states[|replies|], ops[|replies|])
    ensures forall size: nat {:trigger Calm(h, load, size, ops)} :: size <= room && Calm(h, load, size, ops) ==> ok
  {
    hide Calm, NoCrowd, Throws, Crowd, Table.Valid, Table.Healthy, Along, MapRun;
    var t := new Table(h, load, room);
    replies, states := [], [t.View()];
    ok := true;
    var i := 0;
    assert ops[..0] == [];
    AlongNone(h, load, room, ops, states);
    while i < |ops|
      invariant i <= |ops| && ok && |replies| == i && t.Valid() && t.h == h && t.load == load && t.room == room
      invariant fresh(t) && fresh(t.kv) && fresh(t.info)
      invariant (t.m, replies) == MapRun(map[], ops[..i])
      invariant |states| == i + 1 && states[i] == t.View() && Along(h, load, room, ops, states, i)
      invariant forall size: nat {:trigger Calm(h, load, size, ops)} :: size <= room && Calm(h, load, size, ops) ==> t.Healthy()
    {
      var reply;
      forall size: nat {:trigger Calm(h, load, size, ops)} | size <= room && Calm(h, load, size, ops) ensures !Throws(h, t.View(), ops[i]) {
        CalmAt(h, load, size, ops, i);
        CalmPerforms(t, ops[i], size);
      }
      ok, reply := Perform(t, ops[i]);
      MapRunStep(map[], ops, i);
      if !ok {
        return;
      }
      forall size: nat {:trigger Calm(h, load, size, ops)} | size <= room && Calm(h, load, size, ops) ensures !Crowd(t.m.Keys, h, t.mask + 1) {
        CalmAt(h, load, size, ops, i + 1);
        Uncrowded(t, t.mask + 1);
      }
      AlongNext(h, load, room, ops, states, i, t.View());
      replies, states := replies + [reply], states + [t.View()];
      i := i + 1;
    }
  }

  lemma CalmAt<K, V>(h: K -> nat, load: nat, size: nat, ops: seq<Op<K, V>>, i: nat)
    requires Calm(h, load, size, ops) && i <= |ops|
    ensures PowerOfTwo(size) && InitialNumElements <= size
    ensures |MapRun(map[], ops[..i]).0| < Allowed(size, load) && NoCrowd(MapRun(map[], ops[..i]).0.Keys, h)
    ensures i < |ops| && ops[i].Reserve? ==> ops[i].c <= Allowed(size, load)
  {
    hide PowerOfTwo, Allowed, NoCrowd, MapRun;
    assert ops[..i] == ops[..i];
  }

  /** Runs of at most 126 elements are calm in a table of 8192 slots. */
  lemma ModestIsCalm<K, V>(h: K -> nat, load: nat, ops: seq<Op<K, V>>)
    requires 10 < load < 100 && Modest(map[], ops)
    ensures Calm(h, load, 8192, ops)
  {
    hide *;
    DoublePowers();
    Allowed8192(load);
    forall i {:trigger ops[..i]} | 0 <= i <= |ops|
      ensures |MapRun(map[], ops[..i]).0| < Allowed(8192, load)
      ensures NoCrowd(MapRun(map[], ops[..i]).0.Keys, h)
      ensures i < |ops| && ops[i].Reserve? ==> ops[i].c <= Allowed(8192, load)
    {
      ModestAt(ops, i);
      FewNoCrowd(MapRun(map[], ops[..i]).0, h);
    }
    CalmIs(h, load, 8192, ops);
  }

  lemma ModestAt<K, V>(ops: seq<Op<K, V>>, i: nat)
    requires Modest(map[], ops) && i <= |ops|
    ensures |MapRun(map[], ops[..i]).0| <= 126 && (i < |ops| && ops[i].Reserve? ==> ops[i].c <= 126)
  {
    hide MapRun;
    assert ops[..i] == ops[..i];
  }

  lemma CalmIs<K, V>(h: K -> nat, load: nat, size: nat, ops: seq<Op<K, V>>)
    requires PowerOfTwo(size) && InitialNumElements <= size
    requires forall i {:trigger ops[..i]} :: 0 <= i <= |ops| ==>
               && |MapRun(map[], ops[..i]).0| < Allowed(size, load)
               && NoCrowd(MapRun(map[], ops[..i]).0.Keys, h)
               && (i < |ops| && ops[i].Reserve? ==> ops[i].c <= Allowed(size, load))
    ensures Calm(h, load, size, ops)
  {
    hide MapRun, NoCrowd, Allowed, PowerOfTwo;
  }

  lemma FewNoCrowd<K, V>(m: map<K, V>, h: K -> nat)
    requires |m| <= 126
    ensures NoCrowd(m.Keys, h)
  {
    forall n: nat | n > 0 ensures !Crowd(m.Keys, h, n) {
      SmallNoCrowd(m.Keys, h, n);
    }
  }

  lemma Allowed8192(load: nat)
    requires 10 < load < 100
    ensures Allowed(8192, load) > 126
  {
  }

  lemma DoublePowers()
    ensures PowerOfTwo(8192) && InitialNumElements <= 8192
  {
    assert PowerOfTwo(16) && PowerOfTwo(128);
    assert PowerOfTwo(1024);
  }

  lemma MapRunStep<K, V>(m: map<K, V>, ops: seq<Op<K, V>>, i: nat)
    requires i < |ops|
    ensures MapRun(m, ops[..i + 1]).0 == MapStep(MapRun(m, ops[..i]).0, ops[i]).0
    ensures MapRun(m, ops[..i + 1]).1 == MapRun(m, ops[..i]).1 + [MapStep(MapRun(m, ops[..i]).0, ops[i]).1]
  {
    assert ops[..i + 1][..i] == ops[..i];
  }

  // ---- A run that throws ----

  /** 102 keys at home 255 and 102 at 256, which a table of 256 home slots sends to 0. */
  function Clustered(i: nat): nat { if i < 102 then 255 * 32 else 256 * 32 }

  ghost function UpTo(n: nat): (s: set<nat>)
    ensures forall i: nat :: i in s <==> i < n
  {
    if n == 0 then {} else UpTo(n - 1) + {n - 1}
  }

  lemma {:induction false} UpToSize(n: nat)
    ensures |UpTo(n)| == n
    decreases n
  {
    if n > 0 {
      UpToSize(n - 1);
    }
  }

  lemma ClusteredHome(k: nat)
    ensures Home(Clustered(k), 256) == if k < 102 then 255 else 0
    ensures Home(Clustered(k), 512) == if k < 102 then 255 else 256
  {
  }

  /** In 256 home slots the clusters lie at opposite ends. */
  lemma ClustersApart(n: nat)
    requires n <= 204
    ensures !Crowd(UpTo(n), Clustered, 256)
  {
    hide UpTo, Clustered, Home;
    forall a: nat, b: nat {:trigger HomesIn(UpTo(n), Clustered, 256, a, b)} | a <= b
      ensures |HomesIn(UpTo(n), Clustered, 256, a, b)| < b - a + 127
    {
      FewHomes(n, a, b);
    }
  }

  lemma FewHomes(n: nat, a: nat, b: nat)
    requires n <= 204 && a <= b
    ensures |HomesIn(UpTo(n), Clustered, 256, a, b)| < b - a + 127
  {
    hide UpTo, Clustered, Home;
    var ks := HomesIn(UpTo(n), Clustered, 256, a, b);
    forall k | k in ks ensures k < n && (b < 255 ==> k >= 102) && (a > 0 ==> k < 102) {
      ClusteredHome(k);
    }
    UpToSize(102);
    UpToSize(204);
    if b < 255 {
      var tail := UpTo(204) - UpTo(102);
      assert UpTo(204) == tail + UpTo(102);
      SubsetSize(ks, tail);
    } else if a > 0 {
      SubsetSize(ks, UpTo(102));
    } else {
      SubsetSize(ks, UpTo(204));
    }
  }

  /** In 512 they are neighbours, even without one key. */
  lemma ClustersMeet(k: nat)
    requires k < 204
    ensures Crowd(UpTo(204) - {k}, Clustered, 512)
  {
    hide UpTo, Clustered, Home;
    UpToSize(204);
    var ks := UpTo(204) - {k};
    assert |ks| == 203;
    forall i | i in ks ensures 255 <= Home(Clustered(i), 512) <= 256 {
      ClusteredHome(i);
    }
    assert HomesIn(ks, Clustered, 512, 255, 256) == ks;
  }

  lemma SizeFor204()
    ensures SizeFor(204, 80, 256)
  {
    assert PowerOfTwo(8) && PowerOfTwo(32) && PowerOfTwo(128);
    assert PowerOfTwo(256);
    forall k {:trigger PowerOfTwo(k)} | InitialNumElements <= k < 256 && PowerOfTwo(k) ensures Allowed(k, 80) < 204 {
      if 128 < k {
        PowerOfTwoUnique(k, 128);
      }
      AllowedMono(k, 128, 80);
    }
  }

  lemma KeysCount<K, V>(m: map<K, V>)
    ensures |m| == |m.Keys|
  {
  }

  lemma NextKeys(m: map<nat, bool>, i: nat)
    requires m.Keys == UpTo(i)
    ensures m[i := true].Keys == UpTo(i + 1)
  {
    assert m[i := true].Keys == m.Keys + {i};
  }

  /** While fewer than 204 keys are in, a table of 256 has or makes room in place. */
  lemma NotFull(t: Table<nat, bool>, i: nat)
    requires t.Valid() && t.mask == 255 && t.Healthy() && t.load == 80 && i < 204 && t.m.Keys == UpTo(i)
    ensures i !in t.m && (|t.m| < t.maxAllowed || t.Refinable()) && !t.Stuck()
  {
    hide *;
    UpToSize(i);
    KeysCount(t.m);
    MemberUpTo(i, i);
    t.Allocated();
    t.HealthyIs();
    t.RoomIs();
    t.StuckIs();
    Allowed256();
    FitParts(t.h, t.load, 256, t.scale, t.kv[..], t.info[..], t.m, t.pos, t.maxAllowed);
  }

  lemma MemberUpTo(i: nat, n: nat)
    ensures i in UpTo(n) <==> i < n
  {
  }

  lemma Allowed256()
    ensures Allowed(256, 80) == 204 && Allowed(512, 80) == 409
  {
  }

  /** With 204 keys it must double, and moving into 512 home slots overflows. */
  lemma Full(t: Table<nat, bool>)
    requires t.Valid() && t.mask == 255 && t.load == 80 && t.h == Clustered && t.m.Keys == UpTo(204)
    ensures 204 !in t.m && t.Stuck() && |t.m| >= t.maxAllowed
    ensures !t.Refinable() && !t.Hopeless() && t.CrowdedBeforeLast(512)
  {
    hide *;
    UpToSize(204);
    KeysCount(t.m);
    MemberUpTo(204, 204);
    MemberUpTo(0, 204);
    t.Allocated();
    t.RoomIs();
    t.StuckIs();
    t.MovedIs(512);
    Allowed256();
    FitParts(t.h, t.load, 256, t.scale, t.kv[..], t.info[..], t.m, t.pos, t.maxAllowed);
    HoldsOf(t.h, 256, t.scale, t.kv[..], t.info[..], t.m, t.pos);
    var k := BeforeLastIsAllButOne(t.h, 512, t.kv[..], t.m, t.pos);
    MemberUpTo(k, 204);
    ClustersMeet(k);
  }

  /** An empty table can be moved anywhere. */
  lemma EmptyReserve<K, V>(t: Table<K, V>, n: nat)
    requires t.m == map[] && n > 0
    ensures !t.CrowdedBeforeLast(n)
  {
    hide Crowd;
    t.MovedIs(n);
    SmallNoCrowd(t.m.Keys, t.h, n);
    if t.CrowdedBeforeLast(n) {
      BeforeLastIsCrowd(t.h, n, t.kv[..], t.m, t.pos);
    }
  }

  /** 204 insertions fill a table of 256 home slots without harm. */
  method ClusteredTable(room: nat) returns (t: Table<nat, bool>)
    requires 512 <= room && 2 * room < SizeLimit
    ensures t.Valid() && t.Healthy() && t.mask == 255 && t.h == Clustered && t.load == 80 && t.room == room
    ensures t.m.Keys == UpTo(204) && fresh(t) && fresh(t.kv) && fresh(t.info)
  {
    hide *;
    t := new Table(Clustered, 80, room);
    SizeFor204();
    EmptyReserve(t, 256);
    t.ReserveIs(204, 256);
    var ok := t.Reserve(204);
    OneSize(204, 80, t.mask + 1, 256);
    var i := 0;
    assert UpTo(0) == {};
    ClustersApart(0);
    while i < 204
      invariant i <= 204 && t.Valid() && t.mask == 255 && t.Healthy() && fresh(t) && fresh(t.kv) && fresh(t.info)
      invariant t.h == Clustered && t.load == 80 && t.room == room && t.m.Keys == UpTo(i)
    {
      NotFull(t, i);
      ghost var m0 := t.m;
      var idx, inserted;
      ok, idx, inserted := t.Insert(i, true);
      NextKeys(m0, i);
      i := i + 1;
      ClustersApart(i);
    }
  }

  /**
   * The overflow that insert_move calls impossible: the next insertion into that table doubles
   * it, for which there is memory, and brings the clusters together before the last key moves.
   */
  method MergedClusters(room: nat) returns (t: Table<nat, bool>, ghost filled: Snapshot<nat, bool>, ok: bool)
    requires 512 <= room && 2 * room < SizeLimit
    ensures filled.mask == 255 && filled.load == 80 && filled.room == room && filled.m.Keys == UpTo(204)
    ensures 204 !in filled.m && filled.Stuck(Clustered) && !filled.Refinable() && !filled.Hopeless()
    ensures CrowdBeforeLast(Clustered, 512, filled.kv, filled.m, filled.pos)
    ensures !ok
  {
    hide *;
    t := ClusteredTable(room);
    Full(t);
    FilledIs(t);
    filled := t.View();
    var idx, inserted;
    ok, idx, inserted := t.Insert(204, true);
  }

  lemma FilledIs(t: Table<nat, bool>)
    ensures var s := t.View();
            && s.mask == t.mask && s.load == t.load && s.room == t.room && s.m == t.m
            && (s.Stuck(t.h) <==> t.Stuck()) && (s.Refinable() <==> t.Refinable()) && (s.Hopeless() <==> t.Hopeless())
            && (CrowdBeforeLast(t.h, 512, s.kv, s.m, s.pos) <==> t.CrowdedBeforeLast(512))
  {
    hide Snapshot.Stuck, Snapshot.Refinable, Snapshot.Hopeless, CrowdBeforeLast;
  }
}
