/**
 * The traversal of the live cache: a merge sort of the lines by the order of their last
 * accesses, and the list of addresses it gives.
 */
module LiveTraversal {
  import opened LruSpec
  import Powers
  import opened LiveCache

  ghost predicate SortedByOrder(s: seq<Line>) {
    forall i, j :: 0 <= i < j < |s| ==> s[i].order <= s[j].order
  }

  lemma TakeNext(s: seq<Line>, k: nat)
    requires k < |s|
    ensures multiset(s[..k + 1]) == multiset(s[..k]) + multiset{s[k]}
  {
    assert s[..k + 1] == s[..k] + [s[k]];
  }

  /** One element more of a merge, the smaller of the two heads. */
  ghost predicate Merging(out: seq<Line>, a: seq<Line>, b: seq<Line>, m: nat, n: nat)
    requires m <= |a| && n <= |b|
  {
    && SortedByOrder(out) && multiset(out) == multiset(a[..m]) + multiset(b[..n])
    && (forall x, i :: x in out && m <= i < |a| ==> x.order <= a[i].order)
    && (forall x, i :: x in out && n <= i < |b| ==> x.order <= b[i].order)
  }

  lemma MergingFirst(out: seq<Line>, a: seq<Line>, b: seq<Line>, m: nat, n: nat)
    requires m < |a| && n <= |b| && Merging(out, a, b, m, n) && SortedByOrder(a) && SortedByOrder(b)
    requires n < |b| ==> a[m].order <= b[n].order
    ensures Merging(out + [a[m]], a, b, m + 1, n)
  {
    TakeNext(a, m);
    var out' := out + [a[m]];
    forall x, i | x in out' && n <= i < |b| ensures x.order <= b[i].order {
      if x == a[m] && i > n {
        assert b[n].order <= b[i].order;
      }
    }
    assert multiset(out') == multiset(out) + multiset{a[m]};
  }

  lemma MergingSecond(out: seq<Line>, a: seq<Line>, b: seq<Line>, m: nat, n: nat)
    requires m <= |a| && n < |b| && Merging(out, a, b, m, n) && SortedByOrder(a) && SortedByOrder(b)
    requires m < |a| ==> b[n].order <= a[m].order
    ensures Merging(out + [b[n]], a, b, m, n + 1)
  {
    TakeNext(b, n);
    var out' := out + [b[n]];
    forall x, i | x in out' && m <= i < |a| ensures x.order <= a[i].order {
      if x == b[n] && i > m {
        assert a[m].order <= a[i].order;
      }
    }
    assert multiset(out') == multiset(out) + multiset{b[n]};
  }

  method PutAt(arr: array<Line>, i: nat, l: Line)
    requires i < arr.Length
    modifies arr
    ensures arr[..i + 1] == old(arr[..i]) + [l]
    ensures forall k :: i < k < arr.Length ==> arr[k] == old(arr[k])
  {
    ghost var out := arr[..i];
    arr[i] := l;
    assert arr[..i] == out;
    assert arr[..i + 1] == arr[..i] + [l];
  }

  /** The merging loop, over copies of the two sorted halves. */
  method Merge(arr: array<Line>, arr1: array<Line>, arr2: array<Line>)
    requires arr != arr1 && arr != arr2 && arr1.Length + arr2.Length <= arr.Length
    requires SortedByOrder(arr1[..]) && SortedByOrder(arr2[..])
    modifies arr
    ensures var len := arr1.Length + arr2.Length;
            && SortedByOrder(arr[..len]) && multiset(arr[..len]) == multiset(arr1[..]) + multiset(arr2[..])
            && arr[len..] == old(arr[len..])
  {
    hide *;
    var mid, len := arr1.Length, arr1.Length + arr2.Length;
    var m, n := 0, 0;
    ghost var a, b := arr1[..], arr2[..];
    MergingNone(a, b);
    assert arr[..0] == [];
    for i := 0 to len
      invariant m <= mid && n <= len - mid && m + n == i
      invariant Merging(arr[..i], a, b, m, n)
      invariant forall k :: len <= k < arr.Length ==> arr[k] == old(arr[k])
    {
      ghost var out := arr[..i];
      if n >= len - mid || (m < mid && arr1[m].order <= arr2[n].order) {
        MergingFirst(out, a, b, m, n);
        PutAt(arr, i, arr1[m]);
        m := m + 1;
      } else {
        MergingSecond(out, a, b, m, n);
        PutAt(arr, i, arr2[n]);
        n := n + 1;
      }
    }
    assert arr[len..] == old(arr[len..]);
    MergingAll(arr[..len], a, b);
  }

  lemma MergingNone(a: seq<Line>, b: seq<Line>)
    ensures Merging([], a, b, 0, 0)
  {
  }

  lemma MergingAll(out: seq<Line>, a: seq<Line>, b: seq<Line>)
    requires Merging(out, a, b, |a|, |b|)
    ensures SortedByOrder(out) && multiset(out) == multiset(a) + multiset(b)
  {
    assert a[..|a|] == a && b[..|b|] == b;
  }

  /** mergeSort: the first len lines come into the order of their last accesses. */
  method MergeSort(arr: array<Line>, len: nat)
    requires len <= arr.Length
    modifies arr
    ensures SortedByOrder(arr[..len]) && multiset(arr[..len]) == multiset(old(arr[..len]))
    ensures arr[len..] == old(arr[len..])
    decreases len, 0
  {
    hide SortedByOrder;
    if len < 2 {
      SortedShort(arr[..len]);
      return;
    }
    if len == 2 {
      SortTwo(arr);
      return;
    }
    var mid := len / 2;
    var arr1 := CopyOf(arr, 0, mid);
    var arr2 := CopyOf(arr, mid, len - mid);
    ghost var a, b := arr1[..], arr2[..];
    assert arr[..len] == a + b;
    SortAll(arr1);
    SortAll(arr2);
    Merge(arr, arr1, arr2);
  }

  method SortAll(arr: array<Line>)
    modifies arr
    ensures SortedByOrder(arr[..]) && multiset(arr[..]) == multiset(old(arr[..]))
    decreases arr.Length, 1
  {
    hide SortedByOrder;
    assert arr[..arr.Length] == arr[..];
    MergeSort(arr, arr.Length);
    assert arr[..arr.Length] == arr[..];
  }

  method CopyOf(arr: array<Line>, from: nat, n: nat) returns (part: array<Line>)
    requires from + n <= arr.Length
    ensures fresh(part) && part.Length == n && part[..] == arr[from..from + n]
  {
    part := new Line[n](_ => Line(0, false, 0));
    for i := 0 to n
      invariant part[..i] == arr[from..from + i]
    {
      part[i] := arr[from + i];
    }
  }

  method SortTwo(arr: array<Line>)
    requires arr.Length >= 2
    modifies arr
    ensures SortedByOrder(arr[..2]) && multiset(arr[..2]) == multiset(old(arr[..2])) && arr[2..] == old(arr[2..])
  {
    if arr[0].order > arr[1].order {
      arr[0], arr[1] := arr[1], arr[0];
    }
    assert arr[..2] == [arr[0], arr[1]] && old(arr[..2]) == [old(arr[0]), old(arr[1])];
  }

  lemma SortedShort(s: seq<Line>)
    requires |s| < 2
    ensures SortedByOrder(s)
  {
  }

  // ---- Resident lines, each once ----

  /** Lines with the same tag are empty ones. */
  ghost predicate Unique(ms: multiset<Line>) {
    forall x, y :: x in ms && y in ms && x.tag == y.tag != 0 ==> x == y && ms[x] == 1
  }

  ghost predicate TagsDiffer(s: seq<Line>) {
    forall i, j :: 0 <= i < j < |s| && s[i].tag == s[j].tag ==> s[i].tag == 0
  }

  lemma {:induction false} UniqueFrom(s: seq<Line>)
    requires TagsDiffer(s)
    ensures Unique(multiset(s))
    decreases |s|
  {
    if s != [] {
      UniqueFrom(s[1..]);
      assert s == [s[0]] + s[1..];
      assert multiset(s) == multiset{s[0]} + multiset(s[1..]);
      if s[0].tag != 0 {
        forall y | y in multiset(s[1..]) ensures y.tag != s[0].tag {
          assert y in s[1..];
          var j :| 0 <= j < |s[1..]| && s[1..][j] == y;
          assert s[j + 1] == y;
        }
      }
    }
  }

  lemma {:induction false} UniqueTo(s: seq<Line>)
    requires Unique(multiset(s))
    ensures TagsDiffer(s)
    decreases |s|
  {
    if s != [] {
      assert s == [s[0]] + s[1..];
      assert multiset(s) == multiset{s[0]} + multiset(s[1..]);
      UniqueTo(s[1..]);
      forall j | 0 < j < |s| && s[j].tag == s[0].tag ensures s[0].tag == 0 {
        assert s[j] in multiset(s[1..]) by {
          assert s[1..][j - 1] == s[j];
        }
      }
    }
  }

  /** The lines whose order is not zero. */
  function Ordered(s: seq<Line>): seq<Line> {
    if s == [] then [] else Ordered(s[..|s| - 1]) + (if s[|s| - 1].order != 0 then [s[|s| - 1]] else [])
  }

  lemma {:induction false} OrderedIs(s: seq<Line>, x: Line)
    ensures x in Ordered(s) <==> x in s && x.order != 0
    decreases |s|
  {
    if s != [] {
      OrderedIs(s[..|s| - 1], x);
      assert s == s[..|s| - 1] + [s[|s| - 1]];
    }
  }

  lemma {:induction false} OrderedDiffer(s: seq<Line>)
    requires TagsDiffer(s)
    ensures TagsDiffer(Ordered(s))
    decreases |s|
  {
    if s != [] {
      var front, z := s[..|s| - 1], s[|s| - 1];
      OrderedDiffer(front);
      forall i | 0 <= i < |Ordered(front)| && Ordered(front)[i].tag == z.tag ensures z.tag == 0 {
        OrderedIs(front, Ordered(front)[i]);
        var j :| 0 <= j < |front| && front[j] == Ordered(front)[i];
        assert s[j].tag == z.tag;
      }
    }
  }

  /** The lines that have a tag. */
  function Tagged(s: seq<Line>): seq<Line> {
    if s == [] then [] else Tagged(s[..|s| - 1]) + (if s[|s| - 1].tag != 0 then [s[|s| - 1]] else [])
  }

  lemma {:induction false} TaggedIs(s: seq<Line>, x: Line)
    ensures x in Tagged(s) <==> x in s && x.tag != 0
    decreases |s|
  {
    if s != [] {
      TaggedIs(s[..|s| - 1], x);
      assert s == s[..|s| - 1] + [s[|s| - 1]];
    }
  }

  /** In sorted lines with tags of their own, orders that tell tags apart grow strictly. */
  lemma {:induction false} TaggedSorted(s: seq<Line>)
    requires SortedByOrder(s) && TagsDiffer(s)
    requires forall x, y :: x in s && y in s && x.tag != 0 && y.tag != 0 && x.order == y.order ==> x.tag == y.tag
    ensures forall i, j :: 0 <= i < j < |Tagged(s)| ==> Tagged(s)[i].order < Tagged(s)[j].order
    decreases |s|
  {
    if s != [] {
      var front, z := s[..|s| - 1], s[|s| - 1];
      TaggedSorted(front);
      forall i | 0 <= i < |Tagged(front)| && z.tag != 0 ensures Tagged(front)[i].order < z.order {
        TaggedIs(front, Tagged(front)[i]);
        var j :| 0 <= j < |front| && front[j] == Tagged(front)[i];
        assert s[j].order <= z.order && s[j].tag != z.tag;
        assert s[j] in s && z in s;
      }
    }
  }

  // ---- The lines of a cache ----

  ghost function AllLines(c: LiveCache): (all: seq<Line>)
    requires c.Valid()
    reads c, c.mem, c.content
    ensures |all| == c.mem.Length == c.content.Length
    ensures forall i :: 0 <= i < |all| ==> c.content[i] < c.mem.Length && all[i] == c.mem[c.content[i]]
  {
    assert c.content[..][0..] == c.content[..];
    LinesAt(c.mem[..], c.content[..], 0, c.mem.Length)
  }

  /** Is a tag in the cache? */
  ghost predicate InCache(c: LiveCache, t: nat)
    requires c.Valid()
    reads c, c.mem, c.content
  {
    t in Resident(c.trace, c.sets, c.assoc, SetOf(t, c.sets))
  }

  lemma MulKeeps(a: nat, b: nat, n: nat)
    ensures a <= b ==> a * n <= b * n
  {
  }

  lemma PlaceOf(i: nat, sets: nat, n: nat)
    requires n > 0 && i < sets * n
    ensures i / n < sets && i == SetBase(i / n, n) + i % n
  {
    var q := i / n;
    assert i == q * n + i % n;
    MulKeeps(sets, q, n);
  }

  lemma HasSets(c: LiveCache)
    requires c.Valid()
    ensures c.sets > 0 && c.assoc > 1
  {
    hide SetHolds;
  }

  lemma LineAt(c: LiveCache, i: nat)
    requires c.Valid() && i < c.mem.Length && AllLines(c)[i].tag != 0
    ensures var l := AllLines(c)[i];
            && l == LineOf(c.trace, c.sets, c.assoc, l.tag) && SetOf(l.tag, c.sets) == i / c.assoc
            && i % c.assoc < |Resident(c.trace, c.sets, c.assoc, i / c.assoc)|
            && Resident(c.trace, c.sets, c.assoc, i / c.assoc)[i % c.assoc] == l.tag && InCache(c, l.tag)
  {
    hide SetHolds, Resident, LineOf;
    PlaceOf(i, c.sets, c.assoc);
    var s, pos := i / c.assoc, i % c.assoc;
    c.ValidSays(s);
    var lines := LinesAt(c.mem[..], c.content[..], SetBase(s, c.assoc), c.assoc);
    assert lines[pos] == AllLines(c)[i];
    SetLine(lines, c.trace, c.sets, c.assoc, s, pos);
    ResidentSet(c.trace, c.sets, c.assoc, s, lines[pos].tag);
  }

  lemma SetLine(lines: seq<Line>, trace: seq<Access>, sets: nat, n: nat, s: nat, pos: nat)
    requires sets > 0 && SetHolds(lines, trace, sets, n, s) && pos < n && lines[pos].tag != 0
    ensures pos < |Resident(trace, sets, n, s)| && Resident(trace, sets, n, s)[pos] == lines[pos].tag
    ensures lines[pos] == LineOf(trace, sets, n, lines[pos].tag)
  {
    hide Resident;
  }

  lemma LinesDiffer(c: LiveCache)
    requires c.Valid()
    ensures TagsDiffer(AllLines(c))
  {
    hide SetHolds, Resident, LineOf, AllLines;
    var all := AllLines(c);
    forall i, j | 0 <= i < j < |all| && all[i].tag == all[j].tag ensures all[i].tag == 0 {
      if all[i].tag != 0 {
        HasSets(c);
        LineAt(c, i);
        LineAt(c, j);
        SamePlace(c, i, j);
      }
    }
  }

  lemma SamePlace(c: LiveCache, i: nat, j: nat)
    requires c.Valid() && i < c.mem.Length && j < c.mem.Length && c.sets > 0 && c.assoc > 0
    requires i / c.assoc == j / c.assoc && i % c.assoc < |Resident(c.trace, c.sets, c.assoc, i / c.assoc)|
    requires j % c.assoc < |Resident(c.trace, c.sets, c.assoc, i / c.assoc)|
    requires Resident(c.trace, c.sets, c.assoc, i / c.assoc)[i % c.assoc] == Resident(c.trace, c.sets, c.assoc, i / c.assoc)[j % c.assoc]
    ensures i == j
  {
    hide *;
    ResidentDistinct(c.trace, c.sets, c.assoc, i / c.assoc, i % c.assoc, j % c.assoc);
    SameParts(i, j, c.assoc);
  }

  lemma ResidentDistinct(trace: seq<Access>, sets: nat, n: nat, s: nat, i: nat, j: nat)
    requires sets > 0 && i < |Resident(trace, sets, n, s)| && j < |Resident(trace, sets, n, s)|
    requires Resident(trace, sets, n, s)[i] == Resident(trace, sets, n, s)[j]
    ensures i == j
  {
    hide Mru;
    MruDistinct(trace, sets, s);
    TakeDistinct(Mru(trace, sets, s), n);
  }

  lemma SameParts(i: nat, j: nat, n: nat)
    requires n > 0 && i / n == j / n && i % n == j % n
    ensures i == j
  {
    assert i == n * (i / n) + i % n && j == n * (j / n) + j % n;
  }

  lemma ResidentLine(c: LiveCache, t: nat)
    requires c.Valid() && InCache(c, t)
    ensures LineOf(c.trace, c.sets, c.assoc, t) in AllLines(c)
  {
    hide SetHolds, LineOf;
    var s := SetOf(t, c.sets);
    c.ValidSays(s);
    var r := Resident(c.trace, c.sets, c.assoc, s);
    var pos :| 0 <= pos < |r| && r[pos] == t;
    var lines := LinesAt(c.mem[..], c.content[..], SetBase(s, c.assoc), c.assoc);
    SetLineOf(lines, c.trace, c.sets, c.assoc, s, pos);
    assert AllLines(c)[SetBase(s, c.assoc) + pos] == lines[pos];
  }

  lemma SetLineOf(lines: seq<Line>, trace: seq<Access>, sets: nat, n: nat, s: nat, pos: nat)
    requires sets > 0 && SetHolds(lines, trace, sets, n, s) && pos < |Resident(trace, sets, n, s)|
    ensures pos < n == |lines| && lines[pos] == LineOf(trace, sets, n, Resident(trace, sets, n, s)[pos])
  {
    hide Resident;
  }

  // ---- traverse ----

  /** The address of a line, with the lowest bit set for a line written since it was filled. */
  function Entry(l: Line, lineSize: nat): nat {
    l.tag * lineSize + if l.st then 1 else 0
  }

  /** The tag an address of the list belongs to. */
  function TagOf(addr: nat, lineSize: nat): nat {
    if lineSize == 0 then 0 else addr / lineSize
  }

  predicate Lists(addrs: seq<nat>, lineSize: nat, t: nat) {
    exists i :: 0 <= i < |addrs| && TagOf(addrs[i], lineSize) == t
  }

  /** The addresses stand for these tags, each with its mark in the lowest bit. */
  ghost predicate StandFor(addrs: seq<nat>, tags: seq<nat>, lineSize: nat, trace: seq<Access>, sets: nat, n: nat)
    requires sets > 0
  {
    |addrs| == |tags| && forall i :: 0 <= i < |tags| ==>
      addrs[i] == Entry(Line(tags[i], Written(trace, sets, n, tags[i]), 0), lineSize)
  }

  /** An address tells its tag and its mark apart. */
  lemma AddressTells(addrs: seq<nat>, tags: seq<nat>, lineSize: nat, trace: seq<Access>, sets: nat, n: nat, i: nat)
    requires sets > 0 && StandFor(addrs, tags, lineSize, trace, sets, n)
    requires lineSize > 0 && lineSize % 2 == 0 && i < |addrs|
    ensures TagOf(addrs[i], lineSize) == tags[i]
    ensures addrs[i] % lineSize == if Written(trace, sets, n, tags[i]) then 1 else 0
  {
    hide Written;
    Powers.DivModUnique(addrs[i], lineSize, tags[i], if Written(trace, sets, n, tags[i]) then 1 else 0);
  }

  lemma ListsTags(addrs: seq<nat>, tags: seq<nat>, lineSize: nat, trace: seq<Access>, sets: nat, n: nat, t: nat)
    requires sets > 0 && StandFor(addrs, tags, lineSize, trace, sets, n) && lineSize > 0 && lineSize % 2 == 0
    ensures Lists(addrs, lineSize, t) <==> t in tags
  {
    hide TagOf, Written, StandFor;
    assert |addrs| == |tags| by { StandForLength(addrs, tags, lineSize, trace, sets, n); }
    if Lists(addrs, lineSize, t) {
      var i :| 0 <= i < |addrs| && TagOf(addrs[i], lineSize) == t;
      AddressTells(addrs, tags, lineSize, trace, sets, n, i);
    }
    if t in tags {
      var i :| 0 <= i < |tags| && tags[i] == t;
      AddressTells(addrs, tags, lineSize, trace, sets, n, i);
    }
  }

  lemma StandForLength(addrs: seq<nat>, tags: seq<nat>, lineSize: nat, trace: seq<Access>, sets: nat, n: nat)
    requires sets > 0 && StandFor(addrs, tags, lineSize, trace, sets, n)
    ensures |addrs| == |tags|
  {
  }

  lemma StandForEach(addrs: seq<nat>, tags: seq<nat>, lineSize: nat, trace: seq<Access>, sets: nat, n: nat)
    requires sets > 0 && |addrs| == |tags|
    requires forall i :: 0 <= i < |tags| ==> addrs[i] == Entry(Line(tags[i], Written(trace, sets, n, tags[i]), 0), lineSize)
    ensures StandFor(addrs, tags, lineSize, trace, sets, n)
  {
  }

  lemma LineSizeIs(c: LiveCache)
    requires c.Valid()
    ensures c.lineSize > 0 && c.sets > 0
  {
  }

  /** What addresses that stand for these tags tell. */
  lemma TraversalStates(c: LiveCache, addrs: seq<nat>, tags: seq<nat>)
    requires c.Valid() && c.sets > 0 && c.lineSize > 0 && c.lineSize % 2 == 0
    requires StandFor(addrs, tags, c.lineSize, c.trace, c.sets, c.assoc)
    requires forall i, j :: 0 <= i < j < |tags| ==> Last(c.trace, tags[i]) < Last(c.trace, tags[j])
    requires forall t :: t in tags <==> t != 0 && InCache(c, t) && Last(c.trace, t) != 0
    ensures forall i :: 0 <= i < |addrs| ==>
              addrs[i] % c.lineSize == if Written(c.trace, c.sets, c.assoc, TagOf(addrs[i], c.lineSize)) then 1 else 0
    ensures forall i, j :: 0 <= i < j < |addrs| ==>
              Last(c.trace, TagOf(addrs[i], c.lineSize)) < Last(c.trace, TagOf(addrs[j], c.lineSize))
    ensures forall t :: Lists(addrs, c.lineSize, t) <==> t != 0 && InCache(c, t) && Last(c.trace, t) != 0
  {
    hide *;
    StandForLength(addrs, tags, c.lineSize, c.trace, c.sets, c.assoc);
    forall i | 0 <= i < |addrs|
      ensures TagOf(addrs[i], c.lineSize) == tags[i]
      ensures addrs[i] % c.lineSize == if Written(c.trace, c.sets, c.assoc, tags[i]) then 1 else 0
    {
      AddressTells(addrs, tags, c.lineSize, c.trace, c.sets, c.assoc, i);
    }
    forall t ensures Lists(addrs, c.lineSize, t) <==> t in tags {
      ListsTags(addrs, tags, c.lineSize, c.trace, c.sets, c.assoc, t);
    }
  }

  /**
   * The traversal lists every resident line of nonzero order once, by increasing last
   * access, marked when it was written since it was filled. Only the line of the very first
   * access, until accessed again, has order zero.
   */
  method Traverse(c: LiveCache) returns (addrs: seq<nat>)
    requires c.Valid() && c.lineSize % 2 == 0
    ensures c.lineSize > 0 && c.sets > 0
    ensures forall i :: 0 <= i < |addrs| ==>
              addrs[i] % c.lineSize == if Written(c.trace, c.sets, c.assoc, TagOf(addrs[i], c.lineSize)) then 1 else 0
    ensures forall i, j :: 0 <= i < j < |addrs| ==>
              Last(c.trace, TagOf(addrs[i], c.lineSize)) < Last(c.trace, TagOf(addrs[j], c.lineSize))
    ensures forall t :: Lists(addrs, c.lineSize, t) <==> t != 0 && InCache(c, t) && Last(c.trace, t) != 0
  {
    hide *;
    LineSizeIs(c);
    HasSets(c);
    ghost var all := AllLines(c);
    var lineCount := c.mem.Length;
    var arr := new Line[lineCount](_ => Line(0, false, 0));
    var cnt := 0;
    OrderedNone();
    assert all[..0] == [] && arr[..0] == [];
    for i := 0 to lineCount
      invariant cnt <= i && arr[..cnt] == Ordered(all[..i])
    {
      var l := c.mem[c.content[i]];
      OrderedNext(all, i);
      ghost var front := arr[..cnt];
      if l.order != 0 {
        arr[cnt] := l;
        cnt := cnt + 1;
        assert arr[..cnt] == front + [l];
      }
    }
    assert all[..lineCount] == all;
    MergeSort(arr, cnt);
    ghost var sorted := arr[..cnt];
    addrs := [];
    TaggedNone();
    assert sorted[..0] == [];
    for i := 0 to cnt
      invariant arr[..cnt] == sorted
      invariant |addrs| == |Tagged(sorted[..i])|
      invariant forall k :: 0 <= k < |addrs| ==> addrs[k] == Entry(Tagged(sorted[..i])[k], c.lineSize)
    {
      assert arr[i] == sorted[i];
      TaggedNext(sorted, i);
      EntryIs(arr[i], c.lineSize);
      if arr[i].tag != 0 {
        addrs := addrs + [if arr[i].st then arr[i].tag * c.lineSize + 1 else arr[i].tag * c.lineSize];
      }
    }
    assert sorted[..cnt] == sorted;
    ghost var tags := seq(|Tagged(sorted)|, k requires 0 <= k < |Tagged(sorted)| => Tagged(sorted)[k].tag);
    TraversalRight(c, sorted, tags);
    forall i | 0 <= i < |tags| ensures addrs[i] == Entry(Line(tags[i], Written(c.trace, c.sets, c.assoc, tags[i]), 0), c.lineSize) {
      TraversalLine(c, sorted, i);
      EntryIs(Tagged(sorted)[i], c.lineSize);
      EntryIs(Line(tags[i], Written(c.trace, c.sets, c.assoc, tags[i]), 0), c.lineSize);
    }
    StandForEach(addrs, tags, c.lineSize, c.trace, c.sets, c.assoc);
    TraversalStates(c, addrs, tags);
  }

  /** The tag of an address is the address divided by the line size, its set the tag modulo the number of sets. */
  lemma ListedInNumbers(c: LiveCache, addrs: seq<nat>)
    requires c.Valid() && c.sets > 0 && c.lineSize > 0
    requires forall t :: Lists(addrs, c.lineSize, t) <==> t != 0 && InCache(c, t) && Last(c.trace, t) != 0
    ensures forall i :: 0 <= i < |addrs| ==> TagOf(addrs[i], c.lineSize) == addrs[i] / c.lineSize
    ensures forall t: nat :: (exists i :: 0 <= i < |addrs| && addrs[i] / c.lineSize == t)
              <==> t != 0 && t in Resident(c.trace, c.sets, c.assoc, t % c.sets) && Last(c.trace, t) != 0
  {
    hide Resident, LiveCache.Valid, Last;
    forall t: nat ensures (exists i :: 0 <= i < |addrs| && addrs[i] / c.lineSize == t) <==> Lists(addrs, c.lineSize, t) {
      if i :| 0 <= i < |addrs| && addrs[i] / c.lineSize == t {
        assert TagOf(addrs[i], c.lineSize) == t;
      }
      if Lists(addrs, c.lineSize, t) {
        var i :| 0 <= i < |addrs| && TagOf(addrs[i], c.lineSize) == t;
        assert addrs[i] / c.lineSize == t;
      }
    }
    forall t: nat ensures InCache(c, t) <==> t in Resident(c.trace, c.sets, c.assoc, t % c.sets) {
      SetIs(t, c.sets);
    }
  }

  lemma SetIs(t: nat, sets: nat)
    requires sets > 0
    ensures SetOf(t, sets) == t % sets
  {
  }

  lemma OrderedNone()
    ensures Ordered([]) == []
  {
  }

  lemma TaggedNone()
    ensures Tagged([]) == []
  {
  }

  lemma OrderedNext(s: seq<Line>, i: nat)
    requires i < |s|
    ensures Ordered(s[..i + 1]) == Ordered(s[..i]) + (if s[i].order != 0 then [s[i]] else [])
  {
    assert s[..i + 1][..i] == s[..i];
  }

  lemma TaggedNext(s: seq<Line>, i: nat)
    requires i < |s|
    ensures Tagged(s[..i + 1]) == Tagged(s[..i]) + (if s[i].tag != 0 then [s[i]] else [])
  {
    assert s[..i + 1][..i] == s[..i];
  }

  lemma EntryIs(l: Line, lineSize: nat)
    ensures Entry(l, lineSize) == if l.st then l.tag * lineSize + 1 else l.tag * lineSize
  {
  }

  /** A line of the traversal is a resident line of nonzero order. */
  lemma SortedLine(c: LiveCache, sorted: seq<Line>, l: Line)
    requires c.Valid() && multiset(sorted) == multiset(Ordered(AllLines(c))) && l in sorted
    ensures l in AllLines(c) && l.order != 0
    ensures l.tag != 0 ==> InCache(c, l.tag) && l == LineOf(c.trace, c.sets, c.assoc, l.tag)
  {
    hide LiveCache.Valid, AllLines, InCache, LineOf, Ordered;
    assert l in multiset(sorted);
    assert l in Ordered(AllLines(c));
    OrderedIs(AllLines(c), l);
    var i :| 0 <= i < |AllLines(c)| && AllLines(c)[i] == l;
    if l.tag != 0 {
      LineAt(c, i);
    }
  }

  lemma TraversalLine(c: LiveCache, sorted: seq<Line>, i: nat)
    requires c.Valid() && multiset(sorted) == multiset(Ordered(AllLines(c))) && i < |Tagged(sorted)|
    ensures var l := Tagged(sorted)[i]; l.tag != 0 && l.st == Written(c.trace, c.sets, c.assoc, l.tag)
  {
    hide LiveCache.Valid, AllLines, InCache, Ordered, Tagged;
    TaggedIs(sorted, Tagged(sorted)[i]);
    SortedLine(c, sorted, Tagged(sorted)[i]);
  }

  lemma TraversalRight(c: LiveCache, sorted: seq<Line>, tags: seq<nat>)
    requires c.Valid() && SortedByOrder(sorted) && multiset(sorted) == multiset(Ordered(AllLines(c)))
    requires |tags| == |Tagged(sorted)| && forall k :: 0 <= k < |tags| ==> tags[k] == Tagged(sorted)[k].tag
    ensures forall i, j :: 0 <= i < j < |tags| ==> Last(c.trace, tags[i]) < Last(c.trace, tags[j])
    ensures forall t :: t in tags <==> t != 0 && InCache(c, t) && Last(c.trace, t) != 0
  {
    hide LiveCache.Valid, AllLines, InCache, Ordered, Tagged, SortedByOrder, TagsDiffer, Unique, Written;
    HasSets(c);
    LinesDiffer(c);
    OrderedDiffer(AllLines(c));
    UniqueFrom(Ordered(AllLines(c)));
    UniqueTo(sorted);
    forall x, y | x in sorted && y in sorted && x.tag != 0 && y.tag != 0 && x.order == y.order ensures x.tag == y.tag {
      SortedLine(c, sorted, x);
      SortedLine(c, sorted, y);
      InTraceLine(c, x.tag);
      InTraceLine(c, y.tag);
    }
    TaggedSorted(sorted);
    forall i | 0 <= i < |tags|
      ensures tags[i] != 0 && InCache(c, tags[i]) && Last(c.trace, tags[i]) == Tagged(sorted)[i].order != 0
    {
      TaggedIs(sorted, Tagged(sorted)[i]);
      SortedLine(c, sorted, Tagged(sorted)[i]);
    }
    forall t | t != 0 && InCache(c, t) && Last(c.trace, t) != 0 ensures t in tags {
      ResidentLine(c, t);
      var l := LineOf(c.trace, c.sets, c.assoc, t);
      OrderedIs(AllLines(c), l);
      assert l in multiset(sorted);
      TaggedIs(sorted, l);
      var i :| 0 <= i < |Tagged(sorted)| && Tagged(sorted)[i] == l;
      assert tags[i] == t;
    }
  }

  lemma InTraceLine(c: LiveCache, t: nat)
    requires c.Valid() && InCache(c, t)
    ensures Last(c.trace, t) >= 0 && c.trace[Last(c.trace, t)].tag == t
  {
    InTrace(c.trace, c.sets, SetOf(t, c.sets), t);
  }
}
