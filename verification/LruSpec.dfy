/**
 * What a least-recently-used cache should hold: the distinct tags of a set in order of their
 * last access, as many of them as the associativity allows.
 */
module LruSpec {

  datatype Access = Access(tag: nat, write: bool)

  function SetOf(tag: nat, sets: nat): nat
    requires sets > 0
  {
    tag % sets
  }

  function Without(s: seq<nat>, x: nat): (r: seq<nat>)
    ensures |r| <= |s| && x !in r
    ensures forall y :: y in r ==> y in s
    ensures forall y :: y in s && y != x ==> y in r
  {
    if s == [] then [] else if s[0] == x then Without(s[1..], x) else [s[0]] + Without(s[1..], x)
  }

  /** The tags of set s that the trace accesses, the most recent first. */
  function Mru(trace: seq<Access>, sets: nat, s: nat): (r: seq<nat>)
    requires sets > 0
    ensures forall t :: t in r ==> SetOf(t, sets) == s
    decreases |trace|
  {
    if trace == [] then []
    else
      var e := trace[|trace| - 1];
      var before := Mru(trace[..|trace| - 1], sets, s);
      if SetOf(e.tag, sets) == s then [e.tag] + Without(before, e.tag) else before
  }

  function Take(s: seq<nat>, n: nat): (r: seq<nat>)
    ensures |r| == if |s| < n then |s| else n
  {
    if |s| < n then s else s[..n]
  }

  /** What set s of an n-way cache holds after the trace, the most recent first. */
  function Resident(trace: seq<Access>, sets: nat, n: nat, s: nat): seq<nat>
    requires sets > 0
  {
    Take(Mru(trace, sets, s), n)
  }

  predicate Distinct(s: seq<nat>) { forall i, j :: 0 <= i < j < |s| ==> s[i] != s[j] }

  lemma {:induction false} WithoutDistinct(s: seq<nat>, x: nat)
    requires Distinct(s)
    ensures Distinct(Without(s, x))
    ensures x !in s ==> Without(s, x) == s
    decreases |s|
  {
    if s != [] {
      WithoutDistinct(s[1..], x);
      assert s[0] !in s[1..];
      assert s == [s[0]] + s[1..];
    }
  }

  /** Removing the one occurrence of an element closes the gap it leaves. */
  lemma {:induction false} WithoutAt(s: seq<nat>, i: nat)
    requires Distinct(s) && i < |s|
    ensures Without(s, s[i]) == s[..i] + s[i + 1..]
    decreases |s|
  {
    if i == 0 {
      WithoutDistinct(s[1..], s[0]);
      assert s[0] !in s[1..];
    } else {
      WithoutAt(s[1..], i - 1);
      assert s[1..][..i - 1] == s[1..i] && s[1..][i..] == s[i + 1..];
      assert [s[0]] + s[1..i] == s[..i];
    }
  }

  lemma {:induction false} MruDistinct(trace: seq<Access>, sets: nat, s: nat)
    requires sets > 0
    ensures Distinct(Mru(trace, sets, s))
    decreases |trace|
  {
    if trace != [] {
      MruDistinct(trace[..|trace| - 1], sets, s);
      WithoutDistinct(Mru(trace[..|trace| - 1], sets, s), trace[|trace| - 1].tag);
    }
  }

  /** The tags of a set are those the trace accessed. */
  lemma {:induction false} MruMembers(trace: seq<Access>, sets: nat, s: nat, t: nat)
    requires sets > 0
    ensures t in Mru(trace, sets, s) <==> t % sets == s && exists i :: 0 <= i < |trace| && trace[i].tag == t
    decreases |trace|
  {
    if trace != [] {
      var before := trace[..|trace| - 1];
      MruMembers(before, sets, s, t);
      if exists i :: 0 <= i < |before| && before[i].tag == t {
        var i :| 0 <= i < |before| && before[i].tag == t;
        assert trace[i].tag == t;
      }
    }
  }

  lemma TakeOnce(m: seq<nat>, n: nat, x: nat)
    requires Distinct(m) && n > 0
    ensures Take([x] + Without(m, x), n) == Take([x] + Without(Take(m, n), x), n)
  {
    if x in m {
      var i :| 0 <= i < |m| && m[i] == x;
      WithoutAt(m, i);
      if |m| >= n {
        TakeCut(m, n, i);
      }
    } else {
      WithoutDistinct(m, x);
      WithoutDistinct(Take(m, n), x);
    }
  }

  lemma TakeCut(m: seq<nat>, n: nat, i: nat)
    requires Distinct(m) && 0 < n <= |m| && i < |m|
    ensures Take([m[i]] + (m[..i] + m[i + 1..]), n) == Take([m[i]] + Without(m[..n], m[i]), n)
  {
    var x := m[i];
    if i < n {
      WithoutAt(m[..n], i);
      assert m[..n][..i] == m[..i] && m[..n][i + 1..] == m[i + 1..n];
    } else {
      assert x !in m[..n];
      WithoutDistinct(m[..n], x);
    }
  }

  lemma TakeNew(r: seq<nat>, n: nat, x: nat)
    requires Distinct(r) && x !in r && n > 0 && |r| <= n
    ensures Take([x] + Without(r, x), n) == [x] + Take(r, n - 1)
  {
    WithoutDistinct(r, x);
  }

  /** Moving a resident tag to the front, or pushing an absent one, is what the trace calls for. */
  lemma AccessResident(trace: seq<Access>, sets: nat, n: nat, s: nat, e: Access)
    requires sets > 0 && n > 0 && SetOf(e.tag, sets) == s
    ensures var r := Resident(trace, sets, n, s);
            && Resident(trace + [e], sets, n, s) == Take([e.tag] + Without(r, e.tag), n)
            && (e.tag !in r ==> Resident(trace + [e], sets, n, s) == [e.tag] + Take(r, n - 1))
            && Distinct(r)
  {
    hide Take, Without, SetOf;
    assert (trace + [e])[..|trace|] == trace;
    MruDistinct(trace, sets, s);
    TakeOnce(Mru(trace, sets, s), n, e.tag);
    TakeDistinct(Mru(trace, sets, s), n);
    if e.tag !in Resident(trace, sets, n, s) {
      TakeNew(Resident(trace, sets, n, s), n, e.tag);
    }
  }

  lemma TakeDistinct(m: seq<nat>, n: nat)
    requires Distinct(m)
    ensures Distinct(Take(m, n))
  {
  }

  /** A larger associativity holds at least as much: no more misses. */
  lemma LargerHoldsMore(trace: seq<Access>, sets: nat, n: nat, n': nat, s: nat)
    requires sets > 0 && n <= n'
    ensures Resident(trace, sets, n, s) <= Resident(trace, sets, n', s)
  {
  }

  /** The position in the trace of the last access to a tag, of -1 if there is none. */
  function Last(trace: seq<Access>, t: nat): (i: int)
    ensures -1 <= i < |trace|
    ensures i >= 0 ==> trace[i].tag == t
    ensures forall k :: i < k < |trace| ==> trace[k].tag != t
    decreases |trace|
  {
    if trace == [] then -1
    else if trace[|trace| - 1].tag == t then |trace| - 1
    else Last(trace[..|trace| - 1], t)
  }

  /** Has the tag been written since it last entered the cache? */
  function Written(trace: seq<Access>, sets: nat, n: nat, t: nat): bool
    requires sets > 0
    decreases |trace|
  {
    if trace == [] then false
    else
      var e, before := trace[|trace| - 1], trace[..|trace| - 1];
      if e.tag != t then Written(before, sets, n, t)
      else e.write || (t in Resident(before, sets, n, SetOf(t, sets)) && Written(before, sets, n, t))
  }

  /** What is left keeps its order. */
  lemma {:induction false} WithoutOrder(m: seq<nat>, x: nat, i: nat, j: nat) returns (a: nat, b: nat)
    requires i < j < |Without(m, x)|
    ensures a < b < |m| && m[a] == Without(m, x)[i] && m[b] == Without(m, x)[j]
    decreases |m|
  {
    if m[0] == x {
      a, b := WithoutOrder(m[1..], x, i, j);
      a, b := a + 1, b + 1;
    } else if i == 0 {
      a := 0;
      var y := Without(m, x)[j];
      assert y in m[1..];
      var k :| 0 <= k < |m[1..]| && m[1..][k] == y;
      b := k + 1;
    } else {
      a, b := WithoutOrder(m[1..], x, i - 1, j - 1);
      a, b := a + 1, b + 1;
    }
  }

  /** Recency is the order of last accesses. */
  lemma {:induction false} MruByLast(trace: seq<Access>, sets: nat, s: nat, i: nat, j: nat)
    requires sets > 0 && i < j < |Mru(trace, sets, s)|
    ensures Last(trace, Mru(trace, sets, s)[i]) > Last(trace, Mru(trace, sets, s)[j]) >= 0
    decreases |trace|
  {
    hide SetOf, Without;
    var before, e := trace[..|trace| - 1], trace[|trace| - 1];
    var m, m0 := Mru(trace, sets, s), Mru(before, sets, s);
    if SetOf(e.tag, sets) != s {
      OtherSet(trace, sets, s, m[i]);
      OtherSet(trace, sets, s, m[j]);
      MruByLast(before, sets, s, i, j);
    } else if i > 0 {
      assert m[i] == Without(m0, e.tag)[i - 1] && m[j] == Without(m0, e.tag)[j - 1];
      var a, b := WithoutOrder(m0, e.tag, i - 1, j - 1);
      MruByLast(before, sets, s, a, b);
    } else {
      assert m[j] == Without(m0, e.tag)[j - 1];
      assert m[j] in m0;
      InTrace(before, sets, s, m[j]);
    }
  }

  lemma OtherSet(trace: seq<Access>, sets: nat, s: nat, t: nat)
    requires sets > 0 && trace != [] && t in Mru(trace, sets, s) && SetOf(trace[|trace| - 1].tag, sets) != s
    ensures Last(trace, t) == Last(trace[..|trace| - 1], t)
  {
  }

  lemma InTrace(trace: seq<Access>, sets: nat, s: nat, t: nat)
    requires sets > 0 && t in Mru(trace, sets, s)
    ensures Last(trace, t) >= 0
  {
    MruMembers(trace, sets, s, t);
  }

  // ---- Residence by stack distance ----

  ghost function Tags(trace: seq<Access>): set<nat> {
    set i | 0 <= i < |trace| :: trace[i].tag
  }

  /** The tags of the set of t that were accessed after its last access. */
  ghost function Newer(trace: seq<Access>, sets: nat, t: nat): set<nat>
    requires sets > 0
  {
    set u | u in Tags(trace) && u % sets == t % sets && Last(trace, u) > Last(trace, t)
  }

  ghost function Elements(s: seq<nat>): set<nat> {
    set x | x in s
  }

  lemma {:induction false} DistinctCount(s: seq<nat>)
    requires Distinct(s)
    ensures |Elements(s)| == |s|
    decreases |s|
  {
    if s == [] {
      assert Elements(s) == {};
    } else {
      DistinctCount(s[1..]);
      assert s[0] !in s[1..];
      assert s == [s[0]] + s[1..];
      assert Elements(s) == {s[0]} + Elements(s[1..]);
    }
  }

  lemma NewerIsFront(trace: seq<Access>, sets: nat, t: nat, i: nat)
    requires sets > 0
    requires var m := Mru(trace, sets, t % sets); i < |m| && m[i] == t
    ensures Newer(trace, sets, t) == Elements(Mru(trace, sets, t % sets)[..i])
  {
    hide Mru, Last;
    var s, m := t % sets, Mru(trace, sets, t % sets);
    forall u ensures u in Newer(trace, sets, t) <==> u in m[..i] {
      MruMembers(trace, sets, s, u);
      if u in m {
        var j :| 0 <= j < |m| && m[j] == u;
        if j < i {
          MruByLast(trace, sets, s, j, i);
          assert m[..i][j] == u;
        } else if j > i {
          MruByLast(trace, sets, s, i, j);
        }
        if u in m[..i] {
          var k :| 0 <= k < i && m[..i][k] == u;
          MruByLast(trace, sets, s, k, i);
          InTrace(trace, sets, s, u);
        }
      }
    }
  }

  /** A tag is in an n-way cache exactly when fewer than n others of its set were accessed since its own last access. */
  lemma StackDistance(trace: seq<Access>, sets: nat, n: nat, t: nat)
    requires sets > 0
    ensures t in Resident(trace, sets, n, t % sets) <==> Last(trace, t) >= 0 && |Newer(trace, sets, t)| < n
  {
    hide Mru, Last, Newer;
    var s, m := t % sets, Mru(trace, sets, t % sets);
    MruMembers(trace, sets, s, t);
    MruDistinct(trace, sets, s);
    if t in m {
      var i :| 0 <= i < |m| && m[i] == t;
      NewerIsFront(trace, sets, t, i);
      DistinctCount(m[..i]);
      InTrace(trace, sets, s, t);
      if i < n {
        assert Take(m, n)[i] == t;
      }
    } else {
      NoAccess(trace, t);
    }
  }

  lemma NoAccess(trace: seq<Access>, t: nat)
    ensures Last(trace, t) >= 0 <==> exists i :: 0 <= i < |trace| && trace[i].tag == t
  {
  }

  /** The write mark, accesses ago: some access wrote the line, and since then every access found it in the cache. */
  ghost predicate WrittenAt(trace: seq<Access>, sets: nat, n: nat, t: nat, k: nat)
    requires sets > 0
  {
    && k < |trace| && trace[k] == Access(t, true)
    && forall i :: k < i < |trace| && trace[i].tag == t ==> t in Resident(trace[..i], sets, n, t % sets)
  }

  lemma {:induction false} WrittenMeans(trace: seq<Access>, sets: nat, n: nat, t: nat)
    requires sets > 0
    ensures Written(trace, sets, n, t) <==> exists k: nat :: WrittenAt(trace, sets, n, t, k)
    decreases |trace|
  {
    hide Resident;
    if trace != [] {
      var e, before := trace[|trace| - 1], trace[..|trace| - 1];
      WrittenMeans(before, sets, n, t);
      forall k: nat | k < |before|
        ensures WrittenAt(trace, sets, n, t, k) <==>
          WrittenAt(before, sets, n, t, k) && (e.tag == t ==> t in Resident(before, sets, n, t % sets))
      {
        WrittenBefore(trace, sets, n, t, k);
      }
      if Written(trace, sets, n, t) {
        if e == Access(t, true) {
          assert WrittenAt(trace, sets, n, t, |trace| - 1);
        } else {
          var k: nat :| WrittenAt(before, sets, n, t, k);
          assert WrittenAt(trace, sets, n, t, k);
        }
      }
      if k: nat :| WrittenAt(trace, sets, n, t, k) {
        if k == |trace| - 1 {
          assert e == Access(t, true);
        } else {
          assert WrittenAt(before, sets, n, t, k);
        }
      }
    }
  }

  lemma WrittenBefore(trace: seq<Access>, sets: nat, n: nat, t: nat, k: nat)
    requires sets > 0 && k + 1 < |trace|
    ensures var e, before := trace[|trace| - 1], trace[..|trace| - 1];
      WrittenAt(trace, sets, n, t, k) <==>
        WrittenAt(before, sets, n, t, k) && (e.tag == t ==> t in Resident(before, sets, n, t % sets))
  {
    hide Resident;
    var before := trace[..|trace| - 1];
    assert forall i :: 0 <= i <= |before| ==> trace[..i] == before[..i];
    assert trace[..|before|] == before;
  }
}
