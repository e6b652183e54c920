/** Chunked byte sets: the addresses and bytes one memory operation touches. */
module GoldData {
  import opened Powers
  import opened ByteOrder

  datatype Chunk = Chunk(addr: nat, data: seq<nat>) {
    predicate IsHit(a: nat) { addr <= a < addr + |data| }
  }

  datatype Data = Data(chunks: seq<Chunk>, device: bool) {
    predicate HasData() { chunks != [] }
  }

  const Empty := Data([], false)

  /** The bytes of a number, lowest first. */
  function BytesOf(v: nat, n: nat): (s: seq<nat>)
    ensures |s| == n
    decreases n
  {
    if n == 0 then [] else [v % 256] + BytesOf(v / 256, n - 1)
  }

  function ValueOf(s: seq<nat>): nat {
    if s == [] then 0 else s[0] + 256 * ValueOf(s[1..])
  }

  /** Reading back the bytes of a number gives the number, cut to their width. */
  lemma {:induction false} BytesRoundTrip(v: nat, n: nat)
    ensures ValueOf(BytesOf(v, n)) <= v
    ensures v < Limit(n) ==> ValueOf(BytesOf(v, n)) == v
    decreases n
  {
    if n > 0 {
      BytesRoundTrip(v / 256, n - 1);
      assert BytesOf(v, n)[1..] == BytesOf(v / 256, n - 1);
    }
  }

  function Limit(n: nat): nat { if n == 0 then 1 else 256 * Limit(n - 1) }

  /** The bytes written are those of the number, byte k being v / 2^(8 k) % 256. */
  lemma {:induction false} BytesInNumbers(v: nat, n: nat)
    ensures HasBytes(v % Pow2(8 * n), BytesOf(v, n))
    decreases n
  {
    hide *;
    BytesOfDef(v, n);
    ByteBase();
    if n == 0 {
      NoBytes();
      DivModUnique(v, 1, v, 0);
    } else {
      BytesInNumbers(v / 256, n - 1);
      CutStep(v, n - 1);
      Prepend(v % 256, v / 256 % Pow2(8 * (n - 1)), BytesOf(v / 256, n - 1));
    }
  }

  lemma BytesOfDef(v: nat, n: nat)
    ensures n == 0 ==> BytesOf(v, n) == []
    ensures n > 0 ==> BytesOf(v, n) == [v % 256] + BytesOf(v / 256, n - 1)
  {
  }

  lemma {:induction false} LimitIs(n: nat)
    ensures Limit(n) == Pow2(8 * n)
  {
    ByteBase();
    if n > 0 {
      LimitIs(n - 1);
      Pow2Add(8, 8 * (n - 1));
    }
  }

  /** The number read is the one with these bytes. */
  lemma {:induction false} ValueInNumbers(s: seq<nat>)
    requires AreBytes(s)
    ensures HasBytes(ValueOf(s), s)
    decreases |s|
  {
    hide HasBytes;
    if s == [] {
      NoBytes();
    } else {
      ValueInNumbers(s[1..]);
      Prepend(s[0], ValueOf(s[1..]), s[1..]);
      assert [s[0]] + s[1..] == s;
    }
  }

  /** sort_chunks after one chunk has been appended to chunks already in order. */
  function Inserted(cs: seq<Chunk>, c: Chunk): seq<Chunk> {
    if cs == [] || cs[|cs| - 1].addr < c.addr then cs + [c]
    else Inserted(cs[..|cs| - 1], c) + [cs[|cs| - 1]]
  }

  /** add_addr for one address; a byte that is new has no particular value yet. */
  method AddByte(d: Data, a: nat, any: nat) returns (r: Data)
    ensures r.device == d.device
    ensures d.chunks == [] ==> r.chunks == [Chunk(a, [any])]
    ensures |d.chunks| == 1 && a == d.chunks[0].addr + |d.chunks[0].data| > 0 && |d.chunks[0].data| > 0 ==>
              r.chunks == [Chunk(d.chunks[0].addr, d.chunks[0].data + [any])]
  {
    r := d;
    var i := 0;
    while i < |d.chunks|
      invariant i <= |d.chunks| && r == d
      invariant |d.chunks| == 1 && a == d.chunks[0].addr + |d.chunks[0].data| && |d.chunks[0].data| > 0 ==> i == 0
    {
      var c := d.chunks[i];
      if c.IsHit(a) {
        return;
      }
      if c.addr == a + 1 {
        r := d.(chunks := d.chunks[i := Chunk(a, [any] + c.data)]);
        return;
      }
      if c.addr + |c.data| == a {
        // the test for a neighbour to merge with never holds, so none is merged
        r := d.(chunks := d.chunks[i := Chunk(c.addr, c.data + [any])]);
        return;
      }
      i := i + 1;
    }
    r := d.(chunks := Inserted(d.chunks, Chunk(a, [any])));
  }

  /** add_addr for a range, into data that is empty: one chunk. */
  method AddRange(a: nat, n: nat, any: nat) returns (d: Data)
    requires n > 0
    ensures |d.chunks| == 1 && d.chunks[0].addr == a && |d.chunks[0].data| == n && !d.device
  {
    d := Empty;
    var i := 0;
    while i < n
      invariant i <= n && !d.device
      invariant if i == 0 then d.chunks == [] else |d.chunks| == 1 && d.chunks[0].addr == a && |d.chunks[0].data| == i
    {
      d := AddByte(d, a + i, any);
      i := i + 1;
    }
  }

  method SetByte(d: Data, a: nat, b: nat) returns (r: Data)
    requires exists i :: 0 <= i < |d.chunks| && d.chunks[i].IsHit(a)
    ensures r.device == d.device
    ensures |d.chunks| == 1 ==> r.chunks == [d.chunks[0].(data := d.chunks[0].data[a - d.chunks[0].addr := b])]
  {
    var i := 0;
    while !d.chunks[i].IsHit(a)
      invariant i < |d.chunks| && forall k :: 0 <= k < i ==> !d.chunks[k].IsHit(a)
      decreases |d.chunks| - i
    {
      i := i + 1;
    }
    var c := d.chunks[i];
    r := d.(chunks := d.chunks[i := c.(data := c.data[a - c.addr := b])]);
  }

  /** set_data over a whole single chunk. */
  method SetData(d: Data, a: nat, n: nat, v: nat) returns (r: Data)
    requires |d.chunks| == 1 && d.chunks[0].addr == a && |d.chunks[0].data| == n
    ensures r == d.(chunks := [Chunk(a, BytesOf(v, n))])
  {
    hide BytesOf;
    r := d;
    var i, w := 0, v;
    while i < n
      invariant i <= n && |r.chunks| == 1 && r.chunks[0].addr == a && |r.chunks[0].data| == n && r.device == d.device
      invariant r.chunks[0].data[..i] + BytesOf(w, n - i) == BytesOf(v, n)
    {
      assert r.chunks[0].IsHit(a + i);
      ghost var before := r.chunks[0].data;
      r := SetByte(r, a + i, w % 256);
      OneMoreByte(before, r.chunks[0].data, i, w, BytesOf(v, n));
      w := w / 256;
      i := i + 1;
    }
    BytesOfDef(w, 0);
    assert r.chunks[0].data[..n] + [] == r.chunks[0].data;
  }

  lemma OneMoreByte(before: seq<nat>, after: seq<nat>, i: nat, w: nat, all: seq<nat>)
    requires i < |before| && after == before[i := w % 256] && before[..i] + BytesOf(w, |before| - i) == all
    ensures after[..i + 1] + BytesOf(w / 256, |before| - (i + 1)) == all
  {
    hide BytesOf;
    BytesOfDef(w, |before| - i);
    assert after[..i + 1] == before[..i] + [w % 256];
  }

  method GetByte(d: Data, a: nat, any: nat) returns (b: nat)
    ensures |d.chunks| == 1 && d.chunks[0].IsHit(a) ==> b == d.chunks[0].data[a - d.chunks[0].addr]
  {
    var i := 0;
    while i < |d.chunks|
      invariant i <= |d.chunks|
      invariant |d.chunks| == 1 && d.chunks[0].IsHit(a) ==> i == 0
    {
      if d.chunks[i].IsHit(a) {
        return d.chunks[i].data[a - d.chunks[i].addr];
      }
      i := i + 1;
    }
    b := any;
  }

  /** get_data over a whole single chunk: from the highest byte down. */
  method GetData(d: Data, a: nat, n: nat) returns (v: nat)
    requires |d.chunks| == 1 && d.chunks[0].addr == a && |d.chunks[0].data| == n
    ensures v == ValueOf(d.chunks[0].data)
  {
    v := 0;
    var i := 0;
    assert d.chunks[0].data[n..] == [];
    while i < n
      invariant i <= n && v == ValueOf(d.chunks[0].data[n - i..])
    {
      var b := GetByte(d, a + n - i - 1, 0);
      assert d.chunks[0].data[n - i - 1..] == [b] + d.chunks[0].data[n - i..];
      v := v * 256 + b;
      i := i + 1;
    }
    assert d.chunks[0].data[0..] == d.chunks[0].data;
  }
}
