/**
 * The flattened-device-tree builder: begin, property and end calls append words to a table
 * and intern property names; the finished blob parses back to the calls.
 */
module FdtBuilder {
  import opened DeviceTree
  import opened Wrappers

  // ---- Balanced calls ----

  function Change(t: Token): int {
    if t.Begin? then 1 else if t.End? then -1 else 0
  }

  /** The number of nodes left open. */
  function Depth(ts: seq<Token>): int {
    if ts == [] then 0 else Depth(ts[..|ts| - 1]) + Change(ts[|ts| - 1])
  }

  /** No End comes before its Begin, and every Begin has its End. */
  ghost predicate Balanced(ts: seq<Token>) {
    Depth(ts) == 0 && forall k :: 0 <= k <= |ts| ==> Depth(ts[..k]) >= 0
  }

  lemma DepthNext(ts: seq<Token>, t: Token)
    ensures Depth(ts + [t]) == Depth(ts) + Change(t)
  {
    assert (ts + [t])[..|ts|] == ts;
  }

  lemma {:induction false} DepthFront(ts: seq<Token>)
    requires ts != []
    ensures Depth(ts) == Change(ts[0]) + Depth(ts[1..])
    decreases |ts|
  {
    if |ts| == 1 {
      assert ts[..0] == [] && ts[1..] == [];
    } else {
      var front := ts[..|ts| - 1];
      DepthFront(front);
      assert front[1..] == ts[1..][..|ts| - 2];
    }
  }

  /** Read from the front with d nodes open, the calls end with none open. */
  predicate Closes(ts: seq<Token>, d: nat) {
    if ts == [] then d == 0
    else if ts[0].End? then d > 0 && Closes(ts[1..], d - 1)
    else Closes(ts[1..], d + Change(ts[0]))
  }

  /** Balanced from the depth d onwards. */
  ghost predicate Level(ts: seq<Token>, d: int) {
    d + Depth(ts) == 0 && forall k :: 0 <= k <= |ts| ==> d + Depth(ts[..k]) >= 0
  }

  lemma LevelFront(ts: seq<Token>, d: int)
    requires ts != []
    ensures Level(ts, d) <==> d >= 0 && Level(ts[1..], d + Change(ts[0]))
  {
    hide Depth, Change;
    DepthFront(ts);
    assert Depth(ts[..0]) == 0 by { DepthNone(ts[..0]); }
    forall k | 1 <= k <= |ts|
      ensures Depth(ts[..k]) == Change(ts[0]) + Depth(ts[1..][..k - 1])
    {
      DepthFront(ts[..k]);
      assert ts[..k][1..] == ts[1..][..k - 1];
    }
    if d >= 0 && Level(ts[1..], d + Change(ts[0])) {
      forall k | 0 <= k <= |ts|
        ensures d + Depth(ts[..k]) >= 0
      {
        if k > 0 {
          assert d + Change(ts[0]) + Depth(ts[1..][..k - 1]) >= 0;
        }
      }
    }
    if Level(ts, d) {
      forall k | 0 <= k <= |ts[1..]|
        ensures d + Change(ts[0]) + Depth(ts[1..][..k]) >= 0
      {
        assert d + Depth(ts[..k + 1]) >= 0;
      }
    }
  }

  lemma DepthNone(ts: seq<Token>)
    requires ts == []
    ensures Depth(ts) == 0
  {
  }

  lemma {:induction false} ClosesIsLevel(ts: seq<Token>, d: nat)
    ensures Closes(ts, d) <==> Level(ts, d)
    decreases |ts|
  {
    hide Depth, Level;
    if ts == [] {
      LevelNone(ts, d);
    } else {
      LevelFront(ts, d);
      if d + Change(ts[0]) >= 0 {
        ClosesIsLevel(ts[1..], d + Change(ts[0]));
      } else {
        LevelNegative(ts[1..], d + Change(ts[0]));
      }
    }
  }

  lemma LevelNone(ts: seq<Token>, d: int)
    requires ts == []
    ensures Level(ts, d) <==> d == 0
  {
    assert ts[..0] == [];
  }

  lemma LevelNegative(ts: seq<Token>, d: int)
    requires d < 0
    ensures !Level(ts, d)
  {
    assert ts[..0] == [];
    assert Depth(ts[..0]) == 0;
  }

  /** Items were found in front of the calls, and the rest closes the d nodes that were open. */
  ghost predicate Found(ts: seq<Token>, d: nat) {
    && Rebuild(ts).Some?
    && var (items, rest) := Rebuild(ts).value;
    && ts == Flatten(items) + rest
    && (if d == 0 then rest == [] else rest != [] && rest[0] == End && Closes(rest[1..], d - 1))
  }

  lemma {:induction false} RebuildCloses(ts: seq<Token>, d: nat)
    requires Closes(ts, d)
    ensures Found(ts, d)
    decreases |ts|
  {
    hide *;
    if ts == [] || ts[0].End? {
      FoundEnd(ts, d);
    } else {
      assert ts == [ts[0]] + ts[1..];
      ClosesStep(ts[0], ts[1..], d);
      ChangeIs(ts[0]);
      RebuildCloses(ts[1..], d + Change(ts[0]));
      if ts[0].Property? {
        FoundProp(ts[0].name, ts[0].data, ts[1..], d);
      } else {
        FoundIs(ts[1..], d + 1);
        RebuildCloses(Rebuild(ts[1..]).value.1[1..], d);
        FoundNode(ts[0].name, ts[1..], d);
      }
    }
  }

  lemma ChangeIs(t: Token)
    ensures Change(t) == if t.Begin? then 1 else if t.End? then -1 else 0
  {
  }

  lemma FoundIs(ts: seq<Token>, d: nat)
    requires Found(ts, d)
    ensures Rebuild(ts).Some? && |Rebuild(ts).value.1| <= |ts|
    ensures d > 0 ==> var rest := Rebuild(ts).value.1; rest != [] && rest[0] == End && Closes(rest[1..], d - 1)
  {
  }

  lemma FoundEnd(ts: seq<Token>, d: nat)
    requires Closes(ts, d) && (ts == [] || ts[0].End?)
    ensures Found(ts, d)
  {
    RebuildEnd(ts);
    FlattenNone();
    assert ts == [] + ts;
  }

  lemma FoundProp(name: Bytes, data: Bytes, tail: seq<Token>, d: nat)
    requires Found(tail, d)
    ensures Found([Property(name, data)] + tail, d)
  {
    hide Rebuild, Flatten, Closes;
    RebuildProp(name, data, tail);
    var (items, rest) := Rebuild(tail).value;
    var all := [Prop(name, data)] + items;
    FlattenFirst(all);
    assert all[1..] == items;
    assert [Property(name, data)] + tail == Flatten(all) + rest;
  }

  lemma FoundNode(name: Bytes, ts: seq<Token>, d: nat)
    requires Found(ts, d + 1) && Found(Rebuild(ts).value.1[1..], d)
    ensures Found([Begin(name)] + ts, d)
  {
    hide Rebuild, Flatten, Closes;
    var (inner, close) := Rebuild(ts).value;
    var tail := close[1..];
    assert close == [End] + tail;
    RebuildNode(name, ts, inner, tail);
    var (items, rest) := Rebuild(tail).value;
    var all := [Node(name, inner)] + items;
    FlattenFirst(all);
    assert all[1..] == items;
    assert [Begin(name)] + ts == Flatten(all) + rest;
  }

  lemma {:induction false} FlattenCloses(items: seq<Item>, behind: seq<Token>, d: nat)
    ensures Closes(Flatten(items) + behind, d) <==> Closes(behind, d)
    decreases items
  {
    hide Closes, Flatten;
    if items == [] {
      FlattenNone();
      assert [] + behind == behind;
    } else {
      var tail := Flatten(items[1..]) + behind;
      FlattenFirst(items);
      FlattenCloses(items[1..], behind, d);
      match items[0]
      case Prop(name, data) =>
        assert Flatten(items) + behind == [Property(name, data)] + tail;
        ClosesStep(Property(name, data), tail, d);
      case Node(name, inner) =>
        var body := Flatten(inner) + ([End] + tail);
        assert Flatten(items) + behind == [Begin(name)] + body;
        ClosesStep(Begin(name), body, d);
        FlattenCloses(inner, [End] + tail, d + 1);
        ClosesStep(End, tail, d + 1);
    }
  }

  lemma ClosesStep(t: Token, tail: seq<Token>, d: nat)
    ensures !t.End? ==> Closes([t] + tail, d) == Closes(tail, d + Change(t))
    ensures t.End? ==> Closes([t] + tail, d) == (d > 0 && Closes(tail, d - 1))
  {
    assert ([t] + tail)[1..] == tail;
  }

  /** The calls are those of a tree exactly when they are balanced, and then Rebuild finds the tree. */
  lemma BalancedIsTree(ts: seq<Token>)
    ensures Balanced(ts) ==> Rebuild(ts).Some? && Rebuild(ts).value.1 == [] && Flatten(Rebuild(ts).value.0) == ts
    ensures Balanced(ts) <==> exists items :: Flatten(items) == ts
  {
    hide Rebuild, Flatten, Closes, Depth;
    ClosesIsLevel(ts, 0);
    if Balanced(ts) {
      RebuildCloses(ts, 0);
      assert Found(ts, 0);
      var items := Rebuild(ts).value.0;
      assert Flatten(items) + [] == Flatten(items);
      assert Flatten(items) == ts;
    }
    if items :| Flatten(items) == ts {
      assert ts + [] == ts;
      FlattenCloses(items, [], 0);
      assert Closes([], 0) by { ClosesNone(); }
    }
  }

  lemma ClosesNone()
    ensures Closes([], 0)
  {
  }

  /** A final count of zero, which is all the builder asserts, does not make the calls a tree's. */
  lemma CountIsNotEnough(name: Bytes)
    ensures Depth([End, Begin(name)]) == 0 && !Balanced([End, Begin(name)])
  {
    var ts := [End, Begin(name)];
    assert ts[..1] == [End] && ts[..1][..0] == [];
    assert Depth(ts[..1]) == -1;
  }

  // ---- The blob ----

  const Magic: nat := 0xd00d_feed
  const Version: nat := 17
  const LastVersion: nat := 16
  const HeaderSize: nat := 40
  const ReserveSize: nat := 16

  /** The first multiple of eight from n on. */
  function Align8(n: nat): (a: nat)
    ensures n <= a < n + 8 && a % 8 == 0
  {
    (n + 7) / 8 * 8
  }

  function ReserveAt(structure: nat): nat { Align8(HeaderSize + structure) }

  function StringsAt(structure: nat): nat { ReserveAt(structure) + ReserveSize }

  function BlobSize(structure: nat, strings: nat): nat { Align8(StringsAt(structure) + strings) }

  ghost predicate Field(s: Bytes, k: nat, v: nat) {
    && 4 * k + 4 <= |s|
    && s[4 * k] == Be32(v)[0] && s[4 * k + 1] == Be32(v)[1] && s[4 * k + 2] == Be32(v)[2] && s[4 * k + 3] == Be32(v)[3]
  }

  ghost predicate Header(s: Bytes, total: nat, structure: nat, strings: nat) {
    && Field(s, 0, Magic) && Field(s, 1, total) && Field(s, 2, HeaderSize) && Field(s, 3, StringsAt(structure))
    && Field(s, 4, ReserveAt(structure)) && Field(s, 5, Version) && Field(s, 6, LastVersion) && Field(s, 7, 0)
    && Field(s, 8, strings) && Field(s, 9, structure)
  }

  ghost predicate ZerosIn(s: Bytes, lo: nat, hi: nat) {
    hi <= |s| && forall i :: lo <= i < hi ==> s[i] == 0
  }

  ghost predicate Holds(s: Bytes, at: nat, part: Bytes) {
    at + |part| <= |s| && s[at..at + |part|] == part
  }

  /** The header, the structure, zeros that end in the empty reservation block, the strings, zeros. */
  ghost predicate Laid(s: Bytes, structure: Bytes, strings: Bytes) {
    && |s| == BlobSize(|structure|, |strings|)
    && Header(s, |s|, |structure|, |strings|)
    && Holds(s, HeaderSize, structure)
    && ZerosIn(s, HeaderSize + |structure|, StringsAt(|structure|))
    && Holds(s, StringsAt(|structure|), strings)
    && ZerosIn(s, StringsAt(|structure|) + |strings|, |s|)
  }

  /** Reading a blob: the header leads to the blocks. */
  function Read(s: Bytes): Option<seq<Token>> {
    if |s| < HeaderSize || WordAt(s, 0) != Magic || WordAt(s, 4) != |s| || WordAt(s, 24) > Version then None
    else
      var structAt, stringsAt, reserveAt := WordAt(s, 8), WordAt(s, 12), WordAt(s, 16);
      var stringsSize, structSize := WordAt(s, 32), WordAt(s, 36);
      if structAt + structSize > |s| || stringsAt + stringsSize > |s| || !NoReservation(s, reserveAt) then None
      else Parse(s[structAt..structAt + structSize], s[stringsAt..stringsAt + stringsSize])
  }

  /** The memory reservation block is the empty one: an aligned pair of zero double words. */
  predicate NoReservation(s: Bytes, at: nat) {
    at % 8 == 0 && at + ReserveSize <= |s| && forall i :: at <= i < at + ReserveSize ==> s[i] == 0
  }

  lemma FieldIs(s: Bytes, k: nat, v: nat)
    requires Field(s, k, v) && v < CellLimit
    ensures WordAt(s, 4 * k) == v
  {
    BytesBack(v);
  }

  lemma HeaderBack(s: Bytes, total: nat, structure: nat, strings: nat)
    requires Header(s, total, structure, strings) && total < CellLimit
    requires total == BlobSize(structure, strings)
    ensures |s| >= HeaderSize && WordAt(s, 0) == Magic && WordAt(s, 4) == total && WordAt(s, 8) == HeaderSize
    ensures WordAt(s, 12) == StringsAt(structure) && WordAt(s, 16) == ReserveAt(structure)
    ensures WordAt(s, 24) == LastVersion && WordAt(s, 32) == strings && WordAt(s, 36) == structure
  {
    hide Field, WordAt, Align8;
    assert |s| >= HeaderSize by { FieldFits(s, 9, structure); }
    FieldIs(s, 0, Magic);
    FieldIs(s, 1, total);
    FieldIs(s, 2, HeaderSize);
    FieldIs(s, 3, StringsAt(structure));
    FieldIs(s, 4, ReserveAt(structure));
    FieldIs(s, 6, LastVersion);
    FieldIs(s, 8, strings);
    FieldIs(s, 9, structure);
  }

  lemma FieldFits(s: Bytes, k: nat, v: nat)
    requires Field(s, k, v)
    ensures 4 * k + 4 <= |s|
  {
  }

  /** A laid-out blob reads back to the tokens in it. */
  lemma ReadLaid(s: Bytes, ts: seq<Token>, names: seq<Bytes>)
    requires Named(ts, names) && Small(ts, names)
    requires Laid(s, Encode(ts, names) + Be32(EndTag), Table(names)) && |s| < CellLimit
    ensures Read(s) == Some(ts)
  {
    hide WordAt, Encode, Table, Parse, Small, Named, Header, Be32, Align8;
    var structure, strings := Encode(ts, names) + Be32(EndTag), Table(names);
    HeaderBack(s, |s|, |structure|, |strings|);
    EncodeBack(ts, names);
    assert NoReservation(s, ReserveAt(|structure|));
  }

  // ---- The builder ----

  function Words(tab: seq<nat>): Bytes {
    if tab == [] then [] else Words(tab[..|tab| - 1]) + Be32(tab[|tab| - 1])
  }

  lemma {:induction false} WordsSize(tab: seq<nat>)
    ensures |Words(tab)| == 4 * |tab|
  {
    if tab != [] {
      WordsSize(tab[..|tab| - 1]);
    }
  }

  /** Word i of a property made of words. */
  lemma {:induction false} WordsAt(tab: seq<nat>, i: nat)
    requires i < |tab| && tab[i] < CellLimit
    ensures |Words(tab)| == 4 * |tab| && WordAt(Words(tab), 4 * i) == tab[i]
    decreases |tab|
  {
    hide Be32, WordAt;
    WordsSize(tab);
    var front := tab[..|tab| - 1];
    WordsSize(front);
    if i < |front| {
      WordsAt(front, i);
      WordKept(Words(front), Be32(tab[|tab| - 1]), 4 * i);
    } else {
      WordBack(tab[i], Words(front), []);
      assert Words(front) + Be32(tab[i]) + [] == Words(tab);
    }
  }

  lemma WordKept(s: Bytes, more: Bytes, at: nat)
    requires at + 4 <= |s|
    ensures WordAt(s + more, at) == WordAt(s, at)
  {
  }

  /** The names after one more property name was looked up. */
  function Intern(names: seq<Bytes>, name: Bytes): (r: seq<Bytes>)
    ensures name in r && names <= r
  {
    if name in names then names else names + [name]
  }

  /** A property behind an encoding, whose name may just have been added. */
  lemma PropBehind(ts: seq<Token>, names: seq<Bytes>, name: Bytes, data: Bytes)
    requires Named(ts, names) && DistinctNames(Intern(names, name))
    ensures Named(ts + [Property(name, data)], Intern(names, name))
    ensures Encode(ts + [Property(name, data)], Intern(names, name))
            == Encode(ts, names) + Be32(PropTag) + Be32(|data|)
               + Be32(Offset(Intern(names, name), IndexOf(Intern(names, name), name))) + Padded(data)
  {
    hide *;
    var t, all := Property(name, data), Intern(names, name);
    InternIs(names, name);
    EncodeStays(ts, names, all[|names|..]);
    EncodeNext(ts, t, all);
    EncodedIs(t, all);
    var e, w := Encode(ts, names), Be32(PropTag) + Be32(|data|) + Be32(Offset(all, IndexOf(all, name)));
    assert e + (w + Padded(data))
        == e + Be32(PropTag) + Be32(|data|) + Be32(Offset(all, IndexOf(all, name))) + Padded(data);
  }

  lemma InternIs(names: seq<Bytes>, name: Bytes)
    ensures var all := Intern(names, name); names <= all && name in all && names + all[|names|..] == all
  {
  }

  lemma Interned(names: seq<Bytes>, name: Bytes)
    requires DistinctNames(names) && (forall i :: 0 <= i < |names| ==> NulFree(names[i])) && NulFree(name) && name !in names
    ensures Intern(names, name) == names + [name]
    ensures DistinctNames(names + [name]) && forall i :: 0 <= i <= |names| ==> NulFree((names + [name])[i])
    ensures Table(names + [name]) == Table(names) + name + [0]
    ensures Offset(names + [name], IndexOf(names + [name], name)) == |Table(names)|
  {
    hide Table, IndexOf, NulFree;
    var all := names + [name];
    assert all[..|names|] == names;
    IndexIs(all, |names|);
    TableLast(names, name);
  }

  lemma TableLast(names: seq<Bytes>, name: Bytes)
    ensures Table(names + [name]) == Table(names) + name + [0]
  {
    assert (names + [name])[..|names|] == names;
  }

  lemma OffsetEnds(names: seq<Bytes>)
    ensures Offset(names, 0) == 0 && Offset(names, |names|) == |Table(names)|
  {
    assert names[..|names|] == names && names[..0] == [];
  }

  lemma OffsetInside(names: seq<Bytes>, i: nat)
    requires i < |names|
    ensures Offset(names, i) < |Table(names)|
  {
    TableSplit(names, i);
  }

  /** What stands at the offset of a name. */
  lemma NameHere(names: seq<Bytes>, i: nat)
    requires i < |names| && NulFree(names[i])
    ensures var t, pos := Table(names), Offset(names, i);
            && StrLen(t, pos) == Some(|names[i]|) && pos + |names[i]| + 1 <= |t|
            && t[pos..pos + |names[i]|] == names[i] && Offset(names, i + 1) == pos + |names[i]| + 1
  {
    hide Table, Offset, NulFree, StrLen;
    TableSplit(names, i);
    StrLenIs(Table(names), Offset(names, i), names[i]);
  }

  lemma KnownName(names: seq<Bytes>, i: nat)
    requires i < |names| && DistinctNames(names)
    ensures Intern(names, names[i]) == names && Offset(names, i) == Offset(names, IndexOf(names, names[i]))
  {
    hide Offset;
    IndexIs(names, i);
  }

  lemma AllNamesSeen(names: seq<Bytes>, i: nat)
    requires i <= |names| && Offset(names, i) >= |Table(names)|
    ensures i == |names|
  {
    hide Offset, Table;
    if i < |names| {
      OffsetInside(names, i);
    }
  }

  /** Two states of the blob that differ only inside [lo, hi). */
  ghost predicate Outside(a: Bytes, b: Bytes, lo: nat, hi: nat) {
    |a| == |b| && forall i :: 0 <= i < |a| && !(lo <= i < hi) ==> b[i] == a[i]
  }

  /** What was written outside [lo, hi) is still there. */
  ghost predicate Kept(a: Bytes, b: Bytes, lo: nat, hi: nat) {
    && Outside(a, b, lo, hi)
    && (forall k: nat, v: nat {:trigger Field(b, k, v)} :: Field(a, k, v) && (4 * k + 4 <= lo || hi <= 4 * k) ==> Field(b, k, v))
    && (forall at: nat, part: Bytes {:trigger Holds(b, at, part)} ::
          Holds(a, at, part) && (at + |part| <= lo || hi <= at) ==> Holds(b, at, part))
    && (forall l: nat, h: nat {:trigger ZerosIn(b, l, h)} :: ZerosIn(a, l, h) && (h <= lo || hi <= l) ==> ZerosIn(b, l, h))
  }

  lemma KeptOutside(a: Bytes, b: Bytes, lo: nat, hi: nat)
    requires Outside(a, b, lo, hi)
    ensures Kept(a, b, lo, hi)
  {
    hide Be32;
    forall k: nat, v: nat {:trigger Field(b, k, v)} | Field(a, k, v) && (4 * k + 4 <= lo || hi <= 4 * k)
      ensures Field(b, k, v)
    {
      FieldKept(a, b, lo, hi, k, v);
    }
    forall at: nat, part: Bytes {:trigger Holds(b, at, part)} | Holds(a, at, part) && (at + |part| <= lo || hi <= at)
      ensures Holds(b, at, part)
    {
      assert b[at..at + |part|] == a[at..at + |part|];
    }
  }

  lemma FieldKept(a: Bytes, b: Bytes, lo: nat, hi: nat, k: nat, v: nat)
    requires Outside(a, b, lo, hi) && Field(a, k, v) && (4 * k + 4 <= lo || hi <= 4 * k)
    ensures Field(b, k, v)
  {
    hide Be32;
  }

  method Copy(dst: array<nat>, at: nat, s: Bytes)
    requires at + |s| <= dst.Length
    modifies dst
    ensures Holds(dst[..], at, s) && Kept(old(dst[..]), dst[..], at, at + |s|)
  {
    forall i | 0 <= i < |s| {
      dst[at + i] := s[i];
    }
    assert dst[..][at..at + |s|] == s;
    KeptOutside(old(dst[..]), dst[..], at, at + |s|);
  }

  /** One header field, in big-endian order. */
  method PutField(dst: array<nat>, k: nat, v: nat)
    requires 4 * k + 4 <= dst.Length
    modifies dst
    ensures Field(dst[..], k, v) && Kept(old(dst[..]), dst[..], 4 * k, 4 * k + 4)
  {
    hide Be32;
    Copy(dst, 4 * k, Be32(v));
    HoldsField(dst[..], k, v);
  }

  lemma HoldsField(s: Bytes, k: nat, v: nat)
    requires Holds(s, 4 * k, Be32(v))
    ensures Field(s, k, v)
  {
    hide Be32;
    var part := s[4 * k..4 * k + 4];
    assert part[0] == s[4 * k] && part[1] == s[4 * k + 1] && part[2] == s[4 * k + 2] && part[3] == s[4 * k + 3];
  }

  /** Zeros up to the next multiple of eight. */
  method Align(dst: array<nat>, from: nat) returns (pos: nat)
    requires Align8(from) <= dst.Length
    modifies dst
    ensures pos == Align8(from)
    ensures ZerosIn(dst[..], from, pos) && Kept(old(dst[..]), dst[..], from, pos)
  {
    hide Align8;
    pos := from;
    while pos % 8 != 0
      invariant from <= pos <= Align8(from)
      invariant forall i :: from <= i < pos ==> dst[i] == 0
      invariant forall i :: 0 <= i < dst.Length && !(from <= i < pos) ==> dst[i] == old(dst[i])
      decreases Align8(from) - pos
    {
      AlignAhead(from, pos);
      dst[pos] := 0;
      pos := pos + 1;
    }
    AlignReached(from, pos);
    KeptOutside(old(dst[..]), dst[..], from, pos);
  }

  lemma AlignAhead(from: nat, pos: nat)
    requires from <= pos <= Align8(from) && pos % 8 != 0
    ensures pos < Align8(from)
  {
  }

  lemma AlignReached(from: nat, pos: nat)
    requires from <= pos <= Align8(from) && pos % 8 == 0
    ensures pos == Align8(from)
  {
  }

  class Builder {
    // the word table, as the bytes it holds
    var tab: Bytes
    var openNodeCount: int
    var stringTable: Bytes

    // the calls so far, and the property names in the order they came up
    ghost var tokens: seq<Token>
    ghost var names: seq<Bytes>

    ghost predicate Strings()
      reads this
    {
      stringTable == Table(names) && DistinctNames(names) && forall i :: 0 <= i < |names| ==> NulFree(names[i])
    }

    ghost predicate Valid()
      reads this
    {
      Strings() && Named(tokens, names) && tab == Encode(tokens, names) && openNodeCount == Depth(tokens)
    }

    constructor ()
      ensures Valid() && tokens == [] && names == []
    {
      tab, openNodeCount, stringTable := [], 0, [];
      tokens, names := [], [];
    }

    method Put32(v: nat)
      modifies this`tab
      ensures tab == old(tab) + Be32(v)
    {
      tab := tab + [v / 0x100_0000 % 256, v / 0x1_0000 % 256, v / 0x100 % 256, v % 256];
    }

    /** The data is zero padded to whole words. */
    method PutData(data: Bytes)
      modifies this`tab
      ensures tab == old(tab) + Padded(data)
    {
      var words := (|data| + 3) / 4;
      tab := tab + data + Zeros(4 * words - |data|);
      assert 4 * words - |data| == Gap(|data|);
      assert tab == old(tab) + Padded(data);
    }

    method BeginNode(name: Bytes)
      requires Valid() && NulFree(name)
      modifies this`tab, this`openNodeCount, this`tokens
      ensures Valid() && tokens == old(tokens) + [Begin(name)]
    {
      hide Table, DistinctNames, NulFree, Named, Encode, EncodeToken, Depth, Be32, Padded;
      Put32(DeviceTree.BeginNode);
      PutData(name + [0]);
      openNodeCount := openNodeCount + 1;
      EncodeNext(tokens, Begin(name), names);
      EncodedIs(Begin(name), names);
      DepthNext(tokens, Begin(name));
      tokens := tokens + [Begin(name)];
      assert tab == Encode(tokens, names);
    }

    method EndNode()
      requires Valid()
      modifies this`tab, this`openNodeCount, this`tokens
      ensures Valid() && tokens == old(tokens) + [End]
    {
      hide Table, DistinctNames, NulFree, Named, Encode, EncodeToken, Depth, Be32, Padded;
      Put32(DeviceTree.EndNode);
      openNodeCount := openNodeCount - 1;
      EncodeNext(tokens, End, names);
      EncodedIs(End, names);
      DepthNext(tokens, End);
      tokens := tokens + [End];
    }

    /** The offset of a property name, which is added behind the others if it is new. */
    method GetStringOffset(name: Bytes) returns (pos: nat)
      requires Strings() && NulFree(name)
      modifies this`stringTable, this`names
      ensures Strings() && names == Intern(old(names), name)
      ensures pos == Offset(names, IndexOf(names, name))
      ensures old(stringTable) <= stringTable
    {
      hide Table, Offset, IndexOf, NulFree, StrLen, DistinctNames, Intern;
      pos := 0;
      ghost var i := 0;
      OffsetEnds(names);
      while pos < |stringTable|
        modifies {}
        invariant i <= |names| && pos == Offset(names, i)
        invariant forall k :: 0 <= k < i ==> names[k] != name
        decreases |names| - i
      {
        NameHere(names, i);
        var len := StrLen(stringTable, pos).value;
        if stringTable[pos..pos + len] == name {
          KnownName(names, i);
          return;
        }
        pos := pos + len + 1;
        i := i + 1;
      }
      AllNamesSeen(names, i);
      pos := AddName(name);
    }

    /** A new name goes behind the others. */
    method AddName(name: Bytes) returns (pos: nat)
      requires Strings() && NulFree(name) && name !in names
      modifies this`stringTable, this`names
      ensures Strings() && names == old(names) + [name] == Intern(old(names), name)
      ensures pos == Offset(names, IndexOf(names, name)) && old(stringTable) <= stringTable
    {
      hide Table, Offset, IndexOf, NulFree, DistinctNames;
      Interned(names, name);
      pos := |stringTable|;
      stringTable := stringTable + name + [0];
      names := names + [name];
    }

    method Prop(name: Bytes, data: Bytes)
      requires Valid() && NulFree(name)
      modifies this`tab, this`stringTable, this`tokens, this`names
      ensures Valid() && tokens == old(tokens) + [Property(name, data)] && names == Intern(old(names), name)
      ensures old(stringTable) <= stringTable
    {
      hide Table, NulFree, Named, Encode, EncodeToken, Depth, Be32, Padded, Offset, IndexOf, DistinctNames, Intern;
      Put32(PropTag);
      Put32(|data|);
      var pos := GetStringOffset(name);
      Put32(pos);
      PutData(data);
      PropBehind(tokens, old(names), name, data);
      DepthNext(tokens, Property(name, data));
      assert Change(Property(name, data)) == 0;
      tokens := tokens + [Property(name, data)];
    }

    /** A property made of big-endian words. */
    method PropTabU32(name: Bytes, words: seq<nat>)
      requires Valid() && NulFree(name)
      modifies this`tab, this`stringTable, this`tokens, this`names
      ensures Valid() && tokens == old(tokens) + [Property(name, Words(words))] && names == Intern(old(names), name)
      ensures old(stringTable) <= stringTable
    {
      hide Table, NulFree, Named, Encode, EncodeToken, Depth, Be32, Padded, Offset, IndexOf, DistinctNames, Intern, Words;
      WordsSize(words);
      Put32(PropTag);
      Put32(|words| * 4);
      var pos := GetStringOffset(name);
      Put32(pos);
      ghost var before := tab;
      WordsFirst(words);
      var i := 0;
      while i < |words|
        modifies this`tab
        invariant 0 <= i <= |words| && tab == before + Words(words[..i])
      {
        Put32(words[i]);
        WordsNext(words, i);
        i := i + 1;
      }
      assert words[..i] == words;
      WordsPadded(words);
      PropBehind(tokens, old(names), name, Words(words));
      DepthNext(tokens, Property(name, Words(words)));
      assert Change(Property(name, Words(words))) == 0;
      tokens := tokens + [Property(name, Words(words))];
    }

    method PropU64(name: Bytes, v: nat)
      requires Valid() && NulFree(name)
      modifies this`tab, this`stringTable, this`tokens, this`names
      ensures Valid() && tokens == old(tokens) + [Property(name, Words([v / CellLimit, v % CellLimit]))]
      ensures names == Intern(old(names), name) && old(stringTable) <= stringTable
    {
      PropTabU32(name, [v / CellLimit, v % CellLimit]);
    }

    /** A string property keeps its terminator. */
    method PropStr(name: Bytes, str: Bytes)
      requires Valid() && NulFree(name)
      modifies this`tab, this`stringTable, this`tokens, this`names
      ensures Valid() && tokens == old(tokens) + [Property(name, str + [0])]
      ensures names == Intern(old(names), name) && old(stringTable) <= stringTable
    {
      Prop(name, str + [0]);
    }

    /** Write the blob; false is the failed assertion on the count of open nodes. */
    method Output(dst: array<nat>) returns (ok: bool, size: nat)
      requires Valid() && BlobSize(|tab| + 4, |stringTable|) <= dst.Length
      modifies this`tab, dst
      ensures ok <==> Depth(tokens) == 0
      ensures tab == if ok then old(tab) + Be32(EndTag) else old(tab)
      ensures ok ==> size <= dst.Length && Laid(dst[..size], Encode(tokens, names) + Be32(EndTag), Table(names))
      ensures ok ==> Outside(old(dst[..]), dst[..], 0, size)
    {
      hide Table, NulFree, Named, Encode, Depth, Be32, DistinctNames, Align8, Field;
      if openNodeCount != 0 {
        return false, 0;
      }
      Put32(EndTag);
      ok := true;
      size := Emit(tab, stringTable, dst);
    }
  }

  lemma WordsFirst(words: seq<nat>)
    ensures Words(words[..0]) == []
  {
  }

  lemma WordsNext(words: seq<nat>, i: nat)
    requires i < |words|
    ensures Words(words[..i + 1]) == Words(words[..i]) + Be32(words[i])
  {
    assert words[..i + 1][..i] == words[..i];
  }

  lemma WordsPadded(words: seq<nat>)
    ensures Padded(Words(words)) == Words(words)
  {
    WordsSize(words);
    assert Zeros(0) == [];
  }

  lemma PlacesInOrder(structure: nat, strings: nat)
    ensures ReserveAt(structure) == Align8(HeaderSize + structure) >= HeaderSize + structure
    ensures StringsAt(structure) == ReserveAt(structure) + ReserveSize
    ensures BlobSize(structure, strings) == Align8(StringsAt(structure) + strings) >= StringsAt(structure) + strings
  {
  }

  /** All parts of the blob are in place in the buffer. */
  ghost predicate Placed(s: Bytes, structure: Bytes, strings: Bytes) {
    && Header(s, BlobSize(|structure|, |strings|), |structure|, |strings|)
    && Holds(s, HeaderSize, structure)
    && ZerosIn(s, HeaderSize + |structure|, ReserveAt(|structure|))
    && Holds(s, ReserveAt(|structure|), Zeros(ReserveSize))
    && Holds(s, StringsAt(|structure|), strings)
    && ZerosIn(s, StringsAt(|structure|) + |strings|, BlobSize(|structure|, |strings|))
  }

  lemma PlacedLaid(s: Bytes, structure: Bytes, strings: Bytes)
    requires Placed(s, structure, strings)
    ensures BlobSize(|structure|, |strings|) <= |s| && Laid(s[..BlobSize(|structure|, |strings|)], structure, strings)
  {
    hide Be32, Align8;
    PlacesInOrder(|structure|, |strings|);
    var n, r := BlobSize(|structure|, |strings|), ReserveAt(|structure|);
    var t := s[..n];
    assert t[HeaderSize..HeaderSize + |structure|] == s[HeaderSize..HeaderSize + |structure|];
    var o := StringsAt(|structure|);
    assert t[o..o + |strings|] == s[o..o + |strings|];
    forall i | r <= i < o
      ensures s[i] == 0
    {
      assert s[r..r + ReserveSize][i - r] == Zeros(ReserveSize)[i - r] == 0;
    }
  }

  /** The fields that need no position. */
  ghost predicate Fixed(s: Bytes, structure: nat, strings: nat) {
    && Field(s, 0, Magic) && Field(s, 2, HeaderSize) && Field(s, 5, Version) && Field(s, 6, LastVersion)
    && Field(s, 7, 0) && Field(s, 8, strings) && Field(s, 9, structure)
  }

  ghost predicate WithStructure(s: Bytes, structure: Bytes, strings: nat) {
    && Fixed(s, |structure|, strings)
    && Holds(s, HeaderSize, structure) && ZerosIn(s, HeaderSize + |structure|, ReserveAt(|structure|))
  }

  ghost predicate WithReserve(s: Bytes, structure: Bytes, strings: nat) {
    && WithStructure(s, structure, strings)
    && Field(s, 4, ReserveAt(|structure|)) && Holds(s, ReserveAt(|structure|), Zeros(ReserveSize))
  }

  lemma OutsideJoin(a: Bytes, b: Bytes, c: Bytes, lo: nat, hi: nat, end: nat)
    requires Outside(a, b, 0, end) && Outside(b, c, lo, hi)
    ensures Outside(a, c, 0, if hi < end then end else hi)
  {
  }

  method PutFixed(dst: array<nat>, structure: nat, strings: nat)
    requires HeaderSize <= dst.Length
    modifies dst
    ensures Fixed(dst[..], structure, strings) && Outside(old(dst[..]), dst[..], 0, HeaderSize)
  {
    hide Field, Holds, ZerosIn;
    PutField(dst, 0, Magic);
    PutField(dst, 5, Version);
    PutField(dst, 6, LastVersion);
    PutField(dst, 7, 0);
    PutField(dst, 8, strings);
    PutField(dst, 9, structure);
    PutField(dst, 2, HeaderSize);
  }

  method PutStructure(dst: array<nat>, structure: Bytes, ghost strings: nat) returns (pos: nat)
    requires ReserveAt(|structure|) <= dst.Length && Fixed(dst[..], |structure|, strings)
    modifies dst
    ensures pos == ReserveAt(|structure|) && WithStructure(dst[..], structure, strings)
    ensures Outside(old(dst[..]), dst[..], HeaderSize, pos)
  {
    hide Field, Holds, ZerosIn, Align8;
    pos := HeaderSize;
    Copy(dst, pos, structure);
    pos := pos + |structure|;
    pos := Align(dst, pos);
  }

  method PutReserve(dst: array<nat>, at: nat, ghost structure: Bytes, ghost strings: nat) returns (pos: nat)
    requires StringsAt(|structure|) <= dst.Length && at == ReserveAt(|structure|) && WithStructure(dst[..], structure, strings)
    modifies dst
    ensures pos == StringsAt(|structure|) && WithReserve(dst[..], structure, strings)
    ensures Outside(old(dst[..]), dst[..], 0, pos)
  {
    hide Field, Holds, ZerosIn, Align8, Outside;
    PlacesInOrder(|structure|, strings);
    pos := at;
    ghost var before := dst[..];
    PutField(dst, 4, pos);
    ghost var between := dst[..];
    Copy(dst, pos, Zeros(ReserveSize));
    OutsideWider(before, between, 16, 20, 20);
    OutsideJoin(before, between, dst[..], pos, pos + ReserveSize, 20);
    pos := pos + ReserveSize;
  }

  lemma OutsideWider(a: Bytes, b: Bytes, lo: nat, hi: nat, end: nat)
    requires Outside(a, b, lo, hi) && hi <= end
    ensures Outside(a, b, 0, end)
  {
  }

  method PutStrings(dst: array<nat>, at: nat, ghost structure: Bytes, strings: Bytes) returns (pos: nat)
    requires BlobSize(|structure|, |strings|) <= dst.Length && at == StringsAt(|structure|)
    requires WithReserve(dst[..], structure, |strings|)
    modifies dst
    ensures pos == BlobSize(|structure|, |strings|) && Placed(dst[..], structure, strings)
    ensures Outside(old(dst[..]), dst[..], 0, pos)
  {
    hide Field, Holds, ZerosIn, Align8, Outside;
    PlacesInOrder(|structure|, |strings|);
    pos := at;
    ghost var s0 := dst[..];
    PutField(dst, 3, pos);
    ghost var s1 := dst[..];
    OutsideWider(s0, s1, 12, 16, 16);
    Copy(dst, pos, strings);
    ghost var s2 := dst[..];
    OutsideJoin(s0, s1, s2, pos, pos + |strings|, 16);
    pos := pos + |strings|;
    pos := Align(dst, pos);
    ghost var s3 := dst[..];
    OutsideJoin(s0, s2, s3, at + |strings|, pos, at + |strings|);
    PutField(dst, 1, pos);
    OutsideJoin(s0, s3, dst[..], 4, 8, pos);
  }

  /** The layout of the blob, block by block; the total size is written last. */
  method Emit(structure: Bytes, strings: Bytes, dst: array<nat>) returns (pos: nat)
    requires BlobSize(|structure|, |strings|) <= dst.Length
    modifies dst
    ensures pos <= dst.Length && Laid(dst[..pos], structure, strings)
    ensures Outside(old(dst[..]), dst[..], 0, pos)
  {
    hide Fixed, WithStructure, WithReserve, Placed, Laid, Outside, Align8;
    PlacesInOrder(|structure|, |strings|);
    ghost var s0 := dst[..];
    PutFixed(dst, |structure|, |strings|);
    ghost var s1 := dst[..];
    pos := PutStructure(dst, structure, |strings|);
    ghost var s2 := dst[..];
    OutsideJoin(s0, s1, s2, HeaderSize, pos, HeaderSize);
    ghost var end := pos;
    pos := PutReserve(dst, pos, structure, |strings|);
    ghost var s3 := dst[..];
    OutsideJoin(s0, s2, s3, 0, pos, end);
    end := pos;
    pos := PutStrings(dst, pos, structure, strings);
    OutsideJoin(s0, s3, dst[..], 0, pos, end);
    PlacedLaid(dst[..], structure, strings);
  }

  /** What a builder puts out reads back to its calls, and to their tree when they are balanced. */
  lemma OutputReads(blob: Bytes, ts: seq<Token>, names: seq<Bytes>)
    requires Named(ts, names) && Small(ts, names) && Depth(ts) == 0
    requires Laid(blob, Encode(ts, names) + Be32(EndTag), Table(names)) && |blob| < CellLimit
    ensures Read(blob) == Some(ts)
    ensures Balanced(ts) ==> Rebuild(Read(blob).value).Some? && Flatten(Rebuild(ts).value.0) == ts
  {
    hide Read, Encode, Table, Laid, Rebuild, Flatten, Depth;
    ReadLaid(blob, ts, names);
    BalancedIsTree(ts);
  }
}
