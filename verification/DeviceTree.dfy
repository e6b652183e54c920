/**
 * The flattened device tree format: what a tree is as a list of tokens, how tokens are
 * encoded as bytes, and a parser that shares nothing with the encoder. (Devicetree
 * Specification, sections 5.4 and 5.5.)
 */
module DeviceTree {
  import opened Wrappers

  type Bytes = seq<nat>

  // ---- Trees and tokens ----

  datatype Item = Prop(name: Bytes, data: Bytes) | Node(name: Bytes, items: seq<Item>)

  datatype Token = Begin(name: Bytes) | End | Property(name: Bytes, data: Bytes)

  /** The calls that build a list of items. */
  function Flatten(items: seq<Item>): seq<Token> {
    if items == [] then []
    else
      (match items[0]
       case Prop(name, data) => [Property(name, data)]
       case Node(name, inner) => [Begin(name)] + Flatten(inner) + [End])
      + Flatten(items[1..])
  }

  /** The items up to the End that closes them, or to the end, and the tokens behind. */
  function Rebuild(ts: seq<Token>): (r: Option<(seq<Item>, seq<Token>)>)
    ensures r.Some? ==> |r.value.1| <= |ts|
    decreases |ts|
  {
    if ts == [] || ts[0] == End then Some(([], ts))
    else
      match ts[0]
      case Property(name, data) =>
        var rest := Rebuild(ts[1..]);
        if rest.None? then None else Some(([Prop(name, data)] + rest.value.0, rest.value.1))
      case Begin(name) =>
        var inner := Rebuild(ts[1..]);
        if inner.None? || inner.value.1 == [] then None
        else
          var rest := Rebuild(inner.value.1[1..]);
          if rest.None? then None else Some(([Node(name, inner.value.0)] + rest.value.0, rest.value.1))
  }

  /** The tokens of a tree give the tree back. */
  lemma {:induction false} RebuildFlatten(items: seq<Item>, behind: seq<Token>)
    requires behind == [] || behind[0] == End
    ensures Rebuild(Flatten(items) + behind) == Some((items, behind))
    decreases items
  {
    hide Rebuild, Flatten;
    if items == [] {
      FlattenNone();
      assert [] + behind == behind;
      RebuildEnd(behind);
    } else {
      var tail := Flatten(items[1..]) + behind;
      RebuildFlatten(items[1..], behind);
      FlattenFirst(items);
      assert items == [items[0]] + items[1..];
      match items[0]
      case Prop(name, data) =>
        assert Flatten(items) + behind == [Property(name, data)] + tail;
        RebuildProp(name, data, tail);
      case Node(name, inner) =>
        RebuildFlatten(inner, [End] + tail);
        assert Flatten(items) + behind == [Begin(name)] + (Flatten(inner) + ([End] + tail));
        RebuildNode(name, Flatten(inner) + ([End] + tail), inner, tail);
    }
  }

  lemma FlattenNone()
    ensures Flatten([]) == []
  {
  }

  lemma FlattenFirst(items: seq<Item>)
    requires items != []
    ensures items[0].Prop? ==> Flatten(items) == [Property(items[0].name, items[0].data)] + Flatten(items[1..])
    ensures items[0].Node? ==> Flatten(items) == [Begin(items[0].name)] + Flatten(items[0].items) + [End] + Flatten(items[1..])
  {
  }

  lemma RebuildEnd(behind: seq<Token>)
    requires behind == [] || behind[0] == End
    ensures Rebuild(behind) == Some(([], behind))
  {
  }

  lemma RebuildProp(name: Bytes, data: Bytes, tail: seq<Token>)
    requires Rebuild(tail).Some?
    ensures Rebuild([Property(name, data)] + tail) == Some(([Prop(name, data)] + Rebuild(tail).value.0, Rebuild(tail).value.1))
  {
    assert ([Property(name, data)] + tail)[1..] == tail;
  }

  lemma RebuildNode(name: Bytes, ts: seq<Token>, inner: seq<Item>, tail: seq<Token>)
    requires Rebuild(ts) == Some((inner, [End] + tail)) && Rebuild(tail).Some?
    ensures Rebuild([Begin(name)] + ts) == Some(([Node(name, inner)] + Rebuild(tail).value.0, Rebuild(tail).value.1))
  {
    assert ([Begin(name)] + ts)[1..] == ts;
    assert ([End] + tail)[1..] == tail;
  }

  // ---- Numbers, names and padding ----

  const CellLimit: nat := 0x1_0000_0000

  function Be32(v: nat): (s: Bytes)
    ensures |s| == 4
  {
    [v / 0x100_0000 % 256, v / 0x1_0000 % 256, v / 0x100 % 256, v % 256]
  }

  function WordAt(s: Bytes, at: nat): nat
    requires at + 4 <= |s|
  {
    s[at] * 0x100_0000 + s[at + 1] * 0x1_0000 + s[at + 2] * 0x100 + s[at + 3]
  }

  lemma WordBack(v: nat, pre: Bytes, post: Bytes)
    requires v < CellLimit
    ensures WordAt(pre + Be32(v) + post, |pre|) == v
  {
    var s := pre + Be32(v) + post;
    assert s[|pre|] == Be32(v)[0] && s[|pre| + 1] == Be32(v)[1] && s[|pre| + 2] == Be32(v)[2] && s[|pre| + 3] == Be32(v)[3];
    BytesBack(v);
  }

  lemma BytesBack(v: nat)
    requires v < CellLimit
    ensures v / 0x100_0000 % 256 * 0x100_0000 + v / 0x1_0000 % 256 * 0x1_0000 + v / 0x100 % 256 * 0x100 + v % 256 == v
  {
    var a := v / 256;
    var b := a / 256;
    var c := b / 256;
    assert v == 256 * a + v % 256 && a == 256 * b + a % 256 && b == 256 * c + b % 256;
    assert v / 0x100 == a && v / 0x1_0000 == b && v / 0x100_0000 == c && c < 256;
  }

  /** The number of bytes up to the next multiple of four. */
  function Gap(n: nat): (g: nat)
    ensures g < 4 && (n + g) % 4 == 0
  {
    (4 - n % 4) % 4
  }

  function Zeros(n: nat): (s: Bytes)
    ensures |s| == n
  {
    seq(n, _ => 0)
  }

  function Padded(s: Bytes): (p: Bytes)
    ensures |p| % 4 == 0 && |p| == |s| + Gap(|s|) && p[..|s|] == s
  {
    s + Zeros(Gap(|s|))
  }

  predicate NulFree(s: Bytes) { 0 !in s }

  /** The length of the C string at a position, if it ends. */
  function StrLen(s: Bytes, at: nat): (n: Option<nat>)
    ensures n.Some? ==> at + n.value < |s| && s[at + n.value] == 0 && NulFree(s[at..at + n.value])
    decreases |s| - at
  {
    if at >= |s| then None
    else if s[at] == 0 then Some(0)
    else
      var n := StrLen(s, at + 1);
      if n.None? then None
      else
        assert s[at..at + 1 + n.value] == [s[at]] + s[at + 1..at + 1 + n.value];
        Some(1 + n.value)
  }

  lemma {:induction false} StrLenIs(s: Bytes, at: nat, name: Bytes)
    requires at + |name| < |s| && s[at..at + |name|] == name && NulFree(name) && s[at + |name|] == 0
    ensures StrLen(s, at) == Some(|name|)
    decreases |name|
  {
    if name != [] {
      assert s[at] == name[0] && name[0] in name;
      assert s[at + 1..at + 1 + |name[1..]|] == name[1..];
      StrLenIs(s, at + 1, name[1..]);
    }
  }

  function CString(s: Bytes, at: nat): Option<Bytes> {
    var n := StrLen(s, at);
    if n.None? then None else Some(s[at..at + n.value])
  }

  // ---- The parser ----

  const BeginNode: nat := 1
  const EndNode: nat := 2
  const PropTag: nat := 3
  const EndTag: nat := 9

  /** The tokens of a structure block, whose property names stand in a strings block. */
  function Parse(s: Bytes, strings: Bytes): Option<seq<Token>>
    decreases |s|
  {
    if |s| < 4 then None
    else if WordAt(s, 0) == EndTag then Some([])
    else if WordAt(s, 0) == EndNode then Then(End, Parse(s[4..], strings))
    else if WordAt(s, 0) == BeginNode then
      var n := StrLen(s, 4);
      if n.None? || 4 + n.value + 1 + Gap(n.value + 1) > |s| then None
      else Then(Begin(s[4..4 + n.value]), Parse(s[4 + n.value + 1 + Gap(n.value + 1)..], strings))
    else if WordAt(s, 0) == PropTag then
      if |s| < 12 then None
      else
        var len, name := WordAt(s, 4), CString(strings, WordAt(s, 8));
        if name.None? || 12 + len + Gap(len) > |s| then None
        else Then(Property(name.value, s[12..12 + len]), Parse(s[12 + len + Gap(len)..], strings))
    else None
  }

  function Then(t: Token, rest: Option<seq<Token>>): Option<seq<Token>> {
    if rest.None? then None else Some([t] + rest.value)
  }

  // ---- The strings block ----

  /** Names one after the other, each with its NUL. */
  function Table(names: seq<Bytes>): Bytes {
    if names == [] then [] else Table(names[..|names| - 1]) + names[|names| - 1] + [0]
  }

  /** Where name i begins. */
  function Offset(names: seq<Bytes>, i: nat): nat
    requires i <= |names|
  {
    |Table(names[..i])|
  }

  lemma {:induction false} TableSplit(names: seq<Bytes>, i: nat)
    requires i < |names|
    ensures var t, o := Table(names), Offset(names, i);
            && o + |names[i]| < |t| && t[o..o + |names[i]|] == names[i] && t[o + |names[i]|] == 0
            && Offset(names, i + 1) == o + |names[i]| + 1 <= |t|
            && t[..o] == Table(names[..i])
    decreases |names|
  {
    var front, last := names[..|names| - 1], names[|names| - 1];
    assert names[..i + 1][..i] == names[..i];
    if i < |front| {
      TableSplit(front, i);
      assert front[..i] == names[..i] && front[..i + 1] == names[..i + 1];
      var t0, o := Table(front), Offset(names, i);
      assert Table(names)[o..o + |names[i]|] == t0[o..o + |names[i]|];
      assert Table(names)[..o] == t0[..o];
    } else {
      assert names[..i] == front && names[..i + 1] == names;
    }
  }

  /** The string at the offset of a name is that name. */
  lemma NameAt(names: seq<Bytes>, i: nat)
    requires i < |names| && NulFree(names[i])
    ensures CString(Table(names), Offset(names, i)) == Some(names[i])
  {
    hide Table, Offset, NulFree;
    TableSplit(names, i);
    StrLenIs(Table(names), Offset(names, i), names[i]);
  }

  lemma OffsetStays(names: seq<Bytes>, more: seq<Bytes>, i: nat)
    requires i <= |names|
    ensures Offset(names + more, i) == Offset(names, i)
  {
    assert (names + more)[..i] == names[..i];
  }

  predicate DistinctNames(names: seq<Bytes>) { forall i, j :: 0 <= i < j < |names| ==> names[i] != names[j] }

  function IndexOf(names: seq<Bytes>, name: Bytes): nat
    requires name in names
    ensures IndexOf(names, name) < |names| && names[IndexOf(names, name)] == name
  {
    if names[0] == name then 0 else 1 + IndexOf(names[1..], name)
  }

  lemma {:induction false} IndexIs(names: seq<Bytes>, i: nat)
    requires DistinctNames(names) && i < |names|
    ensures IndexOf(names, names[i]) == i
    decreases i
  {
    if i > 0 {
      assert names[0] != names[i];
      assert names[1..][i - 1] == names[i];
      IndexIs(names[1..], i - 1);
    }
  }

  // ---- The structure block ----

  function EncodeToken(t: Token, names: seq<Bytes>): (s: Bytes)
    requires t.Property? ==> t.name in names
  {
    match t
    case Begin(name) => Be32(BeginNode) + Padded(name + [0])
    case End => Be32(EndNode)
    case Property(name, data) =>
      Be32(PropTag) + Be32(|data|) + Be32(Offset(names, IndexOf(names, name))) + Padded(data)
  }

  predicate Named(ts: seq<Token>, names: seq<Bytes>) {
    forall i :: 0 <= i < |ts| && ts[i].Property? ==> ts[i].name in names
  }

  function Encode(ts: seq<Token>, names: seq<Bytes>): Bytes
    requires Named(ts, names)
  {
    if ts == [] then [] else Encode(ts[..|ts| - 1], names) + EncodeToken(ts[|ts| - 1], names)
  }

  lemma EncodeNext(ts: seq<Token>, t: Token, names: seq<Bytes>)
    requires Named(ts, names) && (t.Property? ==> t.name in names)
    ensures Named(ts + [t], names) && Encode(ts + [t], names) == Encode(ts, names) + EncodeToken(t, names)
  {
    hide EncodeToken;
    assert (ts + [t])[..|ts|] == ts;
  }

  ghost predicate SmallToken(t: Token) {
    (t.Begin? ==> NulFree(t.name)) && (t.Property? ==> NulFree(t.name) && |t.data| < CellLimit)
  }

  /** Names without NUL, and sizes that 32 bits can hold. */
  ghost predicate Small(ts: seq<Token>, names: seq<Bytes>) {
    && |Table(names)| < CellLimit
    && (forall i :: 0 <= i < |ts| ==> SmallToken(ts[i]))
  }

  lemma {:induction false} EncodeFront(ts: seq<Token>, names: seq<Bytes>)
    requires ts != [] && Named(ts, names)
    ensures Named(ts[1..], names) && Encode(ts, names) == EncodeToken(ts[0], names) + Encode(ts[1..], names)
    decreases |ts|
  {
    hide EncodeToken;
    if |ts| > 1 {
      var front, last := ts[..|ts| - 1], ts[|ts| - 1];
      EncodeFront(front, names);
      assert front[1..] == ts[1..][..|ts| - 2] && ts[1..][|ts| - 2] == last;
      assert front[0] == ts[0];
    }
  }

  lemma TokenBack(t: Token, names: seq<Bytes>, rest: Bytes)
    requires t.Property? ==> t.name in names
    requires SmallToken(t) && |Table(names)| < CellLimit
    ensures Parse(EncodeToken(t, names) + rest, Table(names)) == Then(t, Parse(rest, Table(names)))
  {
    hide *;
    EncodedIs(t, names);
    match t
    case End => EndBack(rest, Table(names));
    case Begin(name) => BeginBack(name, rest, Table(names));
    case Property(name, data) => PropBack(name, data, names, rest);
  }

  lemma EncodedIs(t: Token, names: seq<Bytes>)
    requires t.Property? ==> t.name in names
    ensures SmallToken(t) ==> (t.Begin? ==> NulFree(t.name)) && (t.Property? ==> NulFree(t.name) && |t.data| < CellLimit)
    ensures t.Begin? ==> EncodeToken(t, names) == Be32(BeginNode) + Padded(t.name + [0])
    ensures t.End? ==> EncodeToken(t, names) == Be32(EndNode)
    ensures t.Property? ==>
              EncodeToken(t, names)
              == Be32(PropTag) + Be32(|t.data|) + Be32(Offset(names, IndexOf(names, t.name))) + Padded(t.data)
  {
  }

  lemma EndBack(rest: Bytes, strings: Bytes)
    ensures Parse(Be32(EndNode) + rest, strings) == Then(End, Parse(rest, strings))
  {
    hide Be32, WordAt, StrLen;
    var s := Be32(EndNode) + rest;
    assert s == [] + Be32(EndNode) + rest;
    WordBack(EndNode, [], rest);
    assert s[4..] == rest;
  }

  lemma BeginBack(name: Bytes, rest: Bytes, strings: Bytes)
    requires NulFree(name)
    ensures Parse(Be32(BeginNode) + Padded(name + [0]) + rest, strings) == Then(Begin(name), Parse(rest, strings))
  {
    hide Be32, WordAt, StrLen, Gap, NulFree;
    var s := Be32(BeginNode) + Padded(name + [0]) + rest;
    assert s == [] + Be32(BeginNode) + (Padded(name + [0]) + rest);
    WordBack(BeginNode, [], Padded(name + [0]) + rest);
    assert s[4..4 + |name|] == name;
    StrLenIs(s, 4, name);
    assert s[4 + |name| + 1 + Gap(|name| + 1)..] == rest;
  }

  lemma PropBack(name: Bytes, data: Bytes, names: seq<Bytes>, rest: Bytes)
    requires name in names && NulFree(name) && |data| < CellLimit && |Table(names)| < CellLimit
    ensures Parse(Be32(PropTag) + Be32(|data|) + Be32(Offset(names, IndexOf(names, name))) + Padded(data) + rest, Table(names))
            == Then(Property(name, data), Parse(rest, Table(names)))
  {
    hide Be32, WordAt, StrLen, Gap, NulFree, Table, IndexOf, CString, Offset;
    var o := Offset(names, IndexOf(names, name));
    OffsetSmall(names, IndexOf(names, name));
    NameAt(names, IndexOf(names, name));
    var body := Padded(data) + rest;
    PropWords(|data|, o, body);
    var s := Be32(PropTag) + Be32(|data|) + Be32(o) + Padded(data) + rest;
    assert s == Be32(PropTag) + Be32(|data|) + Be32(o) + body;
    assert s[12..12 + |data|] == data;
    assert s[12 + |data| + Gap(|data|)..] == rest;
  }

  lemma PropWords(len: nat, o: nat, body: Bytes)
    requires len < CellLimit && o < CellLimit
    ensures var s := Be32(PropTag) + Be32(len) + Be32(o) + body;
            WordAt(s, 0) == PropTag && WordAt(s, 4) == len && WordAt(s, 8) == o
  {
    hide Be32, WordAt;
    var s := Be32(PropTag) + Be32(len) + Be32(o) + body;
    WordBack(PropTag, [], Be32(len) + Be32(o) + body);
    assert s == [] + Be32(PropTag) + (Be32(len) + Be32(o) + body);
    WordBack(len, Be32(PropTag), Be32(o) + body);
    assert s == Be32(PropTag) + Be32(len) + (Be32(o) + body);
    WordBack(o, Be32(PropTag) + Be32(len), body);
    assert s == (Be32(PropTag) + Be32(len)) + Be32(o) + body;
  }

  lemma OffsetSmall(names: seq<Bytes>, i: nat)
    requires i < |names|
    ensures Offset(names, i) < |Table(names)|
  {
    TableSplit(names, i);
  }

  /** Encoding then parsing gives the tokens back. */
  lemma {:induction false} EncodeBack(ts: seq<Token>, names: seq<Bytes>)
    requires Named(ts, names) && Small(ts, names)
    ensures Parse(Encode(ts, names) + Be32(EndTag), Table(names)) == Some(ts)
    decreases |ts|
  {
    hide EncodeToken, Table, Be32, SmallToken, Parse;
    if ts == [] {
      assert Encode(ts, names) + Be32(EndTag) == [] + Be32(EndTag) + [];
      ParseEnd(Table(names));
    } else {
      EncodeFront(ts, names);
      var rest := Encode(ts[1..], names) + Be32(EndTag);
      assert Encode(ts, names) + Be32(EndTag) == EncodeToken(ts[0], names) + rest;
      TokenBack(ts[0], names, rest);
      EncodeBack(ts[1..], names);
      assert [ts[0]] + ts[1..] == ts;
    }
  }

  lemma ParseEnd(strings: Bytes)
    ensures Parse([] + Be32(EndTag) + [], strings) == Some([])
  {
    hide Be32, WordAt;
    WordBack(EndTag, [], []);
  }

  /** Tokens encoded earlier stay right as names are added. */
  lemma {:induction false} EncodeStays(ts: seq<Token>, names: seq<Bytes>, more: seq<Bytes>)
    requires Named(ts, names) && DistinctNames(names + more)
    ensures Named(ts, names + more) && Encode(ts, names + more) == Encode(ts, names)
    decreases |ts|
  {
    hide Offset, Table, Be32;
    if ts != [] {
      EncodeStays(ts[..|ts| - 1], names, more);
      var t := ts[|ts| - 1];
      if t.Property? {
        var i := IndexOf(names, t.name);
        assert (names + more)[i] == t.name;
        IndexIs(names + more, i);
        OffsetStays(names, more, i);
      }
    }
  }
}
