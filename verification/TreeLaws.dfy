/** The bytes of a flattened device tree: tokens, names and header as they stand in the blob. */
module TreeLaws {
  import opened DeviceTree
  import opened FdtBuilder
  import opened Wrappers

  /** Words stand highest byte first. */
  lemma BigEndian(v: nat)
    requires v < 0x1_0000_0000
    ensures var s := Be32(v);
      && s[0] < 256 && s[1] < 256 && s[2] < 256 && s[3] < 256
      && v == s[0] * 0x100_0000 + s[1] * 0x1_0000 + s[2] * 0x100 + s[3]
  {
    BytesBack(v);
  }

  lemma SmallWord(v: nat)
    requires v < 256
    ensures Be32(v) == [0, 0, 0, v]
  {
  }

  /** A node begins with 1 and its name, a property with 3, its length, the place of its name and its data; 2 ends a node. */
  lemma TokenBytes(t: Token, names: seq<Bytes>)
    requires t.Property? ==> t.name in names
    ensures t.Begin? ==> EncodeToken(t, names) == [0, 0, 0, 1] + t.name + Zeros(4 - |t.name| % 4)
    ensures t.End? ==> EncodeToken(t, names) == [0, 0, 0, 2]
    ensures t.Property? ==>
      var i := IndexOf(names, t.name);
      && names[i] == t.name
      && EncodeToken(t, names) == [0, 0, 0, 3] + Be32(|t.data|) + Be32(Offset(names, i)) + t.data + Zeros((0 - |t.data|) % 4)
  {
    hide Be32, Offset;
    SmallWord(1);
    SmallWord(2);
    SmallWord(3);
    match t
    case Begin(name) =>
      GapIs(|name| + 1);
      assert Padded(name + [0]) == name + ([0] + Zeros(Gap(|name| + 1)));
      assert [0] + Zeros(Gap(|name| + 1)) == Zeros(4 - |name| % 4);
      assert [0, 0, 0, 1] + (name + Zeros(4 - |name| % 4)) == [0, 0, 0, 1] + name + Zeros(4 - |name| % 4);
    case End =>
    case Property(name, data) =>
      GapIs(|data|);
      var front := [0, 0, 0, 3] + Be32(|data|) + Be32(Offset(names, IndexOf(names, name)));
      assert front + (data + Zeros(Gap(|data|))) == front + data + Zeros(Gap(|data|));
  }

  lemma GapIs(n: nat)
    ensures Gap(n) == (0 - n) % 4
    ensures n > 0 ==> 1 + Gap(n) == 4 - (n - 1) % 4
  {
  }

  /** Names stand one after the other, each followed by one NUL. */
  lemma {:induction false} TableInNumbers(names: seq<Bytes>, i: nat, j: nat)
    requires i < |names| && j <= |names[i]|
    ensures Offset(names, 0) == 0 && Offset(names, i + 1) == Offset(names, i) + |names[i]| + 1 <= |Table(names)|
    ensures Table(names)[Offset(names, i) + j] == if j < |names[i]| then names[i][j] else 0
  {
    hide Table;
    TableSplit(names, i);
    NoNames(names);
    var t, o := Table(names), Offset(names, i);
    if j < |names[i]| {
      assert t[o..o + |names[i]|][j] == t[o + j];
    }
  }

  lemma NoNames(names: seq<Bytes>)
    ensures Offset(names, 0) == 0
  {
    assert names[..0] == [];
  }

  /** A node without a name that holds the property `a` with one byte of data, word by word. */
  lemma SmallestTree(b: nat)
    ensures var ts, names := [Begin([]), Property([97], [b]), End], [[97]];
      && Named(ts, names) && Table(names) == [97, 0]
      && Encode(ts, names) + Be32(EndTag) ==
           [0, 0, 0, 1] + [0, 0, 0, 0] + [0, 0, 0, 3] + [0, 0, 0, 1] + [0, 0, 0, 0] + [b, 0, 0, 0] + [0, 0, 0, 2] + [0, 0, 0, 9]
  {
    hide Encode, EncodeToken, Be32, Table, Offset;
    var names: seq<Bytes> := [[97]];
    var t0, t1, t2 := Begin([]), Property([97], [b]), End;
    OneName(names);
    SmallWord(0);
    SmallWord(1);
    SmallWord(9);
    TokenBytes(t0, names);
    TokenBytes(t1, names);
    TokenBytes(t2, names);
    NoNames(names);
    EncodeNothing(names);
    EncodeNext([], t0, names);
    EncodeNext([t0], t1, names);
    EncodeNext([t0, t1], t2, names);
    assert [] + [t0] == [t0] && [t0] + [t1] == [t0, t1] && [t0, t1] + [t2] == [t0, t1, t2];
    assert EncodeToken(t0, names) == [0, 0, 0, 1] + [0, 0, 0, 0];
    assert EncodeToken(t1, names) == [0, 0, 0, 3] + [0, 0, 0, 1] + [0, 0, 0, 0] + [b, 0, 0, 0];
  }

  lemma OneName(names: seq<Bytes>)
    requires names == [[97]]
    ensures IndexOf(names, [97]) == 0 && Table(names) == [97, 0]
  {
    assert names[..0] == [];
    assert Table([]) == [];
  }

  lemma EncodeNothing(names: seq<Bytes>)
    ensures Named([], names) && Encode([], names) == []
  {
  }

  /**
   * The header of a blob, field by field at its place, and what stands where it says: the
   * structure from byte 40 on, sixteen zeros from the next multiple of eight on, the strings
   * right behind them, zeros between and up to a multiple of eight at the end.
   */
  lemma BlobInNumbers(s: Bytes, structure: Bytes, strings: Bytes)
    requires Laid(s, structure, strings) && |s| < 0x1_0000_0000
    ensures |s| >= 40 && s[0..4] == [0xd0, 0x0d, 0xfe, 0xed]
    ensures var reserve := (40 + |structure| + 7) / 8 * 8;
      && WordAt(s, 4) == |s| == (reserve + 16 + |strings| + 7) / 8 * 8
      && WordAt(s, 8) == 40 && WordAt(s, 12) == reserve + 16 && WordAt(s, 16) == reserve
      && WordAt(s, 20) == 17 && WordAt(s, 24) == 16 && WordAt(s, 28) == 0
      && WordAt(s, 32) == |strings| && WordAt(s, 36) == |structure|
      && s[40..40 + |structure|] == structure && s[reserve + 16..reserve + 16 + |strings|] == strings
      && (forall i :: 40 + |structure| <= i < reserve + 16 || reserve + 16 + |strings| <= i < |s| ==> s[i] == 0)
  {
    hide WordAt, Field;
    MagicBytes(s);
    FieldIs(s, 1, |s|);
    FieldIs(s, 2, HeaderSize);
    FieldIs(s, 3, StringsAt(|structure|));
    FieldIs(s, 4, ReserveAt(|structure|));
    FieldIs(s, 5, Version);
    FieldIs(s, 6, LastVersion);
    FieldIs(s, 7, 0);
    FieldIs(s, 8, |strings|);
    FieldIs(s, 9, |structure|);
  }

  lemma MagicBytes(s: Bytes)
    ensures Field(s, 0, Magic) ==> |s| >= 4 && s[0..4] == [0xd0, 0x0d, 0xfe, 0xed]
  {
  }
}
