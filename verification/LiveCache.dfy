/**
 * The live cache that warms a checkpoint: lines are moved to the front of their set in
 * place, and a traversal lists what is resident in the order of the last accesses.
 */
module LiveCache {
  import opened LruSpec
  import opened Wrappers

  datatype Line = Line(tag: nat, st: bool, order: int)

  /** The line of a resident tag: written since it was filled, and when it was last accessed. */
  function LineOf(trace: seq<Access>, sets: nat, n: nat, t: nat): Line
    requires sets > 0
  {
    Line(t, Written(trace, sets, n, t), Last(trace, t))
  }

  /** The lines c of set s are its resident lines, the most recent first, then empty ones. */
  ghost predicate SetHolds(c: seq<Line>, trace: seq<Access>, sets: nat, n: nat, s: nat)
    requires sets > 0
  {
    var r := Resident(trace, sets, n, s);
    && |c| == n >= |r|
    && (forall i {:trigger c[i]} {:trigger r[i]} :: 0 <= i < |r| ==> c[i] == LineOf(trace, sets, n, r[i]))
    && (forall i {:trigger c[i]} :: |r| <= i < n ==> c[i].tag == 0)
  }

  lemma Unaffected(trace: seq<Access>, sets: nat, n: nat, e: Access, t: nat)
    requires sets > 0 && t != e.tag
    ensures LineOf(trace + [e], sets, n, t) == LineOf(trace, sets, n, t)
  {
    assert (trace + [e])[..|trace|] == trace;
  }

  lemma ResidentSet(trace: seq<Access>, sets: nat, n: nat, s: nat, t: nat)
    requires sets > 0 && t in Resident(trace, sets, n, s)
    ensures SetOf(t, sets) == s
  {
  }

  lemma OtherSetHolds(c: seq<Line>, trace: seq<Access>, sets: nat, n: nat, s: nat, e: Access)
    requires sets > 0 && SetHolds(c, trace, sets, n, s) && s != SetOf(e.tag, sets)
    ensures SetHolds(c, trace + [e], sets, n, s)
  {
    hide LineOf, Take, SetOf;
    assert (trace + [e])[..|trace|] == trace;
    var r := Resident(trace, sets, n, s);
    assert Resident(trace + [e], sets, n, s) == r;
    forall i | 0 <= i < |r| ensures LineOf(trace + [e], sets, n, r[i]) == LineOf(trace, sets, n, r[i]) {
      ResidentSet(trace, sets, n, s, r[i]);
      Unaffected(trace, sets, n, e, r[i]);
    }
  }

  /** The set after the line at pos was found and brought to the front. */
  function Found(c: seq<Line>, pos: nat, line: Line): seq<Line>
    requires pos < |c|
  {
    [line] + c[..pos] + c[pos + 1..]
  }

  lemma HitPlace(c: seq<Line>, trace: seq<Access>, sets: nat, n: nat, s: nat, pos: nat)
    requires sets > 0 && SetHolds(c, trace, sets, n, s) && pos < n && c[pos].tag != 0
    ensures pos < |Resident(trace, sets, n, s)| && Resident(trace, sets, n, s)[pos] == c[pos].tag
    ensures c[pos].st == Written(trace, sets, n, c[pos].tag)
  {
    hide Resident;
  }

  lemma HitResident(trace: seq<Access>, sets: nat, n: nat, s: nat, e: Access, pos: nat)
    requires sets > 0 && n > 0 && SetOf(e.tag, sets) == s
    requires pos < |Resident(trace, sets, n, s)| && Resident(trace, sets, n, s)[pos] == e.tag
    ensures var r := Resident(trace, sets, n, s);
            && Resident(trace + [e], sets, n, s) == [e.tag] + r[..pos] + r[pos + 1..]
            && (forall i :: 0 <= i < |r| && i != pos ==> r[i] != e.tag)
            && LineOf(trace + [e], sets, n, e.tag) == Line(e.tag, e.write || Written(trace, sets, n, e.tag), |trace|)
  {
    hide Mru, Without;
    var r := Resident(trace, sets, n, s);
    assert (trace + [e])[..|trace|] == trace;
    AccessResident(trace, sets, n, s, e);
    WithoutAt(r, pos);
    assert |[e.tag] + (r[..pos] + r[pos + 1..])| <= n;
    assert [e.tag] + (r[..pos] + r[pos + 1..]) == [e.tag] + r[..pos] + r[pos + 1..];
  }

  lemma HitHolds(c: seq<Line>, trace: seq<Access>, sets: nat, n: nat, s: nat, e: Access, pos: nat)
    requires sets > 0 && SetHolds(c, trace, sets, n, s) && SetOf(e.tag, sets) == s
    requires pos < n && c[pos].tag == e.tag != 0
    ensures SetHolds(Found(c, pos, Line(e.tag, e.write || c[pos].st, |trace|)), trace + [e], sets, n, s)
  {
    hide Resident, LineOf;
    HitPlace(c, trace, sets, n, s, pos);
    HitResident(trace, sets, n, s, e, pos);
    var r, r' := Resident(trace, sets, n, s), Resident(trace + [e], sets, n, s);
    var c' := Found(c, pos, Line(e.tag, e.write || c[pos].st, |trace|));
    forall i {:trigger c'[i]} {:trigger r'[i]} | 0 <= i < |r'| ensures c'[i] == LineOf(trace + [e], sets, n, r'[i]) {
      if i > 0 {
        var k := if i <= pos then i - 1 else i;
        assert r'[i] == r[k] && c'[i] == c[k];
        Unaffected(trace, sets, n, e, r[k]);
      }
    }
  }

  lemma MissResident(trace: seq<Access>, sets: nat, n: nat, s: nat, e: Access)
    requires sets > 0 && n > 0 && SetOf(e.tag, sets) == s && e.tag !in Resident(trace, sets, n, s)
    ensures var r := Resident(trace, sets, n, s);
            && Resident(trace + [e], sets, n, s) == [e.tag] + (if |r| < n then r else r[..n - 1])
            && LineOf(trace + [e], sets, n, e.tag) == Line(e.tag, e.write, |trace|)
  {
    hide Mru, Without;
    assert (trace + [e])[..|trace|] == trace;
    AccessResident(trace, sets, n, s, e);
  }

  lemma NotResident(c: seq<Line>, trace: seq<Access>, sets: nat, n: nat, s: nat, t: nat)
    requires sets > 0 && SetHolds(c, trace, sets, n, s)
    requires forall i :: 0 <= i < n ==> c[i].tag != t
    ensures t !in Resident(trace, sets, n, s)
  {
    hide Resident;
    var r := Resident(trace, sets, n, s);
    forall i | 0 <= i < |r| ensures r[i] != t {
      assert c[i].tag == r[i];
    }
  }

  lemma MissHolds(c: seq<Line>, trace: seq<Access>, sets: nat, n: nat, s: nat, e: Access)
    requires sets > 0 && n > 0 && SetHolds(c, trace, sets, n, s) && SetOf(e.tag, sets) == s && e.tag != 0
    requires forall i :: 0 <= i < n ==> c[i].tag != e.tag
    ensures SetHolds(Found(c, n - 1, Line(e.tag, e.write, |trace|)), trace + [e], sets, n, s)
  {
    hide Resident, LineOf;
    NotResident(c, trace, sets, n, s, e.tag);
    MissResident(trace, sets, n, s, e);
    var r, r' := Resident(trace, sets, n, s), Resident(trace + [e], sets, n, s);
    var c' := Found(c, n - 1, Line(e.tag, e.write, |trace|));
    forall i {:trigger c'[i]} {:trigger r'[i]} | 0 <= i < |r'| ensures c'[i] == LineOf(trace + [e], sets, n, r'[i]) {
      if i > 0 {
        assert r'[i] == r[i - 1] && c'[i] == c[i - 1];
        Unaffected(trace, sets, n, e, r[i - 1]);
      }
    }
  }

  // ---- Lines behind pointers ----

  /** Where set s begins: s << log2Assoc */
  function SetBase(s: nat, n: nat): nat { s * n }

  lemma SetInside(s: nat, sets: nat, n: nat)
    requires s < sets
    ensures SetBase(s, n) + n <= sets * n
  {
    assert (s + 1) * n <= sets * n;
  }

  lemma SetsApart(s: nat, s': nat, n: nat)
    requires s != s'
    ensures SetBase(s, n) + n <= SetBase(s', n) || SetBase(s', n) + n <= SetBase(s, n)
  {
    if s < s' {
      assert (s + 1) * n <= s' * n;
    } else {
      assert (s' + 1) * n <= s * n;
    }
  }

  /** Every line has one pointer to it. */
  ghost predicate Pointers(content: seq<nat>, size: nat) {
    && |content| == size
    && (forall i :: 0 <= i < |content| ==> content[i] < size)
    && (forall i, j :: 0 <= i < j < |content| ==> content[i] != content[j])
  }

  ghost function LinesAt(mem: seq<Line>, content: seq<nat>, base: nat, n: nat): (c: seq<Line>)
    requires Pointers(content, |mem|) && base + n <= |mem|
    ensures |c| == n
  {
    seq(n, i requires 0 <= i < n => mem[content[base + i]])
  }

  /** The pointer at base + pos has moved to base, those before it one place back. */
  ghost predicate Turned(content: seq<nat>, content': seq<nat>, base: nat, pos: nat)
    requires base + pos < |content|
  {
    && |content'| == |content|
    && content'[base] == content[base + pos]
    && (forall i {:trigger content'[i]} :: base < i <= base + pos ==> content'[i] == content[i - 1])
    && (forall i {:trigger content'[i]} :: 0 <= i < |content| && !(base <= i <= base + pos) ==> content'[i] == content[i])
  }

  lemma TurnedPointers(content: seq<nat>, content': seq<nat>, base: nat, pos: nat, size: nat)
    requires Pointers(content, size) && base + pos < size && Turned(content, content', base, pos)
    ensures Pointers(content', size)
  {
    forall i, j | 0 <= i < j < size ensures content'[i] != content'[j] {
      var i' := if i == base then base + pos else if base < i <= base + pos then i - 1 else i;
      var j' := if j == base then base + pos else if base < j <= base + pos then j - 1 else j;
      assert content'[i] == content[i'] && content'[j] == content[j'];
      assert i' != j';
    }
  }

  /** Turning one set and rewriting its front line. */
  lemma TurnedLines(mem: seq<Line>, content: seq<nat>, content': seq<nat>, base: nat, pos: nat, n: nat, line: Line, b: nat)
    requires Pointers(content, |mem|) && Pointers(content', |mem|)
    requires pos < n && base + n <= |mem| && Turned(content, content', base, pos)
    requires b == base || b + n <= base || base + n <= b
    requires b + n <= |mem|
    ensures var mem' := mem[content[base + pos] := line];
            LinesAt(mem', content', b, n)
            == if b == base then Found(LinesAt(mem, content, base, n), pos, line) else LinesAt(mem, content, b, n)
  {
    var mem' := mem[content[base + pos] := line];
    var c := LinesAt(mem', content', b, n);
    forall i | 0 <= i < n
      ensures c[i] == if b == base then Found(LinesAt(mem, content, base, n), pos, line)[i] else LinesAt(mem, content, b, n)[i]
    {
      if b == base && i == 0 {
        assert content'[base] == content[base + pos];
      } else {
        var k := if b == base && i <= pos then i - 1 else i;
        assert content'[b + i] == content[b + k];
      }
    }
  }

  class LiveCache {
    const sets: nat
    const assoc: nat
    const lineSize: nat
    const memBase: nat
    const memEnd: nat
    const mem: array<Line>
    const content: array<nat>
    var maxOrder: nat
    var nReadHit: nat
    var nReadMiss: nat
    var nWriteHit: nat
    var nWriteMiss: nat

    ghost var trace: seq<Access>

    ghost predicate Valid()
      reads this, mem, content
    {
      && sets > 0 && assoc > 1 && lineSize > 0 && memBase >= lineSize
      && mem.Length == sets * assoc && Pointers(content[..], mem.Length)
      && maxOrder == |trace|
      && (forall s {:trigger SetBase(s, assoc)} :: 0 <= s < sets ==>
            SetBase(s, assoc) + assoc <= mem.Length
            && SetHolds(LinesAt(mem[..], content[..], SetBase(s, assoc), assoc), trace, sets, assoc, s))
    }

    constructor (sets: nat, assoc: nat, lineSize: nat, memBase: nat, memSize: nat, junk: nat -> int)
      requires sets > 0 && assoc > 1 && lineSize > 0 && memBase >= lineSize
      ensures Valid() && trace == [] && fresh(mem) && fresh(content)
      ensures this.sets == sets && this.assoc == assoc && this.lineSize == lineSize
      ensures this.memBase == memBase && memEnd == memBase + memSize
    {
      this.sets, this.assoc, this.lineSize := sets, assoc, lineSize;
      this.memBase, memEnd := memBase, memBase + memSize;
      var lines := sets * assoc;
      // a new line has no tag; its order is whatever memory held
      mem := new Line[lines](i => Line(0, false, junk(i)));
      content := new nat[lines](i => i);
      maxOrder, nReadHit, nReadMiss, nWriteHit, nWriteMiss := 0, 0, 0, 0, 0;
      trace := [];
      new;
      forall s {:trigger SetBase(s, assoc)} | 0 <= s < sets
        ensures SetBase(s, assoc) + assoc <= mem.Length
                && SetHolds(LinesAt(mem[..], content[..], SetBase(s, assoc), assoc), [], sets, assoc, s)
      {
        SetInside(s, sets, assoc);
      }
    }

    function CalcTag(addr: nat): nat
      requires lineSize > 0
    {
      addr / lineSize
    }

    /** Moves the pointer at base + pos to the front of its set. */
    method MoveToFront(base: nat, pos: nat) returns (p: nat)
      requires base + pos < content.Length
      modifies content
      ensures p == old(content[base + pos]) && Turned(old(content[..]), content[..], base, pos)
    {
      p := content[base + pos];
      var l := base + pos;
      while l > base
        invariant base <= l <= base + pos
        invariant forall i :: l < i <= base + pos ==> content[i] == old(content[i - 1])
        invariant forall i :: 0 <= i < content.Length && !(l < i <= base + pos) ==> content[i] == old(content[i])
      {
        content[l] := content[l - 1];
        l := l - 1;
      }
      content[base] := p;
    }

    /** The position of a tag in the set at base. */
    method Scan(base: nat, tag: nat) returns (pos: Option<nat>)
      requires mem.Length == content.Length && base + assoc <= mem.Length && assoc > 0
      requires forall i :: 0 <= i < content.Length ==> content[i] < mem.Length
      ensures pos.Some? ==> pos.value < assoc && mem[content[base + pos.value]].tag == tag
      ensures pos.None? ==> forall i {:trigger content[i]} :: base <= i < base + assoc ==> mem[content[i]].tag != tag
    {
      if mem[content[base]].tag == tag {
        return Some(0);
      }
      var l := base + 1;
      while l < base + assoc
        invariant base + 1 <= l <= base + assoc
        invariant forall i {:trigger content[i]} :: base <= i < l ==> mem[content[i]].tag != tag
      {
        if mem[content[l]].tag == tag {
          return Some(l - base);
        }
        l := l + 1;
      }
      pos := None;
    }

    /** findLine: the line of a tag, if it is there, comes to the front of its set. */
    method FindLine(tag: nat) returns (p: Option<nat>, ghost pos: nat)
      requires Valid()
      modifies content
      ensures var base := SetBase(SetOf(tag, sets), assoc);
              && base + assoc <= mem.Length
              && (p.Some? ==> pos < assoc && p.value == old(content[base + pos]) && mem[p.value].tag == tag
                              && Turned(old(content[..]), content[..], base, pos))
              && (p.None? ==> content[..] == old(content[..])
                              && forall i {:trigger content[i]} :: base <= i < base + assoc ==> mem[content[i]].tag != tag)
    {
      hide SetHolds, Turned;
      ValidSays(SetOf(tag, sets));
      var base := SetBase(SetOf(tag, sets), assoc);
      pos := 0;
      var at := Scan(base, tag);
      if at.None? {
        return None, pos;
      }
      pos := at.value;
      var q := MoveToFront(base, at.value);
      p := Some(q);
    }

    lemma ValidSays(s: nat)
      requires Valid() && s < sets
      ensures mem.Length == content.Length && SetBase(s, assoc) + assoc <= mem.Length && sets > 0 && assoc > 1
      ensures Pointers(content[..], mem.Length)
      ensures SetHolds(LinesAt(mem[..], content[..], SetBase(s, assoc), assoc), trace, sets, assoc, s)
      ensures forall i :: 0 <= i < content.Length ==> content[i] < mem.Length
    {
      hide SetHolds;
      SetInside(s, sets, assoc);
    }

    /** fillLine of an absent tag: the last line of its set comes to the front and takes the tag. */
    method FillLine(tag: nat) returns (p: nat)
      requires Valid() && tag != 0
      requires var base := SetBase(SetOf(tag, sets), assoc);
               forall i :: base <= i < base + assoc && i < content.Length && content[i] < mem.Length ==> mem[content[i]].tag != tag
      modifies content, mem
      ensures var base := SetBase(SetOf(tag, sets), assoc);
              && base + assoc <= mem.Length && p == old(content[base + assoc - 1]) < mem.Length
              && Turned(old(content[..]), content[..], base, assoc - 1)
              && mem[..] == old(mem[..])[p := old(mem[p]).(tag := tag)]
    {
      hide SetHolds, Turned;
      ValidSays(SetOf(tag, sets));
      var base := SetBase(SetOf(tag, sets), assoc);
      var at := Scan(base, tag);
      p := MoveToFront(base, assoc - 1); // the oldest, valid or not
      mem[p] := mem[p].(tag := tag);
    }

    /** One access leaves every set with the lines that the longer trace calls for. */
    ghost method Accessed(e: Access, content0: seq<nat>, mem0: seq<Line>, pos: nat)
      requires sets > 0 && assoc > 1 && lineSize > 0 && memBase >= lineSize
      requires mem.Length == content.Length == |mem0| == |content0| == sets * assoc && Pointers(content0, |mem0|)
      requires forall s {:trigger SetBase(s, assoc)} :: 0 <= s < sets ==>
                 SetBase(s, assoc) + assoc <= |mem0|
                 && SetHolds(LinesAt(mem0, content0, SetBase(s, assoc), assoc), trace, sets, assoc, s)
      requires e.tag != 0 && pos < assoc && maxOrder == |trace| + 1
      requires SetBase(SetOf(e.tag, sets), assoc) + assoc <= |mem0|
      requires Turned(content0, content[..], SetBase(SetOf(e.tag, sets), assoc), pos)
      requires var c := LinesAt(mem0, content0, SetBase(SetOf(e.tag, sets), assoc), assoc);
               && mem[..] == mem0[content0[SetBase(SetOf(e.tag, sets), assoc) + pos]
                                  := Line(e.tag, e.write || (c[pos].tag == e.tag && c[pos].st), |trace|)]
               && (c[pos].tag == e.tag || (pos == assoc - 1 && forall i :: 0 <= i < assoc ==> c[i].tag != e.tag))
      modifies this`trace
      ensures Valid() && trace == old(trace) + [e]
    {
      hide SetHolds, Turned, SetOf, Pointers, LinesAt;
      var home := SetOf(e.tag, sets);
      var b := SetBase(home, assoc);
      var c := LinesAt(mem0, content0, b, assoc);
      var line := Line(e.tag, e.write || (c[pos].tag == e.tag && c[pos].st), |trace|);
      TurnedPointers(content0, content[..], b, pos, |mem0|);
      HomeInside(e.tag, sets);
      forall s {:trigger SetBase(s, assoc)} | 0 <= s < sets
        ensures SetHolds(LinesAt(mem[..], content[..], SetBase(s, assoc), assoc), trace + [e], sets, assoc, s)
      {
        if s != home {
          SetsApart(s, home, assoc);
          TurnedLines(mem0, content0, content[..], b, pos, assoc, line, SetBase(s, assoc));
          OtherSetHolds(LinesAt(mem0, content0, SetBase(s, assoc), assoc), trace, sets, assoc, s, e);
        } else {
          TurnedLines(mem0, content0, content[..], b, pos, assoc, line, b);
          if c[pos].tag == e.tag {
            HitHolds(c, trace, sets, assoc, home, e, pos);
          } else {
            MissHolds(c, trace, sets, assoc, home, e);
          }
        }
      }
      trace := trace + [e];
    }

    predicate Tracked(addr: nat) { memBase <= addr <= memEnd }

    lemma TagNonzero(addr: nat)
      requires Valid() && Tracked(addr)
      ensures CalcTag(addr) != 0 && SetOf(CalcTag(addr), sets) < sets
    {
      hide SetHolds;
      assert addr / lineSize >= 1;
    }

    method Read(addr: nat)
      requires Valid()
      modifies this, mem, content
      ensures Valid() && lineSize > 0 && trace == old(trace) + (if memBase <= addr <= memEnd then [Access(addr / lineSize, false)] else [])
    {
      hide SetHolds, Turned, SetOf, LinesAt, Pointers;
      if addr < memBase || addr > memEnd {
        return;
      }
      TagNonzero(addr);
      var tag := CalcTag(addr);
      ValidSays(SetOf(tag, sets));
      ghost var content0, mem0, base := content[..], mem[..], SetBase(SetOf(tag, sets), assoc);
      ghost var pos;
      var l;
      l, pos := FindLine(tag);
      if l.Some? {
        LineBehind(mem0, content0, base, assoc, pos);
        mem[l.value] := mem[l.value].(order := maxOrder);
        maxOrder := maxOrder + 1;
        nReadHit := nReadHit + 1;
        Accessed(Access(tag, false), content0, mem0, pos);
        return;
      }
      nReadMiss := nReadMiss + 1;
      var p := FillLine(tag);
      NoneBehind(mem0, content0, base, assoc, tag);
      mem[p] := mem[p].(st := false);
      mem[p] := mem[p].(order := maxOrder);
      maxOrder := maxOrder + 1;
      assert mem[..] == mem0[p := Line(tag, false, maxOrder - 1)];
      Accessed(Access(tag, false), content0, mem0, assoc - 1);
    }

    method Write(addr: nat)
      requires Valid()
      modifies this, mem, content
      ensures Valid() && lineSize > 0 && trace == old(trace) + (if memBase <= addr <= memEnd then [Access(addr / lineSize, true)] else [])
    {
      hide SetHolds, Turned, SetOf, LinesAt, Pointers;
      if addr < memBase || addr > memEnd {
        return;
      }
      TagNonzero(addr);
      var tag := CalcTag(addr);
      ValidSays(SetOf(tag, sets));
      ghost var content0, mem0, base := content[..], mem[..], SetBase(SetOf(tag, sets), assoc);
      ghost var pos;
      var l;
      l, pos := FindLine(tag);
      if l.Some? {
        LineBehind(mem0, content0, base, assoc, pos);
        mem[l.value] := mem[l.value].(order := maxOrder);
        maxOrder := maxOrder + 1;
        mem[l.value] := mem[l.value].(st := true);
        nWriteHit := nWriteHit + 1;
        assert mem[..] == mem0[l.value := Line(tag, true, maxOrder - 1)];
        Accessed(Access(tag, true), content0, mem0, pos);
        return;
      }
      nWriteMiss := nWriteMiss + 1;
      var p := FillLine(tag);
      NoneBehind(mem0, content0, base, assoc, tag);
      mem[p] := mem[p].(st := true);
      mem[p] := mem[p].(order := maxOrder);
      maxOrder := maxOrder + 1;
      assert mem[..] == mem0[p := Line(tag, true, maxOrder - 1)];
      Accessed(Access(tag, true), content0, mem0, assoc - 1);
    }
  }

  lemma LineBehind(mem: seq<Line>, content: seq<nat>, base: nat, n: nat, pos: nat)
    requires Pointers(content, |mem|) && base + n <= |mem| && pos < n
    ensures base + pos < |content| && content[base + pos] < |mem|
    ensures LinesAt(mem, content, base, n)[pos] == mem[content[base + pos]]
  {
  }

  lemma NoneBehind(mem: seq<Line>, content: seq<nat>, base: nat, n: nat, tag: nat)
    requires Pointers(content, |mem|) && base + n <= |mem|
    requires forall i {:trigger content[i]} :: base <= i < base + n ==> content[i] < |mem| && mem[content[i]].tag != tag
    ensures forall i :: 0 <= i < n ==> LinesAt(mem, content, base, n)[i].tag != tag
  {
  }

  lemma HomeInside(t: nat, sets: nat)
    requires sets > 0
    ensures SetOf(t, sets) < sets
  {
  }
}
