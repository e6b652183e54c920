/**
 * The memory layout of the Robin-hood table, on plain sequences: what one info byte says
 * about the slot beside it, the order that occupied runs keep, and what every elementary
 * step (insertion, backward shift, halving of the info scale) does to that order.
 */
module HoodLayout {

  datatype Slot<K, V> = Free | Node(key: K, val: V)

  /**
   * One info byte packs displacement and hash bits: with a step of inc per displacement,
   * the low five hash bits keep 5 - shift of themselves.
   */
  datatype Scale = Scale(inc: nat, shift: nat) {
    predicate Valid() {
      this in {Scale(32, 0), Scale(16, 1), Scale(8, 2), Scale(4, 3), Scale(2, 4)}
    }

    function Halved(): Scale { Scale(inc / 2, shift + 1) }
  }

  const InitialScale := Scale(32, 0)

  /** (h & 31) >> shift */
  function HashBits(hash: nat, s: Scale): nat {
    var x := hash % 32;
    match s.shift
    case 0 => x
    case 1 => x / 2
    case 2 => x / 4
    case 3 => x / 8
    case _ => x / 16
  }

  /** (h >> 5) & mask, for a table of n = mask + 1 home slots, n a power of two. */
  function Home(hash: nat, n: nat): nat
    requires n > 0
  {
    (hash / 32) % n
  }

  /** The info a key with this hash has in slot i. */
  function InfoAt(hash: nat, n: nat, s: Scale, i: nat): int
    requires n > 0
  {
    s.inc * (i - Home(hash, n) + 1) + HashBits(hash, s)
  }

  lemma InfoStep(hash: nat, n: nat, s: Scale, i: nat)
    requires n > 0
    ensures InfoAt(hash, n, s, i + 1) == InfoAt(hash, n, s, i) + s.inc
  {
    var d := i - Home(hash, n) + 1;
    assert s.inc * (d + 1) == s.inc * d + s.inc;
  }

  lemma InfoHome(hash: nat, n: nat, s: Scale)
    requires n > 0 && s.Valid()
    ensures InfoAt(hash, n, s, Home(hash, n)) == s.inc + HashBits(hash, s)
    ensures s.inc <= InfoAt(hash, n, s, Home(hash, n)) < 2 * s.inc
  {
    assert s.inc * 1 == s.inc;
  }

  lemma InfoFrom(hash: nat, n: nat, s: Scale, i: nat)
    requires n > 0 && s.Valid() && i >= Home(hash, n)
    ensures InfoAt(hash, n, s, i) >= s.inc
    ensures i > Home(hash, n) ==> InfoAt(hash, n, s, i) >= 2 * s.inc
    ensures i - Home(hash, n) < InfoAt(hash, n, s, i) / 2
  {
    var d := i - Home(hash, n);
    assert s.inc * (d + 1) >= 2 * (d + 1);
    assert s.inc * (d + 1) == s.inc * d + s.inc;
    if d > 0 {
      assert s.inc * d >= s.inc;
    }
  }

  /** Halving a byte halves the step and drops one hash bit: nothing else is lost. */
  lemma InfoHalves(hash: nat, n: nat, s: Scale, i: nat)
    requires n > 0 && s.Valid() && s.inc > 2
    ensures s.Halved().Valid()
    ensures InfoAt(hash, n, s, i) / 2 == InfoAt(hash, n, s.Halved(), i)
  {
    var d, h := i - Home(hash, n) + 1, s.inc / 2;
    assert s.inc == 2 * h;
    assert s.inc * d == 2 * (h * d);
    HashHalves(hash, s);
  }

  lemma HashHalves(hash: nat, s: Scale)
    requires s.Valid() && s.inc > 2
    ensures HashBits(hash, s) / 2 == HashBits(hash, s.Halved())
  {
  }

  /**
   * An info byte read back: divided by the step it is the distance from the home slot plus
   * one, and the rest are the upper of the five hash bits that fit below the step.
   */
  lemma InfoDecodes(hash: nat, n: nat, s: Scale, i: nat)
    requires n > 0 && s.Valid() && i >= hash / 32 % n
    ensures InfoAt(hash, n, s, i) / s.inc == i - hash / 32 % n + 1
    ensures InfoAt(hash, n, s, i) % s.inc == hash % 32 / (32 / s.inc)
  {
    var d, b := i - Home(hash, n) + 1, HashBits(hash, s);
    BitsFit(hash, s);
    Divided(s.inc, d, b);
  }

  lemma BitsFit(hash: nat, s: Scale)
    requires s.Valid()
    ensures HashBits(hash, s) == hash % 32 / (32 / s.inc) < s.inc
  {
  }

  lemma Divided(c: nat, d: nat, b: nat)
    requires b < c && c in {2, 4, 8, 16, 32}
    ensures (c * d + b) / c == d && (c * d + b) % c == b
  {
  }

  /** How info bytes of neighbouring slots relate: runs are sorted, and start at a home slot. */
  predicate Ordered(a: nat, b: nat, inc: nat) {
    b < 2 * inc || (a != 0 && b <= a + inc)
  }

  predicate OrderedAt(info: seq<nat>, i: nat, inc: nat)
    requires i + 1 < |info|
  {
    Ordered(info[i], info[i + 1], inc)
  }

  /** The info bytes: one per slot, a sentinel, and padding for eight-byte reads. */
  ghost predicate InfoBytes(info: seq<nat>, slots: nat) {
    && |info| == slots + 8
    && info[slots] == 1
    && forall i :: slots < i < |info| ==> info[i] == 0
  }

  ghost predicate Sorted(info: seq<nat>, slots: nat, inc: nat)
    requires |info| > slots
  {
    && info[0] < 2 * inc
    && forall i :: 0 <= i < slots ==> OrderedAt(info, i, inc)
  }

  ghost predicate Labelled<K, V>(h: K -> nat, n: nat, s: Scale, kv: seq<Slot<K, V>>, info: seq<nat>)
    requires n > 0 && |info| >= |kv|
  {
    forall i {:trigger kv[i]} {:trigger info[i]} :: 0 <= i < |kv| ==>
      if kv[i].Free? then info[i] == 0
      else Home(h(kv[i].key), n) <= i && info[i] == InfoAt(h(kv[i].key), n, s, i)
  }

  /** The slots hold exactly the map m, each key once, at the place pos names. */
  ghost predicate Holds<K, V>(kv: seq<Slot<K, V>>, m: map<K, V>, pos: map<K, nat>) {
    && pos.Keys == m.Keys
    && (forall i {:trigger kv[i]} :: 0 <= i < |kv| && kv[i].Node? ==> kv[i].key in pos && pos[kv[i].key] == i)
    && (forall k {:trigger pos[k]} :: k in pos ==> pos[k] < |kv| && kv[pos[k]] == Node(k, m[k]))
  }

  ghost predicate Sound<K, V>(h: K -> nat, n: nat, s: Scale, kv: seq<Slot<K, V>>, info: seq<nat>,
                                    m: map<K, V>, pos: map<K, nat>) {
    && n > 0 && s.Valid() && n <= |kv|
    && InfoBytes(info, |kv|)
    && Sorted(info, |kv|, s.inc)
    && Labelled(h, n, s, kv, info)
    && Holds(kv, m, pos)
  }
}
