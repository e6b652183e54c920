/**
 * The log matcher of the ring test bench: every receive takes the first pending send that
 * matches it. What is left at the end has a closed form, per key, whatever the order of the
 * log.
 */
module EbiMatch {

  // ---- When two log entries match ----

  datatype Flit = Flit(target: string, source: string, vcId: string, lar: string, flit: string, channel: string)

  function LastNine(s: string): string {
    if |s| <= 9 then s else s[|s| - 9..]
  }

  /** send_traffic.match */
  predicate FlitMatch(self: Flit, receiver: Flit) {
    if self.channel != "channel: 3" then
      self.target == receiver.target && self.source == receiver.source && self.vcId == receiver.vcId
      && self.lar == receiver.lar && self.flit == receiver.flit && self.channel == receiver.channel
    else
      self.target == receiver.target && self.source == receiver.source && self.vcId == receiver.vcId
      && self.lar == receiver.lar && LastNine(self.flit) == LastNine(receiver.flit) && self.channel == receiver.channel
  }

  /** Of a flit on channel 3 only the last nine characters tell. */
  function FlitKey(f: Flit): Flit {
    if f.channel == "channel: 3" then f.(flit := LastNine(f.flit)) else f
  }

  /** Matching is equality of keys, so it is an equivalence, though the test looks at one side only. */
  lemma MatchIsKey(a: Flit, b: Flit)
    ensures FlitMatch(a, b) <==> FlitKey(a) == FlitKey(b)
  {
  }

  // ---- The matcher ----

  /** An entry of the log: a send (or request) or a receive (or response), at its line. */
  datatype Event<K> = Event(send: bool, key: K, line: nat)

  function RemoveFirst<K(==)>(pending: seq<Event<K>>, k: K): seq<Event<K>> {
    if pending == [] then []
    else if pending[0].key == k then pending[1..]
    else [pending[0]] + RemoveFirst(pending[1..], k)
  }

  /** The entries of one key, in order. */
  function Of<K(==)>(es: seq<Event<K>>, k: K): (r: seq<Event<K>>)
    ensures |r| <= |es|
  {
    if es == [] then [] else Of(es[..|es| - 1], k) + if es[|es| - 1].key == k then [es[|es| - 1]] else []
  }

  predicate InOrder<K>(es: seq<Event<K>>) { forall i, j :: 0 <= i < j < |es| ==> es[i].line < es[j].line }

  class Matcher<K(==)> {
    var pending: seq<Event<K>>
    var unmatched: seq<Event<K>>

    constructor ()
      ensures pending == [] && unmatched == []
    {
      pending, unmatched := [], [];
    }

    method Send(e: Event<K>)
      modifies this`pending
      ensures pending == old(pending) + [e]
    {
      pending := pending + [e];
    }

    /** Rebuilds the pending list without the first match; a receive without one is left over. */
    method Receive(e: Event<K>)
      modifies this
      ensures pending == RemoveFirst(old(pending), e.key)
      ensures unmatched == old(unmatched) + if Has(old(pending), e.key) then [] else [e]
    {
      hide RemoveFirst, Has;
      var flag := false;
      var newL: seq<Event<K>> := [];
      var k := 0;
      assert pending[0..] == pending;
      HasNone(e.key);
      assert pending[..0] == [];
      while k < |pending|
        modifies {}
        invariant k <= |pending|
        invariant RemoveFirst(pending, e.key) == newL + if flag then pending[k..] else RemoveFirst(pending[k..], e.key)
        invariant flag <==> Has(pending[..k], e.key)
      {
        RemoveHead(pending[k..], e.key);
        assert pending[k..][0] == pending[k] && pending[k..][1..] == pending[k + 1..];
        HasNext(pending[..k], pending[k], e.key);
        assert pending[..k + 1] == pending[..k] + [pending[k]];
        if pending[k].key != e.key || flag {
          newL := newL + [pending[k]];
        } else {
          flag := true;
        }
        k := k + 1;
      }
      assert pending[..k] == pending && pending[k..] == [];
      RemoveNone(e.key);
      pending := newL;
      if !flag {
        unmatched := unmatched + [e];
      }
    }

    lemma RemoveNone(k: K)
      ensures RemoveFirst<K>([], k) == []
    {
    }

    lemma HasNone(k: K)
      ensures !Has<K>([], k)
    {
    }
  }

  lemma RemoveHead<K>(pending: seq<Event<K>>, k: K)
    requires pending != []
    ensures RemoveFirst(pending, k)
            == if pending[0].key == k then pending[1..] else [pending[0]] + RemoveFirst(pending[1..], k)
  {
  }

  lemma HasNext<K>(es: seq<Event<K>>, e: Event<K>, k: K)
    ensures Has(es + [e], k) <==> Has(es, k) || e.key == k
  {
    if Has(es, k) {
      var i :| 0 <= i < |es| && es[i].key == k;
      assert (es + [e])[i].key == k;
    }
    assert (es + [e])[|es|] == e;
  }

  predicate Has<K(==)>(es: seq<Event<K>>, k: K) { exists i :: 0 <= i < |es| && es[i].key == k }

  // ---- The closed form ----

  /** Receives minus sends of a key. */
  function Excess<K(==)>(es: seq<Event<K>>, k: K): int {
    if es == [] then 0
    else
      var e := es[|es| - 1];
      Excess(es[..|es| - 1], k) + if e.key != k then 0 else if e.send then -1 else 1
  }

  /** The largest excess over all prefixes, and at least 0. */
  function Peak<K(==)>(es: seq<Event<K>>, k: K): (p: nat)
    ensures p >= Excess(es, k)
    decreases |es|
  {
    if es == [] then 0
    else
      var before := Peak(es[..|es| - 1], k);
      if Excess(es, k) > before then Excess(es, k) else before
  }

  lemma {:induction false} PeakIsMax<K>(es: seq<Event<K>>, k: K)
    ensures forall i :: 0 <= i <= |es| ==> Excess(es[..i], k) <= Peak(es, k)
    ensures Peak(es, k) == 0 || exists i :: 0 <= i <= |es| && Excess(es[..i], k) == Peak(es, k)
    decreases |es|
  {
    assert es[..|es|] == es;
    if es != [] {
      var before := es[..|es| - 1];
      PeakIsMax(before, k);
      forall i | 0 <= i < |es| ensures es[..i] == before[..i] {
      }
      if Peak(es, k) == Peak(before, k) != 0 {
        var i :| 0 <= i <= |before| && Excess(before[..i], k) == Peak(before, k);
        assert Excess(es[..i], k) == Peak(es, k);
      }
    }
  }

  function Sends<K(==)>(es: seq<Event<K>>, k: K): (r: seq<Event<K>>)
    ensures |r| <= |es|
  {
    if es == [] then []
    else
      var e := es[|es| - 1];
      Sends(es[..|es| - 1], k) + if e.key == k && e.send then [e] else []
  }

  /** The receives that take the excess of their key above all it has been before. */
  function Records<K(==)>(es: seq<Event<K>>, k: K): (r: seq<Event<K>>)
    decreases |es|
  {
    if es == [] then []
    else
      var e, before := es[|es| - 1], es[..|es| - 1];
      Records(before, k) + if e.key == k && !e.send && Excess(es, k) > Peak(before, k) then [e] else []
  }

  lemma {:induction false} RecordsCount<K>(es: seq<Event<K>>, k: K)
    ensures |Records(es, k)| == Peak(es, k)
    decreases |es|
  {
    if es != [] {
      RecordsCount(es[..|es| - 1], k);
    }
  }

  /** The last n entries. */
  function Suffix<T>(s: seq<T>, n: int): seq<T>
    requires 0 <= n <= |s|
  {
    s[|s| - n..]
  }

  ghost predicate ClosedForm<K>(es: seq<Event<K>>, pending: seq<Event<K>>, unmatched: seq<Event<K>>, k: K) {
    && 0 <= Peak(es, k) - Excess(es, k) <= |Sends(es, k)|
    && Of(pending, k) == Suffix(Sends(es, k), Peak(es, k) - Excess(es, k))
    && Of(unmatched, k) == Records(es, k)
  }

  lemma {:induction false} HasOf<K>(es: seq<Event<K>>, k: K)
    ensures Has(es, k) <==> Of(es, k) != []
    decreases |es|
  {
    if es != [] {
      var front, e := es[..|es| - 1], es[|es| - 1];
      HasOf(front, k);
      HasNext(front, e, k);
      assert front + [e] == es;
    }
  }

  lemma {:induction false} OfRemoved<K>(pending: seq<Event<K>>, k: K, x: K)
    ensures Of(RemoveFirst(pending, k), x)
            == if x == k && Of(pending, k) != [] then Of(pending, k)[1..] else Of(pending, x)
    decreases |pending|
  {
    hide Of;
    if pending == [] {
      OfNone(x);
    } else {
      OfFront(pending, x);
      OfFront(pending, k);
      if pending[0].key != k {
        OfRemoved(pending[1..], k, x);
        var r := [pending[0]] + RemoveFirst(pending[1..], k);
        OfFront(r, x);
        assert r[1..] == RemoveFirst(pending[1..], k);
      }
    }
  }

  lemma OfNone<K>(k: K)
    ensures Of<K>([], k) == []
  {
  }

  lemma {:induction false} OfFront<K>(es: seq<Event<K>>, k: K)
    requires es != []
    ensures Of(es, k) == (if es[0].key == k then [es[0]] else []) + Of(es[1..], k)
    decreases |es|
  {
    if |es| > 1 {
      OfFront(es[..|es| - 1], k);
      assert es[..|es| - 1][1..] == es[1..][..|es| - 2];
      assert es[1..][|es| - 2] == es[|es| - 1];
    } else {
      assert es[..0] == [];
    }
  }

  lemma OfNext<K>(es: seq<Event<K>>, e: Event<K>, k: K)
    ensures Of(es + [e], k) == Of(es, k) + if e.key == k then [e] else []
    ensures Sends(es + [e], k) == Sends(es, k) + if e.key == k && e.send then [e] else []
    ensures Excess(es + [e], k) == Excess(es, k) + if e.key != k then 0 else if e.send then -1 else 1
    ensures Peak(es + [e], k) == if Excess(es + [e], k) > Peak(es, k) then Excess(es + [e], k) else Peak(es, k)
    ensures Records(es + [e], k) == Records(es, k) + if e.key == k && !e.send && Excess(es + [e], k) > Peak(es, k) then [e] else []
  {
    assert (es + [e])[..|es|] == es;
  }

  /** One more entry of the log keeps the closed form, for every key. */
  lemma ClosedFormNext<K>(es: seq<Event<K>>, pending: seq<Event<K>>, unmatched: seq<Event<K>>, e: Event<K>, k: K)
    requires ClosedForm(es, pending, unmatched, k)
    ensures ClosedForm(es + [e],
                       if e.send then pending + [e] else RemoveFirst(pending, e.key),
                       if e.send || Has(pending, e.key) then unmatched else unmatched + [e], k)
  {
    hide Of, Sends, Excess, Peak, Records, RemoveFirst, Has;
    OfNext(es, e, k);
    OfNext(pending, e, k);
    OfNext(unmatched, e, k);
    OfRemoved(pending, e.key, k);
    HasOf(pending, e.key);
    if e.key == k && !e.send && Has(pending, k) {
      ShorterSuffix(Sends(es, k), Peak(es, k) - Excess(es, k));
    }
  }

  lemma ShorterSuffix<T>(s: seq<T>, n: int)
    requires 0 < n <= |s|
    ensures Suffix(s, n)[1..] == Suffix(s, n - 1)
  {
  }

  // ---- The whole log ----

  lemma {:induction false} RemovedOrder<K>(pending: seq<Event<K>>, k: K)
    requires InOrder(pending)
    ensures InOrder(RemoveFirst(pending, k))
    ensures forall x :: x in RemoveFirst(pending, k) ==> x in pending
    decreases |pending|
  {
    if pending != [] && pending[0].key != k {
      RemovedOrder(pending[1..], k);
      forall x | x in RemoveFirst(pending[1..], k) ensures pending[0].line < x.line {
        assert x in pending[1..];
        var i :| 0 <= i < |pending[1..]| && pending[1..][i] == x;
        assert pending[i + 1] == x;
      }
    }
  }

  /**
   * Whatever the log: per key, the leftover receives number the peak of receives over sends
   * and are those that set a new peak; the leftover sends are the last of their key, sends
   * minus receives plus leftover receives in number; and both lists keep the order of the log.
   */
  method Run<K(!new, ==)>(log: seq<Event<K>>) returns (pending: seq<Event<K>>, unmatched: seq<Event<K>>)
    requires InOrder(log)
    ensures forall k: K {:trigger ClosedForm(log, pending, unmatched, k)} :: ClosedForm(log, pending, unmatched, k)
    ensures InOrder(pending) && InOrder(unmatched)
  {
    hide ClosedForm, RemoveFirst, Has;
    var m := new Matcher<K>();
    var i := 0;
    EmptyClosed<K>();
    assert log[..0] == [];
    while i < |log|
      invariant i <= |log|
      invariant forall k: K {:trigger ClosedForm(log[..i], m.pending, m.unmatched, k)} ::
                  ClosedForm(log[..i], m.pending, m.unmatched, k)
      invariant InOrder(m.pending) && InOrder(m.unmatched)
      invariant forall x :: x in m.pending || x in m.unmatched ==> i > 0 && x.line <= log[i - 1].line
    {
      ghost var p, u := m.pending, m.unmatched;
      RemovedOrder(m.pending, log[i].key);
      assert log[..i + 1] == log[..i] + [log[i]];
      assert i > 0 ==> log[i - 1].line < log[i].line;
      if log[i].send {
        m.Send(log[i]);
      } else {
        m.Receive(log[i]);
      }
      ghost var es, p', u' := log[..i + 1], m.pending, m.unmatched;
      forall k: K {:trigger ClosedForm(es, p', u', k)} ensures ClosedForm(es, p', u', k) {
        assert ClosedForm(log[..i], p, u, k);
        ClosedFormNext(log[..i], p, u, log[i], k);
        assert u + [] == u;
      }
      i := i + 1;
    }
    assert log[..i] == log;
    pending, unmatched := m.pending, m.unmatched;
  }

  lemma EmptyClosed<K(!new)>()
    ensures forall k: K {:trigger ClosedForm([], [], [], k)} :: ClosedForm<K>([], [], [], k)
  {
  }

  // ---- Matching, character by character ----

  /** Character k from the end. */
  function FromEnd(s: string, k: nat): char
    requires 1 <= k <= |s|
  {
    s[|s| - k]
  }

  /** Flits match when all fields agree; on channel 3 the last nine characters of the flit suffice, or all if there are fewer. */
  lemma MatchInNumbers(a: Flit, b: Flit)
    ensures FlitMatch(a, b) <==>
      && a.target == b.target && a.source == b.source && a.vcId == b.vcId && a.lar == b.lar && a.channel == b.channel
      && if a.channel != "channel: 3" || |a.flit| < 9 || |b.flit| < 9 then a.flit == b.flit
         else forall k :: 1 <= k <= 9 ==> FromEnd(a.flit, k) == FromEnd(b.flit, k)
  {
    if |a.flit| >= 9 && |b.flit| >= 9 {
      NineAgree(a.flit, b.flit);
    }
  }

  lemma NineAgree(s: string, t: string)
    requires |s| >= 9 && |t| >= 9
    ensures LastNine(s) == LastNine(t) <==> forall k :: 1 <= k <= 9 ==> FromEnd(s, k) == FromEnd(t, k)
  {
    var x, y := LastNine(s), LastNine(t);
    forall k | 1 <= k <= 9 ensures FromEnd(s, k) == x[9 - k] && FromEnd(t, k) == y[9 - k] {
    }
    if forall k :: 1 <= k <= 9 ==> FromEnd(s, k) == FromEnd(t, k) {
      forall i | 0 <= i < 9 ensures x[i] == y[i] {
        assert FromEnd(s, 9 - i) == FromEnd(t, 9 - i);
      }
    }
  }
}
