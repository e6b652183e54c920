/** Numbers and their bytes: what little-endian means, whatever function computes it. */
module ByteOrder {
  import opened Powers

  /** v / 2^(8 k) % 256 is byte k of v, lowest first. */
  predicate HasBytes(v: nat, s: seq<nat>) {
    v < Pow2(8 * |s|) && forall k :: 0 <= k < |s| ==> s[k] == v / Pow2(8 * k) % 256
  }

  ghost predicate AreBytes(s: seq<nat>) { forall i :: 0 <= i < |s| ==> s[i] < 256 }

  lemma ByteBase()
    ensures Pow2(0) == 1 && Pow2(8) == 256
  {
    assert Pow2(4) == 16;
    Pow2Add(4, 4);
  }

  lemma Shifted(v: nat, k: nat)
    requires k > 0
    ensures v / Pow2(8 * k) == v / 256 / Pow2(8 * (k - 1))
  {
    hide *;
    ByteBase();
    Pow2Add(8, 8 * (k - 1));
    Quotients(v, 256, Pow2(8 * (k - 1)));
  }

  lemma Quotients(x: nat, a: nat, b: nat)
    requires a > 0 && b > 0
    ensures a * b > 0 && x / (a * b) == x / a / b
  {
    hide *;
    var q, p := x / a, x / a / b;
    MulAtLeast(a, b);
    NestedQuotient(x, a, b, q, x % a, p, q % b);
    DivModUnique(x, a * b, p, q % b * a + x % a);
  }

  lemma NestedQuotient(x: nat, a: nat, b: nat, q: nat, r: nat, p: nat, s: nat)
    requires x == a * q + r && r < a && q == b * p + s && s < b
    ensures x == p * (a * b) + (s * a + r) && s * a + r < a * b
  {
    assert a * (b * p + s) == p * (a * b) + s * a;
    MulMono(s + 1, b, a);
    assert (s + 1) * a == s * a + a;
  }

  /** Byte 0 of v is v % 256, byte k that of v / 256 one place down. */
  lemma ByteStep(v: nat, k: nat)
    ensures v / Pow2(8 * 0) % 256 == v % 256
    ensures k > 0 ==> v / Pow2(8 * k) % 256 == v / 256 / Pow2(8 * (k - 1)) % 256
  {
    hide *;
    ByteBase();
    if k > 0 {
      Shifted(v, k);
    }
  }

  lemma Grows(v: nat, n: nat)
    ensures v < Pow2(8 * (n + 1)) <==> v / 256 < Pow2(8 * n)
  {
    hide *;
    ByteBase();
    Pow2Add(8, 8 * n);
    Scaled(v, Pow2(8 * n));
  }

  lemma Scaled(v: nat, p: nat)
    ensures v < 256 * p <==> v / 256 < p
  {
  }

  /** One byte put before others. */
  lemma Prepend(b: nat, w: nat, s: seq<nat>)
    requires b < 256 && HasBytes(w, s)
    ensures HasBytes(b + 256 * w, [b] + s)
  {
    hide Pow2;
    var v, t := b + 256 * w, [b] + s;
    assert v % 256 == b && v / 256 == w;
    Grows(v, |s|);
    forall k | 0 <= k < |t| ensures t[k] == v / Pow2(8 * k) % 256 {
      ByteStep(v, k);
      if k > 0 {
        assert s[k - 1] == w / Pow2(8 * (k - 1)) % 256;
      }
    }
  }

  lemma NoBytes()
    ensures HasBytes(0, [])
  {
  }

  /** The bytes determine the number. */
  lemma {:induction false} BytesDetermine(v: nat, w: nat, s: seq<nat>)
    requires HasBytes(v, s) && HasBytes(w, s)
    ensures v == w
    decreases |s|
  {
    hide Pow2;
    if s == [] {
      ByteBase();
    } else {
      Tail(v, s);
      Tail(w, s);
      BytesDetermine(v / 256, w / 256, s[1..]);
      ByteStep(v, 0);
      ByteStep(w, 0);
      assert s[0] == v / Pow2(8 * 0) % 256 == w / Pow2(8 * 0) % 256;
    }
  }

  lemma Tail(v: nat, s: seq<nat>)
    requires HasBytes(v, s) && s != []
    ensures HasBytes(v / 256, s[1..]) && s[0] == v % 256
  {
    hide Pow2;
    Grows(v, |s| - 1);
    assert s[0] == v / Pow2(8 * 0) % 256;
    ByteStep(v, 0);
    forall k | 0 <= k < |s| - 1 ensures s[1..][k] == v / 256 / Pow2(8 * k) % 256 {
      assert s[k + 1] == v / Pow2(8 * (k + 1)) % 256;
      ByteStep(v, k + 1);
    }
  }

  /** Cutting a number to n bytes keeps those bytes. */
  lemma {:induction false} CutBytes(v: nat, n: nat, k: nat)
    requires k < n
    ensures v % Pow2(8 * n) / Pow2(8 * k) % 256 == v / Pow2(8 * k) % 256
    decreases n
  {
    hide *;
    CutStep(v, n - 1);
    ByteStep(v, k);
    ByteStep(v % Pow2(8 * n), k);
    if k > 0 {
      CutBytes(v / 256, n - 1, k - 1);
    }
  }

  lemma CutStep(v: nat, n: nat)
    ensures v % Pow2(8 * (n + 1)) == v % 256 + 256 * (v / 256 % Pow2(8 * n))
    ensures v % Pow2(8 * (n + 1)) % 256 == v % 256 && v % Pow2(8 * (n + 1)) / 256 == v / 256 % Pow2(8 * n)
  {
    hide *;
    ByteBase();
    Pow2Add(8, 8 * n);
    CutNumbers(v, Pow2(8 * n), v / 256, v / 256 / Pow2(8 * n), v / 256 % Pow2(8 * n));
  }

  lemma CutNumbers(v: nat, p: nat, w: nat, q: nat, r: nat)
    requires p > 0 && w == v / 256 && w == p * q + r && r < p
    ensures v % (256 * p) == v % 256 + 256 * r
    ensures v % (256 * p) % 256 == v % 256 && v % (256 * p) / 256 == r
  {
    assert v == q * (256 * p) + (v % 256 + 256 * r);
    DivModUnique(v, 256 * p, q, v % 256 + 256 * r);
  }
}
