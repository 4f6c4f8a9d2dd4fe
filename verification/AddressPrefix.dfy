/** Prefix membership of multi-group addresses as arithmetic on the whole number. */
module AddressPrefix {
  import opened Basics

  lemma {:induction false} Pow2Sum(a: nat, b: nat)
    ensures Pow2(a + b) == Pow2(a) * Pow2(b)
    decreases a
  {
    if a > 0 {
      Pow2Sum(a - 1, b);
      assert Pow2(a) * Pow2(b) == 2 * (Pow2(a - 1) * Pow2(b));
    }
  }

  /** The number of groups of `w` bits each, most significant first. */
  function Number(v: seq<nat>, w: nat): nat {
    if v == [] then 0 else Number(v[..|v| - 1], w) * Pow2(w) + v[|v| - 1]
  }

  predicate Groups(v: seq<nat>, w: nat) { forall i :: 0 <= i < |v| ==> v[i] < Pow2(w) }

  /** The leading bits of two numbers agree: all but the last `hostBits`. */
  predicate InPrefix(address: nat, network: nat, hostBits: nat) {
    address / Pow2(hostBits) == network / Pow2(hostBits)
  }

  lemma AtLeastOnce(d: int, b: nat)
    ensures d >= 1 ==> d * b >= b
  {
    if d >= 1 { assert d * b == (d - 1) * b + b; }
  }

  lemma Difference(a: int, q: int, b: nat)
    ensures (a - q) * b == a * b - q * b
  {
  }

  /** A quotient is determined by its remainder. */
  lemma OneQuotient(q: int, r: int, a: int, c: int, b: nat)
    requires q * b + r == a * b + c && 0 <= r < b && 0 <= c < b
    ensures q == a
  {
    AtLeastOnce(a - q, b);
    AtLeastOnce(q - a, b);
    Difference(a, q, b);
    Difference(q, a, b);
  }

  lemma DivideOnce(a: nat, b: nat, c: nat)
    requires b > 0 && c < b
    ensures (a * b + c) / b == a
  {
    var x := a * b + c;
    OneQuotient(x / b, x % b, a, c, b);
  }

  lemma Positive(a: nat, b: nat)
    requires a > 0 && b > 0
    ensures a * b > 0
  {
    AtLeastOnce(a, b);
  }

  lemma RestIsSmall(m: nat, r: nat, a: nat, b: nat)
    requires m < b && r < a
    ensures m * a + r < a * b
  {
    AtLeastOnce(b - m, a);
    assert (b - m) * a == b * a - m * a;
  }

  lemma Regroup(q: nat, b: nat, m: nat, a: nat)
    ensures (q * b + m) * a == q * (a * b) + m * a
  {
  }

  lemma Recompose(x: nat, y: nat, r: nat, q: nat, m: nat, a: nat, b: nat)
    requires x == y * a + r && y == q * b + m
    ensures x == q * (a * b) + (m * a + r)
  {
    Regroup(q, b, m, a);
  }

  lemma QuotientIs(x: nat, q: nat, r: nat, d: nat)
    requires d > 0 && r < d && x == q * d + r
    ensures x / d == q
  {
    DivideOnce(q, d, r);
  }

  lemma DivideTwice(x: nat, a: nat, b: nat)
    requires a > 0 && b > 0
    ensures a * b > 0 && (x / a) / b == x / (a * b)
  {
    Positive(a, b);
    var y, r := x / a, x % a;
    var q, m := y / b, y % b;
    RestIsSmall(m, r, a, b);
    Recompose(x, y, r, q, m, a, b);
    QuotientIs(x, q, m * a + r, a * b);
  }

  lemma NumberStep(v: seq<nat>, w: nat)
    requires v != [] && Groups(v, w)
    ensures Number(v, w) / Pow2(w) == Number(v[..|v| - 1], w)
  {
    DivideOnce(Number(v[..|v| - 1], w), Pow2(w), v[|v| - 1]);
  }

  /** Dropping the last groups drops their bits. */
  lemma {:induction false} DropGroups(v: seq<nat>, w: nat, k: nat, bits: nat)
    requires Groups(v, w) && k <= |v| && bits == w * (|v| - k)
    ensures Number(v, w) / Pow2(bits) == Number(v[..k], w)
    decreases |v| - k
  {
    if k == |v| {
      assert v[..k] == v;
    } else {
      var init := v[..|v| - 1];
      NumberStep(v, w);
      LessBits(w, |v| - k);
      DropGroups(init, w, k, bits - w);
      assert init[..k] == v[..k];
      Pow2Sum(w, bits - w);
      DivideTwice(Number(v, w), Pow2(w), Pow2(bits - w));
    }
  }

  lemma LessBits(w: nat, n: nat)
    requires n > 0
    ensures w * n - w == w * (n - 1) && w * n >= w
  {
  }

  lemma {:induction false} NumbersAreEqual(u: seq<nat>, v: seq<nat>, w: nat)
    requires Groups(u, w) && Groups(v, w) && |u| == |v|
    ensures Number(u, w) == Number(v, w) <==> u == v
  {
    if u != [] {
      var m := |u| - 1;
      NumbersAreEqual(u[..m], v[..m], w);
      DivideOnce(Number(u[..m], w), Pow2(w), u[m]);
      DivideOnce(Number(v[..m], w), Pow2(w), v[m]);
      assert u == u[..m] + [u[m]] && v == v[..m] + [v[m]];
    }
  }

  lemma Quotients(x: nat, y: nat, a: nat, b: nat, p: nat, q: nat)
    requires p > 0 && q > 0 && a < p * q && b < p * q
    ensures (x * (p * q) + a) / p == (y * (p * q) + b) / p <==> x == y && a / p == b / p
  {
    QuotientOf(x, a, p, q);
    QuotientOf(y, b, p, q);
    SmallQuotient(a, p, q);
    SmallQuotient(b, p, q);
    if x * q + a / p == y * q + b / p {
      DivideOnce(x, q, a / p);
      DivideOnce(y, q, b / p);
    }
  }

  lemma Monotone(a: nat, b: nat, p: nat)
    ensures a <= b ==> a * p <= b * p
  {
    if a <= b { assert b * p == a * p + (b - a) * p; }
  }

  lemma SmallQuotient(a: nat, p: nat, q: nat)
    requires p > 0 && q > 0 && a < p * q
    ensures 0 <= a / p < q
  {
    Monotone(q, a / p, p);
  }

  lemma QuotientOf(x: nat, a: nat, p: nat, q: nat)
    requires p > 0
    ensures (x * (p * q) + a) / p == x * q + a / p
  {
    var whole := x * (p * q) + a;
    Regroup(x, q, a / p, p);
    OneQuotient(x * q + a / p, a % p, whole / p, whole % p, p);
  }

  /** Group by group: the groups before `k` agree, and so do the leading bits of group `k`. */
  lemma PrefixByGroups(u: seq<nat>, v: seq<nat>, w: nat, k: nat, h: nat, bits: nat)
    requires Groups(u, w) && Groups(v, w) && |u| == |v| && k < |u| && h <= w && bits == w * (|u| - (k + 1))
    ensures InPrefix(Number(u, w), Number(v, w), bits + h) <==>
            u[..k] == v[..k] && u[k] / Pow2(h) == v[k] / Pow2(h)
  {
    LeadingBits(u, w, k, h, bits);
    LeadingBits(v, w, k, h, bits);
    SameLeadingBits(Number(u[..k], w), Number(v[..k], w), u[k], v[k], w, h);
    NumbersAreEqual(u[..k], v[..k], w);
  }

  lemma SameLeadingBits(x: nat, y: nat, a: nat, b: nat, w: nat, h: nat)
    requires h <= w && a < Pow2(w) && b < Pow2(w)
    ensures (x * Pow2(w) + a) / Pow2(h) == (y * Pow2(w) + b) / Pow2(h) <==> x == y && a / Pow2(h) == b / Pow2(h)
  {
    Pow2Sum(h, w - h);
    Quotients(x, y, a, b, Pow2(h), Pow2(w - h));
  }

  lemma NumberAt(v: seq<nat>, w: nat, k: nat)
    requires k < |v|
    ensures Number(v[..k + 1], w) == Number(v[..k], w) * Pow2(w) + v[k]
  {
    assert v[..k + 1][..k] == v[..k];
  }

  lemma LeadingBits(v: seq<nat>, w: nat, k: nat, h: nat, bits: nat)
    requires Groups(v, w) && k < |v| && h <= w && bits == w * (|v| - (k + 1))
    ensures Number(v, w) / Pow2(bits + h) == (Number(v[..k], w) * Pow2(w) + v[k]) / Pow2(h)
  {
    DropGroups(v, w, k + 1, bits);
    NumberAt(v, w, k);
    Pow2Sum(bits, h);
    DivideTwice(Number(v, w), Pow2(bits), Pow2(h));
  }
}
