/** Positional number representations, most significant digit first, in any base. */
module Digits {

  ghost predicate InBase(base: nat, ds: seq<nat>) {
    forall i :: 0 <= i < |ds| ==> ds[i] < base
  }

  function FromDigits(base: nat, ds: seq<nat>): nat {
    if ds == [] then 0 else FromDigits(base, ds[..|ds| - 1]) * base + ds[|ds| - 1]
  }

  /** The shortest representation: zero is the empty sequence. */
  function ToDigits(base: nat, n: nat): (ds: seq<nat>)
    requires base >= 2
    ensures InBase(base, ds)
    ensures ds != [] ==> ds[0] != 0
    decreases n
  {
    if n == 0 then []
    else
      QuotientIsSmaller(base, n);
      ToDigits(base, n / base) + [n % base]
  }

  lemma QuotientIsSmaller(base: nat, n: nat)
    requires base >= 2 && n > 0
    ensures 0 <= n / base < n
  {
    SmallerThanProduct(base, n, n / base, n % base);
  }

  lemma SmallerThanProduct(base: nat, n: nat, q: int, r: nat)
    requires base >= 2 && n > 0 && n == base * q + r && r < base
    ensures 0 <= q < n
  {
    if q < 0 { Monotone(base, q, -1); }
    if q >= n { Monotone(q, 2, base); }
  }

  lemma Monotone(x: nat, a: int, b: int)
    requires a <= b
    ensures x * a <= x * b
  {
  }

  lemma DivMod(base: nat, q: nat, d: nat)
    requires d < base
    ensures (q * base + d) / base == q && (q * base + d) % base == d
  {
    var n := q * base + d;
    UniqueDivision(base, q, d, n / base, n % base);
  }

  lemma UniqueDivision(base: nat, q: int, d: nat, q': int, d': nat)
    requires d < base && d' < base && q * base + d == base * q' + d'
    ensures q == q' && d == d'
  {
    if q < q' { Monotone(base, q + 1, q'); }
    if q' < q { Monotone(base, q' + 1, q); }
  }

  lemma FromDigitsAppend(base: nat, ds: seq<nat>, d: nat)
    ensures FromDigits(base, ds + [d]) == FromDigits(base, ds) * base + d
  {
    assert (ds + [d])[..|ds|] == ds;
  }

  lemma ToDigitsAppend(base: nat, q: nat, d: nat)
    requires base >= 2 && d < base && q + d > 0
    ensures q * base >= 0 && q * base + d > 0
    ensures ToDigits(base, q * base + d) == ToDigits(base, q) + [d]
  {
    Monotone(q, 1, base);
    DivMod(base, q, d);
  }

  lemma {:induction false} FromToDigits(base: nat, n: nat)
    requires base >= 2
    ensures FromDigits(base, ToDigits(base, n)) == n
    decreases n
  {
    if n > 0 {
      var q, d := n / base, n % base;
      QuotientIsSmaller(base, n);
      FromToDigits(base, q);
      FromDigitsAppend(base, ToDigits(base, q), d);
      Recompose(base, n);
    }
  }

  lemma Recompose(base: nat, n: nat)
    requires base > 0
    ensures n == n / base * base + n % base
  {
  }

  /** Leading zeros do not count, so only representations without them come back unchanged. */
  lemma {:induction false} ToFromDigits(base: nat, ds: seq<nat>)
    requires base >= 2 && InBase(base, ds) && (ds != [] ==> ds[0] != 0)
    ensures ToDigits(base, FromDigits(base, ds)) == ds
    ensures ds != [] ==> FromDigits(base, ds) > 0
  {
    if ds != [] {
      var init, d := ds[..|ds| - 1], ds[|ds| - 1];
      ToFromDigits(base, init);
      assert ds == init + [d];
      ToDigitsAppend(base, FromDigits(base, init), d);
    }
  }

  function Zeros(k: nat): (z: seq<nat>)
    ensures |z| == k && forall d <- z :: d == 0
  {
    seq(k, _ => 0)
  }

  lemma {:induction false} LeadingZerosVanish(base: nat, k: nat, ds: seq<nat>)
    ensures FromDigits(base, Zeros(k) + ds) == FromDigits(base, ds)
  {
    if ds != [] {
      var all := Zeros(k) + ds;
      assert all[..|all| - 1] == Zeros(k) + ds[..|ds| - 1];
      LeadingZerosVanish(base, k, ds[..|ds| - 1]);
    } else if k > 0 {
      assert (Zeros(k) + ds)[..k - 1] == Zeros(k - 1) + ds;
      LeadingZerosVanish(base, k - 1, ds);
    }
  }

  /** How many zeros a sequence starts with, and what comes after them. */
  function LeadingZeros(ds: seq<nat>): (k: nat)
    ensures k <= |ds| && ds == Zeros(k) + ds[k..]
    ensures k < |ds| ==> ds[k] != 0
  {
    if ds == [] || ds[0] != 0 then 0 else 1 + LeadingZeros(ds[1..])
  }

  lemma {:induction false} CountLeadingZeros(k: nat, ds: seq<nat>)
    requires ds != [] ==> ds[0] != 0
    ensures LeadingZeros(Zeros(k) + ds) == k
  {
    if k > 0 {
      assert (Zeros(k) + ds)[1..] == Zeros(k - 1) + ds;
      CountLeadingZeros(k - 1, ds);
    } else {
      assert Zeros(k) + ds == ds;
    }
  }

  // ---- changing the base, with leading zeros carried over one for one ----

  function Recode(from: nat, to: nat, ds: seq<nat>): (r: seq<nat>)
    requires to >= 2
    ensures InBase(to, r)
  {
    Zeros(LeadingZeros(ds)) + ToDigits(to, FromDigits(from, ds))
  }

  /** Nothing is lost: recoding back gives the very same sequence, leading zeros included. */
  lemma RecodeBack(from: nat, to: nat, ds: seq<nat>)
    requires from >= 2 && to >= 2 && InBase(from, ds)
    ensures Recode(to, from, Recode(from, to, ds)) == ds
  {
    var k := LeadingZeros(ds);
    var rest := ds[k..];
    var n := FromDigits(from, rest);
    LeadingZerosVanish(from, k, rest);
    CountLeadingZeros(k, ToDigits(to, n));
    LeadingZerosVanish(to, k, ToDigits(to, n));
    FromToDigits(to, n);
    ToFromDigits(from, rest);
  }
}
