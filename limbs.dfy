/**
 * Little-endian sequences of 64-bit limbs (GMP's `mp_limb_t` words) and the
 * natural numbers they denote, together with the ripple-carry addition that
 * GMP's `mpn` layer performs on them.
 */
module Limbs {
  import opened Arith

  /** The radix of one limb: 2^64. */
  const BASE: nat := 0x1_0000_0000_0000_0000

  /** One machine word of a multi-precision number. */
  type Limb = x: int | 0 <= x < 0x1_0000_0000_0000_0000

  /** The number a little-endian limb sequence denotes. */
  function Denote(s: seq<Limb>): nat
  {
    if |s| == 0 then 0 else s[0] + BASE * Denote(s[1..])
  }

  /** Appending a limb on top adds it at weight BASE^|s|. */
  lemma {:induction false} DenoteAppend(s: seq<Limb>, x: Limb)
    ensures Denote(s + [x]) == Denote(s) + x * Pow(BASE, |s|)
  {
    if |s| > 0 {
      assert (s + [x])[1..] == s[1..] + [x];
      DenoteAppend(s[1..], x);
      var d, p := Denote(s[1..]), Pow(BASE, |s| - 1);
      assert Denote(s + [x]) == s[0] + BASE * (d + x * p);
      assert Pow(BASE, |s|) == BASE * p;
      assert BASE * (d + x * p) == BASE * d + x * (BASE * p);
    }
  }

  /** A number of n limbs is below BASE^n. */
  lemma {:induction false} DenoteBound(s: seq<Limb>)
    ensures Denote(s) < Pow(BASE, |s|)
  {
    if |s| > 0 {
      DenoteBound(s[1..]);
      assert Denote(s[1..]) + 1 <= Pow(BASE, |s| - 1);
      assert BASE * (Denote(s[1..]) + 1) <= BASE * Pow(BASE, |s| - 1);
    }
  }

  /** Splitting a limb sequence at k splits the number into low and high parts. */
  lemma {:induction false} DenoteSplit(s: seq<Limb>, k: nat)
    requires k <= |s|
    ensures Denote(s) == Denote(s[..k]) + Pow(BASE, k) * Denote(s[k..])
  {
    if k > 0 {
      DenoteSplit(s[1..], k - 1);
      assert s[1..][..k - 1] == s[..k][1..];
      assert s[1..][k - 1..] == s[k..];
      var low, high, p := Denote(s[..k][1..]), Denote(s[k..]), Pow(BASE, k - 1);
      assert Denote(s[1..]) == low + p * high;
      assert Denote(s[..k]) == s[0] + BASE * low;
      assert Pow(BASE, k) == BASE * p;
      Distribute(BASE, low, p, high);
    } else {
      assert s[..0] == [] && s[0..] == s;
    }
  }

  lemma Distribute(b: int, low: int, p: int, high: int)
    ensures b * (low + p * high) == b * low + (b * p) * high
  {
  }

  /** A limb sequence followed by zero limbs denotes the same number. */
  lemma {:induction false} DenoteZeroPadding(s: seq<Limb>, z: seq<Limb>)
    requires forall i :: 0 <= i < |z| ==> z[i] == 0
    ensures Denote(s + z) == Denote(s)
  {
    DenoteSplit(s + z, |s|);
    assert (s + z)[..|s|] == s && (s + z)[|s|..] == z;
    DenoteZeros(z);
  }

  lemma {:induction false} DenoteZeros(z: seq<Limb>)
    requires forall i :: 0 <= i < |z| ==> z[i] == 0
    ensures Denote(z) == 0
  {
    if |z| > 0 {
      DenoteZeros(z[1..]);
    }
  }

  /** The low limbs of a sum and the carry out of the top summed limb. */
  datatype Carried = Carried(low: seq<Limb>, carry: nat)

  /**
   * Ripple-carry addition of two equally long limb sequences, as `mpn_add_n`
   * computes it: the sum of the low limbs, then the top limbs with the carry
   * out of the low ones.
   */
  function AddLimbs(a: seq<Limb>, b: seq<Limb>): (r: Carried)
    requires |a| == |b|
    ensures |r.low| == |a| && r.carry <= 1
    decreases |a|
  {
    if |a| == 0 then Carried([], 0)
    else
      var n := |a| - 1;
      var lower := AddLimbs(a[..n], b[..n]);
      var s := a[n] + b[n] + lower.carry;
      Carried(lower.low + [s % BASE], s / BASE)
  }

  /** The ripple-carry sum is exact: low limbs plus carry·BASE^n is the sum. */
  lemma {:induction false} AddLimbsValue(a: seq<Limb>, b: seq<Limb>)
    requires |a| == |b|
    ensures var r := AddLimbs(a, b);
            Denote(r.low) + r.carry * Pow(BASE, |a|) == Denote(a) + Denote(b)
  {
    if |a| > 0 {
      var n := |a| - 1;
      var a', b' := a[..n], b[..n];
      var lower := AddLimbs(a', b');
      AddLimbsValue(a', b');
      var s := a[n] + b[n] + lower.carry;
      var digit, out := s % BASE, s / BASE;
      var p := Pow(BASE, n);
      assert AddLimbs(a, b) == Carried(lower.low + [digit], out);
      assert a == a' + [a[n]] && b == b' + [b[n]];
      DenoteAppend(a', a[n]);
      DenoteAppend(b', b[n]);
      DenoteAppend(lower.low, digit);
      assert Pow(BASE, |a|) == BASE * p;
      SumTopLimb(Denote(lower.low), lower.carry, digit, out, a[n], b[n], p);
    }
  }

  /** The arithmetic of one step of `AddLimbsValue`, kept apart from the sequences. */
  lemma SumTopLimb(low: int, c: int, digit: int, out: int, x: int, y: int, p: int)
    requires digit + BASE * out == x + y + c
    ensures (low + digit * p) + out * (BASE * p) == (low + c * p) + x * p + y * p
  {
    calc {
      (low + digit * p) + out * (BASE * p);
      low + (digit + BASE * out) * p;
      low + (x + y + c) * p;
      (low + c * p) + x * p + y * p;
    }
  }

  /**
   * The carry out of a ripple-carry sum is 1 exactly when the true sum does
   * not fit in the summed limbs; the low limbs are the sum less the carried BASE^n.
   */
  lemma AddLimbsCarry(a: seq<Limb>, b: seq<Limb>, r: Carried)
    requires |a| == |b| && r == AddLimbs(a, b)
    ensures r.carry == 1 <==> Denote(a) + Denote(b) >= Pow(BASE, |a|)
    ensures Denote(r.low) == Denote(a) + Denote(b) - r.carry * Pow(BASE, |a|)
  {
    AddLimbsValue(a, b);
    DenoteBound(r.low);
    CarryDecides(Denote(r.low), r.carry, Pow(BASE, |a|), Denote(a) + Denote(b));
  }

  lemma CarryDecides(low: nat, carry: nat, p: nat, sum: nat)
    requires low + carry * p == sum && low < p && carry <= 1
    ensures carry == 1 <==> sum >= p
  {
  }

  /**
   * A single word zero-extended to n limbs, the addend `mpn_sec_add_1` feeds
   * to its n-limb addition.
   */
  function Widen(w: Limb, n: nat): (r: seq<Limb>)
    requires n >= 1
    ensures |r| == n && Denote(r) == w
  {
    var r := [w] + seq(n - 1, _ => 0);
    DenoteZeroPadding([w], seq(n - 1, _ => 0));
    r
  }
}
