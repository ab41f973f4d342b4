/**
 * The two GMP low-level routines the addition operators call, as loops over
 * limb arrays. Each is proved to compute the ripple-carry sum `AddLimbs`.
 */
module Mpn {
  import opened Limbs

  /**
   * One step of the ripple-carry sum: extending both operands by one limb
   * appends (a[i] + b[i] + carry) mod BASE to the low limbs and makes the
   * quotient the new carry.
   */
  lemma AddLimbsStep(a: seq<Limb>, b: seq<Limb>, i: nat, low: seq<Limb>, carry: nat)
    requires |a| == |b| && i < |a|
    requires AddLimbs(a[..i], b[..i]) == Carried(low, carry)
    ensures var s := a[i] + b[i] + carry;
            AddLimbs(a[..i + 1], b[..i + 1]) == Carried(low + [s % BASE], s / BASE)
  {
    assert a[..i + 1][..i] == a[..i] && b[..i + 1][..i] == b[..i];
  }

  /**
   * `mpn_add_n(rp, rp, sp, n)`: adds the low n limbs of `sp` into the low n
   * limbs of `rp` and returns the carry out of limb n-1. Limbs of `rp` at and
   * above n are not touched.
   */
  method AddN(rp: array<Limb>, sp: array<Limb>, n: nat) returns (carry: nat)
    requires n <= rp.Length && n <= sp.Length && rp != sp
    modifies rp
    ensures Carried(rp[..n], carry) == AddLimbs(old(rp[..n]), sp[..n])
    ensures rp[n..] == old(rp[n..])
  {
    ghost var a, b := rp[..n], sp[..n];
    carry := 0;
    var i := 0;
    while i < n
      invariant 0 <= i <= n && carry <= 1
      invariant forall j :: i <= j < rp.Length ==> rp[j] == old(rp[j])
      invariant AddLimbs(a[..i], b[..i]) == Carried(rp[..i], carry)
    {
      var s := rp[i] + sp[i] + carry;
      AddLimbsStep(a, b, i, rp[..i], carry);
      ghost var prefix := rp[..i];
      rp[i] := s % BASE;
      carry := s / BASE;
      i := i + 1;
      assert rp[..i] == prefix + [s % BASE];
    }
    assert a[..n] == a && b[..n] == b;
  }

  /**
   * `mpn_sec_add_1(rp, rp, n, w, scratch)`: adds the single word `w` to the
   * low n limbs of `rp` and returns the carry. GMP defines it as an n-limb
   * addition of `w` zero-extended to n limbs, which needs n >= 1; every limb
   * is visited whatever the carry, which is what makes it constant-time.
   */
  method SecAdd1(rp: array<Limb>, n: nat, w: Limb) returns (carry: nat)
    requires 1 <= n <= rp.Length
    modifies rp
    ensures Carried(rp[..n], carry) == AddLimbs(old(rp[..n]), Widen(w, n))
    ensures rp[n..] == old(rp[n..])
  {
    ghost var a, b := rp[..n], Widen(w, n);
    carry := 0;
    var i := 0;
    while i < n
      invariant 0 <= i <= n && carry <= 1
      invariant forall j :: i <= j < rp.Length ==> rp[j] == old(rp[j])
      invariant AddLimbs(a[..i], b[..i]) == Carried(rp[..i], carry)
    {
      var addend: Limb := if i == 0 then w else 0;
      assert b[i] == addend;
      var s := rp[i] + addend + carry;
      AddLimbsStep(a, b, i, rp[..i], carry);
      ghost var prefix := rp[..i];
      rp[i] := s % BASE;
      carry := s / BASE;
      i := i + 1;
      assert rp[..i] == prefix + [s % BASE];
    }
    assert a[..n] == a && b[..n] == b;
  }
}
