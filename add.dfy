/**
 * The addition operators of `UnsignedInteger`: `+=` and `+` with another
 * `UnsignedInteger` (variable-time, via `mpn_add_n`), `+=` and `+` with a
 * single 64-bit word (constant-time, via `mpn_sec_add_1`), and `Sum` as a left
 * fold. The model keeps the operators exactly as they are written: the carry
 * out of the summed limbs is counted in the limb count but never stored, and
 * only the low min(limb counts) limbs are summed.
 */
module BigUint {
  import opened Wrappers
  import opened Arith
  import opened Limbs
  import Mpn

  function Min(a: nat, b: nat): nat { if a <= b then a else b }

  function Max(a: nat, b: nat): nat { if a >= b then a else b }

  /**
   * The state of an `UnsignedInteger`: the whole limb buffer `value.d` (its
   * length is the allocated capacity), the significant limb count
   * `value.size` and the declared bit length `size_in_bits`.
   */
  datatype IntState = IntState(limbs: seq<Limb>, size: nat, bits: nat) {
    /** The limb count stays within the buffer. */
    predicate Valid() { size <= |limbs| }

    /** The number the significant limbs denote. */
    function Value(): nat
      requires Valid()
    {
      Denote(limbs[..size])
    }
  }

  /**
   * The effect of `self += &rhs` on `self`: with n = min of the limb counts,
   * nothing happens when n is 0; otherwise the low n limbs are replaced by
   * their ripple-carry sum, the limb count becomes max + carry and the bit
   * length max(bits) + carry. The buffer is never reallocated.
   */
  function AddAssignSpec(s: IntState, r: IntState): (t: IntState)
    requires s.Valid() && r.Valid()
    ensures |t.limbs| == |s.limbs|
  {
    var n := Min(s.size, r.size);
    if n == 0 then s
    else
      var sum := AddLimbs(s.limbs[..n], r.limbs[..n]);
      IntState(sum.low + s.limbs[n..], Max(s.size, r.size) + sum.carry, Max(s.bits, r.bits) + sum.carry)
  }

  /**
   * The effect of `self += w` for a 64-bit word w: the significant limbs are
   * replaced by the sum with w zero-extended, and limb count and bit length
   * both grow by the carry.
   */
  function AddWordSpec(s: IntState, w: Limb): (t: IntState)
    requires s.Valid() && s.size >= 1
    ensures |t.limbs| == |s.limbs|
  {
    var sum := AddLimbs(s.limbs[..s.size], Widen(w, s.size));
    IntState(sum.low + s.limbs[s.size..], s.size + sum.carry, s.bits + sum.carry)
  }

  /**
   * What `self += &rhs` does to each field. With no overlapping limbs the
   * state is unchanged. Otherwise there is one carry c in {0, 1}, limb count
   * and bit length both grow by exactly c over their maxima, the low n limbs
   * plus c·BASE^n are the sum of the two operands' low n limbs, c is 1
   * exactly when that sum does not fit in n limbs, and the limbs from n up
   * are left as they were.
   */
  lemma AddAssignCarry(s: IntState, r: IntState)
    requires s.Valid() && r.Valid()
    ensures var t, n := AddAssignSpec(s, r), Min(s.size, r.size);
            && (n == 0 ==> t == s)
            && t.limbs[n..] == s.limbs[n..]
            && (n > 0 ==>
                  var c := t.size - Max(s.size, r.size);
                  && 0 <= c <= 1
                  && t.bits == Max(s.bits, r.bits) + c
                  && Denote(t.limbs[..n]) + c * Pow(BASE, n) == Denote(s.limbs[..n]) + Denote(r.limbs[..n])
                  && (c == 1 <==> Denote(s.limbs[..n]) + Denote(r.limbs[..n]) >= Pow(BASE, n)))
  {
    var n := Min(s.size, r.size);
    if n > 0 {
      var sum := AddLimbs(s.limbs[..n], r.limbs[..n]);
      var t := AddAssignSpec(s, r);
      assert t.limbs[..n] == sum.low && t.limbs[n..] == s.limbs[n..];
      AddLimbsCarry(s.limbs[..n], r.limbs[..n], sum);
    }
  }

  /**
   * `self += &rhs` computes the arithmetic sum, keeping the limb count and the
   * bit length of `self`, when `rhs` has no more limbs than `self` and adding
   * it produces no carry out of its top limb (the case the unit test covers).
   */
  lemma AddAssignSumWithoutCarry(s: IntState, r: IntState)
    requires s.Valid() && r.Valid() && r.size <= s.size && s.bits >= r.bits
    requires Denote(s.limbs[..r.size]) + r.Value() < Pow(BASE, r.size)
    ensures var t := AddAssignSpec(s, r);
            && t.Valid() && t.size == s.size && t.bits == s.bits
            && t.Value() == s.Value() + r.Value()
  {
    var n := r.size;
    if n > 0 {
      var t := AddAssignSpec(s, r);
      var sum := AddLimbs(s.limbs[..n], r.limbs[..n]);
      assert r.limbs[..n] == r.limbs[..r.size];
      AddLimbsCarry(s.limbs[..n], r.limbs[..n], sum);
      var lo, mid := s.limbs[..n], s.limbs[n..s.size];
      var old_, new_ := s.limbs[..s.size], t.limbs[..s.size];
      assert new_ == sum.low + mid;
      assert new_[..n] == sum.low && new_[n..] == mid;
      assert old_[..n] == lo && old_[n..] == mid;
      DenoteSplit(new_, n);
      DenoteSplit(old_, n);
    } else {
      assert r.limbs[..0] == [];
    }
  }

  /**
   * A carry out of the top summed limb is counted but not stored: adding 1
   * to the one-limb value BASE - 1 clears limb 0 and raises the limb count to
   * 2, but limb 1 keeps whatever the buffer held (here 0), so the number
   * read back is 0 rather than BASE, while the bit length grows to 65.
   */
  lemma AddAssignDropsCarry()
    ensures var s, r := IntState([BASE - 1, 0], 1, 64), IntState([1], 1, 1);
            var t := AddAssignSpec(s, r);
            && s.Value() + r.Value() == BASE
            && t.Valid() && t.size == 2 && t.bits == 65 && t.Value() == 0
  {
    var s, r := IntState([BASE - 1, 0], 1, 64), IntState([1], 1, 1);
    var t := AddAssignSpec(s, r);
    assert s.limbs[..1] == [BASE - 1] && r.limbs[..1] == [1];
    assert AddLimbs([], []) == Carried([], 0);
    assert AddLimbs([BASE - 1], [1]) == Carried([0], 1);
    assert t.limbs == [0, 0];
    assert t.limbs[..2] == [0, 0];
    assert Denote([0, 0]) == 0 + BASE * Denote([0]);
    assert Denote([BASE - 1]) == BASE - 1 && Denote([1]) == 1;
    assert t == IntState([0, 0], 2, 65);
  }

  /**
   * After a carry the limb count covers the limb above the summed ones, and
   * that limb is whatever the buffer held there: a stale 5 above
   * 2^64 - 1 makes (2^64 - 1) + 1 read back as 5·2^64.
   */
  lemma AddAssignReadsStaleLimb()
    ensures var s, r := IntState([BASE - 1, 5], 1, 64), IntState([1], 1, 1);
            var t := AddAssignSpec(s, r);
            && s.Value() + r.Value() == BASE
            && t.Valid() && t.size == 2 && t.Value() == 5 * BASE
  {
    var s, r := IntState([BASE - 1, 5], 1, 64), IntState([1], 1, 1);
    var t := AddAssignSpec(s, r);
    assert s.limbs[..1] == [BASE - 1] && r.limbs[..1] == [1];
    assert AddLimbs([], []) == Carried([], 0);
    assert AddLimbs([BASE - 1], [1]) == Carried([0], 1);
    assert t.limbs == [0, 5];
    assert t.limbs[..2] == [0, 5];
    assert Denote([0, 5]) == 0 + BASE * Denote([5]);
    assert Denote([BASE - 1]) == BASE - 1 && Denote([1]) == 1;
  }

  /**
   * The limb count is never checked against the buffer: a carry out of a
   * full buffer leaves (2^64 - 1) + 1 with limb count 2 over a one-limb
   * buffer. `Foldable` therefore rules out folds such as the sum of
   * 2^64 - 1 (in one limb), 1 and 1, which the source carries on with.
   */
  lemma AddAssignOutgrowsBuffer()
    ensures var s, r := IntState([BASE - 1], 1, 64), IntState([1], 1, 1);
            var t := AddAssignSpec(s, r);
            && s.Valid() && r.Valid() && s.bits >= r.bits
            && t.size == 2 && |t.limbs| == 1 && !t.Valid()
            && !Foldable(s, [r, r])
  {
    var s, r := IntState([BASE - 1], 1, 64), IntState([1], 1, 1);
    assert s.limbs[..1] == [BASE - 1] && r.limbs[..1] == [1];
    assert AddLimbs([], []) == Carried([], 0);
    assert AddLimbs([BASE - 1], [1]) == Carried([0], 1);
    assert AddAssignSpec(s, r).size == 2;
  }

  /**
   * The limb count also outgrows the buffer without a carry, when `rhs` has
   * more limbs than `self`'s buffer holds: 1 in a one-limb buffer plus the
   * two-limb 2^64 + 1 has limb count 2 over one limb.
   */
  lemma AddAssignLongerRhsOutgrowsBuffer()
    ensures var s, r := IntState([1], 1, 64), IntState([1, 1], 2, 64);
            var t := AddAssignSpec(s, r);
            && s.Valid() && r.Valid() && s.bits >= r.bits
            && t.size == 2 && |t.limbs| == 1 && !t.Valid()
  {
    var s, r := IntState([1], 1, 64), IntState([1, 1], 2, 64);
    assert s.limbs[..1] == [1] && r.limbs[..1] == [1];
    assert AddLimbs([], []) == Carried([], 0);
    assert AddLimbs([1], [1]) == Carried([2], 0);
    assert AddAssignSpec(s, r).size == 2;
  }

  /**
   * The bit length grows only with a carry out of the top summed limb, so
   * it can fall below the bit length of the value: 2^62 + 2^62, both
   * declared as 63 bits, is 2^63 declared as 63 bits.
   */
  lemma AddAssignUnderstatesBits()
    ensures var s := IntState([0x4000_0000_0000_0000], 1, 63);
            var t := AddAssignSpec(s, s);
            && s.Value() < Pow(2, s.bits)
            && t.Valid() && t.bits == 63 && t.Value() == 0x8000_0000_0000_0000
            && Pow(2, t.bits) <= t.Value()
  {
    var s := IntState([0x4000_0000_0000_0000], 1, 63);
    var t := AddAssignSpec(s, s);
    assert s.limbs[..1] == s.limbs;
    assert AddLimbs([], []) == Carried([], 0);
    assert AddLimbs(s.limbs, s.limbs) == Carried([0x8000_0000_0000_0000], 0);
    assert t == IntState([0x8000_0000_0000_0000], 1, 63);
    assert t.limbs[..1] == t.limbs;
    PowTwo63();
  }

  /**
   * The same for a word: (2^63 - 1) + 1, declared as 63 bits, is 2^63
   * declared as 63 bits.
   */
  lemma AddWordUnderstatesBits()
    ensures var s := IntState([0x7FFF_FFFF_FFFF_FFFF], 1, 63);
            var t := AddWordSpec(s, 1);
            && s.Value() < Pow(2, s.bits)
            && t.Valid() && t.bits == 63 && t.Value() == 0x8000_0000_0000_0000
            && Pow(2, t.bits) <= t.Value()
  {
    var s := IntState([0x7FFF_FFFF_FFFF_FFFF], 1, 63);
    var t := AddWordSpec(s, 1);
    assert s.limbs[..1] == s.limbs;
    assert Widen(1, 1) == [1];
    assert AddLimbs([], []) == Carried([], 0);
    assert AddLimbs(s.limbs, [1]) == Carried([0x8000_0000_0000_0000], 0);
    assert t == IntState([0x8000_0000_0000_0000], 1, 63);
    assert t.limbs[..1] == t.limbs;
    PowTwo63();
  }

  lemma PowTwo63()
    ensures Pow(2, 63) == 0x8000_0000_0000_0000
  {
    assert Pow(2, 8) == 256 && Pow(2, 7) == 128;
    PowAdd(2, 8, 8);
    PowAdd(2, 8, 7);
    PowAdd(2, 16, 16);
    PowAdd(2, 16, 15);
    PowAdd(2, 32, 31);
  }

  /**
   * What `self += w` does: one carry c in {0, 1}; limb count and bit length
   * both grow by exactly c; the significant limbs plus c·BASE^size are the old
   * value plus w; c is 1 exactly when that sum does not fit; limbs above the
   * old limb count are left as they were.
   */
  lemma AddWordCarry(s: IntState, w: Limb)
    requires s.Valid() && s.size >= 1
    ensures var t, c := AddWordSpec(s, w), AddWordSpec(s, w).size - s.size;
            && 0 <= c <= 1
            && t.bits == s.bits + c
            && t.limbs[s.size..] == s.limbs[s.size..]
            && Denote(t.limbs[..s.size]) + c * Pow(BASE, s.size) == s.Value() + w
            && (c == 1 <==> s.Value() + w >= Pow(BASE, s.size))
  {
    var t := AddWordSpec(s, w);
    var sum := AddLimbs(s.limbs[..s.size], Widen(w, s.size));
    assert t.limbs[..s.size] == sum.low;
    AddLimbsCarry(s.limbs[..s.size], Widen(w, s.size), sum);
  }

  /** `self += w` is the arithmetic sum when it produces no carry. */
  lemma AddWordSumWithoutCarry(s: IntState, w: Limb)
    requires s.Valid() && s.size >= 1
    requires s.Value() + w < Pow(BASE, s.size)
    ensures var t := AddWordSpec(s, w);
            && t.Valid() && t.size == s.size && t.bits == s.bits
            && t.Value() == s.Value() + w
  {
    AddWordCarry(s, w);
  }

  /**
   * `Sum` folds `+` from the left; each step is a `+=` whose debug assertion
   * (the accumulator has at least as many bits as the next item) holds and
   * whose operands are valid.
   */
  predicate Foldable(acc: IntState, rest: seq<IntState>)
    decreases |rest|
  {
    |rest| == 0 ||
    (acc.Valid() && rest[0].Valid() && acc.bits >= rest[0].bits &&
     Foldable(AddAssignSpec(acc, rest[0]), rest[1..]))
  }

  function FoldAdd(acc: IntState, rest: seq<IntState>): IntState
    requires Foldable(acc, rest)
    decreases |rest|
  {
    if |rest| == 0 then acc else FoldAdd(AddAssignSpec(acc, rest[0]), rest[1..])
  }

  lemma FoldStep(acc: IntState, rest: seq<IntState>)
    requires Foldable(acc, rest) && |rest| > 0
    ensures acc.Valid() && rest[0].Valid() && acc.bits >= rest[0].bits
    ensures Foldable(AddAssignSpec(acc, rest[0]), rest[1..])
    ensures FoldAdd(acc, rest) == FoldAdd(AddAssignSpec(acc, rest[0]), rest[1..])
  {
  }

  /**
   * Each `+=` of the fold adds at most one bit, so the sum of k items declares
   * between the first item's bit length and that plus k - 1; the buffer of the
   * accumulator is never reallocated.
   */
  lemma {:induction false} FoldAddBits(acc: IntState, rest: seq<IntState>)
    requires Foldable(acc, rest)
    ensures acc.bits <= FoldAdd(acc, rest).bits <= acc.bits + |rest|
    ensures |FoldAdd(acc, rest).limbs| == |acc.limbs|
    decreases |rest|
  {
    if |rest| > 0 {
      var next := AddAssignSpec(acc, rest[0]);
      AddAssignCarry(acc, rest[0]);
      FoldAddBits(next, rest[1..]);
    }
  }

  /** An arbitrary-precision unsigned integer with a declared bit length. */
  class UnsignedInteger {
    /** `value.d`: the limb buffer; its length is the allocated capacity. */
    var limbs: array<Limb>
    /** `value.size`: the number of significant limbs. */
    var size: nat
    /** `size_in_bits`: the declared bit length. */
    var sizeInBits: nat

    function View(): IntState
      reads this, limbs
    {
      IntState(limbs[..], size, sizeInBits)
    }

    /** The limb count stays within the buffer, as `IntState.Valid` says. */
    predicate Valid()
      reads this, limbs
    {
      View().Valid()
    }

    function Value(): nat
      reads this, limbs
      requires Valid()
    {
      View().Value()
    }

    /** An integer with the given limb buffer, limb count and bit length. */
    constructor (digits: seq<Limb>, count: nat, bits: nat)
      ensures fresh(limbs) && View() == IntState(digits, count, bits)
    {
      limbs := new Limb[|digits|](i requires 0 <= i < |digits| => digits[i]);
      size, sizeInBits := count, bits;
    }

    /** `clone()`: a fresh integer with a fresh copy of the buffer. */
    method Clone() returns (c: UnsignedInteger)
      ensures fresh(c) && fresh(c.limbs) && c.View() == View()
    {
      c := new UnsignedInteger(limbs[..], size, sizeInBits);
    }

    /**
     * `self += &rhs`. The receiver and `rhs` never share storage (Rust's
     * exclusive borrow of `self`); the debug assertion on bit lengths is a
     * precondition.
     */
    method AddAssign(rhs: UnsignedInteger)
      requires Valid() && rhs.Valid()
      requires rhs != this && rhs.limbs != limbs
      requires sizeInBits >= rhs.sizeInBits
      modifies this, limbs
      ensures limbs == old(limbs)
      ensures View() == AddAssignSpec(old(View()), old(rhs.View()))
    {
      var n := Min(size, rhs.size);
      if n == 0 {
        return;
      }
      var carry := Mpn.AddN(limbs, rhs.limbs, n);
      assert limbs[..] == limbs[..n] + limbs[n..];
      var largestSize := Max(size, rhs.size);
      size := largestSize + carry;
      sizeInBits := Max(sizeInBits, rhs.sizeInBits) + carry;
    }

    /** `self + &rhs`: the receiver is moved, added to in place and returned. */
    method Add(rhs: UnsignedInteger) returns (r: UnsignedInteger)
      requires Valid() && rhs.Valid()
      requires rhs != this && rhs.limbs != limbs
      requires sizeInBits >= rhs.sizeInBits
      modifies this, limbs
      ensures r == this && limbs == old(limbs)
      ensures r.View() == AddAssignSpec(old(View()), old(rhs.View()))
    {
      AddAssign(rhs);
      r := this;
    }

    /**
     * `self += w` for a 64-bit word, through `mpn_sec_add_1` on the current
     * limb count (which that routine needs to be at least 1).
     */
    method AddAssignWord(w: Limb)
      requires Valid() && size >= 1
      modifies this, limbs
      ensures limbs == old(limbs)
      ensures View() == AddWordSpec(old(View()), w)
    {
      var carry := Mpn.SecAdd1(limbs, size, w);
      assert limbs[..] == limbs[..old(size)] + limbs[old(size)..];
      size := size + carry;
      sizeInBits := sizeInBits + carry;
    }

    /** `self + w`: the receiver is moved, added to in place and returned. */
    method AddWord(w: Limb) returns (r: UnsignedInteger)
      requires Valid() && size >= 1
      modifies this, limbs
      ensures r == this && limbs == old(limbs)
      ensures r.View() == AddWordSpec(old(View()), w)
    {
      AddAssignWord(w);
      r := this;
    }
  }

  /** The states of a sequence of integers, item by item. */
  function Views(xs: seq<UnsignedInteger>): (vs: seq<IntState>)
    reads xs, set x | x in xs :: x.limbs
    ensures |vs| == |xs| && forall j :: 0 <= j < |xs| ==> vs[j] == xs[j].View()
  {
    if |xs| == 0 then [] else [xs[0].View()] + Views(xs[1..])
  }

  /**
   * `Sum`: a clone of the first item, then `+` of each further item in turn.
   * An empty sequence fails at the `unwrap` and yields `None` here.
   */
  method Sum(items: seq<UnsignedInteger>) returns (r: Option<UnsignedInteger>)
    requires |items| > 0 ==> Foldable(items[0].View(), Views(items[1..]))
    ensures r.None? <==> |items| == 0
    ensures r.Some? ==> fresh(r.value) && fresh(r.value.limbs)
    ensures r.Some? ==> r.value.View() == FoldAdd(items[0].View(), Views(items[1..]))
  {
    if |items| == 0 {
      return None;
    }
    ghost var vs := Views(items);
    assert vs[1..] == Views(items[1..]);
    ghost var total := FoldAdd(vs[0], vs[1..]);
    var acc := items[0].Clone();
    var i := 1;
    while i < |items|
      invariant 1 <= i <= |items|
      invariant fresh(acc) && fresh(acc.limbs)
      invariant Foldable(acc.View(), vs[i..]) && FoldAdd(acc.View(), vs[i..]) == total
    {
      FoldStep(acc.View(), vs[i..]);
      assert vs[i..][1..] == vs[i + 1..];
      acc := acc.Add(items[i]);
      i := i + 1;
    }
    assert vs[i..] == [];
    return Some(acc);
  }

  /**
   * The first unit test: 5378239758327583290580573280735 declared with 103
   * bits plus 49127277414859531000011129 declared with 86 bits.
   */
  method TestAddition() returns (value: nat, bits: nat)
    ensures value == 5378288885604998150111573291864 && bits == 103
  {
    var x := new UnsignedInteger([6161342553173187039, 291554961506], 2, 103);
    var y := new UnsignedInteger([831476621684038009, 2663195], 2, 86);
    assert x.limbs[..][..2] == [6161342553173187039, 291554961506];
    assert y.limbs[..][..2] == [831476621684038009, 2663195];
    assert x.Value() == 5378239758327583290580573280735;
    assert y.Value() == 49127277414859531000011129;
    assert Pow(BASE, 2) == BASE * BASE;
    AddAssignSumWithoutCarry(x.View(), y.View());
    x.AddAssign(y);
    value, bits := x.Value(), x.sizeInBits;
  }

  /** The second unit test: the same 103-bit value plus the word 14. */
  method TestAdditionWord() returns (value: nat, bits: nat)
    ensures value == 5378239758327583290580573280749 && bits == 103
  {
    var x := new UnsignedInteger([6161342553173187039, 291554961506], 2, 103);
    assert x.limbs[..][..2] == [6161342553173187039, 291554961506];
    assert x.Value() == 5378239758327583290580573280735;
    assert Pow(BASE, 2) == BASE * BASE;
    AddWordSumWithoutCarry(x.View(), 14);
    x.AddAssignWord(14);
    value, bits := x.Value(), x.sizeInBits;
  }
}
