/**
 * The power-of-two test that load_image_new applies to the texture
 * dimensions before it warns about them (gl_texture.c, power_of_2).
 */
module PowerOfTwo {

  /** 2^k. */
  function Pow2(k: nat): (p: int)
    ensures p >= 1
  {
    if k == 0 then 1 else 2 * Pow2(k - 1)
  }

  /** The reference definition: n is 2^k for some k. */
  ghost predicate IsPowerOfTwo(n: int)
  {
    exists k: nat :: Pow2(k) == n
  }

  lemma OneAndTwoArePowersOfTwo()
    ensures IsPowerOfTwo(1) && IsPowerOfTwo(2)
  {
    assert Pow2(0) == 1;
    assert Pow2(1) == 2;
  }

  /** Every power of two above 1 is even, so an odd value other than 1 is not one. */
  lemma {:induction false} OddIsNotPowerOfTwo(n: int)
    requires n % 2 != 0 && n != 1
    ensures !IsPowerOfTwo(n)
  {
    forall k: nat ensures Pow2(k) != n {
      if k != 0 {
        var half := Pow2(k - 1);
        assert Pow2(k) == 2 * half;
        assert (2 * half) % 2 == 0;
      }
    }
  }

  /** Halving an even, non-zero value keeps its power-of-two status. */
  lemma {:induction false} HalvingKeepsPowerOfTwo(n: int)
    requires n != 0 && n % 2 == 0
    ensures IsPowerOfTwo(n) <==> IsPowerOfTwo(n / 2)
  {
    if IsPowerOfTwo(n) {
      var k: nat :| Pow2(k) == n;
      assert k != 0;
      assert Pow2(k - 1) == n / 2;
    }
    if IsPowerOfTwo(n / 2) {
      var k: nat :| Pow2(k) == n / 2;
      assert Pow2(k + 1) == n;
    }
  }

  /** Sample values: 1024 is a power of two, 3 and 6 are not. */
  lemma PowersOfTwoExamples()
    ensures IsPowerOfTwo(1024) && !IsPowerOfTwo(3) && !IsPowerOfTwo(6)
  {
    assert Pow2(10) == 1024;
    OddIsNotPowerOfTwo(3);
    HalvingKeepsPowerOfTwo(6);
  }

  /**
   * power_of_2: halve i while it is even; true as soon as it is 1 or 2,
   * false as soon as it is odd. It returns exactly when i is a power of two.
   * With i == 0 the C loop never ends (0 is even and 0 / 2 == 0), so 0 is
   * excluded; a negative value halves towards an odd negative number and
   * yields false. Dafny's `%` and `/` agree with C's here: `i % 2 != 0` has
   * the same truth value under both, and `/ 2` is applied to even values only.
   */
  method PowerOf2(n: int) returns (r: bool)
    requires n != 0
    ensures r <==> IsPowerOfTwo(n)
  {
    var i := n;
    while true
      invariant i != 0
      invariant IsPowerOfTwo(i) <==> IsPowerOfTwo(n)
      decreases if i < 0 then -i else i
    {
      if i == 1 || i == 2 {
        OneAndTwoArePowersOfTwo();
        return true;
      }
      if i % 2 != 0 {
        OddIsNotPowerOfTwo(i);
        return false;
      }
      HalvingKeepsPowerOfTwo(i);
      i := i / 2;
    }
  }
}
