/** round(x, digits) over the reals: the nearest multiple of the unit, ties to the even one. */
module Rounding {
  function HalfEven(x: real): (n: int)
    ensures -0.5 <= n as real - x <= 0.5
    ensures (n as real - x == 0.5 || n as real - x == -0.5) ==> n % 2 == 0
  {
    var below := x.Floor;
    var rest := x - below as real;
    if rest < 0.5 || (rest == 0.5 && below % 2 == 0) then below else below + 1
  }

  const HALF_UNIT := 0.00005

  function Round4(x: real): (r: real)
    ensures -HALF_UNIT <= r - x <= HALF_UNIT
  {
    HalfEven(x * 10000.0) as real / 10000.0
  }

  const HALF_UNIT8 := 0.000000005

  function Round8(x: real): (r: real)
    ensures -HALF_UNIT8 <= r - x <= HALF_UNIT8
  {
    HalfEven(x * 100000000.0) as real / 100000000.0
  }

  /** The count of units next to a number, the even one when two are equally near. */
  ghost predicate Nearest(n: int, units: real) {
    && -0.5 <= n as real - units <= 0.5
    && (n as real - units == 0.5 || n as real - units == -0.5 ==> n % 2 == 0)
  }

  lemma NearestIsUnique(n: int, m: int, units: real)
    requires Nearest(n, units) && Nearest(m, units)
    ensures n == m
  {
  }

  /** The result is a whole number of units, the only one nearest to the argument with ties going to the even one. */
  lemma Round4IsNearest(x: real, n: int)
    ensures Round4(x) * 10000.0 == n as real <==> Nearest(n, x * 10000.0)
  {
    var m := HalfEven(x * 10000.0);
    assert Round4(x) * 10000.0 == m as real;
    assert Nearest(m, x * 10000.0);
    if Nearest(n, x * 10000.0) {
      NearestIsUnique(n, m, x * 10000.0);
    }
  }

  lemma Round8IsNearest(x: real, n: int)
    ensures Round8(x) * 100000000.0 == n as real <==> Nearest(n, x * 100000000.0)
  {
    var m := HalfEven(x * 100000000.0);
    assert Round8(x) * 100000000.0 == m as real;
    assert Nearest(m, x * 100000000.0);
    if Nearest(n, x * 100000000.0) {
      NearestIsUnique(n, m, x * 100000000.0);
    }
  }

  lemma WholeIsUnrounded(k: int)
    ensures Round4(k as real) == k as real
  {
    Round4IsNearest(k as real, k * 10000);
  }
}
