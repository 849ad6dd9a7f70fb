/** Python's round(x, 1): to one decimal, ties to the even digit. */
module Rounding {

  function HalfEven(x: real): (n: int)
    ensures x - 0.5 <= n as real <= x + 0.5
  {
    var below := x.Floor;
    var rest := x - below as real;
    if rest < 0.5 || (rest == 0.5 && below % 2 == 0) then below else below + 1
  }

  function Round1(x: real): (r: real)
    ensures x - 0.05 <= r <= x + 0.05
  {
    HalfEven(x * 10.0) as real / 10.0
  }

  lemma HalfEvenMonotone(x: real, y: real)
    requires x <= y
    ensures HalfEven(x) <= HalfEven(y)
  {
    if x.Floor != y.Floor {
      assert x.Floor + 1 <= y.Floor;
    }
  }

  /** Rounding keeps the order, so it keeps every bound that has one decimal itself. */
  lemma Round1Monotone(x: real, y: real)
    requires x <= y
    ensures Round1(x) <= Round1(y)
  {
    HalfEvenMonotone(x * 10.0, y * 10.0);
  }

  lemma Round1Whole(n: int)
    ensures Round1(n as real) == n as real
  {
    assert n as real * 10.0 == (n * 10) as real;
    assert ((n * 10) as real).Floor == n * 10;
  }

  /** The result is the nearest number with one decimal, and of two equally near ones the one with the even digit. */
  lemma NearestTenth(x: real, n: int)
    ensures Round1(x) == n as real / 10.0
            <==> n as real - 0.5 <= x * 10.0 <= n as real + 0.5
                 && (x * 10.0 == n as real - 0.5 || x * 10.0 == n as real + 0.5 ==> n % 2 == 0)
  {
    NearestWhole(x * 10.0, n);
  }

  lemma NearestWhole(x: real, n: int)
    ensures HalfEven(x) == n
            <==> n as real - 0.5 <= x <= n as real + 0.5
                 && (x == n as real - 0.5 || x == n as real + 0.5 ==> n % 2 == 0)
  {
    assert x.Floor as real <= x < x.Floor as real + 1.0;
  }
}
