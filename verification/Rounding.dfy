/** Rounding to a fixed number of decimal digits: to the nearest, ties to even. */
module Rounding {
  import opened Sums

  /** The nearest integer; of two equally near ones the even one. */
  function RoundEven(x: real): int {
    var f := x.Floor;
    var d := x - f as real;
    if d < 0.5 || (d == 0.5 && f % 2 == 0) then f else f + 1
  }

  function Round4(x: real): real {
    RoundEven(x * 10000.0) as real / 10000.0
  }

  function Round6(x: real): real {
    RoundEven(x * 1000000.0) as real / 1000000.0
  }

  /** No integer is nearer than the rounded one, and halfway it is even. */
  lemma RoundEvenIsNearest(x: real, k: int)
    ensures Abs(RoundEven(x) as real - x) <= 0.5
    ensures Abs(RoundEven(x) as real - x) <= Abs(k as real - x)
    ensures Abs(RoundEven(x) as real - x) == 0.5 ==> RoundEven(x) % 2 == 0
  {
    var f := x.Floor;
    if k <= f {
      assert k as real <= f as real;
    } else {
      assert k as real >= f as real + 1.0;
    }
  }

  lemma RoundEvenExact(k: int)
    ensures RoundEven(k as real) == k
  {
  }

  lemma RoundEvenMono(x: real, y: real)
    requires x <= y
    ensures RoundEven(x) <= RoundEven(y)
  {
  }

  /** `y` is a whole number of ten-thousandths, at most half of one away from `x`. */
  predicate IsRound4(x: real, y: real) {
    (y * 10000.0).Floor as real == y * 10000.0 && -0.00005 <= y - x <= 0.00005
  }

  /** `y` is a whole number of millionths, at most half of one away from `x`. */
  predicate IsRound6(x: real, y: real) {
    (y * 1000000.0).Floor as real == y * 1000000.0 && -0.0000005 <= y - x <= 0.0000005
  }

  lemma Round4Is(x: real)
    ensures IsRound4(x, Round4(x))
  {
    var r := RoundEven(x * 10000.0);
    RoundEvenIsNearest(x * 10000.0, 0);
    assert Round4(x) * 10000.0 == r as real;
    WholeFloor(r, Round4(x) * 10000.0);
  }

  lemma Round6Is(x: real)
    ensures IsRound6(x, Round6(x))
  {
    var r := RoundEven(x * 1000000.0);
    RoundEvenIsNearest(x * 1000000.0, 0);
    assert Round6(x) * 1000000.0 == r as real;
    WholeFloor(r, Round6(x) * 1000000.0);
  }

  lemma WholeFloor(k: int, y: real)
    requires y == k as real
    ensures y.Floor as real == y
  {
  }

  /** Rounding keeps the order. */
  lemma Round4Mono(x: real, y: real)
    requires x <= y
    ensures Round4(x) <= Round4(y)
  {
    RoundEvenMono(x * 10000.0, y * 10000.0);
  }

  lemma Round6Mono(x: real, y: real)
    requires x <= y
    ensures Round6(x) <= Round6(y)
  {
    RoundEvenMono(x * 1000000.0, y * 1000000.0);
  }
}
