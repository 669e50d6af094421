/** The value a similarity estimator returns. The Go code divides two counts as
    float64 values, or panics; both outcomes are kept here. */
module Estimates {

  datatype Estimate =
    | Panic(message: string)
      /** float64(matches) / float64(total); with total == 0 this is 0/0, a NaN. */
    | Quotient(matches: nat, total: nat)
  {
    predicate IsNaN() { Quotient? && total == 0 }

    function Value(): (v: real)
      requires Quotient? && total > 0
      ensures matches <= total ==> 0.0 <= v <= 1.0
      ensures v == 1.0 <==> matches == total
    {
      var v := matches as real / total as real;
      assert v * total as real == matches as real;
      v
    }
  }
}
