/** The numeric branch of the output comparison
    (SubmitTool/Program.cs:566-578), over exact reals: the error is
    `Math.Min(|re - ex|, |re - ex| / ex)` and a token pair is rejected when
    it exceeds 1e-7. Dividing by the expected value itself, rather than by
    its magnitude, makes the error negative whenever the expected value is
    negative, so such a token accepts any number at all. `Close` divides by
    the magnitude; `NumericJudge` builds the comparison's numeric check from
    it. */
module Tolerance {
  import opened Wrappers
  import Verifier

  const Epsilon: real := 0.0000001

  function Abs(x: real): real {
    if x < 0.0 then -x else x
  }

  function Min(a: real, b: real): real {
    if a <= b then a else b
  }

  function Max(a: real, b: real): real {
    if a <= b then b else a
  }

  /** The error as the source computes it. For ex == 0 the quotient is
      +Infinity, or NaN when the difference is 0 as well; either way the
      pair is accepted exactly when the absolute difference is small, which
      is what taking the absolute difference gives. */
  function ErrorAsWritten(ex: real, re: real): real {
    var d := Abs(re - ex);
    if ex == 0.0 then d else Min(d, d / ex)
  }

  /** `!(error > 1e-7)`: the pair is accepted. */
  predicate CloseAsWritten(ex: real, re: real) {
    ErrorAsWritten(ex, re) <= Epsilon
  }

  /** As written, a negative expected value accepts every actual value. */
  lemma NegativeExpectedAcceptsAnything(ex: real, re: real)
    requires ex < 0.0
    ensures CloseAsWritten(ex, re)
  {
    var d := Abs(re - ex);
    assert d / ex <= 0.0 by {
      assert d >= 0.0;
      assert (d / ex) * ex == d;
    }
  }

  /** The concrete case: expected "-1.0", printed "1000.0" is accepted. */
  lemma NegativeExpectedCounterexample()
    ensures CloseAsWritten(-1.0, 1000.0)
    ensures Abs(1000.0 - -1.0) > Epsilon * Max(1.0, Abs(-1.0))
  {
    NegativeExpectedAcceptsAnything(-1.0, 1000.0);
  }

  /** The intended error: the smaller of the absolute and the relative error. */
  function Error(ex: real, re: real): real {
    var d := Abs(re - ex);
    if ex == 0.0 then d else Min(d, d / Abs(ex))
  }

  predicate Close(ex: real, re: real) {
    Error(ex, re) <= Epsilon
  }

  /** Close means within 1e-7 absolutely or relatively to the expected value,
      whatever its sign. */
  lemma CloseIff(ex: real, re: real)
    ensures Close(ex, re) <==> Abs(re - ex) <= Epsilon * Max(1.0, Abs(ex))
  {
    var d := Abs(re - ex);
    var m := Abs(ex);
    if ex != 0.0 {
      DivBound(d, m, Epsilon);
      if m < 1.0 {
        assert Epsilon * m <= Epsilon;
      }
    }
  }

  lemma DivBound(d: real, m: real, e: real)
    requires m > 0.0
    ensures d / m <= e <==> d <= e * m
  {
    var q := d / m;
    assert q * m == d;
    assert q <= e ==> q * m <= e * m;
    assert q > e ==> q * m > e * m;
  }

  /** Expected 1.0000000 accepts 1.00000009 (error 9e-8) and rejects 1.0002
      (error 2e-4); the source's formula agrees on both, the expected value
      being positive. */
  lemma ToleranceExamples()
    ensures Close(1.0, 1.00000009) && CloseAsWritten(1.0, 1.00000009)
    ensures !Close(1.0, 1.0002) && !CloseAsWritten(1.0, 1.0002)
  {
    CloseIff(1.0, 1.00000009);
    CloseIff(1.0, 1.0002);
  }

  /** Negating both numbers does not change the answer. */
  lemma CloseSignSymmetric(ex: real, re: real)
    ensures Close(-ex, -re) == Close(ex, re)
  {
    CloseIff(ex, re);
    CloseIff(-ex, -re);
    assert Abs(-re - -ex) == Abs(re - ex);
  }

  /** For expected values that are not negative the two agree: the change
      only concerns negative expected values. */
  lemma CloseAgreesOnNonNegative(ex: real, re: real)
    requires ex >= 0.0
    ensures Close(ex, re) == CloseAsWritten(ex, re)
  {
  }

  /** The numeric check of the comparison for a number parser standing for
      `double.TryParse`. */
  function NumericJudge(parse: string -> Option<real>): Verifier.NumericCheck {
    (ex: string, re: string) =>
      if parse(ex).Some? && parse(re).Some? then Some(Close(parse(ex).value, parse(re).value))
      else None
  }

  /** With the corrected check, a token never fails against itself, so the
      expected output is always accepted. */
  lemma NumericJudgeAcceptsExpected(parse: string -> Option<real>, expected: string)
    ensures Verifier.OutputMatches(expected, expected, NumericJudge(parse))
  {
    forall t ensures NumericJudge(parse)(t, t) != Some(false) {
      if parse(t).Some? {
        CloseIff(parse(t).value, parse(t).value);
      }
    }
    Verifier.ExpectedIsAccepted(expected, NumericJudge(parse));
  }
}
