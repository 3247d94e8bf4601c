/** Display helpers: the masking of a CPF (the Brazilian taxpayer number stored as `document`). */
module Helpers {

  import opened JsString

  /** The fixed text that replaces the middle of the document. */
  const MASK := ".***.***-"

  /**
   * `cpfMask`: the first three characters, the fixed mask, then everything from index 9 on.
   * Inputs shorter than 3 or 9 characters are handled as `slice` handles them.
   */
  function CpfMask(cpf: string): (masked: string)
    ensures masked == cpf[..Min(3, |cpf|)] + MASK + (if |cpf| <= 9 then "" else cpf[9..])
    ensures |cpf| == 11 ==>
      |masked| == 14 &&
      masked[..3] == cpf[..3] &&
      masked[3..12] == MASK &&
      masked[12..] == cpf[9..]
  {
    Slice(cpf, 0, 3) + MASK + SliceFrom(cpf, 9)
  }

  /** Characters 3 to 8 never reach the output: inputs that agree elsewhere mask identically. */
  lemma MiddleIsHidden(a: string, b: string)
    requires |a| == |b|
    requires forall i :: 0 <= i < |a| && !(3 <= i < 9) ==> a[i] == b[i]
    ensures CpfMask(a) == CpfMask(b)
  {
    assert a[..Min(3, |a|)] == b[..Min(3, |b|)];
    if |a| > 9 {
      assert a[9..] == b[9..];
    }
  }

  /** The example documents used by the test suite and the API documentation. */
  lemma MaskExamples()
    ensures CpfMask("12345678901") == "123.***.***-01"
    ensures CpfMask("12345678909") == "123.***.***-09"
  {
  }
}
