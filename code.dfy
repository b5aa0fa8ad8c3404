/** utils/code.go: the 6-digit e-mail verification code. */
module VerificationCode {
  import opened Wrappers
  import opened Strings

  const CodeLength: nat := 6
  const Digits: string := "0123456789"

  predicate IsDigit(c: char) {
    '0' <= c <= '9'
  }

  /**
   * `GenerateVerificationCode`. `random` is what `crypto/rand.Read` delivered into
   * the 6-byte buffer: the bytes (it fills the whole buffer when it succeeds) or its
   * error, which is returned as it is. Each byte is replaced in place by the digit
   * `digits[b[i] % 10]`.
   */
  method GenerateVerificationCode(random: Result<seq<byte>, string>) returns (r: Result<string, string>)
    requires random.Ok? ==> |random.value| == CodeLength
    ensures random.Err? ==> r == Err(random.error)
    ensures random.Ok? ==> r.Ok? && |r.value| == CodeLength
    ensures random.Ok? ==> forall i :: 0 <= i < CodeLength ==> IsDigit(r.value[i])
    ensures random.Ok? ==>
      forall i :: 0 <= i < CodeLength ==> r.value[i] == Digits[random.value[i] as int % |Digits|]
  {
    if random.Err? {
      return Err(random.error);
    }
    // the buffer as rand.Read left it
    var b := new byte[CodeLength](j requires 0 <= j < CodeLength => random.value[j]);
    var i := 0;
    while i < CodeLength
      invariant 0 <= i <= CodeLength
      invariant forall j :: 0 <= j < i ==> b[j] as int == '0' as int + random.value[j] as int % 10
      invariant forall j :: i <= j < CodeLength ==> b[j] == random.value[j]
    {
      b[i] := Digits[b[i] as int % |Digits|] as byte;
      i := i + 1;
    }
    r := Ok(seq(CodeLength, j requires 0 <= j < CodeLength reads b => b[j] as char));
  }
}
