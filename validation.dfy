/**
 * Input validation: the length rules for secrets and nullifiers and the range
 * rule for note values. Each rule is checked in order and reports its own code.
 */
module Validation {
  import opened Bytes
  import opened Wrappers
  import opened Errors
  import Text

  const MIN_SECRET_LENGTH: nat := 8
  const MAX_SECRET_LENGTH: nat := 1024
  /** The size of a BLAKE3 digest. */
  const NULLIFIER_LENGTH: nat := 32

  /** The secret code a validation result carries, if it is an `InvalidSecret` error. */
  predicate FailsWithSecretCode(r: SparkResult<()>, code: SecretErrorCode)
  {
    r.Err? && r.error.InvalidSecret? && r.error.secretCode == code
  }

  predicate FailsWithNullifierCode(r: SparkResult<()>, code: NullifierErrorCode)
  {
    r.Err? && r.error.NullifierError? && r.error.nullifierCode == code
  }

  /** `validate_secret`. */
  function ValidateSecret(secret: seq<byte>): (r: SparkResult<()>)
    ensures r.Ok? <==> MIN_SECRET_LENGTH <= |secret| <= MAX_SECRET_LENGTH
    ensures r.Err? ==> r.error.InvalidSecret?
    ensures FailsWithSecretCode(r, SecretErrorCode.Empty) <==> |secret| == 0
    ensures FailsWithSecretCode(r, SecretErrorCode.TooShort) <==> 0 < |secret| < MIN_SECRET_LENGTH
    ensures FailsWithSecretCode(r, SecretErrorCode.TooLong) <==> |secret| > MAX_SECRET_LENGTH
  {
    if |secret| == 0 then
      Err(InvalidSecretError(SecretErrorCode.Empty, "Secret cannot be empty"))
    else if |secret| < MIN_SECRET_LENGTH then
      Err(InvalidSecretError(SecretErrorCode.TooShort,
        "Secret must be at least " + Text.DecimalString(MIN_SECRET_LENGTH)
        + " bytes, got " + Text.DecimalString(|secret|)))
    else if |secret| > MAX_SECRET_LENGTH then
      Err(InvalidSecretError(SecretErrorCode.TooLong,
        "Secret must be at most " + Text.DecimalString(MAX_SECRET_LENGTH)
        + " bytes, got " + Text.DecimalString(|secret|)))
    else
      Ok(())
  }

  /** `validate_value`: every `u64` but zero is a valid value. */
  function ValidateValue(value: u64): (r: SparkResult<()>)
    ensures r.Ok? <==> value != 0
    ensures r.Err? ==> r.error.InvalidValue? && r.error.valueCode == ValueErrorCode.Zero
  {
    if value == 0 then
      Err(InvalidValueError(ValueErrorCode.Zero, "Value must be greater than zero"))
    else
      Ok(())
  }

  /** `validate_nullifier`. */
  function ValidateNullifier(nullifier: seq<byte>): (r: SparkResult<()>)
    ensures r.Ok? <==> |nullifier| == NULLIFIER_LENGTH
    ensures r.Err? ==> r.error.NullifierError?
    ensures FailsWithNullifierCode(r, NullifierErrorCode.Empty) <==> |nullifier| == 0
    ensures FailsWithNullifierCode(r, NullifierErrorCode.WrongLength) <==> 0 < |nullifier| != NULLIFIER_LENGTH
  {
    if |nullifier| == 0 then
      Err(NullifierErrorOf(NullifierErrorCode.Empty, "Nullifier cannot be empty"))
    else if |nullifier| != NULLIFIER_LENGTH then
      Err(NullifierErrorOf(NullifierErrorCode.WrongLength,
        "Nullifier must be exactly " + Text.DecimalString(NULLIFIER_LENGTH)
        + " bytes, got " + Text.DecimalString(|nullifier|)))
    else
      Ok(())
  }

  /** The boundary cases of the crate's unit tests. */
  lemma ValidationBoundaries()
    ensures FailsWithSecretCode(ValidateSecret(seq(MIN_SECRET_LENGTH - 1, _ => 1)), SecretErrorCode.TooShort)
    ensures ValidateSecret(seq(MIN_SECRET_LENGTH, _ => 1)).Ok?
    ensures ValidateSecret(seq(MAX_SECRET_LENGTH, _ => 1)).Ok?
    ensures FailsWithSecretCode(ValidateSecret(seq(MAX_SECRET_LENGTH + 1, _ => 1)), SecretErrorCode.TooLong)
    ensures ValidateValue(1).Ok? && ValidateValue(TWO_64 - 1).Ok? && ValidateValue(0).Err?
    ensures FailsWithNullifierCode(ValidateNullifier(seq(NULLIFIER_LENGTH - 1, _ => 1)), NullifierErrorCode.WrongLength)
    ensures ValidateNullifier(seq(NULLIFIER_LENGTH, _ => 1)).Ok?
  {
  }
}
