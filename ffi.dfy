/**
 * The functions exported to native bindings. They cross the boundary with
 * `PublicNote` (no secret), so generating a nullifier rebuilds the note from
 * the caller's secret and accepts it only when the rebuilt commitment equals
 * the one the caller presents.
 */
module Ffi {
  import opened Bytes
  import opened Wrappers
  import opened Errors
  import opened Secrets
  import opened Notes
  import opened Nullifiers
  import Crypto
  import Validation
  import opened Manager

  /** `uniffi_create_note`: `create_note`, then the public projection. */
  function UniffiCreateNote(sha256: HashFn, value: u64, secret: seq<byte>): (r: SparkResult<PublicNote>)
    ensures r.Ok? <==> NewNote(sha256, value, FromVec(secret)).Ok?
    ensures r.Err? ==> r.error == NewNote(sha256, value, FromVec(secret)).error
    ensures r.Ok? ==> r.value.value == value && r.value.commitment == ComputeCommitment(sha256, value, secret)
  {
    match NewNote(sha256, value, FromVec(secret))
    case Err(e) => Err(e)
    case Ok(note) => Ok(PublicNoteFrom(note))
  }

  /** `uniffi_note_commitment`. */
  function UniffiNoteCommitment(note: PublicNote): (c: seq<byte>)
    ensures c == note.commitment
  {
    note.commitment
  }

  const COMMITMENT_MISMATCH_MESSAGE: string := "Commitment mismatch - invalid secret"

  /**
   * `uniffi_generate_nullifier`: refuses what `create_note` refuses, refuses
   * a secret whose commitment differs from the note's, and otherwise returns
   * the 32-byte nullifier BLAKE3(commitment || secret).
   */
  function UniffiGenerateNullifier(sha256: HashFn, blake3: HashFn, note: PublicNote, secret: seq<byte>): (r: SparkResult<seq<byte>>)
    ensures NewNote(sha256, note.value, FromVec(secret)).Err? ==>
      r == Err(NewNote(sha256, note.value, FromVec(secret)).error)
    ensures NewNote(sha256, note.value, FromVec(secret)).Ok? ==>
      if note.commitment == ComputeCommitment(sha256, note.value, secret)
      then r == Ok(blake3(note.commitment + secret))
      else r == Err(OperationError(COMMITMENT_MISMATCH_MESSAGE))
    ensures r.Ok? ==> |r.value| == Validation.NULLIFIER_LENGTH
  {
    var s := FromVec(secret);
    match NewNote(sha256, note.value, s)
    case Err(e) => Err(e)
    case Ok(tempNote) =>
      if !Crypto.ConstantTimeEq(tempNote.commitment, note.commitment) then
        Err(OperationError(COMMITMENT_MISMATCH_MESSAGE))
      else
        Ok(GenerateNullifier(blake3, tempNote, s).ToVec())
  }

  /**
   * The exported workflow: a note created with a secret gives, with that same
   * secret, a 32-byte commitment and the nullifier the core would derive for
   * the full note.
   */
  lemma CreateThenGenerate(sha256: HashFn, blake3: HashFn, value: u64, secret: seq<byte>)
    requires value != 0 && Validation.MIN_SECRET_LENGTH <= |secret| <= Validation.MAX_SECRET_LENGTH
    ensures UniffiCreateNote(sha256, value, secret).Ok?
    ensures |UniffiNoteCommitment(UniffiCreateNote(sha256, value, secret).value)| == 32
    ensures UniffiGenerateNullifier(sha256, blake3, UniffiCreateNote(sha256, value, secret).value, secret)
      == Ok(GenerateNullifierVec(blake3, NewNote(sha256, value, FromVec(secret)).value, FromVec(secret)))
  {
  }

  /**
   * Under an explicitly stated hypothesis (SHA-256 has no collision between
   * the two preimages), a note created with one secret refuses any other
   * valid secret with the mismatch error.
   */
  lemma WrongSecretRejected(sha256: HashFn, blake3: HashFn, value: u64, secret: seq<byte>, other: seq<byte>)
    requires UniffiCreateNote(sha256, value, secret).Ok?
    requires Validation.MIN_SECRET_LENGTH <= |other| <= Validation.MAX_SECRET_LENGTH
    requires other != secret
    requires NoCollision(sha256, CommitmentPreimage(value, secret), CommitmentPreimage(value, other))
    ensures UniffiGenerateNullifier(sha256, blake3, UniffiCreateNote(sha256, value, secret).value, other)
      == Err(OperationError(COMMITMENT_MISMATCH_MESSAGE))
  {
    PreimageInjective(value, secret, value, other);
  }
}
