/**
 * The error taxonomy of the crate: a tagged `SparkError` whose first three
 * kinds carry a code from a per-kind enumeration, and the two string mappings
 * `error_code` and `detailed_message`. A code's name is its `Debug` text, that
 * is, the variant name.
 */
module Errors {
  import opened Wrappers

  datatype SecretErrorCode = Empty | TooShort | TooLong | InvalidFormat

  datatype ValueErrorCode = Zero | ExceedsMax | Invalid

  datatype NullifierErrorCode = AlreadySpent | InvalidFormat | Empty | WrongLength

  datatype SparkError =
    | InvalidSecret(message: string, secretCode: SecretErrorCode)
    | InvalidValue(message: string, valueCode: ValueErrorCode)
    | NullifierError(message: string, nullifierCode: NullifierErrorCode)
    | WasmInitializationError(message: string)
    | SerializationError(message: string)
    | OperationError(message: string)

  /** `SparkResult<T>`. */
  type SparkResult<T> = Result<T, SparkError>

  function SecretCodeName(c: SecretErrorCode): string
  {
    match c
    case Empty => "Empty"
    case TooShort => "TooShort"
    case TooLong => "TooLong"
    case InvalidFormat => "InvalidFormat"
  }

  function ValueCodeName(c: ValueErrorCode): string
  {
    match c
    case Zero => "Zero"
    case ExceedsMax => "ExceedsMax"
    case Invalid => "Invalid"
  }

  function NullifierCodeName(c: NullifierErrorCode): string
  {
    match c
    case AlreadySpent => "AlreadySpent"
    case InvalidFormat => "InvalidFormat"
    case Empty => "Empty"
    case WrongLength => "WrongLength"
  }

  /** The part of an error that `error_code` is meant to identify: its kind and, if any, its code. */
  predicate SameKindAndCode(a: SparkError, b: SparkError)
  {
    match a
    case InvalidSecret(_, c) => b.InvalidSecret? && b.secretCode == c
    case InvalidValue(_, c) => b.InvalidValue? && b.valueCode == c
    case NullifierError(_, c) => b.NullifierError? && b.nullifierCode == c
    case WasmInitializationError(_) => b.WasmInitializationError?
    case SerializationError(_) => b.SerializationError?
    case OperationError(_) => b.OperationError?
  }

  /** `SparkError::error_code`. */
  function ErrorCode(e: SparkError): (r: string)
    ensures e.InvalidSecret? ==> |r| > 7 && r[..7] == "SECRET_" && r[7..] == SecretCodeName(e.secretCode)
    ensures e.InvalidValue? ==> |r| > 6 && r[..6] == "VALUE_" && r[6..] == ValueCodeName(e.valueCode)
    ensures e.NullifierError? ==> |r| > 10 && r[..10] == "NULLIFIER_" && r[10..] == NullifierCodeName(e.nullifierCode)
  {
    match e
    case InvalidSecret(_, code) => "SECRET_" + SecretCodeName(code)
    case InvalidValue(_, code) => "VALUE_" + ValueCodeName(code)
    case NullifierError(_, code) => "NULLIFIER_" + NullifierCodeName(code)
    case WasmInitializationError(_) => "WASM_INIT_ERROR"
    case SerializationError(_) => "SERIALIZATION_ERROR"
    case OperationError(_) => "OPERATION_ERROR"
  }

  /** The code string of the three message-only kinds is fixed, whatever the message. */
  lemma ErrorCodeOfMessageOnlyKinds(m: string)
    ensures ErrorCode(WasmInitializationError(m)) == "WASM_INIT_ERROR"
    ensures ErrorCode(SerializationError(m)) == "SERIALIZATION_ERROR"
    ensures ErrorCode(OperationError(m)) == "OPERATION_ERROR"
  {
  }

  /**
   * `error_code` identifies exactly the kind and code: two errors get the same
   * string if and only if they agree on both, whatever their messages.
   */
  lemma ErrorCodeIdentifiesKindAndCode(a: SparkError, b: SparkError)
    ensures ErrorCode(a) == ErrorCode(b) <==> SameKindAndCode(a, b)
  {
    var ra, rb := ErrorCode(a), ErrorCode(b);
    if ra == rb {
      // The first characters that differ between the possible strings.
      match a
      case InvalidSecret(_, c) =>
        assert rb[0] == 'S' && rb[1] == 'E' && rb[2] == 'C';
        assert b.InvalidSecret?;
        assert SecretCodeName(c) == SecretCodeName(b.secretCode);
        assert SecretCodeName(c)[..4] == SecretCodeName(b.secretCode)[..4];
      case InvalidValue(_, c) =>
        assert rb[0] == 'V';
        assert ValueCodeName(c) == ValueCodeName(b.valueCode);
        assert ValueCodeName(c)[0] == ValueCodeName(b.valueCode)[0];
      case NullifierError(_, c) =>
        assert rb[0] == 'N';
        assert NullifierCodeName(c) == NullifierCodeName(b.nullifierCode);
        assert NullifierCodeName(c)[0] == NullifierCodeName(b.nullifierCode)[0];
      case WasmInitializationError(_) =>
        assert rb[0] == 'W';
      case SerializationError(_) =>
        assert rb[0] == 'S' && rb[1] == 'E' && rb[2] == 'R';
      case OperationError(_) =>
        assert rb[0] == 'O';
    }
  }

  /** `SparkError::detailed_message`. */
  function DetailedMessage(e: SparkError): (r: string)
    ensures |r| > |e.message|
    ensures r[|r| - |e.message|..] == e.message
  {
    match e
    case InvalidSecret(message, code) =>
      "Invalid secret (code: " + SecretCodeName(code) + "): " + message
    case InvalidValue(message, code) =>
      "Invalid value (code: " + ValueCodeName(code) + "): " + message
    case NullifierError(message, code) =>
      "Nullifier error (code: " + NullifierCodeName(code) + "): " + message
    case WasmInitializationError(message) =>
      "WASM initialization failed: " + message
    case SerializationError(message) =>
      "Serialization error: " + message
    case OperationError(message) =>
      "Operation failed: " + message
  }

  /** The characters of a detailed message that tell the kinds and codes apart. */
  lemma DetailedMessageMarkers(e: SparkError)
    ensures var d := DetailedMessage(e);
      && |d| > 0
      && (e.InvalidSecret? ==>
            |d| > 25 && d[0] == 'I' && d[8] == 's'
            && d[22] == SecretCodeName(e.secretCode)[0] && d[25] == SecretCodeName(e.secretCode)[3])
      && (e.InvalidValue? ==> |d| > 21 && d[0] == 'I' && d[8] == 'v' && d[21] == ValueCodeName(e.valueCode)[0])
      && (e.NullifierError? ==> |d| > 23 && d[0] == 'N' && d[23] == NullifierCodeName(e.nullifierCode)[0])
      && (e.WasmInitializationError? ==> d[0] == 'W')
      && (e.SerializationError? ==> d[0] == 'S')
      && (e.OperationError? ==> d[0] == 'O')
  {
    var d := DetailedMessage(e);
    match e
    case InvalidSecret(m, c) =>
      var h := "Invalid secret (code: ";
      assert d == h + SecretCodeName(c) + "): " + m;
      assert |h| == 22 && |SecretCodeName(c)| >= 5;
      assert d[22] == SecretCodeName(c)[0] && d[25] == SecretCodeName(c)[3];
    case InvalidValue(m, c) =>
      var h := "Invalid value (code: ";
      assert d == h + ValueCodeName(c) + "): " + m;
      assert |h| == 21 && |ValueCodeName(c)| >= 4;
      assert d[21] == ValueCodeName(c)[0];
    case NullifierError(m, c) =>
      var h := "Nullifier error (code: ";
      assert d == h + NullifierCodeName(c) + "): " + m;
      assert |h| == 23 && |NullifierCodeName(c)| >= 5;
      assert d[23] == NullifierCodeName(c)[0];
    case WasmInitializationError(_) =>
    case SerializationError(_) =>
    case OperationError(_) =>
  }

  /**
   * The detailed message names the kind and the code: two errors with the
   * same detailed message agree on both. The header texts first differ at
   * index 0 or 8, and the code names right after "(code: ", at index 22
   * (secret), 21 (value) or 23 (nullifier); TooShort and TooLong at 25.
   */
  lemma DetailedMessageIdentifiesKindAndCode(a: SparkError, b: SparkError)
    requires DetailedMessage(a) == DetailedMessage(b)
    ensures SameKindAndCode(a, b)
  {
    DetailedMessageMarkers(a);
    DetailedMessageMarkers(b);
    match a
    case InvalidSecret(_, c) =>
      assert b.InvalidSecret?;
      SecretCodeNamesDiffer(c, b.secretCode);
    case InvalidValue(_, c) =>
      assert b.InvalidValue?;
      ValueCodeNamesDiffer(c, b.valueCode);
    case NullifierError(_, c) =>
      assert b.NullifierError?;
      NullifierCodeNamesDiffer(c, b.nullifierCode);
    case WasmInitializationError(_) =>
    case SerializationError(_) =>
    case OperationError(_) =>
  }

  lemma SecretCodeNamesDiffer(c: SecretErrorCode, c': SecretErrorCode)
    requires SecretCodeName(c)[0] == SecretCodeName(c')[0] && SecretCodeName(c)[3] == SecretCodeName(c')[3]
    ensures c == c'
  {}

  lemma ValueCodeNamesDiffer(c: ValueErrorCode, c': ValueErrorCode)
    requires ValueCodeName(c)[0] == ValueCodeName(c')[0]
    ensures c == c'
  {}

  lemma NullifierCodeNamesDiffer(c: NullifierErrorCode, c': NullifierErrorCode)
    requires NullifierCodeName(c)[0] == NullifierCodeName(c')[0]
    ensures c == c'
  {}

  /**
   * The detailed message loses nothing: two errors have the same detailed
   * message exactly when they are equal.
   */
  lemma DetailedMessageKeepsMessage(a: SparkError, b: SparkError)
    ensures DetailedMessage(a) == DetailedMessage(b) <==> a == b
  {
    if DetailedMessage(a) == DetailedMessage(b) {
      DetailedMessageIdentifiesKindAndCode(a, b);
      var da, db := DetailedMessage(a), DetailedMessage(b);
      // Same kind and code give the same prefix, so the lengths of the messages agree.
      assert |da| - |a.message| == |db| - |b.message|;
      assert a.message == da[|da| - |a.message|..] == db[|db| - |b.message|..] == b.message;
    }
  }

  /** `SparkError::invalid_secret`. */
  function InvalidSecretError(code: SecretErrorCode, message: string): (e: SparkError)
    ensures e.InvalidSecret? && e.secretCode == code && e.message == message
    ensures ErrorCode(e) == "SECRET_" + SecretCodeName(code)
  {
    InvalidSecret(message, code)
  }

  /** `SparkError::invalid_value`. */
  function InvalidValueError(code: ValueErrorCode, message: string): (e: SparkError)
    ensures e.InvalidValue? && e.valueCode == code && e.message == message
    ensures ErrorCode(e) == "VALUE_" + ValueCodeName(code)
  {
    InvalidValue(message, code)
  }

  /** `SparkError::nullifier_error`. */
  function NullifierErrorOf(code: NullifierErrorCode, message: string): (e: SparkError)
    ensures e.NullifierError? && e.nullifierCode == code && e.message == message
    ensures ErrorCode(e) == "NULLIFIER_" + NullifierCodeName(code)
  {
    NullifierError(message, code)
  }

  /** The examples the crate's own unit tests check. */
  lemma ErrorCodeExamples()
    ensures ErrorCode(InvalidSecretError(SecretErrorCode.Empty, "Secret cannot be empty")) == "SECRET_Empty"
    ensures ErrorCode(InvalidValueError(ValueErrorCode.Zero, "Value cannot be zero")) == "VALUE_Zero"
    ensures ErrorCode(NullifierErrorOf(NullifierErrorCode.AlreadySpent, "Already spent")) == "NULLIFIER_AlreadySpent"
  {
  }
}
