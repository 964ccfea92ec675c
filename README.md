# spark-note-core in Dafny

This project models the core of the Spark note proof of concept, a small Rust
SDK for private notes:

- A note holds a `u64` value and a secret of 8 to 1024 bytes.
- It is published through a commitment:
  SHA-256("SPARK_COMMITMENT_V1" || value as 8 big-endian bytes || secret length as 8 big-endian bytes || secret).
- Spending a note reveals its nullifier, BLAKE3(commitment || secret).
- A set of spent nullifiers prevents double spending.

The model covers these parts of the crate:

- input validation and the structured error type;
- the `Secret` wrapper and the fixed-size 32-byte `Nullifier`;
- constant-time byte comparison;
- note construction and commitment;
- nullifier derivation and the spent-set helpers;
- the `NoteManager`, which tracks notes by id through Unspent → nullifier generated → Spent;
- versioned export and import of a spent set;
- the three functions exported to native bindings.

Modelling choices:

- **Hash functions are parameters.** SHA-256 and BLAKE3 are passed in as
  `HashFn` values, which are total deterministic functions onto 32-byte
  strings. Collision resistance is never assumed globally. A lemma that needs
  it takes `NoCollision(h, a, b)` for the two inputs as a hypothesis.
- **Code that mutates state is modelled imperatively.** `NullifierSet` and
  `NoteManager` are classes whose methods update their fields.
- **The free functions over `&mut HashSet<Vec<u8>>` are methods.** They take
  the set and return the new one. Each is proved equal to a pure specification
  function (`SpendOutcome`, `MarkBatch`, `ImportSpec`), and the lemmas are
  stated about that function.
- **Hash-map iteration order is unspecified.** Operations whose output order
  depends on it (`export`, `list_note_ids`, `list_notes`, `export_nullifier_set`)
  are ghost functions. They state only what every iteration order shares:
  length, membership and absence of repeats.

Where the code and the crate's documentation disagree, the model follows the
code:

- **The batch mark is not atomic.** The documentation of
  `mark_multiple_as_spent` reads as all-or-nothing ("Ok if all nullifiers were
  successfully marked"). The code inserts entries one by one and returns on the
  first failure, so the entries before the failure stay spent (see Findings).
- **The `check_multiple_nullifiers` doc example is wrong.** The example at
  `spark-note-core/src/nullifier.rs:110-120` expects `[true, false]` for two
  3-byte entries. The code rejects every entry that is not 32 bytes long, so
  the answer is `[false, false]` (`Nullifiers.ShortEntriesNeverSpent`).

## Model

| member | source | states |
|---|---|---|
| Bytes.ToBeBytes64 | spark-note-core/src/note.rs:131-134 | `to_be_bytes` gives 8 bytes whose big-endian value is the number itself |
| Bytes.BigEndianRoundTrip | spark-note-core/src/note.rs:130-134 | reading back an n-byte big-endian encoding of x < 256^n gives x |
| Bytes.Pow256Of8 | spark-note-core/src/note.rs:131 | 256^8 is 2^64, so every `u64` fits the 8-byte encoding |
| Bytes.LengthAsU64 | spark-note-core/src/note.rs:134 | `usize as u64` keeps every length below 2^64 unchanged |
| Text.DecimalString | spark-note-core/src/validation.rs:34-41 | the decimal rendering used in messages consists of digits, has no leading zero and reads back as the number |
| Errors.ErrorCode | src/error.rs:100-109 | the three coded kinds yield "SECRET_", "VALUE_" or "NULLIFIER_" followed by the code's name |
| Errors.ErrorCodeOfMessageOnlyKinds | src/error.rs:104-106 | the message-only kinds map to fixed code strings, whatever the message |
| Errors.ErrorCodeIdentifiesKindAndCode | src/error.rs:100-109 | two errors have the same code string exactly when they have the same kind and code |
| Errors.DetailedMessage | src/error.rs:112-133 | the detailed message ends with the error's own message |
| Errors.DetailedMessageIdentifiesKindAndCode | src/error.rs:112-133 | two errors with the same detailed message have the same kind and code |
| Errors.DetailedMessageKeepsMessage | src/error.rs:112-133 | two errors have the same detailed message exactly when they are equal |
| Errors.InvalidSecretError | src/error.rs:136-141 | builds InvalidSecret with the given code and message, whose code string is SECRET_<code> |
| Errors.InvalidValueError | src/error.rs:144-149 | builds InvalidValue with the given code and message, whose code string is VALUE_<code> |
| Errors.NullifierErrorOf | src/error.rs:152-157 | builds NullifierError with the given code and message, whose code string is NULLIFIER_<code> |
| Errors.ErrorCodeExamples | src/error.rs:168-178 | the crate's own examples: SECRET_Empty, VALUE_Zero, NULLIFIER_AlreadySpent |
| Validation.ValidateSecret | spark-note-core/src/validation.rs:23-46 | Ok exactly for lengths 8..1024; each error code holds exactly on its length range (empty, under 8, over 1024) |
| Validation.ValidateValue | spark-note-core/src/validation.rs:56-68 | Ok exactly for non-zero values; zero fails with ValueErrorCode Zero |
| Validation.ValidateNullifier | spark-note-core/src/validation.rs:78-94 | Ok exactly for 32 bytes; Empty exactly on empty input, WrongLength exactly on other non-32 lengths |
| Validation.ValidationBoundaries | spark-note-core/src/validation.rs:101-149 | the boundary cases of the unit tests: 7-, 8-, 1024- and 1025-byte secrets, values 0, 1 and 2^64-1, nullifiers of 31 and 32 bytes |
| Secrets.Secret.AsBytes | spark-note-core/src/secret.rs:23-25 | returns exactly the stored bytes: `new` on them rebuilds the same secret |
| Secrets.AsBytesOfNew | spark-note-core/src/secret.rs:18-25 | a secret made by `new` returns exactly its bytes and their length |
| Secrets.Secret.Len | spark-note-core/src/secret.rs:28-30 | the length of the stored bytes |
| Secrets.Secret.IsEmpty | spark-note-core/src/secret.rs:33-35 | true exactly when the length is zero |
| Secrets.Secret.IntoInner | spark-note-core/src/secret.rs:41-43 | returns bytes from which `new` rebuilds the same secret |
| Secrets.Secret.Debug | spark-note-core/src/secret.rs:52-56 | the debug text is "Secret(***)" whatever the contents |
| Secrets.Secret.Serialize | spark-note-core/src/secret.rs:59-68 | serialization writes an empty byte string |
| Secrets.New | spark-note-core/src/secret.rs:18-20 | stores the bytes unchanged |
| Secrets.FromVec | spark-note-core/src/secret.rs:46-50 | the conversion from a vector stores the bytes unchanged |
| Secrets.Deserialize | spark-note-core/src/secret.rs:70-79 | deserialization yields an empty secret whatever is read |
| Secrets.OutputsHideContents | spark-note-core/src/secret.rs:52-68 | no two secrets can be told apart by their debug text or their serialization |
| Secrets.SerdeRoundTripLosesContents | spark-note-core/src/secret.rs:59-79 | a serde round trip gives the empty secret, which is the original only when that was empty |
| NullifierType.Nullifier.AsBytes | src/nullifier_type.rs:24-26 | always 32 bytes |
| NullifierType.Nullifier.ToVec | src/nullifier_type.rs:42-44 | the same bytes as `as_bytes` |
| NullifierType.Nullifier.Display | src/nullifier_type.rs:67-71 | 16 hex digits that decode to the first 8 bytes |
| NullifierType.Nullifier.Debug | src/nullifier_type.rs:61-65 | "Nullifier(" + the display text + ")" |
| NullifierType.New | src/nullifier_type.rs:19-21 | keeps the 32 bytes |
| NullifierType.FromSlice | src/nullifier_type.rs:33-39 | Ok exactly on 32 bytes, with those bytes kept; otherwise the error `validate_nullifier` gives |
| NullifierType.TryFromVec | src/nullifier_type.rs:53-59 | the same verdict and error as `from_slice`, with `to_vec` giving the input back |
| NullifierType.FromSliceOfAsBytes | src/nullifier_type.rs:24-39 | `from_slice(as_bytes(n))` is Ok(n) |
| NullifierType.EqualityCoversAllBytes | src/nullifier_type.rs:78-104 | two nullifiers are equal exactly when all 32 bytes match |
| NullifierType.DisplayIsPrefixOnly | src/nullifier_type.rs:67-71 | nullifiers that share their first 8 bytes display alike |
| NullifierType.DuplicateCollapsesInSet | src/nullifier_type.rs:91-104 | the test's three nullifiers, one repeated, form a set of two |
| Crypto.EqualityChoiceIffEqual | src/crypto.rs:19-24 | the AND of the per-byte equality choices is 1 exactly when the strings are equal |
| Crypto.ConstantTimeEq | src/crypto.rs:19-24 | false on different lengths; otherwise true exactly when the inputs are equal |
| Crypto.ConstantTimeEqArray | src/crypto.rs:34-36 | for same-length arrays, true exactly when they are equal |
| Notes.CommitmentPreimage | spark-note-core/src/note.rs:125-141 | the hashed input is tag, value, length, secret, and it is 35 bytes longer than the secret |
| Notes.PreimageParses | spark-note-core/src/note.rs:125-141 | parsing the preimage gives back the value and the secret |
| Notes.PreimageInjective | spark-note-core/src/note.rs:125-141 | two preimages are equal exactly when their values and secrets are equal |
| Notes.ComputeCommitment | spark-note-core/src/note.rs:125-141 | a commitment is 32 bytes |
| Notes.NewNote | spark-note-core/src/note.rs:34-45 | Ok exactly for non-zero value and 8..1024-byte secret; zero value fails first with Zero; otherwise the secret's validation error; the note holds value, secret and the commitment of its preimage |
| Notes.ZeroValueReportedFirst | spark-note-core/src/note.rs:35-36 | a zero value is reported even when the secret is invalid too |
| Notes.NoteCommitment | spark-note-core/src/note.rs:117-119 | the note's stored commitment |
| Notes.SecretBytes | spark-note-core/src/note.rs:50-52 | the bytes of the note's secret |
| Notes.ConstructedNote | spark-note-core/src/note.rs:148-194 | a constructed note has a 32-byte commitment, returns its secret and is determined by value and secret bytes |
| Notes.CommitmentBinding | spark-note-core/src/note.rs:223-245 | given no SHA-256 collision between the two preimages, two notes share a commitment exactly when value and secret are equal |
| Notes.Serialize | spark-note-core/src/note.rs:61-72 | writes value and commitment only |
| Notes.SerializeHidesSecret | spark-note-core/src/note.rs:61-72 | notes differing only in their secret serialize alike |
| Notes.Deserialize | spark-note-core/src/note.rs:74-102 | deserialization always fails, because the secret cannot be recovered |
| Nullifiers.GenerateNullifier | spark-note-core/src/nullifier.rs:20-29 | the nullifier's bytes are BLAKE3(commitment ‖ secret) |
| Nullifiers.GenerateNullifierVec | spark-note-core/src/nullifier.rs:32-34 | 32 bytes that `from_slice` turns back into the nullifier |
| Nullifiers.NullifierSecretSensitive | spark-note-core/src/nullifier.rs:268-279 | given no BLAKE3 collision between the two inputs, one note gives the same nullifier for two secrets exactly when they are equal |
| Nullifiers.NullifierSet.constructor | spark-note-core/src/nullifier.rs:44-48 | starts empty |
| Nullifiers.NullifierSet.Add | spark-note-core/src/nullifier.rs:51-53 | the set becomes old ∪ {n}; returns true exactly when n was absent, and the size grows by one exactly then |
| Nullifiers.NullifierSet.Contains | spark-note-core/src/nullifier.rs:56-58 | membership |
| Nullifiers.NullifierSet.ContainsSlice | spark-note-core/src/nullifier.rs:61-66 | true exactly for a 32-byte input whose nullifier is in the set |
| Nullifiers.NullifierSet.Len | spark-note-core/src/nullifier.rs:69-71 | the number of members |
| Nullifiers.NullifierSet.Export | spark-note-core/src/nullifier.rs:74-76 | one 32-byte vector per member, each once, and nothing else |
| Nullifiers.IsNullifierSpent | spark-note-core/src/nullifier.rs:89-98 | true exactly when the input is 32 bytes long and in the set |
| Nullifiers.CheckMultipleNullifiers | spark-note-core/src/nullifier.rs:121-129 | one answer per input in order, each as `is_nullifier_spent` |
| Nullifiers.ShortEntriesNeverSpent | spark-note-core/src/nullifier.rs:110-129 | present 3-byte entries are reported as not spent |
| Nullifiers.SpendOutcome | spark-note-core/src/nullifier.rs:181-196 | Ok exactly for a 32-byte unspent input, which is then added; a wrong length gives the validation error and an already spent one gives AlreadySpent, with the set unchanged |
| Nullifiers.MarkAsSpent | spark-note-core/src/nullifier.rs:181-196 | its result and new set are those of `SpendOutcome` with the single-spend message |
| Nullifiers.SpendOnce | spark-note-core/src/nullifier.rs:334-352 | marking a fresh nullifier succeeds, and marking it again fails with AlreadySpent |
| Nullifiers.MarkMultipleAsSpent | spark-note-core/src/nullifier.rs:152-170 | the loop's result and new set are those of `MarkBatch` |
| Nullifiers.MarkBatchOk | spark-note-core/src/nullifier.rs:152-170 | the batch succeeds exactly when every entry is 32 bytes, unspent and not repeated; the set then gains exactly the entries |
| Nullifiers.MarkBatchFailureKeepsPrefix | spark-note-core/src/nullifier.rs:152-170 | a failed batch stops at the first refused entry k: every earlier entry was accepted in turn and stays added, and k's error is reported |
| Nullifiers.BatchFailureLeavesEarlierInsertion | spark-note-core/src/nullifier.rs:158-167 | with [1;32] spent, the batch [[2;32], [1;32]] fails yet leaves [2;32] spent |
| Nullifiers.RepeatInBatchFails | spark-note-core/src/nullifier.rs:158-167 | a nullifier listed twice in one batch makes it fail with AlreadySpent |
| Nullifiers.MarkMultipleAsSpentAtomic | spark-note-core/src/nullifier.rs:152-170 | the same verdict as the batch; on failure the set is unchanged, on success it gains exactly the entries |
| Nullifiers.GetNullifierSetSize | spark-note-core/src/nullifier.rs:205-207 | the number of members |
| Nullifiers.StatsForCount | spark-note-core/src/nullifier.rs:225-235 | the count modulo 2^64, and 40 times that count modulo 2^64 as the memory estimate |
| Nullifiers.GetNullifierSetStats | spark-note-core/src/nullifier.rs:225-235 | without wrap-around: the size and 40 times the size |
| Manager.PublicNoteFrom | spark-note-core/src/manager.rs:29-36 | keeps value and commitment |
| Manager.PublicNoteHidesSecret | spark-note-core/src/manager.rs:22-36 | notes that differ only in the secret project alike |
| Manager.ToPublicEntry | spark-note-core/src/manager.rs:111-117 | the public note, the state and the nullifier of an entry |
| Manager.NoteManager.constructor | spark-note-core/src/manager.rs:71-76 | no notes and no spent nullifiers |
| Manager.NoteManager.AddNote | spark-note-core/src/manager.rs:87-101 | a known id is refused with nothing changed; a new id gets an Unspent entry without nullifier and the count grows by one |
| Manager.NoteManager.GetNote | spark-note-core/src/manager.rs:111-117 | Some exactly for a known id, with its public entry |
| Manager.NoteManager.ListNoteIds | spark-note-core/src/manager.rs:125-127 | every id once and nothing else |
| Manager.NoteManager.ListNotes | spark-note-core/src/manager.rs:130-138 | one pair per note, pairing each id with its public entry |
| Manager.NoteManager.RemoveNote | spark-note-core/src/manager.rs:147-153 | returns what `get_note` returned and drops the id; the spent set is untouched |
| Manager.NoteManager.GenerateNullifierForNote | spark-note-core/src/manager.rs:164-176 | an unknown id is refused with nothing changed; otherwise it stores and returns the 32-byte nullifier of the stored note and the given secret, keeping the state |
| Manager.NoteManager.MarkNoteAsSpent | spark-note-core/src/manager.rs:186-213 | errors in source order (unknown id, no nullifier, malformed, already spent) leave everything as it was; success adds the nullifier and makes the entry Spent |
| Manager.NoteManager.AddSpentNullifier | spark-note-core/src/manager.rs:223-235 | Ok exactly for a 32-byte unspent input, which is added; otherwise the validation or AlreadySpent error with the set unchanged |
| Manager.NoteManager.IsNullifierSpent | spark-note-core/src/manager.rs:244-246 | true exactly for a 32-byte input in the spent set |
| Manager.NoteManager.GetNullifierStats | spark-note-core/src/manager.rs:249-260 | without wrap-around: the spent count and 40 times it |
| Manager.NoteManager.NoteCount | spark-note-core/src/manager.rs:263-265 | the number of ids |
| Manager.NoteManager.SpentNullifierCount | spark-note-core/src/manager.rs:268-270 | the number of spent nullifiers |
| Manager.NoteManager.GetSpentNullifiers | spark-note-core/src/manager.rs:278-280 | one vector per spent nullifier, each once, and nothing else |
| Manager.SpendLifecycle | spark-note-core/src/manager.rs:353-367 | add, generate, mark succeeds; a second mark fails with AlreadySpent; after removal the nullifier is still spent |
| Hex.Encode | src/serialization.rs:34 | two lower-case hex digits per byte |
| Hex.Decode | src/serialization.rs:75-78 | Ok exactly when the length is even and every digit is hexadecimal; each byte is the value of its two digits; an odd length is reported first, otherwise the first non-digit and its position |
| Hex.DecodePairsValues | src/serialization.rs:75-78 | each decoded byte has its high nibble in the first digit of its pair and its low nibble in the second |
| Hex.DecodePairsFirstError | src/serialization.rs:75-78 | a failure reports the first character that is not a hexadecimal digit, with its position |
| Hex.DebugChar | src/serialization.rs:77 | `{:?}` of a character: the ASCII controls, quote and backslash are escaped, and printable ASCII is written as itself |
| Hex.UndebugDebugChar | src/serialization.rs:77 | the escaped form gives back the character's code point |
| Hex.DebugCharInjective | src/serialization.rs:77 | two characters are written the same way exactly when they are equal |
| Hex.HexNumeral | src/serialization.rs:77 | lower-case hexadecimal digits without a leading zero, denoting the number |
| Hex.DescribeError | src/serialization.rs:77 | the hex crate's text: "Odd number of digits", or "Invalid character" with the character escaped and quoted, then its position in decimal |
| Hex.DescribeNewline | src/serialization.rs:77 | a line feed at position 0 is reported as `'\n'` |
| Hex.DecodeEncode | src/serialization.rs:34-78 | decoding an encoding gives back the bytes |
| Hex.EncodeInjective | src/serialization.rs:34 | distinct byte strings encode differently |
| Serialization.ExportNullifierSet | src/serialization.rs:31-46 | version 1, one hex string per member, each once, each decoding to a member |
| Serialization.DecodeEntry | src/serialization.rs:75-80 | Ok exactly on hex of 32 bytes; a hex error becomes "Invalid hex encoding: …", a wrong length the validation error |
| Serialization.ImportEntriesOk | src/serialization.rs:74-84 | the entries are accepted exactly when each is well formed, and the set is then exactly the decoded entries |
| Serialization.ImportEntriesFirstError | src/serialization.rs:74-82 | a rejected import reports the error of the first malformed entry |
| Serialization.ImportSpec | src/serialization.rs:56-85 | a newer version is refused; otherwise Ok exactly when every entry is well formed, giving the set of decoded 32-byte entries |
| Serialization.ImportNullifierSet | src/serialization.rs:56-85 | the loop's result is that of `ImportSpec` |
| Serialization.ExportWellFormed | src/serialization.rs:31-85 | exporting 32-byte members gives only entries the import accepts |
| Serialization.ExportDecodesToMembers | src/serialization.rs:31-85 | some export entry decodes to a string exactly when it is a member |
| Serialization.RoundTrip | src/serialization.rs:92-105 | importing an export of 32-byte members gives back the same set |
| Serialization.MalformedMemberBreaksRoundTrip | src/serialization.rs:31-82 | an export holding a member of another length is refused on import |
| Ffi.UniffiCreateNote | spark-note-core/src/lib.rs:74-77 | the same verdict and error as `create_note`; on success the public note with the value and the commitment |
| Ffi.UniffiNoteCommitment | spark-note-core/src/lib.rs:81-83 | the note's commitment |
| Ffi.UniffiGenerateNullifier | spark-note-core/src/lib.rs:88-102 | `create_note` errors first; then a commitment mismatch error exactly when the secret's commitment differs; otherwise the 32-byte BLAKE3(commitment ‖ secret) |
| Ffi.CreateThenGenerate | spark-note-core/src/lib.rs:174-182 | with a valid value and secret, the exported round trip succeeds with a 32-byte commitment and the core's nullifier |
| Ffi.WrongSecretRejected | spark-note-core/src/lib.rs:94-99 | given no SHA-256 collision, another valid secret is refused with the mismatch error |

## Left out

- Hash functions: the SHA-256 and BLAKE3 functions themselves are not modelled. Collision resistance appears only as an explicit per-lemma hypothesis. So the crate's claims that follow from the hash functions are not proved: that a commitment is never all zero, and that a nullifier differs from its commitment.
- Memory hygiene and timing: zeroization of `Secret` on drop is not modelled, and neither is the timing behaviour of `constant_time_eq`. Only its result is modelled.
- The `subtle` crate is not part of this model. Its slice `ct_eq` is modelled as an AND of per-byte 0/1 choices. Each per-byte choice is taken by its result, without the bit tricks `subtle` uses to compute it.
- JSON text: `serde_json` parsing and printing are not modelled. Export yields the `NullifierSetExport` record and import starts from it. So the "Failed to serialize/deserialize" errors are not modelled.
- `Hex.Decode`: models the `hex` crate on characters. For non-ASCII input the crate reports byte positions and byte values, which this model does not reproduce.
- `Hex.DescribeError`: for characters outside ASCII, Rust's `Debug` escapes those that Unicode does not class as printable, and grapheme extenders. The model writes every non-ASCII character as itself.
- `Errors.ErrorCode`: the `Display` text that `thiserror` derives for `SparkError` is not modelled. Only `error_code` and `detailed_message` are.
- `Nullifiers.StatsForCount`: a debug build panics on overflow of `count * (32 + 8)`. The model follows the release build and wraps modulo 2^64.
- `Secrets.Deserialize`: the model takes the wire data as a byte string. So the error the source returns when the wire data is not a byte sequence (`?` at spark-note-core/src/secret.rs:76) is not modelled.
- `Manager.NoteManager.ListNotes`: the order of the returned list follows `HashMap` iteration, which is not modelled. The same holds for `ListNoteIds`, `NullifierSet.Export`, `GetSpentNullifiers` and `ExportNullifierSet`. Only length, membership and absence of repeats are stated.
- `Manager.NoteManager.GenerateNullifierForNote`: the secret is not checked against the note, as in the code. On a Spent entry the call replaces the stored nullifier while the state stays Spent. The model records this and does not constrain it further.
- Cloning a `NoteManager` (`derive(Clone)`) is not modelled. The model's manager holds its spent set by reference, so a clone would share it.
- Concurrency: the crate has none in its core, and none is modelled.
- `spark-note-core/src/wasm.rs` (the WebAssembly bindings), `src/rng.rs` (OS randomness) and the UniFFI scaffolding are not part of this model.

## Findings

| source | as written | input that shows it | evidently intended | confidence | as-written member | corrected member |
|---|---|---|---|---|---|---|
| spark-note-core/src/nullifier.rs:152-170 | `mark_multiple_as_spent` inserts each entry before checking the next, so a failing batch leaves its earlier entries marked spent | spent set {[1;32]}, batch [[2;32], [1;32]]: the result is Err(AlreadySpent), and [2;32] is now spent | all-or-nothing: a failing batch leaves the set unchanged | high that the code behaves so; medium that it is unintended; not executed | Nullifiers.BatchFailureLeavesEarlierInsertion | Nullifiers.MarkMultipleAsSpentAtomic |
