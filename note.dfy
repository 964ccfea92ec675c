/**
 * Notes and their commitments. A note is built only from a non-zero value and
 * a secret of valid length (value checked first), and its commitment is
 * SHA-256 over the domain tag, the big-endian value, the big-endian secret
 * length and the secret. SHA-256 is a parameter; the layout of the hashed
 * bytes is the crate's own and is proved to determine (value, secret).
 */
module Notes {
  import opened Bytes
  import opened Wrappers
  import opened Errors
  import opened Secrets
  import Validation

  /** The domain separator `b"SPARK_COMMITMENT_V1"`. */
  const DOMAIN_SEPARATOR: seq<byte> := AsciiBytes("SPARK_COMMITMENT_V1")
  const TAG_LENGTH: nat := 19

  datatype SparkNote = SparkNote(value: u64, commitment: seq<byte>, secret: Secret)

  /** What the custom `Serialize` writes: the value and the commitment, never the secret. */
  datatype SerializedNote = SerializedNote(value: u64, commitment: seq<byte>)

  /** The bytes fed to SHA-256, in the order of the successive `update` calls. */
  function CommitmentPreimage(value: u64, secret: seq<byte>): (p: seq<byte>)
    ensures |p| == TAG_LENGTH + 16 + |secret|
  {
    DOMAIN_SEPARATOR + ToBeBytes64(value) + ToBeBytes64(LengthAsU64(|secret|)) + secret
  }

  /** Reads (value, secret) back out of a preimage, or `None` if it is not one. */
  function ParseCommitmentPreimage(p: seq<byte>): (r: Option<(u64, seq<byte>)>)
  {
    if |p| < TAG_LENGTH + 16 || p[..TAG_LENGTH] != DOMAIN_SEPARATOR then None
    else
      Pow256Of8();
      var value := FromBigEndian(p[TAG_LENGTH..TAG_LENGTH + 8]);
      var length := FromBigEndian(p[TAG_LENGTH + 8..TAG_LENGTH + 16]);
      var secret := p[TAG_LENGTH + 16..];
      if length != |secret| then None else Some((value, secret))
  }

  /** The fixed-width value and length fields make the preimage parseable back. */
  lemma PreimageParses(value: u64, secret: seq<byte>)
    requires |secret| < TWO_64
    ensures ParseCommitmentPreimage(CommitmentPreimage(value, secret)) == Some((value, secret))
  {
    var v, l := ToBeBytes64(value), ToBeBytes64(LengthAsU64(|secret|));
    var p := CommitmentPreimage(value, secret);
    assert p == DOMAIN_SEPARATOR + v + l + secret;
    assert p[..TAG_LENGTH] == DOMAIN_SEPARATOR;
    assert p[TAG_LENGTH..TAG_LENGTH + 8] == v;
    assert p[TAG_LENGTH + 8..TAG_LENGTH + 16] == l;
    assert p[TAG_LENGTH + 16..] == secret;
  }

  /**
   * Injectivity of the hashed encoding, with no assumption about the hash:
   * two (value, secret) pairs with the same preimage are the same pair.
   */
  lemma PreimageInjective(v1: u64, s1: seq<byte>, v2: u64, s2: seq<byte>)
    requires |s1| < TWO_64 && |s2| < TWO_64
    ensures CommitmentPreimage(v1, s1) == CommitmentPreimage(v2, s2) <==> v1 == v2 && s1 == s2
  {
    PreimageParses(v1, s1);
    PreimageParses(v2, s2);
  }

  /** `compute_commitment`. */
  function ComputeCommitment(sha256: HashFn, value: u64, secret: seq<byte>): (c: seq<byte>)
    ensures |c| == 32
  {
    sha256(CommitmentPreimage(value, secret))
  }

  /** `SparkNote::new` (and `create_note`, which delegates to it). */
  function NewNote(sha256: HashFn, value: u64, secret: Secret): (r: SparkResult<SparkNote>)
    ensures r.Ok? <==> value != 0 && Validation.MIN_SECRET_LENGTH <= secret.Len() <= Validation.MAX_SECRET_LENGTH
    ensures value == 0 ==> r.Err? && r.error.InvalidValue? && r.error.valueCode == ValueErrorCode.Zero
    ensures value != 0 && r.Err? ==> r.error == Validation.ValidateSecret(secret.AsBytes()).error
    ensures r.Ok? ==> r.value.value == value && r.value.secret == secret
    ensures r.Ok? ==> r.value.commitment == sha256(CommitmentPreimage(value, secret.AsBytes()))
  {
    match Validation.ValidateValue(value)
    case Err(e) => Err(e)
    case Ok(_) =>
      match Validation.ValidateSecret(secret.AsBytes())
      case Err(e) => Err(e)
      case Ok(_) =>
        Ok(SparkNote(value, ComputeCommitment(sha256, value, secret.AsBytes()), secret))
  }

  /** The ordering of the checks: a zero value is reported even when the secret is also invalid. */
  lemma ZeroValueReportedFirst(sha256: HashFn, secret: Secret)
    ensures NewNote(sha256, 0, secret) == Err(Validation.ValidateValue(0).error)
  {
  }

  /** `note_commitment`: a copy of the stored commitment, 32 bytes for every constructed note. */
  function NoteCommitment(note: SparkNote): (c: seq<byte>)
    ensures c == note.commitment
  {
    note.commitment
  }

  /** `SparkNote::secret_bytes`. */
  function SecretBytes(note: SparkNote): (s: seq<byte>)
    ensures s == note.secret.AsBytes()
  {
    note.secret.AsBytes()
  }

  /**
   * Every constructed note has a 32-byte commitment, gives back the secret it
   * was built from, and the commitment is a function of (value, secret) alone.
   */
  lemma ConstructedNote(sha256: HashFn, value: u64, secret: Secret, other: Secret)
    requires NewNote(sha256, value, secret).Ok?
    requires other.AsBytes() == secret.AsBytes()
    ensures |NoteCommitment(NewNote(sha256, value, secret).value)| == 32
    ensures SecretBytes(NewNote(sha256, value, secret).value) == secret.AsBytes()
    ensures NewNote(sha256, value, other) == NewNote(sha256, value, secret)
  {
  }

  /**
   * Binding and hiding, under an explicitly stated hypothesis: if SHA-256 has
   * no collision between the two preimages, two notes share a commitment
   * exactly when they were built from the same value and the same secret.
   */
  lemma CommitmentBinding(sha256: HashFn, v1: u64, s1: Secret, v2: u64, s2: Secret)
    requires NewNote(sha256, v1, s1).Ok? && NewNote(sha256, v2, s2).Ok?
    requires NoCollision(sha256, CommitmentPreimage(v1, s1.AsBytes()), CommitmentPreimage(v2, s2.AsBytes()))
    ensures (NewNote(sha256, v1, s1).value.commitment == NewNote(sha256, v2, s2).value.commitment)
        <==> (v1 == v2 && s1 == s2)
  {
    PreimageInjective(v1, s1.AsBytes(), v2, s2.AsBytes());
  }

  /** The custom `Serialize`: value and commitment only. */
  function Serialize(note: SparkNote): (w: SerializedNote)
    ensures w.value == note.value && w.commitment == note.commitment
  {
    SerializedNote(note.value, note.commitment)
  }

  /** Two notes that differ only in their secrets serialize alike. */
  lemma SerializeHidesSecret(a: SparkNote, b: SparkNote)
    requires a.value == b.value && a.commitment == b.commitment
    ensures Serialize(a) == Serialize(b)
  {
  }

  /** The custom `Deserialize`: every input is refused, with the visitor's message. */
  function Deserialize(w: SerializedNote): (r: Result<SparkNote, string>)
    ensures r.Err?
  {
    Err("SparkNote cannot be deserialized - secrets must not be loaded from untrusted sources")
  }
}
