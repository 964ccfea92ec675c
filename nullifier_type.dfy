/**
 * The fixed-size nullifier: exactly 32 bytes, compared and hashed over all of
 * them, built from a slice only after the slice passed `validate_nullifier`.
 */
module NullifierType {
  import opened Bytes
  import opened Wrappers
  import opened Errors
  import Validation
  import Hex

  datatype Nullifier = Nullifier(bytes: Bytes32) {

    /** `Nullifier::as_bytes`. */
    function AsBytes(): (r: seq<byte>)
      ensures |r| == Validation.NULLIFIER_LENGTH
    {
      bytes
    }

    /** `Nullifier::to_vec`. */
    function ToVec(): (r: seq<byte>)
      ensures r == AsBytes()
    {
      bytes
    }

    /** `Display`: the first eight bytes only, in lower-case hex. */
    function Display(): (s: string)
      ensures |s| == 16
      ensures Hex.Decode(s) == Ok(bytes[..8])
    {
      Hex.DecodeEncode(bytes[..8]);
      Hex.Encode(bytes[..8])
    }

    /** `Debug`: the `Display` text inside `Nullifier(...)`. */
    function Debug(): (s: string)
      ensures |s| == 27 && s[..10] == "Nullifier(" && s[10..26] == Display() && s[26] == ')'
    {
      "Nullifier(" + Display() + ")"
    }
  }

  /** `Nullifier::new`. */
  function New(bytes: Bytes32): (n: Nullifier)
    ensures n.AsBytes() == bytes && n.ToVec() == bytes
  {
    Nullifier(bytes)
  }

  /** `Nullifier::from_slice`: succeeds on 32 bytes and keeps them; fails as `validate_nullifier` does otherwise. */
  function FromSlice(slice: seq<byte>): (r: SparkResult<Nullifier>)
    ensures r.Ok? <==> |slice| == Validation.NULLIFIER_LENGTH
    ensures r.Ok? ==> r.value.AsBytes() == slice
    ensures r.Err? ==> r.error == Validation.ValidateNullifier(slice).error
  {
    match Validation.ValidateNullifier(slice)
    case Err(e) => Err(e)
    case Ok(_) => Ok(Nullifier(slice))
  }

  /** `TryFrom<Vec<u8>> for Nullifier`, which delegates to `from_slice`. */
  function TryFromVec(v: seq<byte>): (r: SparkResult<Nullifier>)
    ensures r.Ok? <==> |v| == Validation.NULLIFIER_LENGTH
    ensures r.Ok? ==> r.value.ToVec() == v
    ensures r.Err? ==> r.error == Validation.ValidateNullifier(v).error
  {
    FromSlice(v)
  }

  /** Converting back and forth through bytes is the identity on nullifiers. */
  lemma FromSliceOfAsBytes(n: Nullifier)
    ensures FromSlice(n.AsBytes()) == Ok(n)
  {
  }

  /** Equality of nullifiers is equality of all 32 bytes, with no truncation. */
  lemma EqualityCoversAllBytes(a: Nullifier, b: Nullifier)
    ensures a == b <==> forall i :: 0 <= i < 32 ==> a.bytes[i] == b.bytes[i]
  {
    if forall i :: 0 <= i < 32 ==> a.bytes[i] == b.bytes[i] {
      assert a.bytes == b.bytes;
    }
  }

  /** Two nullifiers that share their first 8 bytes display alike; the display is not an identifier. */
  lemma DisplayIsPrefixOnly(a: Nullifier, b: Nullifier)
    requires a.bytes[..8] == b.bytes[..8]
    ensures a.Display() == b.Display()
  {
  }

  /** The crate's test: [1;32], [2;32], [1;32] make a set of two nullifiers. */
  lemma DuplicateCollapsesInSet()
    ensures |{New(seq(32, _ => 1)), New(seq(32, _ => 2)), New(seq(32, _ => 1))}| == 2
  {
    var n1, n2 := New(seq(32, _ => 1)), New(seq(32, _ => 2));
    assert n1.bytes[0] != n2.bytes[0];
    assert {n1, n2, n1} == {n1, n2};
  }
}
