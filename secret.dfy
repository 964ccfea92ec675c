/**
 * The secret wrapper: an immutable byte container whose `Debug` text and
 * serialized form deliberately say nothing about its contents.
 */
module Secrets {
  import opened Bytes

  datatype Secret = Secret(bytes: seq<byte>) {

    /** `Secret::as_bytes`: a view of exactly the stored bytes. */
    function AsBytes(): (r: seq<byte>)
      ensures New(r) == this
    {
      bytes
    }

    /** `Secret::len`. */
    function Len(): (n: nat)
      ensures n == |AsBytes()|
    {
      |bytes|
    }

    /** `Secret::is_empty`. */
    function IsEmpty(): (b: bool)
      ensures b <==> Len() == 0
    {
      bytes == []
    }

    /** `Secret::into_inner`: hands back the stored bytes. */
    function IntoInner(): (data: seq<byte>)
      ensures New(data) == this
    {
      bytes
    }

    /** The `Debug` text, whatever the contents. */
    function Debug(): (s: string)
      ensures s == "Secret(***)"
    {
      "Secret(***)"
    }

    /** `Serialize`: the contents are replaced by an empty byte string. */
    function Serialize(): (wire: seq<byte>)
      ensures wire == []
    {
      []
    }
  }

  /** `Secret::new`: the bytes are stored unchanged. */
  function New(data: seq<byte>): (s: Secret)
    ensures s.bytes == data
  {
    Secret(data)
  }

  /** Round trip: a new secret hands back exactly the bytes it was made from. */
  lemma AsBytesOfNew(data: seq<byte>)
    ensures New(data).AsBytes() == data && New(data).Len() == |data|
  {
  }

  /** `From<Vec<u8>> for Secret`, which delegates to `Secret::new`. */
  function FromVec(data: seq<byte>): (s: Secret)
    ensures s.AsBytes() == data && s.Len() == |data|
  {
    New(data)
  }

  /** `Deserialize`: whatever byte string is read, the result is an empty secret. */
  function Deserialize(wire: seq<byte>): (s: Secret)
    ensures s.IsEmpty()
  {
    New([])
  }

  /** Neither `Debug` nor serialization can tell two secrets apart. */
  lemma OutputsHideContents(a: Secret, b: Secret)
    ensures a.Debug() == b.Debug()
    ensures a.Serialize() == b.Serialize()
  {
  }

  /** A serde round trip keeps a secret only when there was nothing to keep. */
  lemma SerdeRoundTripLosesContents(s: Secret)
    ensures Deserialize(s.Serialize()) == New([])
    ensures Deserialize(s.Serialize()) == s <==> s.IsEmpty()
  {
  }
}
