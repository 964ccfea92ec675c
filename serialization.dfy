/**
 * Versioned export and import of a spent-nullifier set. The set is written
 * as a record holding the format version and one lowercase hex string per
 * nullifier; import checks the version, then decodes and validates every
 * entry, and yields either the whole set or the first entry's error.
 */
module Serialization {
  import opened Bytes
  import opened Wrappers
  import opened Errors
  import opened Collections
  import Hex
  import Text
  import Validation
  import opened Nullifiers

  const CURRENT_VERSION: u32 := 1

  /** `NullifierSetExport`, the record behind the JSON text. */
  datatype NullifierSetExport = NullifierSetExport(version: u32, nullifiers: seq<string>)

  /**
   * `export_nullifier_set`: the current version and the hex form of every
   * member, each member once, in the set's iteration order.
   */
  ghost function ExportNullifierSet(spent: ByteSet): (e: NullifierSetExport)
    ensures e.version == CURRENT_VERSION
    ensures |e.nullifiers| == |spent| && Distinct(e.nullifiers)
    ensures forall n {:trigger Hex.Encode(n)} :: n in spent <==> Hex.Encode(n) in e.nullifiers
    ensures forall i :: 0 <= i < |e.nullifiers| ==> Hex.Decode(e.nullifiers[i]).Ok? && Hex.Decode(e.nullifiers[i]).value in spent
  {
    var xs := Enumerate(spent);
    var hs := seq(|xs|, i requires 0 <= i < |xs| => Hex.Encode(xs[i]));
    assert Distinct(hs) by {
      forall i, j | 0 <= i < j < |hs|
        ensures hs[i] != hs[j]
      {
        Hex.EncodeInjective(xs[i], xs[j]);
      }
    }
    assert forall n {:trigger Hex.Encode(n)} :: n in spent <==> Hex.Encode(n) in hs by {
      forall n
        ensures n in spent <==> Hex.Encode(n) in hs
      {
        if n in spent {
          var i :| 0 <= i < |xs| && xs[i] == n;
          assert hs[i] == Hex.Encode(n);
        }
        if Hex.Encode(n) in hs {
          var i :| 0 <= i < |hs| && hs[i] == Hex.Encode(n);
          Hex.EncodeInjective(xs[i], n);
        }
      }
    }
    assert forall i :: 0 <= i < |hs| ==> Hex.Decode(hs[i]).Ok? && Hex.Decode(hs[i]).value in spent by {
      forall i | 0 <= i < |hs|
        ensures Hex.Decode(hs[i]).Ok? && Hex.Decode(hs[i]).value in spent
      {
        Hex.DecodeEncode(xs[i]);
      }
    }
    NullifierSetExport(CURRENT_VERSION, hs)
  }

  /** An entry import accepts: hex that decodes to exactly 32 bytes. */
  predicate WellFormedEntry(h: string)
  {
    Hex.Decode(h).Ok? && |Hex.Decode(h).value| == Validation.NULLIFIER_LENGTH
  }

  /** One step of the import loop: hex decoding, then `validate_nullifier`. */
  function DecodeEntry(h: string): (r: SparkResult<seq<byte>>)
    ensures r.Ok? <==> WellFormedEntry(h)
    ensures r.Ok? ==> Hex.Decode(h) == Ok(r.value)
    ensures Hex.Decode(h).Err? ==>
      r == Err(SerializationError("Invalid hex encoding: " + Hex.DescribeError(Hex.Decode(h).error)))
    ensures Hex.Decode(h).Ok? && !WellFormedEntry(h) ==>
      r == Err(Validation.ValidateNullifier(Hex.Decode(h).value).error)
  {
    match Hex.Decode(h)
    case Err(e) => Err(SerializationError("Invalid hex encoding: " + Hex.DescribeError(e)))
    case Ok(n) =>
      var v := Validation.ValidateNullifier(n);
      if v.Err? then Err(v.error) else Ok(n)
  }

  /** The entries from `hs` added to `acc`, stopping at the first bad one. */
  function ImportEntries(hs: seq<string>, acc: ByteSet): (r: SparkResult<ByteSet>)
    decreases |hs|
  {
    if hs == [] then Ok(acc)
    else
      var d := DecodeEntry(hs[0]);
      if d.Err? then Err(d.error) else ImportEntries(hs[1..], acc + {d.value})
  }

  /** The entries are accepted exactly when each is well formed; the result then holds `acc` and every decoded entry. */
  lemma {:induction false} ImportEntriesOk(hs: seq<string>, acc: ByteSet)
    ensures ImportEntries(hs, acc).Ok? <==> forall i :: 0 <= i < |hs| ==> WellFormedEntry(hs[i])
    ensures ImportEntries(hs, acc).Ok? ==>
      forall n :: n in ImportEntries(hs, acc).value <==>
        n in acc || exists i :: 0 <= i < |hs| && Hex.Decode(hs[i]) == Ok(n)
    decreases |hs|
  {
    if hs != [] {
      var d := DecodeEntry(hs[0]);
      if d.Ok? {
        ImportEntriesOk(hs[1..], acc + {d.value});
        if ImportEntries(hs, acc).Ok? {
          forall n
            ensures n in ImportEntries(hs, acc).value <==>
              n in acc || exists i :: 0 <= i < |hs| && Hex.Decode(hs[i]) == Ok(n)
          {
            if exists i :: 0 <= i < |hs| && Hex.Decode(hs[i]) == Ok(n) {
              var i :| 0 <= i < |hs| && Hex.Decode(hs[i]) == Ok(n);
              if i > 0 {
                assert hs[1..][i - 1] == hs[i];
              }
            }
            if exists i :: 0 <= i < |hs| - 1 && Hex.Decode(hs[1..][i]) == Ok(n) {
              var i :| 0 <= i < |hs| - 1 && Hex.Decode(hs[1..][i]) == Ok(n);
              assert hs[i + 1] == hs[1..][i];
            }
          }
        }
        if !(forall i :: 0 <= i < |hs| ==> WellFormedEntry(hs[i])) {
          var i :| 0 <= i < |hs| && !WellFormedEntry(hs[i]);
          assert hs[1..][i - 1] == hs[i];
        }
      }
    }
  }

  /** A rejected import reports the error of the first entry that is not well formed. */
  lemma {:induction false} ImportEntriesFirstError(hs: seq<string>, acc: ByteSet) returns (k: nat)
    requires ImportEntries(hs, acc).Err?
    ensures k < |hs| && !WellFormedEntry(hs[k])
    ensures forall j :: 0 <= j < k ==> WellFormedEntry(hs[j])
    ensures ImportEntries(hs, acc) == Err(DecodeEntry(hs[k]).error)
    decreases |hs|
  {
    var d := DecodeEntry(hs[0]);
    if d.Err? {
      k := 0;
    } else {
      var k' := ImportEntriesFirstError(hs[1..], acc + {d.value});
      k := k' + 1;
      assert hs[k] == hs[1..][k'];
      forall j | 0 <= j < k
        ensures WellFormedEntry(hs[j])
      {
        if j > 0 {
          assert hs[j] == hs[1..][j - 1];
        }
      }
    }
  }

  function UnsupportedVersionMessage(version: u32): string
  {
    "Unsupported version: " + Text.DecimalString(version) + " (current: " + Text.DecimalString(CURRENT_VERSION) + ")"
  }

  /**
   * What `import_nullifier_set` yields for a record: a version newer than the
   * current one is refused, older ones are read like the current one, and the
   * set is exactly the decoded entries when every entry is well formed.
   */
  function ImportSpec(e: NullifierSetExport): (r: SparkResult<ByteSet>)
    ensures e.version > CURRENT_VERSION ==> r == Err(SerializationError(UnsupportedVersionMessage(e.version)))
    ensures r.Ok? <==>
      e.version <= CURRENT_VERSION && forall i :: 0 <= i < |e.nullifiers| ==> WellFormedEntry(e.nullifiers[i])
    ensures r.Ok? ==> forall n :: n in r.value <==> exists i :: 0 <= i < |e.nullifiers| && Hex.Decode(e.nullifiers[i]) == Ok(n)
    ensures r.Ok? ==> forall n :: n in r.value ==> |n| == Validation.NULLIFIER_LENGTH
  {
    if e.version > CURRENT_VERSION then Err(SerializationError(UnsupportedVersionMessage(e.version)))
    else
      ImportEntriesOk(e.nullifiers, {});
      ImportEntries(e.nullifiers, {})
  }

  /** `import_nullifier_set` on an already parsed record: the loop over the entries. */
  method ImportNullifierSet(e: NullifierSetExport) returns (r: SparkResult<ByteSet>)
    ensures r == ImportSpec(e)
  {
    if e.version > CURRENT_VERSION {
      return Err(SerializationError(UnsupportedVersionMessage(e.version)));
    }
    var spentSet: ByteSet := {};
    var i := 0;
    while i < |e.nullifiers|
      invariant 0 <= i <= |e.nullifiers|
      invariant ImportEntries(e.nullifiers[i..], spentSet) == ImportEntries(e.nullifiers, {})
    {
      assert e.nullifiers[i..][1..] == e.nullifiers[i + 1..];
      var decoded := Hex.Decode(e.nullifiers[i]);
      if decoded.Err? {
        return Err(SerializationError("Invalid hex encoding: " + Hex.DescribeError(decoded.error)));
      }
      var nullifier := decoded.value;
      var valid := Validation.ValidateNullifier(nullifier);
      if valid.Err? {
        return Err(valid.error);
      }
      spentSet := spentSet + {nullifier};
      i := i + 1;
    }
    return Ok(spentSet);
  }

  /** Every entry of an export of 32-byte members is well formed. */
  lemma ExportWellFormed(spent: ByteSet)
    requires forall n :: n in spent ==> |n| == Validation.NULLIFIER_LENGTH
    ensures forall i :: 0 <= i < |ExportNullifierSet(spent).nullifiers| ==>
      WellFormedEntry(ExportNullifierSet(spent).nullifiers[i])
  {
    var hs := ExportNullifierSet(spent).nullifiers;
    forall i | 0 <= i < |hs|
      ensures WellFormedEntry(hs[i])
    {
    }
  }

  /** A byte string decodes from some entry of the export exactly when it is a member. */
  lemma ExportDecodesToMembers(spent: ByteSet, n: seq<byte>)
    ensures (exists i :: 0 <= i < |ExportNullifierSet(spent).nullifiers| && Hex.Decode(ExportNullifierSet(spent).nullifiers[i]) == Ok(n))
      <==> n in spent
  {
    var hs := ExportNullifierSet(spent).nullifiers;
    if n in spent {
      Hex.DecodeEncode(n);
      var i :| 0 <= i < |hs| && hs[i] == Hex.Encode(n);
      assert Hex.Decode(hs[i]) == Ok(n);
    }
  }

  /** Export then import gives back the same set, provided every member is 32 bytes long. */
  lemma RoundTrip(spent: ByteSet)
    requires forall n :: n in spent ==> |n| == Validation.NULLIFIER_LENGTH
    ensures ImportSpec(ExportNullifierSet(spent)) == Ok(spent)
  {
    var e := ExportNullifierSet(spent);
    ExportWellFormed(spent);
    var r := ImportSpec(e);
    assert r.Ok?;
    forall n
      ensures n in r.value <==> n in spent
    {
      ExportDecodesToMembers(spent, n);
    }
    assert r.value == spent;
  }

  /** The round trip needs its hypothesis: a member of another length makes the import of the export fail. */
  lemma MalformedMemberBreaksRoundTrip(spent: ByteSet, bad: seq<byte>)
    requires bad in spent && |bad| != Validation.NULLIFIER_LENGTH
    ensures ImportSpec(ExportNullifierSet(spent)).Err?
  {
    var e := ExportNullifierSet(spent);
    var i :| 0 <= i < |e.nullifiers| && e.nullifiers[i] == Hex.Encode(bad);
    Hex.DecodeEncode(bad);
    assert !WellFormedEntry(e.nullifiers[i]);
  }
}
