/**
 * Nullifier derivation and spent tracking: BLAKE3 over the commitment and the
 * secret, the `NullifierSet` of fixed-size nullifiers, and the older functions
 * that work on a set of byte vectors: membership tests that answer false on a
 * wrong length, single and batch marking, and statistics.
 *
 * A `&mut HashSet<Vec<u8>>` parameter is modelled by passing the set in and
 * returning the updated set beside the result.
 */
module Nullifiers {
  import opened Bytes
  import opened Wrappers
  import opened Errors
  import opened Secrets
  import opened Notes
  import opened NullifierType
  import opened Collections
  import Validation

  type ByteSet = set<seq<byte>>

  /** `generate_nullifier`: BLAKE3(commitment || secret); the secret is not validated. */
  function GenerateNullifier(blake3: HashFn, note: SparkNote, secret: Secret): (n: Nullifier)
    ensures n.AsBytes() == blake3(note.commitment + secret.AsBytes())
  {
    NullifierType.New(blake3(note.commitment + secret.AsBytes()))
  }

  /** `generate_nullifier_vec`. */
  function GenerateNullifierVec(blake3: HashFn, note: SparkNote, secret: Secret): (v: seq<byte>)
    ensures |v| == Validation.NULLIFIER_LENGTH
    ensures NullifierType.FromSlice(v) == Ok(GenerateNullifier(blake3, note, secret))
  {
    GenerateNullifier(blake3, note, secret).ToVec()
  }

  /**
   * Secret sensitivity, under an explicitly stated hypothesis: if BLAKE3 has no
   * collision between the two inputs, one note gives the same nullifier for
   * two secrets exactly when the secrets are equal.
   */
  lemma NullifierSecretSensitive(blake3: HashFn, note: SparkNote, s1: Secret, s2: Secret)
    requires NoCollision(blake3, note.commitment + s1.AsBytes(), note.commitment + s2.AsBytes())
    ensures GenerateNullifier(blake3, note, s1) == GenerateNullifier(blake3, note, s2) <==> s1 == s2
  {
    var c := note.commitment;
    if GenerateNullifier(blake3, note, s1) == GenerateNullifier(blake3, note, s2) {
      assert c + s1.AsBytes() == c + s2.AsBytes();
      assert s1.AsBytes() == (c + s1.AsBytes())[|c|..];
      assert s2.AsBytes() == (c + s2.AsBytes())[|c|..];
    }
  }

  /** `NullifierSet`: a set of fixed-size nullifiers updated in place. */
  class NullifierSet {
    var spentSet: set<Nullifier>

    /** `NullifierSet::new`. */
    constructor ()
      ensures spentSet == {}
    {
      spentSet := {};
    }

    /** `NullifierSet::add`: true exactly when the nullifier was absent. */
    method Add(n: Nullifier) returns (inserted: bool)
      modifies this
      ensures inserted <==> n !in old(spentSet)
      ensures spentSet == old(spentSet) + {n}
      ensures |spentSet| == |old(spentSet)| + (if inserted then 1 else 0)
    {
      inserted := n !in spentSet;
      if !inserted {
        assert spentSet + {n} == spentSet;
      }
      spentSet := spentSet + {n};
    }

    /** `NullifierSet::contains`. */
    function Contains(n: Nullifier): (b: bool)
      reads this
      ensures b <==> n in spentSet
    {
      n in spentSet
    }

    /** `NullifierSet::contains_slice`: false for any input that is not 32 bytes long. */
    function ContainsSlice(s: seq<byte>): (b: bool)
      reads this
      ensures b <==> |s| == Validation.NULLIFIER_LENGTH && Nullifier(s) in spentSet
    {
      match NullifierType.FromSlice(s)
      case Ok(n) => Contains(n)
      case Err(_) => false
    }

    /** `NullifierSet::len`. */
    function Len(): (n: nat)
      reads this
      ensures n == |spentSet|
    {
      |spentSet|
    }

    /** `NullifierSet::export`: every member once, as a 32-byte vector, in iteration order. */
    ghost function Export(): (vs: seq<seq<byte>>)
      reads this
      ensures |vs| == Len()
      ensures forall i :: 0 <= i < |vs| ==> |vs[i]| == Validation.NULLIFIER_LENGTH
      ensures forall v :: v in vs <==> |v| == Validation.NULLIFIER_LENGTH && Nullifier(v) in spentSet
      ensures Distinct(vs)
    {
      var ns := Enumerate(spentSet);
      var vs := seq(|ns|, i requires 0 <= i < |ns| => ns[i].ToVec());
      assert forall v :: v in vs ==> Nullifier(v) in ns;
      forall n | n in ns
        ensures n.ToVec() in vs
      {
        var i :| 0 <= i < |ns| && ns[i] == n;
        assert vs[i] == n.ToVec();
      }
      assert Distinct(vs) by {
        forall i, j | 0 <= i < j < |vs|
          ensures vs[i] != vs[j]
        {
          assert ns[i] != ns[j];
        }
      }
      vs
    }
  }

  /** `is_nullifier_spent`: spent means 32 bytes long and present. */
  function IsNullifierSpent(nullifier: seq<byte>, spent: ByteSet): (b: bool)
    ensures b <==> |nullifier| == Validation.NULLIFIER_LENGTH && nullifier in spent
  {
    if NullifierType.FromSlice(nullifier).Ok? then nullifier in spent else false
  }

  /** `check_multiple_nullifiers`: one answer per input, in input order. */
  function CheckMultipleNullifiers(nullifiers: seq<seq<byte>>, spent: ByteSet): (r: seq<bool>)
    ensures |r| == |nullifiers|
    ensures forall i :: 0 <= i < |r| ==>
      (r[i] <==> |nullifiers[i]| == Validation.NULLIFIER_LENGTH && nullifiers[i] in spent)
  {
    seq(|nullifiers|, i requires 0 <= i < |nullifiers| => IsNullifierSpent(nullifiers[i], spent))
  }

  /**
   * Short inputs are never reported spent, even when the very same bytes are
   * in the set: three-byte entries that are present come back false.
   */
  lemma ShortEntriesNeverSpent()
    ensures CheckMultipleNullifiers([[1, 2, 3], [4, 5, 6]], {[1, 2, 3]}) == [false, false]
  {
  }

  const SINGLE_SPENT_MESSAGE: string := "Nullifier is already spent"
  const BATCH_SPENT_MESSAGE: string := "One or more nullifiers are already spent"

  /**
   * The effect of validating one nullifier and inserting it if absent: the
   * result and the set afterwards. A failure leaves the set as it was.
   */
  function SpendOutcome(nullifier: seq<byte>, spent: ByteSet, spentMessage: string): (o: (SparkResult<()>, ByteSet))
    ensures o.0.Ok? <==> |nullifier| == Validation.NULLIFIER_LENGTH && nullifier !in spent
    ensures o.0.Ok? ==> o.1 == spent + {nullifier}
    ensures o.0.Err? ==> o.1 == spent
    ensures |nullifier| != Validation.NULLIFIER_LENGTH ==> o.0 == Err(Validation.ValidateNullifier(nullifier).error)
    ensures |nullifier| == Validation.NULLIFIER_LENGTH && nullifier in spent ==>
      o.0 == Err(NullifierError(spentMessage, NullifierErrorCode.AlreadySpent))
  {
    match Validation.ValidateNullifier(nullifier)
    case Err(e) => (Err(e), spent)
    case Ok(_) =>
      if nullifier in spent then (Err(NullifierErrorOf(NullifierErrorCode.AlreadySpent, spentMessage)), spent)
      else (Ok(()), spent + {nullifier})
  }

  /** `mark_as_spent`. */
  method MarkAsSpent(nullifier: seq<byte>, spent: ByteSet) returns (r: SparkResult<()>, spent': ByteSet)
    ensures (r, spent') == SpendOutcome(nullifier, spent, SINGLE_SPENT_MESSAGE)
  {
    var v := Validation.ValidateNullifier(nullifier);
    if v.Err? {
      return Err(v.error), spent;
    }
    if nullifier in spent {
      return Err(NullifierErrorOf(NullifierErrorCode.AlreadySpent, SINGLE_SPENT_MESSAGE)), spent;
    }
    spent' := spent + {nullifier};
    r := Ok(());
  }

  /** After one successful marking, every later attempt and every membership test see it spent. */
  lemma SpendOnce(nullifier: seq<byte>, spent: ByteSet)
    requires SpendOutcome(nullifier, spent, SINGLE_SPENT_MESSAGE).0.Ok?
    ensures var after := SpendOutcome(nullifier, spent, SINGLE_SPENT_MESSAGE).1;
      && IsNullifierSpent(nullifier, after)
      && SpendOutcome(nullifier, after, SINGLE_SPENT_MESSAGE)
         == (Err(NullifierError(SINGLE_SPENT_MESSAGE, NullifierErrorCode.AlreadySpent)), after)
  {
  }

  /**
   * What `mark_multiple_as_spent` does: each nullifier in turn is validated and
   * inserted, and the first failure stops the loop with the insertions made so
   * far still in place.
   */
  function MarkBatch(nullifiers: seq<seq<byte>>, spent: ByteSet): (o: (SparkResult<()>, ByteSet))
    decreases |nullifiers|
  {
    if nullifiers == [] then (Ok(()), spent)
    else
      var step := SpendOutcome(nullifiers[0], spent, BATCH_SPENT_MESSAGE);
      if step.0.Err? then step else MarkBatch(nullifiers[1..], step.1)
  }

  /** `mark_multiple_as_spent`. */
  method MarkMultipleAsSpent(nullifiers: seq<seq<byte>>, spent: ByteSet) returns (r: SparkResult<()>, spent': ByteSet)
    ensures (r, spent') == MarkBatch(nullifiers, spent)
  {
    spent' := spent;
    var i := 0;
    while i < |nullifiers|
      invariant 0 <= i <= |nullifiers|
      invariant MarkBatch(nullifiers[i..], spent') == MarkBatch(nullifiers, spent)
    {
      assert nullifiers[i..][1..] == nullifiers[i + 1..];
      var n := nullifiers[i];
      var v := Validation.ValidateNullifier(n);
      if v.Err? {
        return Err(v.error), spent';
      }
      if n in spent' {
        return Err(NullifierErrorOf(NullifierErrorCode.AlreadySpent, BATCH_SPENT_MESSAGE)), spent';
      }
      spent' := spent' + {n};
      i := i + 1;
    }
    r := Ok(());
  }

  /**
   * A batch succeeds exactly when every nullifier is 32 bytes long, none is
   * already spent and none repeats within the batch; the set then gains
   * exactly the batch.
   */
  lemma {:induction false} MarkBatchOk(nullifiers: seq<seq<byte>>, spent: ByteSet)
    ensures MarkBatch(nullifiers, spent).0.Ok? <==>
      && (forall i :: 0 <= i < |nullifiers| ==>
            |nullifiers[i]| == Validation.NULLIFIER_LENGTH && nullifiers[i] !in spent)
      && Distinct(nullifiers)
    ensures MarkBatch(nullifiers, spent).0.Ok? ==> MarkBatch(nullifiers, spent).1 == spent + Elems(nullifiers)
    decreases |nullifiers|
  {
    if nullifiers != [] {
      var n, rest := nullifiers[0], nullifiers[1..];
      MarkBatchOk(rest, spent + {n});
      assert forall i :: 1 <= i < |nullifiers| ==> nullifiers[i] == rest[i - 1];
      assert Elems(nullifiers) == {n} + Elems(rest);
      if Distinct(nullifiers) {
        assert forall i :: 0 <= i < |rest| ==> rest[i] != n by {
          forall i | 0 <= i < |rest| ensures rest[i] != n {
            assert nullifiers[i + 1] != nullifiers[0];
          }
        }
      }
      if !Distinct(nullifiers) && Distinct(rest) {
        var i, j :| 0 <= i < j < |nullifiers| && nullifiers[i] == nullifiers[j];
        assert i == 0 && rest[j - 1] == n;
      }
    }
  }

  /** Each of the first `k` nullifiers is accepted when its turn comes, after those before it were inserted. */
  ghost predicate AcceptedInTurn(nullifiers: seq<seq<byte>>, spent: ByteSet, k: nat)
    requires k <= |nullifiers|
  {
    forall j :: 0 <= j < k ==>
      SpendOutcome(nullifiers[j], spent + Elems(nullifiers[..j]), BATCH_SPENT_MESSAGE).0.Ok?
  }

  lemma AcceptedInTurnPrepend(n: seq<byte>, rest: seq<seq<byte>>, spent: ByteSet, k: nat)
    requires k <= |rest|
    requires SpendOutcome(n, spent, BATCH_SPENT_MESSAGE).0.Ok?
    requires AcceptedInTurn(rest, spent + {n}, k)
    ensures AcceptedInTurn([n] + rest, spent, k + 1)
  {
    var ns := [n] + rest;
    forall j | 0 <= j < k + 1
      ensures SpendOutcome(ns[j], spent + Elems(ns[..j]), BATCH_SPENT_MESSAGE).0.Ok?
    {
      if j == 0 {
        assert ns[..0] == [];
        assert spent + Elems(ns[..0]) == spent;
      } else {
        assert ns[..j] == [n] + rest[..j - 1];
        ElemsPrepend(n, rest[..j - 1]);
        assert spent + Elems(ns[..j]) == spent + {n} + Elems(rest[..j - 1]);
        assert ns[j] == rest[j - 1];
      }
    }
  }

  /**
   * A failed batch is not undone: it fails at the first index k whose
   * nullifier is refused (every earlier one was accepted in turn), and the set
   * then holds the old members plus exactly the nullifiers before k.
   */
  lemma {:induction false} MarkBatchFailureKeepsPrefix(nullifiers: seq<seq<byte>>, spent: ByteSet)
    returns (k: nat)
    requires MarkBatch(nullifiers, spent).0.Err?
    ensures k < |nullifiers|
    ensures AcceptedInTurn(nullifiers, spent, k)
    ensures MarkBatch(nullifiers, spent).1 == spent + Elems(nullifiers[..k])
    ensures MarkBatch(nullifiers, spent).0
              == SpendOutcome(nullifiers[k], spent + Elems(nullifiers[..k]), BATCH_SPENT_MESSAGE).0
    decreases |nullifiers|
  {
    var n, rest := nullifiers[0], nullifiers[1..];
    var step := SpendOutcome(n, spent, BATCH_SPENT_MESSAGE);
    if step.0.Err? {
      k := 0;
      assert Elems(nullifiers[..0]) == {};
    } else {
      var k' := MarkBatchFailureKeepsPrefix(rest, step.1);
      k := k' + 1;
      assert nullifiers[..k] == [n] + rest[..k'];
      ElemsPrepend(n, rest[..k']);
      assert nullifiers[k] == rest[k'];
      AcceptedInTurnPrepend(n, rest, spent, k');
      assert [n] + rest == nullifiers;
    }
  }

  /**
   * The failing case as written: with A already spent, the batch [B, A] fails
   * with AlreadySpent and yet leaves B recorded as spent.
   */
  lemma BatchFailureLeavesEarlierInsertion()
    ensures var a, b := seq(32, _ => 1), seq(32, _ => 2);
      && MarkBatch([b, a], {a}).0 == Err(NullifierError(BATCH_SPENT_MESSAGE, NullifierErrorCode.AlreadySpent))
      && b in MarkBatch([b, a], {a}).1
  {
    var a, b := seq(32, _ => 1), seq(32, _ => 2);
    assert a[0] != b[0];
    assert [b, a][1..] == [a];
  }

  /** A nullifier that appears twice in one batch makes the batch fail with AlreadySpent. */
  lemma RepeatInBatchFails(n: seq<byte>, spent: ByteSet)
    requires |n| == Validation.NULLIFIER_LENGTH && n !in spent
    ensures MarkBatch([n, n], spent) == (Err(NullifierError(BATCH_SPENT_MESSAGE, NullifierErrorCode.AlreadySpent)), spent + {n})
  {
    assert [n, n][1..] == [n];
  }

  /**
   * The all-or-nothing batch: the same verdict as `MarkBatch`, but a failure
   * leaves the set exactly as it was.
   */
  method MarkMultipleAsSpentAtomic(nullifiers: seq<seq<byte>>, spent: ByteSet) returns (r: SparkResult<()>, spent': ByteSet)
    ensures r == MarkBatch(nullifiers, spent).0
    ensures r.Ok? ==> spent' == spent + Elems(nullifiers)
    ensures r.Err? ==> spent' == spent
  {
    MarkBatchOk(nullifiers, spent);
    var trial := spent;
    var i := 0;
    while i < |nullifiers|
      invariant 0 <= i <= |nullifiers|
      invariant MarkBatch(nullifiers[i..], trial) == MarkBatch(nullifiers, spent)
    {
      assert nullifiers[i..][1..] == nullifiers[i + 1..];
      var n := nullifiers[i];
      var v := Validation.ValidateNullifier(n);
      if v.Err? {
        return Err(v.error), spent;
      }
      if n in trial {
        return Err(NullifierErrorOf(NullifierErrorCode.AlreadySpent, BATCH_SPENT_MESSAGE)), spent;
      }
      trial := trial + {n};
      i := i + 1;
    }
    r, spent' := Ok(()), trial;
  }

  /** `get_nullifier_set_size`. */
  function GetNullifierSetSize(spent: ByteSet): (n: nat)
    ensures n == |spent|
  {
    |spent|
  }

  /** `NullifierSetStats`. */
  datatype NullifierSetStats = NullifierSetStats(count: u64, memoryUsageBytes: u64)

  /** The per-entry estimate: 32 bytes of nullifier and 8 bytes of table overhead. */
  const BYTES_PER_ENTRY: nat := 32 + 8

  /**
   * The statistics for `n` entries, with the `u64` arithmetic written out:
   * `count * 40` wraps in a release build (a debug build panics instead).
   */
  function StatsForCount(n: nat): (st: NullifierSetStats)
    ensures st.count == n % TWO_64 && st.memoryUsageBytes == (n % TWO_64) * BYTES_PER_ENTRY % TWO_64
    ensures n * BYTES_PER_ENTRY < TWO_64 ==> st.count == n && st.memoryUsageBytes == BYTES_PER_ENTRY * n
  {
    var count := LengthAsU64(n);
    NullifierSetStats(count, (count * BYTES_PER_ENTRY) % TWO_64)
  }

  /** `get_nullifier_set_stats`. */
  function GetNullifierSetStats(spent: ByteSet): (st: NullifierSetStats)
    ensures |spent| * BYTES_PER_ENTRY < TWO_64 ==>
      st.count == |spent| && st.memoryUsageBytes == BYTES_PER_ENTRY * |spent|
  {
    StatsForCount(|spent|)
  }
}
