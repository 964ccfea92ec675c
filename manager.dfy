/**
 * The note manager: notes kept under caller-chosen ids, each with a spend
 * state and the nullifier generated for it, next to one global set of spent
 * nullifiers that only ever grows. An entry goes Unspent, then gets a
 * nullifier, then becomes Spent when that nullifier enters the spent set.
 * Every failing operation leaves the whole state as it was.
 */
module Manager {
  import opened Bytes
  import opened Wrappers
  import opened Errors
  import opened Secrets
  import opened Notes
  import opened NullifierType
  import opened Nullifiers
  import opened Collections
  import Validation

  datatype NoteState = Unspent | Spent

  /** The form of a note that may leave the manager: no secret. */
  datatype PublicNote = PublicNote(value: u64, commitment: seq<byte>)

  /** `From<&SparkNote> for PublicNote`. */
  function PublicNoteFrom(note: SparkNote): (p: PublicNote)
    ensures p.value == note.value && p.commitment == note.commitment
  {
    PublicNote(note.value, note.commitment)
  }

  /** The public projection forgets the secret: notes that agree on value and commitment project alike. */
  lemma PublicNoteHidesSecret(a: SparkNote, b: SparkNote)
    requires a.value == b.value && a.commitment == b.commitment
    ensures PublicNoteFrom(a) == PublicNoteFrom(b)
  {
  }

  /** `NoteEntry`: what callers see of an entry. */
  datatype NoteEntry = NoteEntry(note: PublicNote, state: NoteState, nullifier: Option<seq<byte>>)

  /** `InternalNoteEntry`: what the manager stores, secret included. */
  datatype InternalNoteEntry = InternalNoteEntry(note: SparkNote, state: NoteState, nullifier: Option<seq<byte>>)

  function ToPublicEntry(e: InternalNoteEntry): (p: NoteEntry)
    ensures p.note.value == e.note.value && p.note.commitment == e.note.commitment
    ensures p.state == e.state && p.nullifier == e.nullifier
  {
    NoteEntry(PublicNoteFrom(e.note), e.state, e.nullifier)
  }

  /** The public entries for `ids`, in that order. */
  function EntriesFor(m: map<string, InternalNoteEntry>, ids: seq<string>): (r: seq<(string, NoteEntry)>)
    requires forall i :: 0 <= i < |ids| ==> ids[i] in m
    ensures |r| == |ids|
    ensures forall i :: 0 <= i < |r| ==> r[i] == (ids[i], ToPublicEntry(m[ids[i]]))
  {
    if ids == [] then [] else [(ids[0], ToPublicEntry(m[ids[0]]))] + EntriesFor(m, ids[1..])
  }

  function NotFoundMessage(id: string): string
  {
    "Note with ID '" + id + "' not found"
  }

  class NoteManager {
    var notes: map<string, InternalNoteEntry>
    const spentNullifiers: NullifierSet

    /** An entry is Spent only after a nullifier was generated for it. */
    ghost predicate Valid()
      reads this
    {
      forall id :: id in notes && notes[id].state == Spent ==> notes[id].nullifier.Some?
    }

    /** `NoteManager::new`. */
    constructor ()
      ensures Valid() && fresh(spentNullifiers)
      ensures NoteCount() == 0 && SpentNullifierCount() == 0
    {
      notes := map[];
      spentNullifiers := new NullifierSet();
    }

    /** `NoteManager::add_note`: a new id gets an Unspent entry without nullifier; a known id is refused. */
    method AddNote(id: string, note: SparkNote) returns (r: SparkResult<()>)
      requires Valid()
      modifies this
      ensures Valid() && unchanged(spentNullifiers)
      ensures id in old(notes) ==>
        r == Err(OperationError("Note with ID '" + id + "' already exists")) && notes == old(notes)
      ensures id !in old(notes) ==>
        && r == Ok(())
        && notes == old(notes)[id := InternalNoteEntry(note, Unspent, None)]
        && NoteCount() == old(NoteCount()) + 1
    {
      if id in notes {
        return Err(OperationError("Note with ID '" + id + "' already exists"));
      }
      notes := notes[id := InternalNoteEntry(note, Unspent, None)];
      r := Ok(());
    }

    /** `NoteManager::get_note`: the public fields, the state and the nullifier of a known id. */
    function GetNote(id: string): (r: Option<NoteEntry>)
      reads this
      ensures r.Some? <==> id in notes
      ensures r.Some? ==> r.value == ToPublicEntry(notes[id])
    {
      if id in notes then Some(ToPublicEntry(notes[id])) else None
    }

    /** `NoteManager::list_note_ids`, in the map's iteration order. */
    ghost function ListNoteIds(): (ids: seq<string>)
      reads this
      ensures |ids| == NoteCount() && Distinct(ids)
      ensures forall id :: id in ids <==> id in notes
    {
      Enumerate(notes.Keys)
    }

    /** `NoteManager::list_notes`, in the map's iteration order. */
    ghost function ListNotes(): (r: seq<(string, NoteEntry)>)
      reads this
      ensures |r| == NoteCount()
      ensures forall i :: 0 <= i < |r| ==> r[i].0 in notes && r[i].1 == ToPublicEntry(notes[r[i].0])
      ensures forall id :: id in notes ==> (id, ToPublicEntry(notes[id])) in r
    {
      var ids := ListNoteIds();
      var r := EntriesFor(notes, ids);
      assert forall id :: id in notes ==> (id, ToPublicEntry(notes[id])) in r by {
        forall id | id in notes
          ensures (id, ToPublicEntry(notes[id])) in r
        {
          var i :| 0 <= i < |ids| && ids[i] == id;
          assert r[i] == (id, ToPublicEntry(notes[id]));
        }
      }
      r
    }

    /** `NoteManager::remove_note`: the entry goes, its nullifier (if spent) stays spent. */
    method RemoveNote(id: string) returns (removed: Option<NoteEntry>)
      requires Valid()
      modifies this
      ensures Valid() && unchanged(spentNullifiers)
      ensures removed == old(GetNote(id))
      ensures notes == old(notes) - {id}
    {
      if id in notes {
        removed := Some(ToPublicEntry(notes[id]));
      } else {
        removed := None;
      }
      notes := notes - {id};
    }

    /**
     * `NoteManager::generate_nullifier_for_note`: stores and returns
     * BLAKE3(commitment || secret) for a known id, with the secret unchecked;
     * the state and the spent set are not touched.
     */
    method GenerateNullifierForNote(blake3: HashFn, id: string, secret: seq<byte>) returns (r: SparkResult<seq<byte>>)
      requires Valid()
      modifies this
      ensures Valid() && unchanged(spentNullifiers)
      ensures id !in old(notes) ==> r == Err(OperationError(NotFoundMessage(id))) && notes == old(notes)
      ensures id in old(notes) ==>
        var n := GenerateNullifierVec(blake3, old(notes)[id].note, FromVec(secret));
        && r == Ok(n)
        && |n| == Validation.NULLIFIER_LENGTH
        && notes == old(notes)[id := old(notes)[id].(nullifier := Some(n))]
    {
      if id !in notes {
        return Err(OperationError(NotFoundMessage(id)));
      }
      var entry := notes[id];
      var n := GenerateNullifier(blake3, entry.note, FromVec(secret));
      notes := notes[id := entry.(nullifier := Some(n.ToVec()))];
      r := Ok(n.ToVec());
    }

    /**
     * `NoteManager::mark_note_as_spent`: the entry's nullifier enters the spent
     * set and the entry becomes Spent; an unknown id, a missing nullifier, a
     * malformed one or one already spent is refused and nothing changes.
     */
    method MarkNoteAsSpent(id: string) returns (r: SparkResult<()>)
      requires Valid()
      modifies this, spentNullifiers
      ensures Valid()
      ensures id !in old(notes) ==> r == Err(OperationError(NotFoundMessage(id)))
      ensures id in old(notes) && old(notes)[id].nullifier.None? ==>
        r == Err(OperationError("Nullifier not generated for note '" + id + "'"))
      ensures id in old(notes) && old(notes)[id].nullifier.Some? ==>
        var b := old(notes)[id].nullifier.value;
        && (|b| != Validation.NULLIFIER_LENGTH ==> r == Err(Validation.ValidateNullifier(b).error))
        && (|b| == Validation.NULLIFIER_LENGTH && Nullifier(b) in old(spentNullifiers.spentSet) ==>
              r == Err(NullifierError("Nullifier for note '" + id + "' is already spent", NullifierErrorCode.AlreadySpent)))
        && (|b| == Validation.NULLIFIER_LENGTH && Nullifier(b) !in old(spentNullifiers.spentSet) ==>
              && r == Ok(())
              && spentNullifiers.spentSet == old(spentNullifiers.spentSet) + {Nullifier(b)}
              && notes == old(notes)[id := old(notes)[id].(state := Spent)]
              && SpentNullifierCount() == old(SpentNullifierCount()) + 1)
      ensures r.Err? ==> notes == old(notes) && spentNullifiers.spentSet == old(spentNullifiers.spentSet)
    {
      if id !in notes {
        return Err(OperationError(NotFoundMessage(id)));
      }
      var entry := notes[id];
      if entry.nullifier.None? {
        return Err(OperationError("Nullifier not generated for note '" + id + "'"));
      }
      var parsed := NullifierType.FromSlice(entry.nullifier.value);
      if parsed.Err? {
        return Err(parsed.error);
      }
      var n := parsed.value;
      if spentNullifiers.Contains(n) {
        return Err(NullifierErrorOf(NullifierErrorCode.AlreadySpent,
          "Nullifier for note '" + id + "' is already spent"));
      }
      var _ := spentNullifiers.Add(n);
      notes := notes[id := entry.(state := Spent)];
      r := Ok(());
    }

    /** `NoteManager::add_spent_nullifier`: inserts exactly this nullifier, or refuses and changes nothing. */
    method AddSpentNullifier(nullifier: seq<byte>) returns (r: SparkResult<()>)
      modifies spentNullifiers
      ensures r.Ok? <==>
        |nullifier| == Validation.NULLIFIER_LENGTH && Nullifier(nullifier) !in old(spentNullifiers.spentSet)
      ensures |nullifier| != Validation.NULLIFIER_LENGTH ==>
        r == Err(Validation.ValidateNullifier(nullifier).error)
      ensures |nullifier| == Validation.NULLIFIER_LENGTH && Nullifier(nullifier) in old(spentNullifiers.spentSet) ==>
        r == Err(NullifierError("Nullifier is already spent", NullifierErrorCode.AlreadySpent))
      ensures r.Ok? ==> spentNullifiers.spentSet == old(spentNullifiers.spentSet) + {Nullifier(nullifier)}
      ensures r.Err? ==> spentNullifiers.spentSet == old(spentNullifiers.spentSet)
    {
      var parsed := NullifierType.FromSlice(nullifier);
      if parsed.Err? {
        return Err(parsed.error);
      }
      var n := parsed.value;
      if spentNullifiers.Contains(n) {
        return Err(NullifierErrorOf(NullifierErrorCode.AlreadySpent, "Nullifier is already spent"));
      }
      var _ := spentNullifiers.Add(n);
      r := Ok(());
    }

    /** `NoteManager::is_nullifier_spent`: false for any input that is not 32 bytes long. */
    function IsNullifierSpent(nullifier: seq<byte>): (b: bool)
      reads spentNullifiers
      ensures b <==> |nullifier| == Validation.NULLIFIER_LENGTH && Nullifier(nullifier) in spentNullifiers.spentSet
    {
      spentNullifiers.ContainsSlice(nullifier)
    }

    /** `NoteManager::get_nullifier_stats`: the same estimate as `get_nullifier_set_stats`. */
    function GetNullifierStats(): (st: NullifierSetStats)
      reads spentNullifiers
      ensures SpentNullifierCount() * BYTES_PER_ENTRY < TWO_64 ==>
        st.count == SpentNullifierCount() && st.memoryUsageBytes == BYTES_PER_ENTRY * SpentNullifierCount()
    {
      StatsForCount(spentNullifiers.Len())
    }

    /** `NoteManager::note_count`. */
    function NoteCount(): (n: nat)
      reads this
      ensures n == |notes.Keys|
    {
      |notes|
    }

    /** `NoteManager::spent_nullifier_count`. */
    function SpentNullifierCount(): (n: nat)
      reads spentNullifiers
      ensures n == |spentNullifiers.spentSet|
    {
      spentNullifiers.Len()
    }

    /** `NoteManager::get_spent_nullifiers` (deprecated): the export of the spent set. */
    ghost function GetSpentNullifiers(): (vs: seq<seq<byte>>)
      reads spentNullifiers
      ensures |vs| == SpentNullifierCount()
      ensures forall v :: v in vs <==> IsNullifierSpent(v)
    {
      spentNullifiers.Export()
    }
  }

  /**
   * The whole life of one note in a fresh manager: added Unspent, given a
   * nullifier, marked Spent; a second marking is refused with AlreadySpent,
   * and after removal the nullifier is still spent.
   */
  method SpendLifecycle(blake3: HashFn, id: string, note: SparkNote, secret: seq<byte>)
    returns (first: SparkResult<()>, second: SparkResult<()>, spentAfterRemoval: bool)
    ensures first == Ok(())
    ensures second == Err(NullifierError("Nullifier for note '" + id + "' is already spent", NullifierErrorCode.AlreadySpent))
    ensures spentAfterRemoval
  {
    var m := new NoteManager();
    var added := m.AddNote(id, note);
    assert m.notes[id].state == Unspent;
    var n := m.GenerateNullifierForNote(blake3, id, secret);
    assert m.notes[id].state == Unspent && m.notes[id].nullifier == Some(n.value);
    first := m.MarkNoteAsSpent(id);
    assert m.notes[id].state == Spent;
    second := m.MarkNoteAsSpent(id);
    var removed := m.RemoveNote(id);
    assert removed.Some? && removed.value.state == Spent;
    spentAfterRemoval := m.IsNullifierSpent(n.value);
  }
}
