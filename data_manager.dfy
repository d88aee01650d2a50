/**
 * The in-memory note stores of app/data_manager.py.
 *
 * `NoteDataManager` keeps a Python list of note dictionaries and answers by
 * position; deleting pops the slot, so later notes move down one position.
 * `ListDataManager` keeps a list of entry objects whose `id` is their
 * position; deleting overwrites the slot with `None`, so ids stay positions.
 * Failure is always a sentinel (`None` or `False`), never an exception.
 */
module DataManagers {
  import opened Wrappers
  import opened Models
  import opened PythonList

  /** `{'index': index} | note`: every key of the note, plus `index`; on a clash the note's value wins. */
  function MergeIndex(index: int, note: Dict): (r: Dict)
    ensures r.Keys == note.Keys + {"index"}
    ensures forall k :: k in note ==> r[k] == note[k]
    ensures "index" !in note ==> r["index"] == Int(index)
  {
    map["index" := Int(index)] + note
  }

  /** `_response_template` on a stored note: the note tagged with the given index. */
  function ResponseTemplate(index: int, note: StoredNote): NoteResponse
  {
    NoteResponse(note.title, note.content, Some(index), Some(note.owner))
  }

  /** The typed template is the dictionary merge applied to the dictionary a stored note is. */
  lemma ResponseTemplateIsMerge(index: int, note: StoredNote)
    ensures MergeIndex(index, StoredDict(note)) == ResponseDict(ResponseTemplate(index, note))
  {
    var m, d := MergeIndex(index, StoredDict(note)), ResponseDict(ResponseTemplate(index, note));
    assert m.Keys == d.Keys;
  }

  /** The store's notes owned by `user`, in list order, each tagged with its position. */
  function NotesByUser(notes: seq<StoredNote>, user: string): (r: seq<NoteResponse>)
    ensures |r| <= |notes|
  {
    if notes == [] then []
    else
      var p := |notes| - 1;
      NotesByUser(notes[..p], user) + (if notes[p].owner == user then [ResponseTemplate(p, notes[p])] else [])
  }

  /** The positions of the notes owned by `user`, in increasing order. */
  function OwnedPositions(notes: seq<StoredNote>, user: string): seq<nat>
  {
    if notes == [] then []
    else
      var p := |notes| - 1;
      OwnedPositions(notes[..p], user) + (if notes[p].owner == user then [p] else [])
  }

  /** `pos` lists exactly the positions of `notes` whose owner is `user`, each once, in increasing order. */
  ghost predicate ExactPositions(pos: seq<nat>, notes: seq<StoredNote>, user: string)
  {
    (forall k :: 0 <= k < |pos| ==> pos[k] < |notes| && notes[pos[k]].owner == user) &&
    (forall k, l :: 0 <= k < l < |pos| ==> pos[k] < pos[l]) &&
    (forall j :: 0 <= j < |notes| && notes[j].owner == user ==> j in pos)
  }

  /** `OwnedPositions` lists exactly the positions whose owner is `user`, each once, in increasing order. */
  lemma {:induction false} OwnedPositionsExact(notes: seq<StoredNote>, user: string)
    ensures ExactPositions(OwnedPositions(notes, user), notes, user)
  {
    if notes != [] {
      var p := |notes| - 1;
      var prev := OwnedPositions(notes[..p], user);
      OwnedPositionsExact(notes[..p], user);
      assert ExactPositions(prev, notes[..p], user);
      var pos := OwnedPositions(notes, user);
      assert pos == prev + (if notes[p].owner == user then [p] else []);
      forall k | 0 <= k < |pos| ensures pos[k] < |notes| && notes[pos[k]].owner == user {
        if k < |prev| {
          assert pos[k] == prev[k] && notes[..p][prev[k]] == notes[prev[k]];
        }
      }
      forall k, l | 0 <= k < l < |pos| ensures pos[k] < pos[l] {
        if l < |prev| {
          assert pos[k] == prev[k] && pos[l] == prev[l];
        } else {
          assert pos[k] == prev[k] < p && pos[l] == p;
        }
      }
      forall j | 0 <= j < |notes| && notes[j].owner == user ensures j in pos {
        if j < p {
          assert notes[..p][j] == notes[j];
        }
      }
    }
  }

  /** Entry `k` of the listing is the note at the `k`-th owned position, tagged with that position. */
  lemma {:induction false} NotesByUserTagged(notes: seq<StoredNote>, user: string)
    ensures var r, pos := NotesByUser(notes, user), OwnedPositions(notes, user);
      |r| == |pos| && forall k :: 0 <= k < |r| ==> pos[k] < |notes| && r[k] == ResponseTemplate(pos[k], notes[pos[k]])
  {
    if notes != [] {
      var p := |notes| - 1;
      NotesByUserTagged(notes[..p], user);
      OwnedPositionsExact(notes[..p], user);
    }
  }

  /** Every note listed for `user` is owned by `user`. */
  lemma {:induction false} NotesByUserOwned(notes: seq<StoredNote>, user: string)
    ensures forall k :: 0 <= k < |NotesByUser(notes, user)| ==> NotesByUser(notes, user)[k].owner == Some(user)
  {
    NotesByUserTagged(notes, user);
    OwnedPositionsExact(notes, user);
  }

  /** The store of `NoteDataManager`: a list of note dictionaries addressed by position. */
  class NoteDataManager {
    var notes: seq<StoredNote>

    constructor ()
      ensures notes == []
    {
      notes := [];
    }

    /** `get_notes_by_user`: scans the list and keeps the notes owned by `user`, tagged with their positions. */
    method GetNotesByUser(user: string) returns (r: seq<NoteResponse>)
      ensures r == NotesByUser(notes, user)
    {
      r := [];
      var i := 0;
      while i < |notes|
        invariant 0 <= i <= |notes|
        invariant r == NotesByUser(notes[..i], user)
      {
        assert notes[..i + 1][..i] == notes[..i];
        if notes[i].owner == user {
          r := r + [ResponseTemplate(i, notes[i])];
        }
        i := i + 1;
      }
      assert notes[..i] == notes;
    }

    /** `get_note`: the note at the position `index` addresses, tagged with `index` as given; `None` out of range. */
    method GetNote(index: int) returns (r: Option<NoteResponse>)
      ensures r.Some? <==> InRange(index, |notes|)
      ensures r.Some? ==> r.value == ResponseTemplate(index, notes[Normalize(index, |notes|)])
    {
      if InRange(index, |notes|) {
        r := Some(ResponseTemplate(index, notes[Normalize(index, |notes|)]));
      } else {
        r := None;
      }
    }

    /** `add_note`: appends the note and returns it tagged with its new position. */
    method AddNote(note: StoredNote) returns (r: NoteResponse)
      modifies this
      ensures notes == old(notes) + [note]
      ensures r == ResponseTemplate(|old(notes)|, note)
    {
      notes := notes + [note];
      r := ResponseTemplate(|notes| - 1, note);
    }

    /** `update_note`: overwrites the addressed slot; `False` (here `None`) and no change out of range. */
    method UpdateNote(index: int, newNote: StoredNote) returns (r: Option<NoteResponse>)
      modifies this
      ensures r.Some? <==> InRange(index, |old(notes)|)
      ensures r.Some? ==> notes == old(notes)[Normalize(index, |old(notes)|) := newNote]
      ensures r.Some? ==> r.value == ResponseTemplate(index, newNote)
      ensures r.None? ==> notes == old(notes)
    {
      if InRange(index, |notes|) {
        notes := notes[Normalize(index, |notes|) := newNote];
        r := Some(ResponseTemplate(index, newNote));
      } else {
        r := None;
      }
    }

    /** `delete_note`: pops the addressed slot, so every later note moves down one position. */
    method DeleteNote(index: int) returns (ok: bool)
      modifies this
      ensures ok <==> InRange(index, |old(notes)|)
      ensures ok ==> notes == RemoveAt(old(notes), Normalize(index, |old(notes)|))
      ensures !ok ==> notes == old(notes)
    {
      if InRange(index, |notes|) {
        notes := RemoveAt(notes, Normalize(index, |notes|));
        ok := true;
      } else {
        ok := false;
      }
    }
  }

  /** An entry of `ListDataManager`: a note whose `id` attribute the store stamps. */
  class Entry {
    var id: int
    const note: Note

    constructor (note: Note, id: int)
      ensures this.note == note && this.id == id
    {
      this.note := note;
      this.id := id;
    }
  }

  /** The store of `ListDataManager`: a list of entries in which a deleted slot holds `None` (here `null`). */
  class ListDataManager {
    var slots: seq<Entry?>

    constructor ()
      ensures slots == []
    {
      slots := [];
    }

    /** Every live entry's id is its position in the list. */
    ghost predicate IdsArePositions()
      reads this, slots
    {
      forall p :: 0 <= p < |slots| && slots[p] != null ==> slots[p].id == p
    }

    /** `_read_entry_by_key`: the first dictionary whose `get(key)` equals `value`, or `None` if there is none. */
    static method ReadEntryByKey(items: seq<Dict>, key: string, value: Value) returns (r: Option<Dict>)
      ensures r.None? <==> forall j :: 0 <= j < |items| ==> Get(items[j], key) != value
      ensures r.Some? ==> exists j :: 0 <= j < |items| && items[j] == r.value && Get(items[j], key) == value
                                   && forall i :: 0 <= i < j ==> Get(items[i], key) != value
    {
      var j := 0;
      while j < |items|
        invariant 0 <= j <= |items|
        invariant forall i :: 0 <= i < j ==> Get(items[i], key) != value
      {
        if Get(items[j], key) == value {
          return Some(items[j]);
        }
        j := j + 1;
      }
      r := None;
    }

    /** `_read_entry_by_index`: the slot `index` addresses, which is `null` if deleted; `null` out of range. */
    method ReadEntryByIndex(index: int) returns (e: Entry?)
      ensures InRange(index, |slots|) ==> e == slots[Normalize(index, |slots|)]
      ensures !InRange(index, |slots|) ==> e == null
    {
      if InRange(index, |slots|) {
        e := slots[Normalize(index, |slots|)];
      } else {
        e := null;
      }
    }

    /**
     * `_write_entry`: stamps the entry's id with the current length and appends it,
     * so the returned id is the entry's position. Ids stay positions exactly when
     * they were before and the entry was not already in the list.
     */
    method WriteEntry(e: Entry) returns (id: int)
      modifies this, e
      ensures slots == old(slots) + [e]
      ensures e.id == |old(slots)| && id == e.id && slots[id] == e
      ensures IdsArePositions() <==> old(IdsArePositions()) && e !in old(slots)
    {
      ghost var before := slots;
      e.id := |slots|;
      slots := slots + [e];
      id := e.id;
      if IdsArePositions() {
        forall q | 0 <= q < |before| ensures before[q] != e {
          assert slots[q] == before[q];
        }
        forall q | 0 <= q < |before| && before[q] != null ensures old(before[q].id) == q {
          assert slots[q] == before[q];
        }
      }
      if old(IdsArePositions()) && e !in before {
        forall q | 0 <= q < |slots| && slots[q] != null ensures slots[q].id == q {
          if q < |before| {
            assert slots[q] == before[q] && old(before[q].id) == q;
          }
        }
      }
    }

    /** `_update_entry_by_index`: stores the entry in the slot its id addresses; `False` and no change out of range. */
    method UpdateEntryByIndex(e: Entry) returns (ok: bool)
      modifies this
      ensures ok <==> InRange(e.id, |old(slots)|)
      ensures ok ==> slots == old(slots)[Normalize(e.id, |old(slots)|) := e]
      ensures !ok ==> slots == old(slots)
      ensures ok && 0 <= e.id && old(IdsArePositions())
              && (forall q :: 0 <= q < |old(slots)| && old(slots)[q] == e ==> q == e.id)
              ==> IdsArePositions()
    {
      if InRange(e.id, |slots|) {
        slots := slots[Normalize(e.id, |slots|) := e];
        ok := true;
      } else {
        ok := false;
      }
    }

    /** `_delete_entry`: overwrites the addressed slot with `null`, so no other entry moves. */
    method DeleteEntry(index: int) returns (ok: bool)
      modifies this
      ensures ok <==> InRange(index, |old(slots)|)
      ensures ok ==> slots == old(slots)[Normalize(index, |old(slots)|) := null]
      ensures !ok ==> slots == old(slots)
      ensures |slots| == |old(slots)|
      ensures old(IdsArePositions()) ==> IdsArePositions()
    {
      if InRange(index, |slots|) {
        slots := slots[Normalize(index, |slots|) := null];
        ok := true;
      } else {
        ok := false;
      }
    }

    /** `add_note`: writes the entry and returns its id. */
    method AddNote(e: Entry) returns (id: int)
      modifies this, e
      ensures slots == old(slots) + [e]
      ensures e.id == |old(slots)| && id == e.id
      ensures IdsArePositions() <==> old(IdsArePositions()) && e !in old(slots)
    {
      id := WriteEntry(e);
    }

    /** `get_note`: the entry at the slot `id` addresses, `null` when it is out of range or deleted. */
    method GetNote(id: int) returns (e: Entry?)
      ensures InRange(id, |slots|) ==> e == slots[Normalize(id, |slots|)]
      ensures !InRange(id, |slots|) ==> e == null
    {
      e := ReadEntryByIndex(id);
    }

    /** Deleting is repeatable, and a deleted id then reads as `null`. */
    method DeleteIsRepeatable(id: int) returns (first: bool, second: bool, after: Entry?)
      modifies this
      ensures first == second == InRange(id, |old(slots)|)
      ensures after == null
      ensures InRange(id, |old(slots)|) ==> slots == old(slots)[Normalize(id, |old(slots)|) := null]
      ensures !InRange(id, |old(slots)|) ==> slots == old(slots)
    {
      first := DeleteEntry(id);
      second := DeleteEntry(id);
      after := GetNote(id);
    }
  }
}
