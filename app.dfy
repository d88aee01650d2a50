/**
 * The request handlers of app/app.py, over one explicitly constructed
 * `NoteDataManager`. Each HTTP outcome is a `Reply`: `Ok` carries the body,
 * `NotFound` stands for status 404 and `Unauthorized` for status 401.
 * The authenticated caller is the constant user the service stubs in.
 */
module App {
  import opened Wrappers
  import opened Models
  import opened PythonList
  import opened DataManagers
  import opened Sorting

  /** What `get_current_user` always returns. */
  const CurrentUser: string := "current_user"

  datatype Reply<T> = Ok(value: T) | NotFound | Unauthorized

  /** `add_owner_to_note`: the note's title and content, owned by the caller. */
  function AddOwnerToNote(note: Note): (r: StoredNote)
    ensures AsNote(r) == note
    ensures r.owner == CurrentUser
  {
    StoredNote(note.title, note.content, CurrentUser)
  }

  /** Stamping undoes dropping the owner exactly for the caller's own notes. */
  lemma AddOwnerToNoteInverse(s: StoredNote)
    ensures AddOwnerToNote(AsNote(s)) == s <==> s.owner == CurrentUser
  {
  }

  /** `validate_index`: 404 for a missing note, else 401 unless the caller owns it. */
  function ValidateIndex(note: Option<NoteResponse>): (r: Reply<NoteResponse>)
    ensures r.NotFound? <==> note.None?
    ensures r.Unauthorized? <==> note.Some? && note.value.owner != Some(CurrentUser)
    ensures r.Ok? ==> note == Some(r.value) && r.value.owner == Some(CurrentUser)
  {
    match note
    case None => NotFound
    case Some(n) => if n.owner != Some(CurrentUser) then Unauthorized else Ok(n)
  }

  /** `GET /notes/{note_index}`: the note, if it exists and the caller owns it. */
  method GetNote(dm: NoteDataManager, noteIndex: int) returns (r: Reply<NoteResponse>)
    ensures r.NotFound? <==> !InRange(noteIndex, |dm.notes|)
    ensures r.Unauthorized? <==> InRange(noteIndex, |dm.notes|)
                                 && dm.notes[Normalize(noteIndex, |dm.notes|)].owner != CurrentUser
    ensures r.Ok? ==> r.value == ResponseTemplate(noteIndex, dm.notes[Normalize(noteIndex, |dm.notes|)])
  {
    var note := dm.GetNote(noteIndex);
    r := ValidateIndex(note);
  }

  /**
   * `GET /notes/`: the caller's notes in store order, optionally sorted by a
   * field, then cut to the page `[first:last]`.
   */
  method GetAllNotes(dm: NoteDataManager, first: Option<int>, last: Option<int>, sortkey: Option<SortKey>, reversesort: bool)
    returns (r: seq<NoteResponse>)
    ensures sortkey.None? ==> r == Slice(NotesByUser(dm.notes, CurrentUser), first, last)
    ensures sortkey.Some? ==> r == Slice(SortBy(NotesByUser(dm.notes, CurrentUser), sortkey.value, reversesort), first, last)
    ensures |r| <= |NotesByUser(dm.notes, CurrentUser)|
    ensures forall k :: 0 <= k < |r| ==> r[k].owner == Some(CurrentUser)
  {
    var response := dm.GetNotesByUser(CurrentUser);
    NotesByUserOwned(dm.notes, CurrentUser);
    if sortkey.Some? {
      var unsorted := response;
      response := SortBy(response, sortkey.value, reversesort);
      forall k | 0 <= k < |response| ensures response[k].owner == Some(CurrentUser) {
        assert response[k] in multiset(unsorted);
      }
    }
    r := Slice(response, first, last);
  }

  /**
   * The caller's listing before pagination, when a sort key is given: a
   * permutation of the caller's notes, ordered by the key (descending with
   * `reversesort`), in which notes with equal keys keep their store order.
   */
  lemma SortedListing(notes: seq<StoredNote>, key: SortKey, reversesort: bool)
    ensures var mine := NotesByUser(notes, CurrentUser);
      var sorted := SortBy(mine, key, reversesort);
      multiset(sorted) == multiset(mine) &&
      (forall i, j :: 0 <= i < j < |sorted| ==>
         if reversesort then LexLe(KeyOf(sorted[j], key), KeyOf(sorted[i], key))
         else LexLe(KeyOf(sorted[i], key), KeyOf(sorted[j], key))) &&
      (forall i, j :: 0 <= i < j < |sorted| && KeyOf(sorted[i], key) == KeyOf(sorted[j], key) ==>
         IndexBefore(sorted[i], sorted[j]))
  {
    var mine := NotesByUser(notes, CurrentUser);
    var sorted := SortBy(mine, key, reversesort);
    assert Sorted(sorted, key, reversesort);
    NotesByUserTagged(notes, CurrentUser);
    OwnedPositionsExact(notes, CurrentUser);
    assert IndicesIncrease(mine);
    SortByTiesByIndex(mine, key, reversesort);
  }

  /** `POST /notes/`: stores the note as the caller's and returns it with its new index. */
  method AddNote(dm: NoteDataManager, note: Note) returns (r: NoteResponse)
    modifies dm
    ensures dm.notes == old(dm.notes) + [AddOwnerToNote(note)]
    ensures r == NoteResponse(note.title, note.content, Some(|old(dm.notes)|), Some(CurrentUser))
  {
    r := dm.AddNote(AddOwnerToNote(note));
  }

  /** `DELETE /notes/{note_index}`: pops the note only if it exists and the caller owns it. */
  method RemoveNote(dm: NoteDataManager, noteIndex: int) returns (r: Reply<()>)
    modifies dm
    ensures r.NotFound? <==> !InRange(noteIndex, |old(dm.notes)|)
    ensures r.Unauthorized? <==> InRange(noteIndex, |old(dm.notes)|)
                                 && old(dm.notes)[Normalize(noteIndex, |old(dm.notes)|)].owner != CurrentUser
    ensures r.Ok? ==> dm.notes == RemoveAt(old(dm.notes), Normalize(noteIndex, |old(dm.notes)|))
    ensures !r.Ok? ==> dm.notes == old(dm.notes)
  {
    var note := dm.GetNote(noteIndex);
    var v := ValidateIndex(note);
    match v
    case NotFound => r := NotFound;
    case Unauthorized => r := Unauthorized;
    case Ok(_) =>
      var _ := dm.DeleteNote(noteIndex);
      r := Ok(());
  }
}
