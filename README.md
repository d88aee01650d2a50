# Notes service: in-memory note store and request rules

This project models the core of a small note-taking web service: the
in-memory store that keeps the notes, and the request handlers that stamp the
caller as owner, check ownership, and list, paginate and sort the caller's
notes.

- `PythonList` (python_list.dfy) gives the Python list semantics the store
  relies on. An index `i` is accepted when `-len <= i < len`, and a negative
  index counts from the end. `pop(i)` moves every later element down one
  position. A slice `s[first:last]` has optional bounds that may be negative
  or out of range and are clamped.
- `Models` (models.dfy) mirrors the pydantic shapes `Note`, `NoteResponse` and
  `NoteSortingKeys`. It adds the stored note, which is a note plus its
  `owner`. It also has a small dictionary model (`Dict`, `Get`) so that
  `{'index': i} | note` and `item.get(key)` can be stated as Python defines
  them.
- `DataManagers` (data_manager.dfy) has the two store classes.
  `NoteDataManager` keeps a `seq<StoredNote>` that its methods reassign;
  deleting pops the slot. `ListDataManager` keeps a `seq<Entry?>` of `Entry`
  objects, whose `id` field the store overwrites in place; deleting writes
  `null`, the model of Python's `None`. Failures are sentinels: `None`
  becomes `Option.None` or `null`, and `False` becomes `Option.None` or
  `false`.
- `Sorting` (sorting.dfy) models `list.sort(key=..., reverse=...)` on the
  listing. Strings compare by code point, lexicographically. The sort is
  proved ordered, a permutation of its input, and stable in both directions.
- `App` (app.dfy) has the handlers over one explicitly constructed
  `NoteDataManager`. HTTP outcomes are the datatype
  `Reply = Ok(value) | NotFound | Unauthorized`, where `NotFound` is 404 and
  `Unauthorized` is 401. `get_current_user` always returns `"current_user"`
  and is the constant `App.CurrentUser`.

Points where the code's behaviour is easy to misread:

- The store echoes the caller's raw index. `GET /notes/-1` returns the last
  note, tagged with index `-1`, if the caller owns it. Only indices below
  `-len` or at or above `len` are "not found".
- `delete_note` pops the slot, so every later note's index drops by one
  (`DataManagers.NoteDataManager.DeleteNote`). `ListDataManager` instead
  keeps ids equal to positions (`DataManagers.ListDataManager.DeleteEntry`).
- With `reverse=True`, Python's sort keeps equal keys in their original
  order. So a descending sort is not the reverse of the ascending sort when
  keys tie; `Sorting.TiesKeepOrderInBothDirections` gives two notes for
  which both directions return the same list.
- `_write_entry` keeps ids equal to positions only when the entry is not
  already in the list. Writing the same object twice re-stamps its id and
  breaks the earlier slot (`DataManagers.ListDataManager.WriteEntry` states
  this as an if-and-only-if).

## Model

| member | source | states |
|---|---|---|
| `PythonList.InRange` | app/data_manager.py:30-34 | the condition under which subscripting does not raise `IndexError`: `-len <= i < len`; the same condition decides the outcome at lines 42-47, 50-55, 78-82, 91-96 and 99-105 |
| `PythonList.Normalize` | app/data_manager.py:30-34 | an accepted index addresses a position below the length: itself when non-negative, counted from the end when negative |
| `PythonList.NormalizeOnto` | app/data_manager.py:30-34 | each position is addressed by exactly two indices, `p` and `p - len` |
| `PythonList.RemoveAt` | app/data_manager.py:50-55 | `pop(p)` shortens the list by one, keeps every earlier element and moves every later one down one position |
| `PythonList.RemoveAtMultiset` | app/data_manager.py:50-55 | `pop(p)` removes exactly the popped element from the list's multiset |
| `PythonList.SliceBound` | app/app.py:70 | an absent bound is its default, a negative bound counts from the end, and an out-of-range bound clamps to 0 or to the length |
| `PythonList.Slice` | app/app.py:70 | `s[first:last]` is the contiguous run between the resolved bounds, empty when start is not before stop, and never longer than `s` |
| `PythonList.SliceAll` | app/app.py:70 | with no bounds the page is the whole list |
| `PythonList.SliceWithin` | app/app.py:70 | in-range bounds `first <= last` select exactly the positions `first` up to, not including, `last` |
| `PythonList.SliceSplit` | app/app.py:70 | `s[:k] + s[k:] == s` for every integer `k`, so pages split the listing without loss or overlap |
| `Models.Get` | app/data_manager.py:71-75 | `d.get(key)` is the stored value when the key is present, and `None` otherwise |
| `DataManagers.MergeIndex` | app/data_manager.py:18-19 | the merge of `{'index': i}` with the note has every key of the note plus `index`, the note's value wins on a clash, and `index` is `i` otherwise |
| `DataManagers.ResponseTemplate` | app/data_manager.py:18-19 | the typed response: the note's title and content, `index` the given index as passed, `owner` the stored owner |
| `DataManagers.ResponseTemplateIsMerge` | app/data_manager.py:18-19 | the typed response template equals the dictionary merge applied to a stored note |
| `DataManagers.NotesByUser` | app/data_manager.py:22-27 | the reference listing the scan is proved equal to: the user's notes tagged with their positions, never longer than the store |
| `DataManagers.OwnedPositionsExact` | app/data_manager.py:22-27 | the owned positions are exactly the positions whose owner is the user, each once, strictly increasing |
| `DataManagers.NotesByUserTagged` | app/data_manager.py:22-27 | entry `k` of a user's listing is the note at the `k`-th owned position, tagged with that position |
| `DataManagers.NotesByUserOwned` | app/data_manager.py:22-27 | every note in a user's listing is owned by that user |
| `DataManagers.NoteDataManager.constructor` | app/data_manager.py:14-15 | a new store is empty |
| `DataManagers.NoteDataManager.GetNotesByUser` | app/data_manager.py:22-27 | the scan returns the user's listing: owned notes in list order, each tagged with its position |
| `DataManagers.NoteDataManager.GetNote` | app/data_manager.py:30-34 | a note is returned exactly when `-len <= index < len`; it is the note at the addressed position, tagged with the raw index |
| `DataManagers.NoteDataManager.AddNote` | app/data_manager.py:37-39 | the list grows by exactly the new note at its end, and the note comes back tagged with the old length |
| `DataManagers.NoteDataManager.UpdateNote` | app/data_manager.py:42-47 | on an accepted index only the addressed slot is replaced and the new note comes back tagged with the raw index; otherwise `False` and no change |
| `DataManagers.NoteDataManager.DeleteNote` | app/data_manager.py:50-55 | `True` exactly on an accepted index, with the addressed note popped; otherwise `False` and no change |
| `DataManagers.ListDataManager.constructor` | app/data_manager.py:66-68 | a new store is empty |
| `DataManagers.ListDataManager.ReadEntryByKey` | app/data_manager.py:71-75 | returns the first dictionary whose `get(key)` equals the value, and `None` exactly when no dictionary matches |
| `DataManagers.ListDataManager.ReadEntryByIndex` | app/data_manager.py:78-82 | the addressed slot (which may be a deleted `None`), or `None` out of range |
| `DataManagers.ListDataManager.WriteEntry` | app/data_manager.py:85-88 | the entry's id becomes the old length, the entry is appended, the id is returned and `list[id]` is the entry; ids stay positions exactly when they were before and the entry was not already listed |
| `DataManagers.ListDataManager.UpdateEntryByIndex` | app/data_manager.py:91-96 | the entry replaces the slot its id addresses, or `False` and no change when the id is out of range; a non-negative id that no other slot holds keeps ids equal to positions |
| `DataManagers.ListDataManager.DeleteEntry` | app/data_manager.py:99-105 | an accepted index has its slot set to `None`, the length and every other slot unchanged, and ids stay positions; otherwise `False` and no change |
| `DataManagers.ListDataManager.AddNote` | app/data_manager.py:108-109 | writing a note stamps and returns its id, the old length |
| `DataManagers.ListDataManager.GetNote` | app/data_manager.py:112-113 | the addressed slot, `None` when out of range or deleted |
| `DataManagers.ListDataManager.DeleteIsRepeatable` | app/data_manager.py:99-105 | deleting the same id twice gives the same answer both times, and reading the id afterwards gives `None`; the list then equals the original with the addressed slot set to `None` in range, and is unchanged otherwise |
| `Models.KeyOf` | app/app.py:69 | the sort key `x[sortkey]`: the title for `title`, the content for `content` |
| `Sorting.LexLe` | app/app.py:69 | Python's string `<=`, by code point; a prefix is at most each of its extensions, and no string is at most one of its proper prefixes |
| `Sorting.LexLeReflexive` | app/app.py:69 | string comparison is reflexive |
| `Sorting.LexLeTotal` | app/app.py:69 | any two strings are comparable |
| `Sorting.LexLeTransitive` | app/app.py:69 | string comparison is transitive |
| `Sorting.LexLeAntisymmetric` | app/app.py:69 | strings each at most the other are equal |
| `Sorting.Insert` | app/app.py:69 | inserting into a sorted list keeps it sorted, adds exactly the one note, and puts it after every note of equal key |
| `Sorting.SortBy` | app/app.py:69 | the sorted listing is ordered by the key (descending with `reverse`), is a permutation of its input, and keeps each key value's notes in input order |
| `Sorting.SortByTiesByIndex` | app/app.py:69 | on a list with increasing indices, notes with equal keys come out in increasing index order, in both directions |
| `Sorting.TiesKeepOrderInBothDirections` | app/app.py:69 | two notes with equal titles come out in store order both ascending and descending |
| `App.CurrentUser` | app/app.py:35-36 | the caller is always `"current_user"` |
| `App.AddOwnerToNote` | app/app.py:39-42 | the stamped note has the request's title and content and the caller as owner, whatever the request |
| `App.AddOwnerToNoteInverse` | app/app.py:39-42 | stamping a stored note's title and content gives that note back exactly when the caller owns it |
| `App.ValidateIndex` | app/app.py:45-49 | NotFound exactly for a missing note, Unauthorized exactly for a present note whose owner is not the caller, else the note passes |
| `App.GetNote` | app/app.py:52-57 | NotFound exactly out of range, Unauthorized exactly for another user's note, otherwise the addressed note tagged with the raw index; the store is not changed |
| `App.GetAllNotes` | app/app.py:60-70 | the page `[first:last]` of the caller's notes, in store order or sorted by the key; never longer than the caller's listing, and every note on it is the caller's |
| `App.SortedListing` | app/app.py:67-70 | with a sort key, the pre-page listing is a permutation of the caller's notes, ordered by the key in the requested direction, with equal keys in store order |
| `App.AddNote` | app/app.py:73-76 | the store gains the note, owned by the caller, at its end, and the reply carries the old store length as index |
| `App.RemoveNote` | app/app.py:88-93 | the note is popped only when it exists and the caller owns it; NotFound or Unauthorized otherwise, with the store unchanged |

## Left out

- The `DataManager` class (app/data_manager.py:116-158): CSV file I/O, whose write, update and delete are empty stubs.
- The singleton `__new__` of the three managers, and the reset of the list when `__init__` runs again: the model constructs one store explicitly.
- FastAPI wiring: route decorators, the OAuth2 bearer-token dependency, `async`, `HTTPException` and status codes. These become the `Reply` datatype, and the caller is the constant `CurrentUser`.
- The `PUT /notes/{note_index}` handler (app/app.py:79-85). It rebinds `note` to the stored dictionary, dropping the request body, and then calls `model_dump()` on a plain dictionary, which raises. The store's `update_note` is modelled instead (`DataManagers.NoteDataManager.UpdateNote`).
- `ListDataManager._users` (never used), and interleaving of requests: the model is sequential, so the check-then-act of the handlers cannot race.
- pydantic validation of request bodies: `Note` values are well-formed by construction.
- DataManagers.ListDataManager.ReadEntryByKey: modelled on a list of dictionaries, as `item.get` requires. The store's own list holds entry objects and `None`, on which `get` would raise.
- DataManagers.ListDataManager.WriteEntry: the entry is a class with an `id` field. A pydantic `Note`, as the type hint names it, has no `id` field and would refuse the assignment.
- DataManagers.NoteDataManager.DeleteNote: the model accepts every integer index. CPython's `list.pop` first converts the index to a machine word and raises `OverflowError` when `index < -2^63` or `index >= 2^63` (on a 64-bit build); `except IndexError` (app/data_manager.py:54) does not catch it, so `delete_note` raises instead of returning `False`. Subscripting and slot assignment raise `IndexError` for such values, so `GetNote`, `UpdateNote` and `DeleteEntry` are unaffected, and `App.RemoveNote` never reaches `pop` with such an index because `get_note` rejects it first.
- The list helpers of `ListDataManager` take the list as a parameter; every caller passes the store's own list, so the model's methods act on that list, except `ReadEntryByKey`, which takes its list of dictionaries as a parameter.
- `Sorting.SortBy`: CPython's sort algorithm (Timsort) is not modelled; the model is an insertion sort with the same documented result (ordered, a permutation, stable, also with `reverse=True`).
