/**
 * The record shapes of the notes service: the request body `Note`, the
 * stored note (a note stamped with its owner), the `NoteResponse` a client
 * receives, and the two keys a listing can be sorted by. The store and the
 * handlers exchange plain dictionaries; `Dict` models one, so that the
 * dictionary merge that builds a response can be stated as Python defines it.
 */
module Models {
  import opened Wrappers

  /** A request body: a title and a content, nothing else. */
  datatype Note = Note(title: string, content: string)

  /** What the store holds: the three keys `title`, `content` and `owner`. */
  datatype StoredNote = StoredNote(title: string, content: string, owner: string)

  /** A note as returned to a client; `index` and `owner` are optional in the schema. */
  datatype NoteResponse = NoteResponse(title: string, content: string, index: Option<int>, owner: Option<string>)

  /** The fields a listing may be sorted by. */
  datatype SortKey = Title | Content

  /** The title and content of a stored note, without its owner. */
  function AsNote(s: StoredNote): Note
  {
    Note(s.title, s.content)
  }

  /** `x[sortkey]`: the field a sort key selects. */
  function KeyOf(n: NoteResponse, key: SortKey): string
  {
    match key
    case Title => n.title
    case Content => n.content
  }

  /** A value held in a dictionary; `Null` is Python's `None`. */
  datatype Value = Str(s: string) | Int(i: int) | Null

  type Dict = map<string, Value>

  /** `d.get(key)`: the value under `key`, or `None` when the key is absent. */
  function Get(d: Dict, key: string): (v: Value)
    ensures key !in d ==> v == Null
    ensures key in d ==> v == d[key]
  {
    if key in d then d[key] else Null
  }

  /** The dictionary a stored note is. */
  function StoredDict(n: StoredNote): Dict
  {
    map["title" := Str(n.title), "content" := Str(n.content), "owner" := Str(n.owner)]
  }

  /** The dictionary a response is; an absent optional field is an absent key. */
  function ResponseDict(r: NoteResponse): Dict
  {
    var d := map["title" := Str(r.title), "content" := Str(r.content)];
    var d := if r.index.Some? then d["index" := Int(r.index.value)] else d;
    if r.owner.Some? then d["owner" := Str(r.owner.value)] else d
  }
}
