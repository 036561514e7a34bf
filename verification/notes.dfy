/** The note catalogue the services read: every note with its owner, title,
    content tree and MOC flag. A MOC ("map of content") is a note flagged `isMOC`. */
module Notes {
  import opened Results
  import opened WikiLinks

  type NoteId = string
  type UserId = string

  datatype Note = Note(userId: UserId, title: string, content: Node, source: Option<string>, isMoc: bool)

  /** The `note` table, keyed by id. */
  type Catalog = map<NoteId, Note>

  /** `findFirst({ where: { id, userId } })` finds a row. */
  predicate OwnedBy(notes: Catalog, id: NoteId, u: UserId) {
    id in notes && notes[id].userId == u
  }

  /** Lower-casing of one character: ASCII and Latin-1 capitals. */
  function LowerChar(c: char): (l: char)
    ensures 'A' <= c <= 'Z' ==> l as int == c as int + 32
    ensures !('A' <= c <= 'Z') && !('\U{00C0}' <= c <= '\U{00DE}') ==> l == c
  {
    if 'A' <= c <= 'Z' || ('\U{00C0}' <= c <= '\U{00DE}' && c != '\U{00D7}') then
      (c as int + 32) as char
    else
      c
  }

  /** `toLowerCase`, and the folding used by case-insensitive title comparison. */
  function Lower(s: string): (r: string)
    ensures |r| == |s|
  {
    seq(|s|, k requires 0 <= k < |s| => LowerChar(s[k]))
  }
}
