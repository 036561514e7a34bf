/** Maps of content: the untrimmed link walk, the per-MOC note count, MOC
    creation, and membership of notes in a MOC as a set of (MOC, note) pairs. */
module Mocs {
  import opened Results
  import opened Seqs
  import opened WikiLinks
  import opened Notes
  import Links

  // ---------------------------------------------------------------------------
  // extractNoteLinks

  /** `traverse(node)` with `links` as the accumulator: a text node pushes each
      capture it does not already hold, scanning its text from the start,
      then the children are visited in array order. */
  function WalkNode(n: Node, acc: seq<string>): (r: seq<string>)
    ensures |acc| <= |r| && r[..|acc|] == acc
    ensures Distinct(acc) ==> Distinct(r)
    decreases n, 1
  {
    WalkForest(n.content, if IsTextNode(n) then AppendNew(acc, Captures(n.text)) else acc)
  }

  /** `node.content.forEach(traverse)`. */
  function WalkForest(ns: seq<Node>, acc: seq<string>): (r: seq<string>)
    ensures |acc| <= |r| && r[..|acc|] == acc
    ensures Distinct(acc) ==> Distinct(r)
    decreases ns, 0
  {
    if ns == [] then acc else WalkForest(ns[1..], WalkNode(ns[0], acc))
  }

  /** The walk adds the captures of the whole tree, in pre-order, each once. */
  lemma {:induction false} WalkNodeAppends(n: Node, acc: seq<string>)
    ensures WalkNode(n, acc) == AppendNew(acc, TreeCaptures(n))
    decreases n, 1
  {
    var own := if IsTextNode(n) then AppendNew(acc, Captures(n.text)) else acc;
    WalkForestAppends(n.content, own);
    AppendNewConcat(acc, OwnCaptures(n), ForestCaptures(n.content));
    if !IsTextNode(n) {
      assert OwnCaptures(n) == [];
    }
  }

  lemma {:induction false} WalkForestAppends(ns: seq<Node>, acc: seq<string>)
    ensures WalkForest(ns, acc) == AppendNew(acc, ForestCaptures(ns))
    decreases ns, 0
  {
    if ns != [] {
      WalkNodeAppends(ns[0], acc);
      WalkForestAppends(ns[1..], WalkNode(ns[0], acc));
      AppendNewConcat(acc, TreeCaptures(ns[0]), ForestCaptures(ns[1..]));
    }
  }

  /** `extractNoteLinks`: the captures of `[[...]]` in the text nodes, not
      trimmed, without repetition. */
  function ExtractNoteLinks(content: Node): (links: seq<string>)
    ensures Distinct(links)
    ensures forall t :: t in links <==> t in TreeCaptures(content)
    ensures forall t :: t in links ==> |t| > 0 && ']' !in t
  {
    WalkNodeAppends(content, []);
    WalkNode(content, [])
  }

  /** The walk is the first-occurrence de-duplication of all captures, so the
      links come in the order they first appear. */
  lemma ExtractNoteLinksIsDedup(content: Node)
    ensures ExtractNoteLinks(content) == Dedup(TreeCaptures(content))
    ensures forall i, j :: 0 <= i < j < |ExtractNoteLinks(content)| ==>
      FirstIndex(TreeCaptures(content), ExtractNoteLinks(content)[i])
        < FirstIndex(TreeCaptures(content), ExtractNoteLinks(content)[j])
  {
    WalkNodeAppends(content, []);
    DedupFirstOccurrenceOrder(TreeCaptures(content));
  }

  /** Every text node is scanned from its own start, whatever the nodes before
      it held: a second paragraph contributes its links after the first's. */
  lemma TwoParagraphsScannedIndependently(a: Node, b: Node)
    ensures ExtractNoteLinks(Node("doc", "", [a, b])) == AppendNew(AppendNew([], TreeCaptures(a)), TreeCaptures(b))
  {
    var doc := Node("doc", "", [a, b]);
    WalkNodeAppends(doc, []);
    assert [a, b][1..] == [b];
    assert ForestCaptures([b]) == TreeCaptures(b) by {
      assert [b][1..] == [];
    }
    assert TreeCaptures(doc) == TreeCaptures(a) + TreeCaptures(b);
    AppendNewConcat([], TreeCaptures(a), TreeCaptures(b));
  }

  /** When no capture carries surrounding white space, the MOC walk and the
      note-link extractor agree. */
  lemma ExtractorsAgreeWithoutPadding(content: Node)
    requires forall c :: c in TreeCaptures(content) ==> Trim(c) == c
    ensures ExtractNoteLinks(content) == Links.ExtractLinksFromContent(content)
  {
    var cs := TreeCaptures(content);
    var ts := Links.TrimmedCaptures(content);
    forall i | 0 <= i < |cs|
      ensures ts[i] == cs[i]
    {
      assert cs[i] in cs;
    }
    assert ts == cs;
    WalkNodeAppends(content, []);
  }

  // ---------------------------------------------------------------------------
  // noteCount in findAll

  datatype NoteCount = NoteCount(total: nat, created: nat, pending: int)

  /** Some non-MOC note of the user carries exactly this title. */
  predicate ExistsNote(notes: Catalog, u: UserId, title: string) {
    exists id :: id in notes && notes[id].userId == u && !notes[id].isMoc && notes[id].title == title
  }

  /** The `noteCount` of a MOC whose content is `content`. */
  function CountNotes(notes: Catalog, u: UserId, content: Node): (c: NoteCount)
    ensures c.total == |ExtractNoteLinks(content)|
    ensures c.created + c.pending == c.total
    ensures 0 <= c.created <= c.total
    ensures ExtractNoteLinks(content) == [] ==> c == NoteCount(0, 0, 0)
  {
    var links := ExtractNoteLinks(content);
    if |links| == 0 then
      NoteCount(0, 0, 0)
    else
      var existing := set id | id in notes && notes[id].userId == u && notes[id].title in links && !notes[id].isMoc
        :: notes[id].title;
      var created := |Filter(links, t => t in existing)|;
      NoteCount(|links|, created, |links| - created)
  }

  /** `created` counts the links, in order and with their multiplicity in
      the list, that name an existing non-MOC note of the user. */
  lemma CreatedIsFilter(notes: Catalog, u: UserId, content: Node)
    ensures var links := ExtractNoteLinks(content);
      CountNotes(notes, u, content).created == |Filter(links, t => ExistsNote(notes, u, t))|
  {
    var links := ExtractNoteLinks(content);
    if |links| != 0 {
      var existing := set id | id in notes && notes[id].userId == u && notes[id].title in links && !notes[id].isMoc
        :: notes[id].title;
      var p := t => t in existing;
      var q := t => ExistsNote(notes, u, t);
      forall i | 0 <= i < |links|
        ensures p(links[i]) == q(links[i])
      {
        var t := links[i];
        if ExistsNote(notes, u, t) {
          var id :| id in notes && notes[id].userId == u && !notes[id].isMoc && notes[id].title == t;
          assert notes[id].title in existing;
        }
      }
      FilterCongruent(links, p, q);
    }
  }

  /** `created` is the number of distinct linked titles that name an existing
      non-MOC note of the user, compared exactly. */
  lemma CreatedCountsExistingTitles(notes: Catalog, u: UserId, content: Node)
    ensures var links := ExtractNoteLinks(content);
      CountNotes(notes, u, content).created
        == |(set t | t in links && ExistsNote(notes, u, t))|
  {
    var links := ExtractNoteLinks(content);
    var q := t => ExistsNote(notes, u, t);
    CreatedIsFilter(notes, u, content);
    var kept := Filter(links, q);
    FilterDistinct(links, q);
    DistinctCard(kept);
    assert (set x | x in kept) == (set t | t in links && ExistsNote(notes, u, t));
  }

  /** Every link is counted as created exactly when each names an existing note. */
  lemma AllCreatedIffAllExist(notes: Catalog, u: UserId, content: Node)
    ensures var c := CountNotes(notes, u, content);
      c.created == c.total <==> forall t :: t in ExtractNoteLinks(content) ==> ExistsNote(notes, u, t)
    ensures var c := CountNotes(notes, u, content);
      c.pending == 0 <==> forall t :: t in ExtractNoteLinks(content) ==> ExistsNote(notes, u, t)
  {
    var links := ExtractNoteLinks(content);
    CreatedIsFilter(notes, u, content);
    FilterKeepsAll(links, t => ExistsNote(notes, u, t));
  }

  /** Creating more notes never lowers the `created` count of a MOC. */
  lemma CreatedMonotone(notes: Catalog, more: Catalog, u: UserId, content: Node)
    requires forall id :: id in notes ==> id in more && more[id] == notes[id]
    ensures CountNotes(notes, u, content).created <= CountNotes(more, u, content).created
  {
    var links := ExtractNoteLinks(content);
    CreatedIsFilter(notes, u, content);
    CreatedIsFilter(more, u, content);
    forall i | 0 <= i < |links| && ExistsNote(notes, u, links[i])
      ensures ExistsNote(more, u, links[i])
    {
      var id :| id in notes && notes[id].userId == u && !notes[id].isMoc && notes[id].title == links[i];
      assert id in more && more[id] == notes[id];
    }
    FilterMonotone(links, t => ExistsNote(notes, u, t), t => ExistsNote(more, u, t));
  }

  /** A MOC of the user. */
  predicate IsUsersMoc(notes: Catalog, u: UserId, id: NoteId) {
    id in notes && notes[id].userId == u && notes[id].isMoc
  }

  /** `findAll`: the user's MOCs, each with its note count. */
  function FindAll(notes: Catalog, u: UserId): (r: map<NoteId, NoteCount>)
    ensures forall id :: id in r <==> IsUsersMoc(notes, u, id)
    ensures forall id :: id in r ==> id in notes && r[id] == CountNotes(notes, u, notes[id].content)
  {
    map id | id in notes && notes[id].userId == u && notes[id].isMoc :: CountNotes(notes, u, notes[id].content)
  }

  // ---------------------------------------------------------------------------
  // create and findOne

  /** The document a new MOC starts with: `{type: 'doc', content: []}`. */
  const EmptyDoc: Node := Node("doc", "", [])

  /** `create`: a new note flagged as a MOC, with an empty document when no
      content is given. `newId` stands for the identifier the store assigns. */
  function Create(notes: Catalog, newId: NoteId, u: UserId, title: string, content: Option<Node>, source: Option<string>)
    : (r: Catalog)
    requires newId !in notes
    ensures newId in r && r[newId].isMoc && r[newId].userId == u && r[newId].title == title
    ensures r[newId].source == source
    ensures content.None? ==> r[newId].content == EmptyDoc
    ensures content.Some? ==> r[newId].content == content.value
    ensures forall id :: id in notes ==> id in r && r[id] == notes[id]
    ensures r.Keys == notes.Keys + {newId}
  {
    notes[newId := Note(u, title, content.GetOr(EmptyDoc), source, true)]
  }

  /** A row of the `noteMOC` table. */
  datatype MocNote = MocNote(mocId: NoteId, noteId: NoteId)

  type Membership = set<MocNote>

  /** What `findOne` returns: the MOC and the ids of the notes it holds. */
  datatype MocView = MocView(moc: Note, noteIds: set<NoteId>)

  /** `findOne`: the user's MOC with its notes, or NotFound. */
  function FindOne(notes: Catalog, rel: Membership, u: UserId, id: NoteId): (r: Result<MocView>)
    ensures r.Err? <==> !IsUsersMoc(notes, u, id)
    ensures r.Err? ==> r.error == NotFound
    ensures r.Ok? ==> r.value.moc == notes[id]
    ensures r.Ok? ==> forall n :: n in r.value.noteIds <==> MocNote(id, n) in rel
  {
    if !IsUsersMoc(notes, u, id) then Err(NotFound)
    else Ok(MocView(notes[id], set m | m in rel && m.mocId == id :: m.noteId))
  }

  /** A freshly created MOC is found, holds no notes, and counts no links. */
  lemma CreateThenFindOne(notes: Catalog, rel: Membership, newId: NoteId, u: UserId, title: string, source: Option<string>)
    requires newId !in notes
    requires forall m :: m in rel ==> m.mocId in notes
    ensures var after := Create(notes, newId, u, title, None, source);
      && FindOne(after, rel, u, newId) == Ok(MocView(after[newId], {}))
      && newId in FindAll(after, u)
      && FindAll(after, u)[newId] == NoteCount(0, 0, 0)
  {
    var after := Create(notes, newId, u, title, None, source);
    assert (set m | m in rel && m.mocId == newId :: m.noteId) == {} by {
      forall m | m in rel
        ensures m.mocId != newId
      {
      }
    }
    assert ExtractNoteLinks(EmptyDoc) == [] by {
      WalkNodeAppends(EmptyDoc, []);
      assert TreeCaptures(EmptyDoc) == [];
    }
  }

  // ---------------------------------------------------------------------------
  // addNote and removeNote

  /** A note of the user that is not itself a MOC. */
  predicate IsUsersPlainNote(notes: Catalog, u: UserId, id: NoteId) {
    id in notes && notes[id].userId == u && !notes[id].isMoc
  }

  /** `addNote`: the MOC check, then the note check, then the duplicate check. */
  function AddNote(notes: Catalog, rel: Membership, u: UserId, mocId: NoteId, noteId: NoteId): (r: Result<Membership>)
    ensures !IsUsersMoc(notes, u, mocId) ==> r == Err(NotFound)
    ensures IsUsersMoc(notes, u, mocId) && !IsUsersPlainNote(notes, u, noteId) ==> r == Err(NotFound)
    ensures IsUsersMoc(notes, u, mocId) && IsUsersPlainNote(notes, u, noteId) && MocNote(mocId, noteId) in rel
      ==> r == Err(BadRequest)
    ensures r.Ok? <==>
      IsUsersMoc(notes, u, mocId) && IsUsersPlainNote(notes, u, noteId) && MocNote(mocId, noteId) !in rel
    ensures r.Ok? ==> r.value - rel == {MocNote(mocId, noteId)} && rel <= r.value
  {
    if FindOne(notes, rel, u, mocId).Err? then Err(NotFound)
    else if !IsUsersPlainNote(notes, u, noteId) then Err(NotFound)
    else if MocNote(mocId, noteId) in rel then Err(BadRequest)
    else Ok(rel + {MocNote(mocId, noteId)})
  }

  /** `removeNote`: the MOC check, then NotFound unless the pair is present. */
  function RemoveNote(notes: Catalog, rel: Membership, u: UserId, mocId: NoteId, noteId: NoteId): (r: Result<Membership>)
    ensures r.Err? ==> r.error == NotFound
    ensures r.Ok? <==> IsUsersMoc(notes, u, mocId) && MocNote(mocId, noteId) in rel
    ensures r.Ok? ==> rel - r.value == {MocNote(mocId, noteId)} && r.value <= rel
  {
    if FindOne(notes, rel, u, mocId).Err? then Err(NotFound)
    else if MocNote(mocId, noteId) !in rel then Err(NotFound)
    else Ok(rel - {MocNote(mocId, noteId)})
  }

  /** Adding a note and removing it again restores the membership. */
  lemma AddThenRemove(notes: Catalog, rel: Membership, u: UserId, mocId: NoteId, noteId: NoteId)
    requires AddNote(notes, rel, u, mocId, noteId).Ok?
    ensures RemoveNote(notes, AddNote(notes, rel, u, mocId, noteId).value, u, mocId, noteId) == Ok(rel)
  {
    assert rel + {MocNote(mocId, noteId)} - {MocNote(mocId, noteId)} == rel;
  }

  /** Removing a note of the user and adding it back restores the membership. */
  lemma RemoveThenAdd(notes: Catalog, rel: Membership, u: UserId, mocId: NoteId, noteId: NoteId)
    requires RemoveNote(notes, rel, u, mocId, noteId).Ok?
    requires IsUsersPlainNote(notes, u, noteId)
    ensures AddNote(notes, RemoveNote(notes, rel, u, mocId, noteId).value, u, mocId, noteId) == Ok(rel)
  {
    assert rel - {MocNote(mocId, noteId)} + {MocNote(mocId, noteId)} == rel;
  }

  /** A second identical `addNote` is refused as a duplicate. */
  lemma AddTwiceIsBadRequest(notes: Catalog, rel: Membership, u: UserId, mocId: NoteId, noteId: NoteId)
    requires AddNote(notes, rel, u, mocId, noteId).Ok?
    ensures AddNote(notes, AddNote(notes, rel, u, mocId, noteId).value, u, mocId, noteId) == Err(BadRequest)
  {
  }

  /** Every pair links a MOC to a non-MOC note of the same user. */
  predicate ValidMembership(notes: Catalog, rel: Membership) {
    forall m :: m in rel ==>
      && m.mocId in notes && notes[m.mocId].isMoc
      && m.noteId in notes && !notes[m.noteId].isMoc
      && notes[m.noteId].userId == notes[m.mocId].userId
  }

  /** `addNote` and `removeNote` keep every pair between a MOC and a plain
      note of the same user. */
  lemma MembershipTransitionsPreserveValidity(notes: Catalog, rel: Membership, u: UserId, mocId: NoteId, noteId: NoteId)
    requires ValidMembership(notes, rel)
    ensures AddNote(notes, rel, u, mocId, noteId).Ok? ==>
      ValidMembership(notes, AddNote(notes, rel, u, mocId, noteId).value)
    ensures RemoveNote(notes, rel, u, mocId, noteId).Ok? ==>
      ValidMembership(notes, RemoveNote(notes, rel, u, mocId, noteId).value)
  {
  }
}
