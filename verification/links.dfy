/** Wiki-link extraction from a note's content and the replace-all
    synchronisation of the note's outgoing links. */
module Links {
  import opened Results
  import opened Seqs
  import opened WikiLinks
  import opened Notes

  /** A row of the `noteLink` table. */
  datatype NoteLink = NoteLink(source: NoteId, target: NoteId)

  /** Every capture of the tree, trimmed, in walk order. */
  function TrimmedCaptures(content: Node): (ts: seq<string>)
    ensures |ts| == |TreeCaptures(content)|
    ensures forall i :: 0 <= i < |ts| ==> ts[i] == Trim(TreeCaptures(content)[i])
  {
    var cs := TreeCaptures(content);
    seq(|cs|, i requires 0 <= i < |cs| => Trim(cs[i]))
  }

  /** `extractLinksFromContent`: the trimmed titles inside `[[...]]` in the
      text nodes, without repetition, in order of first occurrence. */
  function ExtractLinksFromContent(content: Node): (titles: seq<string>)
    ensures Distinct(titles)
    ensures forall t :: t in titles <==> t in TrimmedCaptures(content)
    ensures forall i, j :: 0 <= i < j < |titles| ==>
      FirstIndex(TrimmedCaptures(content), titles[i]) < FirstIndex(TrimmedCaptures(content), titles[j])
  {
    DedupFirstOccurrenceOrder(TrimmedCaptures(content));
    Dedup(TrimmedCaptures(content))
  }

  /** For a paragraph built from plain runs and links whose titles carry no
      surrounding white space, extraction is the de-duplicated list of titles. */
  lemma ExtractOfRender(ps: seq<Piece>)
    requires forall k :: 0 <= k < |ps| ==> WellFormedPiece(ps[k])
    requires forall t :: t in Titles(ps) ==> NoOuterSpace(t)
    ensures ExtractLinksFromContent(SingleParagraph(Render(ps))) == Dedup(Titles(ps))
  {
    forall t | t in Titles(ps)
      ensures Trim(t) == t
    {
      TrimNoop(t);
    }
    var doc := SingleParagraph(Render(ps));
    var ts := Titles(ps);
    CapturesOfRender(ps);
    SingleParagraphCaptures(Render(ps));
    assert TreeCaptures(doc) == ts;
    var trimmed := TrimmedCaptures(doc);
    forall i | 0 <= i < |ts|
      ensures trimmed[i] == ts[i]
    {
      assert ts[i] in ts;
    }
    assert trimmed == ts;
  }

  /** When, in addition, no title repeats, extraction gives the titles as they are. */
  lemma ExtractOfDistinctRender(ps: seq<Piece>)
    requires forall k :: 0 <= k < |ps| ==> WellFormedPiece(ps[k])
    requires forall t :: t in Titles(ps) ==> NoOuterSpace(t)
    requires Distinct(Titles(ps))
    ensures ExtractLinksFromContent(SingleParagraph(Render(ps))) == Titles(ps)
  {
    ExtractOfRender(ps);
    DedupOfDistinct(Titles(ps));
  }

  /** `Voir [[Budget]] et [[Épargne]].` as pieces. */
  function TwoLinksPieces(): seq<Piece> {
    [Plain("Voir "), Link("Budget"), Plain(" et "), Link("\U{00C9}pargne"), Plain(".")]
  }

  /** `[[Budget]] [[Budget]] [[Épargne]]` as pieces. */
  function RepeatedLinkPieces(): seq<Piece> {
    [Link("Budget"), Plain(" "), Link("Budget"), Plain(" "), Link("\U{00C9}pargne")]
  }

  /** The text the first example renders to. */
  lemma TwoLinksText()
    ensures Render(TwoLinksPieces())
         == "Voir " + ("[[" + "Budget" + "]]") + " et " + ("[[" + "\U{00C9}pargne" + "]]") + "."
  {
    var ps := TwoLinksPieces();
    assert ps[4..][1..] == [];
    assert ps[3..][1..] == ps[4..];
    assert ps[2..][1..] == ps[3..];
    assert ps[1..][1..] == ps[2..];
    assert Render(ps[4..]) == "." + "";
    assert Render(ps[3..]) == ("[[" + "\U{00C9}pargne" + "]]") + Render(ps[4..]);
    assert Render(ps[2..]) == " et " + Render(ps[3..]);
    assert Render(ps[1..]) == ("[[" + "Budget" + "]]") + Render(ps[2..]);
    assert Render(ps) == "Voir " + Render(ps[1..]);
  }

  /** The text the second example renders to. */
  lemma RepeatedLinkText()
    ensures Render(RepeatedLinkPieces())
         == ("[[" + "Budget" + "]]") + " " + ("[[" + "Budget" + "]]") + " " + ("[[" + "\U{00C9}pargne" + "]]")
  {
    var ps := RepeatedLinkPieces();
    assert ps[4..][1..] == [];
    assert ps[3..][1..] == ps[4..];
    assert ps[2..][1..] == ps[3..];
    assert ps[1..][1..] == ps[2..];
    assert Render(ps[4..]) == ("[[" + "\U{00C9}pargne" + "]]") + "";
    assert Render(ps[3..]) == " " + Render(ps[4..]);
    assert Render(ps[2..]) == ("[[" + "Budget" + "]]") + Render(ps[3..]);
    assert Render(ps[1..]) == " " + Render(ps[2..]);
    assert Render(ps) == ("[[" + "Budget" + "]]") + Render(ps[1..]);
  }

  /** The pieces of the first example are well formed and carry the two titles. */
  lemma TwoLinksTitles()
    ensures forall k :: 0 <= k < |TwoLinksPieces()| ==> WellFormedPiece(TwoLinksPieces()[k])
    ensures Titles(TwoLinksPieces()) == ["Budget", "\U{00C9}pargne"]
  {
    var ps := TwoLinksPieces();
    assert ps[4..][1..] == [];
    assert ps[3..][1..] == ps[4..];
    assert ps[2..][1..] == ps[3..];
    assert ps[1..][1..] == ps[2..];
  }

  /** The pieces of the second example are well formed and carry the three titles. */
  lemma RepeatedLinkTitles()
    ensures forall k :: 0 <= k < |RepeatedLinkPieces()| ==> WellFormedPiece(RepeatedLinkPieces()[k])
    ensures Titles(RepeatedLinkPieces()) == ["Budget", "Budget", "\U{00C9}pargne"]
  {
    var ps := RepeatedLinkPieces();
    assert ps[4..][1..] == [];
    assert ps[3..][1..] == ps[4..];
    assert ps[2..][1..] == ps[3..];
    assert ps[1..][1..] == ps[2..];
  }

  /** Two distinct links in running text come out in order: the paragraph is
      the text of `TwoLinksText`. */
  lemma ExtractTwoLinks()
    ensures ExtractLinksFromContent(SingleParagraph(Render(TwoLinksPieces()))) == ["Budget", "\U{00C9}pargne"]
  {
    TwoLinksTitles();
    assert Distinct(Titles(TwoLinksPieces())) by {
      assert "Budget"[0] != "\U{00C9}pargne"[0];
    }
    ExtractOfDistinctRender(TwoLinksPieces());
  }

  /** The repeated title of the second example is kept once. */
  lemma RepeatedTitlesDedup()
    ensures Dedup(Titles(RepeatedLinkPieces())) == ["Budget", "\U{00C9}pargne"]
  {
    RepeatedLinkTitles();
    var ts := Titles(RepeatedLinkPieces());
    assert ts[0] != ts[2] by {
      assert ts[0][0] != ts[2][0];
    }
    assert ts == [ts[0], ts[0], ts[2]];
    DedupRepeatedFirst(ts[0], ts[2]);
    DedupPair(ts[0], ts[2]);
  }

  /** A repeated mention is reported once, at its first position: the
      paragraph is the text of `RepeatedLinkText`. */
  lemma ExtractRepeatedLink()
    ensures ExtractLinksFromContent(SingleParagraph(Render(RepeatedLinkPieces()))) == ["Budget", "\U{00C9}pargne"]
  {
    RepeatedLinkTitles();
    ExtractOfRender(RepeatedLinkPieces());
    RepeatedTitlesDedup();
  }

  /** Text without brackets holds no link. */
  lemma ExtractNoLinks()
    ensures ExtractLinksFromContent(SingleParagraph("No links here.")) == []
  {
    NoBracketNoLinks("No links here.");
    SingleParagraphCaptures("No links here.");
    assert TrimmedCaptures(SingleParagraph("No links here.")) == [];
  }

  // ---------------------------------------------------------------------------
  // syncNoteLinks

  /** The notes `findMany` returns: the user's notes whose title equals one of
      the extracted titles, ignoring case. */
  function MatchedNotes(notes: Catalog, u: UserId, titles: seq<string>): set<NoteId> {
    set id | id in notes && notes[id].userId == u &&
      exists i :: 0 <= i < |titles| && Lower(notes[id].title) == Lower(titles[i])
  }

  /** True when some matched note's title equals `t`, ignoring case. */
  predicate HasMatch(notes: Catalog, matched: set<NoteId>, t: string) {
    exists id :: id in matched && id in notes && Lower(notes[id].title) == Lower(t)
  }

  /** What `syncNoteLinks` returns. The store hands back the matched notes in
      no specified order, so `linkedTitles` maps each matched note to its
      title; `notFound` is absent on the early return for a link-less note. */
  datatype SyncResult = SyncResult(
    linksCreated: nat,
    linkedTitles: map<NoteId, string>,
    notFound: Option<seq<string>>)

  datatype Sync = Sync(links: set<NoteLink>, result: SyncResult)

  /** The links that survive `deleteMany({sourceId: noteId})`. */
  function KeptLinks(links: set<NoteLink>, noteId: NoteId): (k: set<NoteLink>)
    ensures forall l :: l in k <==> l in links && l.source != noteId
  {
    set l | l in links && l.source != noteId
  }

  /** The links `createMany` adds: one from `noteId` to each matched note. */
  function LinksTo(noteId: NoteId, matched: set<NoteId>): (c: set<NoteLink>)
    ensures forall l :: l in c <==> l.source == noteId && l.target in matched
  {
    set id | id in matched :: NoteLink(noteId, id)
  }

  /** Each matched note's title, keyed by its identifier. */
  function TitlesOf(notes: Catalog, matched: set<NoteId>): (m: map<NoteId, string>)
    requires matched <= notes.Keys
    ensures m.Keys == matched
    ensures forall id :: id in matched ==> m[id] == notes[id].title
  {
    map id | id in matched :: notes[id].title
  }

  /** `syncNoteLinks`: drop every link out of `noteId`, then link it to each
      matched note. */
  function SyncNoteLinks(notes: Catalog, links: set<NoteLink>, u: UserId, noteId: NoteId, content: Node)
    : (s: Sync)
    ensures forall l :: l in links && l.source != noteId ==> l in s.links
    ensures forall l :: l in s.links && l.source != noteId ==> l in links
    ensures var titles := ExtractLinksFromContent(content);
      forall t :: NoteLink(noteId, t) in s.links <==> t in MatchedNotes(notes, u, titles)
    ensures var titles := ExtractLinksFromContent(content);
      titles == [] ==> s.result == SyncResult(0, map[], None)
    ensures var titles := ExtractLinksFromContent(content);
      var matched := MatchedNotes(notes, u, titles);
      titles != [] ==>
        && s.result.linksCreated == |matched|
        && s.result.linkedTitles.Keys == matched
        && (forall id :: id in matched ==> s.result.linkedTitles[id] == notes[id].title)
        && s.result.notFound.Some?
        && (forall t :: t in s.result.notFound.value <==> t in titles && !HasMatch(notes, matched, t))
  {
    var titles := ExtractLinksFromContent(content);
    var kept := KeptLinks(links, noteId);
    if titles == [] then
      Sync(kept, SyncResult(0, map[], None))
    else
      var matched := MatchedNotes(notes, u, titles);
      var notFound := Filter(titles, t => !HasMatch(notes, matched, t));
      Sync(kept + LinksTo(noteId, matched), SyncResult(|matched|, TitlesOf(notes, matched), Some(notFound)))
  }

  /** A title is reported as not found exactly when none of the user's notes
      carries it, ignoring case. */
  lemma NotFoundMeansNoSuchNote(notes: Catalog, links: set<NoteLink>, u: UserId, noteId: NoteId, content: Node, t: string)
    ensures var nf := SyncNoteLinks(notes, links, u, noteId, content).result.notFound;
      nf.Some? ==>
        (t in nf.value <==> (t in ExtractLinksFromContent(content) &&
          forall id :: id in notes && notes[id].userId == u ==> Lower(notes[id].title) != Lower(t)))
  {
    var titles := ExtractLinksFromContent(content);
    var matched := MatchedNotes(notes, u, titles);
    if t in titles {
      var i :| 0 <= i < |titles| && titles[i] == t;
      forall id | id in notes && notes[id].userId == u && Lower(notes[id].title) == Lower(t)
        ensures id in matched
      {
      }
    }
  }

  /** `notFound` lists the unmatched titles in their order of first appearance. */
  lemma NotFoundKeepsOrder(notes: Catalog, links: set<NoteLink>, u: UserId, noteId: NoteId, content: Node)
    ensures var titles := ExtractLinksFromContent(content);
      var matched := MatchedNotes(notes, u, titles);
      var nf := SyncNoteLinks(notes, links, u, noteId, content).result.notFound;
      nf.Some? ==> nf.value == Filter(titles, t => !HasMatch(notes, matched, t)) && Distinct(nf.value)
  {
    var titles := ExtractLinksFromContent(content);
    FilterDistinct(titles, t => !HasMatch(notes, MatchedNotes(notes, u, titles), t));
  }

  /** Synchronising is idempotent: running it again on the same content
      leaves the links as the first run left them and reports the same. */
  lemma SyncIdempotent(notes: Catalog, links: set<NoteLink>, u: UserId, noteId: NoteId, content: Node)
    ensures var first := SyncNoteLinks(notes, links, u, noteId, content);
      SyncNoteLinks(notes, first.links, u, noteId, content) == first
  {
    var first := SyncNoteLinks(notes, links, u, noteId, content);
    var second := SyncNoteLinks(notes, first.links, u, noteId, content);
    assert second.links == first.links;
  }

  /** The outgoing links after a sync depend only on the content, not on the links before it. */
  lemma SyncReplacesAll(notes: Catalog, links1: set<NoteLink>, links2: set<NoteLink>, u: UserId, noteId: NoteId, content: Node)
    ensures var s1 := SyncNoteLinks(notes, links1, u, noteId, content);
      var s2 := SyncNoteLinks(notes, links2, u, noteId, content);
      && s1.result == s2.result
      && (forall t :: NoteLink(noteId, t) in s1.links <==> NoteLink(noteId, t) in s2.links)
  {
  }
}
