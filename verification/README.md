# A Dafny model of the knowledge-base core: SM-2 reviews, wiki links, MOCs and toasts

This project models the core of a personal knowledge base built on notes
written in a Tiptap editor. It covers five parts.

- **The SM-2 scheduling engine** (`Sm2`). `calculate` turns a quality score
  from 0 to 5 and the previous state (easiness, interval, repetitions) into
  the next state and a due date. The due date is midnight a whole number of
  days later. `getDueToday` gives the last millisecond of the current day.
- **The review lifecycle** (`Reviews`). A store of review records keyed by
  note id:
  - `enableReview` creates a record (idempotently);
  - `submitReview` reschedules it through the engine;
  - `disableReview` deletes it;
  - the queries list the due records and all records, soonest first, and
    compute the statistics.
- **Wiki-link extraction and synchronisation** (`WikiLinks`, `Links`).
  - The regular expression `/\[\[([^\]]+)\]\]/g` is an explicit
    left-to-right, non-overlapping scanner.
  - The Tiptap JSON tree is walked in pre-order.
  - `extractLinksFromContent` trims each capture and de-duplicates,
    keeping first occurrences.
  - `syncNoteLinks` replaces all outgoing links of one note. The target
    notes are those of the user whose titles match a link, ignoring case.
- **Maps of content** (`Mocs`). A MOC is a note flagged `isMOC`.
  - `extractNoteLinks` is the same scan without trimming, written as the
    incremental "push unless already present" walk.
  - The per-MOC `noteCount` gives total, created and pending.
  - `create` sets the MOC flag and a default document.
  - `findOne` is the MOC guard.
  - `addNote` and `removeNote` change the set of (MOC, note) pairs.
- **The toast list** (`Toasts`). `addToast` ignores a repeated
  (message, type) and otherwise appends a toast whose id comes from a
  growing counter. `removeToast` filters by id. There are four typed
  helpers.

Shared pieces:

- `Results` holds the error kinds (`InvalidArgument`, `NotFound`,
  `BadRequest`) and the `Option` and `Result` wrappers.
- `Seqs` holds duplicate-free sequences, `Filter` (order-preserving) and
  `Dedup` (first-occurrence).
- `Notes` holds the note catalogue and the case folding.

Modelling choices:

- Each service call is a pure function or method. The database is passed
  in and returned:
  - the notes as `map<NoteId, Note>`;
  - the reviews as `map<NoteId, Review>`;
  - the note links as a set of `NoteLink`;
  - the MOC membership as a set of `MocNote` pairs.
- Errors are `Result` values rather than exceptions.
- The clock is an explicit `now`, an integer number of milliseconds in the
  server's local time. A day is `now / 86400000`.
- Easiness factors are exact `real`s. `Math.round(x)` is `(x + 0.5).Floor`.

## Model

| member | source | states |
|---|---|---|
| Sm2.AddDays | backend/src/reviews/sm2.service.ts:67-72 | The result is a local midnight, exactly `days` calendar days after the day of the input. |
| Sm2.DueCutoff | backend/src/reviews/sm2.service.ts:74-78 | The cut-off lies on today's day, and one millisecond later is already tomorrow. It is therefore 23:59:59.999 today. |
| Sm2.DueIffNotAfterToday | backend/src/reviews/sm2.service.ts:74-78 | A timestamp is at or before the cut-off if and only if its day is not after today. |
| Sm2.AddDaysDue | backend/src/reviews/sm2.service.ts:67-78 | A date set `n` days after `from` is due at `now` if and only if day(from) + n ≤ day(now). |
| Sm2.Round | backend/src/reviews/sm2.service.ts:56 | `Math.round`: the result is within half a unit of x, with ties going up. |
| Sm2.NextEasiness | backend/src/reviews/sm2.service.ts:32-35 | The new easiness is at least 1.3 and never below the SM-2 formula. It is either the floor or the formula's value. |
| Sm2.Calculate | backend/src/reviews/sm2.service.ts:21-65 | It returns an error exactly when the quality is outside 0..5. Otherwise the easiness is the floored formula on both branches. A lapse (q < 3) gives interval 1 and repetitions 0. A success adds one repetition. The next review is the midnight `interval` days after today. |
| Sm2.EasinessByQuality | backend/src/reviews/sm2.service.ts:32-35 | Quality 5 adds exactly 0.1, unless the floor applies. Quality 4 keeps any easiness at or above the floor. Quality 3 or below lowers it, unless the floor applies. |
| Sm2.LapseIgnoresPriorState | backend/src/reviews/sm2.service.ts:38-45 | A lapse yields interval 1, repetitions 0 and a due date of tomorrow, whatever the prior state. |
| Sm2.SuccessInterval | backend/src/reviews/sm2.service.ts:48-57 | A success gives interval 1 after the first success and 6 after the second. Later, it is the previous interval times the new easiness, rounded. |
| Sm2.ScaledIntervalGrows | backend/src/reviews/sm2.service.ts:55-57 | With easiness ≥ 1.3, a scaled interval of at least 1 day never shrinks. From 2 days on, it strictly grows. |
| Sm2.SuccessNeverShortens | backend/src/reviews/sm2.service.ts:48-57 | A third or later success never shortens a positive interval. |
| Sm2.CalculatePreservesValidState | backend/src/reviews/sm2.service.ts:31-64 | From a state with easiness ≥ 1.3, interval ≥ 1 and repetitions ≥ 0, the engine produces another such state. |
| Sm2.ThreeSuccessesExample | backend/src/reviews/sm2.service.ts:21-65 | From a fresh state, qualities 3, 4, 5 give (2.36, 1, 1), then (2.36, 6, 2), then (2.46, 15, 3). |
| Sm2.MixedAnswersExample | backend/src/reviews/sm2.service.ts:31-57 | From a fresh state, qualities 3, 3, 3, 4, 3, 5 give intervals 1, 6, 12, 25, 49 and 100 days with easiness 2.36, 2.22, 2.08, 2.08, 1.94 and 2.04; the fifth interval is the exact half 48.5 rounded up. |
| Sm2.FifteenPerfectAnswers | backend/src/reviews/sm2.service.ts:31-57 | Fifteen answers of quality 5 from a fresh review reach easiness 4.0, interval 45 243 744 days and repetitions 15. |
| Sm2.SixteenthPerfectAnswerLeavesDateRange | backend/src/reviews/sm2.service.ts:48-72 | From the state (4.0, 45 243 744, 15) that fifteen perfect answers reach, a sixteenth gives interval 185 499 350 days. The due date then lies past 8.64e15 ms, the largest JavaScript date. |
| Reviews.EnableReview | backend/src/reviews/reviews.service.ts:14-48 | It returns NotFound if and only if the note is missing or not the caller's. An existing record is returned and the store is unchanged. Otherwise exactly one record is added: easiness 2.5, interval 1, repetitions 0, due at midnight tomorrow, with no last quality or date. |
| Reviews.DisableReview | backend/src/reviews/reviews.service.ts:50-64 | It returns NotFound if and only if the note has no record. Otherwise it removes that record and keeps every other record unchanged. |
| Reviews.SubmitReview | backend/src/reviews/reviews.service.ts:88-120 | A missing record gives NotFound, and an invalid quality gives InvalidArgument, in that order. On success it writes the engine's four fields, `lastQuality` and `lastReview`. Only that entry changes. |
| Reviews.GetReviewStatus | backend/src/reviews/reviews.service.ts:144-148 | It returns the stored record if there is one, and nothing otherwise. |
| Reviews.EnableIdempotent | backend/src/reviews/reviews.service.ts:23-29 | A second `enableReview` changes nothing and returns the record the first call left. |
| Reviews.EnableThenDisable | backend/src/reviews/reviews.service.ts:14-64 | Enabling a note not yet in review and then disabling it restores the store. |
| Reviews.SubmitThenStatus | backend/src/reviews/reviews.service.ts:104-148 | After a submission, the status query returns exactly the record that was written, whoever asks. |
| Reviews.NoOwnershipCheck | backend/src/reviews/reviews.service.ts:50-148 | `disableReview`, `submitReview` and `getReviewStatus` give the same outcome for any caller. They look records up by note id alone (lines 51, 89 and 145). |
| Reviews.TransitionsPreserveValidity | backend/src/reviews/reviews.service.ts:14-120 | Enable, disable and submit each keep every record under its own note id and keep every record in a state the engine can produce. |
| Reviews.DueKeysByDay | backend/src/reviews/reviews.service.ts:66-73 | A record of the user is due if and only if its review day is not after today. |
| Reviews.DueDayBoundary | backend/src/reviews/reviews.service.ts:66-73 | Whatever the hour, yesterday's and today's midnights are due and tomorrow's is not. |
| Reviews.InsertByDue | backend/src/reviews/reviews.service.ts:84 | Inserting one id into an ascending list keeps it ascending. The result holds the old ids plus the new one. |
| Reviews.SortByNextReview | backend/src/reviews/reviews.service.ts:84 | The result is ascending by `nextReview` and holds every given id exactly once. |
| Reviews.RecordsInDueOrder | backend/src/reviews/reviews.service.ts:150-165 | It returns the stored records of the given ids, each exactly once, in ascending `nextReview` order. |
| Reviews.GetDueToday | backend/src/reviews/reviews.service.ts:66-86 | It returns the user's due records: each one exactly once and nothing else, soonest first. |
| Reviews.GetAllReviews | backend/src/reviews/reviews.service.ts:150-165 | It returns every record of the user exactly once and nothing else, soonest first. |
| Reviews.SumRepetitionsRemove | backend/src/reviews/reviews.service.ts:131-134 | The repetition sum is the same whichever record is taken out first. |
| Reviews.SumStreaks | backend/src/reviews/reviews.service.ts:131-140 | It returns the sum of the repetitions of the given records, and 0 when there are none. |
| Reviews.GetStats | backend/src/reviews/reviews.service.ts:122-142 | It returns the number of the user's records, the number of their due records, and the sum of their repetitions. A user with no records gets (0, 0, 0). |
| WikiLinks.RunEnd | backend/src/notes/links.service.ts:21 | It finds where `[^\]]+` stops: the first `]` at or after k, or the end of the text. |
| WikiLinks.MatchAt | backend/src/notes/links.service.ts:21-23 | A match found at i ends inside the text, past i. Its capture is non-empty and holds no `]`. |
| WikiLinks.MatchAtMeaning | backend/src/notes/links.service.ts:21-23 | The regex matches at i if and only if `[[`, a non-empty run without `]`, and `]]` start there. The capture is that run, and the search resumes just past the match. |
| WikiLinks.Scan | backend/src/notes/links.service.ts:21-25 | Every capture is non-empty and contains no `]`. |
| WikiLinks.CapturesOfRender | backend/src/notes/links.service.ts:21-25 | Round trip: scanning a text built from plain runs without `[` and links `[[t]]` yields exactly the titles t, in order. |
| WikiLinks.NoBracketNoLinks | backend/src/notes/links.service.spec.ts:56-70 | A text without `[` yields no capture. |
| WikiLinks.TrimStart | backend/src/notes/links.service.ts:24 | It is a suffix of the input. It removes only white space and leaves no white space in front. |
| WikiLinks.TrimEnd | backend/src/notes/links.service.ts:24 | It is a prefix of the input. It removes only white space and leaves no white space at the end. |
| WikiLinks.Trim | backend/src/notes/links.service.ts:24 | The trimmed title neither starts nor ends with ECMAScript white space, and is no longer than the input. |
| WikiLinks.TrimIsSlice | backend/src/notes/links.service.ts:24 | `trim` returns a contiguous slice of its input. Everything cut off on either side is white space. |
| WikiLinks.TrimNoop | backend/src/notes/links.service.ts:24 | A title with no white space at either end is left as it is. |
| WikiLinks.TrimIdempotent | backend/src/notes/links.service.ts:24 | Trimming twice is trimming once. |
| WikiLinks.TreeCaptures | backend/src/notes/links.service.ts:16-34 | Every capture collected from the tree is non-empty and contains no `]`. |
| WikiLinks.TreeCapturesIsPreOrder | backend/src/notes/links.service.ts:16-34 | The walk's captures are the captures of the text nodes in pre-order: a node's own text comes before its children, and children are taken in array order. |
| WikiLinks.SingleParagraphCaptures | backend/src/notes/links.service.spec.ts:38-48 | A document holding one paragraph with one text node yields exactly the captures of that text. |
| Seqs.AppendNew | backend/src/mocs/mocs.service.ts:94-96 | "Push unless `includes`" keeps the accumulator as a prefix and adds exactly the missing elements. It keeps a duplicate-free list duplicate-free. |
| Seqs.Dedup | backend/src/notes/links.service.ts:37 | `[...new Set(xs)]` is duplicate-free and holds exactly the elements of xs. |
| Seqs.DedupFirstOccurrenceOrder | backend/src/notes/links.service.ts:37 | The de-duplicated list keeps elements in the order of their first occurrence. |
| Seqs.DedupSnoc | backend/src/notes/links.service.ts:37 | De-duplicating one more element appends it if and only if it is new. |
| Seqs.DedupPair | backend/src/notes/links.service.ts:37 | Two elements are both kept, in order, unless they are equal, in which case one is kept. |
| Seqs.DedupRepeatedFirst | backend/src/notes/links.service.ts:37 | An element repeated straight away counts once: `[a, a, b]` de-duplicates like `[a, b]`. |
| Seqs.DedupOfDistinct | backend/src/notes/links.service.ts:37 | A duplicate-free list is its own de-duplication. |
| Seqs.DedupIdempotent | backend/src/notes/links.service.ts:37 | De-duplicating twice is de-duplicating once. |
| Seqs.Filter | backend/src/notes/links.service.ts:87-89 | `filter` keeps exactly the elements that pass, and only those. |
| Seqs.FilterConcat | backend/src/notes/links.service.ts:87-89 | Filtering distributes over concatenation, so survivors keep their relative order. |
| Seqs.FilterKeepsAll | backend/src/mocs/mocs.service.ts:61 | A filter keeps the whole list, or its whole length, if and only if every element passes. |
| Seqs.FilterDistinct | backend/src/notes/links.service.ts:87-89 | Filtering a duplicate-free list gives a duplicate-free list. |
| Seqs.DistinctCard | backend/src/mocs/mocs.service.ts:60-61 | A duplicate-free list has as many elements as the set of its elements. |
| Notes.LowerChar | backend/src/notes/links.service.ts:88 | ASCII capitals move to lower case. Every character outside A–Z and the Latin-1 capital block is unchanged. |
| Notes.Lower | backend/src/notes/links.service.ts:88 | The modelled fold keeps the length. (JavaScript's `toLowerCase` need not: `'\u0130'` lowers to two characters.) |
| Links.TrimmedCaptures | backend/src/notes/links.service.ts:20-25 | Entry i is the trimmed i-th capture of the tree. |
| Links.ExtractLinksFromContent | backend/src/notes/links.service.ts:12-38 | The titles are duplicate-free and are exactly the trimmed captures. They appear in order of first occurrence. |
| Links.ExtractOfRender | backend/src/notes/links.service.ts:12-38 | For a paragraph of plain runs and links whose titles have no surrounding white space, extraction gives the de-duplicated link titles. |
| Links.ExtractOfDistinctRender | backend/src/notes/links.service.ts:12-38 | When, in addition, no title repeats, extraction gives exactly the titles in order. |
| Links.TwoLinksText | backend/src/notes/links.service.spec.ts:44 | The example pieces spell `Voir [[Budget]] et [[Épargne]].`. |
| Links.RepeatedLinkText | backend/src/notes/links.service.spec.ts:79 | The example pieces spell `[[Budget]] [[Budget]] [[Épargne]]`. |
| Links.ExtractTwoLinks | backend/src/notes/links.service.spec.ts:38-54 | `Voir [[Budget]] et [[Épargne]].` yields `['Budget', 'Épargne']`. |
| Links.ExtractRepeatedLink | backend/src/notes/links.service.spec.ts:72-88 | `[[Budget]] [[Budget]] [[Épargne]]` yields `['Budget', 'Épargne']`. |
| Links.ExtractNoLinks | backend/src/notes/links.service.spec.ts:56-70 | `No links here.` yields the empty list. |
| Links.TwoLinksTitles | backend/src/notes/links.service.spec.ts:44 | The first example's pieces are well formed and carry the titles `Budget` and `Épargne`. |
| Links.RepeatedLinkTitles | backend/src/notes/links.service.spec.ts:79 | The second example's pieces are well formed and carry `Budget`, `Budget` and `Épargne`. |
| Links.RepeatedTitlesDedup | backend/src/notes/links.service.ts:37 | A Set over the second example's titles keeps `Budget` once, then `Épargne`. |
| Links.KeptLinks | backend/src/notes/links.service.ts:49-51 | `deleteMany` keeps exactly the links whose source is another note. |
| Links.LinksTo | backend/src/notes/links.service.ts:74-81 | `createMany` adds exactly one link from the note to each matched note. |
| Links.TitlesOf | backend/src/notes/links.service.ts:86 | Exactly the matched notes get an entry, and each entry is that note's title. |
| Links.SyncNoteLinks | backend/src/notes/links.service.ts:44-91 | Links from other notes are neither removed nor added. The note links to a target if and only if the target is one of the user's notes whose title matches an extracted title, ignoring case. With no titles the report is 0 links, no titles and no `notFound`. Otherwise `linksCreated` is the number of matched notes, `linkedTitles` gives each one's title, and `notFound` holds exactly the titles without a case-insensitive match. |
| Links.NotFoundMeansNoSuchNote | backend/src/notes/links.service.ts:58-89 | A title is reported not found if and only if it was extracted and no note of the user carries it, ignoring case. |
| Links.NotFoundKeepsOrder | backend/src/notes/links.service.ts:87-89 | `notFound` is the unmatched titles in extraction order, without duplicates. |
| Links.SyncIdempotent | backend/src/notes/links.service.ts:44-91 | Syncing the same content twice leaves the links and the report as the first sync left them. |
| Links.SyncReplacesAll | backend/src/notes/links.service.ts:48-51 | After a sync, the note's outgoing links and the report do not depend on the links that existed before. |
| Mocs.WalkNode | backend/src/mocs/mocs.service.ts:87-103 | The walk keeps what was collected before as a prefix and keeps the list duplicate-free. |
| Mocs.WalkForest | backend/src/mocs/mocs.service.ts:100-102 | Visiting the children in order keeps the earlier links as a prefix and keeps the list duplicate-free. |
| Mocs.WalkNodeAppends | backend/src/mocs/mocs.service.ts:83-107 | The incremental walk adds the tree's pre-order captures, each only once. |
| Mocs.WalkForestAppends | backend/src/mocs/mocs.service.ts:100-102 | The same for a list of children visited in order. |
| Mocs.ExtractNoteLinks | backend/src/mocs/mocs.service.ts:83-107 | The links are duplicate-free and are exactly the untrimmed captures of the tree. Each is non-empty and contains no `]`. |
| Mocs.ExtractNoteLinksIsDedup | backend/src/mocs/mocs.service.ts:83-107 | The MOC walk equals first-occurrence de-duplication of all captures, in order of first appearance. |
| Mocs.TwoParagraphsScannedIndependently | backend/src/mocs/mocs.service.ts:91-97 | With `lastIndex` reset, a second text node contributes those of its links not already collected, after the first's. |
| Mocs.ExtractorsAgreeWithoutPadding | backend/src/mocs/mocs.service.ts:83-107 | When no capture has surrounding white space, the MOC walk and `extractLinksFromContent` return the same list. |
| Mocs.CountNotes | backend/src/mocs/mocs.service.ts:33-74 | `total` is the number of links and `created + pending = total`, with 0 ≤ created ≤ total. A MOC without links gives (0, 0, 0). |
| Mocs.CreatedIsFilter | backend/src/mocs/mocs.service.ts:51-61 | `created` counts the links that exactly name a non-MOC note of the user. |
| Mocs.CreatedCountsExistingTitles | backend/src/mocs/mocs.service.ts:51-61 | `created` is the number of distinct linked titles that exist as non-MOC notes of the user. |
| Mocs.AllCreatedIffAllExist | backend/src/mocs/mocs.service.ts:61-73 | `created = total`, and equally `pending = 0`, if and only if every link names an existing note. |
| Mocs.CreatedMonotone | backend/src/mocs/mocs.service.ts:51-61 | Adding notes to the catalogue never lowers `created`. |
| Mocs.FindAll | backend/src/mocs/mocs.service.ts:13-78 | The result has exactly one entry per MOC of the user, holding that MOC's note count. |
| Mocs.Create | backend/src/mocs/mocs.service.ts:112-122 | It adds exactly one note: flagged as a MOC, owned by the caller, with the given title and source, and with the given content or `{type: 'doc', content: []}`. Every other note is unchanged. |
| Mocs.FindOne | backend/src/mocs/mocs.service.ts:127-160 | It returns NotFound if and only if the id is not a MOC of the user. Otherwise it returns the MOC and exactly the ids of the notes paired with it. |
| Mocs.CreateThenFindOne | backend/src/mocs/mocs.service.ts:112-160 | A MOC created without content is found, holds no notes, and counts (0, 0, 0). |
| Mocs.AddNote | backend/src/mocs/mocs.service.ts:194-230 | Errors come in order. NotFound if the MOC is not the user's MOC. NotFound if the note is missing, someone else's, or a MOC. BadRequest if the pair exists. Otherwise exactly that pair is added. |
| Mocs.RemoveNote | backend/src/mocs/mocs.service.ts:235-261 | It returns NotFound unless the MOC is the user's and the pair exists. Otherwise exactly that pair is removed. |
| Mocs.AddThenRemove | backend/src/mocs/mocs.service.ts:194-261 | Adding a note and then removing it restores the membership. |
| Mocs.RemoveThenAdd | backend/src/mocs/mocs.service.ts:194-261 | Removing a plain note of the user and then adding it back restores the membership. |
| Mocs.AddTwiceIsBadRequest | backend/src/mocs/mocs.service.ts:209-220 | Repeating a successful `addNote` is refused with BadRequest. |
| Mocs.MembershipTransitionsPreserveValidity | backend/src/mocs/mocs.service.ts:194-261 | `addNote` and `removeNote` keep every pair between a MOC and a non-MOC note of the same user. |
| Toasts.Digit | frontend/src/hooks/useToast.ts:25 | A digit is one of the characters `0`–`9`. |
| Toasts.Decimal | frontend/src/hooks/useToast.ts:25 | The numeral has at least one digit, at least two from 10 on, and only digits. |
| Toasts.DecimalInjective | frontend/src/hooks/useToast.ts:25 | Different numbers print as different numerals. |
| Toasts.IdTextInjective | frontend/src/hooks/useToast.ts:12-25 | Different counter values give different `toast-N` ids. |
| Toasts.AddToast | frontend/src/hooks/useToast.ts:17-35 | A repeated (message, type) leaves the state unchanged. Otherwise the counter advances by one and exactly one toast carrying it is appended, with the old toasts kept in order. Afterwards the toast is shown. |
| Toasts.RemoveToast | frontend/src/hooks/useToast.ts:37-39 | It keeps exactly the toasts with another id. The counter is untouched. |
| Toasts.ShowSuccess | frontend/src/hooks/useToast.ts:45 | Afterwards a success toast with the message is shown. A repeat leaves the state unchanged; otherwise one success toast with the next id is appended and the counter advances to it. |
| Toasts.ShowError | frontend/src/hooks/useToast.ts:46 | The same, for an error toast. |
| Toasts.ShowInfo | frontend/src/hooks/useToast.ts:47 | The same, for an info toast. |
| Toasts.ShowWarning | frontend/src/hooks/useToast.ts:48 | The same, for a warning toast. |
| Toasts.KindsDeduplicateSeparately | frontend/src/hooks/useToast.ts:19-23 | Repeats are matched on message and type together: the same new message as a success and then as an error gives two toasts, with consecutive ids. |
| Toasts.DefaultKindIsInfo | frontend/src/hooks/useToast.ts:17 | Without a type, the toast is an `info` toast. |
| Toasts.InitialValid | frontend/src/hooks/useToast.ts:12-15 | The empty list with counter 0 satisfies the invariant. |
| Toasts.ValidIdsDistinct | frontend/src/hooks/useToast.ts:12-25 | On a valid list, no two toasts share an id string. |
| Toasts.AddPreservesValid | frontend/src/hooks/useToast.ts:19-33 | `addToast` keeps three things: ids increasing along the list, ids within the counter, and (message, type) pairs unique. |
| Toasts.RemovePreservesValid | frontend/src/hooks/useToast.ts:37-39 | `removeToast` keeps the invariant. Ids stay increasing, so the survivors keep their order. |
| Toasts.FilterPreservesValid | frontend/src/hooks/useToast.ts:37-39 | Keeping any subset of a valid list, in order, leaves it valid. |
| Toasts.AddIdempotent | frontend/src/hooks/useToast.ts:19-23 | Adding the same toast twice is adding it once. |
| Toasts.RemoveUnknownIsNoop | frontend/src/hooks/useToast.ts:37-39 | Removing an id that no toast carries changes nothing. |
| Toasts.AddThenRemove | frontend/src/hooks/useToast.ts:25-33 | Removing the toast just added gives back the previous list. The counter stays advanced. This is what the expiry timer does. |

## Left out

- Prisma and the database are not modelled. Queries, `include`/`select`
  projections and `Promise.all` concurrency become maps, sets and sequences.
  The response projections (the `note` sub-object of a review, the MOC
  fields `findAll` returns) are not modelled.
- IEEE-754 doubles are not modelled. Easiness is exact, so the rounded
  interval (and with it `nextReview`) can differ from the source's by a day
  or more, and the gap grows over a streak. From a fresh review, qualities
  3, 3, 3, 4, 3 leave the source's easiness at 1.9399999999999997, so
  25 × easiness is 48.49999999999999 and `Math.round` gives 48; the model's
  easiness is exactly 1.94 and 25 × 1.94 = 48.5 rounds to 49
  (Sm2.MixedAnswersExample). One more answer of quality 5 gives 98 days in
  the source and 100 in the model.
- Time zones, daylight saving and the real clock are not modelled. A day is
  a fixed 86 400 000 ms of local time, and `now` is a parameter.
- Reviews.SubmitReview: the engine's due date and `lastReview` read the
  clock separately. The model uses one `now` for both. When the engine's
  due date lies beyond the JavaScript date range (see Sm2.AddDays), the
  source's `review.update` receives an Invalid Date and the write fails;
  the model returns `Ok` with the out-of-range timestamp.
- Sm2.AddDays: a JavaScript `Date` holds only timestamps within
  ±8.64e15 ms (±100 000 000 days). Beyond that, `setDate` yields an Invalid
  Date. The model's timestamps are unbounded integers, so its contract (a
  midnight `days` days later) also covers dates the source cannot represent.
  Nothing stops the source from reaching them: `submitReview` does not
  check that a review is due, and
  `Sm2.SixteenthPerfectAnswerLeavesDateRange` shows that the sixteenth
  quality-5 answer from a fresh review schedules past the range.
- Sm2.Calculate: quality is an integer. The guard `quality < 0 || quality > 5`
  (sm2.service.ts:27) is the only check, and the route reads
  `@Body('quality')` without a DTO, so other JavaScript values reach it
  unchanged. The model does not cover them:
  - a fractional number in 0..5 is accepted and fed into the formula;
  - a missing quality (`undefined`) passes the guard, takes the success
    branch and gives a `NaN` easiness;
  - `null` passes the guard, acts as quality 0 (a lapse) and is stored as
    `lastQuality: null`;
  - a numeric string such as `"4"` is coerced by the comparisons and the
    arithmetic;
  - the empty string and white-space-only strings coerce to 0, pass the
    guard and act as quality 0 (a lapse), like `null`;
  - any other string coerces to `NaN` and behaves like `undefined`.
- Reviews.GetDueToday, Reviews.GetAllReviews, Reviews.GetStats: these require
  `WellFormed`, meaning every record sits under its own note id. This is
  the table's unique-key constraint, and every transition preserves it.
- Reviews.SortByNextReview: the database leaves the order of equal due dates
  open. The model fixes some order and states only that it is ascending.
- Links.SyncNoteLinks: `linkedTitles` is a map from matched note id to
  title. The order in which the store returns the matched notes is
  unspecified, and on the early return it is empty. The database's
  case-insensitive `in` match (links.service.ts:59-71) is taken to be the
  same fold as JavaScript's `toLowerCase`, which the `notFound` filter uses
  (links.service.ts:88). The source guarantees only that the two agree on
  ASCII; the database's fold depends on its collation. A title whose folds
  differ, such as `ÉTÉ` against a note `été` in a C-locale database, would
  be neither linked nor reported as not found.
- Links.NotFoundMeansNoSuchNote: its "if and only if" rests on that single
  fold. With two different folds it holds for ASCII titles only.
- Notes.Lower: the fold covers ASCII and the Latin-1 capitals only, not all
  of Unicode's `toLowerCase`. The contract states only the length and the
  ASCII case.
- `getBacklinks` in `links.service.ts` is outside the modelled core.
- Null nodes, non-array `content` and non-string `text` are not modelled.
  A node always has a kind, a text (possibly empty) and a list of children.
- Mocs.FindAll: it returns a map from MOC id to note count. The
  `updatedAt` ordering and the other projected fields are not modelled.
- MOC `update` and `remove` are not modelled. Each is the `findOne` guard
  followed by a plain write. `update-moc.dto.ts` and the Prisma schema,
  which decide their field and cascade behaviour, are not part of this
  model.
- Mocs.Create: `newId` stands for the identifier the database assigns, and
  must be unused. `createdAt` and `updatedAt` are not modelled.
- Toasts.Toast: the id is the counter value. The string `toast-N` is
  `IdText`, proved injective. The counter is shared by every use of the
  hook in the source and is carried in the state here.
- The 4-second toast timer is not modelled. Its effect is an ordinary
  `removeToast` of the new id (see `Toasts.AddThenRemove`).
- Controllers, DTO validation, the auth guard, the frontend pages and the
  API clients are framework plumbing or presentation, and are not part of
  this model.
