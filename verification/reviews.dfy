/** The review lifecycle: a store of review records, one per note, that
    `enableReview` creates, `submitReview` reschedules through the SM-2
    engine and `disableReview` deletes, with the due-list and statistics
    queries over one user's records.

    `disableReview`, `submitReview` and `getReviewStatus` receive the caller's
    user id but look the record up by note id alone; the model keeps that
    parameter and ignores it in the same way. */
module Reviews {
  import opened Results
  import opened Sm2
  import opened Notes

  /** A row of the `review` table. */
  datatype Review = Review(
    noteId: NoteId,
    userId: UserId,
    easiness: real,
    interval: int,
    repetitions: int,
    nextReview: int,
    lastQuality: Option<int>,
    lastReview: Option<int>)

  /** The `review` table, keyed by its unique `noteId` column. */
  type Store = map<NoteId, Review>

  /** Every record sits under its own note id. */
  predicate WellFormed(store: Store) {
    forall k :: k in store ==> store[k].noteId == k
  }

  /** A record in a state the engine can produce. */
  predicate ValidReview(r: Review) {
    ValidState(r.easiness, r.interval, r.repetitions)
  }

  predicate ValidStore(store: Store) {
    WellFormed(store) && forall k :: k in store ==> ValidReview(store[k])
  }

  /** The new store together with the record an operation returns. */
  datatype Step = Step(store: Store, review: Review)

  // ---------------------------------------------------------------------------
  // Transitions

  /** `enableReview`: the note must exist and belong to the caller; an existing
      record is returned untouched, otherwise a new one is created, due tomorrow. */
  function EnableReview(notes: Catalog, store: Store, u: UserId, noteId: NoteId, now: int): (r: Result<Step>)
    ensures r.Err? <==> !OwnedBy(notes, noteId, u)
    ensures r.Err? ==> r.error == NotFound
    ensures r.Ok? && noteId in store ==> r.value == Step(store, store[noteId])
    ensures r.Ok? && noteId !in store ==>
      var created := r.value.review;
      && r.value.store == store[noteId := created]
      && created.noteId == noteId && created.userId == u
      && created.easiness == 2.5 && created.interval == 1 && created.repetitions == 0
      && IsMidnight(created.nextReview) && Day(created.nextReview) == Day(now) + 1
      && created.lastQuality.None? && created.lastReview.None?
  {
    if !OwnedBy(notes, noteId, u) then
      Err(NotFound)
    else if noteId in store then
      Ok(Step(store, store[noteId]))
    else
      var created := Review(noteId, u, InitialEasiness, 1, 0, AddDays(now, 1), None, None);
      Ok(Step(store[noteId := created], created))
  }

  /** `disableReview`: deletes the note's record, and nothing else. */
  function DisableReview(store: Store, u: UserId, noteId: NoteId): (r: Result<Store>)
    ensures r.Err? <==> noteId !in store
    ensures r.Err? ==> r.error == NotFound
    ensures r.Ok? ==> r.value.Keys == store.Keys - {noteId}
    ensures r.Ok? ==> forall k :: k in r.value ==> r.value[k] == store[k]
  {
    if noteId !in store then Err(NotFound) else Ok(store - {noteId})
  }

  /** `submitReview`: runs the engine on the stored state and records the
      outcome. An invalid quality fails before anything is written. */
  function SubmitReview(store: Store, u: UserId, noteId: NoteId, quality: int, now: int): (r: Result<Step>)
    ensures noteId !in store ==> r == Err(NotFound)
    ensures noteId in store && !ValidQuality(quality) ==> r == Err(InvalidArgument)
    ensures r.Ok? <==> noteId in store && ValidQuality(quality)
    ensures r.Ok? ==>
      var prev := store[noteId];
      var s := Calculate(quality, prev.easiness, prev.interval, prev.repetitions, now).value;
      && r.value.review == prev.(easiness := s.easiness, interval := s.interval,
                               repetitions := s.repetitions, nextReview := s.nextReview,
                               lastQuality := Some(quality), lastReview := Some(now))
      && r.value.store == store[noteId := r.value.review]
  {
    if noteId !in store then
      Err(NotFound)
    else
      var prev := store[noteId];
      match Calculate(quality, prev.easiness, prev.interval, prev.repetitions, now)
      case Err(e) => Err(e)
      case Ok(s) =>
        var updated := prev.(easiness := s.easiness, interval := s.interval,
                            repetitions := s.repetitions, nextReview := s.nextReview,
                            lastQuality := Some(quality), lastReview := Some(now));
        Ok(Step(store[noteId := updated], updated))
  }

  /** `getReviewStatus`: the record, or nothing when the note is not in review. */
  function GetReviewStatus(store: Store, u: UserId, noteId: NoteId): (r: Option<Review>)
    ensures r.None? <==> noteId !in store
    ensures r.Some? ==> r.value == store[noteId]
  {
    if noteId in store then Some(store[noteId]) else None
  }

  // ---------------------------------------------------------------------------
  // Properties of the transitions

  /** Enabling twice is enabling once: the second call changes nothing and
      returns the record the first call left. */
  lemma EnableIdempotent(notes: Catalog, store: Store, u: UserId, noteId: NoteId, now1: int, now2: int)
    requires EnableReview(notes, store, u, noteId, now1).Ok?
    ensures var first := EnableReview(notes, store, u, noteId, now1).value;
      EnableReview(notes, first.store, u, noteId, now2) == Ok(first)
  {
  }

  /** Enabling a note not yet in review and disabling it again restores the store. */
  lemma EnableThenDisable(notes: Catalog, store: Store, u: UserId, noteId: NoteId, now: int)
    requires OwnedBy(notes, noteId, u) && noteId !in store
    ensures DisableReview(EnableReview(notes, store, u, noteId, now).value.store, u, noteId) == Ok(store)
  {
    var s := EnableReview(notes, store, u, noteId, now).value.store;
    assert s - {noteId} == store;
  }

  /** Round trip: the status read right after a submission is exactly the record it wrote. */
  lemma SubmitThenStatus(store: Store, u: UserId, v: UserId, noteId: NoteId, quality: int, now: int)
    requires SubmitReview(store, u, noteId, quality, now).Ok?
    ensures var step := SubmitReview(store, u, noteId, quality, now).value;
      GetReviewStatus(step.store, v, noteId) == Some(step.review)
  {
  }

  /** The record-level operations never consult the caller's identity. */
  lemma NoOwnershipCheck(store: Store, u: UserId, v: UserId, noteId: NoteId, quality: int, now: int)
    ensures DisableReview(store, u, noteId) == DisableReview(store, v, noteId)
    ensures SubmitReview(store, u, noteId, quality, now) == SubmitReview(store, v, noteId, quality, now)
    ensures GetReviewStatus(store, u, noteId) == GetReviewStatus(store, v, noteId)
  {
  }

  /** Every transition keeps the store well-formed and every record valid. */
  lemma TransitionsPreserveValidity(notes: Catalog, store: Store, u: UserId, noteId: NoteId, quality: int, now: int)
    requires ValidStore(store)
    ensures EnableReview(notes, store, u, noteId, now).Ok? ==>
      ValidStore(EnableReview(notes, store, u, noteId, now).value.store)
    ensures DisableReview(store, u, noteId).Ok? ==> ValidStore(DisableReview(store, u, noteId).value)
    ensures SubmitReview(store, u, noteId, quality, now).Ok? ==>
      ValidStore(SubmitReview(store, u, noteId, quality, now).value.store)
  {
    if noteId in store && ValidQuality(quality) {
      var prev := store[noteId];
      CalculatePreservesValidState(quality, prev.easiness, prev.interval, prev.repetitions, now);
    }
  }

  // ---------------------------------------------------------------------------
  // Queries

  /** The note ids of the user's records (`where: { userId }`). */
  function OwnedKeys(store: Store, u: UserId): set<NoteId> {
    set k | k in store && store[k].userId == u
  }

  /** True when the record is due by the end of the day of `now`. */
  predicate IsDue(r: Review, now: int) {
    r.nextReview <= DueCutoff(now)
  }

  /** The note ids of the user's due records (`nextReview: { lte: today }`). */
  function DueKeys(store: Store, u: UserId, now: int): set<NoteId> {
    set k | k in store && store[k].userId == u && IsDue(store[k], now)
  }

  /** A record is due exactly when its review day is not after today. */
  lemma DueKeysByDay(store: Store, u: UserId, now: int)
    ensures forall k :: k in DueKeys(store, u, now) <==>
      k in OwnedKeys(store, u) && Day(store[k].nextReview) <= Day(now)
  {
    forall k | k in store
      ensures IsDue(store[k], now) <==> Day(store[k].nextReview) <= Day(now)
    {
      DueIffNotAfterToday(store[k].nextReview, now);
    }
  }

  /** Whatever the hour of `now`, yesterday's and today's midnight are due and tomorrow's is not. */
  lemma DueDayBoundary(r: Review, now: int)
    ensures r.nextReview == AddDays(now, -1) ==> IsDue(r, now)
    ensures r.nextReview == AddDays(now, 0) ==> IsDue(r, now)
    ensures r.nextReview == AddDays(now, 1) ==> !IsDue(r, now)
  {
    AddDaysDue(now, -1, now);
    AddDaysDue(now, 0, now);
    AddDaysDue(now, 1, now);
  }

  /** Ids whose records are in ascending `nextReview` order. */
  predicate SortedKeys(store: Store, ks: seq<NoteId>) {
    && (forall i :: 0 <= i < |ks| ==> ks[i] in store)
    && (forall i, j :: 0 <= i < j < |ks| ==> store[ks[i]].nextReview <= store[ks[j]].nextReview)
  }

  /** Inserts one id into an ascending list, after every record due no later. */
  function InsertByDue(store: Store, ks: seq<NoteId>, k: NoteId): (r: seq<NoteId>)
    requires k in store && SortedKeys(store, ks)
    ensures SortedKeys(store, r)
    ensures multiset(r) == multiset(ks) + multiset{k}
    ensures r[0] == k || (ks != [] && r[0] == ks[0])
    decreases |ks|
  {
    if ks == [] || store[k].nextReview <= store[ks[0]].nextReview then
      [k] + ks
    else
      var rest := InsertByDue(store, ks[1..], k);
      assert ks == [ks[0]] + ks[1..];
      assert store[ks[0]].nextReview <= store[rest[0]].nextReview;
      [ks[0]] + rest
  }

  /** `orderBy: { nextReview: 'asc' }` over a set of ids. The store leaves the
      order of equal due dates open; this sort breaks such ties arbitrarily. */
  method SortByNextReview(store: Store, keys: set<NoteId>) returns (ks: seq<NoteId>)
    requires keys <= store.Keys
    ensures SortedKeys(store, ks)
    ensures multiset(ks) == multiset(keys)
  {
    ks := [];
    var rest := keys;
    while rest != {}
      invariant rest <= keys
      invariant SortedKeys(store, ks)
      invariant multiset(ks) == multiset(keys - rest)
      decreases rest
    {
      var k :| k in rest;
      ks := InsertByDue(store, ks, k);
      assert keys - (rest - {k}) == (keys - rest) + {k};
      rest := rest - {k};
    }
  }

  /** The note ids of a list of records. */
  function NoteIds(rs: seq<Review>): (ids: seq<NoteId>)
    ensures |ids| == |rs|
  {
    seq(|rs|, i requires 0 <= i < |rs| => rs[i].noteId)
  }

  /** The records of the given ids, in ascending `nextReview` order. */
  method RecordsInDueOrder(store: Store, keys: set<NoteId>) returns (rs: seq<Review>)
    requires WellFormed(store) && keys <= store.Keys
    ensures forall i :: 0 <= i < |rs| ==> rs[i].noteId in store && store[rs[i].noteId] == rs[i]
    ensures forall i, j :: 0 <= i < j < |rs| ==> rs[i].nextReview <= rs[j].nextReview
    ensures multiset(NoteIds(rs)) == multiset(keys)
  {
    var ks := SortByNextReview(store, keys);
    assert forall i :: 0 <= i < |ks| ==> ks[i] in multiset(keys);
    rs := seq(|ks|, i requires 0 <= i < |ks| => store[ks[i]]);
    assert NoteIds(rs) == ks;
  }

  /** `getDueToday`: each of the user's due records exactly once, soonest first. */
  method GetDueToday(store: Store, u: UserId, now: int) returns (rs: seq<Review>)
    requires WellFormed(store)
    ensures forall i :: 0 <= i < |rs| ==> rs[i].noteId in store && store[rs[i].noteId] == rs[i]
    ensures forall i, j :: 0 <= i < j < |rs| ==> rs[i].nextReview <= rs[j].nextReview
    ensures multiset(NoteIds(rs)) == multiset(DueKeys(store, u, now))
    ensures |rs| == |DueKeys(store, u, now)|
  {
    rs := RecordsInDueOrder(store, DueKeys(store, u, now));
    assert |NoteIds(rs)| == |multiset(NoteIds(rs))|;
  }

  /** `getAllReviews`: each of the user's records exactly once, soonest first. */
  method GetAllReviews(store: Store, u: UserId) returns (rs: seq<Review>)
    requires WellFormed(store)
    ensures forall i :: 0 <= i < |rs| ==> rs[i].noteId in store && store[rs[i].noteId] == rs[i]
    ensures forall i, j :: 0 <= i < j < |rs| ==> rs[i].nextReview <= rs[j].nextReview
    ensures multiset(NoteIds(rs)) == multiset(OwnedKeys(store, u))
    ensures |rs| == |OwnedKeys(store, u)|
  {
    rs := RecordsInDueOrder(store, OwnedKeys(store, u));
    assert |NoteIds(rs)| == |multiset(NoteIds(rs))|;
  }

  /** Sum of the current streak lengths of the given records. */
  ghost function SumRepetitions(store: Store, keys: set<NoteId>): int
    requires keys <= store.Keys
    decreases keys
  {
    if keys == {} then 0
    else
      var k :| k in keys;
      store[k].repetitions + SumRepetitions(store, keys - {k})
  }

  /** The sum does not depend on which record is taken out first. */
  lemma {:induction false} SumRepetitionsRemove(store: Store, keys: set<NoteId>, k: NoteId)
    requires keys <= store.Keys && k in keys
    ensures SumRepetitions(store, keys) == store[k].repetitions + SumRepetitions(store, keys - {k})
    decreases keys
  {
    var j :| j in keys && SumRepetitions(store, keys) == store[j].repetitions + SumRepetitions(store, keys - {j});
    if j != k {
      SumRepetitionsRemove(store, keys - {j}, k);
      SumRepetitionsRemove(store, keys - {k}, j);
      assert keys - {j} - {k} == keys - {k} - {j};
    }
  }

  /** `aggregate({ _sum: { repetitions: true } })` over the given records. */
  method SumStreaks(store: Store, keys: set<NoteId>) returns (sum: int)
    requires keys <= store.Keys
    ensures sum == SumRepetitions(store, keys)
    ensures keys == {} ==> sum == 0
  {
    sum := 0;
    var rest := keys;
    while rest != {}
      invariant rest <= keys
      invariant sum + SumRepetitions(store, rest) == SumRepetitions(store, keys)
      decreases rest
    {
      var k :| k in rest;
      SumRepetitionsRemove(store, rest, k);
      sum := sum + store[k].repetitions;
      rest := rest - {k};
    }
  }

  /** The three figures of `getStats`. */
  datatype Stats = Stats(totalNotesInReview: nat, dueToday: nat, totalReviewsDone: int)

  /** `getStats`: how many records the user has, how many are due, and the
      sum of their streaks (0 when there are none). */
  method GetStats(store: Store, u: UserId, now: int) returns (s: Stats)
    requires WellFormed(store)
    ensures s.totalNotesInReview == |OwnedKeys(store, u)|
    ensures s.dueToday == |DueKeys(store, u, now)|
    ensures s.totalReviewsDone == SumRepetitions(store, OwnedKeys(store, u))
    ensures OwnedKeys(store, u) == {} ==> s == Stats(0, 0, 0)
  {
    var all := GetAllReviews(store, u);
    var dueList := GetDueToday(store, u, now);
    var sum := SumStreaks(store, OwnedKeys(store, u));
    if OwnedKeys(store, u) == {} {
      assert DueKeys(store, u, now) <= OwnedKeys(store, u);
    }
    s := Stats(|all|, |dueList|, sum);
  }
}
