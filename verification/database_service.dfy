/** The correction store of `app/services/database_service.py`: the
    create-or-merge state machine behind `upsert_correction`, the recency
    lookup, listing a user's corrections, and the partial update of a user
    document.

    Each collection is a sequence of documents in their stored (natural)
    order; a call takes the collection and returns the collection as it is
    afterwards. Timestamps are integers counting microseconds, as Python's
    `datetime` holds them; a BSON datetime keeps only milliseconds, so what
    is written to the store is the time truncated, while the response is
    built from the untruncated value. The fresh `uuid4` of a new correction
    is a parameter. */
module DatabaseService {
  import opened Wrappers
  import opened PyStr
  import opened Json
  import opened Sequences

  // ---------------------------------------------------------------------------
  // Records
  // ---------------------------------------------------------------------------

  /** One grammar error of a sentence (`DbError`). */
  datatype GrammarError = GrammarError(id: string, error: string, reason: string,
                                       suggestion: string, improvedClause: string)

  /** One sentence-feedback dictionary as it arrives; `None` is a missing key. */
  datatype FeedbackEntry = FeedbackEntry(id: Option<string>, original: Option<string>,
                                         corrected: Option<string>, errors: Option<seq<GrammarError>>)
  {
    /** All four keys are present (`DbSentenceFeedback`). */
    predicate Complete() {
      id.Some? && original.Some? && corrected.Some? && errors.Some?
    }
  }

  /** A stored correction (`DbCorrection`). */
  datatype Correction = Correction(userId: string, conversationId: string, createdAt: int,
                                   originalText: string, sentenceFeedback: seq<FeedbackEntry>)

  /** A correction as the API returns it: the stored record without its owner. */
  datatype CorrectionData = CorrectionData(conversationId: string, createdAt: int,
                                           originalText: string, sentenceFeedback: seq<FeedbackEntry>)

  /** The `{success, data, error}` envelope. */
  datatype CorrectionResponse = CorrectionResponse(success: bool, data: Option<seq<CorrectionData>>,
                                                   error: Option<string>)

  /** The `data` dictionary of a submission: the three keys the store reads
      (`None` when absent) and whether any other key is present. */
  datatype Payload = Payload(createdAt: Option<int>, originalText: Option<string>,
                             sentenceFeedback: Option<seq<FeedbackEntry>>, hasOtherKeys: bool)
  {
    /** An empty dictionary, which Python treats as false. */
    predicate IsEmpty() {
      createdAt.None? && originalText.None? && sentenceFeedback.None? && !hasOtherKeys
    }
  }

  /** The `response` dictionary handed to `upsert_correction`: the truth
      value of its `success` entry, and its `data` entry (`None` when the key
      is absent or holds `None`). */
  datatype Submission = Submission(success: bool, data: Option<Payload>)

  /** How `upsert_correction` ends: with a response, with the 403
      `HTTPException`, or with a `KeyError` for a key the payload lacks. */
  datatype Outcome = Responded(response: CorrectionResponse) | Forbidden | MissingKey(key: string)

  /** The corrections collection after the call, and how the call ended. */
  datatype Upserted = Upserted(store: seq<Correction>, outcome: Outcome)

  /** `timedelta(minutes=5)` in microseconds. */
  const RecencyWindow: int := 5 * 60 * 1_000_000

  const InvalidSubmission: string := "Invalid response object. Missing required fields"

  /** A time as a BSON datetime holds it: truncated to the whole
      millisecond at or below it. */
  function Millis(t: int): (m: int)
    ensures m <= t < m + 1000 && m % 1000 == 0
  {
    t - t % 1000
  }

  /** The record as `insert_one` or `update_one` leaves it in the store. */
  function Stored(c: Correction): Correction {
    c.(createdAt := Millis(c.createdAt))
  }

  /** The API view of a record. */
  function DataOf(c: Correction): CorrectionData {
    CorrectionData(c.conversationId, c.createdAt, c.originalText, c.sentenceFeedback)
  }

  /** A successful response carrying exactly one correction. */
  function Single(c: Correction): CorrectionResponse {
    CorrectionResponse(true, Some([DataOf(c)]), None)
  }

  /** No two records share a `conversationId`, as fresh `uuid4` values
      guarantee. */
  predicate UniqueIds(store: seq<Correction>) {
    forall i, j | 0 <= i < j < |store| :: store[i].conversationId != store[j].conversationId
  }

  predicate IdInUse(store: seq<Correction>, cid: string) {
    exists i | 0 <= i < |store| :: store[i].conversationId == cid
  }

  // ---------------------------------------------------------------------------
  // check_for_recent_correction
  // ---------------------------------------------------------------------------

  /** The record `find({"userId": u}).sort("createdAt", -1).limit(1)` yields:
      the user's record with the greatest `createdAt`. Among records with
      equal timestamps the earliest stored one is taken. */
  function MostRecent(store: seq<Correction>, u: string): (r: Option<nat>)
    ensures r.None? <==> forall i | 0 <= i < |store| :: store[i].userId != u
    ensures r.Some? ==> r.value < |store| && store[r.value].userId == u
    ensures r.Some? ==> forall i | 0 <= i < |store| && store[i].userId == u ::
                          store[i].createdAt <= store[r.value].createdAt
    ensures r.Some? ==> forall i | 0 <= i < r.value && store[i].userId == u ::
                          store[i].createdAt < store[r.value].createdAt
  {
    if store == [] then None
    else
      var n := |store| - 1;
      var prev := MostRecent(store[..n], u);
      if store[n].userId != u then prev
      else if prev.Some? && store[prev.value].createdAt >= store[n].createdAt then prev
      else Some(n)
  }

  /** `check_for_recent_correction(u, collection, t)`: the user's most
      recent record, when the candidate time `t` is less than five minutes
      after it (a candidate older than the record qualifies too). Such a
      record exists exactly when the user has any record less than five
      minutes older than `t`. */
  function CheckForRecentCorrection(store: seq<Correction>, u: string, t: int): (r: Option<nat>)
    ensures r.Some? ==> r.value < |store| && store[r.value].userId == u
                        && t - store[r.value].createdAt < RecencyWindow
                        && forall i | 0 <= i < |store| && store[i].userId == u ::
                             store[i].createdAt <= store[r.value].createdAt
    ensures r.Some? <==> exists i | 0 <= i < |store| :: store[i].userId == u && t - store[i].createdAt < RecencyWindow
  {
    var latest := MostRecent(store, u);
    if latest.Some? && t - store[latest.value].createdAt < RecencyWindow then latest else None
  }

  // ---------------------------------------------------------------------------
  // create_new_correction
  // ---------------------------------------------------------------------------

  /** The `valid_feedback` comprehension: the complete entries, in order. */
  function ValidFeedback(entries: seq<FeedbackEntry>): (kept: seq<FeedbackEntry>)
    ensures IsSubsequence(kept, entries)
    ensures forall e | e in kept :: e.Complete()
    ensures forall e | e in entries && e.Complete() :: e in kept
    ensures forall e :: multiset(kept)[e] == if e.Complete() then multiset(entries)[e] else 0
    decreases |entries|
  {
    if entries == [] then []
    else
      var rest := ValidFeedback(entries[1..]);
      assert entries == [entries[0]] + entries[1..];
      if entries[0].Complete() then [entries[0]] + rest else rest
  }

  /** `create_new_correction`: a record owned by `userId`, under the fresh
      id, with the candidate's time and text and its complete feedback
      entries, appended to the store; the response carries that record,
      with the time as given rather than as stored. A missing
      `sentenceFeedback` or `originalText` key raises before the insert. */
  function CreateNewCorrection(store: seq<Correction>, t: int, data: Payload, userId: string,
                               freshId: string): (r: Upserted)
    ensures data.sentenceFeedback.None? ==> r == Upserted(store, MissingKey("sentenceFeedback"))
    ensures data.sentenceFeedback.Some? && data.originalText.None? ==>
              r == Upserted(store, MissingKey("originalText"))
    ensures data.sentenceFeedback.Some? && data.originalText.Some? ==>
              && |r.store| == |store| + 1
              && r.store[..|store|] == store
              && var c := r.store[|store|];
                 && c.userId == userId && c.conversationId == freshId && c.createdAt == Millis(t)
                 && c.originalText == data.originalText.value
                 && c.sentenceFeedback == ValidFeedback(data.sentenceFeedback.value)
                 && r.outcome == Responded(Single(c.(createdAt := t)))
  {
    if data.sentenceFeedback.None? then Upserted(store, MissingKey("sentenceFeedback"))
    else if data.originalText.None? then Upserted(store, MissingKey("originalText"))
    else
      var c := Correction(userId, freshId, t, data.originalText.value, ValidFeedback(data.sentenceFeedback.value));
      assert (store + [Stored(c)])[..|store|] == store;
      Upserted(store + [Stored(c)], Responded(Single(c)))
  }

  // ---------------------------------------------------------------------------
  // merge_correction
  // ---------------------------------------------------------------------------

  /** The position of the first record with the given `conversationId`: the
      one `update_one({"conversationId": cid}, ...)` writes. */
  function FirstWithId(store: seq<Correction>, cid: string): (r: Option<nat>)
    ensures r.None? <==> !IdInUse(store, cid)
    ensures r.Some? ==> r.value < |store| && store[r.value].conversationId == cid
                        && forall i | 0 <= i < r.value :: store[i].conversationId != cid
    decreases |store|
  {
    if store == [] then None
    else if store[0].conversationId == cid then Some(0)
    else
      var r := FirstWithId(store[1..], cid);
      if r.None? then
        assert forall i | 1 <= i < |store| :: store[i] == store[1..][i - 1];
        None
      else
        assert forall i | 1 <= i <= r.value :: store[i] == store[1..][i - 1];
        Some(r.value + 1)
  }

  /** `update_one({"conversationId": cid}, {"$set": c})`: the first record
      with that id becomes `c`; without one the store is unchanged. */
  function UpdateById(store: seq<Correction>, cid: string, c: Correction): (r: seq<Correction>)
    ensures |r| == |store|
    ensures !IdInUse(store, cid) ==> r == store
    ensures IdInUse(store, cid) ==> var k := FirstWithId(store, cid).value; r == store[k := c]
  {
    var k := FirstWithId(store, cid);
    if k.None? then store else store[k.value := c]
  }

  /** In a store with unique ids, a record's id leads back to it. */
  lemma FirstWithOwnId(store: seq<Correction>, i: nat)
    requires UniqueIds(store) && i < |store|
    ensures FirstWithId(store, store[i].conversationId) == Some(i)
  {
  }

  /** The record `merge_correction` writes back: the old text, a space and
      the new text; the old feedback followed by all the new entries,
      unfiltered; the candidate's time; owner and id kept. */
  function Merged(existing: Correction, t: int, text: string, feedback: seq<FeedbackEntry>): (m: Correction)
    ensures m.userId == existing.userId && m.conversationId == existing.conversationId
    ensures m.createdAt == t
    ensures |m.originalText| == |existing.originalText| + 1 + |text|
            && StartsWith(m.originalText, existing.originalText)
            && EndsWith(m.originalText, text)
            && m.originalText[|existing.originalText|] == ' '
    ensures |m.sentenceFeedback| == |existing.sentenceFeedback| + |feedback|
            && m.sentenceFeedback[..|existing.sentenceFeedback|] == existing.sentenceFeedback
            && m.sentenceFeedback[|existing.sentenceFeedback|..] == feedback
  {
    var m := Correction(existing.userId, existing.conversationId, t,
                        existing.originalText + " " + text, existing.sentenceFeedback + feedback);
    assert m.originalText[..|existing.originalText|] == existing.originalText;
    assert m.originalText[|m.originalText| - |text|..] == text;
    m
  }

  /** `merge_correction`: the merged record, its time truncated, replaces
      the stored one with the same `conversationId`; the response carries it
      with the untruncated time. A missing `originalText` or
      `sentenceFeedback` key raises before the write. */
  function MergeCorrection(store: seq<Correction>, existing: Correction, t: int, data: Payload): (r: Upserted)
    ensures data.originalText.None? ==> r == Upserted(store, MissingKey("originalText"))
    ensures data.originalText.Some? && data.sentenceFeedback.None? ==>
              r == Upserted(store, MissingKey("sentenceFeedback"))
    ensures data.originalText.Some? && data.sentenceFeedback.Some? ==>
              var m := Merged(existing, t, data.originalText.value, data.sentenceFeedback.value);
              && r.store == UpdateById(store, existing.conversationId, m.(createdAt := Millis(t)))
              && r.outcome == Responded(Single(m))
  {
    if data.originalText.None? then Upserted(store, MissingKey("originalText"))
    else if data.sentenceFeedback.None? then Upserted(store, MissingKey("sentenceFeedback"))
    else
      var m := Merged(existing, t, data.originalText.value, data.sentenceFeedback.value);
      Upserted(UpdateById(store, existing.conversationId, Stored(m)), Responded(Single(m)))
  }

  // ---------------------------------------------------------------------------
  // upsert_correction
  // ---------------------------------------------------------------------------

  /** The guard of `upsert_correction`: `success` truthy and `data` present
      and non-empty. */
  predicate Acceptable(sub: Submission) {
    sub.success && sub.data.Some? && !sub.data.value.IsEmpty()
  }

  /** `upsert_correction(response, userId)`, with `freshId` the `uuid4` a
      new record would get. A rejected submission gets the fixed failure
      response; otherwise a record of the caller's that is less than five
      minutes older than the candidate absorbs it, and failing that a new
      record is created. The store changes only on a successful response. */
  function Upsert(store: seq<Correction>, sub: Submission, userId: string, freshId: string): (r: Upserted)
    ensures !Acceptable(sub) ==>
              r == Upserted(store, Responded(CorrectionResponse(false, None, Some(InvalidSubmission))))
    ensures Acceptable(sub) && sub.data.value.createdAt.None? ==> r == Upserted(store, MissingKey("createdAt"))
    ensures !r.outcome.Forbidden?
    ensures !(r.outcome.Responded? && r.outcome.response.success) ==> r.store == store
  {
    if !Acceptable(sub) then
      Upserted(store, Responded(CorrectionResponse(false, None, Some(InvalidSubmission))))
    else
      var data := sub.data.value;
      if data.createdAt.None? then Upserted(store, MissingKey("createdAt"))
      else
        var t := data.createdAt.value;
        var found := CheckForRecentCorrection(store, userId, t);
        if found.Some? then
          var existing := store[found.value];
          if existing.userId != userId then Upserted(store, Forbidden)
          else MergeCorrection(store, existing, t, data)
        else CreateNewCorrection(store, t, data, userId, freshId)
  }

  /** A submission `Upsert` goes on to write: accepted, and with all three
      keys it reads. */
  predicate Writable(sub: Submission) {
    && Acceptable(sub)
    && sub.data.value.createdAt.Some?
    && sub.data.value.originalText.Some?
    && sub.data.value.sentenceFeedback.Some?
  }

  /** Whether a writable submission merges: the caller has a record less
      than five minutes older than the candidate. */
  predicate Merges(store: seq<Correction>, sub: Submission, userId: string)
    requires Writable(sub)
  {
    CheckForRecentCorrection(store, userId, sub.data.value.createdAt.value).Some?
  }

  /** A writable submission always succeeds: a merge keeps the number of
      records, a creation adds one. */
  lemma UpsertCount(store: seq<Correction>, sub: Submission, userId: string, freshId: string)
    requires Writable(sub)
    ensures var r := Upsert(store, sub, userId, freshId);
            && r.outcome.Responded? && r.outcome.response.success
            && (Merges(store, sub, userId) ==> |r.store| == |store|)
            && (!Merges(store, sub, userId) ==> |r.store| == |store| + 1)
  {
  }

  /** A merge rewrites exactly the caller's most recent record, in place,
      keeping its `conversationId`; every other record is left as it was. */
  lemma UpsertMergeInPlace(store: seq<Correction>, sub: Submission, userId: string, freshId: string)
    requires Writable(sub) && Merges(store, sub, userId) && UniqueIds(store)
    ensures var k := CheckForRecentCorrection(store, userId, sub.data.value.createdAt.value).value;
            var r := Upsert(store, sub, userId, freshId);
            && |r.store| == |store|
            && r.store[k].conversationId == store[k].conversationId
            && r.store[k].userId == userId
            && r.store[k].createdAt == Millis(sub.data.value.createdAt.value)
            && r.store[k].originalText == store[k].originalText + " " + sub.data.value.originalText.value
            && r.store[k].sentenceFeedback == store[k].sentenceFeedback + sub.data.value.sentenceFeedback.value
            && forall i | 0 <= i < |store| && i != k :: r.store[i] == store[i]
  {
    var k := CheckForRecentCorrection(store, userId, sub.data.value.createdAt.value).value;
    FirstWithOwnId(store, k);
  }

  /** Records of other users are never modified or removed. */
  lemma UpsertFrame(store: seq<Correction>, sub: Submission, userId: string, freshId: string)
    requires UniqueIds(store)
    ensures var r := Upsert(store, sub, userId, freshId);
            && |store| <= |r.store|
            && forall i | 0 <= i < |store| && store[i].userId != userId :: r.store[i] == store[i]
  {
    var r := Upsert(store, sub, userId, freshId);
    if Writable(sub) && Merges(store, sub, userId) {
      UpsertMergeInPlace(store, sub, userId, freshId);
    }
  }

  /** Fresh ids keep conversation ids unique. */
  lemma UpsertKeepsIdsUnique(store: seq<Correction>, sub: Submission, userId: string, freshId: string)
    requires UniqueIds(store) && !IdInUse(store, freshId)
    ensures UniqueIds(Upsert(store, sub, userId, freshId).store)
  {
    if Writable(sub) && Merges(store, sub, userId) {
      UpsertMergeInPlace(store, sub, userId, freshId);
    }
  }

  /** The returned correction is the one stored: a successful response
      comes only from a writable submission and carries exactly one
      correction, a stored record of the caller's as it now stands, except
      that it shows the submitted time where the store keeps that time
      truncated to the millisecond. */
  lemma UpsertResponseMirrorsStore(store: seq<Correction>, sub: Submission, userId: string, freshId: string)
    ensures var r := Upsert(store, sub, userId, freshId);
            r.outcome.Responded? && r.outcome.response.success ==>
              && Writable(sub)
              && var t := sub.data.value.createdAt.value;
                 exists i | 0 <= i < |r.store| ::
                   && r.store[i].userId == userId
                   && r.store[i].createdAt == Millis(t)
                   && r.outcome.response == CorrectionResponse(true, Some([DataOf(r.store[i].(createdAt := t))]), None)
  {
    var r := Upsert(store, sub, userId, freshId);
    if Writable(sub) {
      var data := sub.data.value;
      var t := data.createdAt.value;
      var found := CheckForRecentCorrection(store, userId, t);
      if found.Some? {
        var existing := store[found.value];
        var m := Merged(existing, t, data.originalText.value, data.sentenceFeedback.value);
        var k := FirstWithId(store, existing.conversationId).value;
        assert r.store[k] == Stored(m);
        assert r.store[k].(createdAt := t) == m;
      } else {
        var c := r.store[|store|];
        assert c.userId == userId;
        assert r.outcome == Responded(Single(c.(createdAt := t)));
      }
    }
  }

  /** Two recordings of one user, the second less than five minutes after
      the stored (millisecond) time of the first, end up as one correction:
      same id, both texts. */
  lemma SameUserWithinWindowMerges(userId: string, id1: string, id2: string,
                                   t1: int, text1: string, fb1: seq<FeedbackEntry>,
                                   t2: int, text2: string, fb2: seq<FeedbackEntry>)
    requires t2 - Millis(t1) < RecencyWindow
    ensures var first := Upsert([], Submission(true, Some(Payload(Some(t1), Some(text1), Some(fb1), true))), userId, id1);
            var second := Upsert(first.store, Submission(true, Some(Payload(Some(t2), Some(text2), Some(fb2), true))), userId, id2);
            && |second.store| == 1
            && second.store[0].conversationId == id1
            && second.store[0].originalText == text1 + " " + text2
            && second.store[0].createdAt == Millis(t2)
            && |second.store[0].sentenceFeedback| == |ValidFeedback(fb1)| + |fb2|
            && second.outcome == Responded(Single(second.store[0].(createdAt := t2)))
  {
    var first := Upsert([], Submission(true, Some(Payload(Some(t1), Some(text1), Some(fb1), true))), userId, id1);
    assert first.store[0].userId == userId && first.store[0].createdAt == Millis(t1);
    assert CheckForRecentCorrection(first.store, userId, t2) == Some(0);
  }

  /** Two recordings of one user, the second five minutes or more after the
      stored (millisecond) time of the first, are kept as two corrections
      with distinct ids; the gap must be strictly below the window to
      merge. */
  lemma SameUserAfterWindowCreates(userId: string, id1: string, id2: string,
                                   t1: int, text1: string, fb1: seq<FeedbackEntry>,
                                   t2: int, text2: string, fb2: seq<FeedbackEntry>)
    requires t2 - Millis(t1) >= RecencyWindow && id1 != id2
    ensures var first := Upsert([], Submission(true, Some(Payload(Some(t1), Some(text1), Some(fb1), true))), userId, id1);
            var second := Upsert(first.store, Submission(true, Some(Payload(Some(t2), Some(text2), Some(fb2), true))), userId, id2);
            && |second.store| == 2
            && second.store[0] == first.store[0]
            && second.store[0].originalText == text1
            && second.store[1].originalText == text2
            && second.store[0].conversationId != second.store[1].conversationId
  {
    var first := Upsert([], Submission(true, Some(Payload(Some(t1), Some(text1), Some(fb1), true))), userId, id1);
    assert first.store[0].userId == userId && first.store[0].createdAt == Millis(t1);
    assert CheckForRecentCorrection(first.store, userId, t2) == None;
  }

  /** The window is measured from the stored time, so the truncation of the
      first recording can keep apart two recordings whose submitted times
      are less than five minutes apart. */
  lemma TruncationSeparatesCloseRecordings(userId: string, id1: string, id2: string,
                                           text1: string, fb1: seq<FeedbackEntry>,
                                           text2: string, fb2: seq<FeedbackEntry>)
    requires id1 != id2
    ensures var t1 := 999;
            var t2 := RecencyWindow + 500;
            var first := Upsert([], Submission(true, Some(Payload(Some(t1), Some(text1), Some(fb1), true))), userId, id1);
            var second := Upsert(first.store, Submission(true, Some(Payload(Some(t2), Some(text2), Some(fb2), true))), userId, id2);
            && t2 - t1 < RecencyWindow
            && |second.store| == 2
  {
    assert Millis(999) == 0;
    SameUserAfterWindowCreates(userId, id1, id2, 999, text1, fb1, RecencyWindow + 500, text2, fb2);
  }

  /** A recording by a second user never touches the first user's
      correction: it is stored as a new one. */
  lemma OtherUserCreatesNew(userA: string, userB: string, idA: string, idB: string,
                            t1: int, text1: string, fb1: seq<FeedbackEntry>,
                            t2: int, text2: string, fb2: seq<FeedbackEntry>)
    requires userA != userB
    ensures var first := Upsert([], Submission(true, Some(Payload(Some(t1), Some(text1), Some(fb1), true))), userA, idA);
            var second := Upsert(first.store, Submission(true, Some(Payload(Some(t2), Some(text2), Some(fb2), true))), userB, idB);
            && |second.store| == 2
            && second.store[0] == first.store[0]
            && second.store[1].userId == userB && second.store[1].conversationId == idB
            && second.outcome.Responded? && second.outcome.response.success
  {
    var first := Upsert([], Submission(true, Some(Payload(Some(t1), Some(text1), Some(fb1), true))), userA, idA);
    assert first.store[0].userId == userA;
    assert CheckForRecentCorrection(first.store, userB, t2) == None;
  }

  // ---------------------------------------------------------------------------
  // get_corrections_by_user_id
  // ---------------------------------------------------------------------------

  /** The records `find({"userId": u})` returns, in stored order. */
  function OwnedBy(store: seq<Correction>, u: string): (rs: seq<Correction>)
    ensures IsSubsequence(rs, store)
    ensures forall c | c in rs :: c.userId == u && c in store
    ensures forall c | c in store && c.userId == u :: c in rs
    decreases |store|
  {
    if store == [] then []
    else
      var rest := OwnedBy(store[1..], u);
      if store[0].userId == u then [store[0]] + rest else rest
  }

  /** The listing keeps every copy of the user's records and nothing else. */
  lemma {:induction false} OwnedByCounts(store: seq<Correction>, u: string)
    ensures var rs := OwnedBy(store, u);
            forall c :: multiset(rs)[c] == if c.userId == u then multiset(store)[c] else 0
    decreases |store|
  {
    if store != [] {
      OwnedByCounts(store[1..], u);
      assert store == [store[0]] + store[1..];
    }
  }

  /** `get_corrections_by_user_id(u)`: a successful response whose
      corrections are exactly the API views of the caller's records. */
  function GetCorrectionsByUserId(store: seq<Correction>, u: string): (r: CorrectionResponse)
    ensures r.success && r.error.None? && r.data.Some?
    ensures |r.data.value| == |OwnedBy(store, u)|
    ensures forall d :: d in r.data.value <==> exists c | c in store :: c.userId == u && DataOf(c) == d
  {
    var rs := OwnedBy(store, u);
    var ds := seq(|rs|, i requires 0 <= i < |rs| => DataOf(rs[i]));
    assert forall c | c in store && c.userId == u :: DataOf(c) in ds by {
      forall c | c in store && c.userId == u ensures DataOf(c) in ds {
        var i :| 0 <= i < |rs| && rs[i] == c;
        assert ds[i] == DataOf(c);
      }
    }
    CorrectionResponse(true, Some(ds), None)
  }

  /** Another user's records never show up in a listing, whatever they hold. */
  lemma ListingIgnoresOthers(store: seq<Correction>, u: string, c: Correction)
    requires c.userId != u
    ensures GetCorrectionsByUserId(store + [c], u) == GetCorrectionsByUserId(store, u)
  {
    OwnedByIgnoresOthers(store, u, c);
  }

  lemma {:induction false} OwnedByIgnoresOthers(store: seq<Correction>, u: string, c: Correction)
    requires c.userId != u
    ensures OwnedBy(store + [c], u) == OwnedBy(store, u)
    decreases |store|
  {
    if store == [] {
      assert [] + [c] == [c];
      assert [c][1..] == [];
    } else {
      assert (store + [c])[1..] == store[1..] + [c];
      OwnedByIgnoresOthers(store[1..], u, c);
    }
  }

  // ---------------------------------------------------------------------------
  // update_user_details_in_db
  // ---------------------------------------------------------------------------

  /** A user document, field name to value; Python's `None` is `JNull`. */
  type Document = map<string, Json>

  /** The document `{"userId": u}` matches. */
  predicate OwnedDocument(d: Document, u: string) {
    "userId" in d && d["userId"] == JString(u)
  }

  /** The `update_data` comprehension: the fields whose value is not `None`. */
  function UpdateData(details: map<string, Json>): (fields: map<string, Json>)
    ensures forall k :: k in fields <==> k in details && details[k] != JNull
    ensures forall k | k in fields :: fields[k] == details[k]
  {
    map k | k in details && details[k] != JNull :: details[k]
  }

  /** The position of the first document with the given `userId`. */
  function FirstUser(users: seq<Document>, u: string): (r: Option<nat>)
    ensures r.None? <==> forall i | 0 <= i < |users| :: !OwnedDocument(users[i], u)
    ensures r.Some? ==> r.value < |users| && OwnedDocument(users[r.value], u)
                        && forall i | 0 <= i < r.value :: !OwnedDocument(users[i], u)
    decreases |users|
  {
    if users == [] then None
    else if OwnedDocument(users[0], u) then Some(0)
    else
      var r := FirstUser(users[1..], u);
      if r.None? then
        assert forall i | 1 <= i < |users| :: users[i] == users[1..][i - 1];
        None
      else
        assert forall i | 1 <= i <= r.value :: users[i] == users[1..][i - 1];
        Some(r.value + 1)
  }

  /** `update_user_details_in_db(u, details)`: the first document of user
      `u` gets the non-`None` fields `$set`; the result is the collection
      afterwards and whether that document actually changed
      (`modified_count > 0`). */
  function UpdateUserDetails(users: seq<Document>, u: string, details: map<string, Json>): (r: (seq<Document>, bool))
    ensures |r.0| == |users|
    ensures FirstUser(users, u).None? ==> r == (users, false)
    ensures FirstUser(users, u).Some? ==>
              var k := FirstUser(users, u).value;
              && (forall i | 0 <= i < |users| && i != k :: r.0[i] == users[i])
              && (r.1 <==> r.0[k] != users[k])
  {
    var k := FirstUser(users, u);
    if k.None? then (users, false)
    else
      var d := users[k.value] + UpdateData(details);
      (users[k.value := d], d != users[k.value])
  }

  /** What the update writes into the matched document: a field given a
      non-`None` value takes it; a field given `None`, or not given at all,
      keeps whatever it had, including being absent. */
  lemma UpdateWritesOnlyGivenFields(users: seq<Document>, u: string, details: map<string, Json>)
    requires FirstUser(users, u).Some?
    ensures var k := FirstUser(users, u).value;
            var after := UpdateUserDetails(users, u, details).0[k];
            && (forall f | f in details && details[f] != JNull :: f in after && after[f] == details[f])
            && (forall f | !(f in details && details[f] != JNull) ::
                  (f in after <==> f in users[k]) && (f in after ==> after[f] == users[k][f]))
  {
  }

  /** Nothing is reported modified when every given field already holds its
      value, or when all are `None`. */
  lemma UpdateUnchangedReportsFalse(users: seq<Document>, u: string, details: map<string, Json>)
    requires FirstUser(users, u).Some?
    requires var k := FirstUser(users, u).value;
             forall f | f in details && details[f] != JNull :: f in users[k] && users[k][f] == details[f]
    ensures UpdateUserDetails(users, u, details) == (users, false)
  {
    var k := FirstUser(users, u).value;
    var d := users[k] + UpdateData(details);
    assert d == users[k];
    assert users[k := d] == users;
  }
}
