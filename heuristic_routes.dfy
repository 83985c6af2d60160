/** The `/submit` handler of backend/src/routes/work.ts, which scores with
    the heuristic checker and never reads the corpus. Its edit and
    revision handlers are the ones in `WorkRoutes`. */
module HeuristicRoutes {
  import opened Records
  import opened WorkService
  import opened Heuristic
  import opened Replies
  import opened WorkRoutes

  /** `POST /submit`: the same guards as the current build, then the
      heuristic score of the content alone; a flagged text is refused with
      details and score (no matches), any other is stored as one new work
      of the caller carrying the score. */
  method SubmitHeuristic(store: WorkStore, userId: string, title: Option<string>, content: Option<string>,
                         id: string, now: nat)
    returns (reply: Reply)
    modifies store
    ensures !Admissible(title, content) ==> reply == GuardReply(title, content) && unchanged(store)
    ensures Admissible(title, content) ==>
              var r := HeuristicSpec(content.value);
              && (r.isPlagiarized ==> reply == Flagged(r.details, r.score, None) && store.works == old(store.works))
              && (!r.isPlagiarized ==>
                    && reply == Submitted(MakeWork(Submission(userId, title.value, content.value, r.score), id, now), r)
                    && store.works == old(store.works) + [reply.work])
    ensures reply.Flagged? ==> FlagAbove < reply.score <= 100
    ensures reply.Submitted? ==> 0 <= reply.result.score <= FlagAbove && reply.work.userId == userId
    ensures store.revisions == old(store.revisions)
  {
    if !Truthy(title) || !Truthy(content) {
      return BadRequest(FieldsRequired);
    }
    if |content.value| < MinContentLength {
      return BadRequest(TooShort);
    }
    var r := CheckPlagiarismHeuristic(content.value);
    if r.isPlagiarized {
      return Flagged(r.details, r.score, None);
    }
    var w := store.CreateWork(Submission(userId, title.value, content.value, r.score), id, now);
    reply := Submitted(w, r);
  }

  /** `POST /submit` as written: the same handler over the plain-object
      word count, so "constructor" and "__proto__" never add the
      repetition points. */
  method SubmitHeuristicAsWritten(store: WorkStore, userId: string, title: Option<string>, content: Option<string>,
                                  id: string, now: nat)
    returns (reply: Reply)
    modifies store
    ensures !Admissible(title, content) ==> reply == GuardReply(title, content) && unchanged(store)
    ensures Admissible(title, content) ==>
              var r := HeuristicAsWritten(content.value);
              && (r.isPlagiarized ==> reply == Flagged(r.details, r.score, None) && store.works == old(store.works))
              && (!r.isPlagiarized ==>
                    && reply == Submitted(MakeWork(Submission(userId, title.value, content.value, r.score), id, now), r)
                    && store.works == old(store.works) + [reply.work])
    ensures reply.Flagged? ==> FlagAbove < reply.score <= 100
    ensures reply.Submitted? ==> 0 <= reply.result.score <= FlagAbove && reply.work.userId == userId
    ensures store.revisions == old(store.revisions)
  {
    if !Truthy(title) || !Truthy(content) {
      return BadRequest(FieldsRequired);
    }
    if |content.value| < MinContentLength {
      return BadRequest(TooShort);
    }
    var r := HeuristicAsWritten(content.value);
    if r.isPlagiarized {
      return Flagged(r.details, r.score, None);
    }
    var w := store.CreateWork(Submission(userId, title.value, content.value, r.score), id, now);
    reply := Submitted(w, r);
  }
}
