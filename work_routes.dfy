/** The request handlers of backend/dist/routes/work.js: each is a chain of
    early-return guards ending in a store write or a read. The signed-in
    user's id arrives as `userId`; the request body's fields are optional
    strings; the uuid and the clock are parameters. */
module WorkRoutes {
  import opened Records
  import opened Text
  import opened Trigram
  import opened WorkService
  import opened FileService
  import opened Replies

  const TitleRequired := "Title is required"
  const FileRequired := "File is required"
  const InvalidFileType := "Invalid file type. Only .txt and .docx files are supported."
  const FileTooLarge := "File too large. Maximum size is 10MB."
  const FileSubmitFailed := "Failed to submit work from file"
  const NothingToUpdate := "Nothing to update"
  const DefaultEmail := "user@example.com"

  /** The `createWork` input of both submission handlers:
      `{ userId, title, content, plagiarismScore }`. */
  function Submission(userId: string, title: string, content: string, score: int): NewWork {
    NewWork(userId, title, content, None, None, Some(score), None)
  }

  /** What the plagiarism gate and the store write do to the work list:
      a flagged text is refused with the checker's details, score and
      matches and nothing is stored; any other text is stored as exactly
      one new work of the caller, carrying the score. */
  ghost predicate Gated(before: seq<Work>, after: seq<Work>, reply: Reply,
                        userId: string, title: string, content: string, id: string, now: nat)
  {
    var r := CheckPlagiarismSpec(content, Some(userId), before);
    if r.isPlagiarized then reply == Flagged(r.details, r.score, r.matches) && after == before
    else reply == Submitted(MakeWork(Submission(userId, title, content, r.score), id, now), r)
         && after == before + [reply.work]
  }

  /** The tail shared by `/submit` and `/submit-file`: score the text
      against every stored work except the caller's, refuse it when
      flagged, store it otherwise. A text that normalises to the same
      words as another author's work (three words or more) is always
      refused with score 100. */
  method GateAndCreate(store: WorkStore, userId: string, title: string, content: string,
                       id: string, now: nat)
    returns (reply: Reply)
    modifies store
    ensures Gated(old(store.works), store.works, reply, userId, title, content, id, now)
    ensures store.revisions == old(store.revisions)
    ensures reply.Submitted? ==>
              && reply.work.userId == userId && reply.work.plagiarismScore == Some(reply.result.score)
              && 0 <= reply.result.score < FlagScore
    ensures userId != "" && |Tokens(Normalize(content))| >= 3
            && (exists w :: w in old(store.works) && w.userId != userId && Normalize(w.content) == Normalize(content)) ==>
              reply.Flagged? && reply.score == 100 && store.works == old(store.works)
  {
    if userId != "" && |Tokens(Normalize(content))| >= 3
       && exists w :: w in store.works && w.userId != userId && Normalize(w.content) == Normalize(content)
    {
      var w :| w in store.works && w.userId != userId && Normalize(w.content) == Normalize(content);
      IdenticalContentFlagged(content, userId, store.works, w);
    }
    var all := store.GetAllWorks();
    var r := CheckPlagiarism(content, Some(userId), all);
    if r.isPlagiarized {
      return Flagged(r.details, r.score, r.matches);
    }
    var w := store.CreateWork(Submission(userId, title, content, r.score), id, now);
    reply := Submitted(w, r);
  }

  /** `POST /submit`: the required-field and length guards, then the
      plagiarism gate; only an admissible, unflagged text is stored. */
  method Submit(store: WorkStore, userId: string, title: Option<string>, content: Option<string>,
                id: string, now: nat)
    returns (reply: Reply)
    modifies store
    ensures !Admissible(title, content) ==> reply == GuardReply(title, content) && unchanged(store)
    ensures Admissible(title, content) ==>
              Gated(old(store.works), store.works, reply, userId, title.value, content.value, id, now)
    ensures store.revisions == old(store.revisions)
  {
    if !Truthy(title) || !Truthy(content) {
      return BadRequest(FieldsRequired);
    }
    if |content.value| < MinContentLength {
      return BadRequest(TooShort);
    }
    reply := GateAndCreate(store, userId, title.value, content.value, id, now);
  }

  /** The uploaded file as multer describes it. */
  datatype Upload = Upload(originalName: string, size: nat, path: string)

  /** The upload passes the handler's own type and size checks. */
  predicate Acceptable(file: Upload) {
    ValidateFileType(file.originalName) && ValidateFileSize(file.size)
  }

  /** `POST /submit-file`: title, then file presence, then type, then size;
      then the text is extracted (`read` is what reading the file gives,
      absent when that fails) and the upload removed, and only then the
      length guard and the plagiarism gate run. `removed` says whether the
      handler deletes the upload: exactly when it got past the size check. */
  method SubmitFile(store: WorkStore, userId: string, title: Option<string>, file: Option<Upload>,
                    read: Option<string>, id: string, now: nat)
    returns (reply: Reply, removed: bool)
    modifies store
    ensures removed <==> Truthy(title) && file.Some? && Acceptable(file.value)
    ensures !Truthy(title) ==> reply == BadRequest(TitleRequired)
    ensures Truthy(title) && file.None? ==> reply == BadRequest(FileRequired)
    ensures Truthy(title) && file.Some? && !ValidateFileType(file.value.originalName) ==>
              reply == BadRequest(InvalidFileType)
    ensures Truthy(title) && file.Some? && ValidateFileType(file.value.originalName)
              && !ValidateFileSize(file.value.size) ==>
              reply == BadRequest(FileTooLarge)
    ensures removed ==>
              var text := ExtractText(GetFileType(file.value.originalName), read);
              && (text.Err? ==> reply == ServerError(FileSubmitFailed) && unchanged(store))
              && (text.Ok? && |text.value| < MinContentLength ==> reply == BadRequest(TooShort) && unchanged(store))
              && (text.Ok? && |text.value| >= MinContentLength ==>
                    Gated(old(store.works), store.works, reply, userId, title.value, text.value, id, now))
    ensures !removed ==> unchanged(store)
    ensures store.revisions == old(store.revisions)
  {
    removed := false;
    if !Truthy(title) {
      return BadRequest(TitleRequired), removed;
    }
    if file.None? {
      return BadRequest(FileRequired), removed;
    }
    var upload := file.value;
    if !ValidateFileType(upload.originalName) {
      return BadRequest(InvalidFileType), removed;
    }
    if !ValidateFileSize(upload.size) {
      return BadRequest(FileTooLarge), removed;
    }
    var fileType := GetFileType(upload.originalName);
    var text := ExtractText(fileType, read);
    removed := true;
    if text.Err? {
      return ServerError(FileSubmitFailed), removed;
    }
    var content := text.value;
    if |content| < MinContentLength {
      return BadRequest(TooShort), removed;
    }
    reply := GateAndCreate(store, userId, title.value, content, id, now);
  }

  /** `{ ...(title ? { title } : {}), ...(content ? { content } : {}) }`:
      the patch carries exactly the truthy fields, and nothing else. */
  function EditPatch(title: Option<string>, content: Option<string>): (p: WorkPatch)
    ensures p.title.Some? <==> Truthy(title)
    ensures p.content.Some? <==> Truthy(content)
    ensures p.title.Some? ==> p.title == title
    ensures p.content.Some? ==> p.content == content
    ensures p.isLicensed.None? && p.licenseId.None?
  {
    WorkPatch(if Truthy(title) then title else None, if Truthy(content) then content else None, None, None)
  }

  /** `PUT /edit/:workId` as written: the update is applied to the first
      work with that id BEFORE its owner is compared with the caller, so a
      caller who does not own the work gets 404 while the work has already
      been changed and a revision recorded. */
  method EditAsWritten(store: WorkStore, workId: string, userId: string,
                       title: Option<string>, content: Option<string>, revisionId: string, now: nat)
    returns (reply: Reply)
    modifies store
    ensures !Truthy(title) && !Truthy(content) ==> reply == BadRequest(NothingToUpdate) && unchanged(store)
    ensures (Truthy(title) || Truthy(content)) && FindIndex(old(store.works), workId).None? ==>
              reply == NotFound(WorkNotFound) && store.works == old(store.works)
              && store.revisions == old(store.revisions)
    ensures (Truthy(title) || Truthy(content)) && FindIndex(old(store.works), workId).Some? ==>
              var i := FindIndex(old(store.works), workId).value;
              && store.works == old(store.works)[i := ApplyPatch(old(store.works)[i], EditPatch(title, content))]
              && store.revisions == old(store.revisions) + [RevisionOf(revisionId, store.works[i], now)]
              && (old(store.works)[i].userId == userId ==> reply == WorkBody(store.works[i]))
              && (old(store.works)[i].userId != userId ==> reply == NotFound(WorkNotFound))
  {
    if !Truthy(title) && !Truthy(content) {
      return BadRequest(NothingToUpdate);
    }
    var updated := store.UpdateWork(workId, EditPatch(title, content), revisionId, now);
    if updated.None? || updated.value.userId != userId {
      return NotFound(WorkNotFound);
    }
    reply := WorkBody(updated.value);
  }

  /** `PUT /edit/:workId` with the owner compared before the write: the
      reply is the same as the handler's, but a caller who does not own the
      work changes nothing. */
  method Edit(store: WorkStore, workId: string, userId: string,
              title: Option<string>, content: Option<string>, revisionId: string, now: nat)
    returns (reply: Reply)
    modifies store
    ensures !Truthy(title) && !Truthy(content) ==> reply == BadRequest(NothingToUpdate) && unchanged(store)
    ensures (Truthy(title) || Truthy(content)) &&
            (FindIndex(old(store.works), workId).None? ||
             old(store.works)[FindIndex(old(store.works), workId).value].userId != userId) ==>
              reply == NotFound(WorkNotFound) && unchanged(store)
    ensures (Truthy(title) || Truthy(content)) && FindIndex(old(store.works), workId).Some? &&
            old(store.works)[FindIndex(old(store.works), workId).value].userId == userId ==>
              var i := FindIndex(old(store.works), workId).value;
              && store.works == old(store.works)[i := ApplyPatch(old(store.works)[i], EditPatch(title, content))]
              && store.revisions == old(store.revisions) + [RevisionOf(revisionId, store.works[i], now)]
              && reply == WorkBody(store.works[i])
    ensures reply.WorkBody? ==> reply.work.userId == userId && reply.work.id == workId
  {
    if !Truthy(title) && !Truthy(content) {
      return BadRequest(NothingToUpdate);
    }
    var idx := FindIndex(store.works, workId);
    if idx.None? || store.works[idx.value].userId != userId {
      return NotFound(WorkNotFound);
    }
    var updated := store.UpdateWork(workId, EditPatch(title, content), revisionId, now);
    reply := WorkBody(updated.value);
  }

  /** `GET /revisions/:workId`: exactly the caller's revisions of that
      work, oldest first. */
  method Revisions(store: WorkStore, workId: string, userId: string) returns (reply: Reply)
    ensures reply.RevisionList?
    ensures forall v :: v in reply.revisions <==> v in store.revisions && v.workId == workId && v.userId == userId
    ensures SortedByTime(reply.revisions)
    ensures multiset(reply.revisions) == multiset(RevisionsFor(store.revisions, workId, userId))
    ensures forall t :: AtTime(reply.revisions, t) == AtTime(RevisionsFor(store.revisions, workId, userId), t)
  {
    reply := RevisionList(store.GetRevisions(workId, userId));
  }

  /** `req.user?.email || 'user@example.com'` */
  function AlertEmail(userEmail: Option<string>): (e: string)
    ensures e != ""
    ensures Truthy(userEmail) ==> e == userEmail.value
  {
    if Truthy(userEmail) then userEmail.value else DefaultEmail
  }

  /** `GET /plagiarism/:workId`: 404 unless the caller owns the work;
      otherwise the checker's result for the work's content, excluding the
      caller's own works, and an alert to the caller exactly when the work
      is flagged with matches. */
  method CheckWork(store: WorkStore, workId: string, userId: string, userEmail: Option<string>)
    returns (reply: Reply, alert: Option<PlagiarismAlert>)
    ensures store.GetWork(workId, userId).None? ==> reply == NotFound(WorkNotFound) && alert.None?
    ensures store.GetWork(workId, userId).Some? ==>
              var w := store.GetWork(workId, userId).value;
              var r := CheckPlagiarismSpec(w.content, Some(userId), store.works);
              && reply == Checked(r)
              && (alert.Some? <==> r.isPlagiarized && |r.matches.value| > 0)
              && (alert.Some? ==>
                    alert.value.userEmail == AlertEmail(userEmail) && alert.value.workId == workId
                    && alert.value.workTitle == w.title && alert.value.result == r)
    ensures reply.Checked? && userId != "" ==>
              forall m :: m in reply.result.matches.value ==>
                exists w :: w in store.works && w.userId != userId && w.id == m.workId
  {
    alert := None;
    var work := store.GetWork(workId, userId);
    if work.None? {
      return NotFound(WorkNotFound), alert;
    }
    var all := store.GetAllWorks();
    var r;
    r, alert := CheckPlagiarismWithNotification(work.value.content, workId, userId,
                                                AlertEmail(userEmail), work.value.title, all);
    reply := Checked(r);
    if userId != "" {
      forall m | m in r.matches.value
        ensures exists w :: w in store.works && w.userId != userId && w.id == m.workId
      {
        MatchesAreOtherOwners(work.value.content, userId, all, m);
      }
    }
  }
}
