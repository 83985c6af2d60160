/** The JSON replies of the request handlers, one constructor per reply
    shape, with the HTTP status each one is sent with. */
module Replies {
  import opened Records

  datatype Reply =
    | BadRequest(error: string)
      /** 400 `{ error: 'Plagiarism detected', details, score, matches }`;
          `matches` is absent from the heuristic route's reply. */
    | Flagged(details: string, score: int, matches: Option<seq<Match>>)
    | NotFound(error: string)
    | ServerError(error: string)
      /** 200 `{ work, plagiarismResult }` */
    | Submitted(work: Work, result: PlagiarismResult)
      /** 200 `{ work }` */
    | WorkBody(work: Work)
      /** 200 `{ revisions }` */
    | RevisionList(revisions: seq<WorkRevision>)
      /** 200, the checker's result object itself */
    | Checked(result: PlagiarismResult)
      /** 200 `{ license }` */
    | Issued(license: License)
      /** 200 `{ license: { id, workId, issuedAt, isActive } }` */
    | LicenseSummary(id: string, workId: string, issuedAt: nat, isActive: bool)
      /** 200, the certificate PDF of `license` with the work's paragraphs */
    | Certificate(license: License, paragraphs: seq<string>)

  function Status(r: Reply): (code: nat)
    ensures code == 200 || code == 400 || code == 404 || code == 500
    ensures code == 200 <==> !(r.BadRequest? || r.Flagged? || r.NotFound? || r.ServerError?)
  {
    match r
    case BadRequest(_) => 400
    case Flagged(_, _, _) => 400
    case NotFound(_) => 404
    case ServerError(_) => 500
    case _ => 200
  }

  const FieldsRequired := "Title and content are required"
  const TooShort := "Content must be at least 50 characters long"
  const WorkNotFound := "Work not found"

  /** The shortest content a submission may have. */
  const MinContentLength: nat := 50

  /** The guard both `/submit` handlers run before scoring: a truthy title
      and content, and content of at least 50 characters. */
  predicate Admissible(title: Option<string>, content: Option<string>) {
    Truthy(title) && Truthy(content) && |content.value| >= MinContentLength
  }

  /** The reply to a submission the guard refuses. */
  function GuardReply(title: Option<string>, content: Option<string>): (r: Reply)
    requires !Admissible(title, content)
    ensures Status(r) == 400
    ensures r == BadRequest(FieldsRequired) <==> !Truthy(title) || !Truthy(content)
    ensures r != BadRequest(FieldsRequired) ==> r == BadRequest(TooShort) && |content.value| < MinContentLength
  {
    if !Truthy(title) || !Truthy(content) then BadRequest(FieldsRequired) else BadRequest(TooShort)
  }
}
