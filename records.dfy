/** The record shapes shared by the services and routes: works, their
    revisions, licenses, and the result of an originality check. Timestamps
    (`Date`) are natural numbers; ids are strings handed in by the caller in
    place of the uuid generator. */
module Records {

  datatype Option<+T> = None | Some(value: T)

  /** A thrown `Error` (with its message) or a returned value. */
  datatype Result<+T> = Ok(value: T) | Err(message: string)

  datatype Work = Work(
    id: string,
    userId: string,
    title: string,
    content: string,
    submittedAt: nat,
    licenseId: Option<string>,
    isLicensed: bool,
    plagiarismScore: Option<int>,
    plagiarismDetails: Option<string>)

  datatype WorkRevision = WorkRevision(
    id: string,
    workId: string,
    userId: string,
    title: string,
    content: string,
    updatedAt: nat)

  datatype License = License(
    id: string,
    workId: string,
    userId: string,
    issuedAt: nat,
    downloadUrl: Option<string>,
    isActive: bool,
    authorName: Option<string>,
    dob: Option<string>,
    address: Option<string>,
    mobile: Option<string>,
    workType: Option<string>)

  /** A non-negative fraction `num / den`; every one built here has `den >= 1`. */
  datatype Ratio = Ratio(num: nat, den: nat)

  /** One corpus work whose trigram containment passed the match threshold. */
  datatype Match = Match(
    workId: string,
    workTitle: string,
    similarity: Ratio,
    overlappingPhrases: seq<string>)

  /** `matches` is absent from the heuristic scorer's result. */
  datatype PlagiarismResult = PlagiarismResult(
    isPlagiarized: bool,
    score: int,
    details: string,
    matches: Option<seq<Match>>)

  /** JavaScript truthiness of an optional string field of a request body. */
  predicate Truthy(s: Option<string>) {
    s.Some? && s.value != ""
  }
}
