/** The unauthenticated `GET /verify/:licenseId` handler of
    backend/dist/routes/public.js: a guard chain over the license registry
    and the work store, ending in a projection that publishes only the
    public fields of the license and of its work. */
module PublicRoutes {
  import opened Records
  import opened WorkService
  import opened LicenseService

  const IdRequired := "License ID is required"
  const LicenseNotFound := "License not found"
  const AssociatedWorkNotFound := "Associated work not found"
  const VerifiedBy := "ISOWS-INDIA API v1.0"

  /** The license fields a verifier may see: no owner, no personal data,
      no download link. */
  datatype PublicLicense = PublicLicense(
    id: string,
    workId: string,
    issuedAt: nat,
    isActive: bool,
    authorName: Option<string>,
    workType: Option<string>)

  /** The work fields a verifier may see: no content. */
  datatype PublicWork = PublicWork(id: string, title: string, submittedAt: nat, isLicensed: bool)

  datatype Verification = Verification(verified: bool, verifiedAt: nat, verifiedBy: string)

  /** `{ success: false, error }` (400), `{ success: false, error, licenseId }`
      (404), or `{ success: true, license, work, verification }` (200). */
  datatype PublicReply =
    | Invalid(error: string)
    | Unknown(error: string, licenseId: string)
    | Verified(license: PublicLicense, work: PublicWork, verification: Verification)

  function PublicStatus(r: PublicReply): nat {
    match r
    case Invalid(_) => 400
    case Unknown(_, _) => 404
    case Verified(_, _, _) => 200
  }

  function LicenseView(l: License): PublicLicense {
    PublicLicense(l.id, l.workId, l.issuedAt, l.isActive, l.authorName, l.workType)
  }

  function WorkView(w: Work): PublicWork {
    PublicWork(w.id, w.title, w.submittedAt, w.isLicensed)
  }

  /** The handler, with the registry's licenses, the store's works and the
      clock as inputs. The work is looked up under the license's own
      owner, so a work that has changed hands or vanished is reported. */
  function Verify(licenses: seq<License>, works: seq<Work>, licenseId: string, now: nat): (r: PublicReply)
    ensures licenseId == "" <==> r == Invalid(IdRequired)
    ensures r.Unknown? ==>
              r.licenseId == licenseId && (r.error == LicenseNotFound || r.error == AssociatedWorkNotFound)
    ensures r == Unknown(LicenseNotFound, licenseId) <==>
              licenseId != "" && forall j :: 0 <= j < |licenses| ==> licenses[j].id != licenseId
    ensures r == Unknown(AssociatedWorkNotFound, licenseId) <==>
              && licenseId != "" && FindLicense(licenses, licenseId).Some?
              && var l := FindLicense(licenses, licenseId).value;
                 FindOwned(works, l.workId, l.userId).None?
    ensures r.Verified? <==>
              && licenseId != "" && FindLicense(licenses, licenseId).Some?
              && var l := FindLicense(licenses, licenseId).value;
                 FindOwned(works, l.workId, l.userId).Some?
    ensures r.Verified? ==>
              && r.verification.verified && r.verification.verifiedAt == now
              && r.license.id == licenseId
              && var l := FindLicense(licenses, licenseId).value;
                 && r.license == LicenseView(l)
                 && r.work == WorkView(FindOwned(works, l.workId, l.userId).value)
    ensures PublicStatus(r) == 200 <==> r.Verified?
  {
    if licenseId == "" then Invalid(IdRequired)
    else match FindLicense(licenses, licenseId)
      case None => Unknown(LicenseNotFound, licenseId)
      case Some(l) =>
        match FindOwned(works, l.workId, l.userId)
        case None => Unknown(AssociatedWorkNotFound, licenseId)
        case Some(w) => Verified(LicenseView(l), WorkView(w), Verification(true, now, VerifiedBy))
  }

  /** The private license fields blanked out. */
  function HidePrivate(l: License): License {
    l.(dob := None, address := None, mobile := None, downloadUrl := None)
  }

  /** Work fields outside the public view blanked out. */
  function HideContent(w: Work): Work {
    w.(content := "", licenseId := None, plagiarismScore := None, plagiarismDetails := None)
  }

  function HideAllPrivate(ls: seq<License>): (r: seq<License>)
    ensures |r| == |ls| && forall j :: 0 <= j < |ls| ==> r[j] == HidePrivate(ls[j])
  {
    seq(|ls|, j requires 0 <= j < |ls| => HidePrivate(ls[j]))
  }

  function HideAllContent(ws: seq<Work>): (r: seq<Work>)
    ensures |r| == |ws| && forall j :: 0 <= j < |ws| ==> r[j] == HideContent(ws[j])
  {
    seq(|ws|, j requires 0 <= j < |ws| => HideContent(ws[j]))
  }

  lemma {:induction false} FindLicenseHidden(ls: seq<License>, licenseId: string)
    ensures FindLicense(HideAllPrivate(ls), licenseId).None? <==> FindLicense(ls, licenseId).None?
    ensures FindLicense(ls, licenseId).Some? ==>
              FindLicense(HideAllPrivate(ls), licenseId) == Some(HidePrivate(FindLicense(ls, licenseId).value))
  {
    if |ls| > 0 && ls[0].id != licenseId {
      var h := HideAllPrivate(ls);
      assert h[0].id != licenseId;
      HideAllPrivateTail(ls);
      FindLicenseHidden(ls[1..], licenseId);
    }
  }

  lemma HideAllPrivateTail(ls: seq<License>)
    requires |ls| > 0
    ensures HideAllPrivate(ls)[1..] == HideAllPrivate(ls[1..])
  {
  }

  lemma {:induction false} FindOwnedHidden(ws: seq<Work>, workId: string, userId: string)
    ensures FindOwned(HideAllContent(ws), workId, userId).None? <==> FindOwned(ws, workId, userId).None?
    ensures FindOwned(ws, workId, userId).Some? ==>
              FindOwned(HideAllContent(ws), workId, userId) == Some(HideContent(FindOwned(ws, workId, userId).value))
  {
    if |ws| > 0 && !Owned(ws[0], workId, userId) {
      var h := HideAllContent(ws);
      assert !Owned(h[0], workId, userId);
      HideAllContentTail(ws);
      FindOwnedHidden(ws[1..], workId, userId);
    }
  }

  lemma HideAllContentTail(ws: seq<Work>)
    requires |ws| > 0
    ensures HideAllContent(ws)[1..] == HideAllContent(ws[1..])
  {
  }

  /** Nothing private leaks: the reply is the same whether or not the
      licenses carry a date of birth, address, mobile number or download
      link and whether or not the works carry their content, license link
      or checker output. */
  lemma VerifyRevealsNoPrivateField(licenses: seq<License>, works: seq<Work>, licenseId: string, now: nat)
    ensures Verify(HideAllPrivate(licenses), HideAllContent(works), licenseId, now)
            == Verify(licenses, works, licenseId, now)
  {
    FindLicenseHidden(licenses, licenseId);
    match FindLicense(licenses, licenseId)
    case None =>
    case Some(l) =>
      FindOwnedHidden(works, l.workId, l.userId);
  }
}
