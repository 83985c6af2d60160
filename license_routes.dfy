/** The license handlers of backend/src/routes/license.ts other than the
    certificate rendering: the `/generate` guard, the `/verify` projection,
    and the `/download` ownership guard with its download-link write. */
module LicenseRoutes {
  import opened Records
  import opened WorkService
  import opened LicenseService
  import opened Replies
  import opened ParagraphSplit
  import PublicRoutes

  const WorkIdRequired := "Work ID is required"
  const GenerateFailed := "Failed to generate license"
  const LicenseNotFound := "License not found"

  /** The issuing step of `POST /generate` once `workId` is known to be
      present: the registry's error becomes a 500 reply. */
  method Issue(reg: LicenseRegistry, workId: string, userId: string, details: Option<LicenseDetails>,
               id: string, revisionId: string, now: nat)
    returns (reply: Reply)
    modifies reg, reg.store
    ensures FindOwned(old(reg.store.works), workId, userId).None? ==>
              && reply == ServerError(GenerateFailed)
              && reg.licenses == old(reg.licenses)
              && reg.store.works == old(reg.store.works) && reg.store.revisions == old(reg.store.revisions)
    ensures FindOwned(old(reg.store.works), workId, userId).Some? ==>
              && reply.Issued? && reply.license in reg.licenses && reply.license.workId == workId
              && (FindByWork(old(reg.licenses), workId).Some? ==>
                    reply.license == FindByWork(old(reg.licenses), workId).value && reg.licenses == old(reg.licenses))
              && (FindByWork(old(reg.licenses), workId).None? ==>
                    reply.license == NewLicense(id, workId, userId, now, details)
                    && reg.licenses == old(reg.licenses) + [reply.license])
    ensures OnePerWork(old(reg.licenses)) ==> OnePerWork(reg.licenses)
  {
    var r := reg.GenerateLicense(workId, userId, details, id, revisionId, now);
    if r.Err? {
      return ServerError(GenerateFailed);
    }
    reply := Issued(r.value);
  }

  /** `POST /generate` as written: the body's author details are passed in
      the `userEmail` position of `generateLicense`, so the service sees no
      details and a newly issued license never carries them. */
  method Generate(reg: LicenseRegistry, workId: Option<string>, userId: string, details: LicenseDetails,
                  id: string, revisionId: string, now: nat)
    returns (reply: Reply)
    modifies reg, reg.store
    ensures !Truthy(workId) ==>
              && reply == BadRequest(WorkIdRequired) && reg.licenses == old(reg.licenses)
              && reg.store.works == old(reg.store.works) && reg.store.revisions == old(reg.store.revisions)
    ensures Truthy(workId) && FindOwned(old(reg.store.works), workId.value, userId).None? ==>
              && reply == ServerError(GenerateFailed)
              && reg.licenses == old(reg.licenses)
              && reg.store.works == old(reg.store.works) && reg.store.revisions == old(reg.store.revisions)
    ensures Truthy(workId) && FindOwned(old(reg.store.works), workId.value, userId).Some? ==>
              && reply.Issued? && reply.license in reg.licenses && reply.license.workId == workId.value
              && (FindByWork(old(reg.licenses), workId.value).Some? ==>
                    reply.license == FindByWork(old(reg.licenses), workId.value).value
                    && reg.licenses == old(reg.licenses))
              && (FindByWork(old(reg.licenses), workId.value).None? ==>
                    reply.license == NewLicense(id, workId.value, userId, now, None)
                    && reg.licenses == old(reg.licenses) + [reply.license])
    ensures Truthy(workId) && FindOwned(old(reg.store.works), workId.value, userId).Some?
            && FindByWork(old(reg.licenses), workId.value).None? ==>
              && reply.Issued?
              && reply.license.authorName.None? && reply.license.dob.None? && reply.license.address.None?
              && reply.license.mobile.None? && reply.license.workType.None?
    ensures OnePerWork(old(reg.licenses)) ==> OnePerWork(reg.licenses)
  {
    if !Truthy(workId) {
      return BadRequest(WorkIdRequired);
    }
    reply := Issue(reg, workId.value, userId, None, id, revisionId, now);
  }

  /** `POST /generate` with the details passed where the service expects
      them: a newly issued license carries the author's details. */
  method GenerateWithDetails(reg: LicenseRegistry, workId: Option<string>, userId: string, details: LicenseDetails,
                             id: string, revisionId: string, now: nat)
    returns (reply: Reply)
    modifies reg, reg.store
    ensures !Truthy(workId) ==>
              && reply == BadRequest(WorkIdRequired) && reg.licenses == old(reg.licenses)
              && reg.store.works == old(reg.store.works) && reg.store.revisions == old(reg.store.revisions)
    ensures Truthy(workId) && FindOwned(old(reg.store.works), workId.value, userId).None? ==>
              && reply == ServerError(GenerateFailed)
              && reg.licenses == old(reg.licenses)
              && reg.store.works == old(reg.store.works) && reg.store.revisions == old(reg.store.revisions)
    ensures Truthy(workId) && FindOwned(old(reg.store.works), workId.value, userId).Some? ==>
              && reply.Issued? && reply.license in reg.licenses && reply.license.workId == workId.value
              && (FindByWork(old(reg.licenses), workId.value).Some? ==>
                    reply.license == FindByWork(old(reg.licenses), workId.value).value
                    && reg.licenses == old(reg.licenses))
              && (FindByWork(old(reg.licenses), workId.value).None? ==>
                    reply.license == NewLicense(id, workId.value, userId, now, Some(details))
                    && reg.licenses == old(reg.licenses) + [reply.license])
    ensures Truthy(workId) && FindOwned(old(reg.store.works), workId.value, userId).Some?
            && FindByWork(old(reg.licenses), workId.value).None? ==>
              && reply.Issued?
              && reply.license.authorName == details.authorName && reply.license.dob == details.dob
              && reply.license.address == details.address && reply.license.mobile == details.mobile
              && reply.license.workType == details.workType
    ensures OnePerWork(old(reg.licenses)) ==> OnePerWork(reg.licenses)
  {
    if !Truthy(workId) {
      return BadRequest(WorkIdRequired);
    }
    reply := Issue(reg, workId.value, userId, Some(details), id, revisionId, now);
  }

  /** `GET /verify/:licenseId`: 404 for an unknown id, otherwise only the
      license's id, work, issue time and active flag. */
  function VerifySummary(licenses: seq<License>, licenseId: string): (r: Reply)
    ensures r == NotFound(LicenseNotFound) <==> forall j :: 0 <= j < |licenses| ==> licenses[j].id != licenseId
    ensures r.LicenseSummary? <==> exists j :: 0 <= j < |licenses| && licenses[j].id == licenseId
    ensures r.LicenseSummary? ==>
              && r.id == licenseId
              && var l := FindLicense(licenses, licenseId).value;
                 r.workId == l.workId && r.issuedAt == l.issuedAt && r.isActive == l.isActive
  {
    match FindLicense(licenses, licenseId)
    case None => NotFound(LicenseNotFound)
    case Some(l) => LicenseSummary(l.id, l.workId, l.issuedAt, l.isActive)
  }

  /** The summary reveals no personal data or download link. */
  lemma SummaryRevealsNoPrivateField(licenses: seq<License>, licenseId: string)
    ensures VerifySummary(PublicRoutes.HideAllPrivate(licenses), licenseId) == VerifySummary(licenses, licenseId)
  {
    PublicRoutes.FindLicenseHidden(licenses, licenseId);
  }

  /** Where the rendered certificate is served from. */
  function DownloadUrl(l: License): string {
    "/files/licenses/" + l.userId + "/" + l.id + ".pdf"
  }

  /** `GET /download/:licenseId` without the rendering: 404 unless the
      license exists and is the caller's, 404 unless its work is found
      under the caller; otherwise the certificate of that license over the
      work's paragraphs, and that license alone gets its download link. */
  method Download(reg: LicenseRegistry, licenseId: string, userId: string) returns (reply: Reply)
    modifies reg
    ensures FindLicense(old(reg.licenses), licenseId).None?
            || FindLicense(old(reg.licenses), licenseId).value.userId != userId ==>
              reply == NotFound(LicenseNotFound) && reg.licenses == old(reg.licenses)
    ensures FindLicense(old(reg.licenses), licenseId).Some?
            && FindLicense(old(reg.licenses), licenseId).value.userId == userId
            && reg.store.GetWork(FindLicense(old(reg.licenses), licenseId).value.workId, userId).None? ==>
              reply == NotFound(WorkNotFound) && reg.licenses == old(reg.licenses)
    ensures reply.Certificate? ==>
              && FindLicenseIndex(old(reg.licenses), licenseId).Some?
              && var i := FindLicenseIndex(old(reg.licenses), licenseId).value;
              && var l := old(reg.licenses)[i];
              && l.userId == userId && reply.license == l
              && reg.store.GetWork(l.workId, userId).Some?
              && reply.paragraphs == Paragraphs(reg.store.GetWork(l.workId, userId).value.content)
              && reg.licenses == old(reg.licenses)[i := l.(downloadUrl := Some(DownloadUrl(l)))]
    ensures FindLicense(old(reg.licenses), licenseId).Some?
            && FindLicense(old(reg.licenses), licenseId).value.userId == userId
            && reg.store.GetWork(FindLicense(old(reg.licenses), licenseId).value.workId, userId).Some? ==>
              reply.Certificate?
    ensures reply.NotFound? || reply.Certificate?
  {
    ghost var ls0 := reg.licenses;
    FindAgrees(ls0, licenseId);
    var license := reg.VerifyLicense(licenseId);
    assert license == FindLicense(ls0, licenseId);
    if license.None? || license.value.userId != userId {
      return NotFound(LicenseNotFound);
    }
    var l := license.value;
    var work := reg.store.GetWork(l.workId, userId);
    if work.None? {
      return NotFound(WorkNotFound);
    }
    ghost var i := FindLicenseIndex(ls0, licenseId).value;
    assert ls0[i] == l;
    var paragraphs := Paragraphs(work.value.content);
    var _ := reg.UpdateLicenseUrl(l.id, DownloadUrl(l));
    assert reg.licenses == ls0[i := l.(downloadUrl := Some(DownloadUrl(l)))];
    reply := Certificate(l, paragraphs);
  }
}
