/** The license registry (backend/src/services/licenseService.ts): one
    license per work, issued to the work's owner, which also flags the work
    as licensed in the work store. The compiled
    backend/dist/services/licenseService.js holds the same logic. */
module LicenseService {
  import opened Records
  import opened WorkService

  /** The optional certificate metadata of `generateLicense`. */
  datatype LicenseDetails = LicenseDetails(
    authorName: Option<string>,
    dob: Option<string>,
    address: Option<string>,
    mobile: Option<string>,
    workType: Option<string>)

  const NotFoundOrDenied := "Work not found or access denied"

  /** `{ id, workId, userId, issuedAt, isActive: true, ...(details || {}) }` */
  function NewLicense(id: string, workId: string, userId: string, now: nat,
                      details: Option<LicenseDetails>): (l: License)
    ensures l.id == id && l.workId == workId && l.userId == userId && l.issuedAt == now
    ensures l.isActive && l.downloadUrl.None?
    ensures details.None? ==> l.authorName.None? && l.dob.None? && l.address.None? && l.mobile.None? && l.workType.None?
    ensures details.Some? ==>
              && l.authorName == details.value.authorName && l.dob == details.value.dob
              && l.address == details.value.address && l.mobile == details.value.mobile
              && l.workType == details.value.workType
  {
    match details
    case None => License(id, workId, userId, now, None, true, None, None, None, None, None)
    case Some(d) => License(id, workId, userId, now, None, true, d.authorName, d.dob, d.address, d.mobile, d.workType)
  }

  /** `licenses.find(l => l.workId === workId)`: the first license of that
      work. */
  function FindByWork(ls: seq<License>, workId: string): (r: Option<License>)
    ensures r.None? <==> forall k :: 0 <= k < |ls| ==> ls[k].workId != workId
    ensures r.Some? ==> r.value in ls && r.value.workId == workId
    ensures r.Some? ==>
              exists k :: 0 <= k < |ls| && ls[k] == r.value && forall j :: 0 <= j < k ==> ls[j].workId != workId
  {
    if |ls| == 0 then None
    else if ls[0].workId == workId then Some(ls[0])
    else FindByWork(ls[1..], workId)
  }

  /** `licenses.findIndex(l => l.id === licenseId)`, absent for -1. */
  function FindLicenseIndex(ls: seq<License>, licenseId: string): (r: Option<nat>)
    ensures r.Some? ==> r.value < |ls| && ls[r.value].id == licenseId
    ensures r.Some? ==> forall j :: 0 <= j < r.value ==> ls[j].id != licenseId
    ensures r.None? <==> forall j :: 0 <= j < |ls| ==> ls[j].id != licenseId
  {
    if |ls| == 0 then None
    else if ls[0].id == licenseId then Some(0)
    else
      match FindLicenseIndex(ls[1..], licenseId)
      case None => None
      case Some(i) => Some(i + 1)
  }

  /** `licenses.find(license => license.id === licenseId) || null` */
  function FindLicense(ls: seq<License>, licenseId: string): (r: Option<License>)
    ensures r.None? <==> forall j :: 0 <= j < |ls| ==> ls[j].id != licenseId
    ensures r.Some? ==> r.value in ls && r.value.id == licenseId
  {
    if |ls| == 0 then None
    else if ls[0].id == licenseId then Some(ls[0])
    else FindLicense(ls[1..], licenseId)
  }

  /** `find` and `findIndex` agree: the license found is the one at the
      index found. */
  lemma {:induction false} FindAgrees(ls: seq<License>, licenseId: string)
    ensures FindLicense(ls, licenseId) ==
              match FindLicenseIndex(ls, licenseId)
              case None => None
              case Some(i) => Some(ls[i])
  {
    if |ls| > 0 && ls[0].id != licenseId {
      FindAgrees(ls[1..], licenseId);
    }
  }

  /** `licenses.filter(license => license.userId === userId)` */
  function LicensesOf(ls: seq<License>, userId: string): (r: seq<License>)
    ensures forall l :: l in r <==> l in ls && l.userId == userId
    ensures |r| <= |ls|
  {
    if |ls| == 0 then []
    else
      var rest := LicensesOf(ls[1..], userId);
      assert forall l :: l in ls <==> l == ls[0] || l in ls[1..];
      if ls[0].userId == userId then [ls[0]] + rest else rest
  }

  /** At most one license per work. */
  predicate OnePerWork(ls: seq<License>) {
    forall i, j :: 0 <= i < j < |ls| ==> ls[i].workId != ls[j].workId
  }

  /** Licenses whose ids are distinct. */
  predicate UniqueLicenseIds(ls: seq<License>) {
    forall i, j :: 0 <= i < j < |ls| ==> ls[i].id != ls[j].id
  }

  /** The patch `generateLicense` applies to the licensed work. */
  function LicensedPatch(licenseId: string): WorkPatch {
    WorkPatch(None, None, Some(true), Some(licenseId))
  }

  /** The registry: the `licenses` array, and the work store it flags. */
  class LicenseRegistry {
    var licenses: seq<License>
    const store: WorkStore

    constructor (store: WorkStore, loaded: seq<License>)
      ensures this.store == store && licenses == loaded
    {
      this.store := store;
      licenses := loaded;
    }

    /** `generateLicense(workId, userId, userEmail, details)`, with the
        new license's id, the revision id for the work update and the clock
        handed in. */
    method GenerateLicense(workId: string, userId: string, details: Option<LicenseDetails>,
                           id: string, revisionId: string, now: nat)
      returns (r: Result<License>)
      modifies this, store
      ensures FindOwned(old(store.works), workId, userId).None? ==>
                && r == Err(NotFoundOrDenied)
                && licenses == old(licenses)
                && store.works == old(store.works) && store.revisions == old(store.revisions)
      ensures FindOwned(old(store.works), workId, userId).Some? && FindByWork(old(licenses), workId).Some? ==>
                && r == Ok(FindByWork(old(licenses), workId).value)
                && licenses == old(licenses)
                && store.works == old(store.works) && store.revisions == old(store.revisions)
      ensures FindOwned(old(store.works), workId, userId).Some? && FindByWork(old(licenses), workId).None? ==>
                var i := FindIndex(old(store.works), workId).value;
                && FindIndex(old(store.works), workId).Some?
                && r == Ok(NewLicense(id, workId, userId, now, details))
                && licenses == old(licenses) + [r.value]
                && store.works == old(store.works)[i := ApplyPatch(old(store.works)[i], LicensedPatch(id))]
                && store.revisions == old(store.revisions) + [RevisionOf(revisionId, store.works[i], now)]
      ensures OnePerWork(old(licenses)) ==> OnePerWork(licenses)
      ensures UniqueLicenseIds(old(licenses)) && FindLicense(old(licenses), id).None? ==>
                UniqueLicenseIds(licenses)
    {
      var work := store.GetWork(workId, userId);
      if work.None? {
        return Err(NotFoundOrDenied);
      }
      var existing := FindByWork(licenses, workId);
      if existing.Some? {
        return Ok(existing.value);
      }
      var license := NewLicense(id, workId, userId, now, details);
      licenses := licenses + [license];
      var _ := store.UpdateWork(workId, LicensedPatch(license.id), revisionId, now);
      r := Ok(license);
    }

    /** `getUserLicenses(userId)` */
    function GetUserLicenses(userId: string): (r: seq<License>)
      reads this
      ensures forall l :: l in r <==> l in licenses && l.userId == userId
    {
      LicensesOf(licenses, userId)
    }

    /** `verifyLicense(licenseId)` */
    function VerifyLicense(licenseId: string): (r: Option<License>)
      reads this
      ensures r.Some? ==> r.value in licenses && r.value.id == licenseId
      ensures r.None? <==> forall l :: l in licenses ==> l.id != licenseId
    {
      FindLicense(licenses, licenseId)
    }

    /** `updateLicenseUrl(licenseId, downloadUrl)`: for an unknown id
        nothing changes; otherwise only the first license with that id gets
        the new URL, replacing any earlier one. */
    method UpdateLicenseUrl(licenseId: string, downloadUrl: string) returns (r: Option<License>)
      modifies this
      ensures FindLicenseIndex(old(licenses), licenseId).None? ==> r.None? && licenses == old(licenses)
      ensures FindLicenseIndex(old(licenses), licenseId).Some? ==>
                var i := FindLicenseIndex(old(licenses), licenseId).value;
                && licenses == old(licenses)[i := old(licenses)[i].(downloadUrl := Some(downloadUrl))]
                && r == Some(licenses[i])
      ensures OnePerWork(old(licenses)) ==> OnePerWork(licenses)
      ensures |licenses| == |old(licenses)|
    {
      var idx := FindLicenseIndex(licenses, licenseId);
      if idx.None? {
        return None;
      }
      var i := idx.value;
      licenses := licenses[i := licenses[i].(downloadUrl := Some(downloadUrl))];
      r := Some(licenses[i]);
    }
  }

  /** Issuing twice for the same work gives the same license: the second
      call finds the first one and changes nothing. */
  method IssueTwice(reg: LicenseRegistry, workId: string, userId: string, details: Option<LicenseDetails>,
                    id1: string, rev1: string, id2: string, rev2: string, now: nat)
    returns (first: Result<License>, second: Result<License>)
    modifies reg, reg.store
    ensures first.Ok? ==> second == first
    ensures first.Ok? ==> exists k :: 0 <= k < |reg.licenses| && reg.licenses[k] == first.value
    ensures OnePerWork(old(reg.licenses)) ==> OnePerWork(reg.licenses)
  {
    ghost var ws0, ls0 := reg.store.works, reg.licenses;
    first := reg.GenerateLicense(workId, userId, details, id1, rev1, now);
    if first.Ok? {
      assert FindOwned(ws0, workId, userId).Some?;
      if FindByWork(ls0, workId).None? {
        var i := FindIndex(ws0, workId).value;
        PatchKeepsOwned(ws0, i, LicensedPatch(id1), workId, userId);
        FirstByWork(ls0, first.value, workId);
        assert reg.licenses[|ls0|] == first.value;
      } else {
        var k :| 0 <= k < |ls0| && ls0[k] == first.value;
      }
    }
    second := reg.GenerateLicense(workId, userId, details, id2, rev2, now);
  }

  lemma FirstByWork(ls: seq<License>, l: License, workId: string)
    requires FindByWork(ls, workId).None? && l.workId == workId
    ensures FindByWork(ls + [l], workId) == Some(l)
  {
    if |ls| > 0 {
      assert (ls + [l])[1..] == ls[1..] + [l];
      FirstByWork(ls[1..], l, workId);
    }
  }
}
