/** The work and revision store (backend/src/services/workService.ts, and
    its compiled form backend/dist/services/workService.js, which adds
    `getAllWorks`). The two module-level arrays are the fields of one
    object; ids and timestamps are handed in by the caller in place of the
    uuid generator and the clock. */
module WorkService {
  import opened Records

  /** The fields `createWork` is given. The declared type omits `isLicensed`,
      but a caller may still pass it; it is overwritten. */
  datatype NewWork = NewWork(
    userId: string,
    title: string,
    content: string,
    licenseId: Option<string>,
    isLicensed: Option<bool>,
    plagiarismScore: Option<int>,
    plagiarismDetails: Option<string>)

  /** A `Partial<Work>` as the callers build it: the edit route's title and
      content, the license registry's `isLicensed` and `licenseId`. An
      absent field is a key the object does not have. */
  datatype WorkPatch = WorkPatch(
    title: Option<string>,
    content: Option<string>,
    isLicensed: Option<bool>,
    licenseId: Option<string>)

  function Pick<T>(base: T, update: Option<T>): T {
    if update.Some? then update.value else base
  }

  /** `{ id, ...workData, submittedAt, isLicensed: false }` */
  function MakeWork(data: NewWork, id: string, now: nat): (w: Work)
    ensures w.id == id && w.submittedAt == now && !w.isLicensed
    ensures w.userId == data.userId && w.title == data.title && w.content == data.content
    ensures w.licenseId == data.licenseId && w.plagiarismScore == data.plagiarismScore
    ensures w.plagiarismDetails == data.plagiarismDetails
  {
    Work(id, data.userId, data.title, data.content, now, data.licenseId, false,
         data.plagiarismScore, data.plagiarismDetails)
  }

  /** `{ ...before, ...updates }`: the keys present in the patch take its
      values; every other field keeps its value. */
  function ApplyPatch(w: Work, p: WorkPatch): (r: Work)
    ensures r.id == w.id && r.userId == w.userId && r.submittedAt == w.submittedAt
    ensures r.plagiarismScore == w.plagiarismScore && r.plagiarismDetails == w.plagiarismDetails
    ensures p.title.None? ==> r.title == w.title
    ensures p.title.Some? ==> r.title == p.title.value
    ensures p.content.None? ==> r.content == w.content
    ensures p.content.Some? ==> r.content == p.content.value
    ensures p.isLicensed.None? ==> r.isLicensed == w.isLicensed
    ensures p.isLicensed.Some? ==> r.isLicensed == p.isLicensed.value
    ensures p.licenseId.None? ==> r.licenseId == w.licenseId
    ensures p.licenseId.Some? ==> r.licenseId == p.licenseId
  {
    w.(title := Pick(w.title, p.title),
       content := Pick(w.content, p.content),
       isLicensed := Pick(w.isLicensed, p.isLicensed),
       licenseId := if p.licenseId.Some? then p.licenseId else w.licenseId)
  }

  /** Merging the same patch twice is merging it once; the empty patch
      changes nothing. */
  lemma PatchIdempotent(w: Work, p: WorkPatch)
    ensures ApplyPatch(ApplyPatch(w, p), p) == ApplyPatch(w, p)
    ensures ApplyPatch(w, WorkPatch(None, None, None, None)) == w
  {
  }

  /** The revision `updateWork` records for the updated work. */
  function RevisionOf(id: string, w: Work, now: nat): (r: WorkRevision)
    ensures r.id == id && r.workId == w.id && r.userId == w.userId
    ensures r.title == w.title && r.content == w.content && r.updatedAt == now
  {
    WorkRevision(id, w.id, w.userId, w.title, w.content, now)
  }

  /** `works.findIndex(w => w.id === workId)`, absent for -1. */
  function FindIndex(ws: seq<Work>, workId: string): (r: Option<nat>)
    ensures r.Some? ==> r.value < |ws| && ws[r.value].id == workId
    ensures r.Some? ==> forall j :: 0 <= j < r.value ==> ws[j].id != workId
    ensures r.None? <==> forall j :: 0 <= j < |ws| ==> ws[j].id != workId
  {
    if |ws| == 0 then None
    else if ws[0].id == workId then Some(0)
    else
      match FindIndex(ws[1..], workId)
      case None => None
      case Some(i) => Some(i + 1)
  }

  predicate Owned(w: Work, workId: string, userId: string) {
    w.id == workId && w.userId == userId
  }

  /** `works.find(w => w.id === workId && w.userId === userId) || null`:
      the first work with that id and owner. */
  function FindOwned(ws: seq<Work>, workId: string, userId: string): (r: Option<Work>)
    ensures r.None? <==> forall j :: 0 <= j < |ws| ==> !Owned(ws[j], workId, userId)
    ensures r.Some? ==> exists k :: 0 <= k < |ws| && ws[k] == r.value && Owned(ws[k], workId, userId)
                          && forall j :: 0 <= j < k ==> !Owned(ws[j], workId, userId)
  {
    if |ws| == 0 then None
    else if Owned(ws[0], workId, userId) then Some(ws[0])
    else
      var r := FindOwned(ws[1..], workId, userId);
      assert r.Some? ==> exists k :: 0 <= k < |ws| && ws[k] == r.value && Owned(ws[k], workId, userId)
                          && forall j :: 0 <= j < k ==> !Owned(ws[j], workId, userId) by {
        if r.Some? {
          var k :| 0 <= k < |ws| - 1 && ws[1..][k] == r.value && Owned(ws[1..][k], workId, userId)
                   && forall j :: 0 <= j < k ==> !Owned(ws[1..][j], workId, userId);
          assert ws[k + 1] == r.value;
          assert forall j :: 1 <= j < k + 1 ==> ws[j] == ws[1..][j - 1];
        }
      }
      r
  }

  /** `works.filter(work => work.userId === userId)` */
  function WorksOf(ws: seq<Work>, userId: string): (r: seq<Work>)
    ensures |r| <= |ws|
  {
    if |ws| == 0 then []
    else
      var rest := WorksOf(ws[1..], userId);
      if ws[0].userId == userId then [ws[0]] + rest else rest
  }

  /** The owner filter keeps exactly that owner's works. */
  lemma {:induction false} WorksOfSpec(ws: seq<Work>, userId: string)
    ensures forall w :: w in WorksOf(ws, userId) <==> w in ws && w.userId == userId
  {
    if |ws| > 0 {
      WorksOfSpec(ws[1..], userId);
      assert forall w :: w in ws <==> w == ws[0] || w in ws[1..];
    }
  }

  /** A user's works are exactly the stored works owned by the user, each as
      often as it is stored. */
  lemma {:induction false} WorksOfCount(ws: seq<Work>, userId: string)
    ensures forall w :: multiset(WorksOf(ws, userId))[w] == if w.userId == userId then multiset(ws)[w] else 0
  {
    if |ws| > 0 {
      WorksOfCount(ws[1..], userId);
      assert ws == [ws[0]] + ws[1..];
    }
  }

  /** The filter distributes over concatenation, so storage order is kept. */
  lemma {:induction false} WorksOfAppend(ws: seq<Work>, extra: seq<Work>, userId: string)
    ensures WorksOf(ws + extra, userId) == WorksOf(ws, userId) + WorksOf(extra, userId)
  {
    if |ws| > 0 {
      var rest := ws[1..];
      WorksOfAppend(rest, extra, userId);
      assert (ws + extra)[0] == ws[0];
      assert (ws + extra)[1..] == rest + extra;
    } else {
      assert ws + extra == extra;
    }
  }

  /** `revisions.filter(r => r.workId === workId && r.userId === userId)` */
  function RevisionsFor(rs: seq<WorkRevision>, workId: string, userId: string): (r: seq<WorkRevision>)
    ensures forall v :: v in r <==> v in rs && v.workId == workId && v.userId == userId
    ensures |r| <= |rs|
  {
    if |rs| == 0 then []
    else
      var init := RevisionsFor(rs[..|rs| - 1], workId, userId);
      var last := rs[|rs| - 1];
      assert forall v :: v in rs <==> v in rs[..|rs| - 1] || v == last;
      if last.workId == workId && last.userId == userId then init + [last] else init
  }

  /** The filter keeps every copy of a matching revision and nothing else. */
  lemma {:induction false} RevisionsForCount(rs: seq<WorkRevision>, workId: string, userId: string)
    ensures forall v :: multiset(RevisionsFor(rs, workId, userId))[v] ==
              if v.workId == workId && v.userId == userId then multiset(rs)[v] else 0
  {
    if |rs| > 0 {
      RevisionsForCount(rs[..|rs| - 1], workId, userId);
      assert rs == rs[..|rs| - 1] + [rs[|rs| - 1]];
    }
  }

  predicate SortedByTime(rs: seq<WorkRevision>) {
    forall i, j :: 0 <= i < j < |rs| ==> rs[i].updatedAt <= rs[j].updatedAt
  }

  /** Places `x` before the first element not earlier than it. */
  function InsertByTime(x: WorkRevision, s: seq<WorkRevision>): seq<WorkRevision> {
    if |s| == 0 || x.updatedAt <= s[0].updatedAt then [x] + s
    else [s[0]] + InsertByTime(x, s[1..])
  }

  /** `.sort((a, b) => a.updatedAt.getTime() - b.updatedAt.getTime())`, a
      stable sort by timestamp. */
  function SortByTime(s: seq<WorkRevision>): seq<WorkRevision> {
    if |s| == 0 then [] else InsertByTime(s[0], SortByTime(s[1..]))
  }

  /** The revisions carrying timestamp `t`, in order. */
  function AtTime(s: seq<WorkRevision>, t: nat): seq<WorkRevision> {
    if |s| == 0 then []
    else (if s[0].updatedAt == t then [s[0]] else []) + AtTime(s[1..], t)
  }

  lemma {:induction false} InsertSorted(x: WorkRevision, s: seq<WorkRevision>)
    requires SortedByTime(s)
    ensures SortedByTime(InsertByTime(x, s))
    ensures |InsertByTime(x, s)| == |s| + 1
    ensures InsertByTime(x, s)[0] == x || (|s| > 0 && InsertByTime(x, s)[0] == s[0])
  {
    if !(|s| == 0 || x.updatedAt <= s[0].updatedAt) {
      InsertSorted(x, s[1..]);
    }
  }

  lemma {:induction false} InsertCount(x: WorkRevision, s: seq<WorkRevision>)
    ensures multiset(InsertByTime(x, s)) == multiset(s) + multiset{x}
  {
    if !(|s| == 0 || x.updatedAt <= s[0].updatedAt) {
      InsertCount(x, s[1..]);
      assert s == [s[0]] + s[1..];
    }
  }

  lemma {:induction false} InsertStable(x: WorkRevision, s: seq<WorkRevision>, t: nat)
    ensures AtTime(InsertByTime(x, s), t) == (if x.updatedAt == t then [x] else []) + AtTime(s, t)
  {
    if |s| == 0 || x.updatedAt <= s[0].updatedAt {
      AtTimeCons(x, s, t);
    } else {
      var rest := s[1..];
      InsertStable(x, rest, t);
      var r := InsertByTime(x, rest);
      assert InsertByTime(x, s) == [s[0]] + r;
      AtTimeCons(s[0], r, t);
      AtTimeCons(s[0], rest, t);
      assert s == [s[0]] + rest;
      if x.updatedAt == t {
        assert s[0].updatedAt != t;
      } else if s[0].updatedAt == t {
        assert AtTime(r, t) == AtTime(rest, t);
      }
    }
  }

  lemma AtTimeCons(y: WorkRevision, r: seq<WorkRevision>, t: nat)
    ensures AtTime([y] + r, t) == (if y.updatedAt == t then [y] else []) + AtTime(r, t)
  {
    assert ([y] + r)[1..] == r;
  }

  /** The sorted listing is ordered by timestamp, holds exactly the given
      revisions, and keeps revisions with equal timestamps in their stored
      order (the sort is stable). */
  lemma {:induction false} SortByTimeSpec(s: seq<WorkRevision>)
    ensures SortedByTime(SortByTime(s))
    ensures multiset(SortByTime(s)) == multiset(s)
    ensures forall t :: AtTime(SortByTime(s), t) == AtTime(s, t)
  {
    if |s| > 0 {
      SortByTimeSpec(s[1..]);
      InsertSorted(s[0], SortByTime(s[1..]));
      InsertCount(s[0], SortByTime(s[1..]));
      assert s == [s[0]] + s[1..];
      forall t ensures AtTime(SortByTime(s), t) == AtTime(s, t) {
        InsertStable(s[0], SortByTime(s[1..]), t);
      }
    }
  }

  /** Revisions already in timestamp order are listed as stored. */
  lemma {:induction false} SortedUnchanged(s: seq<WorkRevision>)
    requires SortedByTime(s)
    ensures SortByTime(s) == s
  {
    if |s| > 0 {
      SortedUnchanged(s[1..]);
    }
  }

  predicate UniqueIds(ws: seq<Work>) {
    forall i, j :: 0 <= i < j < |ws| ==> ws[i].id != ws[j].id
  }

  function Ids(ws: seq<Work>): set<string> {
    set w | w in ws :: w.id
  }

  /** The in-memory store: `works` and `revisions`. */
  class WorkStore {
    var works: seq<Work>
    var revisions: seq<WorkRevision>

    /** The arrays as loaded from persistence at start-up. */
    constructor (loadedWorks: seq<Work>, loadedRevisions: seq<WorkRevision>)
      ensures works == loadedWorks && revisions == loadedRevisions
    {
      works := loadedWorks;
      revisions := loadedRevisions;
    }

    /** `createWork(workData)`: appends one new work with id `id`, time
        `now` and `isLicensed` false; nothing else changes. */
    method CreateWork(data: NewWork, id: string, now: nat) returns (w: Work)
      modifies this
      ensures w == MakeWork(data, id, now)
      ensures works == old(works) + [w] && revisions == old(revisions)
      ensures UniqueIds(old(works)) && id !in Ids(old(works)) ==> UniqueIds(works)
    {
      w := MakeWork(data, id, now);
      works := works + [w];
      assert forall k :: 0 <= k < |old(works)| ==> old(works)[k] in old(works);
    }

    /** `getUserWorks(userId)` */
    function GetUserWorks(userId: string): (r: seq<Work>)
      reads this
      ensures forall w :: w in r <==> w in works && w.userId == userId
    {
      WorksOfSpec(works, userId);
      WorksOf(works, userId)
    }

    /** `getWork(workId, userId)` */
    function GetWork(workId: string, userId: string): (r: Option<Work>)
      reads this
      ensures r.Some? ==> r.value in works && r.value.id == workId && r.value.userId == userId
      ensures r.None? <==> forall w :: w in works ==> !(w.id == workId && w.userId == userId)
    {
      FindOwned(works, workId, userId)
    }

    /** `updateWork(workId, updates)`: for an unknown id nothing changes and
        the result is null; otherwise the first work with that id is
        replaced by the merge, and exactly one revision mirroring it is
        appended. */
    method UpdateWork(workId: string, updates: WorkPatch, revisionId: string, now: nat)
      returns (r: Option<Work>)
      modifies this
      ensures FindIndex(old(works), workId).None? ==>
                r.None? && works == old(works) && revisions == old(revisions)
      ensures FindIndex(old(works), workId).Some? ==>
                var i := FindIndex(old(works), workId).value;
                && works == old(works)[i := ApplyPatch(old(works)[i], updates)]
                && r == Some(works[i])
                && revisions == old(revisions) + [RevisionOf(revisionId, works[i], now)]
      ensures UniqueIds(old(works)) ==> UniqueIds(works)
    {
      var idx := FindIndex(works, workId);
      if idx.None? {
        return None;
      }
      var i := idx.value;
      var after := ApplyPatch(works[i], updates);
      works := works[i := after];
      revisions := revisions + [WorkRevision(revisionId, workId, after.userId, after.title, after.content, now)];
      r := Some(works[i]);
    }

    /** `getRevisions(workId, userId)` */
    function GetRevisions(workId: string, userId: string): (r: seq<WorkRevision>)
      reads this
      ensures forall v :: v in r <==> v in revisions && v.workId == workId && v.userId == userId
      ensures SortedByTime(r)
      ensures multiset(r) == multiset(RevisionsFor(revisions, workId, userId))
      ensures forall t :: AtTime(r, t) == AtTime(RevisionsFor(revisions, workId, userId), t)
    {
      var found := RevisionsFor(revisions, workId, userId);
      SortByTimeSpec(found);
      assert forall v :: v in SortByTime(found) <==> v in multiset(found);
      SortByTime(found)
    }

    /** `getAllWorks()`: every stored work in storage order. The result is a
        value, so later changes to the store do not reach it. */
    method GetAllWorks() returns (snapshot: seq<Work>)
      ensures snapshot == works
      ensures forall w :: w in snapshot <==> w in works
    {
      snapshot := works;
    }
  }

  /** After a successful update the new revision is listed for its work and
      owner, after the ones listed before. */
  lemma RevisionsForAppend(rs: seq<WorkRevision>, v: WorkRevision, workId: string, userId: string)
    ensures RevisionsFor(rs + [v], workId, userId)
            == RevisionsFor(rs, workId, userId) + (if v.workId == workId && v.userId == userId then [v] else [])
  {
    assert (rs + [v])[..|rs|] == rs;
  }

  /** A patch never changes ids or owners, so a work found for its owner is
      still found after any update. */
  lemma PatchKeepsOwned(ws: seq<Work>, i: nat, p: WorkPatch, workId: string, userId: string)
    requires i < |ws|
    requires FindOwned(ws, workId, userId).Some?
    ensures FindOwned(ws[i := ApplyPatch(ws[i], p)], workId, userId).Some?
  {
    var k :| 0 <= k < |ws| && Owned(ws[k], workId, userId);
    var ws' := ws[i := ApplyPatch(ws[i], p)];
    assert Owned(ws'[k], workId, userId);
  }
}
