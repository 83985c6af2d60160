# Originality checking, work store and license registry — a verified model

This project models the server core of a service where authors submit
written works, have them checked for originality, edit them with a
revision history, and obtain licenses that third parties can verify.

- **Originality checkers.** The current build (`backend/dist/services/plagiarismService.js`)
  normalises text and cuts it into distinct three-word shingles (trigrams).
  It compares a submission with every stored work of *other* authors: the
  similarity is the share of the submission's trigrams found in the other
  work. A work matches above 15 %; the score is the rounded best similarity
  in percent, and a score of 40 or more flags the text. The older
  TypeScript scorer (`backend/src/services/plagiarismService.ts`) adds
  points for suspicious phrases, short content and repeated long words, and
  never looks at other works.
- **Work store** (`backend/src/services/workService.ts`, with `getAllWorks`
  from `backend/dist/services/workService.js`): the in-memory arrays of
  works and revisions, as a class whose methods append and replace.
- **License registry** (`backend/src/services/licenseService.ts`): the
  array of licenses, at most one per work, issued only to the owner of the
  work; issuing marks the work as licensed.
- **Request handlers**: the guard chains of the work routes (both builds),
  the public license verification with its field projection, the license
  routes' guards, the download-link write and the paragraph splitter used
  when the certificate is rendered.
- **Upload validators** (`backend/src/services/fileService.ts`): the
  extension (`path.extname`, POSIX rules) and size checks and the
  text-extraction dispatch.

Modules, one per file: `Records` (record shapes), `Text` (JavaScript string
primitives: `\s`, ASCII lower-casing, `trim`, `split`/`join`,
`includes`), `Trigram`, `Heuristic`, `WorkService`, `LicenseService`,
`FileService`, `Replies` (reply shapes and status codes), `WorkRoutes`,
`HeuristicRoutes`, `PublicRoutes`, `ParagraphSplit`, `LicenseRoutes`.

Conventions:
- Ids from the uuid generator and `new Date()` are parameters (`id`,
  `revisionId`, `now`). Times are natural numbers.
- The signed-in user's id is a parameter. Body fields are `Option<string>`,
  and `Truthy` is JavaScript truthiness of such a field.
- Similarities are exact ratios `overlap / max(|trigrams|, 1)`. Thresholds
  are stated by cross-multiplication: a match needs `100·overlap >
  15·denom`. The score is `Math.round(100·best)` computed exactly, as
  `(200·num + den) div (2·den)`.
- The iteration order of `new Set(...)` is first-occurrence order (`Dedup`).
  The order of `Object.entries` is insertion order (`KeyOrder`).
- The dist and src work services are the same code; `getAllWorks` exists
  only in the dist one. The TypeScript edit and revisions handlers
  (`backend/src/routes/work.ts:82-108`) are the same code as the dist ones
  and are modelled once (`WorkRoutes.EditAsWritten`, `WorkRoutes.Revisions`).

## Model

| member | source | states |
|---|---|---|
| Text.LowerAll | backend/dist/services/plagiarismService.js:9 | `toLowerCase` keeps the length and lower-cases each ASCII capital in place |
| Text.TrimStart | backend/dist/services/plagiarismService.js:9 | what is kept is a suffix of the input that does not start with whitespace |
| Text.TrimStartSpaces | backend/dist/services/plagiarismService.js:9 | every character dropped at the front is whitespace, so exactly the longest all-whitespace prefix goes |
| Text.TrimEnd | backend/dist/services/plagiarismService.js:9 | what is kept is a prefix of the input that does not end with whitespace |
| Text.TrimEndSpaces | backend/dist/services/plagiarismService.js:9 | every character dropped at the end is whitespace, so exactly the longest all-whitespace suffix goes |
| Text.TrimPiece | backend/dist/services/plagiarismService.js:9 | `trim` keeps the piece of its input that starts where the leading whitespace ends, with no whitespace at either end |
| Text.TrimEmpty | backend/dist/services/plagiarismService.js:9 | `trim` gives the empty string exactly for all-whitespace input |
| Text.TrimSpec | backend/dist/services/plagiarismService.js:9 | `trim` leaves no whitespace at either end, returns a contiguous piece of its input, and is empty exactly for all-whitespace input |
| Text.TrimmedFixed | backend/src/services/plagiarismService.ts:60 | trimming already trimmed text changes nothing |
| Text.TrimKeepsHead | backend/src/services/plagiarismService.ts:60 | text starting with a non-space keeps that first character after `trim` |
| Text.CollapseSpaces | backend/dist/services/plagiarismService.js:9 | `replace(/\s+/g, ' ')` never lengthens text, is empty only for empty input, and turns a leading whitespace run into one space |
| Text.Split | backend/src/services/plagiarismService.ts:35 | `split(' ')` gives at least one piece and no piece contains the separator |
| Text.JoinSplit | backend/dist/services/plagiarismService.js:10-15 | joining the pieces of a split gives back the text |
| Text.SplitJoin | backend/dist/services/plagiarismService.js:10-15 | splitting joined separator-free pieces gives back the pieces |
| Text.NonEmpty | backend/dist/services/plagiarismService.js:10 | `filter(Boolean)` keeps only non-empty pieces, and every non-empty piece |
| Text.NonEmptyCounts | backend/dist/services/plagiarismService.js:10 | each non-empty piece is kept as often as it occurs, and no empty piece is kept |
| Text.NonEmptyAppend | backend/dist/services/plagiarismService.js:10 | the pieces keep their order: filtering a concatenation filters each part in turn |
| Text.Contains | backend/src/services/plagiarismService.ts:22 | substring search succeeds exactly when the needle occurs at some index |
| Text.NatToString | backend/src/services/plagiarismService.ts:47 | the decimal rendering of a count is a non-empty digit string |
| Text.NatToStringRoundTrip | backend/src/services/plagiarismService.ts:47 | reading the rendered digits back gives the count |
| Trigram.ReplaceNonWord | backend/dist/services/plagiarismService.js:9 | `replace(/[^a-z0-9\s]/g, ' ')` keeps length, keeps letters, digits and whitespace, and turns everything else into a space |
| Trigram.CollapseShape | backend/dist/services/plagiarismService.js:9 | after collapsing, the text holds only `[a-z0-9]` and single spaces |
| Trigram.Normalize | backend/dist/services/plagiarismService.js:9 | normalised text is no longer than the input and has no space at either end |
| Trigram.NormalizeCanonical | backend/dist/services/plagiarismService.js:9 | normalised text holds only lower-case letters, digits and single spaces, with no space at either end |
| Trigram.NormalizeIdempotent | backend/dist/services/plagiarismService.js:9 | normalising twice equals normalising once |
| Trigram.MakeNgrams | backend/dist/services/plagiarismService.js:12-17 | the loop yields `max(len-n+1, 0)` n-grams, the i-th being words i..i+n-1 joined by spaces |
| Trigram.Dedup | backend/dist/services/plagiarismService.js:18 | the `Set` holds each n-gram exactly once, nothing else, in first-occurrence order |
| Trigram.DedupCard | backend/dist/services/plagiarismService.js:18 | the set's size is the number of distinct n-grams |
| Trigram.TrigramsAreTrigramSet | backend/dist/services/plagiarismService.js:18 | the ordered trigram list and the trigram set have the same members and size |
| Trigram.FewTokensNoTrigrams | backend/dist/services/plagiarismService.js:10-18 | text with fewer than three words has no trigrams |
| Trigram.SharedSpec | backend/dist/services/plagiarismService.js:40-47 | the overlapping phrases are exactly the submission's trigrams present in the other work, each once |
| Trigram.Overlap | backend/dist/services/plagiarismService.js:40-47 | the counting loop's `overlap` is the number of overlapping phrases and the phrases are `Shared` |
| Trigram.OverlapIsIntersection | backend/dist/services/plagiarismService.js:40-48 | the overlap equals the size of the intersection of the two trigram sets |
| Trigram.MatchesAgainst | backend/dist/services/plagiarismService.js:31-55 | every match's similarity lies in [0,1] with a positive denominator |
| Trigram.OtherWorks | backend/dist/services/plagiarismService.js:25 | with a truthy user id exactly that user's works are dropped, otherwise none |
| Trigram.OtherWorksAppend | backend/dist/services/plagiarismService.js:25 | the owner filter distributes over concatenation |
| Trigram.Best | backend/dist/services/plagiarismService.js:57 | the `reduce` maximum is a ratio in [0,1] |
| Trigram.BestLemma | backend/dist/services/plagiarismService.js:57 | the best ratio is at least every match's similarity and is one of them, or 0 with no matches |
| Trigram.RoundPercentFacts | backend/dist/services/plagiarismService.js:58-59 | the rounded score lies in [0,100], reaches 40 exactly when `200·num ≥ 79·den`, is 0 for similarity 0 and 100 for similarity 1 |
| Trigram.AssessFacts | backend/dist/services/plagiarismService.js:57-61 | score in [0,100]; flagged exactly at score ≥ 40, exactly when some match has similarity ≥ 0.395; details say similarities were found exactly when there are matches |
| Trigram.CompareWithFacts | backend/dist/services/plagiarismService.js:34-54 | a work matches exactly when its normalised content is non-empty and `100·overlap > 15·denom`; a match carries the work's id and title and at most 20 phrases common to both texts |
| Trigram.MatchesAgainstIn | backend/dist/services/plagiarismService.js:32-55 | every compared work that matches is in `matches` |
| Trigram.MatchesAgainstFrom | backend/dist/services/plagiarismService.js:32-55 | every entry of `matches` comes from a compared work |
| Trigram.ResultFacts | backend/dist/services/plagiarismService.js:27-61 | every result has matches, a score in [0,100], the flag exactly at ≥ 40, and score 0 with no matches |
| Trigram.OnlyOwnWorksClean | backend/dist/services/plagiarismService.js:25-30 | when all stored works are the submitter's, the result is the clean one with empty matches |
| Trigram.FewTokensClean | backend/dist/services/plagiarismService.js:10-48 | under three words: no trigrams, denominator 1, no matches, score 0, not flagged |
| Trigram.OwnWorksIgnored | backend/dist/services/plagiarismService.js:25 | inserting works of the submitter anywhere in the corpus does not change the result |
| Trigram.MatchesAreOtherOwners | backend/dist/services/plagiarismService.js:25-53 | every match names a stored work of another owner, with its title |
| Trigram.SelfComparison | backend/dist/services/plagiarismService.js:41-49 | a work with the same normalised content (three words or more) matches with similarity 1 |
| Trigram.IdenticalContentFlagged | backend/dist/services/plagiarismService.js:41-59 | a copy of another owner's work scores 100, is flagged, and that work is among the matches with similarity 1 |
| Trigram.FullMatchScores | backend/dist/services/plagiarismService.js:57-59 | a match with similarity 1 makes the score 100 and flags the text |
| Trigram.CompareOne | backend/dist/services/plagiarismService.js:33-54 | the per-work loop body computes the match of that work, or none |
| Trigram.CandidateShingles | backend/dist/services/plagiarismService.js:10-18 | the submission's shingle set, in first-occurrence order, is the specified list of distinct trigrams |
| Trigram.OtherShingles | backend/dist/services/plagiarismService.js:37-38 | the other work's shingle set is the set of its trigrams |
| Trigram.MatchOne | backend/dist/services/plagiarismService.js:40-54 | overlap, denominator and threshold test give the specified match, or none |
| Trigram.CompareAll | backend/dist/services/plagiarismService.js:31-55 | the loop over the other works collects exactly the specified matches, in corpus order |
| Trigram.MatchWithFacts | backend/dist/services/plagiarismService.js:40-54 | a work matches exactly when more than 15% of the candidate shingles occur in it; the match names the work, records the fraction and at most 20 shared shingles |
| Trigram.CheckPlagiarism | backend/dist/services/plagiarismService.js:7-62 | the method's result is the specification's: matches present, score in [0,100], flagged exactly at ≥ 40 |
| Trigram.WorksWithIds | backend/dist/services/plagiarismService.js:69-71 | the alert's works are exactly the stored works whose id is among the given ids |
| Trigram.MatchedWorks | backend/dist/services/plagiarismService.js:69-71 | the alert's works are exactly the stored works that some match names |
| Trigram.CheckPlagiarismWithNotification | backend/dist/services/plagiarismService.js:63-80 | returns exactly the check's result; an alert goes out exactly when flagged with matches, to the given address, naming the matched works |
| Heuristic.FiresSpec | backend/src/services/plagiarismService.ts:12-22 | a pattern fires exactly when one of its phrases occurs in the content, ignoring ASCII case |
| Heuristic.FiredCount | backend/src/services/plagiarismService.ts:21-26 | no more patterns fire than are listed (three in the source) |
| Heuristic.FiredCountZero | backend/src/services/plagiarismService.ts:21-26 | the count is zero exactly when no listed pattern fires |
| Heuristic.PatternDetailsHead | backend/src/services/plagiarismService.ts:21-26 | the pattern notes are empty exactly when no pattern fired |
| Heuristic.ScanPatterns | backend/src/services/plagiarismService.ts:18-26 | the loop adds exactly 25 points and one note per firing pattern |
| Heuristic.KeyOrder | backend/src/services/plagiarismService.ts:36-42 | the dictionary's keys are exactly the counted words (longer than 3), each once |
| Heuristic.RepeatedSpec | backend/src/services/plagiarismService.ts:38-44 | a word is reported exactly when it is longer than 3 characters and occurs more than 3 times, with its true count, once |
| Heuristic.CountWords | backend/src/services/plagiarismService.ts:35-42 | the `forEach` leaves each counted word mapped to its number of occurrences, keys in insertion order |
| Heuristic.RepeatedEntries | backend/src/services/plagiarismService.ts:44 | the entry filter keeps the keys whose count exceeds 3, in key order |
| Heuristic.RepeatedWords | backend/src/services/plagiarismService.ts:35-44 | counting and filtering together give the specified repeated-word entries |
| Heuristic.AssembleScore | backend/src/services/plagiarismService.ts:51-61 | returned score in [0,100]; flagged exactly when it exceeds 50; never flagged without a firing pattern; no matches field |
| Heuristic.AssembleDetails | backend/src/services/plagiarismService.ts:53-55 | the details are "No plagiarism detected" exactly when no rule fired |
| Heuristic.RawDetailsEmpty | backend/src/services/plagiarismService.ts:21-55 | the notes collected are empty exactly when no pattern fired, the content is at least 100 characters long and no word repeats |
| Heuristic.ScoreWith | backend/src/services/plagiarismService.ts:18-61 | the three scoring steps and the final flag, cap and trim compute the specified result for the given repeated-word entries |
| Heuristic.RepeatedInContent | backend/src/services/plagiarismService.ts:34-44 | the words of the normalised content, counted, give exactly the specified repeated-word entries |
| Heuristic.ScoreContent | backend/src/services/plagiarismService.ts:9-61 | the whole scoring method computes the specified result for the given patterns |
| Heuristic.CheckPlagiarismHeuristic | backend/src/services/plagiarismService.ts:5-62 | `checkPlagiarism(content)` depends on the content only; score in [0,100], flagged exactly above 50 |
| Heuristic.WithoutPrototypeKeys | backend/src/services/plagiarismService.ts:36-44 | the plain-object dictionary loses exactly the entries for `constructor` and `__proto__` |
| Heuristic.ConstructorNotReported | backend/src/services/plagiarismService.ts:36-44 | four times "constructor" is a repeated word, but the code as written reports nothing |
| Heuristic.HeuristicAsWritten | backend/src/services/plagiarismService.ts:5-62 | `checkPlagiarism(content)` as written, with the plain-object count: score in [0,100], flagged exactly above 50, never flagged without a firing pattern, no matches field |
| Heuristic.AsWrittenAgrees | backend/src/services/plagiarismService.ts:36-44 | without those two words among the repeated ones, the code as written gives the specified result |
| WorkService.MakeWork | backend/src/services/workService.ts:51-57 | the new work has the given id and time, `isLicensed` false, and the input's other fields |
| WorkService.ApplyPatch | backend/src/services/workService.ts:77-78 | the merge takes each field present in the patch and keeps every other field, id and owner included |
| WorkService.PatchIdempotent | backend/src/services/workService.ts:78 | merging the same patch twice equals merging once; the empty patch changes nothing |
| WorkService.RevisionOf | backend/src/services/workService.ts:82-89 | a revision mirrors the updated work's id, owner, title and content, stamped with the time |
| WorkService.FindIndex | backend/src/services/workService.ts:74 | `findIndex` gives the first work with the id, or none when no work has it |
| WorkService.FindOwned | backend/src/services/workService.ts:68-71 | `find` gives a work with both the id and the owner, or none exactly when there is none |
| WorkService.WorksOfSpec | backend/src/services/workService.ts:64-66 | the owner filter keeps exactly that owner's works |
| WorkService.WorksOfCount | backend/src/services/workService.ts:64-66 | the owner filter keeps every copy of each of that owner's works and nothing else |
| WorkService.WorksOfAppend | backend/src/services/workService.ts:59-66 | after an append, the owner's works are the old ones followed by the new one if it is theirs |
| WorkService.RevisionsFor | backend/src/services/workService.ts:95 | the filter keeps exactly the revisions of that work and owner |
| WorkService.RevisionsForCount | backend/src/services/workService.ts:95 | the filter keeps every stored copy of a revision of that work and owner, and nothing else |
| WorkService.SortByTimeSpec | backend/src/services/workService.ts:95 | the sort orders by `updatedAt`, is a permutation, and keeps the order of revisions with equal times |
| WorkService.SortedUnchanged | backend/src/services/workService.ts:95 | an already ordered list is left as it is |
| WorkService.WorkStore.constructor | backend/src/services/workService.ts:47-48 | the store starts with the loaded arrays |
| WorkService.WorkStore.CreateWork | backend/src/services/workService.ts:51-62 | appends exactly one new work, unlicensed, and changes nothing else; ids stay distinct when the new id is fresh |
| WorkService.WorkStore.GetUserWorks | backend/src/services/workService.ts:64-66 | exactly the stored works of the owner |
| WorkService.WorkStore.GetWork | backend/src/services/workService.ts:68-71 | a work only when both id and owner match; null exactly when no stored work matches both |
| WorkService.WorkStore.UpdateWork | backend/src/services/workService.ts:73-92 | unknown id: null, nothing changes; otherwise only the first slot with the id is replaced by the merge, exactly one mirroring revision is appended, and the stored work is returned |
| WorkService.WorkStore.GetRevisions | backend/src/services/workService.ts:94-96 | exactly the revisions of that work and owner, each as often as the filter keeps it, in ascending time; revisions with the same time stay in storage order, as the stable sort leaves them |
| WorkService.WorkStore.GetAllWorks | backend/dist/services/workService.js:96-98 | exactly the stored works, in storage order |
| WorkService.RevisionsForAppend | backend/src/services/workService.ts:82-95 | the appended revision is listed after all earlier ones of its work and owner |
| WorkService.PatchKeepsOwned | backend/src/services/workService.ts:77-79 | a merge never changes ids or owners, so an owned work stays found |
| LicenseService.NewLicense | backend/src/services/licenseService.ts:57-64 | the license has the given id, work, owner and time, is active, has no link, and carries the details if any were given |
| LicenseService.FindByWork | backend/src/services/licenseService.ts:51 | `find` gives the first license of that work, none exactly when there is none |
| LicenseService.FindLicenseIndex | backend/src/services/licenseService.ts:99 | `findIndex` gives the first license with the id, or none when none has it |
| LicenseService.FindLicense | backend/src/services/licenseService.ts:95 | `find` gives a license with the id, none exactly when there is none |
| LicenseService.FindAgrees | backend/src/services/licenseService.ts:95-99 | `find` and `findIndex` pick the same license |
| LicenseService.LicensesOf | backend/src/services/licenseService.ts:91 | the owner filter keeps exactly that owner's licenses |
| LicenseService.LicenseRegistry.constructor | backend/src/services/licenseService.ts:35 | the registry starts with the loaded licenses over the given store |
| LicenseService.LicenseRegistry.GenerateLicense | backend/src/services/licenseService.ts:38-88 | not found or not owned: error, nothing changes; already licensed: the existing license, nothing changes; otherwise one new license is appended and the work gets `isLicensed` and `licenseId` with one revision; at most one license per work is kept, and license ids stay distinct when the new id is unused |
| LicenseService.LicenseRegistry.GetUserLicenses | backend/src/services/licenseService.ts:90-92 | exactly the owner's licenses |
| LicenseService.LicenseRegistry.VerifyLicense | backend/src/services/licenseService.ts:94-96 | the license with that id, or null exactly when none has it |
| LicenseService.LicenseRegistry.UpdateLicenseUrl | backend/src/services/licenseService.ts:98-104 | unknown id: null, nothing changes; otherwise only that license's link changes, to the new value |
| LicenseService.IssueTwice | backend/src/services/licenseService.ts:51-54 | issuing twice for the same work returns the same license, which is stored, and keeps one license per work |
| LicenseService.FirstByWork | backend/src/services/licenseService.ts:51-66 | once appended for a work with no license, the new license is the one found for it |
| FileService.StripTrailingSlashes | backend/src/services/fileService.ts:92 | `path.extname` first drops exactly the trailing slashes |
| FileService.AfterLastSlash | backend/src/services/fileService.ts:92 | the last path component is the slash-free tail |
| FileService.LastDot | backend/src/services/fileService.ts:92 | the last dot of the component, none exactly when it has no dot |
| FileService.Extname | backend/src/services/fileService.ts:92 | an extension is empty or a dot followed by no further dot or slash |
| FileService.ExtnameOfName | backend/src/services/fileService.ts:81-83 | the name `b.e` has extension `.e` |
| FileService.FileTypeOfName | backend/src/services/fileService.ts:81-83 | the file type of `b.e` is `.e` lower-cased |
| FileService.AcceptedByExtension | backend/src/services/fileService.ts:90-94 | `b.e` is accepted exactly when `e` lower-cased is `txt` or `docx`, so `A.TXT` passes and `a.txt.exe` does not |
| FileService.DotFileRefused | backend/src/services/fileService.ts:90-94 | a name that is a dot and an extension, such as `.txt`, has no extension and is refused |
| FileService.GetFileType | backend/src/services/fileService.ts:81-83 | the file type has the extension's length and shape: empty, or a dot followed by no further dot or slash |
| FileService.FileSizeLimit | backend/src/services/fileService.ts:85-88 | exactly 10 MiB is accepted and one byte more refused; a smaller file passes whenever a larger one does |
| FileService.ValidateFileType | backend/src/services/fileService.ts:90-94 | an accepted name has an extension of a dot and 3 or 4 further characters |
| FileService.UploadFilter | backend/src/services/fileService.ts:24-33 | the filter accepts, or fails with the message naming the extension |
| FileService.FilterAgreesWithValidator | backend/src/services/fileService.ts:24-33 | the upload filter accepts exactly the names the type validator accepts |
| FileService.ExtractText | backend/src/services/fileService.ts:37-69 | extraction succeeds exactly for `.txt`/`.docx` in any case with a readable file; the text is trimmed; every failure has the message naming the type |
| Replies.Status | backend/dist/routes/work.js:17-46 | the reply kinds map to 400, 404, 500 or 200, with 200 exactly for the success replies |
| Replies.GuardReply | backend/dist/routes/work.js:17-22 | a missing title or content gives the "required" message, otherwise short content gives the length message, both 400 |
| WorkRoutes.GateAndCreate | backend/dist/routes/work.js:24-40 | scores against other owners' works; flagged: refused with details, score and matches, nothing stored; else one work of the caller with the score is stored; a copy of another owner's work is always refused |
| WorkRoutes.Submit | backend/dist/routes/work.js:13-46 | the required-field and 50-character guards come first and store nothing; then the plagiarism gate |
| WorkRoutes.SubmitFile | backend/dist/routes/work.js:76-135 | title, file, type and size are checked in that order; the upload is removed exactly when those pass; an extraction failure is a 500; then the length guard and the same gate |
| WorkRoutes.EditPatch | backend/dist/routes/work.js:144 | the patch carries exactly the truthy title and content and nothing else |
| WorkRoutes.EditAsWritten | backend/dist/routes/work.js:137-153 | empty edit: 400, nothing changes; otherwise the first work with the id is merged and a revision appended BEFORE the owner check, and a non-owner gets 404 |
| WorkRoutes.Edit | backend/dist/routes/work.js:137-153 | as the handler, but the owner is checked first: a non-owner gets 404 and nothing changes |
| WorkRoutes.Revisions | backend/dist/routes/work.js:155-166 | exactly the caller's revisions of the work, each as often as stored, oldest first, with equal times in storage order |
| WorkRoutes.AlertEmail | backend/dist/routes/work.js:176 | the caller's e-mail when truthy, else the placeholder address |
| WorkRoutes.CheckWork | backend/dist/routes/work.js:168-184 | 404 unless the caller owns the work; otherwise the check of its content excluding the caller's works, every match another owner's work, and an alert exactly when flagged with matches |
| HeuristicRoutes.SubmitHeuristicAsWritten | backend/src/routes/work.ts:10-47 | the handler as written: the same guards, then the as-written heuristic score of the content alone: flagged (score above 50) is refused without matches, otherwise one work of the caller with the score is stored |
| HeuristicRoutes.SubmitHeuristic | backend/src/routes/work.ts:10-47 | the handler over the corrected, map-based scorer: the same guards, then flagged (score above 50) is refused without matches, otherwise one work of the caller with the score is stored |
| PublicRoutes.Verify | backend/dist/routes/public.js:10-70 | empty id: 400; unknown license: 404 echoing the id; work not found under the license's owner: 404 echoing the id, exactly when the first license with the id has no such work; otherwise verified with only the public fields of the first license with the id and of its owner's first work with the license's work id |
| PublicRoutes.VerifyRevealsNoPrivateField | backend/dist/routes/public.js:37-54 | the reply does not depend on date of birth, address, mobile, download link, content, license link or checker output |
| PublicRoutes.FindLicenseHidden | backend/dist/routes/public.js:19 | the license lookup finds the same license whether or not private fields are present |
| PublicRoutes.FindOwnedHidden | backend/dist/routes/public.js:28 | the work lookup finds the same work whether or not its content is present |
| ParagraphSplit.NormalizeNewlines | backend/src/routes/license.ts:260 | `replace(/\r\n/g, '\n')` never lengthens and leaves text without carriage returns unchanged |
| ParagraphSplit.CrlfNormalized | backend/src/routes/license.ts:260 | text saved with CRLF line ends normalises to the LF text |
| ParagraphSplit.SplitBlank | backend/src/routes/license.ts:261 | `split(/\n\n+/)` gives at least one piece, the first a prefix of the text |
| ParagraphSplit.SplitBlankNoBlank | backend/src/routes/license.ts:261 | no piece holds two adjacent line feeds |
| ParagraphSplit.ParagraphShape | backend/src/routes/license.ts:258-263 | every paragraph is non-empty, trimmed, and holds no blank-line separator |
| ParagraphSplit.ParagraphsRoundTrip | backend/src/routes/license.ts:258-263 | paragraphs joined by a blank line are split back into the same paragraphs in the same order |
| ParagraphSplit.SplitBlankJoin | backend/src/routes/license.ts:261 | splitting paragraphs joined by blank lines gives them back |
| ParagraphSplit.TrimNoBlank | backend/src/routes/license.ts:262 | trimming a piece keeps it free of blank lines |
| LicenseRoutes.Issue | backend/src/routes/license.ts:23-34 | an issuing error becomes 500; otherwise the license returned is stored for the work, the existing one or one new one |
| LicenseRoutes.Generate | backend/src/routes/license.ts:14-35 | no work id: 400, nothing changes; otherwise as `Issue`: a missing or foreign work gives 500 with nothing changed, an already licensed work gives its existing license, and otherwise one new license is appended; a newly issued license carries none of the author details sent |
| LicenseRoutes.GenerateWithDetails | backend/src/routes/license.ts:14-35 | as the handler (400, 500, the existing license, or one new license appended), with a newly issued license carrying the author details sent |
| LicenseRoutes.VerifySummary | backend/src/routes/license.ts:50-71 | 404 exactly for an unknown id, a summary exactly for a known one; the summary holds only id, work, issue time and active flag of the first license with the id |
| LicenseRoutes.SummaryRevealsNoPrivateField | backend/src/routes/license.ts:59-66 | the summary does not depend on the personal fields or the download link |
| LicenseRoutes.Download | backend/src/routes/license.ts:75-88 | 404 unless the license exists, is the caller's, and its work is found under the caller, and a certificate whenever all three hold: the certificate of that license over the work's paragraphs, and only that license's link becomes `/files/licenses/<owner>/<id>.pdf` |

## Left out

- Persistence: loading and saving the JSON files of works, revisions and licenses. The stores are in-memory sequences.
- Concurrency: each handler runs as one atomic step, with no interleaving of async handlers.
- Trigram.CheckPlagiarism: the similarity kept in a match is the exact ratio, not `+sim.toFixed(3)`. The score is `Math.round` of the exact percentage, not of the rounded binary float, The source rounds the similarity to three decimals before `Math.round`, so within about 0.0005 below each half-percent its score is one higher than the model's. For example, a similarity of 0.0049 scores 1 there and 0 here, and similarities in about [0.3945, 0.395) are flagged there and not here.
- Text.LowerAll: lower-cases ASCII only. Non-ASCII characters that JavaScript lower-cases into ASCII are not modelled. The same holds for the `/i` flag of the heuristic patterns.
- Text.IsSpace: `\s` is the ECMAScript set of whitespace and line terminators.
- Replies.GuardReply: the 50-character minimum counts characters, not UTF-16 code units, so text with characters outside the Basic Multilingual Plane may pass here and fail in the source.
- WorkRoutes.SubmitFile: its 50-character minimum on the extracted text counts characters, not UTF-16 code units.
- Heuristic.RawScore: the under-100 rule counts characters, not UTF-16 code units.
- Heuristic.RepeatedSpec: the `word.length > 3` rule is modelled by `Heuristic.Counted` on characters, not UTF-16 code units, and so are `Heuristic.KeyOrder` and `Heuristic.CountWords`. A word of two astral characters, such as two emoji, has length 4 in the source and is counted there, but not here.
- HeuristicRoutes.SubmitHeuristic: scores with the corrected, map-based `HeuristicSpec`, so it reports "constructor" and "__proto__" where `backend/src/routes/work.ts` reports nothing. The handler as written is `HeuristicRoutes.SubmitHeuristicAsWritten`.
- Heuristic.Repeated: integer-like words are listed in insertion order, whereas `Object.entries` puts them first in numeric order. This changes only the order of the note's entries.
- Heuristic.CheckPlagiarismHeuristic: modelled with a true map for counting. The plain-object behaviour of the code as written is `Heuristic.HeuristicAsWritten` (see Findings).
- Console logging.
- E-mail delivery:
  - The plagiarism alert is returned as a value (`PlagiarismAlert`), and a failure to send it is not modelled; the returned result never depends on it.
  - The license notification and the `userEmail` parameter of `generateLicense` are not modelled.
- Certificate rendering: the PDF layout, fonts, page breaks, watermark and file streaming are not modelled. The paragraph splitting and the download-link write are.
- Payments, authentication, the profile card and server wiring are not part of this model.
- Upload and extraction I/O: multer storage and its limits, `readFileSync`, the `.docx` conversion and `unlink` are foreign calls.
  - The outcome of reading the file is a parameter.
  - The upload removal is reported as the flag `removed`.
  - multer rejects a file its filter refuses before the handler runs. That is `FileService.UploadFilter`, and it is not chained into `WorkRoutes.SubmitFile`, which models the handler's own checks.
- The `GET /my-works`, `GET /:workId`, `GET /my-licenses`, `/health` and `/docs` handlers are not modelled. The first three only pass through `GetUserWorks`, `GetWork` and `GetUserLicenses`, which are modelled.
- 500 replies for exceptions from the store, such as failed saves, are not modelled. Only the extraction failure and the registry's own error produce one here.
- WorkService.MakeWork: the input is the typed `Omit<Work, 'id' | 'submittedAt' | 'isLicensed'>`. An input object that smuggles in an `id` key would override the generated id in `{ id, ...workData }`; that case is not modelled.
- Request values of a type other than string, such as a number as `title`, are not modelled. Body fields are optional strings.

## Findings

| source | as written | input that shows it | evidently intended | confidence | as-written member | corrected member |
|---|---|---|---|---|---|---|
| backend/dist/routes/work.js:144-146 (also backend/src/routes/work.ts:88-89) | `updateWork` runs before the owner check, so a caller who does not own the work changes it and adds a revision, then gets 404 | user B sends `PUT /edit/<id of A's work>` with a title | a non-owner's edit changes nothing | high; not executed | WorkRoutes.EditAsWritten | WorkRoutes.Edit |
| backend/src/routes/license.ts:23-29 | the details object is passed in the `userEmail` position of `generateLicense(workId, userId, userEmail, details)`, so the new license carries no author name, date of birth, address, mobile or work type | `POST /generate` with `workId` and `authorName: "A"` for an owned, unlicensed work | the license carries the details sent | high; not executed | LicenseRoutes.Generate | LicenseRoutes.GenerateWithDetails |
| backend/src/services/plagiarismService.ts:36-44 | word counts live in a plain object: `constructor` starts from the inherited function (its count becomes a string and fails `count > 3`), and `__proto__` never becomes an entry | content containing "constructor" four times | every word longer than 3 characters that occurs more than 3 times is reported | medium; not executed | Heuristic.ConstructorNotReported | Heuristic.CheckPlagiarismHeuristic |
