# Agent CRM: assignment store, brochure storage and page logic in Dafny

This project models the deterministic core of the Agent CRM back office. The database and the file system are replaced by in-memory values, and every operation is a pure function from one state to the next. It covers four parts.

- **Agent/university assignment store** (`Assignments`). Assignment records follow the Mongoose schema, with its required references and its unique `(agentId, universityId)` index. The module models:
  - `bulkAssign`, the product of universities and agents written as insert-if-absent upserts;
  - `syncUniversityAgents`, which deletes the agents no longer requested and inserts the new ones;
  - the per-university counts of `getAssignmentCounts`.
- **Brochure storage** (`Slug`, `FileTree`, `Brochures`). The module models:
  - `slugify` and the storage folder `documents/brochure/<university>_<title>`;
  - the file name, with its single timestamp fallback;
  - creating, updating and deleting a brochure;
  - the best-effort file and folder cleanup, and the cascades of program and brochure-type deletion;
  - the agent-only filtering of the program and brochure listings.

  The file system is a map from segment paths to file contents plus a set of directories.
- **Admin and agent pages.** Three pages are covered:
  - the agent-assignment dialog (`AssignmentModal`): edit or bulk mode, loading, search, toggle, select-all, and the save guard and result;
  - the agent brochure table (`AgentBrochures`): collecting, sorting newest first, filtering, pagination and the download link;
  - the applied-students list (`AppliedStudents`): search, the single expanded row, stage colours and the latest application.
- **Student password recovery.** Two pages are covered:
  - the one-time-code page (`VerifyOtp`): the code field, the submit guards, and the resend countdown as a state machine over one-second ticks;
  - the reset page (`ResetPassword`): the validation order, the request, and the choice among the invalid-link, success and form views.

Shared pieces sit in `Common` (option values, JavaScript `||`, filters, duplicate-freedom) and in `Text`. `Text` models string primitives: ASCII case mapping, `includes`, `indexOf`, first-match `replace`, `split`, `trim` and decimal printing.

Requests, replies, clocks and timers are inputs to the model. Toasts, navigation targets and requests sent are output values.

A few behaviours of the code are modelled as written and stated as lemmas:
- Sync does not deduplicate the requested ids, so a repeated new agent makes the insert fail after the deletions (`Assignments.SyncDuplicateFails`).
- The grandparent-folder guard is a substring test, so it also removes the brochure root itself (`FileTree.CleanupRemovesBrochureRoot`).
- The timestamped file name is not checked again, so it can replace an existing file (`Brochures.SuffixedNameOverwrites`).
- Deleting a program leaves its assignments (`Brochures.DeleteProgramKeepsAssignments`).
- The brochure search text is trimmed only to decide whether to search (`AgentBrochures.LeadingSpaceMisses`).

## Model

| member | source | states |
|---|---|---|
| Text.LowerOfUpper | frontend/src/pages/applications/AppliedStudents.jsx:41-43 | lower-casing after upper-casing gives the same text as lower-casing alone, which makes the searches case-insensitive |
| Text.IndexOfFirst | frontend/src/pages/agent/AgentBrochures.jsx:8 | `indexOf` returns the first position where the pattern occurs, no earlier position matches, and -1 exactly when the pattern does not occur |
| Text.ReplaceFirstSpec | frontend/src/pages/agent/AgentBrochures.jsx:8 | a string-pattern `replace` leaves the text alone when the pattern is absent, and otherwise cuts out its first occurrence and puts the replacement there |
| Text.SplitOnWords | frontend/src/pages/applications/AppliedStudents.jsx:249 | three space-free words joined by single spaces split back into exactly those three words |
| Text.TrimSurrounding | backend/src/controllers/brochureController.js:12 | `trim` removes exactly the white space around a middle that neither starts nor ends with white space |
| Text.TrimEmptyIff | frontend/src/pages/agent/AgentBrochures.jsx:79 | a trimmed query is empty exactly when the query is white space only |
| Text.ParseNatToString | backend/src/controllers/brochureController.js:378-379 | the decimal text of the timestamp reads back as the same number |
| Text.NatToStringInjective | backend/src/controllers/brochureController.js:378-379 | different timestamps print differently |
| Slug.CollapseRunsShape | backend/src/controllers/brochureController.js:13-15 | after `replace(/R+/g, '-')` the only class member left is `-`, no two class members are adjacent, and a first character outside the class is kept |
| Slug.CollapseRunsIdentity | backend/src/controllers/brochureController.js:13-15 | a string whose class members are all lone hyphens is left unchanged by the run replacement |
| Slug.TrimLowerNoUpper | backend/src/controllers/brochureController.js:11-12 | after `toLowerCase` and `trim` no upper-case letter is left |
| Slug.KeptAreSlugChars | backend/src/controllers/brochureController.js:14 | removing the non-word characters from text without capitals leaves only lower-case letters, digits, `_` and `-` |
| Slug.SlugifyIsSlug | backend/src/controllers/brochureController.js:8-16 | for every input, `slugify` yields only lower-case word characters and `-`, with no white space and no `--` |
| Slug.SlugifyFixesSlugs | backend/src/controllers/brochureController.js:8-16 | `slugify` returns a slug unchanged |
| Slug.SlugifyIdempotent | backend/src/controllers/brochureController.js:8-16 | slugifying twice gives the same result as slugifying once |
| Slug.DashSpacesOneRun | backend/src/controllers/brochureController.js:13 | one blank run between two blank-free words becomes exactly one hyphen |
| Slug.SqueezeHyphensOneRun | backend/src/controllers/brochureController.js:15 | one hyphen run between two hyphen-free words becomes exactly one hyphen |
| Slug.SlugifyTwoWords | backend/src/controllers/brochureController.js:8-16 | for two blank-separated words followed by punctuation, the outer blanks are dropped, the inner blanks become one `-`, and the punctuation is removed |
| Slug.SlugifyExampleUniversity | backend/src/controllers/brochureController.js:8-16 | `"  Some   University! "` slugifies to `"some-university"` |
| Slug.SlugifyExampleHyphens | backend/src/controllers/brochureController.js:8-16 | `"A--B"` slugifies to `"a-b"` |
| FileTree.SplitSegments | backend/src/controllers/brochureController.js:329 | `path.join` normalisation yields only non-empty, slash-free segments |
| FileTree.SplitRender | backend/src/controllers/brochureController.js:337 | the slash-separated rendering of a path parses back to the same path |
| FileTree.RenderAppend | backend/src/controllers/brochureController.js:385 | appending a segment to a path appends `/` and the segment to its rendering |
| FileTree.Join | backend/src/controllers/brochureController.js:374 | the joined path keeps the folder as its prefix |
| FileTree.Parent | backend/src/controllers/brochureController.js:514 | `path.dirname` drops the last segment, and the root is its own parent |
| FileTree.BaseNameNoSlash | backend/src/controllers/brochureController.js:371 | a slash-free name is its own base name |
| FileTree.LastDotIsLast | backend/src/controllers/brochureController.js:371 | no dot follows the position the extension search finds |
| FileTree.ExtnameTail | backend/src/controllers/brochureController.js:371 | a non-empty `extname` is a dot-led, dot-free tail of the base name that leaves a non-empty stem |
| FileTree.ExtnameOf | backend/src/controllers/brochureController.js:371 | `extname` of `stem.e` is `.e` for a dot-free `e` and a stem that is neither empty nor `.` |
| FileTree.RemoveEmptyDirClosed | backend/src/controllers/brochureController.js:515-517 | removing an empty directory keeps the tree closed, meaning every entry still has a parent directory |
| FileTree.MkdirP | backend/src/controllers/brochureController.js:332-334 | a successful recursive `mkdirSync` leaves the files alone, keeps every directory and makes the folder exist |
| FileTree.MkdirPClosed | backend/src/controllers/brochureController.js:332-334 | recursive `mkdir` keeps the tree closed and adds only the folder and its ancestors |
| FileTree.Rename | backend/src/controllers/brochureController.js:383 | `renameSync` succeeds exactly when the source is a file, the target is not a directory and its folder exists; the target then holds the source's contents, replacing any file there, the source is gone and every other file stays |
| FileTree.UploadPath | backend/src/controllers/brochureController.js:509 | the absolute path of a stored url starts with the working directory followed by `uploads` |
| FileTree.CleanupFile | backend/src/controllers/brochureController.js:507-532 | without a url nothing happens, a url with nothing behind it changes nothing, and a removal leaves the named file gone |
| FileTree.CleanupFileEffect | backend/src/controllers/brochureController.js:507-532 | the cleanup removes at most the named file, its parent if empty, and its grandparent if empty and its path contains the brochure root; nothing is added and the remaining files keep their contents |
| FileTree.CleanupFileClosed | backend/src/controllers/brochureController.js:507-532 | the cleanup keeps the tree closed |
| FileTree.BrochureDirGuarded | backend/src/controllers/brochureController.js:522 | the rendered brochure root itself contains the text the grandparent guard looks for |
| FileTree.CleanupRemovesBrochureRoot | backend/src/controllers/brochureController.js:520-523 | deleting the only brochure file removes its folder and then the brochure root, because the substring guard matches the root |
| Brochures.FindProgram | backend/src/controllers/brochureController.js:322-323 | the lookup returns a listed program with that id, or none exactly when no program has it |
| Brochures.FindBrochure | backend/src/controllers/brochureController.js:500-504 | the lookup returns a stored brochure with that id, or none exactly when no brochure has it |
| Brochures.FolderNameIsSegment | backend/src/controllers/brochureController.js:325-326 | `<slug(name or 'University')>_<slug(title)>` is a single non-empty, slash-free path segment |
| Brochures.BrochureFolderResolves | backend/src/controllers/brochureController.js:329-337 | the relative folder string resolves below `uploads` to the folder's absolute path |
| Brochures.StoragePathShape | backend/src/controllers/brochureController.js:321-340 | an unknown program gives no storage; otherwise the relative path is `/documents/brochure/` plus the folder name, and it resolves to the absolute folder |
| Brochures.NamesDiffer | backend/src/controllers/brochureController.js:372-379 | the timestamped name always differs from the plain one |
| Brochures.FinalNameChoice | backend/src/controllers/brochureController.js:376-381 | the plain name `slug(title)+ext` is kept exactly when nothing exists under it; otherwise the name is `slug(title)_<seconds>ext` |
| Brochures.SuffixedNameIsSegment | backend/src/controllers/brochureController.js:378-379 | the timestamped name is always one path segment |
| Brochures.FinalNameIsSegment | backend/src/controllers/brochureController.js:371-381 | once the folder exists, the chosen name is one segment; an empty plain name collides with the folder itself and falls back to the timestamp |
| Brochures.PlaceUpload | backend/src/controllers/brochureController.js:363-399 | a placement that is not stored keeps the temporary url `/uploads/temp/<filename>`, records multer's file name and leaves the files untouched |
| Brochures.PlaceWithoutProgram | backend/src/controllers/brochureController.js:391-399 | an unknown program keeps the temporary url and name and leaves the file system as it was |
| Brochures.PlaceRoundTrip | backend/src/controllers/brochureController.js:370-390 | a stored upload's url resolves below `uploads` to a file in the program's folder holding the upload's contents, under the recorded name |
| Brochures.RenamedFileResolves | backend/src/controllers/brochureController.js:383-385 | after the move, the url built from the folder and the name leads to the moved file |
| Brochures.UrlResolves | backend/src/controllers/brochureController.js:385 | `relativePath + '/' + name` resolves below `uploads` to the folder's entry `name` |
| Brochures.SuffixedNameOverwrites | backend/src/controllers/brochureController.js:376-383 | when both the plain and the timestamped names are taken, the upload replaces the file already stored under the timestamped name |
| Brochures.KeepDate | backend/src/controllers/brochureController.js:403 | the date is kept exactly when it is present and non-empty |
| Brochures.CreateBrochure | backend/src/controllers/brochureController.js:342-418 | a created brochure is appended after the existing records; a failed file call changes no record; programs, types and assignments are untouched |
| Brochures.CreateBrochureRecord | backend/src/controllers/brochureController.js:345-399 | the new record has the program, the category `brochure_category_id` or else `category_id`, the kept date, the placed url and name, and a `url` defaulting to the file url |
| Brochures.UnlinkIfExists | backend/src/controllers/brochureController.js:466-469 | the old file is removed only if it exists; directories and the other files' contents stay |
| Brochures.Patch | backend/src/controllers/brochureController.js:422-427 | `{ ...req.body }` applied to one record: every field the body gives replaces the stored one, even when it is empty, the program and date included; an absent field is kept; a truthy `category_id` overrides `brochure_category_id`; the id never changes |
| Brochures.PatchNoChangesIdempotent | backend/src/controllers/brochureController.js:422-484 | an empty body leaves the record as it was, and applying a body twice is applying it once |
| Brochures.PatchOverwrites | backend/src/controllers/brochureController.js:422-484 | a body giving every field determines the patched record whatever was stored, apart from its id |
| Brochures.PatchAll | backend/src/controllers/brochureController.js:484 | `findByIdAndUpdate` patches exactly the records with the id and no other |
| Brochures.UpdateBrochure | backend/src/controllers/brochureController.js:419-494 | an update never touches programs, types or assignments, and a failed update changes no record |
| Brochures.UpdateUnknownBrochure | backend/src/controllers/brochureController.js:429-431 | an unknown id is a 404 that changes neither records nor files |
| Brochures.UpdateOldFile | backend/src/controllers/brochureController.js:463-473 | with a file, the update removes at most the old file, only when the record had one and the new url differs; no directory is removed |
| Brochures.UpdatePatchesRecord | backend/src/controllers/brochureController.js:419-489 | a successful update leaves every other record as it was; the record with that id takes the body's title, program, category and date when given and keeps them otherwise; without a file it is exactly the patched record |
| Brochures.UpdateFileFields | backend/src/controllers/brochureController.js:429-482 | with a file, the updated record takes the placed file's url and name, and its `url` is the body's when truthy and the file's url otherwise |
| Brochures.DeleteBrochure | backend/src/controllers/brochureController.js:497-540 | the 404 comes exactly when no brochure has the id, and then neither records nor files change |
| Brochures.DeleteBrochureRemovesRecord | backend/src/controllers/brochureController.js:506-535 | whatever the cleanup did on disk, the found brochure's record is gone and every other record stays |
| Brochures.CreateThenDelete | backend/src/controllers/brochureController.js:534 | deleting a freshly created brochure restores every collection as it was before the create |
| Brochures.CleanupAllShrinks | backend/src/controllers/brochureController.js:256-282 | a run of cleanups only removes files and directories, keeps the contents of the remaining files, and keeps the tree closed |
| Brochures.CleanupAllRemoves | backend/src/controllers/brochureController.js:256-282 | every file a run of cleanups removes is the file of one of the brochures |
| Brochures.DeleteProgram | backend/src/controllers/brochureController.js:249-295 | deleting a program always answers success |
| Brochures.DeleteProgramEffect | backend/src/controllers/brochureController.js:249-288 | the files end as the cleanup leaves them for the brochures the program had before any record went; afterwards no brochure of the program and no program with its id remain, and types, assignments and every other record stay |
| Brochures.DeleteProgramKeepsAssignments | backend/src/controllers/brochureController.js:284-288 | an agent assigned to a deleted program still holds the assignment |
| Brochures.ProgramsStepsEffect | backend/src/controllers/brochureController.js:69-102 | the per-program steps drop exactly the brochures of those programs and touch no other collection |
| Brochures.DeleteType | backend/src/controllers/brochureController.js:62-115 | deleting a brochure type always answers success |
| Brochures.DeleteTypeEffect | backend/src/controllers/brochureController.js:62-108 | deleting a type removes every brochure of its programs, those programs and the type; other brochures, programs and types, and every assignment, stay |
| Brochures.TypePlanOrder | backend/src/controllers/brochureController.js:66-108 | each program's files are cleaned before its brochures are dropped, and every program step precedes the program and type deletions |
| Brochures.AgentRoleAnyCase | backend/src/controllers/brochureController.js:178 | for every role string, the agent test holds exactly when the role lower-cases to `agent`; lower- or upper-casing the role never changes the answer; a missing role is not an agent |
| Brochures.UniversitiesOfMembers | backend/src/controllers/brochureController.js:179 | a university is listed for an agent exactly when the store pairs them |
| Brochures.AssignedPrograms | backend/src/controllers/brochureController.js:179 | `distinct('universityId')` lists no university twice |
| Brochures.ListProgramsAccess | backend/src/controllers/brochureController.js:175-198 | an agent sees exactly the programs assigned to it; any other role sees every program, in store order |
| Brochures.ListProgramsOfTypeAccess | backend/src/controllers/brochureController.js:200-226 | listing by type keeps exactly the visible programs of that type |
| Brochures.ListBrochures | backend/src/controllers/brochureController.js:298-319 | a refusal carries the forbidden message, and a listing holds the brochures of that program |
| Brochures.ListBrochuresAccess | backend/src/controllers/brochureController.js:302-314 | only an agent without an assignment to the program is refused, and a listing holds exactly that program's brochures |
| Assignments.NewAssignment | backend/src/models/AgentUniversityAssignment.js:19-22 | a new record carries the agent, university and writer, and `assignedAt` defaults to the creation time when not supplied |
| Assignments.Insert | backend/src/models/AgentUniversityAssignment.js:3-28 | an insert succeeds exactly when the three references are present and the pair is not stored yet, and then it appends the record |
| Assignments.InsertKeepsWellFormed | backend/src/models/AgentUniversityAssignment.js:4-28 | an accepted insert keeps every record complete and the pair index unique |
| Assignments.UniqueIsPerPair | backend/src/models/AgentUniversityAssignment.js:28 | the index is on the pair only, so one agent may hold several universities and one university several agents |
| Assignments.Row | backend/src/controllers/agentUniversityController.js:27-33 | the inner loop pairs one university with every agent, in agent order |
| Assignments.ProductLength | backend/src/controllers/agentUniversityController.js:26-34 | the nested loops produce `|universities| * |agents|` pairs |
| Assignments.ProductAt | backend/src/controllers/agentUniversityController.js:26-34 | entry `i * |agents| + j` is university `i` with agent `j`, so universities form the outer loop |
| Assignments.ProductCovers | backend/src/controllers/agentUniversityController.js:26-34 | every requested (university, agent) combination occurs in the product |
| Assignments.ProductMembers | backend/src/controllers/agentUniversityController.js:26-34 | every pair in the product combines a requested agent with a requested university |
| Assignments.BulkAssign | backend/src/controllers/agentUniversityController.js:11-52 | missing or empty university ids are rejected before agent ids are looked at; success exactly when both lists are non-empty and every id casts; any failure leaves the store as it was |
| Assignments.UpsertAllExtends | backend/src/controllers/agentUniversityController.js:37-45 | the upserts never remove or change a record, so the old store is a prefix of the new one |
| Assignments.UpsertAllCovers | backend/src/controllers/agentUniversityController.js:37-45 | after the upserts every requested pair is stored |
| Assignments.UpsertAllAdds | backend/src/controllers/agentUniversityController.js:37-45 | every record the upserts add is a requested pair that was absent, written by the caller at the current time |
| Assignments.UpsertAllWellFormed | backend/src/controllers/agentUniversityController.js:37-45 | with a valid writer and valid ids the upserts keep the store well-formed |
| Assignments.UpsertAllPresent | backend/src/controllers/agentUniversityController.js:37-45 | upserting pairs that are all stored already changes nothing |
| Assignments.BulkAssignCovers | backend/src/controllers/agentUniversityController.js:26-45 | a successful bulk assignment stores every requested (university, agent) combination |
| Assignments.BulkAssignOnlyAdds | backend/src/controllers/agentUniversityController.js:37-45 | earlier records stay exactly as they were, so an existing pair keeps its `assignedBy`; only absent requested pairs are added |
| Assignments.BulkAssignWellFormed | backend/src/controllers/agentUniversityController.js:37-45 | bulk assignment keeps the store well-formed |
| Assignments.BulkAssignIdempotent | backend/src/controllers/agentUniversityController.js:37-45 | repeating a bulk assignment with the same input leaves the store unchanged |
| Assignments.RecordsOfMembers | backend/src/controllers/agentUniversityController.js:61 | `find({ universityId })` returns exactly the records of that university, in store order |
| Assignments.AgentsOfMembers | backend/src/controllers/agentUniversityController.js:114-115 | an agent is in the existing list exactly when the store pairs it with the university |
| Assignments.AgentsOfDistinct | backend/src/controllers/agentUniversityController.js:114-115 | under the unique index no agent is listed twice for one university |
| Assignments.CountIsAgentsLength | backend/src/controllers/agentUniversityController.js:77-85 | each group's count equals the length of its pushed agent list |
| Assignments.CountIsRecords | backend/src/controllers/agentUniversityController.js:77-85 | the count of a university is the number of its records |
| Assignments.AssignmentCountsGroups | backend/src/controllers/agentUniversityController.js:77-85 | there is one group per university present in the store, no other, and none twice |
| Assignments.SyncPlan | backend/src/controllers/agentUniversityController.js:118-121 | the ids to remove are existing ids that were not requested, the ids to add are requested ids that do not exist, and each list misses none |
| Assignments.MissingMembers | backend/src/controllers/agentUniversityController.js:118-121 | the list filter keeps an id exactly when it is in the first list and not in the second |
| Assignments.DeleteAgentsHas | backend/src/controllers/agentUniversityController.js:124-129 | a pair survives the deletion exactly when it was stored and is not among the deleted ones |
| Assignments.DeleteAgentsWellFormed | backend/src/controllers/agentUniversityController.js:124-129 | deleting records keeps the store well-formed |
| Assignments.NewRecords | backend/src/controllers/agentUniversityController.js:133-137 | one new record per id to add, in request order, each with the university and the writer |
| Assignments.Sync | backend/src/controllers/agentUniversityController.js:99-155 | a missing university id or a non-array list is a 400 that changes nothing; the reported counts are the lengths of the add and remove lists |
| Assignments.SyncSucceeds | backend/src/controllers/agentUniversityController.js:124-150 | with a duplicate-free list of valid ids and a known writer, sync succeeds |
| Assignments.SyncCounts | backend/src/controllers/agentUniversityController.js:141-150 | under the unique index the reported counts are the sizes of the two set differences |
| Assignments.SyncAgentSet | backend/src/controllers/agentUniversityController.js:113-139 | after a successful sync the university's agents are exactly the requested ones |
| Assignments.SyncEmptyClears | backend/src/controllers/agentUniversityController.js:109-129 | an empty array is accepted and removes every assignment of the university |
| Assignments.SyncOthersUntouched | backend/src/controllers/agentUniversityController.js:124-139 | whatever the outcome, records of other universities stay exactly as they were |
| Assignments.SyncWellFormed | backend/src/controllers/agentUniversityController.js:113-139 | sync keeps the store well-formed, also when its insert fails after the deletions |
| Assignments.InsertManyWellFormed | backend/src/controllers/agentUniversityController.js:138 | an `insertMany` that the schema and the index accept keeps the store well-formed |
| Assignments.SyncDuplicateFails | backend/src/controllers/agentUniversityController.js:121-138 | requesting a new agent twice hits the unique index, and the call fails after the deletions |
| AssignmentModal.LoadSelection | frontend/src/pages/brochure/components/AgentAssignmentModal.jsx:52-54 | the mapping fails exactly when a row's agent is `null`; otherwise it yields each row's id, bare or populated, in row order |
| AssignmentModal.AssignedRows | backend/src/controllers/agentUniversityController.js:61-62 | one row per assigned agent, in store order, populated with that agent when its document exists and `null` otherwise |
| AssignmentModal.OnOpen | frontend/src/pages/brochure/components/AgentAssignmentModal.jsx:23-62 | a closed dialog changes nothing; bulk mode clears the selection; edit mode takes the loaded ids exactly when the request succeeded and every row maps, and otherwise keeps the selection and reports 'Failed to load existing assignments' |
| AssignmentModal.LoadAssignedRows | frontend/src/pages/brochure/components/AgentAssignmentModal.jsx:48-62 | loading the rows of a university whose agents all exist yields exactly its assigned agents |
| AssignmentModal.OpenThenSaveKeepsAssignments | frontend/src/pages/brochure/components/AgentAssignmentModal.jsx:48-88 | opening the dialog on one university and saving unchanged keeps exactly the same agents assigned |
| AssignmentModal.FilteredAgentsMembers | frontend/src/pages/brochure/components/AgentAssignmentModal.jsx:113-119 | an agent is shown exactly when it is listed and its name, e-mail or company contains the lower-cased search, in list order |
| AssignmentModal.EmptySearchShowsAll | frontend/src/pages/brochure/components/AgentAssignmentModal.jsx:113-119 | an empty search shows every agent in order |
| AssignmentModal.SearchIgnoresCase | frontend/src/pages/brochure/components/AgentAssignmentModal.jsx:114-118 | the search typed in capitals shows the same agents |
| AssignmentModal.ToggleMembers | frontend/src/pages/brochure/components/AgentAssignmentModal.jsx:64-68 | toggling flips the agent's membership and leaves every other agent's membership unchanged |
| AssignmentModal.ToggleDistinct | frontend/src/pages/brochure/components/AgentAssignmentModal.jsx:64-68 | toggling never introduces a duplicate |
| AssignmentModal.ToggleTwice | frontend/src/pages/brochure/components/AgentAssignmentModal.jsx:64-68 | toggling twice restores the selected set, and restores the list itself when the agent was unselected |
| AssignmentModal.SelectAll | frontend/src/pages/brochure/components/AgentAssignmentModal.jsx:70-79 | select-all keeps a duplicate-free selection duplicate-free |
| AssignmentModal.SelectAllMembers | frontend/src/pages/brochure/components/AgentAssignmentModal.jsx:70-79 | when every shown agent is selected exactly the shown ones are removed; otherwise the selection gains exactly the shown ones |
| AssignmentModal.SelectAllNothingShown | frontend/src/pages/brochure/components/AgentAssignmentModal.jsx:72-75 | with no agent shown the button changes nothing, because `every` holds on an empty list |
| AssignmentModal.SelectAllKeepsSelection | frontend/src/pages/brochure/components/AgentAssignmentModal.jsx:77 | adding keeps the current selection as a prefix, followed by the new shown agents without repeats |
| AssignmentModal.SelectAllFlipsLabel | frontend/src/pages/brochure/components/AgentAssignmentModal.jsx:153 | pressing the button flips its label whenever some agent is shown |
| AssignmentModal.SelectAllTwice | frontend/src/pages/brochure/components/AgentAssignmentModal.jsx:70-79 | selecting the shown agents and pressing again restores the previous selection exactly |
| AssignmentModal.Submit | frontend/src/pages/brochure/components/AgentAssignmentModal.jsx:81-102 | edit mode always sends a sync of the selection to the one university, even an empty selection; bulk mode refuses exactly the empty selection, with 'Please select at least one agent', and otherwise sends every university and the selection |
| AssignmentModal.EnabledSubmitSends | frontend/src/pages/brochure/components/AgentAssignmentModal.jsx:235 | when not saving, the button is enabled exactly when pressing it sends a request |
| AssignmentModal.SubmitSyncSetsAgents | frontend/src/pages/brochure/components/AgentAssignmentModal.jsx:84-88 | a sent edit-mode request leaves the university with exactly the selected agents |
| AssignmentModal.Finish | frontend/src/pages/brochure/components/AgentAssignmentModal.jsx:103-110 | success shows a success toast, refreshes the list and closes the dialog; failure shows an error toast and does neither; the toast is never empty |
| AssignmentModal.FinishShowsServerMessage | frontend/src/pages/brochure/components/AgentAssignmentModal.jsx:107 | the server's message is shown when it has one, and 'Failed to update assignments' otherwise |
| AgentBrochures.Decorate | frontend/src/pages/agent/AgentBrochures.jsx:47-52 | a row copies the brochure and its program's name and country, and the type name is the program's type name, or 'Standard' when it is missing or empty |
| AgentBrochures.RowsOf | frontend/src/pages/agent/AgentBrochures.jsx:42-58 | a failed brochure request contributes no rows; otherwise there is one row per returned brochure |
| AgentBrochures.CollectSound | frontend/src/pages/agent/AgentBrochures.jsx:42-61 | every collected row comes from a brochure that some program's request returned, decorated with that program |
| AgentBrochures.CollectComplete | frontend/src/pages/agent/AgentBrochures.jsx:42-61 | every brochure a successful request returned appears, decorated with its program |
| AgentBrochures.InsertByDateCount | frontend/src/pages/agent/AgentBrochures.jsx:64 | inserting adds exactly the one row to the multiset of rows |
| AgentBrochures.InsertByDateSorted | frontend/src/pages/agent/AgentBrochures.jsx:64 | inserting a row keeps a newest-first table newest first |
| AgentBrochures.SortByDateSorted | frontend/src/pages/agent/AgentBrochures.jsx:64 | the sorted table is newest first by `updatedAt` and is a permutation of the input |
| AgentBrochures.InsertByDateTies | frontend/src/pages/agent/AgentBrochures.jsx:64 | an inserted row goes ahead of every row with the same `updatedAt` and leaves the order of the other times' rows alone |
| AgentBrochures.SortByDateStable | frontend/src/pages/agent/AgentBrochures.jsx:64 | the sort is stable: for every time, the rows with that `updatedAt` keep their input order, as `Array.prototype.sort` does |
| AgentBrochures.Load | frontend/src/pages/agent/AgentBrochures.jsx:31-74 | a failed program list leaves the table empty with 'Failed to load brochure data'; otherwise there is no error |
| AgentBrochures.LoadedTable | frontend/src/pages/agent/AgentBrochures.jsx:60-67 | after a successful load the table is newest first and holds exactly the collected rows, each as often as collected |
| AgentBrochures.FilterBrochures | frontend/src/pages/agent/AgentBrochures.jsx:76-94 | every refilter returns to page 1 and never shows more rows than the table holds |
| AgentBrochures.FilterBrochuresSubseq | frontend/src/pages/agent/AgentBrochures.jsx:76-92 | the shown rows are an order-preserving subsequence of the table |
| AgentBrochures.FilterBrochuresMembers | frontend/src/pages/agent/AgentBrochures.jsx:79-90 | a row is shown exactly when it is in the table, matches the untrimmed lower-cased query unless that query is blank, and belongs to the chosen program unless 'all' is chosen |
| AgentBrochures.FilterBrochuresNewestFirst | frontend/src/pages/agent/AgentBrochures.jsx:76-92 | the filtered table stays newest first |
| AgentBrochures.BlankSearchShowsAll | frontend/src/pages/agent/AgentBrochures.jsx:79-90 | a blank search over all programs shows the whole table |
| AgentBrochures.LeadingSpaceMisses | frontend/src/pages/agent/AgentBrochures.jsx:79-85 | the query is trimmed only for the blank test, so a title typed with a leading space does not find its brochure |
| AgentBrochures.Slice | frontend/src/pages/agent/AgentBrochures.jsx:116 | a slice never holds more than `end - start` elements |
| AgentBrochures.PageRows | frontend/src/pages/agent/AgentBrochures.jsx:113-116 | a page holds at most 10 rows |
| AgentBrochures.TotalPages | frontend/src/pages/agent/AgentBrochures.jsx:117 | the page count is the least `t` with `10 t >= n` |
| AgentBrochures.FirstPagesPrefix | frontend/src/pages/agent/AgentBrochures.jsx:114-116 | the first `k` pages read in order are the first `10 k` rows, or all of them |
| AgentBrochures.PagesPartition | frontend/src/pages/agent/AgentBrochures.jsx:113-117 | pages 1 to the page count, read in order, give back every row exactly once |
| AgentBrochures.PageNonEmpty | frontend/src/pages/agent/AgentBrochures.jsx:113-117 | a page has rows exactly when its number is at most the page count |
| AgentBrochures.Previous | frontend/src/pages/agent/AgentBrochures.jsx:269 | Previous never moves forward and never goes below page 1 |
| AgentBrochures.Next | frontend/src/pages/agent/AgentBrochures.jsx:276 | Next moves at most one page forward |
| AgentBrochures.PagerStaysInRange | frontend/src/pages/agent/AgentBrochures.jsx:262-277 | inside a shown pager both buttons keep the page between 1 and the page count, and each changes the page exactly when it is enabled |
| AgentBrochures.FileBaseUrl | frontend/src/pages/agent/AgentBrochures.jsx:8 | the base address is absent exactly when the API address is unset |
| AgentBrochures.FileBaseUrlStripsApi | frontend/src/pages/agent/AgentBrochures.jsx:8 | an API address ending in `/api`, with no earlier `/api`, loses exactly that suffix |
| AgentBrochures.DownloadLink | frontend/src/pages/agent/AgentBrochures.jsx:96-111 | no link and 'File not available for download' exactly when the url is missing or empty; a link always has a file name |
| AgentBrochures.DownloadLinkShape | frontend/src/pages/agent/AgentBrochures.jsx:103-107 | the link ends with the stored url; an `http` url is used as it is; a `/`-rooted url gets the base in front; the default name is 'brochure' |
| AppliedStudents.Load | frontend/src/pages/applications/AppliedStudents.jsx:23-34 | a failed request keeps the current list and reports 'Failed to load applied students'; a reply replaces the list, with a missing body giving an empty one |
| AppliedStudents.FilteredStudentsMembers | frontend/src/pages/applications/AppliedStudents.jsx:40-44 | a student is listed exactly when loaded and its name, e-mail or passport contains the lower-cased term, in loaded order |
| AppliedStudents.EmptyTermShowsAll | frontend/src/pages/applications/AppliedStudents.jsx:40-44 | an empty term lists every student |
| AppliedStudents.TermIgnoresCase | frontend/src/pages/applications/AppliedStudents.jsx:41-43 | the term typed in capitals lists the same students |
| AppliedStudents.NameOnlyMatch | frontend/src/pages/applications/AppliedStudents.jsx:40-44 | without e-mail and passport only the printed name can match, and a term longer than it finds nothing |
| AppliedStudents.ToggleExpand | frontend/src/pages/applications/AppliedStudents.jsx:36-38 | the toggle closes exactly when the clicked student was the expanded one |
| AppliedStudents.AtMostOneExpanded | frontend/src/pages/applications/AppliedStudents.jsx:137-142 | when the listed students' ids are distinct (the rows are keyed by them), exactly one rendered row is expanded if the expanded id is listed, and none otherwise |
| AppliedStudents.ToggleExpandOpens | frontend/src/pages/applications/AppliedStudents.jsx:36-38 | after the toggle the clicked row is open exactly when it was closed, and every other row is closed |
| AppliedStudents.ToggleExpandTwice | frontend/src/pages/applications/AppliedStudents.jsx:36-38 | two toggles of one row restore the previous state exactly when nothing or that row was open |
| AppliedStudents.StageStyle | frontend/src/pages/applications/AppliedStudents.jsx:46-54 | every stage badge consists of three space-free classes |
| AppliedStudents.PaletteColour | frontend/src/pages/applications/AppliedStudents.jsx:46-54 | the badge colour is recovered from the background class, so the five badges differ |
| AppliedStudents.StageColorWords | frontend/src/pages/applications/AppliedStudents.jsx:46-54 | the badge's class string splits back into its background, text and border classes |
| AppliedStudents.StageColorInjective | frontend/src/pages/applications/AppliedStudents.jsx:46-54 | equal class strings come from equal styles |
| AppliedStudents.StageColorsDistinct | frontend/src/pages/applications/AppliedStudents.jsx:46-54 | the four named stages get four different badges, each different from the default; every other stage, or none, gets the gray default |
| AppliedStudents.StageColorText | frontend/src/pages/applications/AppliedStudents.jsx:249 | the second space-separated class is the badge's text colour |
| AppliedStudents.LatestApplication | frontend/src/pages/applications/AppliedStudents.jsx:138 | the shown milestone is one of the student's applications |
| AppliedStudents.LatestIffCounted | frontend/src/pages/applications/AppliedStudents.jsx:185 | a milestone is shown exactly when the application count is positive |
| AppliedStudents.PassportLabel | frontend/src/pages/applications/AppliedStudents.jsx:178 | the label is never empty, and is the passport number whenever there is one |
| VerifyOtp.Sanitize | frontend/src/pages/auth/student/StudentVerifyOTP.jsx:116-118 | the field holds at most six characters, all of them digits |
| VerifyOtp.SanitizeKeepsCodes | frontend/src/pages/auth/student/StudentVerifyOTP.jsx:116-118 | a code of at most six digits passes unchanged |
| VerifyOtp.SanitizeIdempotent | frontend/src/pages/auth/student/StudentVerifyOTP.jsx:118 | sanitising twice gives the same result as sanitising once |
| VerifyOtp.SanitizeKeepsDigits | frontend/src/pages/auth/student/StudentVerifyOTP.jsx:116-118 | every digit among the first six characters is kept, in order |
| VerifyOtp.OnInput | frontend/src/pages/auth/student/StudentVerifyOTP.jsx:118 | typing changes only the code |
| VerifyOtp.Submit | frontend/src/pages/auth/student/StudentVerifyOTP.jsx:28-63 | the guards return with the page unchanged; a sent request ends with `isSubmitting` false and everything else unchanged |
| VerifyOtp.SubmitGuards | frontend/src/pages/auth/student/StudentVerifyOTP.jsx:31-40 | a missing e-mail wins over a bad code and sends the user to forgot-password; a code that is not six characters is refused next; neither consults the reply |
| VerifyOtp.EnabledSubmitHasCode | frontend/src/pages/auth/student/StudentVerifyOTP.jsx:132 | an enabled submit button never meets the length error |
| VerifyOtp.VerifiedCarriesToken | frontend/src/pages/auth/student/StudentVerifyOTP.jsx:45-55 | success needs a sent request and a non-empty reset token, and navigates to `/student/reset-password?token=` followed by exactly that token |
| VerifyOtp.Tick | frontend/src/pages/auth/student/StudentVerifyOTP.jsx:19-26 | a tick decrements a positive countdown, leaves the code and the submit flag alone, and enables resending when the countdown reaches zero |
| VerifyOtp.TransitionsKeepGood | frontend/src/pages/auth/student/StudentVerifyOTP.jsx:13-26 | every page transition keeps the countdown at most 60 and allows resending only at zero |
| VerifyOtp.CountdownFromStart | frontend/src/pages/auth/student/StudentVerifyOTP.jsx:19-26 | while the counter runs, `n` ticks take `n` off it, and resending opens exactly when it reaches zero |
| VerifyOtp.ResendOpensAfterDelay | frontend/src/pages/auth/student/StudentVerifyOTP.jsx:15-26 | the page opens with resending closed; it is still closed after 59 ticks and opens after 60 |
| VerifyOtp.Resend | frontend/src/pages/auth/student/StudentVerifyOTP.jsx:65-78 | resend does nothing unless allowed; a sent code resets the countdown to 60, closes resending and clears the code; a failure only reports 'Failed to resend OTP' |
| VerifyOtp.ResendRestarts | frontend/src/pages/auth/student/StudentVerifyOTP.jsx:65-73 | after a successful resend, resending stays closed for 59 ticks and opens again after 60 |
| ResetPassword.Submit | frontend/src/pages/auth/student/StudentResetPassword.jsx:24-56 | the passwords are never changed; the early returns leave the page as it was; a sent request ends with `isSubmitting` false |
| ResetPassword.ValidationOrder | frontend/src/pages/auth/student/StudentResetPassword.jsx:27-35 | mismatched passwords are reported even without a token; a missing token is reported next; neither sends a request or changes the page |
| ResetPassword.RequestSentIff | frontend/src/pages/auth/student/StudentResetPassword.jsx:27-40 | a reset request is sent exactly when the passwords match and a token is present, and it carries that token and the password |
| ResetPassword.PressSubmit | frontend/src/pages/auth/student/StudentResetPassword.jsx:117-171 | a press runs `handleSubmit` unless the button is disabled while submitting or a `required` password field is empty |
| ResetPassword.PressSubmitSends | frontend/src/pages/auth/student/StudentResetPassword.jsx:117-171 | a press sends the reset request exactly when the button is enabled, the passwords are equal and non-empty, and a token is present; an empty password is never sent |
| ResetPassword.ReplyIgnoredWithoutRequest | frontend/src/pages/auth/student/StudentResetPassword.jsx:27-37 | when no request is sent, the reply does not matter |
| ResetPassword.FailureKeepsForm | frontend/src/pages/auth/student/StudentResetPassword.jsx:49-55 | a failed request keeps `success` as it was, clears `isSubmitting`, and shows the server's message or 'Failed to reset password' |
| ResetPassword.SuccessOnlyFromReset | frontend/src/pages/auth/student/StudentResetPassword.jsx:39-48 | `success` is set only by an accepted request, which also shows 'Password reset successfully!' and moves to `/login` after 3000 ms |
| ResetPassword.ViewOf | frontend/src/pages/auth/student/StudentResetPassword.jsx:58-99 | the invalid-link view is shown exactly when the token is missing, and the success view exactly when there is a token and `success` is set |
| ResetPassword.InvalidLinkRegardless | frontend/src/pages/auth/student/StudentResetPassword.jsx:58-76 | without a token the invalid-link view, whose button leads to forgot-password, is shown whatever the form holds |
| ResetPassword.ResetShowsSuccess | frontend/src/pages/auth/student/StudentResetPassword.jsx:78-97 | an accepted request switches to the success view, whose button leads to the same login page as the delayed redirect |
| ResetPassword.FailureShowsForm | frontend/src/pages/auth/student/StudentResetPassword.jsx:169-179 | a failed request from the form leaves the form shown with its submit button enabled |
| ResetPassword.FormNeverMissesToken | frontend/src/pages/auth/student/StudentResetPassword.jsx:32-35 | the form is shown only with a token, so the missing-token error cannot be reached from it, and its button is disabled exactly while submitting |

## Left out

- Case mapping and the `\s` and `\w` classes cover ASCII only. Unicode case folding and white space beyond ASCII are not modelled.
- Paths are lists of segments. `path.join` drops empty segments but does not resolve `.` or `..`, and Windows separators are not modelled.
- Mongoose casting is reduced to "an id is valid when non-empty". `populate` is reduced to the fields the pages read. In an update body, the date and the program id are stored as given, and a value that fails the cast (which makes the update a server error) is not modelled. Body keys outside the brochure schema are dropped, as strict mode does.
- Atomicity is partly modelled. `bulkWrite` is all-or-nothing on a cast failure, and `insertMany` is all-or-nothing after the deletions are committed. Partial ordered inserts and concurrent requests are not modelled.
- The server error text built from `error.message` is not modelled; server errors carry the handler's fixed message.
- Sorting by name (`sort({ name: 1 })`) in the program listings is not modelled. The counts attached to listed programs and types are not modelled either.
- The handlers for creating, updating and reading brochure types, categories and programs are single database calls and are not modelled.
- The clock is a parameter in milliseconds and is not read.
- Timers (`setTimeout`) become explicit tick events, or appear as the delay value in the outcome.
- `Promise.all` fan-out is modelled as a sequential map in program order, which is the order `flat()` returns.
- Toasts, navigation, logging and rendering are output values or are left out. The loading spinners and the password-visibility toggles are not modelled.
- The `Failed to load agents` toast of the assignment dialog is not modelled, because the agent list is a parameter.
- AssignmentModal.FilteredAgents: an agent's e-mail is assumed present. The code calls `toLowerCase` on it unguarded and would throw on a missing e-mail.
- VerifyOtp.Sanitize: `maxLength` is modelled as truncating the typed text to six characters before non-digits are removed.
- The `token` and `email` query parameters are taken as already decoded strings, and the token is put into the reset URL without encoding, as the code does.
- The routes, the forgot-password page, the profile pages and the not-found page are not part of this model.
