/**
 * The brochure side of backend/src/controllers/brochureController.js over an
 * in-memory database and the file tree of `FileTree`: where an uploaded
 * brochure is stored and under which name, what creating, updating and
 * deleting a brochure does to the records and the files, the delete cascades
 * for programs and brochure types, and which programs and brochures an agent
 * may see.
 */
module Brochures {
  import opened Common
  import opened Text
  import opened Slug
  import opened FileTree
  import Assignments

  type Id = string

  /** A university program (`UniversityProgram`) of a brochure type. */
  datatype Program = Program(id: Id, name: string, typeId: Id)

  /** A brochure record; `""` is an unset string field. */
  datatype Brochure = Brochure(
    id: Id, programId: Id, title: string, categoryId: Id,
    fileUrl: string, name: string, url: string, date: Option<string>)

  datatype Db = Db(types: seq<Id>, programs: seq<Program>, brochures: seq<Brochure>, assignments: Assignments.Store)

  /** What `ResponseHandler` sends back. */
  datatype Response =
    | Success(message: string)
    | NotFound(message: string)
    | Forbidden(message: string)
    | ServerError(message: string)

  /** `findById`: the first record whose id is `id`, or none when no record has it. */
  function FindById<T>(xs: seq<T>, idOf: T -> Id, id: Id): (r: Option<T>)
    ensures r.Some? ==> r.value in xs && idOf(r.value) == id
    ensures r.None? ==> forall i :: 0 <= i < |xs| ==> idOf(xs[i]) != id
  {
    if xs == [] then None else if idOf(xs[0]) == id then Some(xs[0]) else FindById(xs[1..], idOf, id)
  }

  function FindProgram(ps: seq<Program>, id: Id): (r: Option<Program>)
    ensures r.Some? ==> r.value in ps && r.value.id == id
    ensures r.None? ==> forall i :: 0 <= i < |ps| ==> ps[i].id != id
  {
    FindById(ps, (p: Program) => p.id, id)
  }

  function FindBrochure(bs: seq<Brochure>, id: Id): (r: Option<Brochure>)
    ensures r.Some? ==> r.value in bs && r.value.id == id
    ensures r.None? ==> forall i :: 0 <= i < |bs| ==> bs[i].id != id
  {
    FindById(bs, (b: Brochure) => b.id, id)
  }

  // ---------------------------------------------------------------------------
  // Storage folder and file name
  // ---------------------------------------------------------------------------

  /** `${slugify(up.name || 'University')}_${slugify(title)}`. */
  function FolderName(programName: string, title: string): string {
    Slugify(Or(programName, "University")) + "_" + Slugify(title)
  }

  /** The folder below `uploads` and its absolute path (`getDynamicStoragePath`). */
  datatype Storage = Storage(relative: Path, absolute: Path)

  /** `null` for an unknown program, the folder `documents/brochure/<folder>` otherwise. */
  function StorageFor(programs: seq<Program>, cwd: Path, upId: Id, title: string): (r: Option<Storage>)
    ensures r.Some? ==> FindProgram(programs, upId).Some?
  {
    match FindProgram(programs, upId)
    case None => None
    case Some(p) =>
      var rel := ["documents", "brochure", FolderName(p.name, title)];
      Some(Storage(rel, cwd + ["uploads"] + rel))
  }

  /** The `relativePath` string returned with the storage info. */
  function RelativePath(st: Storage): string { PathString(st.relative) }

  /** A slug never contains a slash. */
  lemma SlugHasNoSlash(text: string)
    ensures '/' !in Slugify(text)
  {
    SlugifyIsSlug(text);
  }

  /** The folder name is a single path segment. */
  lemma FolderNameIsSegment(programName: string, title: string)
    ensures IsSegment(FolderName(programName, title))
  {
    SlugHasNoSlash(Or(programName, "University"));
    SlugHasNoSlash(title);
  }

  /** The folder `documents/brochure/<folder>` renders with a leading slash. */
  lemma BrochureFolderString(folder: string)
    ensures PathString(["documents", "brochure", folder]) == "/documents/brochure/" + folder
  {
    var rel := ["documents", "brochure", folder];
    assert rel[1..] == ["brochure", folder];
    assert rel[1..][1..] == [folder];
    assert [folder][1..] == [];
    var last := Render([folder]);
    assert last == "/" + folder + Render([]);
    assert ("/" + folder) + [] == "/" + folder;
    var mid := Render(["brochure", folder]);
    assert mid == "/" + "brochure" + last;
    assert Render(rel) == "/" + "documents" + mid;
    ConcatAssoc("/documents", "/brochure", last);
    ConcatAssoc("/documents/brochure", "/", folder);
  }

  lemma BrochureFolderSegments(folder: string)
    requires IsSegment(folder)
    ensures AllSegments(["documents", "brochure", folder])
  {
  }

  /** The folder's string resolves below `uploads` to the folder itself. */
  lemma BrochureFolderResolves(cwd: Path, folder: string)
    requires IsSegment(folder)
    ensures UploadPath(cwd, PathString(["documents", "brochure", folder])) == cwd + ["uploads"] + ["documents", "brochure", folder]
  {
    var rel := ["documents", "brochure", folder];
    assert AllSegments(rel);
    SplitRender(rel);
  }

  /**
   * The relative path is `/documents/brochure/` followed by the folder name,
   * and resolving it below `uploads` gives the absolute path.
   */
  lemma StoragePathShape(programs: seq<Program>, cwd: Path, upId: Id, title: string)
    ensures FindProgram(programs, upId).None? ==> StorageFor(programs, cwd, upId, title).None?
    ensures match FindProgram(programs, upId)
      case None => true
      case Some(p) =>
        var st := StorageFor(programs, cwd, upId, title).value;
        && RelativePath(st) == "/documents/brochure/" + FolderName(p.name, title)
        && UploadPath(cwd, RelativePath(st)) == st.absolute
  {
    if FindProgram(programs, upId).Some? {
      var p := FindProgram(programs, upId).value;
      var folder := FolderName(p.name, title);
      FolderNameIsSegment(p.name, title);
      BrochureFolderString(folder);
      BrochureFolderResolves(cwd, folder);
    }
  }

  /** `Math.floor(Date.now() / 1000)`, in decimal. */
  function Timestamp(nowMs: nat): string { NatToString(nowMs / 1000) }

  /** The name tried first: the slugged title with the upload's extension. */
  function PlainName(title: string, originalName: string): string {
    Slugify(title) + Extname(originalName)
  }

  /** The name used when the plain one is taken. */
  function SuffixedName(title: string, originalName: string, nowMs: nat): string {
    Slugify(title) + "_" + Timestamp(nowMs) + Extname(originalName)
  }

  /** One existence check: the plain name unless something exists under it, else the timestamped one. */
  function FinalName(fs: Fs, dir: Path, title: string, originalName: string, nowMs: nat): (r: string)
    ensures r == PlainName(title, originalName) || r == SuffixedName(title, originalName, nowMs)
  {
    var plain := PlainName(title, originalName);
    if Exists(fs, Join(dir, plain)) then SuffixedName(title, originalName, nowMs) else plain
  }

  /** The two candidate names differ, so the choice between them is visible. */
  lemma NamesDiffer(title: string, originalName: string, nowMs: nat)
    ensures PlainName(title, originalName) != SuffixedName(title, originalName, nowMs)
  {
    assert |SuffixedName(title, originalName, nowMs)| > |PlainName(title, originalName)|;
  }

  /** The plain name is kept exactly when nothing exists under it. */
  lemma FinalNameChoice(fs: Fs, dir: Path, title: string, originalName: string, nowMs: nat)
    ensures FinalName(fs, dir, title, originalName, nowMs) == PlainName(title, originalName)
        <==> !Exists(fs, Join(dir, PlainName(title, originalName)))
  {
    NamesDiffer(title, originalName, nowMs);
  }

  /** The plain name has no slash (it may be empty). */
  lemma PlainNameNoSlash(title: string, originalName: string)
    ensures '/' !in PlainName(title, originalName)
  {
    SlugHasNoSlash(title);
    var slug := Slugify(title);
    var ext := Extname(originalName);
    var plain := PlainName(title, originalName);
    forall i | 0 <= i < |plain| ensures plain[i] != '/' {
      if i < |slug| { assert plain[i] == slug[i]; } else { assert plain[i] == ext[i - |slug|]; }
    }
  }

  /** The timestamped name is always one path segment. */
  lemma SuffixedNameIsSegment(title: string, originalName: string, nowMs: nat)
    ensures IsSegment(SuffixedName(title, originalName, nowMs))
  {
    SlugHasNoSlash(title);
    var slug := Slugify(title);
    var ext := Extname(originalName);
    var ts := Timestamp(nowMs);
    var suffixed := SuffixedName(title, originalName, nowMs);
    forall i | 0 <= i < |suffixed| ensures suffixed[i] != '/' {
      if i < |slug| {
        assert suffixed[i] == slug[i];
      } else if i == |slug| {
        assert suffixed[i] == '_';
      } else if i < |slug| + 1 + |ts| {
        assert suffixed[i] == ts[i - |slug| - 1];
      } else {
        assert suffixed[i] == ext[i - |slug| - 1 - |ts|];
      }
    }
  }

  /** Once the folder exists, the chosen name is one path segment: an empty plain name collides with the folder itself. */
  lemma FinalNameIsSegment(fs: Fs, dir: Path, title: string, originalName: string, nowMs: nat)
    requires Exists(fs, dir)
    ensures IsSegment(FinalName(fs, dir, title, originalName, nowMs))
  {
    PlainNameNoSlash(title, originalName);
    SuffixedNameIsSegment(title, originalName, nowMs);
    if PlainName(title, originalName) == [] {
      assert Join(dir, []) == dir;
    }
  }

  /** A slash-free, non-empty name joins as one segment. */
  lemma JoinSegment(dir: Path, name: string)
    requires IsSegment(name)
    ensures Join(dir, name) == dir + [name]
  {
    assert Render([name]) == "/" + name;
    SplitRender([name]);
    assert Split("/" + name) == Split(name);
  }

  // ---------------------------------------------------------------------------
  // Placing an upload
  // ---------------------------------------------------------------------------

  /** The temporary file multer wrote, its generated name, and the client's file name. */
  datatype Upload = Upload(tmpPath: Path, filename: string, originalName: string)

  /** Where the upload ended up, or the file-system state when a call threw. */
  datatype Placement =
    | Placed(fs: Fs, fileUrl: string, name: string, stored: bool)
    | PlaceFailed(fs: Fs)

  /** `"/uploads/temp/" + filename`, the url used when the program is unknown. */
  function TempUrl(filename: string): string { "/uploads/temp/" + filename }

  /**
   * The upload branch shared by `createBrochure` and `updateBrochure`: create
   * the folder when it is missing, pick the name, move the temporary file
   * there. With no program the file stays where multer put it.
   */
  function PlaceUpload(fs: Fs, cwd: Path, programs: seq<Program>, upId: Id, title: string, up: Upload, nowMs: nat): (r: Placement)
    ensures r.Placed? && !r.stored ==> r == Placed(fs, TempUrl(up.filename), up.filename, false)
  {
    match StorageFor(programs, cwd, upId, title)
    case None => Placed(fs, TempUrl(up.filename), up.filename, false)
    case Some(st) => PlaceStored(fs, st, title, up, nowMs)
  }

  /** The folder branch: `mkdir -p` when the folder is missing, one name check, then the move. */
  function PlaceStored(fs: Fs, st: Storage, title: string, up: Upload, nowMs: nat): (r: Placement)
    ensures r.Placed? ==> r.stored
  {
    var made := if Exists(fs, st.absolute) then Some(fs) else MkdirP(fs, st.absolute);
    if made.None? then PlaceFailed(fs)
    else
      var fs1 := made.value;
      var name := FinalName(fs1, st.absolute, title, up.originalName, nowMs);
      match Rename(fs1, up.tmpPath, Join(st.absolute, name))
      case None => PlaceFailed(fs1)
      case Some(fs2) => Placed(fs2, RelativePath(st) + "/" + name, name, true)
  }

  /** An unknown program keeps the temporary url and leaves the files alone. */
  lemma PlaceWithoutProgram(fs: Fs, cwd: Path, programs: seq<Program>, upId: Id, title: string, up: Upload, nowMs: nat)
    requires FindProgram(programs, upId).None?
    ensures PlaceUpload(fs, cwd, programs, upId, title, up, nowMs) == Placed(fs, TempUrl(up.filename), up.filename, false)
  {
  }

  /**
   * A stored upload can be found again: the url resolves below `uploads` to a
   * file holding the upload's contents, inside the program's folder, under the
   * recorded name. This is the path the delete cleanup later unlinks.
   */
  lemma PlaceRoundTrip(fs: Fs, cwd: Path, programs: seq<Program>, upId: Id, title: string, up: Upload, nowMs: nat)
    requires PlaceUpload(fs, cwd, programs, upId, title, up, nowMs).Placed?
    requires PlaceUpload(fs, cwd, programs, upId, title, up, nowMs).stored
    ensures up.tmpPath in fs.files
    ensures var r := PlaceUpload(fs, cwd, programs, upId, title, up, nowMs);
      var st := StorageFor(programs, cwd, upId, title).value;
      && UploadPath(cwd, r.fileUrl) == st.absolute + [r.name]
      && UploadPath(cwd, r.fileUrl) in r.fs.files
      && r.fs.files[UploadPath(cwd, r.fileUrl)] == fs.files[up.tmpPath]
  {
    var st := StorageFor(programs, cwd, upId, title).value;
    var p := FindProgram(programs, upId).value;
    var folder := FolderName(p.name, title);
    assert st.relative == ["documents", "brochure", folder];
    FolderNameIsSegment(p.name, title);
    BrochureFolderSegments(folder);
    assert PlaceUpload(fs, cwd, programs, upId, title, up, nowMs) == PlaceStored(fs, st, title, up, nowMs);
    PlaceStoredRoundTrip(fs, cwd, st, title, up, nowMs);
  }

  lemma PlaceStoredRoundTrip(fs: Fs, cwd: Path, st: Storage, title: string, up: Upload, nowMs: nat)
    requires |st.relative| == 3 && AllSegments(st.relative) && st.absolute == cwd + ["uploads"] + st.relative
    requires PlaceStored(fs, st, title, up, nowMs).Placed?
    ensures up.tmpPath in fs.files
    ensures var r := PlaceStored(fs, st, title, up, nowMs);
      && UploadPath(cwd, r.fileUrl) == st.absolute + [r.name]
      && UploadPath(cwd, r.fileUrl) in r.fs.files
      && r.fs.files[UploadPath(cwd, r.fileUrl)] == fs.files[up.tmpPath]
  {
    var fs1 := if Exists(fs, st.absolute) then fs else MkdirP(fs, st.absolute).value;
    var name := FinalName(fs1, st.absolute, title, up.originalName, nowMs);
    assert fs1.files == fs.files && Exists(fs1, st.absolute);
    FinalNameIsSegment(fs1, st.absolute, title, up.originalName, nowMs);
    RenamedFileResolves(fs1, cwd, st, name, up.tmpPath);
  }

  /** After the move, the url built from the folder and the name leads to the moved file. */
  lemma RenamedFileResolves(fs1: Fs, cwd: Path, st: Storage, name: string, tmp: Path)
    requires |st.relative| == 3 && AllSegments(st.relative) && st.absolute == cwd + ["uploads"] + st.relative
    requires IsSegment(name)
    requires Rename(fs1, tmp, Join(st.absolute, name)).Some?
    ensures var fs2 := Rename(fs1, tmp, Join(st.absolute, name)).value;
      && UploadPath(cwd, RelativePath(st) + "/" + name) == st.absolute + [name]
      && st.absolute + [name] in fs2.files
      && fs2.files[st.absolute + [name]] == fs1.files[tmp]
  {
    JoinSegment(st.absolute, name);
    UrlResolves(cwd, st.relative, name);
  }

  /** `relativePath + "/" + name` resolves below `uploads` to the folder's entry `name`. */
  lemma UrlResolves(cwd: Path, rel: Path, name: string)
    requires rel != [] && AllSegments(rel) && IsSegment(name)
    ensures UploadPath(cwd, PathString(rel) + "/" + name) == cwd + ["uploads"] + rel + [name]
  {
    var full := rel + [name];
    assert AllSegments(full);
    RenderAppend(rel, name);
    ConcatAssoc(Render(rel), "/", name);
    SplitRender(full);
  }

  /**
   * The timestamped name is not checked again: when both names are taken, the
   * upload replaces the file already stored under the timestamped name.
   */
  lemma SuffixedNameOverwrites(fs: Fs, cwd: Path, programs: seq<Program>, upId: Id, title: string, up: Upload, nowMs: nat)
    requires FindProgram(programs, upId).Some?
    requires Closed(fs)
    requires var dir := StorageFor(programs, cwd, upId, title).value.absolute;
      && dir in fs.dirs
      && Exists(fs, Join(dir, PlainName(title, up.originalName)))
      && dir + [SuffixedName(title, up.originalName, nowMs)] in fs.files
      && up.tmpPath in fs.files
    ensures var r := PlaceUpload(fs, cwd, programs, upId, title, up, nowMs);
      var dir := StorageFor(programs, cwd, upId, title).value.absolute;
      var target := dir + [SuffixedName(title, up.originalName, nowMs)];
      && r.Placed? && r.stored && r.name == SuffixedName(title, up.originalName, nowMs)
      && target in r.fs.files && r.fs.files[target] == fs.files[up.tmpPath]
  {
    var st := StorageFor(programs, cwd, upId, title).value;
    assert PlaceUpload(fs, cwd, programs, upId, title, up, nowMs) == PlaceStored(fs, st, title, up, nowMs);
    StoredSuffixedOverwrites(fs, st, title, up, nowMs);
  }

  lemma StoredSuffixedOverwrites(fs: Fs, st: Storage, title: string, up: Upload, nowMs: nat)
    requires Closed(fs)
    requires st.absolute in fs.dirs
    requires Exists(fs, Join(st.absolute, PlainName(title, up.originalName)))
    requires st.absolute + [SuffixedName(title, up.originalName, nowMs)] in fs.files
    requires up.tmpPath in fs.files
    ensures var r := PlaceStored(fs, st, title, up, nowMs);
      var target := st.absolute + [SuffixedName(title, up.originalName, nowMs)];
      && r.Placed? && r.name == SuffixedName(title, up.originalName, nowMs)
      && target in r.fs.files && r.fs.files[target] == fs.files[up.tmpPath]
  {
    var suffixed := SuffixedName(title, up.originalName, nowMs);
    SuffixedNameIsSegment(title, up.originalName, nowMs);
    JoinSegment(st.absolute, suffixed);
    assert FinalName(fs, st.absolute, title, up.originalName, nowMs) == suffixed;
    var target := st.absolute + [suffixed];
    assert Parent(target) == st.absolute;
    assert target !in fs.dirs;
    assert Rename(fs, up.tmpPath, target).Some?;
  }

  // ---------------------------------------------------------------------------
  // Creating, updating and deleting a brochure
  // ---------------------------------------------------------------------------

  /** The request body of a create; `""` is an absent or falsy field. */
  datatype BrochureInput = BrochureInput(
    title: string, categoryId: Id, altCategoryId: Id, fileUrl: string, name: string, url: string, date: Option<string>)

  /** `if (!brochureData.date) delete brochureData.date`. */
  function KeepDate(date: Option<string>): (r: Option<string>)
    ensures r.Some? <==> date.Some? && date.value != []
    ensures r.Some? ==> r == date
  {
    if date.Some? && date.value != [] then date else None
  }

  /** Outcome of a request: the database, the files and the response. */
  datatype Outcome = Outcome(db: Db, fs: Fs, response: Response)

  /**
   * `createBrochure`: the body's fields, the program, the category taken from
   * `brochure_category_id || category_id`; with a file, the placed url and
   * name, and `url` defaulting to the file's url. A failing file call is a
   * server error that leaves the records alone.
   */
  function CreateBrochure(db: Db, fs: Fs, cwd: Path, upId: Id, newId: Id, input: BrochureInput, file: Option<Upload>, nowMs: nat): (r: Outcome)
    ensures r.response.ServerError? ==> r.db == db
    ensures r.response.Success? ==> |r.db.brochures| == |db.brochures| + 1 && r.db.brochures[..|db.brochures|] == db.brochures
    ensures r.db.programs == db.programs && r.db.types == db.types && r.db.assignments == db.assignments
  {
    var record := Brochure(newId, upId, input.title, Or(input.categoryId, input.altCategoryId),
                           input.fileUrl, input.name, input.url, KeepDate(input.date));
    if file.None? then
      Outcome(db.(brochures := db.brochures + [record]), fs, Success("Brochure created successfully"))
    else
      match PlaceUpload(fs, cwd, db.programs, upId, Or(input.title, "Brochure"), file.value, nowMs)
      case PlaceFailed(fs') => Outcome(db, fs', ServerError("Failed to create brochure"))
      case Placed(fs', fileUrl, name, _) =>
        var placed := record.(fileUrl := fileUrl, name := name, url := Or(input.url, fileUrl));
        Outcome(db.(brochures := db.brochures + [placed]), fs', Success("Brochure created successfully"))
  }

  /** The created record carries the program, the category fallback, the kept date, and the url default. */
  lemma CreateBrochureRecord(db: Db, fs: Fs, cwd: Path, upId: Id, newId: Id, input: BrochureInput, file: Option<Upload>, nowMs: nat)
    requires CreateBrochure(db, fs, cwd, upId, newId, input, file, nowMs).response.Success?
    ensures var r := CreateBrochure(db, fs, cwd, upId, newId, input, file, nowMs);
      var b := r.db.brochures[|db.brochures|];
      && b.id == newId && b.programId == upId && b.title == input.title
      && b.categoryId == (if input.categoryId != [] then input.categoryId else input.altCategoryId)
      && b.date == KeepDate(input.date)
      && (file.None? ==> b.fileUrl == input.fileUrl && b.url == input.url && r.fs == fs)
      && (file.Some? ==> b.url == (if input.url != [] then input.url else b.fileUrl))
      && (file.Some? && FindProgram(db.programs, upId).None? ==>
            b.fileUrl == TempUrl(file.value.filename) && b.name == file.value.filename && r.fs == fs)
  {
  }

  /** Removes an existing file; a missing path or a directory (whose unlink throws) leaves the tree as it is. */
  function UnlinkIfExists(fs: Fs, p: Path): (r: Fs)
    ensures r.dirs == fs.dirs && r.files.Keys == fs.files.Keys - {p}
    ensures forall q :: q in r.files ==> r.files[q] == fs.files[q]
  {
    if p in fs.files then Fs(fs.files - {p}, fs.dirs) else fs
  }

  /**
   * The schema fields an update body may carry, each absent or given; a given
   * field is applied even when it is `""`. `altCategoryId` is the body's
   * `category_id`, which is not a schema field and only feeds
   * `brochure_category_id` when it is truthy.
   */
  datatype Changes = Changes(
    title: Option<string>, programId: Option<Id>, categoryId: Option<Id>, altCategoryId: Option<Id>,
    fileUrl: Option<string>, name: Option<string>, url: Option<string>, date: Option<string>)

  /** A body field's value when given, the stored value otherwise. */
  function Given(field: Option<string>, stored: string): string {
    if field.Some? then field.value else stored
  }

  /** The category the update writes: a truthy `category_id` overrides `brochure_category_id`. */
  function CategoryChange(ch: Changes): Option<Id> {
    if ch.altCategoryId.Some? && ch.altCategoryId.value != [] then ch.altCategoryId else ch.categoryId
  }

  /** `findByIdAndUpdate` on one record with `{ ...req.body }`: every given field replaces the stored one. */
  function Patch(b: Brochure, ch: Changes): (r: Brochure)
    ensures r.id == b.id
    ensures ch.title.None? ==> r.title == b.title
    ensures ch.title.Some? ==> r.title == ch.title.value
    ensures ch.programId.None? ==> r.programId == b.programId
    ensures ch.programId.Some? ==> r.programId == ch.programId.value
    ensures CategoryChange(ch).None? ==> r.categoryId == b.categoryId
    ensures CategoryChange(ch).Some? ==> r.categoryId == CategoryChange(ch).value
    ensures ch.fileUrl.None? ==> r.fileUrl == b.fileUrl
    ensures ch.fileUrl.Some? ==> r.fileUrl == ch.fileUrl.value
    ensures ch.name.None? ==> r.name == b.name
    ensures ch.name.Some? ==> r.name == ch.name.value
    ensures ch.url.None? ==> r.url == b.url
    ensures ch.url.Some? ==> r.url == ch.url.value
    ensures ch.date.None? ==> r.date == b.date
    ensures ch.date.Some? ==> r.date == ch.date
  {
    b.(title := Given(ch.title, b.title),
       programId := Given(ch.programId, b.programId),
       categoryId := Given(CategoryChange(ch), b.categoryId),
       fileUrl := Given(ch.fileUrl, b.fileUrl),
       name := Given(ch.name, b.name),
       url := Given(ch.url, b.url),
       date := if ch.date.Some? then ch.date else b.date)
  }

  /** The empty body `{}`. */
  function NoChanges(): Changes {
    Changes(None, None, None, None, None, None, None, None)
  }

  /** An empty body leaves the record as it was, and applying the same body twice is applying it once. */
  lemma PatchNoChangesIdempotent(b: Brochure, ch: Changes)
    ensures Patch(b, NoChanges()) == b
    ensures Patch(Patch(b, ch), ch) == Patch(b, ch)
  {
  }

  /** A record is changed only in the fields the body gives: equal on them, two records patch to equal records. */
  lemma PatchOverwrites(b: Brochure, c: Brochure, ch: Changes)
    requires b.id == c.id
    requires ch.title.Some? && ch.programId.Some? && CategoryChange(ch).Some? && ch.fileUrl.Some?
    requires ch.name.Some? && ch.url.Some? && ch.date.Some?
    ensures Patch(b, ch) == Patch(c, ch)
  {
  }

  function PatchAll(bs: seq<Brochure>, id: Id, ch: Changes): (r: seq<Brochure>)
    ensures |r| == |bs|
    ensures forall i :: 0 <= i < |bs| ==> r[i] == (if bs[i].id == id then Patch(bs[i], ch) else bs[i])
  {
    seq(|bs|, i requires 0 <= i < |bs| => if bs[i].id == id then Patch(bs[i], ch) else bs[i])
  }

  /** The final `findByIdAndUpdate`: not found leaves everything as it was. */
  function ApplyChanges(db: Db, fs: Fs, id: Id, ch: Changes): (r: Outcome)
    ensures r.fs == fs
  {
    if FindBrochure(db.brochures, id).None? then Outcome(db, fs, NotFound("Brochure not found"))
    else Outcome(db.(brochures := PatchAll(db.brochures, id, ch)), fs, Success("Brochure updated successfully"))
  }

  /**
   * `updateBrochure`: with a file, the record must exist; the title falls back
   * to the stored one and then to `Brochure`; the upload is placed in the
   * program's folder; the old file is unlinked when there was one and the url
   * changed. No directory is removed.
   */
  function UpdateBrochure(db: Db, fs: Fs, cwd: Path, id: Id, ch: Changes, file: Option<Upload>, nowMs: nat): (r: Outcome)
    ensures r.db.programs == db.programs && r.db.types == db.types && r.db.assignments == db.assignments
    ensures !r.response.Success? ==> r.db == db
  {
    if file.None? then ApplyChanges(db, fs, id, ch)
    else
      match FindBrochure(db.brochures, id)
      case None => Outcome(db, fs, NotFound("Brochure not found"))
      case Some(prior) =>
        var title := OrElse(ch.title, Or(prior.title, "Brochure"));
        match PlaceUpload(fs, cwd, db.programs, prior.programId, title, file.value, nowMs)
        case PlaceFailed(fs') => Outcome(db, fs', ServerError("Failed to update brochure"))
        case Placed(fs', fileUrl, name, stored) =>
          var fs'' := if stored && prior.fileUrl != [] && prior.fileUrl != fileUrl
                      then UnlinkIfExists(fs', UploadPath(cwd, prior.fileUrl)) else fs';
          ApplyChanges(db, fs'', id, ch.(fileUrl := Some(fileUrl), name := Some(name), url := Some(OrElse(ch.url, fileUrl))))
  }

  /** An unknown id is a 404 that changes neither records nor files. */
  lemma UpdateUnknownBrochure(db: Db, fs: Fs, cwd: Path, id: Id, ch: Changes, file: Option<Upload>, nowMs: nat)
    requires FindBrochure(db.brochures, id).None?
    ensures UpdateBrochure(db, fs, cwd, id, ch, file, nowMs) == Outcome(db, fs, NotFound("Brochure not found"))
  {
  }

  /**
   * With a file, the update removes at most the old file, and only when the
   * record had one and the new url differs; the directories are those the
   * placement left.
   */
  lemma UpdateOldFile(db: Db, fs: Fs, cwd: Path, id: Id, ch: Changes, up: Upload, nowMs: nat)
    requires FindBrochure(db.brochures, id).Some?
    ensures var prior := FindBrochure(db.brochures, id).value;
      var title := OrElse(ch.title, Or(prior.title, "Brochure"));
      var pl := PlaceUpload(fs, cwd, db.programs, prior.programId, title, up, nowMs);
      var r := UpdateBrochure(db, fs, cwd, id, ch, Some(up), nowMs);
      pl.Placed? ==>
        && r.fs.dirs == pl.fs.dirs
        && (forall q :: q in r.fs.files ==> q in pl.fs.files && r.fs.files[q] == pl.fs.files[q])
        && (forall q :: q in pl.fs.files && q !in r.fs.files ==>
              pl.stored && prior.fileUrl != [] && prior.fileUrl != pl.fileUrl && q == UploadPath(cwd, prior.fileUrl))
        && (pl.stored && prior.fileUrl != [] && prior.fileUrl != pl.fileUrl ==> UploadPath(cwd, prior.fileUrl) !in r.fs.files)
  {
    var prior := FindBrochure(db.brochures, id).value;
    var title := OrElse(ch.title, Or(prior.title, "Brochure"));
    var pl := PlaceUpload(fs, cwd, db.programs, prior.programId, title, up, nowMs);
    if pl.Placed? {
      var drop := pl.stored && prior.fileUrl != [] && prior.fileUrl != pl.fileUrl;
      var fs2 := if drop then UnlinkIfExists(pl.fs, UploadPath(cwd, prior.fileUrl)) else pl.fs;
      var ch2 := ch.(fileUrl := Some(pl.fileUrl), name := Some(pl.name), url := Some(OrElse(ch.url, pl.fileUrl)));
      assert UpdateBrochure(db, fs, cwd, id, ch, Some(up), nowMs) == ApplyChanges(db, fs2, id, ch2);
    }
  }

  /**
   * A successful update patches the one record with that id and no other: the
   * body's given fields replace the stored ones, the program and date included,
   * and without a file the record is exactly the patched one.
   */
  lemma UpdatePatchesRecord(db: Db, fs: Fs, cwd: Path, id: Id, ch: Changes, file: Option<Upload>, nowMs: nat)
    requires UpdateBrochure(db, fs, cwd, id, ch, file, nowMs).response.Success?
    ensures var r := UpdateBrochure(db, fs, cwd, id, ch, file, nowMs);
      && |r.db.brochures| == |db.brochures|
      && (forall i :: 0 <= i < |db.brochures| && db.brochures[i].id != id ==> r.db.brochures[i] == db.brochures[i])
      && (forall i :: 0 <= i < |db.brochures| && db.brochures[i].id == id ==>
            && r.db.brochures[i].id == id
            && r.db.brochures[i].title == Given(ch.title, db.brochures[i].title)
            && r.db.brochures[i].programId == Given(ch.programId, db.brochures[i].programId)
            && r.db.brochures[i].categoryId == Given(CategoryChange(ch), db.brochures[i].categoryId)
            && r.db.brochures[i].date == (if ch.date.Some? then ch.date else db.brochures[i].date))
      && (file.None? ==> r.db.brochures == PatchAll(db.brochures, id, ch))
  {
  }

  /**
   * With a file, the patched record takes the placed file's url and name, and
   * its `url` is the body's when truthy and the file's url otherwise.
   */
  lemma UpdateFileFields(db: Db, fs: Fs, cwd: Path, id: Id, ch: Changes, up: Upload, nowMs: nat)
    requires FindBrochure(db.brochures, id).Some?
    requires UpdateBrochure(db, fs, cwd, id, ch, Some(up), nowMs).response.Success?
    ensures var prior := FindBrochure(db.brochures, id).value;
      var pl := PlaceUpload(fs, cwd, db.programs, prior.programId, OrElse(ch.title, Or(prior.title, "Brochure")), up, nowMs);
      var r := UpdateBrochure(db, fs, cwd, id, ch, Some(up), nowMs);
      && pl.Placed?
      && (forall i :: 0 <= i < |db.brochures| && db.brochures[i].id == id ==>
            && r.db.brochures[i].fileUrl == pl.fileUrl
            && r.db.brochures[i].name == pl.name
            && r.db.brochures[i].url == OrElse(ch.url, pl.fileUrl))
  {
  }

  function NotId(id: Id): Brochure -> bool { (b: Brochure) => b.id != id }

  /**
   * `deleteBrochure`: a 404 for an unknown id; otherwise the best-effort file
   * cleanup, then the record is deleted whatever the cleanup did.
   */
  function DeleteBrochure(db: Db, fs: Fs, cwd: Path, id: Id): (r: Outcome)
    ensures r.response.NotFound? <==> FindBrochure(db.brochures, id).None?
    ensures r.response.NotFound? ==> r.db == db && r.fs == fs
  {
    match FindBrochure(db.brochures, id)
    case None => Outcome(db, fs, NotFound("Brochure not found"))
    case Some(b) =>
      Outcome(db.(brochures := Filter(db.brochures, NotId(id))), CleanupFile(fs, cwd, b.fileUrl).0,
              Success("Brochure deleted successfully"))
  }

  /** Whatever happens on disk, a found brochure's record is gone and every other record stays. */
  lemma DeleteBrochureRemovesRecord(db: Db, fs: Fs, cwd: Path, id: Id)
    requires FindBrochure(db.brochures, id).Some?
    ensures var r := DeleteBrochure(db, fs, cwd, id);
      && r.response == Success("Brochure deleted successfully")
      && (forall b :: b in r.db.brochures ==> b in db.brochures && b.id != id)
      && (forall b :: b in db.brochures && b.id != id ==> b in r.db.brochures)
      && r.db.programs == db.programs && r.db.assignments == db.assignments
      && r.fs == CleanupFile(fs, cwd, FindBrochure(db.brochures, id).value.fileUrl).0
  {
    FilterMembers(db.brochures, NotId(id));
  }

  /** Deleting a freshly created brochure restores the records. */
  lemma CreateThenDelete(db: Db, fs: Fs, cwd: Path, upId: Id, newId: Id, input: BrochureInput, file: Option<Upload>, nowMs: nat)
    requires forall i :: 0 <= i < |db.brochures| ==> db.brochures[i].id != newId
    requires CreateBrochure(db, fs, cwd, upId, newId, input, file, nowMs).response.Success?
    ensures var c := CreateBrochure(db, fs, cwd, upId, newId, input, file, nowMs);
      DeleteBrochure(c.db, c.fs, cwd, newId).db == db
  {
    var c := CreateBrochure(db, fs, cwd, upId, newId, input, file, nowMs);
    var b := c.db.brochures[|db.brochures|];
    assert c.db.brochures == db.brochures + [b];
    FilterAppend(db.brochures, [b], NotId(newId));
    FilterAll(db.brochures, NotId(newId));
    assert c.db.brochures[|db.brochures|].id == newId;
  }

  // ---------------------------------------------------------------------------
  // Delete cascades
  // ---------------------------------------------------------------------------

  function OfProgram(id: Id): Brochure -> bool { (b: Brochure) => b.programId == id }
  function NotOfProgram(id: Id): Brochure -> bool { (b: Brochure) => b.programId != id }
  function ProgramNot(id: Id): Program -> bool { (p: Program) => p.id != id }
  function OfType(t: Id): Program -> bool { (p: Program) => p.typeId == t }
  function NotOfType(t: Id): Program -> bool { (p: Program) => p.typeId != t }
  function TypeNot(t: Id): Id -> bool { (x: Id) => x != t }

  /** The brochures of a program, in store order (`Brochure.find({ university_program_id })`). */
  function BrochuresOf(db: Db, id: Id): seq<Brochure> { Filter(db.brochures, OfProgram(id)) }

  /** The cleanup block run for each brochure in turn; its outcome is only logged. */
  function CleanupAll(fs: Fs, cwd: Path, bs: seq<Brochure>): Fs
    decreases |bs|
  {
    if bs == [] then fs else CleanupAll(CleanupFile(fs, cwd, bs[0].fileUrl).0, cwd, bs[1..])
  }

  /**
   * A run of cleanups only takes away: files (keeping the contents of those
   * left) and directories, and keeps the tree closed.
   */
  lemma {:induction false} CleanupAllShrinks(fs: Fs, cwd: Path, bs: seq<Brochure>)
    ensures var r := CleanupAll(fs, cwd, bs);
      && r.files.Keys <= fs.files.Keys
      && (forall p :: p in r.files ==> r.files[p] == fs.files[p])
      && r.dirs <= fs.dirs
      && (Closed(fs) && cwd != [] ==> Closed(r))
    decreases |bs|
  {
    if bs != [] {
      CleanupFileEffect(fs, cwd, bs[0].fileUrl);
      var fs1 := CleanupFile(fs, cwd, bs[0].fileUrl).0;
      if Closed(fs) && cwd != [] {
        CleanupFileClosed(fs, cwd, bs[0].fileUrl);
      }
      CleanupAllShrinks(fs1, cwd, bs[1..]);
    }
  }

  /** Every file a run of cleanups removes is the file of one of the brochures. */
  lemma {:induction false} CleanupAllRemoves(fs: Fs, cwd: Path, bs: seq<Brochure>)
    ensures forall p :: p in fs.files && p !in CleanupAll(fs, cwd, bs).files ==>
      exists i :: 0 <= i < |bs| && p == UploadPath(cwd, bs[i].fileUrl)
    decreases |bs|
  {
    if bs != [] {
      CleanupFileEffect(fs, cwd, bs[0].fileUrl);
      var fs1 := CleanupFile(fs, cwd, bs[0].fileUrl).0;
      CleanupAllRemoves(fs1, cwd, bs[1..]);
      forall p | p in fs.files && p !in CleanupAll(fs, cwd, bs).files
        ensures exists i :: 0 <= i < |bs| && p == UploadPath(cwd, bs[i].fileUrl)
      {
        if p in fs1.files {
          var i :| 0 <= i < |bs[1..]| && p == UploadPath(cwd, bs[1..][i].fileUrl);
          assert bs[1..][i] == bs[i + 1];
        } else {
          assert p == UploadPath(cwd, bs[0].fileUrl);
        }
      }
    }
  }

  /** One step of a cascade, in the order the controller awaits them. */
  datatype Step =
    | CleanFilesOf(programId: Id)
    | DropBrochuresOf(programId: Id)
    | DropProgram(programId: Id)
    | DropProgramsOfType(typeId: Id)
    | DropType(typeId: Id)

  /** Files are looked up in the records as they stand when the step runs. */
  function Apply(db: Db, fs: Fs, cwd: Path, step: Step): (Db, Fs) {
    match step
    case CleanFilesOf(id) => (db, CleanupAll(fs, cwd, BrochuresOf(db, id)))
    case DropBrochuresOf(id) => (db.(brochures := Filter(db.brochures, NotOfProgram(id))), fs)
    case DropProgram(id) => (db.(programs := Filter(db.programs, ProgramNot(id))), fs)
    case DropProgramsOfType(t) => (db.(programs := Filter(db.programs, NotOfType(t))), fs)
    case DropType(t) => (db.(types := Filter(db.types, TypeNot(t))), fs)
  }

  function Run(db: Db, fs: Fs, cwd: Path, steps: seq<Step>): (Db, Fs)
    decreases |steps|
  {
    if steps == [] then (db, fs)
    else
      var (db1, fs1) := Apply(db, fs, cwd, steps[0]);
      Run(db1, fs1, cwd, steps[1..])
  }

  lemma {:induction false} RunAppend(db: Db, fs: Fs, cwd: Path, a: seq<Step>, b: seq<Step>)
    ensures Run(db, fs, cwd, a + b) == (var (d, f) := Run(db, fs, cwd, a); Run(d, f, cwd, b))
    decreases |a|
  {
    if a == [] {
      assert a + b == b;
    } else {
      assert (a + b)[0] == a[0] && (a + b)[1..] == a[1..] + b;
      var (db1, fs1) := Apply(db, fs, cwd, a[0]);
      RunAppend(db1, fs1, cwd, a[1..], b);
    }
  }

  /** `deleteUniversityProgram`: the files of its brochures, then the brochures, then the program. */
  function ProgramPlan(id: Id): seq<Step> { [CleanFilesOf(id), DropBrochuresOf(id), DropProgram(id)] }

  function DeleteProgram(db: Db, fs: Fs, cwd: Path, id: Id): (r: Outcome)
    ensures r.response.Success?
  {
    var (d, f) := Run(db, fs, cwd, ProgramPlan(id));
    Outcome(d, f, Success("University program and all associated brochures deleted successfully"))
  }

  /**
   * Deleting a program cleans the files of the brochures it had before any
   * record goes, then leaves no brochure of it and no program with its id;
   * every other record, and every assignment, stays.
   */
  lemma DeleteProgramEffect(db: Db, fs: Fs, cwd: Path, id: Id)
    ensures var r := DeleteProgram(db, fs, cwd, id);
      && r.fs == CleanupAll(fs, cwd, BrochuresOf(db, id))
      && r.db.brochures == Filter(db.brochures, NotOfProgram(id))
      && r.db.programs == Filter(db.programs, ProgramNot(id))
      && r.db.types == db.types
      && r.db.assignments == db.assignments
  {
    var plan := ProgramPlan(id);
    var s1 := Apply(db, fs, cwd, plan[0]);
    var s2 := Apply(s1.0, s1.1, cwd, plan[1]);
    var s3 := Apply(s2.0, s2.1, cwd, plan[2]);
    assert plan[1..][1..][1..] == [];
    assert Run(s2.0, s2.1, cwd, plan[1..][1..]) == s3;
    assert Run(s1.0, s1.1, cwd, plan[1..]) == s3;
    assert Run(db, fs, cwd, plan) == s3;
  }

  /** An agent assigned to a deleted program still holds the assignment. */
  lemma DeleteProgramKeepsAssignments(db: Db, fs: Fs, cwd: Path, id: Id, agent: Id)
    requires Assignments.HasPair(db.assignments, agent, id)
    ensures Assignments.HasPair(DeleteProgram(db, fs, cwd, id).db.assignments, agent, id)
    ensures forall i :: 0 <= i < |DeleteProgram(db, fs, cwd, id).db.programs| ==> DeleteProgram(db, fs, cwd, id).db.programs[i].id != id
  {
    DeleteProgramEffect(db, fs, cwd, id);
    FilterMembers(db.programs, ProgramNot(id));
  }

  /** The per-program part of a type delete, for the programs found at the start. */
  function ProgramsSteps(ps: seq<Program>): seq<Step> {
    if ps == [] then [] else [CleanFilesOf(ps[0].id), DropBrochuresOf(ps[0].id)] + ProgramsSteps(ps[1..])
  }

  /** `deleteBrochureType`: each program's files and brochures, then the programs of the type, then the type. */
  function TypePlan(db: Db, t: Id): seq<Step> {
    ProgramsSteps(Filter(db.programs, OfType(t))) + [DropProgramsOfType(t), DropType(t)]
  }

  function DeleteType(db: Db, fs: Fs, cwd: Path, t: Id): (r: Outcome)
    ensures r.response.Success?
  {
    var (d, f) := Run(db, fs, cwd, TypePlan(db, t));
    Outcome(d, f, Success("Brochure type and all associated programs and brochures deleted successfully"))
  }

  function ProgramIds(ps: seq<Program>): (r: seq<Id>)
    ensures |r| == |ps| && forall i :: 0 <= i < |ps| ==> r[i] == ps[i].id
  {
    if ps == [] then [] else [ps[0].id] + ProgramIds(ps[1..])
  }

  function OutsidePrograms(ids: seq<Id>): Brochure -> bool { (b: Brochure) => b.programId !in ids }

  /** The per-program steps drop exactly the brochures of those programs and touch no other collection. */
  lemma {:induction false} ProgramsStepsEffect(db: Db, fs: Fs, cwd: Path, ps: seq<Program>)
    ensures var d := Run(db, fs, cwd, ProgramsSteps(ps)).0;
      && d.brochures == Filter(db.brochures, OutsidePrograms(ProgramIds(ps)))
      && d.programs == db.programs && d.types == db.types && d.assignments == db.assignments
    decreases |ps|
  {
    if ps == [] {
      FilterAll(db.brochures, OutsidePrograms([]));
    } else {
      var id := ps[0].id;
      var head := [CleanFilesOf(id), DropBrochuresOf(id)];
      assert ProgramsSteps(ps) == head + ProgramsSteps(ps[1..]);
      RunAppend(db, fs, cwd, head, ProgramsSteps(ps[1..]));
      var s1 := Apply(db, fs, cwd, head[0]);
      var s2 := Apply(s1.0, s1.1, cwd, head[1]);
      assert head[1..][1..] == [];
      assert Run(s1.0, s1.1, cwd, head[1..]) == s2;
      assert Run(db, fs, cwd, head) == s2;
      var db1 := s2.0;
      var fs1 := s2.1;
      assert db1 == db.(brochures := Filter(db.brochures, NotOfProgram(id)));
      ProgramsStepsEffect(db1, fs1, cwd, ps[1..]);
      assert ProgramIds(ps) == [id] + ProgramIds(ps[1..]);
      FilterAnd(db.brochures, NotOfProgram(id), OutsidePrograms(ProgramIds(ps[1..])), OutsidePrograms(ProgramIds(ps)));
    }
  }

  /**
   * Deleting a type removes every brochure of its programs, then those
   * programs, then the type; other brochures and programs, and every
   * assignment, stay.
   */
  lemma DeleteTypeEffect(db: Db, fs: Fs, cwd: Path, t: Id)
    ensures var r := DeleteType(db, fs, cwd, t);
      var ids := ProgramIds(Filter(db.programs, OfType(t)));
      && r.db.brochures == Filter(db.brochures, OutsidePrograms(ids))
      && r.db.programs == Filter(db.programs, NotOfType(t))
      && r.db.types == Filter(db.types, TypeNot(t))
      && r.db.assignments == db.assignments
  {
    var ps := Filter(db.programs, OfType(t));
    var tail := [DropProgramsOfType(t), DropType(t)];
    RunAppend(db, fs, cwd, ProgramsSteps(ps), tail);
    ProgramsStepsEffect(db, fs, cwd, ps);
    var mid := Run(db, fs, cwd, ProgramsSteps(ps));
    var s1 := Apply(mid.0, mid.1, cwd, tail[0]);
    var s2 := Apply(s1.0, s1.1, cwd, tail[1]);
    assert tail[1..][1..] == [];
    assert Run(s1.0, s1.1, cwd, tail[1..]) == s2;
    assert Run(mid.0, mid.1, cwd, tail) == s2;
  }

  /** Each program's files are cleaned before its brochures are dropped, and every program step precedes the program and type deletions. */
  lemma TypePlanOrder(db: Db, t: Id)
    ensures var plan := TypePlan(db, t);
      var ps := Filter(db.programs, OfType(t));
      && |plan| == 2 * |ps| + 2
      && (forall k :: 0 <= k < |ps| ==> plan[2 * k] == CleanFilesOf(ps[k].id) && plan[2 * k + 1] == DropBrochuresOf(ps[k].id))
      && plan[2 * |ps|] == DropProgramsOfType(t) && plan[2 * |ps| + 1] == DropType(t)
  {
    ProgramsStepsLayout(Filter(db.programs, OfType(t)));
  }

  lemma {:induction false} ProgramsStepsLayout(ps: seq<Program>)
    ensures |ProgramsSteps(ps)| == 2 * |ps|
    ensures forall k :: 0 <= k < |ps| ==>
      ProgramsSteps(ps)[2 * k] == CleanFilesOf(ps[k].id) && ProgramsSteps(ps)[2 * k + 1] == DropBrochuresOf(ps[k].id)
  {
    if ps != [] {
      ProgramsStepsLayout(ps[1..]);
      var rest := ProgramsSteps(ps[1..]);
      forall k | 1 <= k < |ps|
        ensures ProgramsSteps(ps)[2 * k] == CleanFilesOf(ps[k].id) && ProgramsSteps(ps)[2 * k + 1] == DropBrochuresOf(ps[k].id)
      {
        assert ps[1..][k - 1] == ps[k];
        assert ProgramsSteps(ps)[2 * k] == rest[2 * (k - 1)];
        assert ProgramsSteps(ps)[2 * k + 1] == rest[2 * (k - 1) + 1];
      }
    }
  }

  // ---------------------------------------------------------------------------
  // What an agent may see
  // ---------------------------------------------------------------------------

  /** `req.userRole?.toUpperCase() === 'AGENT'`. */
  predicate IsAgent(role: Option<string>) { role.Some? && Upper(role.value) == "AGENT" }

  /**
   * The role test ignores ASCII case: a role is the agent role exactly when it
   * lower-cases to `agent`, and re-casing it changes nothing. A missing role is
   * not an agent.
   */
  lemma AgentRoleAnyCase(role: string)
    ensures IsAgent(Some(role)) <==> Lower(role) == "agent"
    ensures IsAgent(Some(Lower(role))) == IsAgent(Some(role)) == IsAgent(Some(Upper(role)))
    ensures !IsAgent(None)
  {
    SameCaseInsensitively(role, "agent");
    assert Upper("agent") == "AGENT" && Lower("agent") == "agent";
    UpperOfLower(role);
    UpperOfUpper(role);
  }

  /** `universityId` of every assignment of `agent`, in store order. */
  function UniversitiesOf(st: Assignments.Store, agent: Id): (r: seq<Id>)
  {
    if st == [] then []
    else (if st[0].agentId == agent then [st[0].universityId] else []) + UniversitiesOf(st[1..], agent)
  }

  lemma {:induction false} UniversitiesOfMembers(st: Assignments.Store, agent: Id, uni: Id)
    ensures uni in UniversitiesOf(st, agent) <==> Assignments.HasPair(st, agent, uni)
  {
    if st != [] {
      UniversitiesOfMembers(st[1..], agent, uni);
      if Assignments.HasPair(st[1..], agent, uni) {
        var i :| 0 <= i < |st[1..]| && st[1..][i].agentId == agent && st[1..][i].universityId == uni;
        assert st[i + 1] == st[1..][i];
      }
      if Assignments.HasPair(st, agent, uni) {
        var i :| 0 <= i < |st| && st[i].agentId == agent && st[i].universityId == uni;
        if i > 0 { assert st[1..][i - 1] == st[i]; }
      }
    }
  }

  /** `AgentUniversityAssignment.find({ agentId }).distinct('universityId')`. */
  function AssignedPrograms(st: Assignments.Store, agent: Id): (r: seq<Id>)
    ensures Distinct(r)
  {
    Dedup(UniversitiesOf(st, agent))
  }

  function InIds(ids: seq<Id>): Program -> bool { (p: Program) => p.id in ids }

  /** The programs listed by `getAllUniversityPrograms` (the sort by name is not modelled). */
  function ListPrograms(db: Db, role: Option<string>, user: Id): (r: seq<Program>)
    ensures |r| <= |db.programs|
  {
    if IsAgent(role) then Filter(db.programs, InIds(AssignedPrograms(db.assignments, user))) else db.programs
  }

  /** `getUniversityProgramsByType`: the same restriction, within one type. */
  function ListProgramsOfType(db: Db, role: Option<string>, user: Id, t: Id): (r: seq<Program>)
    ensures |r| <= |db.programs|
  {
    Filter(ListPrograms(db, role, user), OfType(t))
  }

  /** An agent sees exactly the programs it is assigned to; any other role sees them all. */
  lemma ListProgramsAccess(db: Db, role: Option<string>, user: Id, p: Program)
    ensures !IsAgent(role) ==> ListPrograms(db, role, user) == db.programs
    ensures IsAgent(role) ==>
      (p in ListPrograms(db, role, user) <==> p in db.programs && Assignments.HasPair(db.assignments, user, p.id))
  {
    if IsAgent(role) {
      var ids := AssignedPrograms(db.assignments, user);
      FilterMembers(db.programs, InIds(ids));
      UniversitiesOfMembers(db.assignments, user, p.id);
      assert p.id in ids <==> p.id in UniversitiesOf(db.assignments, user);
      if p in db.programs && p.id in ids {
        var i :| 0 <= i < |db.programs| && db.programs[i] == p;
        assert InIds(ids)(db.programs[i]);
      }
    }
  }

  /** Listing by type keeps exactly the visible programs of that type. */
  lemma ListProgramsOfTypeAccess(db: Db, role: Option<string>, user: Id, t: Id, p: Program)
    ensures p in ListProgramsOfType(db, role, user, t) <==> p in ListPrograms(db, role, user) && p.typeId == t
  {
    var vis := ListPrograms(db, role, user);
    FilterMembers(vis, OfType(t));
    if p in vis && p.typeId == t {
      var i :| 0 <= i < |vis| && vis[i] == p;
      assert OfType(t)(vis[i]);
    }
  }

  /** `getBrochuresByUP`: the brochures of a program, or a refusal. */
  datatype Listing = Listed(brochures: seq<Brochure>) | Denied(response: Response)

  function ListBrochures(db: Db, role: Option<string>, user: Id, upId: Id): (r: Listing)
    ensures r.Denied? ==> r.response == Forbidden("You are not assigned to this university program")
    ensures r.Listed? ==> r.brochures == BrochuresOf(db, upId)
  {
    if IsAgent(role) && !Assignments.HasPair(db.assignments, user, upId) then
      Denied(Forbidden("You are not assigned to this university program"))
    else Listed(BrochuresOf(db, upId))
  }

  /** Only an agent without an assignment to the program is refused, and the listing holds exactly that program's brochures. */
  lemma ListBrochuresAccess(db: Db, role: Option<string>, user: Id, upId: Id)
    ensures ListBrochures(db, role, user, upId).Denied? <==> IsAgent(role) && !Assignments.HasPair(db.assignments, user, upId)
    ensures ListBrochures(db, role, user, upId).Listed? ==>
      forall b :: b in ListBrochures(db, role, user, upId).brochures <==> b in db.brochures && b.programId == upId
  {
    var bs := BrochuresOf(db, upId);
    FilterMembers(db.brochures, OfProgram(upId));
    forall b | b in db.brochures && b.programId == upId ensures b in bs {
      var i :| 0 <= i < |db.brochures| && db.brochures[i] == b;
      assert OfProgram(upId)(db.brochures[i]);
    }
  }
}
