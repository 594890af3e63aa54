/**
 * The part of the file system the brochure controller touches
 * (backend/src/controllers/brochureController.js): paths as sequences of
 * segments, a tree of files and directories, `mkdir -p`, `rename`, and the
 * best-effort cleanup that unlinks a brochure file and then removes its
 * parent and grandparent directories when they are left empty.
 */
module FileTree {
  import opened Text
  import opened Common

  /** A path as its segments below `/`; `[]` is the root. */
  type Path = seq<string>

  /** A path segment: non-empty and slash-free. */
  predicate IsSegment(s: string) { s != [] && '/' !in s }

  predicate AllSegments(p: Path) { forall i :: 0 <= i < |p| ==> IsSegment(p[i]) }

  /** Length of the leading stretch of `s` without a slash. */
  function SegmentEnd(s: string): (k: nat)
    ensures k <= |s|
  {
    if s == [] || s[0] == '/' then 0 else 1 + SegmentEnd(s[1..])
  }

  lemma {:induction false} SegmentEndShape(s: string)
    ensures forall i :: 0 <= i < SegmentEnd(s) ==> s[i] != '/'
    ensures SegmentEnd(s) == |s| || s[SegmentEnd(s)] == '/'
  {
    if s != [] && s[0] != '/' {
      SegmentEndShape(s[1..]);
      forall i | 0 < i < SegmentEnd(s) ensures s[i] != '/' {
        assert s[i] == s[1..][i - 1];
      }
    }
  }

  /** The non-empty pieces between slashes, as `path.join` normalises them. */
  function Split(s: string): (r: Path)
    decreases |s|
  {
    if s == [] then []
    else if s[0] == '/' then Split(s[1..])
    else
      var k := SegmentEnd(s);
      [s[..k]] + Split(s[k..])
  }

  /** Every piece `Split` produces is a segment. */
  lemma {:induction false} SplitSegments(s: string)
    ensures AllSegments(Split(s))
    decreases |s|
  {
    if s != [] {
      if s[0] == '/' {
        SplitSegments(s[1..]);
      } else {
        var k := SegmentEnd(s);
        SegmentEndShape(s);
        SplitSegments(s[k..]);
        var r := Split(s);
        assert r == [s[..k]] + Split(s[k..]);
        assert IsSegment(s[..k]) by {
          assert s[..k][0] == s[0];
          forall i | 0 <= i < k ensures s[..k][i] != '/' {
            assert s[..k][i] == s[i];
          }
        }
        forall i | 0 <= i < |r| ensures IsSegment(r[i]) {
          if i > 0 { assert r[i] == Split(s[k..])[i - 1]; }
        }
      }
    }
  }

  /** `/a/b/c` for `[a, b, c]`. */
  function Render(p: Path): (r: string)
    ensures p != [] ==> |r| > 0 && r[0] == '/'
  {
    if p == [] then [] else "/" + p[0] + Render(p[1..])
  }

  /** The string form of a path, `/` for the root. */
  function PathString(p: Path): (r: string)
    ensures r != []
  {
    if p == [] then "/" else Render(p)
  }

  lemma {:induction false} SegmentEndOfSegment(a: string, b: string)
    requires '/' !in a
    requires b == [] || b[0] == '/'
    ensures SegmentEnd(a + b) == |a|
  {
    if a != [] {
      assert (a + b)[0] == a[0];
      assert (a + b)[1..] == a[1..] + b;
      SegmentEndOfSegment(a[1..], b);
    } else {
      assert a + b == b;
    }
  }

  /** Splitting the rendering of a path of segments gives the path back. */
  lemma {:induction false} SplitRender(p: Path)
    requires AllSegments(p)
    ensures Split(Render(p)) == p
  {
    if p != [] {
      var rest := Render(p[1..]);
      var s := Render(p);
      assert s == "/" + (p[0] + rest);
      assert s[1..] == p[0] + rest;
      SegmentEndOfSegment(p[0], rest);
      var t := p[0] + rest;
      assert t[..|p[0]|] == p[0];
      assert t[|p[0]|..] == rest;
      assert forall i :: 0 <= i < |p[1..]| ==> p[1..][i] == p[i + 1];
      SplitRender(p[1..]);
    }
  }

  /** Appending a segment to a path appends `/` and the segment to its rendering. */
  lemma {:induction false} RenderAppend(p: Path, x: string)
    ensures Render(p + [x]) == Render(p) + ("/" + x)
  {
    if p == [] {
      assert p + [x] == [x];
    } else {
      assert (p + [x])[1..] == p[1..] + [x];
      RenderAppend(p[1..], x);
    }
  }

  /** `path.join(dir, name)`. */
  function Join(dir: Path, name: string): (r: Path)
    ensures |dir| <= |r| && r[..|dir|] == dir
  {
    dir + Split(name)
  }

  /** `path.dirname`; the root is its own parent. */
  function Parent(p: Path): (r: Path)
    ensures p != [] ==> |r| == |p| - 1 && r == p[..|p| - 1]
    ensures p == [] ==> r == []
  {
    if p == [] then [] else p[..|p| - 1]
  }

  /** `x` sits directly inside `d`. */
  predicate IsChild(x: Path, d: Path) { |x| == |d| + 1 && x[..|d|] == d }

  /** `path.basename`: what follows the last slash (trailing slashes are not stripped). */
  function BaseName(s: string): (r: string)
    ensures '/' !in r && |r| <= |s|
  {
    if s == [] || s[|s| - 1] == '/' then [] else BaseName(s[..|s| - 1]) + [s[|s| - 1]]
  }

  /** A slash-free string is its own base name. */
  lemma {:induction false} BaseNameNoSlash(s: string)
    requires '/' !in s
    ensures BaseName(s) == s
  {
    if s != [] {
      assert s[|s| - 1] in s;
      BaseNameNoSlash(s[..|s| - 1]);
    }
  }

  /** Index of the last `.`, or -1. */
  function LastDot(b: string): (k: int)
    ensures -1 <= k < |b|
    ensures 0 <= k ==> b[k] == '.'
  {
    if b == [] then -1 else if b[|b| - 1] == '.' then |b| - 1 else LastDot(b[..|b| - 1])
  }

  lemma {:induction false} LastDotIsLast(b: string)
    ensures forall i :: LastDot(b) < i < |b| ==> b[i] != '.'
  {
    if b != [] && b[|b| - 1] != '.' {
      LastDotIsLast(b[..|b| - 1]);
      forall i | LastDot(b) < i < |b| ensures b[i] != '.' {
        if i < |b| - 1 { assert b[i] == b[..|b| - 1][i]; }
      }
    }
  }

  /** A dot followed by dot-free text is the last dot. */
  lemma {:induction false} LastDotOf(stem: string, e: string)
    requires '.' !in e
    ensures LastDot(stem + "." + e) == |stem|
    decreases |e|
  {
    var b := stem + "." + e;
    if e == [] {
      assert b[|b| - 1] == '.';
    } else {
      assert b[|b| - 1] == e[|e| - 1];
      assert e[|e| - 1] in e;
      assert b[..|b| - 1] == stem + "." + e[..|e| - 1];
      var e' := e[..|e| - 1];
      assert '.' !in e' by {
        forall i | 0 <= i < |e'| ensures e'[i] != '.' {
          assert e'[i] == e[i];
        }
      }
      LastDotOf(stem, e[..|e| - 1]);
    }
  }

  /**
   * `path.extname`: from the last `.` of the base name to its end; empty when
   * there is no dot, when the only dot starts the name, and for `..`.
   */
  function Extname(s: string): (r: string)
    ensures '/' !in r
    ensures r == [] || r[0] == '.'
  {
    var b := BaseName(s);
    var k := LastDot(b);
    if k <= 0 || b == ".." then [] else
      assert forall i :: 0 <= i < |b[k..]| ==> b[k..][i] == b[k + i];
      b[k..]
  }

  /** A non-empty extension is a dot-led, dot-free tail of the base name that leaves a non-empty stem. */
  lemma ExtnameTail(s: string)
    ensures var b := BaseName(s); var r := Extname(s);
      r != [] ==> |r| < |b| && b == b[..|b| - |r|] + r && '.' !in r[1..]
  {
    var b := BaseName(s);
    var k := LastDot(b);
    LastDotIsLast(b);
    if 0 < k && b != ".." {
      var r := b[k..];
      forall i | 0 <= i < |r[1..]| ensures r[1..][i] != '.' {
        assert r[1..][i] == b[k + 1 + i];
      }
      assert b == b[..k] + r;
    }
  }

  /** `extname` of `stem.e` is `.e` for a dot-free `e` and a stem that is neither empty nor `.`. */
  lemma ExtnameOf(stem: string, e: string)
    requires '/' !in stem && '/' !in e && '.' !in e
    requires stem != [] && stem != "."
    ensures Extname(stem + "." + e) == "." + e
  {
    var b := stem + "." + e;
    assert '/' !in b by {
      forall i | 0 <= i < |b| ensures b[i] != '/' {
        if i < |stem| { assert b[i] == stem[i]; }
        else if i > |stem| { assert b[i] == e[i - |stem| - 1]; }
      }
    }
    BaseNameNoSlash(b);
    LastDotOf(stem, e);
    NotDotDot(stem, e);
    ExtnameAt(b, |stem|);
    assert b[|stem|..] == "." + e;
  }

  lemma NotDotDot(stem: string, e: string)
    requires stem != [] && stem != "."
    ensures stem + "." + e != ".."
  {
    var b := stem + "." + e;
    if |b| == 2 {
      assert |stem| == 1 && stem == [stem[0]] && b[0] == stem[0];
    }
  }

  /** With the base name's last dot at `k > 0`, the extension runs from `k`. */
  lemma ExtnameAt(b: string, k: int)
    requires BaseName(b) == b && LastDot(b) == k && 0 < k && b != ".."
    ensures Extname(b) == b[k..]
  {
  }

  /** Files with their contents (the upload each came from), and directories. */
  datatype Fs = Fs(files: map<Path, string>, dirs: set<Path>)

  /** `fs.existsSync`. */
  predicate Exists(fs: Fs, p: Path) { p in fs.files || p in fs.dirs }

  /** `fs.readdirSync(d).length === 0`. */
  predicate EmptyDir(fs: Fs, d: Path) {
    (forall x :: x in fs.files ==> !IsChild(x, d)) && (forall x :: x in fs.dirs ==> !IsChild(x, d))
  }

  /** The root exists, every entry's parent is a directory, and nothing is both a file and a directory. */
  predicate Closed(fs: Fs) {
    && [] in fs.dirs
    && (forall x :: x in fs.files ==> x != [] && Parent(x) in fs.dirs && x !in fs.dirs)
    && (forall d :: d in fs.dirs && d != [] ==> Parent(d) in fs.dirs)
  }

  /** Removing a directory with nothing in it keeps the tree closed. */
  lemma RemoveEmptyDirClosed(fs: Fs, d: Path)
    requires Closed(fs) && d != [] && EmptyDir(fs, d)
    ensures Closed(Fs(fs.files, fs.dirs - {d}))
  {
  }

  /** `mkdirSync(dir, { recursive: true })`: every missing ancestor is created; a file in the way makes it fail. */
  function MkdirP(fs: Fs, dir: Path): (r: Option<Fs>)
    ensures r.Some? ==> r.value.files == fs.files && fs.dirs <= r.value.dirs && dir in r.value.dirs
  {
    if exists k :: 0 <= k <= |dir| && dir[..k] in fs.files then None
    else
      assert dir[..|dir|] == dir;
      Some(Fs(fs.files, fs.dirs + set k | 0 <= k <= |dir| :: dir[..k]))
  }

  /** `mkdir -p` keeps the tree closed and adds only ancestors of `dir`. */
  lemma MkdirPClosed(fs: Fs, dir: Path)
    requires Closed(fs) && MkdirP(fs, dir).Some?
    ensures Closed(MkdirP(fs, dir).value)
    ensures forall d :: d in MkdirP(fs, dir).value.dirs && d !in fs.dirs ==> |d| <= |dir| && dir[..|d|] == d
  {
    var r := MkdirP(fs, dir).value;
    forall d | d in r.dirs && d != [] ensures Parent(d) in r.dirs {
      if d !in fs.dirs {
        var k :| 0 <= k <= |dir| && d == dir[..k];
        assert Parent(d) == dir[..k - 1];
      }
    }
    forall x | x in r.files ensures x !in r.dirs {
      if x in r.dirs && x !in fs.dirs {
        assert false;
      }
    }
    forall d | d in r.dirs && d !in fs.dirs ensures |d| <= |dir| && dir[..|d|] == d {
      var k :| 0 <= k <= |dir| && d == dir[..k];
    }
  }

  /** `fs.renameSync(src, dst)`: moves a file, replacing whatever file `dst` held. */
  function Rename(fs: Fs, src: Path, dst: Path): (r: Option<Fs>)
    ensures r.Some? <==> (src in fs.files && dst !in fs.dirs && dst != [] && Parent(dst) in fs.dirs)
    ensures r.Some? ==> dst in r.value.files && r.value.files[dst] == fs.files[src] && r.value.dirs == fs.dirs
    ensures r.Some? ==> forall p :: p in fs.files && p != src && p != dst ==> p in r.value.files && r.value.files[p] == fs.files[p]
    ensures r.Some? ==> forall p :: p in r.value.files ==> p == dst || (p in fs.files && p != src)
  {
    if src !in fs.files || dst in fs.dirs || dst == [] || Parent(dst) !in fs.dirs then None
    else Some(Fs((fs.files - {src})[dst := fs.files[src]], fs.dirs))
  }

  /** The `path.join('uploads', 'documents', 'brochure')` the grandparent guard looks for. */
  const BrochureRoot: string := "uploads/documents/brochure"

  /** `path.join(process.cwd(), 'uploads', fileUrl)`. */
  function UploadPath(cwd: Path, fileUrl: string): (r: Path)
    ensures |r| > |cwd| && r[..|cwd|] == cwd && r[|cwd|] == "uploads"
  {
    cwd + ["uploads"] + Split(fileUrl)
  }

  /** How the cleanup block ended; `Failed` is an error it caught and logged. */
  datatype Cleanup = NoFileUrl | NotOnDisk | Removed(parentRemoved: bool, grandRemoved: bool) | Failed

  /**
   * The cleanup block of `deleteBrochure`, repeated in `deleteUniversityProgram`
   * and `deleteBrochureType`: unlink the file if it exists, remove its parent if
   * that is now empty, then remove the grandparent if its path contains the
   * brochure root and it is empty. A failing call stops the block with what was
   * done so far.
   */
  function CleanupFile(fs: Fs, cwd: Path, fileUrl: string): (r: (Fs, Cleanup))
    ensures fileUrl == [] ==> r == (fs, NoFileUrl)
    ensures fileUrl != [] && !Exists(fs, UploadPath(cwd, fileUrl)) ==> r == (fs, NotOnDisk)
    ensures r.1.Removed? ==> UploadPath(cwd, fileUrl) !in r.0.files
  {
    if fileUrl == [] then (fs, NoFileUrl)
    else
      var abs := UploadPath(cwd, fileUrl);
      if !Exists(fs, abs) then (fs, NotOnDisk)
      else if abs in fs.dirs then (fs, Failed)
      else
        var fs1 := Fs(fs.files - {abs}, fs.dirs);
        var parent := Parent(abs);
        if parent !in fs1.dirs then (fs1, Failed)
        else
          var dropParent := EmptyDir(fs1, parent);
          var fs2 := if dropParent then Fs(fs1.files, fs1.dirs - {parent}) else fs1;
          var grand := Parent(parent);
          if !Contains(PathString(grand), BrochureRoot) then (fs2, Removed(dropParent, false))
          else if grand !in fs2.dirs then (fs2, Failed)
          else if EmptyDir(fs2, grand) then (Fs(fs2.files, fs2.dirs - {grand}), Removed(dropParent, true))
          else (fs2, Removed(dropParent, false))
  }

  /**
   * The cleanup removes at most the one file the url names, and at most its
   * parent and grandparent directories, each only when it is empty; the
   * grandparent only when its path contains the brochure root. Nothing is added.
   */
  lemma CleanupFileEffect(fs: Fs, cwd: Path, fileUrl: string)
    ensures var (r, _) := CleanupFile(fs, cwd, fileUrl);
      var abs := UploadPath(cwd, fileUrl);
      && r.files.Keys <= fs.files.Keys
      && (forall p :: p in r.files ==> r.files[p] == fs.files[p])
      && (forall p :: p in fs.files && p != abs ==> p in r.files)
      && r.dirs <= fs.dirs
      && (forall d :: d in fs.dirs && d !in r.dirs ==>
            (d == Parent(abs) || (d == Parent(Parent(abs)) && Contains(PathString(d), BrochureRoot)))
            && EmptyDir(r, d))
  {
  }

  /** The cleanup keeps the tree closed. */
  lemma CleanupFileClosed(fs: Fs, cwd: Path, fileUrl: string)
    requires Closed(fs) && cwd != []
    ensures Closed(CleanupFile(fs, cwd, fileUrl).0)
  {
    if fileUrl != [] {
      var abs := UploadPath(cwd, fileUrl);
      if Exists(fs, abs) && abs !in fs.dirs {
        var fs1 := Fs(fs.files - {abs}, fs.dirs);
        assert Closed(fs1);
        var parent := Parent(abs);
        if parent in fs1.dirs {
          var fs2 := if EmptyDir(fs1, parent) then Fs(fs1.files, fs1.dirs - {parent}) else fs1;
          if EmptyDir(fs1, parent) {
            RemoveEmptyDirClosed(fs1, parent);
          }
          var grand := Parent(parent);
          if Contains(PathString(grand), BrochureRoot) && grand in fs2.dirs && EmptyDir(fs2, grand) {
            if grand == [] {
              ContainsShorter(PathString(grand), BrochureRoot);
              assert false;
            }
            RemoveEmptyDirClosed(fs2, grand);
          }
        }
      }
    }
  }

  /** The brochure root below a working directory. */
  function BrochureDir(cwd: Path): (r: Path)
    ensures |r| == |cwd| + 3
  {
    cwd + ["uploads", "documents", "brochure"]
  }

  /** The rendered brochure root contains the text the grandparent guard looks for. */
  lemma BrochureDirGuarded(cwd: Path)
    ensures Contains(PathString(BrochureDir(cwd)), BrochureRoot)
  {
    var a := cwd + ["uploads"];
    var b := a + ["documents"];
    var r := Render(cwd);
    RenderAppend(cwd, "uploads");
    RenderAppend(a, "documents");
    RenderAppend(b, "brochure");
    assert BrochureDir(cwd) == b + ["brochure"];
    var t := Render(BrochureDir(cwd));
    assert t == ((r + "/uploads") + "/documents") + "/brochure";
    RootSpelling();
    calc {
      t;
      ((r + "/uploads") + "/documents") + "/brochure";
      { ConcatAssoc(r, "/uploads", "/documents"); }
      (r + ("/uploads" + "/documents")) + "/brochure";
      { ConcatAssoc(r, "/uploads" + "/documents", "/brochure"); }
      r + (("/uploads" + "/documents") + "/brochure");
      r + ("/" + BrochureRoot);
      { ConcatAssoc(r, "/", BrochureRoot); }
      (r + "/") + BrochureRoot;
    }
    ContainsSuffix(r + "/", BrochureRoot);
  }

  lemma RootSpelling()
    ensures ("/uploads" + "/documents") + "/brochure" == "/" + BrochureRoot
  {
  }

  /**
   * The grandparent guard also accepts the brochure root itself: deleting the
   * only brochure file removes its folder and then the brochure root.
   */
  lemma CleanupRemovesBrochureRoot(cwd: Path, folder: string, name: string, content: string)
    requires IsSegment(folder) && IsSegment(name)
    ensures var root := BrochureDir(cwd);
      var fs := Fs(map[root + [folder, name] := content], {root, root + [folder]});
      CleanupFile(fs, cwd, Render(["documents", "brochure", folder, name])) == (Fs(map[], {}), Removed(true, true))
  {
    var root := BrochureDir(cwd);
    var url := Render(["documents", "brochure", folder, name]);
    var p := ["documents", "brochure", folder, name];
    assert AllSegments(p);
    SplitRender(p);
    var abs := UploadPath(cwd, url);
    assert abs == root + [folder, name];
    assert Parent(abs) == root + [folder];
    assert Parent(Parent(abs)) == root;
    BrochureDirGuarded(cwd);
    var fs := Fs(map[abs := content], {root, root + [folder]});
    var fs1 := Fs(fs.files - {abs}, fs.dirs);
    assert fs1.files == map[];
    assert EmptyDir(fs1, root + [folder]);
    var fs2 := Fs(fs1.files, fs1.dirs - {root + [folder]});
    assert fs2.dirs == {root};
    assert EmptyDir(fs2, root);
    assert fs2.dirs - {root} == {};
  }
}
