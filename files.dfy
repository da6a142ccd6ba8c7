/**
 * The file download route, `GET /files?name=<name>`.
 *
 * The router canonicalises its uploads directory once, when it is created.
 * A request without a name is refused with 400; otherwise the name is
 * resolved against that directory, and a result that is neither the
 * directory itself nor below it (as a string: it must start with the
 * directory followed by `/`) is refused with 403. Only then is the file
 * read: its bytes are sent with 200, and a failed read is a 404.
 */
module Files {
  import opened Js
  import opened Http
  import opened PosixPath

  /** What `fs.readFileSync` returns for each path it can read; reading any other path throws. */
  type FileSystem = map<string, seq<Byte>>

  /** A router made by `createFilesRouter`, with the uploads directory it canonicalised. */
  datatype FilesRouter = FilesRouter(uploads: Dir) {
    /** `resolvedUploadsDir` */
    function ResolvedUploadsDir(): (s: string) {
      Format(uploads)
    }
  }

  /** `createFilesRouter(uploadsDir)`, created while the working directory is `cwd`. */
  function CreateFilesRouter(cwd: Dir, uploadsDir: string): (r: FilesRouter)
    ensures r.ResolvedUploadsDir() == ResolveString(cwd, [uploadsDir])
    ensures IsAbsolute(r.ResolvedUploadsDir())
    ensures Resolve(cwd, [r.ResolvedUploadsDir()]) == r.uploads
  {
    ResolveIdempotent(cwd, uploadsDir);
    FilesRouter(Resolve(cwd, [uploadsDir]))
  }

  /**
   * `path.resolve(resolvedUploadsDir, filename)`, as a path: a relative name
   * is walked from the uploads directory, an absolute one from the root.
   */
  function Target(router: FilesRouter, cwd: Dir, filename: string): (t: Dir)
    ensures t == if IsAbsolute(filename) then Walk([], Split(filename)) else Walk(router.uploads, Split(filename))
  {
    ResolveAgainst(cwd, router.uploads, filename);
    Resolve(cwd, [router.ResolvedUploadsDir(), filename])
  }

  /** `path.resolve(resolvedUploadsDir, filename)`, as the string handed to the guard and to the read. */
  function FilePath(router: FilesRouter, cwd: Dir, filename: string): (s: string) {
    Format(Target(router, cwd, filename))
  }

  /**
   * The guard: true when the request is let through to the read. Below a
   * non-root directory it admits exactly the names that resolve in or below
   * it; with `/` as the directory it admits only names resolving to `/`.
   */
  predicate Admitted(router: FilesRouter, cwd: Dir, filename: string)
    ensures router.uploads != [] ==> (Admitted(router, cwd, filename) <==> router.uploads <= Target(router, cwd, filename))
    ensures router.uploads == [] ==> (Admitted(router, cwd, filename) <==> Target(router, cwd, filename) == [])
  {
    var t := Target(router, cwd, filename);
    if router.uploads == [] then
      WithinRoot(t);
      Within(Format(t), router.ResolvedUploadsDir())
    else
      WithinIffBelow(router.uploads, t);
      Within(Format(t), router.ResolvedUploadsDir())
  }

  const MissingName := Response(400, Error("Filename is required"))
  const AccessDenied := Response(403, Error("Access denied"))
  const FileNotFound := Response(404, Error("File not found"))

  /**
   * The route handler. `name` is `req.query.name`, `cwd` is `process.cwd()`
   * at request time and `fs` the readable files; `read` is the path given
   * to `fs.readFileSync`, or `None` when nothing was read.
   */
  method GetFiles(router: FilesRouter, cwd: Dir, name: Option<string>, fs: FileSystem)
    returns (res: Response, read: Option<string>)
    // a missing or empty name is refused before anything is resolved or read
    ensures !Truthy(name) ==> res == MissingName && read == None
    // the decision, in the handler's own terms
    ensures Truthy(name) && !Admitted(router, cwd, name.value) ==> res == AccessDenied && read == None
    ensures Truthy(name) && Admitted(router, cwd, name.value) ==>
              && read == Some(FilePath(router, cwd, name.value))
              && res == if read.value in fs then Response(200, Content(fs[read.value])) else FileNotFound
    // containment: whatever is read is the uploads directory or lies below it
    ensures read.Some? ==> Truthy(name) && router.uploads <= Target(router, cwd, name.value)
    // below a non-root directory, 403 is exactly "the name resolves outside it"
    ensures Truthy(name) && router.uploads != [] ==>
              (res == AccessDenied <==> !(router.uploads <= Target(router, cwd, name.value)))
    // with the root as uploads directory, only the root itself passes the guard
    ensures Truthy(name) && router.uploads == [] ==>
              (res == AccessDenied <==> Target(router, cwd, name.value) != [])
  {
    if !Truthy(name) {
      return MissingName, None;
    }
    var filepath := ResolveString(cwd, [router.ResolvedUploadsDir(), name.value]);
    assert Admitted(router, cwd, name.value) <==> Within(filepath, router.ResolvedUploadsDir());
    if !StartsWith(filepath, router.ResolvedUploadsDir() + [Sep]) && filepath != router.ResolvedUploadsDir() {
      return AccessDenied, None;
    }
    read := Some(filepath);
    if filepath in fs {
      res := Response(200, Content(fs[filepath]));
    } else {
      res := FileNotFound;
    }
  }

  // ---------------------------------------------------------------------------
  // What the guard admits and refuses

  /** A plain file name such as `photo.jpg` resolves to `<uploads>/photo.jpg` and is admitted. */
  lemma ChildAdmitted(router: FilesRouter, cwd: Dir, n: string)
    requires IsName(n) && router.uploads != []
    ensures Target(router, cwd, n) == router.uploads + [n]
    ensures FilePath(router, cwd, n) == router.ResolvedUploadsDir() + [Sep] + n
    ensures Admitted(router, cwd, n)
  {
    SplitName(n);
    assert Walk(router.uploads, [n]) == Walk(router.uploads + [n], []);
    FormatChild(router.uploads, n);
  }

  /** A relative name without `..` segments never leaves the uploads directory. */
  lemma NoParentSegmentAdmitted(router: FilesRouter, cwd: Dir, filename: string)
    requires !IsAbsolute(filename)
    requires forall i :: 0 <= i < |Split(filename)| ==> Split(filename)[i] != ".."
    requires router.uploads != []
    ensures router.uploads <= Target(router, cwd, filename)
    ensures Admitted(router, cwd, filename)
  {
    WalkStaysBelow(router.uploads, Split(filename));
    WithinIffBelow(router.uploads, Target(router, cwd, filename));
  }

  /** Names that normalise back to the uploads directory, `.` and `a/..`, are admitted (even at the root). */
  lemma SelfAdmitted(router: FilesRouter, cwd: Dir)
    ensures Target(router, cwd, ".") == router.uploads && Admitted(router, cwd, ".")
    ensures Target(router, cwd, "a/..") == router.uploads && Admitted(router, cwd, "a/..")
  {
    SplitName(".");
    assert Walk(router.uploads, ["."]) == Walk(router.uploads, []);
    assert "a/.." == "a" + [Sep] + "..";
    SplitAppend("a", "..");
    SplitName("a");
    SplitName("..");
    assert Split("a/..") == ["a", ".."];
    assert Walk(router.uploads, ["a", ".."]) == Walk(router.uploads + ["a"], [".."]);
    assert (router.uploads + ["a"])[..|router.uploads|] == router.uploads;
  }

  /** `../x` leaves the uploads directory (unless `x` is the directory's own name) and is refused. */
  lemma ParentTraversalRefused(router: FilesRouter, cwd: Dir, x: string)
    requires IsName(x) && router.uploads != [] && x != router.uploads[|router.uploads| - 1]
    ensures !(router.uploads <= Target(router, cwd, "../" + x))
    ensures !Admitted(router, cwd, "../" + x)
  {
    var b := router.uploads;
    var name := "../" + x;
    var up := b[..|b| - 1];
    calc {
      Target(router, cwd, name);
      Walk(b, Split(name));
      { assert name == ".." + [Sep] + x; }
      Walk(b, Split(".." + [Sep] + x));
      { SplitAppend("..", x); SplitName(".."); SplitName(x); }
      Walk(b, ["..", x]);
      Walk(up, [x]);
      Walk(up + [x], []);
      up + [x];
    }
    assert (up + [x])[|b| - 1] != b[|b| - 1];
    WithinIffBelow(b, up + [x]);
  }

  /** `"../" * k + rest` */
  function Climb(k: nat, rest: string): (s: string) {
    if k == 0 then rest else "../" + Climb(k - 1, rest)
  }

  lemma {:induction false} SplitClimb(k: nat, rest: string)
    ensures Split(Climb(k, rest)) == Ups(k) + Split(rest)
  {
    if k > 0 {
      assert Climb(k, rest) == ".." + [Sep] + Climb(k - 1, rest);
      SplitAppend("..", Climb(k - 1, rest));
      SplitName("..");
      SplitClimb(k - 1, rest);
      assert Ups(k) == [".."] + Ups(k - 1);
    }
  }

  /**
   * Climbing at least as many levels as the uploads directory is deep lands
   * at the root, so the rest of the name is resolved from `/`.
   */
  lemma ClimbToRoot(router: FilesRouter, cwd: Dir, k: nat, rest: string)
    requires k >= |router.uploads|
    ensures Target(router, cwd, Climb(k, rest)) == Walk([], Split(rest))
  {
    SplitClimb(k, rest);
    WalkAppend(router.uploads, Ups(k), Split(rest));
    WalkClimb(router.uploads, k);
  }

  /**
   * Climbing past the root and then naming a path outside the uploads
   * directory is refused, e.g. `../../../../../../etc/passwd` below any
   * directory at most six deep that is not under `/etc`.
   */
  lemma DeepTraversalRefused(router: FilesRouter, cwd: Dir, k: nat, names: Dir)
    requires k >= |router.uploads| && names != []
    requires router.uploads != [] && !(router.uploads <= names)
    ensures Target(router, cwd, Climb(k, Join(names))) == names
    ensures !Admitted(router, cwd, Climb(k, Join(names)))
  {
    ClimbToRoot(router, cwd, k, Join(names));
    SplitJoin(names);
    WalkNames([], names);
    WithinIffBelow(router.uploads, names);
  }

  lemma EtcPasswdName()
    ensures Climb(6, Join(["etc", "passwd"])) == "../../../../../../etc/passwd"
    ensures Format(["etc", "passwd"]) == "/etc/passwd"
  {
  }

  /** An absolute name ignores the uploads directory: `/etc/passwd` is resolved as itself. */
  lemma AbsoluteNameReplacesBase(router: FilesRouter, cwd: Dir, names: Dir)
    requires router.uploads != []
    ensures Target(router, cwd, Format(names)) == names
    ensures Admitted(router, cwd, Format(names)) <==> router.uploads <= names
  {
    FormatRoundTrip(names);
    WithinIffBelow(router.uploads, names);
  }

  /** The separator matters: `/uploads/x` starts with `/u` but is not below `/u`. */
  lemma SiblingPrefixRefused()
    ensures Format(["u"]) == "/u" && Format(["uploads", "x"]) == "/uploads/x"
    ensures StartsWith("/uploads/x", "/u")
    ensures !Within("/uploads/x", "/u")
  {
    WithinIffBelow(["u"], ["uploads", "x"]);
  }

  /** With `/` as the uploads directory every child is refused: the guard demands the prefix `//`. */
  lemma RootRefusesChildren(router: FilesRouter, cwd: Dir, n: string)
    requires router.uploads == [] && IsName(n)
    ensures Target(router, cwd, n) == [n]
    ensures !Admitted(router, cwd, n)
  {
    SplitName(n);
    assert Walk([], [n]) == Walk([n], []);
    WithinRoot([n]);
  }
}
