/** The storage controller's request handling: what each of the three callbacks (read, write
    with uploads, delete) does to the tree and how it ends, and handleRequest, which resolves
    the request path, runs the callback and turns its return value or its exception into the
    response sent. */
module Controller {
  import opened Http
  import opened Paths
  import opened FileSystem
  import opened Storage

  /** How a callback ends: it returns a response, returns nothing, or raises a
      RuntimeException (with its code and message) or a TypeError. */
  datatype Completion =
    | Returned(response: Response)
    | ReturnedNull
    | Raised(code: int, message: string)
    | TypeErrorRaised

  /** A callback's completion and the tree it leaves behind. */
  datatype Outcome = Outcome(completion: Completion, tree: Tree)

  /** The response handleRequest sends, and the tree after the request. */
  datatype Served = Served(response: Response, tree: Tree)

  /** The three routes: GET reads, POST creates a directory and stores uploads, DELETE removes. */
  datatype Action = Read | Write(uploads: seq<UploadedFile>) | Remove

  /** handleRequest's translation of a completion: a response is sent as it is, nothing
      becomes 200 {"result": "ok"}, a RuntimeException becomes its code with the user's root
      removed from its message, and a TypeError becomes 400. */
  function Respond(c: Completion, basePath: string): Response {
    match c
    case Returned(r) => r
    case ReturnedNull => JsonResult(200, "ok")
    case Raised(code, message) => JsonError(code, Strip(message, basePath))
    case TypeErrorRaised => JsonError(400, BadParams)
  }

  // ---------------------------------------------------------------------------
  // the callbacks as functions of the tree

  /** getPathContent's callback: a directory is listed, anything else is read as a file. */
  ghost function ReadCompletion(t: Tree, full: string, sniff: seq<Byte> -> string): Completion {
    if IsDir(t, Segments(full)) then Returned(JsonResult(200, DirResult(t, full).value))
    else
      match FileDataResult(t, full, sniff)
      case Ok(d) => Returned(Download(d.mime, d.filename, d.size, d.content))
      case Err(code, message) => Raised(code, message)
  }

  /** setPathContent's loop over the uploads, in order: a missing client file name is a
      TypeError, the first failed upload ends the loop with its exception, and uploads done
      before a failure stay done. */
  function UploadsOutcome(t: Tree, full: string, ups: seq<UploadedFile>): Outcome
    decreases |ups|
  {
    if ups == [] then Outcome(ReturnedNull, t)
    else
      match ups[0].clientFilename
      case None => Outcome(TypeErrorRaised, t)
      case Some(name) =>
        var e := UploadEffect(t, JoinPath(full, name), ups[0].content);
        if e.result.Err? then Outcome(Raised(e.result.code, e.result.message), e.tree)
        else UploadsOutcome(e.tree, full, ups[1..])
  }

  /** setPathContent's callback: mkdir of the path, whose exception is passed on only when
      there are no uploads, then the uploads. */
  function WriteOutcome(t: Tree, full: string, ups: seq<UploadedFile>): Outcome {
    var m := MkdirEffect(t, TrimRight(full));
    if m.result.Err? && ups == [] then Outcome(Raised(m.result.code, m.result.message), m.tree)
    else UploadsOutcome(m.tree, full, ups)
  }

  /** deletePathContent's callback: the user's root itself (compared ignoring ASCII case) is
      refused with 400; anything else goes to rm. */
  function RemoveOutcome(t: Tree, full: string, basePath: string): Outcome {
    if EqualsIgnoreCase(full, basePath) then Outcome(Raised(400, RootRefused), t)
    else
      var e := RmEffect(t, full);
      if e.result.Err? then Outcome(Raised(e.result.code, e.result.message), e.tree)
      else Outcome(ReturnedNull, e.tree)
  }

  /** A whole request: the user's root from the storage root and the user id, the request
      path (empty when the route has none) resolved against it, then the callback. */
  ghost function Handled(t: Tree, storagePath: string, userId: int, pathArg: Option<string>,
                         action: Action, sniff: seq<Byte> -> string): Served
  {
    var base := BasePath(storagePath, userId);
    Dispatch(t, base, FullPath(base, pathArg.GetOr("")), action, sniff)
  }

  /** What follows the resolution: a rejected path is answered with its exception; an accepted
      one goes to the route's callback, whose completion becomes the response. */
  ghost function Dispatch(t: Tree, base: string, resolved: Result<string>, action: Action,
                          sniff: seq<Byte> -> string): Served
  {
    match resolved
    case Err(code, message) => Served(Respond(Raised(code, message), base), t)
    case Ok(full) =>
      var o := match action
        case Read => Outcome(ReadCompletion(t, full, sniff), t)
        case Write(ups) => WriteOutcome(t, full, ups)
        case Remove => RemoveOutcome(t, full, base);
      Served(Respond(o.completion, base), o.tree)
  }

  // ---------------------------------------------------------------------------
  // the controller

  class StorageController {
    /** The storage root, fixed at construction. */
    const storagePath: string
    /** The current user's root, set at the start of every request. */
    var basePath: string

    /** The storage root is the normalised "../../storage/" next to the controller's own
        directory. */
    constructor (sourceDir: string)
      ensures storagePath == Normalized(sourceDir + "/../../storage/")
      ensures basePath == ""
    {
      var root := NormalizePath(sourceDir + "/../../storage/");
      storagePath := root;
      basePath := "";
    }

    method SetBasePath(userId: int)
      modifies this
      ensures basePath == BasePath(storagePath, userId)
    {
      basePath := storagePath + "/" + IntToString(userId);
    }

    method GetFullPath(rel: string) returns (r: Result<string>)
      ensures r == FullPath(basePath, rel)
    {
      var normalized := NormalizePath(JoinPath(basePath, rel));
      if !(basePath <= normalized) {
        return Err(403, Forbidden);
      }
      r := Ok(normalized);
    }

    method ReadCallback(full: string, disk: Disk, sniff: seq<Byte> -> string) returns (c: Completion)
      requires disk.Valid()
      ensures c == ReadCompletion(disk.entries, full, sniff)
    {
      if IsDir(disk.entries, Segments(full)) {
        var listing := disk.ListDir(full);
        return Returned(JsonResult(200, listing.value));
      }
      var data := disk.GetFileData(full, sniff);
      match data
      case Ok(d) => c := Returned(Download(d.mime, d.filename, d.size, d.content));
      case Err(code, message) => c := Raised(code, message);
    }

    method WriteCallback(full: string, ups: seq<UploadedFile>, disk: Disk) returns (c: Completion)
      requires disk.Valid()
      modifies disk
      ensures disk.Valid()
      ensures Outcome(c, disk.entries) == WriteOutcome(old(disk.entries), full, ups)
    {
      var made := disk.Mkdir(TrimRight(full));
      if made.Err? && ups == [] {
        return Raised(made.code, made.message);
      }
      var i := 0;
      while i < |ups|
        invariant 0 <= i <= |ups| && disk.Valid()
        invariant UploadsOutcome(disk.entries, full, ups[i..]) == WriteOutcome(old(disk.entries), full, ups)
      {
        assert ups[i..][0] == ups[i] && ups[i..][1..] == ups[i + 1..];
        match ups[i].clientFilename {
          case None =>
            return TypeErrorRaised;
          case Some(name) =>
            var stored := disk.Upload(JoinPath(full, name), ups[i].content);
            if stored.Err? {
              return Raised(stored.code, stored.message);
            }
        }
        i := i + 1;
      }
      c := ReturnedNull;
    }

    method RemoveCallback(full: string, disk: Disk) returns (c: Completion)
      requires disk.Valid()
      modifies disk
      ensures disk.Valid()
      ensures Outcome(c, disk.entries) == RemoveOutcome(old(disk.entries), full, basePath)
    {
      if EqualsIgnoreCase(full, basePath) {
        return Raised(400, RootRefused);
      }
      var removed := disk.Rm(full);
      if removed.Err? {
        return Raised(removed.code, removed.message);
      }
      c := ReturnedNull;
    }

    method HandleRequest(userId: int, pathArg: Option<string>, action: Action, disk: Disk,
                         sniff: seq<Byte> -> string) returns (response: Response)
      requires disk.Valid()
      modifies this, disk
      ensures disk.Valid() && basePath == BasePath(storagePath, userId)
      ensures Served(response, disk.entries)
           == Handled(old(disk.entries), storagePath, userId, pathArg, action, sniff)
    {
      SetBasePath(userId);
      var full := GetFullPath(pathArg.GetOr(""));
      if full.Err? {
        return Respond(Raised(full.code, full.message), basePath);
      }
      var c: Completion;
      match action {
        case Read => c := ReadCallback(full.value, disk, sniff);
        case Write(ups) => c := WriteCallback(full.value, ups, disk);
        case Remove => c := RemoveCallback(full.value, disk);
      }
      response := Respond(c, basePath);
    }

    method GetPathContent(userId: int, pathArg: Option<string>, disk: Disk, sniff: seq<Byte> -> string)
      returns (response: Response)
      requires disk.Valid()
      modifies this, disk
      ensures disk.Valid()
      ensures Served(response, disk.entries) == Handled(old(disk.entries), storagePath, userId, pathArg, Read, sniff)
    {
      response := HandleRequest(userId, pathArg, Read, disk, sniff);
    }

    method SetPathContent(userId: int, pathArg: Option<string>, uploads: seq<UploadedFile>, disk: Disk,
                          sniff: seq<Byte> -> string) returns (response: Response)
      requires disk.Valid()
      modifies this, disk
      ensures disk.Valid()
      ensures Served(response, disk.entries)
           == Handled(old(disk.entries), storagePath, userId, pathArg, Write(uploads), sniff)
    {
      response := HandleRequest(userId, pathArg, Write(uploads), disk, sniff);
    }

    method DeletePathContent(userId: int, pathArg: Option<string>, disk: Disk, sniff: seq<Byte> -> string)
      returns (response: Response)
      requires disk.Valid()
      modifies this, disk
      ensures disk.Valid()
      ensures Served(response, disk.entries) == Handled(old(disk.entries), storagePath, userId, pathArg, Remove, sniff)
    {
      response := HandleRequest(userId, pathArg, Remove, disk, sniff);
    }
  }

  // ---------------------------------------------------------------------------
  // what a request does

  /** The storage root is a canonical path of at least one segment (as the normalised
      "../../storage/" is). */
  predicate CanonicalRoot(storagePath: string, segs: seq<string>) {
    AllProper(segs) && |segs| >= 1 && storagePath == "/" + Implode("/", segs)
  }

  /** The user's root then starts with a slash, so slash-free messages are sent unchanged. */
  lemma BaseStartsWithSlash(storagePath: string, segs: seq<string>, userId: int)
    requires CanonicalRoot(storagePath, segs)
    ensures var base := BasePath(storagePath, userId); base != [] && base[0] == '/'
  {
    assert storagePath[0] == '/';
  }

  lemma NoSlashJoin(a: string, b: string)
    requires '/' !in a && '/' !in b
    ensures '/' !in a + b
  {
  }

  lemma ForbiddenSlashFree()
    ensures '/' !in Forbidden
  {
    assert '/' !in ForbiddenStart;
    assert '/' !in ForbiddenMiddle;
    assert '/' !in ForbiddenEnd;
    NoSlashJoin(ForbiddenStart, ForbiddenMiddle);
    NoSlashJoin(ForbiddenStart + ForbiddenMiddle, ForbiddenEnd);
  }

  lemma RootRefusedSlashFree()
    ensures '/' !in RootRefused
  {
  }

  lemma DirExistsSlashFree()
    ensures '/' !in DirExists
  {
  }

  lemma FileNotFoundSlashFree()
    ensures '/' !in FileNotFound
  {
  }

  /** A rejected path is answered with getFullPath's exception whatever the route, and the
      tree is left alone. */
  lemma DispatchRejected(t: Tree, base: string, action: Action, sniff: seq<Byte> -> string)
    requires base != [] && base[0] == '/'
    ensures Dispatch(t, base, Err(403, Forbidden), action, sniff) == Served(JsonError(403, Forbidden), t)
  {
    ForbiddenSlashFree();
    SlashFreeUnstripped(Forbidden, base);
  }

  /** A request path that resolves outside the user's root is answered 403 whatever the
      route, and nothing on disk changes. */
  lemma ForbiddenForEveryAction(t: Tree, storagePath: string, segs: seq<string>, userId: int,
                                pathArg: Option<string>, action: Action, sniff: seq<Byte> -> string)
    requires CanonicalRoot(storagePath, segs)
    requires FullPath(BasePath(storagePath, userId), pathArg.GetOr("")).Err?
    ensures Handled(t, storagePath, userId, pathArg, action, sniff) == Served(JsonError(403, Forbidden), t)
  {
    var base := BasePath(storagePath, userId);
    assert FullPath(base, pathArg.GetOr("")) == Err(403, Forbidden);
    BaseStartsWithSlash(storagePath, segs, userId);
    DispatchRejected(t, base, action, sniff);
  }

  lemma DispatchRemoveRoot(t: Tree, base: string, sniff: seq<Byte> -> string)
    requires base != [] && base[0] == '/'
    ensures Dispatch(t, base, Ok(base), Remove, sniff) == Served(JsonError(400, RootRefused), t)
  {
    assert EqualsIgnoreCase(base, base);
    RootRefusedSlashFree();
    SlashFreeUnstripped(RootRefused, base);
  }

  /** Deleting any path that resolves to the user's root ("", "/", "a/..", "./" and so on)
      is refused with 400 and changes nothing. */
  lemma RootNotDeletable(t: Tree, storagePath: string, segs: seq<string>, userId: int,
                         pathArg: Option<string>, sniff: seq<Byte> -> string)
    requires CanonicalRoot(storagePath, segs)
    requires FullPath(BasePath(storagePath, userId), pathArg.GetOr("")) == Ok(BasePath(storagePath, userId))
    ensures Handled(t, storagePath, userId, pathArg, Remove, sniff) == Served(JsonError(400, RootRefused), t)
  {
    BaseStartsWithSlash(storagePath, segs, userId);
    DispatchRemoveRoot(t, BasePath(storagePath, userId), sniff);
  }

  /** In particular an absent, empty or "/" path names the root. */
  lemma RootSpellings(t: Tree, storagePath: string, segs: seq<string>, userId: int,
                      pathArg: Option<string>, sniff: seq<Byte> -> string)
    requires CanonicalRoot(storagePath, segs)
    requires pathArg == None || pathArg == Some("") || pathArg == Some("/")
    ensures Handled(t, storagePath, userId, pathArg, Remove, sniff) == Served(JsonError(400, RootRefused), t)
  {
    BasePathCanonical(segs, userId);
    RootResolves(segs, IntToString(userId));
    RootNotDeletable(t, storagePath, segs, userId, pathArg, sniff);
  }

  lemma DispatchRemove(t: Tree, base: string, full: string, sniff: seq<Byte> -> string)
    requires base <= full && full != base
    ensures var served := Dispatch(t, base, Ok(full), Remove, sniff);
      && served.tree == RmEffect(t, full).tree
      && (served.response == JsonResult(200, "ok") <==> Segments(full) in t)
  {
    RootCheckIsEquality(full, base);
  }

  /** Any other accepted path goes to rm: 200 exactly when something existed there, and the
      tree is what rm leaves. */
  lemma RemoveBelowRoot(t: Tree, storagePath: string, userId: int, pathArg: Option<string>,
                        sniff: seq<Byte> -> string, full: string)
    requires FullPath(BasePath(storagePath, userId), pathArg.GetOr("")) == Ok(full)
    requires full != BasePath(storagePath, userId)
    ensures var served := Handled(t, storagePath, userId, pathArg, Remove, sniff);
      && served.tree == RmEffect(t, full).tree
      && (served.response == JsonResult(200, "ok") <==> Segments(full) in t)
  {
    var base := BasePath(storagePath, userId);
    ResolvedUnder(base, pathArg.GetOr(""), full);
    DispatchRemove(t, base, full, sniff);
  }

  lemma ResolvedUnder(base: string, rel: string, full: string)
    requires FullPath(base, rel) == Ok(full)
    ensures base <= full
  {
  }

  /** mkdir sees the same entry as the request path: the trailing slash trim changes no
      segment of a canonical path. */
  lemma TrimCanonical(segs: seq<string>)
    requires AllProper(segs)
    ensures Segments(TrimRight("/" + Implode("/", segs))) == segs
  {
    var s := "/" + Implode("/", segs);
    if segs == [] {
      assert TrimRight(s) == "";
      assert Explode("") == [""];
    } else {
      ImplodeNoTrailingSlash(segs);
      assert TrimRight(s) == s;
      SegmentsOfCanonical(segs);
    }
  }

  /** A resolved path is the canonical text of its own segments. */
  lemma ResolvedCanonical(base: string, rel: string, full: string)
    requires FullPath(base, rel) == Ok(full)
    ensures full == "/" + Implode("/", Segments(full)) && Segments(TrimRight(full)) == Segments(full)
  {
    var segs := Segments(JoinPath(base, rel));
    SegmentsOfCanonical(segs);
    TrimCanonical(segs);
  }

  lemma DispatchMkdirFresh(t: Tree, base: string, full: string, sniff: seq<Byte> -> string)
    requires var p := Segments(TrimRight(full)); p !in t && !BlockedByFile(t, p)
    ensures Dispatch(t, base, Ok(full), Write([]), sniff)
         == Served(JsonResult(200, "ok"), WithDirs(t, Segments(TrimRight(full))))
  {
  }

  lemma DispatchMkdirExisting(t: Tree, base: string, full: string, sniff: seq<Byte> -> string)
    requires base != [] && base[0] == '/'
    requires Segments(TrimRight(full)) in t
    ensures Dispatch(t, base, Ok(full), Write([]), sniff) == Served(JsonError(409, DirExists), t)
  {
    DirExistsSlashFree();
    SlashFreeUnstripped(DirExists, base);
  }

  /** A POST without uploads to a fresh path creates it as a directory (200); the same POST
      again is a 409 conflict and changes nothing. */
  lemma WriteTwiceConflicts(t: Tree, storagePath: string, segs: seq<string>, userId: int,
                            pathArg: Option<string>, sniff: seq<Byte> -> string, full: string)
    requires CanonicalRoot(storagePath, segs)
    requires FullPath(BasePath(storagePath, userId), pathArg.GetOr("")) == Ok(full)
    requires Segments(full) !in t && !BlockedByFile(t, Segments(full))
    ensures var first := Handled(t, storagePath, userId, pathArg, Write([]), sniff);
      && first.response == JsonResult(200, "ok")
      && IsDir(first.tree, Segments(full))
      && Handled(first.tree, storagePath, userId, pathArg, Write([]), sniff)
         == Served(JsonError(409, DirExists), first.tree)
  {
    var base := BasePath(storagePath, userId);
    var p := Segments(full);
    ResolvedCanonical(base, pathArg.GetOr(""), full);
    DispatchMkdirFresh(t, base, full, sniff);
    var t1 := WithDirs(t, p);
    WithDirsCreates(t, p);
    assert p[..|p|] == p;
    BaseStartsWithSlash(storagePath, segs, userId);
    DispatchMkdirExisting(t1, base, full, sniff);
  }

  /** The text of a name joined to a canonical path designates the entry of that name inside it. */
  lemma SegmentsOfJoin(segs: seq<string>, name: string)
    requires AllProper(segs + [name])
    ensures Segments(JoinPath("/" + Implode("/", segs), name)) == segs + [name]
  {
    var s := "/" + Implode("/", segs);
    ProperInit(segs, name);
    assert TrimLeft(name) == name;
    if segs == [] {
      assert TrimRight(s) == "";
      assert JoinPath(s, name) == "/" + Implode("/", [name]);
      assert segs + [name] == [name];
    } else {
      ImplodeNoTrailingSlash(segs);
      assert TrimRight(s) == s;
      ImplodeSnoc("/", segs, name);
      SlashJoin(Implode("/", segs), name);
    }
    SegmentsOfCanonical(segs + [name]);
  }

  /** One named upload to a path that already exists: mkdir's 409 is dropped and the answer
      is the upload's. */
  lemma DispatchUploadExisting(t: Tree, base: string, full: string, name: string, content: seq<Byte>,
                               sniff: seq<Byte> -> string)
    requires Segments(TrimRight(full)) in t
    ensures var e := UploadEffect(t, JoinPath(full, name), content);
      Dispatch(t, base, Ok(full), Write([UploadedFile(Some(name), content)]), sniff)
      == if e.result.Ok? then Served(JsonResult(200, "ok"), e.tree)
         else Served(JsonError(400, Strip(e.result.message, base)), t)
  {
    var ups := [UploadedFile(Some(name), content)];
    var e := UploadEffect(t, JoinPath(full, name), content);
    assert ups[1..] == [];
    assert e.result.Err? ==> e.result.code == 400 && e.tree == t;
    assert UploadsOutcome(t, full, ups) == if e.result.Ok? then Outcome(ReturnedNull, e.tree)
      else Outcome(Raised(400, e.result.message), t);
  }

  /** A POST to an existing directory is not refused: mkdir's 409 is dropped when files are
      uploaded, and an upload with a plain name stores the file inside that directory. */
  lemma UploadIntoExistingDir(t: Tree, storagePath: string, userId: int, pathArg: Option<string>,
                              sniff: seq<Byte> -> string, full: string, name: string, content: seq<Byte>)
    requires FullPath(BasePath(storagePath, userId), pathArg.GetOr("")) == Ok(full)
    requires IsDir(t, Segments(full)) && ProperSegment(name) && !IsDir(t, Segments(full) + [name])
    ensures Handled(t, storagePath, userId, pathArg, Write([UploadedFile(Some(name), content)]), sniff)
         == Served(JsonResult(200, "ok"), t[Segments(full) + [name] := File(content)])
  {
    var base := BasePath(storagePath, userId);
    var p := Segments(full);
    ResolvedCanonical(base, pathArg.GetOr(""), full);
    ProperSnoc(p, name);
    SegmentsOfJoin(p, name);
    UploadLands(t, JoinPath(full, name), p, name, content);
    DispatchUploadExisting(t, base, full, name, content, sniff);
  }

  /** An upload whose target's parent is a directory and which is not a directory itself
      stores the file. */
  lemma UploadLands(t: Tree, path: string, parent: Path, name: string, content: seq<Byte>)
    requires Segments(path) == parent + [name] && IsDir(t, parent) && !IsDir(t, parent + [name])
    ensures UploadEffect(t, path, content) == Effect(Ok(true), t[parent + [name] := File(content)])
  {
    assert (parent + [name])[..|parent|] == parent;
  }

  /** Upload names are not checked: from the user's root, a file named "../x" is stored next
      to the user's root, in the storage root, outside the user's own directory. */
  lemma UploadNameEscapes(t: Tree, storagePath: string, segs: seq<string>, userId: int,
                          sniff: seq<Byte> -> string, x: string, content: seq<Byte>)
    requires CanonicalRoot(storagePath, segs) && WellFormed(t)
    requires var u := IntToString(userId); IsDir(t, segs + [u]) && ProperSegment(x) && x != u
    requires !IsDir(t, segs + [x])
    ensures var u := IntToString(userId);
      && Handled(t, storagePath, userId, None, Write([UploadedFile(Some("../" + x), content)]), sniff)
         == Served(JsonResult(200, "ok"), t[segs + [x] := File(content)])
      && !(segs + [u] <= segs + [x])
  {
    var u := IntToString(userId);
    var base := BasePath(storagePath, userId);
    BasePathCanonical(segs, userId);
    RootResolves(segs, u);
    assert FullPath(base, None.GetOr("")) == Ok(base);
    ResolvedCanonical(base, "", base);
    SegmentsOfCanonical(segs + [u]);
    SegmentsEscape(segs, u, x);
    assert InDir(t, segs + [u]);
    assert (segs + [u])[..|segs|] == segs;
    UploadLands(t, JoinPath(base, "../" + x), segs, x, content);
    DispatchUploadExisting(t, base, base, "../" + x, content, sniff);
    assert (segs + [u])[|segs|] != (segs + [x])[|segs|];
  }

  lemma DispatchReadDir(t: Tree, base: string, full: string, sniff: seq<Byte> -> string)
    requires IsDir(t, Segments(full))
    ensures Dispatch(t, base, Ok(full), Read, sniff)
         == Served(JsonResult(200, Implode(" ", Sorted(Children(t, Segments(full))))), t)
  {
  }

  /** Reading a directory lists the names inside it in strcmp order, separated by spaces, and
      changes nothing. */
  lemma ReadListsDirectory(t: Tree, storagePath: string, userId: int, pathArg: Option<string>,
                           sniff: seq<Byte> -> string, full: string)
    requires FullPath(BasePath(storagePath, userId), pathArg.GetOr("")) == Ok(full)
    requires IsDir(t, Segments(full))
    ensures Handled(t, storagePath, userId, pathArg, Read, sniff)
         == Served(JsonResult(200, Implode(" ", Sorted(Children(t, Segments(full))))), t)
  {
    DispatchReadDir(t, BasePath(storagePath, userId), full, sniff);
  }

  lemma DispatchReadFile(t: Tree, base: string, full: string, sniff: seq<Byte> -> string)
    requires IsFile(t, Segments(full))
    ensures var served := Dispatch(t, base, Ok(full), Read, sniff);
      && served.tree == t
      && served.response.Download?
      && served.response.content == t[Segments(full)].content
      && served.response.size == |t[Segments(full)].content|
      && served.response.filename == Basename(full)
  {
  }

  /** Reading a file sends its bytes as a download named after the path's last segment, with
      its size, and changes nothing. */
  lemma ReadDownloadsFile(t: Tree, storagePath: string, userId: int, pathArg: Option<string>,
                          sniff: seq<Byte> -> string, full: string)
    requires FullPath(BasePath(storagePath, userId), pathArg.GetOr("")) == Ok(full)
    requires IsFile(t, Segments(full))
    ensures var served := Handled(t, storagePath, userId, pathArg, Read, sniff);
      && served.tree == t
      && served.response.Download?
      && served.response.content == t[Segments(full)].content
      && served.response.size == |t[Segments(full)].content|
      && served.response.filename == Basename(full)
  {
    DispatchReadFile(t, BasePath(storagePath, userId), full, sniff);
  }

  lemma DispatchReadMissing(t: Tree, base: string, full: string, sniff: seq<Byte> -> string)
    requires Segments(full) !in t
    ensures Dispatch(t, base, Ok(full), Read, sniff) == Served(JsonError(404, Strip(FileNotFound + full, base)), t)
  {
  }

  /** Reading a missing path is a 404 "file not found" (never "directory not found"), whose
      message names the path below the user's root when the root's text does not recur in it. */
  lemma ReadMissingReported(t: Tree, storagePath: string, segs: seq<string>, userId: int,
                            pathArg: Option<string>, sniff: seq<Byte> -> string, w: string)
    requires CanonicalRoot(storagePath, segs)
    requires var base := BasePath(storagePath, userId);
      FullPath(base, pathArg.GetOr("")) == Ok(base + w) && Segments(base + w) !in t
    requires forall i: nat :: !OccursAt(w, BasePath(storagePath, userId), i)
    ensures Handled(t, storagePath, userId, pathArg, Read, sniff) == Served(JsonError(404, FileNotFound + w), t)
  {
    var base := BasePath(storagePath, userId);
    DispatchReadMissing(t, base, base + w, sniff);
    BaseStartsWithSlash(storagePath, segs, userId);
    FileNotFoundSlashFree();
    AppendAssoc(FileNotFound, base, w);
    ErrorHidesBase(FileNotFound, base, w);
  }

  lemma DispatchKeepsWellFormed(t: Tree, base: string, resolved: Result<string>, action: Action,
                                sniff: seq<Byte> -> string)
    requires WellFormed(t)
    ensures WellFormed(Dispatch(t, base, resolved, action, sniff).tree)
  {
    if resolved.Ok? {
      var full := resolved.value;
      match action
      case Read =>
      case Write(ups) =>
        MkdirOutcome(t, TrimRight(full));
        UploadsKeepWellFormed(MkdirEffect(t, TrimRight(full)).tree, full, ups);
      case Remove =>
        RmOutcome(t, full);
    }
  }

  /** A request keeps the tree well formed. */
  lemma HandledKeepsWellFormed(t: Tree, storagePath: string, userId: int, pathArg: Option<string>,
                               action: Action, sniff: seq<Byte> -> string)
    requires WellFormed(t)
    ensures WellFormed(Handled(t, storagePath, userId, pathArg, action, sniff).tree)
  {
    var base := BasePath(storagePath, userId);
    DispatchKeepsWellFormed(t, base, FullPath(base, pathArg.GetOr("")), action, sniff);
  }

  lemma {:induction false} UploadsKeepWellFormed(t: Tree, full: string, ups: seq<UploadedFile>)
    requires WellFormed(t)
    ensures WellFormed(UploadsOutcome(t, full, ups).tree)
    decreases |ups|
  {
    if ups != [] && ups[0].clientFilename.Some? {
      var path := JoinPath(full, ups[0].clientFilename.value);
      UploadOutcome(t, path, ups[0].content);
      UploadsKeepWellFormed(UploadEffect(t, path, ups[0].content).tree, full, ups[1..]);
    }
  }

  /** The upload loop removes nothing, and every entry it adds or changes is the target of one
      of the uploads. */
  lemma {:induction false} UploadsOnlyWriteTargets(t: Tree, full: string, ups: seq<UploadedFile>)
    ensures var t' := UploadsOutcome(t, full, ups).tree;
      && (forall q :: q in t ==> q in t')
      && (forall q :: q in t' && (q !in t || t'[q] != t[q]) ==> IsTarget(q, full, ups))
    decreases |ups|
  {
    if ups != [] && ups[0].clientFilename.Some? {
      var path := JoinPath(full, ups[0].clientFilename.value);
      var e := UploadEffect(t, path, ups[0].content);
      UploadsOnlyWriteTargets(e.tree, full, ups[1..]);
      var t' := UploadsOutcome(t, full, ups).tree;
      if e.result.Ok? {
        forall q | q in t' && (q !in t || t'[q] != t[q]) ensures IsTarget(q, full, ups) {
          if q == Segments(path) {
            assert Target(ups[0], full) == Some(q);
          } else {
            assert q !in e.tree || t'[q] != e.tree[q];
            var k :| 0 <= k < |ups[1..]| && Target(ups[1..][k], full) == Some(q);
            assert ups[1..][k] == ups[k + 1];
          }
        }
      }
    }
  }

  /** The entry an upload is aimed at, when it has a client file name. */
  function Target(up: UploadedFile, full: string): Option<Path> {
    match up.clientFilename
    case None => None
    case Some(name) => Some(Segments(JoinPath(full, name)))
  }

  predicate IsTarget(q: Path, full: string, ups: seq<UploadedFile>) {
    exists k :: 0 <= k < |ups| && Target(ups[k], full) == Some(q)
  }
}
