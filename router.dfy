/**
 * The route table of `handle_connection`: an ordered match on the request
 * method and a prefix of the path, and what each arm answers.  The files
 * under the served directory are a value: a read succeeds exactly on the
 * paths that hold a file, and a write fails exactly on the paths the host
 * refuses to write.  `PathBuf::join` of the served directory and a file name
 * is the parameter `join`.
 */
module Router {

  import opened Wrappers
  import opened Text
  import opened Wire
  import opened HttpRequest

  const GET: Str := Ascii("GET")
  const POST: Str := Ascii("POST")

  const ROOT: Str := Ascii("/")
  const ECHO: Str := Ascii("/echo/")
  const USER_AGENT_PATH: Str := Ascii("/user-agent")
  const FILES: Str := Ascii("/files")
  const FILES_SLASH: Str := Ascii("/files/")

  const OK: Str := Ascii("200 OK")
  const CREATED: Str := Ascii("201 Created")
  const BAD_REQUEST: Str := Ascii("400 Bad Request")
  const NOT_FOUND: Str := Ascii("404 Not Found")
  const SERVER_ERROR: Str := Ascii("500 Internal Server Error")

  const TEXT_PLAIN: Str := Ascii("text/plain")
  const OCTET_STREAM: Str := Ascii("application/octet-stream")
  const UNKNOWN: Str := Ascii("Unknown")

  /** The arm of the match a request falls into, with the name the arm strips from its path. */
  datatype Route = Root | Echo(content: Str) | UserAgent | GetFile(name: Str) | PostFile(name: Str) | Unrouted

  /** The arms in the order the match tries them.  Each arm is taken only when its method and its path test hold. */
  function RouteOf(httpMethod: Str, path: Str): (r: Route)
    ensures r == Root ==> httpMethod == GET && path == ROOT
    ensures r.Echo? ==> httpMethod == GET && StartsWith(path, ECHO)
    ensures r == UserAgent ==> httpMethod == GET && StartsWith(path, USER_AGENT_PATH)
    ensures r.GetFile? ==> httpMethod == GET && StartsWith(path, FILES)
    ensures r.PostFile? ==> httpMethod == POST && StartsWith(path, FILES_SLASH)
  {
    if httpMethod == GET && path == ROOT then Root
    else if httpMethod == GET && StartsWith(path, ECHO) then Echo(TrimStartMatches(path, ECHO))
    else if httpMethod == GET && StartsWith(path, USER_AGENT_PATH) then UserAgent
    else if httpMethod == GET && StartsWith(path, FILES) then GetFile(TrimStartMatches(path, FILES_SLASH))
    else if httpMethod == POST && StartsWith(path, FILES_SLASH) then PostFile(TrimStartMatches(path, FILES_SLASH))
    else Unrouted
  }

  /** The files under the served directory, by joined path, and the paths a write fails on. */
  datatype FileSystem = FileSystem(files: map<Str, Str>, unwritable: set<Str>)

  /** `fs::read`: the contents, or `None` for the error. */
  function ReadFile(fs: FileSystem, path: Str): Option<Str>
  {
    if path in fs.files then Some(fs.files[path]) else None
  }

  /**
   * `fs::write`: the file system afterwards, or `None` for the error.  After a
   * write, reading the path gives the data written and every other path reads
   * as before.
   */
  function WriteFile(fs: FileSystem, path: Str, data: Str): (r: Option<FileSystem>)
    ensures r.None? <==> path in fs.unwritable
    ensures r.Some? ==> ReadFile(r.value, path) == Some(data) && r.value.unwritable == fs.unwritable
    ensures r.Some? ==> forall q :: q != path ==> ReadFile(r.value, q) == ReadFile(fs, q)
  {
    if path in fs.unwritable then None else Some(fs.(files := fs.files[path := data]))
  }

  /** The arguments an arm passes to `build_response`, besides the request headers and `should_close`. */
  datatype Reply = Reply(status: Str, body: Option<Str>, contentType: Option<Str>)

  function Bare(status: Str): Reply
  {
    Reply(status, None, None)
  }

  function UserAgentOf(headers: map<Str, Str>): Str
  {
    if USER_AGENT in headers then headers[USER_AGENT] else UNKNOWN
  }

  /** The reply one request gets, and the file system after it. */
  function Dispatch(req: Request, fs: FileSystem, join: Str -> Str): (Reply, FileSystem)
  {
    match RouteOf(req.httpMethod, req.path)
    case Root => (Bare(OK), fs)
    case Echo(content) => (Reply(OK, Some(content), Some(TEXT_PLAIN)), fs)
    case UserAgent => (Reply(OK, Some(UserAgentOf(req.headers)), Some(TEXT_PLAIN)), fs)
    case GetFile(name) =>
      (match ReadFile(fs, join(name))
       case Some(content) => (Reply(OK, Some(content), Some(OCTET_STREAM)), fs)
       case None => (Bare(NOT_FOUND), fs))
    case PostFile(name) =>
      (match req.body
       case None => (Bare(BAD_REQUEST), fs)
       case Some(body) =>
         match WriteFile(fs, join(name), body)
         case Some(fs') => (Bare(CREATED), fs')
         case None => (Bare(SERVER_ERROR), fs))
    case Unrouted => (Bare(NOT_FOUND), fs)
  }

  // ------------------------------------------------------------------ routing

  /** The path prefixes the arms test are pairwise incompatible, except `/files` inside `/files/`. */
  lemma PrefixesDisjoint(path: Str)
    ensures StartsWith(path, FILES_SLASH) ==> StartsWith(path, FILES)
    ensures StartsWith(path, FILES) ==> path != ROOT && !StartsWith(path, ECHO) && !StartsWith(path, USER_AGENT_PATH)
    ensures StartsWith(path, USER_AGENT_PATH) ==> path != ROOT && !StartsWith(path, ECHO)
    ensures StartsWith(path, ECHO) ==> path != ROOT
  {
    assert ECHO[1] == 101 && USER_AGENT_PATH[1] == 117 && FILES[1] == 102;
    if StartsWith(path, FILES_SLASH) {
      assert path[..6] == path[..7][..6];
      assert FILES_SLASH[..6] == FILES;
    }
    if StartsWith(path, FILES) {
      assert path[1] == FILES[1];
    }
    if StartsWith(path, USER_AGENT_PATH) {
      assert path[1] == USER_AGENT_PATH[1];
    }
  }

  /** The first arm: exactly `GET /`. */
  lemma RootRoute(httpMethod: Str, path: Str)
    ensures RouteOf(httpMethod, path) == Root <==> httpMethod == GET && path == ROOT
  {
  }

  /**
   * A GET whose path is one or more copies of `/echo/` followed by a rest
   * that does not itself start with `/echo/` echoes exactly that rest.
   */
  lemma {:induction false} EchoStripsEveryPrefix(k: nat, rest: Str)
    requires k > 0 && !StartsWith(rest, ECHO)
    ensures RouteOf(GET, Repeat(ECHO, k) + rest) == Echo(rest)
  {
    var path := Repeat(ECHO, k) + rest;
    RepeatUnfold(ECHO, k, rest);
    assert path[..|ECHO|] == ECHO;
    PrefixesDisjoint(path);
    TrimStartMatchesRepeat(ECHO, k, rest);
  }

  /** `GET /echo//echo/x` echoes `x`, not `/echo/x`. */
  lemma EchoRepeated()
    ensures RouteOf(GET, Ascii("/echo//echo/x")) == Echo(Ascii("x"))
  {
    var x := Ascii("x");
    assert !StartsWith(x, ECHO);
    assert Repeat(ECHO, 0) == [];
    assert Repeat(ECHO, 2) + x == Ascii("/echo//echo/x");
    EchoStripsEveryPrefix(2, x);
  }

  /** An echoed body never starts with `/echo/`, and the path is copies of `/echo/` followed by it. */
  lemma EchoContent(path: Str)
    requires StartsWith(path, ECHO)
    ensures var r := RouteOf(GET, path);
      r.Echo? && !StartsWith(r.content, ECHO) && path[|path| - |r.content|..] == r.content
  {
    PrefixesDisjoint(path);
    TrimStartMatchesSuffix(path, ECHO);
  }

  /** GET `/files` without the slash reads the file named by the whole path; POST needs `/files/`. */
  lemma FilesWithoutSlash()
    ensures RouteOf(GET, FILES) == GetFile(FILES)
    ensures RouteOf(POST, FILES) == Unrouted
  {
    PrefixesDisjoint(FILES);
    assert StartsWith(FILES, FILES);
    assert !StartsWith(FILES, FILES_SLASH);
    assert GET != POST by { assert |GET| != |POST|; }
  }

  /** A GET under `/files` reads the file named by the path without its leading `/files/`. */
  lemma GetFilesRoute(path: Str)
    requires StartsWith(path, FILES)
    ensures RouteOf(GET, path) == GetFile(TrimStartMatches(path, FILES_SLASH))
  {
    PrefixesDisjoint(path);
  }

  /** A GET under `/files/` and a POST to the same path name the same file. */
  lemma FilesRoutesAgree(path: Str)
    requires StartsWith(path, FILES_SLASH)
    ensures RouteOf(GET, path) == GetFile(TrimStartMatches(path, FILES_SLASH))
    ensures RouteOf(POST, path) == PostFile(TrimStartMatches(path, FILES_SLASH))
  {
    PrefixesDisjoint(path);
    assert GET != POST by { assert |GET| != |POST|; }
  }

  /**
   * Any method other than GET and POST, any POST outside `/files/`, and any GET
   * on a path that is not `/` and starts with none of `/echo/`, `/user-agent`
   * and `/files`, falls through.
   */
  lemma FallThrough(httpMethod: Str, path: Str)
    ensures (httpMethod != GET && httpMethod != POST) ==> RouteOf(httpMethod, path) == Unrouted
    ensures (httpMethod == POST && !StartsWith(path, FILES_SLASH)) ==> RouteOf(httpMethod, path) == Unrouted
    ensures (httpMethod == GET && path != ROOT && !StartsWith(path, ECHO) && !StartsWith(path, USER_AGENT_PATH)
             && !StartsWith(path, FILES)) ==> RouteOf(httpMethod, path) == Unrouted
  {
    assert GET != POST by { assert |GET| != |POST|; }
  }

  /** The last arm answers a bare 404 and leaves the files alone. */
  lemma UnroutedReply(req: Request, fs: FileSystem, join: Str -> Str)
    requires RouteOf(req.httpMethod, req.path) == Unrouted
    ensures Dispatch(req, fs, join) == (Bare(NOT_FOUND), fs)
  {
  }

  /** `GET /nope` gets a bare 404. */
  lemma NotFoundExample(req: Request, fs: FileSystem, join: Str -> Str)
    requires req.httpMethod == GET && req.path == Ascii("/nope")
    ensures Dispatch(req, fs, join) == (Bare(NOT_FOUND), fs)
  {
    assert req.path[1] != ECHO[1] && req.path[1] != USER_AGENT_PATH[1] && req.path[1] != FILES[1];
    FallThrough(req.httpMethod, req.path);
    UnroutedReply(req, fs, join);
  }

  // ----------------------------------------------------------------- replies

  /** The echo arm answers 200 `text/plain` with the stripped path. */
  lemma EchoReply(req: Request, fs: FileSystem, join: Str -> Str)
    requires req.httpMethod == GET && StartsWith(req.path, ECHO)
    ensures Dispatch(req, fs, join)
      == (Reply(OK, Some(TrimStartMatches(req.path, ECHO)), Some(TEXT_PLAIN)), fs)
  {
    PrefixesDisjoint(req.path);
  }

  /** The user-agent arm answers with the `User-Agent` value, or `Unknown` without one. */
  lemma UserAgentReply(req: Request, fs: FileSystem, join: Str -> Str)
    requires req.httpMethod == GET && StartsWith(req.path, USER_AGENT_PATH)
    ensures var (reply, fs') := Dispatch(req, fs, join);
      fs' == fs && reply.status == OK && reply.contentType == Some(TEXT_PLAIN)
      && (USER_AGENT in req.headers ==> reply.body == Some(req.headers[USER_AGENT]))
      && (USER_AGENT !in req.headers ==> reply.body == Some(UNKNOWN))
  {
    PrefixesDisjoint(req.path);
  }

  /** GET under `/files` answers 200 with the file's bytes iff the joined path holds a file, else 404. */
  lemma GetFileReply(req: Request, fs: FileSystem, join: Str -> Str)
    requires req.httpMethod == GET && StartsWith(req.path, FILES)
    ensures var path := join(TrimStartMatches(req.path, FILES_SLASH));
      var (reply, fs') := Dispatch(req, fs, join);
      fs' == fs
      && (reply.status == OK <==> path in fs.files)
      && (path in fs.files ==> reply == Reply(OK, Some(fs.files[path]), Some(OCTET_STREAM)))
      && (path !in fs.files ==> reply == Bare(NOT_FOUND))
  {
    GetFilesRoute(req.path);
    StatusesDiffer();
  }

  /** POST under `/files/`: 400 without a body, otherwise 201 if the write succeeds and 500 if it fails. */
  lemma PostFileReply(req: Request, fs: FileSystem, join: Str -> Str)
    requires req.httpMethod == POST && StartsWith(req.path, FILES_SLASH)
    ensures var path := join(TrimStartMatches(req.path, FILES_SLASH));
      var (reply, fs') := Dispatch(req, fs, join);
      (req.body.None? ==> reply == Bare(BAD_REQUEST) && fs' == fs)
      && (req.body.Some? && path !in fs.unwritable
          ==> reply == Bare(CREATED) && fs' == fs.(files := fs.files[path := req.body.value]))
      && (req.body.Some? && path in fs.unwritable ==> reply == Bare(SERVER_ERROR) && fs' == fs)
  {
    FilesRoutesAgree(req.path);
  }

  /** After a successful POST, a GET of the same path answers with the bytes posted. */
  lemma PostThenGet(post: Request, get: Request, fs: FileSystem, join: Str -> Str)
    requires post.httpMethod == POST && get.httpMethod == GET && post.path == get.path
    requires Dispatch(post, fs, join).0.status == CREATED
    ensures post.body.Some?
    ensures var fs' := Dispatch(post, fs, join).1;
      Dispatch(get, fs', join) == (Reply(OK, Some(post.body.value), Some(OCTET_STREAM)), fs')
  {
    Statuses(post, fs, join);
    var name := TrimStartMatches(post.path, FILES_SLASH);
    FilesRoutesAgree(post.path);
    var fs' := fs.(files := fs.files[join(name) := post.body.value]);
    assert Dispatch(post, fs, join).1 == fs';
    assert ReadFile(fs', join(name)) == Some(post.body.value);
  }

  /**
   * Every reply carries one of the five statuses; only a 201 changes the
   * file system, and then only at the joined path, with the posted body.
   */
  lemma Statuses(req: Request, fs: FileSystem, join: Str -> Str)
    ensures var (reply, fs') := Dispatch(req, fs, join);
      reply.status in {OK, CREATED, BAD_REQUEST, NOT_FOUND, SERVER_ERROR}
      && (reply.status != CREATED ==> fs' == fs)
      && (reply.status == CREATED ==>
            req.httpMethod == POST && StartsWith(req.path, FILES_SLASH) && req.body.Some?
            && var path := join(TrimStartMatches(req.path, FILES_SLASH));
               path !in fs.unwritable && fs' == fs.(files := fs.files[path := req.body.value]))
  {
    StatusesDiffer();
  }

  /** The five statuses are pairwise different. */
  lemma StatusesDiffer()
    ensures OK != CREATED && OK != BAD_REQUEST && OK != NOT_FOUND && OK != SERVER_ERROR
    ensures CREATED != BAD_REQUEST && CREATED != NOT_FOUND && CREATED != SERVER_ERROR
    ensures BAD_REQUEST != NOT_FOUND && BAD_REQUEST != SERVER_ERROR && NOT_FOUND != SERVER_ERROR
  {
    assert |CREATED| == 11 && |OK| == 6 && |BAD_REQUEST| == 15 && |NOT_FOUND| == 13 && |SERVER_ERROR| == 25;
  }

  /** Only the 200 replies carry a body, and each one carries a content type. */
  lemma BodiesAreTyped(req: Request, fs: FileSystem, join: Str -> Str)
    ensures var reply := Dispatch(req, fs, join).0;
      (reply.body.Some? <==> reply.contentType.Some?)
      && (reply.body.Some? ==> reply.status == OK)
      && (reply.contentType.Some? ==> reply.contentType.value in {TEXT_PLAIN, OCTET_STREAM})
  {
  }
}
