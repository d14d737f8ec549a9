/**
 * The decision rules of the development server in Execute.c: the MIME type
 * `serve_file` picks (lines 240-251), the one-shot `files_changed` flag
 * that `serve_reload` reports and clears (lines 289-291), and the routing
 * of a request path in `main` (lines 373-393).
 */
module DevServer {
  import opened Wrappers

  // ---------------------------------------------------------------------
  // MIME type by extension

  /** `strrchr(name, '.')`: the position of the last dot. */
  function LastDot(name: string): (r: Option<nat>)
    ensures r.None? <==> '.' !in name
    ensures r.Some? ==> r.value < |name| && name[r.value] == '.' && '.' !in name[r.value + 1..]
    decreases |name|
  {
    if name == [] then None
    else if name[|name| - 1] == '.' then Some(|name| - 1)
    else
      var r := LastDot(name[..|name| - 1]);
      assert r.Some? ==> name[r.value + 1..] == name[..|name| - 1][r.value + 1..] + [name[|name| - 1]];
      r
  }

  /** The suffix from the last dot on, dot included. */
  function Extension(name: string): Option<string>
  {
    match LastDot(name)
    case None => None
    case Some(i) => Some(name[i..])
  }

  /** The `strcmp` chain of Execute.c:243-250 on an extension. */
  function MimeFor(ext: string): string
  {
    if ext == ".html" then "text/html"
    else if ext == ".js" then "application/javascript"
    else if ext == ".css" then "text/css"
    else if ext == ".png" then "image/png"
    else if ext == ".jpg" || ext == ".jpeg" then "image/jpeg"
    else if ext == ".svg" then "image/svg+xml"
    else if ext == ".json" then "application/json"
    else if ext == ".ico" then "image/x-icon"
    else "text/plain"
  }

  /** The `Content-Type` `serve_file` sends for `name`. */
  function MimeType(name: string): (r: string)
    ensures '.' !in name ==> r == "text/plain"
    ensures r == "image/jpeg" <==> Extension(name) == Some(".jpg") || Extension(name) == Some(".jpeg")
  {
    match Extension(name)
    case None => "text/plain"
    case Some(ext) => MimeFor(ext)
  }

  /** Only the text after the last dot counts: whatever precedes it, `base + ext` gets the type of `ext`. */
  lemma {:induction false} MimeOfSuffix(base: string, ext: string)
    requires |ext| > 0 && ext[0] == '.' && '.' !in ext[1..]
    ensures Extension(base + ext) == Some(ext)
    ensures MimeType(base + ext) == MimeFor(ext)
  {
    var name := base + ext;
    assert name[|base|..] == ext;
  }

  /** Matching is exact and case-sensitive. */
  lemma UpperCaseIsPlain()
    ensures MimeType("INDEX.HTML") == "text/plain"
  {
    MimeOfSuffix("INDEX", ".HTML");
    assert "INDEX" + ".HTML" == "INDEX.HTML";
  }

  /** Earlier dots do not matter. */
  lemma LastDotDecides()
    ensures MimeType("app.min.js") == "application/javascript"
  {
    MimeOfSuffix("app.min", ".js");
    assert "app.min" + ".js" == "app.min.js";
  }

  // ---------------------------------------------------------------------
  // Routing

  datatype Route = Reload | LiveScript | MemoryStats | ServeFile(name: string)

  /**
   * The `strcmp` chain of Execute.c:375-393. `path` is the second token
   * `sscanf("%s %s")` read, so it is non-empty.
   */
  function RouteOf(path: string): (r: Route)
    requires |path| > 0
    ensures r == Reload <==> path == "/reload"
    ensures r == LiveScript <==> path == "/live-reload.js"
    ensures r == MemoryStats <==> path == "/memory-stats"
    ensures r.ServeFile? ==> |r.name| > 0
    ensures r.ServeFile? && |path| > 1 ==> r.name == path[1..]
  {
    if path == "/reload" then Reload
    else if path == "/live-reload.js" then LiveScript
    else if path == "/memory-stats" then MemoryStats
    else
      // `path + 1`, with an empty rest replaced by the index page
      var file := path[1..];
      ServeFile(if |file| == 0 then "index.html" else file)
  }

  /** The file a route serves, if it serves one. */
  function ServedFile(r: Route): Option<string>
  {
    match r
    case LiveScript => Some("live-reload.js")
    case ServeFile(name) => Some(name)
    case _ => None
  }

  /**
   * Every path other than the two generated endpoints serves the file named
   * by the path without its first character (the index page for a
   * one-character path); the live-reload route is the same as that rule.
   */
  lemma ServesPathTail(path: string)
    requires |path| > 0 && path != "/reload" && path != "/memory-stats"
    ensures ServedFile(RouteOf(path)) == Some(if |path| == 1 then "index.html" else path[1..])
  {
  }

  /** The live-reload script is served as JavaScript. */
  lemma LiveScriptIsJavaScript()
    ensures ServedFile(RouteOf("/live-reload.js")) == Some("live-reload.js")
    ensures MimeType("live-reload.js") == "application/javascript"
  {
    MimeOfSuffix("live-reload", ".js");
    assert "live-reload" + ".js" == "live-reload.js";
  }

  /** The root path serves the index page as HTML. */
  lemma RootIsIndexPage()
    ensures ServedFile(RouteOf("/")) == Some("index.html")
    ensures MimeType("index.html") == "text/html"
  {
    MimeOfSuffix("index", ".html");
    assert "index" + ".html" == "index.html";
  }

  // ---------------------------------------------------------------------
  // The reload flag

  /** One request: its path, and whether `check_files_modified` finds a change while handling it. */
  datatype Request = Request(path: string, changed: bool)

  /**
   * `main` calls `check_files_modified` before routing (Execute.c:373), so
   * the flag is raised first; a `/reload` request then reports it and
   * clears it. The result is the new flag and the `reload` field, if any.
   */
  function Handle(flag: bool, req: Request): (bool, Option<bool>)
  {
    var raised := flag || req.changed;
    if req.path == "/reload" then (false, Some(raised)) else (raised, None)
  }

  /** The `reload` replies to a sequence of requests, in order. */
  function Replies(flag: bool, reqs: seq<Request>): seq<bool>
    decreases |reqs|
  {
    if reqs == [] then []
    else
      var (flag', reply) := Handle(flag, reqs[0]);
      (if reply.Some? then [reply.value] else []) + Replies(flag', reqs[1..])
  }

  function FinalFlag(flag: bool, reqs: seq<Request>): bool
    decreases |reqs|
  {
    if reqs == [] then flag else FinalFlag(Handle(flag, reqs[0]).0, reqs[1..])
  }

  function CountTrue(bs: seq<bool>): nat
  {
    if bs == [] then 0 else (if bs[0] then 1 else 0) + CountTrue(bs[1..])
  }

  function Changes(reqs: seq<Request>): nat
  {
    if reqs == [] then 0 else (if reqs[0].changed then 1 else 0) + Changes(reqs[1..])
  }

  lemma CountTrueConcat(a: seq<bool>, b: seq<bool>)
    ensures CountTrue(a + b) == CountTrue(a) + CountTrue(b)
  {
    if a != [] {
      assert (a + b)[0] == a[0] && (a + b)[1..] == a[1..] + b;
      CountTrueConcat(a[1..], b);
    } else {
      assert a + b == b;
    }
  }

  /**
   * A raised flag is reported at most once: over any run, the `true`
   * replies plus a flag still pending never outnumber the detected
   * changes plus a flag pending at the start.
   */
  lemma {:induction false} ReloadAtMostOncePerChange(flag: bool, reqs: seq<Request>)
    ensures CountTrue(Replies(flag, reqs)) + (if FinalFlag(flag, reqs) then 1 else 0) <= Changes(reqs) + (if flag then 1 else 0)
    decreases |reqs|
  {
    if reqs != [] {
      var (flag', reply) := Handle(flag, reqs[0]);
      ReloadAtMostOncePerChange(flag', reqs[1..]);
      CountTrueConcat(if reply.Some? then [reply.value] else [], Replies(flag', reqs[1..]));
    }
  }

  /** So from the start-up state (flag clear), `true` replies never outnumber detected changes. */
  lemma ReloadRepliesBounded(reqs: seq<Request>)
    ensures CountTrue(Replies(false, reqs)) <= Changes(reqs)
  {
    ReloadAtMostOncePerChange(false, reqs);
  }

  /** A poll that comes right after a request that detected a change reports it. */
  lemma ChangeIsReported(flag: bool, first: Request, poll: Request)
    requires first.changed && first.path != "/reload" && poll.path == "/reload"
    ensures Replies(flag, [first, poll]) == [true]
  {
    assert Handle(flag, first) == (true, None);
    assert Replies(true, [poll]) == [true] + Replies(false, []);
    assert [first, poll][1..] == [poll];
  }

  /** The server's `files_changed` global. */
  class ReloadFlag {
    var filesChanged: bool

    constructor ()
      ensures !filesChanged
    {
      filesChanged := false;
    }

    /** The effect of `check_files_modified` on the flag: a detected change raises it; nothing clears it. */
    method CheckFilesModified(changed: bool) returns (r: bool)
      modifies this
      ensures r == changed
      ensures filesChanged == (old(filesChanged) || changed)
    {
      if changed {
        filesChanged := true;
      }
      return changed;
    }

    /** The flag handling of `serve_reload`: report the flag, clear it if it was set. */
    method ServeReload() returns (reload: bool)
      modifies this
      ensures reload == old(filesChanged) && !filesChanged
    {
      reload := filesChanged;
      if reload {
        filesChanged := false;
      }
    }

    /** One pass of the accept loop after `recv`: check for changes, then route (Execute.c:369-393). */
    method HandleRequest(req: Request) returns (route: Route, reply: Option<bool>)
      requires |req.path| > 0
      modifies this
      ensures route == RouteOf(req.path)
      ensures (filesChanged, reply) == Handle(old(filesChanged), req)
    {
      var _ := CheckFilesModified(req.changed);
      route := RouteOf(req.path);
      reply := None;
      if route == Reload {
        var reload := ServeReload();
        reply := Some(reload);
      }
    }
  }
}
