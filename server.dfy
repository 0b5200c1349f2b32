/**
  The routes `src/main.rs` registers at startup, and what the router then
  decides for a few request lines.
*/
module Server {
  import opened Wrappers
  import opened Trie
  import opened Routing
  import TrieProperties

  /** The handler registered for "/" (it sends `static/index.html`). */
  const IndexHandler: Handler := Handler(0)

  /** The handler registered for "/hello" (it sends `static/index.html`
      too, but is a distinct function). */
  const HelloHandler: Handler := Handler(1)

  /** The GET trie after the two registrations: the root renamed to "" by
      "/" and holding its handler, with one child for "hello". */
  const StartupRoot: Node :=
    Node([Node([], "hello", Some(HelloHandler))], "", Some(IndexHandler))

  lemma StartupInsertions()
    ensures Trie.Insert(Trie.Insert(NewNode("/"), "/", IndexHandler), "/hello", HelloHandler) == StartupRoot
  {
  }

  /** After startup, a one-segment path "/x" finds the first handler for
      x = "" (the path "/"), the second for x = "hello", and nothing for
      any other segment. */
  lemma StartupLookup(x: string)
    requires '/' !in x
    ensures Get(StartupRoot, "/" + x) ==
      if x == "" then Some(IndexHandler)
      else if x == "hello" then Some(HelloHandler)
      else None
  {
  }

  /** After startup, "/x/" finds nothing for any non-empty segment x,
      "/hello/" included: a trailing slash asks whether the ROOT is keyed x.
      ("//" is the empty segment, and finds the first handler.) */
  lemma StartupTrailingSlash(x: string)
    requires '/' !in x && x != ""
    ensures Get(StartupRoot, "/" + x + "/") == None
  {
    assert "/" + x + "/" == "/" + (x + "/");
    TrieProperties.LeadingSlashSkipped(StartupRoot, x + "/", HelloHandler);
    TrieProperties.TrailingSlashActsOnNode(StartupRoot, x, HelloHandler);
  }

  /** An extra leading slash is skipped: after startup "//" finds the first
      handler (the root itself, keyed "") and "//x" finds what "/x" finds. */
  lemma StartupDoubleSlash(x: string)
    requires '/' !in x
    ensures Get(StartupRoot, "//") == Some(IndexHandler)
    ensures Get(StartupRoot, "//" + x) == Get(StartupRoot, "/" + x)
  {
    assert "//" == "/" + ("" + "/");
    TrieProperties.LeadingSlashSkipped(StartupRoot, "" + "/", IndexHandler);
    TrieProperties.TrailingSlashActsOnNode(StartupRoot, "", IndexHandler);
    assert "//" + x == "/" + ("/" + x);
    TrieProperties.LeadingSlashSkipped(StartupRoot, "/" + x, IndexHandler);
  }

  /** Against the startup routes, a request line `tok /x tail` runs the
      first handler for `GET /`, the second for `GET /hello`, and gets the
      404 page for any other one-segment path "/x" or any other method. */
  lemma StartupRequest(r: Router, tok: string, x: string, tail: string, len: nat)
    requires r.routes == map[GET := StartupRoot]
    requires ' ' !in tok && '/' !in x && ' ' !in x
    requires tail == "" || tail[0] == ' '
    requires len > 0
    ensures r.RouteClient(tok + " /" + x + tail, len) ==
      if tok != "GET" then Fallback
      else if x == "" then RunHandler(IndexHandler)
      else if x == "hello" then RunHandler(HelloHandler)
      else Fallback
  {
    assert tok + " /" + x + tail == tok + " " + ("/" + x) + tail;
    RequestLineDecision(r, tok, "/" + x, tail, len);
    StartupLookup(x);
  }

  /** The router as `main` builds it: "/" and then "/hello" under GET. */
  method Startup() returns (r: Router)
    ensures r.routes == map[GET := StartupRoot]
    ensures r.Handle(GET, "/") == RunHandler(IndexHandler)
    ensures r.Handle(GET, "/hello") == RunHandler(HelloHandler)
  {
    r := new Router();
    r.Insert(GET, "/", IndexHandler);
    r.Insert(GET, "/hello", HelloHandler);
    StartupInsertions();
    StartupHandles(r);
  }

  /** With the startup trie, "/" and "/hello" run their handlers. */
  lemma StartupHandles(r: Router)
    requires r.routes == map[GET := StartupRoot]
    ensures r.Handle(GET, "/") == RunHandler(IndexHandler)
    ensures r.Handle(GET, "/hello") == RunHandler(HelloHandler)
  {
    StartupLookup("");
    assert "/" + "" == "/";
    StartupLookup("hello");
    assert "/" + "hello" == "/hello";
  }
}
