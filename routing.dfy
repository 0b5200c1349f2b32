/**
  `Router` of `src/router.rs`: one trie root per HTTP method, and the
  decision `route_client` / `handle` / `bad_request` take for one request
  line: run a handler, or send the fixed 404 page.
*/
module Routing {
  import opened Wrappers
  import opened Text
  import opened Trie
  import TrieProperties

  /** The methods the router knows; the source has only `GET`. */
  datatype Method = GET

  /** What a connection ends with: a handler runs (and writes the response
      itself), or a status and a static file are sent. */
  datatype Outcome = RunHandler(handler: Handler) | SendFile(status: nat, resource: string)

  /** The response of `bad_request` and of an unmatched `handle`. */
  const Fallback: Outcome := SendFile(404, "static/404.html")

  class Router {
    var routes: map<Method, Node>

    /** `Router::new()`: no method has a root. */
    constructor ()
      ensures routes == map[]
    {
      routes := map[];
    }

    /** `Router::insert(method, path, handler)`: inserts into the method's
        root, which `entry().or_insert` first creates as `Node::new("/")`
        when the method has none. */
    method Insert(m: Method, path: string, h: Handler)
      modifies this
      ensures m in old(routes) ==> routes == old(routes)[m := Trie.Insert(old(routes)[m], path, h)]
      ensures m !in old(routes) ==> routes == old(routes)[m := Trie.Insert(NewNode("/"), path, h)]
    {
      var root := if m in routes then routes[m] else NewNode("/");
      routes := routes[m := Trie.Insert(root, path, h)];
    }

    /** `Router::handle(method, resource)`: the handler the method's trie
        finds for `resource`, and the 404 page when the method has no root
        or the trie finds nothing. */
    function Handle(m: Method, resource: string): (o: Outcome)
      reads this
      ensures o.RunHandler? <==> m in routes && Get(routes[m], resource).Some?
      ensures o.RunHandler? ==> Get(routes[m], resource) == Some(o.handler)
      ensures !o.RunHandler? ==> o == Fallback
    {
      if m in routes then
        match Get(routes[m], resource)
        case Some(h) => RunHandler(h)
        case None => Fallback
      else Fallback
    }

    /** The decision `Router::route_client` takes once the request `line`
        has been read and `len` bytes were consumed: nothing read, or a line
        without a space, is a bad request; a line of tokens split on " "
        whose first token is exactly "GET" is handled with the second token
        as the resource, verbatim; any other first token is a bad request. */
    function RouteClient(line: string, len: nat): (o: Outcome)
      reads this
      ensures len == 0 || ' ' !in line ==> o == Fallback
      ensures o.RunHandler? ==> len > 0 && |Split(line, ' ')| >= 2 && Split(line, ' ')[0] == "GET"
    {
      if len == 0 then Fallback
      else
        var parts := Split(line, ' ');
        if |parts| < 2 then Fallback
        else if parts[0] == "GET" then Handle(GET, parts[1])
        else Fallback
    }
  }

  /** Every request line that holds a space is `tok + " " + path + tail` with
      `tail` empty or starting with a space; the decision then depends only
      on `tok` and `path`. */
  lemma RequestLineDecision(r: Router, tok: string, path: string, tail: string, len: nat)
    requires ' ' !in tok && ' ' !in path
    requires tail == "" || tail[0] == ' '
    requires len > 0
    ensures r.RouteClient(tok + " " + path + tail, len) ==
      if tok == "GET" then r.Handle(GET, path) else Fallback
  {
    SplitFirstTwo(tok, path, tail, ' ');
  }

  /** A lookup never fails. For a request path "/x/rest" or "/x" (the
      leading slash that request paths carry is skipped), the 404 page is
      sent when the method has no root, when no child of the root is keyed
      `x`, when the first child keyed `x` finds nothing for `rest`, or when
      that child has no handler. Since `rest` is walked from that child
      the same way (`TrieProperties.MiddleSegmentReusesFirstChild`), a
      missing segment or handler at any depth gives the 404 page. */
  lemma HandleNotFound(r: Router, m: Method, resource: string, x: string, rest: string)
    requires '/' !in x && x != "" && rest != ""
    ensures m !in r.routes ==> r.Handle(m, resource) == Fallback
    ensures m in r.routes && NoChildKeyed(r.routes[m], x) ==>
      r.Handle(m, "/" + x + "/" + rest) == Fallback && r.Handle(m, "/" + x) == Fallback
    ensures forall i ::
      (m in r.routes && FirstWithKey(r.routes[m].nodes, x, i) && Get(r.routes[m].nodes[i], rest) == None) ==>
      r.Handle(m, "/" + x + "/" + rest) == Fallback
    ensures forall i ::
      (m in r.routes && FirstWithKey(r.routes[m].nodes, x, i) && r.routes[m].nodes[i].handler == None) ==>
      r.Handle(m, "/" + x) == Fallback
  {
    if m in r.routes {
      var root := r.routes[m];
      assert "/" + x + "/" + rest == "/" + (x + "/" + rest);
      TrieProperties.LeadingSlashSkipped(root, x + "/" + rest, Handler(0));
      TrieProperties.LeadingSlashSkipped(root, x, Handler(0));
      TrieProperties.MiddleSegmentReusesFirstChild(root, x, rest, Handler(0));
      TrieProperties.LastSegmentAppendsLeaf(root, x, Handler(0));
    }
  }

  /** No child of `n` carries the key `x`. */
  predicate NoChildKeyed(n: Node, x: string)
  {
    forall i :: 0 <= i < |n.nodes| ==> n.nodes[i].key != x
  }

  /** On a fresh router, inserting a GET route whose path does not end with
      a slash makes that path run the handler. */
  method FreshRouterRoundTrip(path: string, h: Handler) returns (r: Router)
    requires !EndsWithSlash(path)
    ensures r.Handle(GET, path) == RunHandler(h)
  {
    r := new Router();
    r.Insert(GET, path, h);
    TrieProperties.FreshRoundTrip("/", path, h);
  }
}
