# Routing trie and request-line dispatch of a minimal HTTP server

This project models the router of a small multi-threaded HTTP server written
in Rust (`src/router.rs`). The router keeps one trie of path segments for
each HTTP method. A trie node has a key, its children in insertion order and
an optional handler. `Router::insert` registers a handler at a path.
`Router::route_client` reads one request line and then does one of two
things: it runs the handler found for the path, or it sends the fixed
`404 static/404.html` page.

Modules:

- `Wrappers`: `Option`.
- `Text`: `str::split_once` with a single-character pattern (`SplitOnce`).
  It also has `str::split(" ")` collected into a vector (`Split`), together
  with its inverse `Join`.
- `Trie`: `Node` as a value datatype and handlers as opaque identifiers
  (`Handler(id)`). It holds
  - `Carries` (some node of a subtree holds a given handler);
  - `NewNode` (`Node::new`);
  - `FindChild` (`iter().find` over the children);
  - `Insert` (`Node::insert`);
  - `Get` (`Node::get`);
  - two walks that follow the same four cases as `Insert`: `Descent` (the
    child an insertion enters) and `LeafUnclaimed` (no earlier child sits
    where the new leaf goes).
- `TrieProperties`: what `Insert` and `Get` do, proved for all inputs.
- `Routing`:
  - `Method` (only `GET`);
  - the dispatch `Outcome` (`RunHandler(h)`, or `SendFile(status, file)` for
    the `Fallback` 404 page);
  - the class `Router`. Its field `routes: map<Method, Node>` is what
    `Router::insert` updates in place. Its functions `Handle` and
    `RouteClient` model `handle`, `route_client` and `bad_request`.
- `Server`: the two routes that `src/main.rs` registers at startup, and
  what several request lines then lead to.

The model follows the code. Some of what the code does is easy to misread:

- Trailing slashes are not normalised. A path ending in `x/` acts on the
  node the walk has reached: insert renames that node to `x` and gives it
  the handler, and get asks whether that node's key is `x`. Inserting `/`
  therefore renames the root from `/` to `""`. After inserting `/hello`,
  `/hello/` finds nothing. Inserting `/a/b/` into a fresh root appends a
  child keyed `a` and renames it to `b`, so `/a/b/` is then found only when `a` and `b` are
  the same segment (`NestedTrailingSlashLookup`).
- Re-inserting a path that does not end with a slash does not replace its
  handler. The last segment always appends a new child, and get stops at
  the first child with that key, so the first insertion wins
  (`FirstInsertionWins`). For a path ending with a slash the node's own
  handler is overwritten, so the last insertion wins
  (`TrailingSlashLastWins`).
- Sibling keys are not unique. A middle node created by `/a/b` has no
  handler and is the first child keyed `a`. A later insertion of `/a` is
  therefore never reached, and `/a` then finds nothing
  (`MiddleNodeShadowsLeaf`).
- The round trip holds for paths without a trailing slash, as long as no
  earlier child already sits where the leaf goes (`InsertThenGet`). On a
  fresh router it holds for every path that does not end with a slash.
- The request path is the second space-separated token of the line exactly
  as read, line terminator included. `GET /\r\n` therefore looks up `/\r\n`,
  which is not `/`, and gets the 404 page (`StartupRequest` with `x` being
  `"\r\n"`); a line with a protocol version, `GET / HTTP/1.1`, looks up `/`.

## Model

| member | source | states |
|---|---|---|
| Text.SplitOnce | src/router.rs:36 | `split_once` gives `None` exactly when the character is absent; otherwise the input is `before + c + after` and `before` holds no `c` (the split is at the first occurrence) |
| Text.SplitOnceAt | src/router.rs:36-42 | splitting `a + "/" + b` where `a` has no slash gives exactly `(a, b)`; this is how each of the four cases of insert and get is reached |
| Text.Split | src/router.rs:128-129 | the tokens of `line.split(" ")`: at least one, each free of spaces, and joining them with spaces gives the line back; there is exactly one token (so `parts.len() < 2`) precisely when the line has no space |
| Text.SplitFirstTwo | src/router.rs:128-133 | for a line `tok + " " + path + tail`, where `tail` is empty or starts with a space, `parts[0]` is `tok` and `parts[1]` is `path` |
| Trie.NewNode | src/router.rs:27-33 | `Node::new(key)` has the key given and holds no handler anywhere; it answers no path (`TrieProperties.FreshNodeFindsNothing`) and has every leaf free (`TrieProperties.FreshLeafUnclaimed`) |
| Trie.Insert | src/router.rs:35-62 | the inserted handler is stored somewhere in the updated tree, in all four cases; where it goes and when get reaches it is stated by `TrieProperties.TrailingSlashActsOnNode`, `LeadingSlashSkipped`, `MiddleSegmentReusesFirstChild`, `LastSegmentAppendsLeaf`, `InsertOnlyAppends` and `InsertThenGet` |
| Trie.Get | src/router.rs:64-94 | get never invents a handler: what it returns is held by some node of the tree; its four cases are stated by the same `TrieProperties` lemmas, and the round trip with insert by `TrieProperties.InsertThenGet` |
| Trie.FindChild | src/router.rs:45 | `iter().find` by key: the index is that of a child with the key, every earlier child has another key, and the number of children means no child has it |
| TrieProperties.FreshNodeFindsNothing | src/router.rs:27-33 | `Node::new(k)` (no children, no handler) answers no path at all |
| TrieProperties.TrailingSlashActsOnNode | src/router.rs:37-72 | case `(x, "")`: insert of `x/` sets the node's key to `x` and its handler (lines 37-40); get of `x/` gives the node's handler when its key is `x` and nothing otherwise (lines 66-72) |
| TrieProperties.RootRenamedBySlash | src/router.rs:108-111 | inserting `/` into the fresh root `Node::new("/")` renames it to `""` and gives it the handler; `/` then finds that handler |
| TrieProperties.LeadingSlashSkipped | src/router.rs:42-74 | case `("", rest)`: an empty leading segment is skipped by insert (line 42) and by get (line 74), for a non-empty rest |
| TrieProperties.MiddleSegmentReusesFirstChild | src/router.rs:44-83 | case `(x, rest)`: insert descends into the FIRST child keyed `x`, or appends a new child `x` and inserts `rest` into it (lines 44-54); get descends into that first child, or finds nothing (lines 76-83) |
| TrieProperties.LastSegmentAppendsLeaf | src/router.rs:56-92 | case `None`: insert always appends a new child with the key and handler (lines 56-60); get gives the handler of the first child with the key, or nothing when no child has it (lines 85-92) |
| TrieProperties.EmptySegmentSkipped | src/router.rs:35-94 | for a non-empty last part `t`, an empty segment is skipped the same way by insert and by get: `q//t` and `q/t` give the same trie and the same lookup result (`//a` like `/a`, `/a//b` like `/a/b`); an empty segment just before a trailing slash is not skipped (`/a//` enters child `a` and renames it to `""`, see `NestedTrailingSlashRenamesChild` with `y` empty) |
| TrieProperties.InsertOnlyAppends | src/router.rs:35-62 | insert adds at most one child and never removes or reorders children; every child except the one the path descends into is unchanged; the node's own key and handler change only when the path ends with a slash |
| TrieProperties.InsertThenGet | src/router.rs:35-94 | round trip: when the path does not end with a slash and no earlier child sits where its leaf goes, get of the path after inserting it gives the inserted handler |
| TrieProperties.FreshLeafUnclaimed | src/router.rs:27-33 | in a fresh node no leaf is taken yet, for any path |
| TrieProperties.FreshRoundTrip | src/router.rs:27-94 | round trip on a fresh node: insert then get of any path not ending with a slash gives the inserted handler |
| TrieProperties.InsertClaimsLeaf | src/router.rs:35-62 | once a path not ending with a slash has been inserted, its leaf is taken |
| TrieProperties.ReinsertKeepsEarlier | src/router.rs:35-94 | when the leaf of a path is already taken, inserting the path again leaves what get of that path returns unchanged |
| TrieProperties.FirstInsertionWins | src/router.rs:56-91 | for a path not ending with a slash, inserting it twice into a fresh node (with two handlers) leaves get returning the first handler |
| TrieProperties.TrailingSlashLastWins | src/router.rs:37-72 | for a path `x/` ending with a slash, inserting it twice into any node leaves get returning the second handler: the node's own handler is overwritten |
| TrieProperties.NestedTrailingSlashRenamesChild | src/router.rs:35-54 | inserting `/x/y/` into a fresh root gives the root exactly one child, keyed `y` and holding the handler; with `y` empty this is `/x//`, which renames the new child `x` to `""` |
| TrieProperties.NestedTrailingSlashLookup | src/router.rs:35-94 | after inserting `/x/y/` into a fresh root, get of `/x/y/` finds the handler when `x` and `y` are the same segment and nothing otherwise |
| TrieProperties.OneChildLookup | src/router.rs:64-83 | in a root with exactly one child `c`, get of `/x/y/` gives `c`'s handler when `c` is keyed both `x` and `y`, and nothing otherwise |
| TrieProperties.MiddleNodeShadowsLeaf | src/router.rs:44-92 | after inserting `x/y` and then `x` into a fresh node, get of `x` finds nothing: the handler-less middle node `x` comes first |
| Routing.Router.constructor | src/router.rs:102-106 | a new router has no method roots |
| Routing.Router.Insert | src/router.rs:108-111 | the method's root is replaced by the trie after inserting the path into it; a method without a root first gets `Node::new("/")`; no other method's root changes |
| Routing.Router.Handle | src/router.rs:139-149 | runs a handler exactly when the method has a root and its trie finds a handler for the resource, and that handler is the one found; otherwise it sends the 404 page `static/404.html` |
| Routing.Router.RouteClient | src/router.rs:124-154 | zero bytes read, or a line with fewer than two tokens, gives the 404 page through `bad_request` (lines 151-154); a handler runs only for a line whose first token is `GET` |
| Routing.RequestLineDecision | src/router.rs:128-136 | for any line `tok + " " + path + tail`, the decision is `handle(GET, path)` with `path` passed verbatim when `tok` is exactly `GET`, and the 404 page for any other first token |
| Routing.HandleNotFound | src/router.rs:139-148 | the not-found cases of a request path `/x/rest` or `/x` all give the 404 page and never fail: the method has no root; no child of the root is keyed `x`; the first child keyed `x` finds nothing for `rest`, which covers a missing segment or handler at any depth because `rest` is walked from that child the same way; or, for `/x`, that child has no handler |
| Routing.FreshRouterRoundTrip | src/router.rs:102-143 | on a fresh router, `insert(GET, p, h)` followed by handling `p` runs `h`, for every `p` that does not end with a slash |
| Server.StartupInsertions | src/main.rs:21-27 | the two startup insertions, `/` then `/hello`, give a root keyed `""` that holds the first handler and has a single child `hello` with the second handler |
| Server.StartupLookup | src/router.rs:64-92 | after startup, a one-segment path `/x` finds the first handler for `x` empty (the path `/`), the second handler for `x` = `hello`, and nothing for any other segment |
| Server.StartupTrailingSlash | src/router.rs:66-72 | after startup, `/x/` finds nothing for every non-empty segment `x`, `/hello/` included: the trailing slash asks whether the root is keyed `x` (for empty `x` the path is `//`, which finds the first handler: `StartupDoubleSlash`) |
| Server.StartupDoubleSlash | src/router.rs:64-92 | after startup, an extra leading slash is skipped: `//` finds the first handler (the root, keyed `""`) and `//x` finds what `/x` finds, so `GET //hello` runs the second handler |
| Server.StartupRequest | src/router.rs:124-148 | against the startup routes, a request line `tok /x tail` runs the first handler for `GET /`, the second for `GET /hello`, and gets the 404 page for any other one-segment path `/x` or any method other than `GET` (so `POST / HTTP/1.1` gets the 404 page) |
| Server.StartupHandles | src/router.rs:139-143 | with the startup trie, handling `/` runs the first handler and handling `/hello` runs the second |
| Server.Startup | src/main.rs:19-27 | the router built by `main` holds exactly the startup trie under GET, and serves `/` and `/hello` with their handlers |

## Left out

- Trie.Insert: modelled as a function that returns the updated node rather than as an in-place update. The children are owned values (`Vec<Node>`) with no aliasing, so nothing observable is lost.
- `src/thread_pool.rs` (the worker pool, its channel, its locks and its shutdown) is not part of this model: its substance is concurrency.
- The TCP accept loop of `src/main.rs`, process startup, and the `Arc<Mutex<Router>>` sharing are not modelled. Only the route registrations are modelled, as `Server.Startup`.
- The buffered socket read in `route_client` (`fill_buf`, `read_line`, `consume`) is I/O. The model takes the line already read and its byte count `len` as inputs. `line` is what `read_line` returns, so it includes the line terminator when one was read (`GET /\r\n` hands `/\r\n` to the lookup).
- `Response` and `sendfile` belong to a module that is not part of this model and that does file and socket I/O. Running a handler and sending a file appear only as the `Outcome` value. What a handler writes is not modelled.
- `std::io::Result` errors from the socket or the file system are foreign-call failures. They are not modelled.
- `HashMap` hashing is modelled as a Dafny `map<Method, Node>`.
- `Method` has only `GET`, as in the source; the other methods are commented out there.
- Handlers are opaque identifiers, not function pointers.
