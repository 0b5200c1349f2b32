/**
  What inserting into and looking up the routing trie do, case by case as
  `src/router.rs` does it, including how it treats trailing slashes,
  repeated insertions and sibling nodes with the same key.
*/
module TrieProperties {
  import opened Wrappers
  import opened Text
  import opened Trie

  /** The last character of `a/b` is that of `b` when `b` is not empty. */
  lemma SlashSuffix(a: string, b: string)
    requires b != ""
    ensures EndsWithSlash(a + "/" + b) <==> EndsWithSlash(b)
  {
    var s := a + "/" + b;
    assert s[|s| - 1] == b[|b| - 1];
  }

  /** A path `a/b` that does not end with a slash has a non-empty `b`. */
  lemma NoTrailingSlashRest(a: string, b: string)
    requires !EndsWithSlash(a + "/" + b)
    ensures b != ""
  {
    assert (a + "/" + b)[|a|] == '/';
    assert b == "" ==> |a + "/" + b| == |a| + 1;
  }

  /** `FindChild` is determined by the first-match property. */
  lemma FindChildIs(nodes: seq<Node>, key: string, i: nat)
    requires i <= |nodes|
    requires i < |nodes| ==> nodes[i].key == key
    requires forall j :: 0 <= j < i ==> nodes[j].key != key
    ensures FindChild(nodes, key) == i
  {
  }

  /** Appending a child never changes which earlier child a search finds. */
  lemma FindChildAppend(nodes: seq<Node>, c: Node, key: string)
    ensures FindChild(nodes + [c], key) ==
      if FindChild(nodes, key) < |nodes| || c.key == key then FindChild(nodes, key)
      else |nodes| + 1
  {
    var k := FindChild(nodes, key);
    var s := nodes + [c];
    assert forall j :: 0 <= j < |nodes| ==> s[j] == nodes[j];
    if k < |nodes| {
      FindChildIs(s, key, k);
    } else if c.key == key {
      FindChildIs(s, key, k);
    } else {
      FindChildIs(s, key, |nodes| + 1);
    }
  }

  /** Case 1, "x/": insert renames the current node to `x` and gives it the
      handler; get answers with the current node's handler only if its key
      is `x`. */
  lemma TrailingSlashActsOnNode(n: Node, x: string, f: Handler)
    requires '/' !in x
    ensures Insert(n, x + "/", f) == n.(key := x, handler := Some(f))
    ensures Get(n, x + "/") == if n.key == x then n.handler else None
  {
    assert x + "/" == x + ['/'] + [];
    SplitOnceAt(x, [], '/');
  }

  /** Inserting "/" into a fresh root (keyed "/") renames it to "", after
      which "/" finds the handler at the root. */
  lemma RootRenamedBySlash(f: Handler)
    ensures Insert(NewNode("/"), "/", f) == Node([], "", Some(f))
    ensures Get(Insert(NewNode("/"), "/", f), "/") == Some(f)
  {
    assert "" + "/" == "/";
    TrailingSlashActsOnNode(NewNode("/"), "", f);
    TrailingSlashActsOnNode(Node([], "", Some(f)), "", f);
  }

  /** Case 2: one empty leading segment is skipped by both insert and get. */
  lemma LeadingSlashSkipped(n: Node, t: string, f: Handler)
    requires t != ""
    ensures Insert(n, "/" + t, f) == Insert(n, t, f)
    ensures Get(n, "/" + t) == Get(n, t)
  {
    assert "/" + t == [] + ['/'] + t;
    SplitOnceAt([], t, '/');
  }

  /** Case 3: a middle segment `x` descends into the FIRST child keyed `x`,
      which insert creates (and appends) when there is none; get then finds
      nothing. */
  lemma MiddleSegmentReusesFirstChild(n: Node, x: string, rest: string, f: Handler)
    requires '/' !in x && x != "" && rest != ""
    ensures forall i :: FirstWithKey(n.nodes, x, i) ==>
      Insert(n, x + "/" + rest, f) == n.(nodes := n.nodes[i := Insert(n.nodes[i], rest, f)]) &&
      Get(n, x + "/" + rest) == Get(n.nodes[i], rest)
    ensures (forall i :: 0 <= i < |n.nodes| ==> n.nodes[i].key != x) ==>
      Insert(n, x + "/" + rest, f) == n.(nodes := n.nodes + [Insert(NewNode(x), rest, f)]) &&
      Get(n, x + "/" + rest) == None
  {
    SplitOnceAt(x, rest, '/');
    forall i | FirstWithKey(n.nodes, x, i)
      ensures FindChild(n.nodes, x) == i
    {
      FindChildIs(n.nodes, x, i);
    }
    if forall i :: 0 <= i < |n.nodes| ==> n.nodes[i].key != x {
      FindChildIs(n.nodes, x, |n.nodes|);
    }
  }

  /** Case 4: a last segment `x` always appends a fresh child holding the
      handler, while get answers with the handler of the FIRST child keyed
      `x`, or nothing when no child is keyed `x`. */
  lemma LastSegmentAppendsLeaf(n: Node, x: string, f: Handler)
    requires '/' !in x
    ensures Insert(n, x, f) == n.(nodes := n.nodes + [Node([], x, Some(f))])
    ensures forall i :: FirstWithKey(n.nodes, x, i) ==> Get(n, x) == n.nodes[i].handler
    ensures (forall i :: 0 <= i < |n.nodes| ==> n.nodes[i].key != x) ==> Get(n, x) == None
  {
    forall i | FirstWithKey(n.nodes, x, i)
      ensures FindChild(n.nodes, x) == i
    {
      FindChildIs(n.nodes, x, i);
    }
    if forall i :: 0 <= i < |n.nodes| ==> n.nodes[i].key != x {
      FindChildIs(n.nodes, x, |n.nodes|);
    }
  }

  /** `Node::new(k)` answers no lookup at all. */
  lemma {:induction false} FreshNodeFindsNothing(k: string, path: string)
    ensures Get(NewNode(k), path) == None
    decreases |path|
  {
    match SplitOnce(path, '/')
    case Some((root, rest)) =>
      if rest != "" && root == "" {
        FreshNodeFindsNothing(k, rest);
      }
    case None =>
  }

  /** For a non-empty last part `t`, an empty segment is skipped identically
      by insert and get: `q//t` behaves like `q/t` (so `//a` like `/a`, and
      `/a//b` like `/a/b`). Before a trailing slash it is not skipped: "/a//"
      enters child `a` and renames it, while "/a/" renames the node. */
  lemma {:induction false} EmptySegmentSkipped(n: Node, q: string, t: string, f: Handler)
    requires t != ""
    ensures Insert(n, q + "//" + t, f) == Insert(n, q + "/" + t, f)
    ensures Get(n, q + "//" + t) == Get(n, q + "/" + t)
    decreases |q|
  {
    var long, short := q + "//" + t, q + "/" + t;
    match SplitOnce(q, '/')
    case None =>
      assert long == q + ['/'] + ("/" + t);
      assert short == q + ['/'] + t;
      SplitOnceAt(q, "/" + t, '/');
      SplitOnceAt(q, t, '/');
      LeadingSlashSkipped(n, t, f);
      if q != "" {
        var i := FindChild(n.nodes, q);
        if i < |n.nodes| {
          LeadingSlashSkipped(n.nodes[i], t, f);
        } else {
          LeadingSlashSkipped(NewNode(q), t, f);
        }
      }
    case Some((a, b)) =>
      assert long == a + ['/'] + (b + "//" + t);
      assert short == a + ['/'] + (b + "/" + t);
      SplitOnceAt(a, b + "//" + t, '/');
      SplitOnceAt(a, b + "/" + t, '/');
      EmptySegmentSkipped(n, b, t, f);
      if a != "" {
        var i := FindChild(n.nodes, a);
        if i < |n.nodes| {
          EmptySegmentSkipped(n.nodes[i], b, t, f);
        } else {
          EmptySegmentSkipped(NewNode(a), b, t, f);
        }
      }
  }

  /** Insert only appends children: it adds at most one child, and every
      existing child except the one the path descends into is left as it
      was (key, handler and subtree). The node's own key and handler change
      only when the path ends with a slash. */
  lemma {:induction false} InsertOnlyAppends(n: Node, path: string, f: Handler)
    ensures var r := Insert(n, path, f);
      |n.nodes| <= |r.nodes| <= |n.nodes| + 1 &&
      (forall i :: 0 <= i < |n.nodes| && i != Descent(n, path) ==> r.nodes[i] == n.nodes[i]) &&
      (r.key != n.key || r.handler != n.handler ==> EndsWithSlash(path))
    decreases |path|
  {
    match SplitOnce(path, '/')
    case Some((root, rest)) =>
      if rest == "" {
        assert path[|path| - 1] == '/';
      } else {
        SlashSuffix(root, rest);
        if root == "" {
          InsertOnlyAppends(n, rest, f);
        }
      }
    case None =>
  }

  /** Round trip: inserting a path that does not end with a slash and then
      looking it up gives the inserted handler, provided the trie holds no
      earlier child where the new leaf goes. */
  lemma {:induction false} InsertThenGet(n: Node, path: string, f: Handler)
    requires !EndsWithSlash(path)
    requires LeafUnclaimed(n, path)
    ensures Get(Insert(n, path, f), path) == Some(f)
    decreases |path|
  {
    match SplitOnce(path, '/')
    case Some((root, rest)) =>
      NoTrailingSlashRest(root, rest);
      SlashSuffix(root, rest);
      if root == "" {
        InsertThenGet(n, rest, f);
      } else {
        var i := FindChild(n.nodes, root);
        var r := Insert(n, path, f);
        if i < |n.nodes| {
          InsertThenGet(n.nodes[i], rest, f);
          InsertOnlyAppends(n.nodes[i], rest, f);
          FindChildIs(r.nodes, root, i);
        } else {
          var c := Insert(NewNode(root), rest, f);
          FreshLeafUnclaimed(root, rest);
          InsertThenGet(NewNode(root), rest, f);
          InsertOnlyAppends(NewNode(root), rest, f);
          FindChildAppend(n.nodes, c, root);
        }
      }
    case None =>
      FindChildAppend(n.nodes, NewNode(path).(handler := Some(f)), path);
  }

  /** In a fresh node no leaf is claimed yet. */
  lemma {:induction false} FreshLeafUnclaimed(k: string, path: string)
    ensures LeafUnclaimed(NewNode(k), path)
    decreases |path|
  {
    match SplitOnce(path, '/')
    case Some((root, rest)) =>
      if rest != "" && root == "" {
        FreshLeafUnclaimed(k, rest);
      }
    case None =>
  }

  /** Round trip on a fresh root, as `Router::insert` creates it: any path
      not ending with a slash is found again after inserting it. */
  lemma FreshRoundTrip(k: string, path: string, f: Handler)
    requires !EndsWithSlash(path)
    ensures Get(Insert(NewNode(k), path, f), path) == Some(f)
  {
    FreshLeafUnclaimed(k, path);
    InsertThenGet(NewNode(k), path, f);
  }

  /** After inserting a path that does not end with a slash its leaf is
      claimed: a second insertion of it can no longer be the one found. */
  lemma {:induction false} InsertClaimsLeaf(n: Node, path: string, f: Handler)
    requires !EndsWithSlash(path)
    ensures !LeafUnclaimed(Insert(n, path, f), path)
    decreases |path|
  {
    match SplitOnce(path, '/')
    case Some((root, rest)) =>
      NoTrailingSlashRest(root, rest);
      SlashSuffix(root, rest);
      if root == "" {
        InsertClaimsLeaf(n, rest, f);
      } else {
        var i := FindChild(n.nodes, root);
        var r := Insert(n, path, f);
        if i < |n.nodes| {
          InsertClaimsLeaf(n.nodes[i], rest, f);
          InsertOnlyAppends(n.nodes[i], rest, f);
          FindChildIs(r.nodes, root, i);
        } else {
          var c := Insert(NewNode(root), rest, f);
          InsertClaimsLeaf(NewNode(root), rest, f);
          InsertOnlyAppends(NewNode(root), rest, f);
          FindChildAppend(n.nodes, c, root);
        }
      }
    case None =>
      FindChildAppend(n.nodes, NewNode(path).(handler := Some(f)), path);
  }

  /** When the leaf of a path (not ending with a slash) is already claimed,
      inserting the path again changes nothing that get can see at it: the
      earlier node keeps answering. */
  lemma {:induction false} ReinsertKeepsEarlier(n: Node, path: string, f: Handler)
    requires !EndsWithSlash(path)
    requires !LeafUnclaimed(n, path)
    ensures Get(Insert(n, path, f), path) == Get(n, path)
    decreases |path|
  {
    match SplitOnce(path, '/')
    case Some((root, rest)) =>
      NoTrailingSlashRest(root, rest);
      SlashSuffix(root, rest);
      if root == "" {
        ReinsertKeepsEarlier(n, rest, f);
      } else {
        var i := FindChild(n.nodes, root);
        var r := Insert(n, path, f);
        ReinsertKeepsEarlier(n.nodes[i], rest, f);
        InsertOnlyAppends(n.nodes[i], rest, f);
        FindChildIs(r.nodes, root, i);
      }
    case None =>
      FindChildAppend(n.nodes, NewNode(path).(handler := Some(f)), path);
  }

  /** Re-inserting a path that does not end with a slash does not replace
      its handler: the first insertion wins. */
  lemma FirstInsertionWins(k: string, path: string, f1: Handler, f2: Handler)
    requires !EndsWithSlash(path)
    ensures Get(Insert(Insert(NewNode(k), path, f1), path, f2), path) == Some(f1)
  {
    FreshRoundTrip(k, path, f1);
    InsertClaimsLeaf(NewNode(k), path, f1);
    ReinsertKeepsEarlier(Insert(NewNode(k), path, f1), path, f2);
  }

  /** A middle node claims the key of a later leaf: after "x/y" a fresh
      root has a child `x` without a handler, so inserting "x" appends a
      second child `x` that get never reaches, and "x" finds nothing. */
  lemma MiddleNodeShadowsLeaf(k: string, x: string, y: string, f1: Handler, f2: Handler)
    requires '/' !in x && x != "" && '/' !in y && y != ""
    ensures Get(Insert(Insert(NewNode(k), x + "/" + y, f1), x, f2), x) == None
  {
    var middle := Node([Node([], y, Some(f1))], x, None);
    var root1 := Node([middle], k, None);
    var root2 := Node([middle, Node([], x, Some(f2))], k, None);
    MiddleSegmentReusesFirstChild(NewNode(k), x, y, f1);
    LastSegmentAppendsLeaf(NewNode(x), y, f1);
    assert Insert(NewNode(x), y, f1) == middle by {
      assert [] + [Node([], y, Some(f1))] == [Node([], y, Some(f1))];
    }
    assert [] + [middle] == [middle];
    assert Insert(NewNode(k), x + "/" + y, f1) == root1;
    LastSegmentAppendsLeaf(root1, x, f2);
    assert Insert(root1, x, f2) == root2;
    LastSegmentAppendsLeaf(root2, x, f2);
    assert FirstWithKey(root2.nodes, x, 0);
  }

  /** A path "x/" ending with a slash sets the handler of the node itself,
      so re-inserting it replaces the handler: the last insertion wins
      ("/" is the case x = ""). */
  lemma TrailingSlashLastWins(n: Node, x: string, f1: Handler, f2: Handler)
    requires '/' !in x
    ensures Get(Insert(Insert(n, x + "/", f1), x + "/", f2), x + "/") == Some(f2)
  {
    var n1 := n.(key := x, handler := Some(f1));
    TrailingSlashActsOnNode(n, x, f1);
    TrailingSlashActsOnNode(n1, x, f2);
    TrailingSlashActsOnNode(n1.(handler := Some(f2)), x, f2);
  }

  /** Inserting "/x/y/" into a fresh root creates a child keyed `x` and then
      renames it to `y`: the root gets one child `y` holding the handler. */
  lemma NestedTrailingSlashRenamesChild(k: string, x: string, y: string, f: Handler)
    requires '/' !in x && x != "" && '/' !in y
    ensures Insert(NewNode(k), "/" + x + "/" + y + "/", f) == Node([Node([], y, Some(f))], k, None)
  {
    var child := Node([], y, Some(f));
    assert "/" + x + "/" + y + "/" == "/" + (x + "/" + (y + "/"));
    LeadingSlashSkipped(NewNode(k), x + "/" + (y + "/"), f);
    MiddleSegmentReusesFirstChild(NewNode(k), x, y + "/", f);
    TrailingSlashActsOnNode(NewNode(x), y, f);
    assert [] + [child] == [child];
  }

  /** So after inserting "/x/y/" into a fresh root, "/x/y/" itself is found
      only when x and y are the same segment. */
  lemma NestedTrailingSlashLookup(k: string, x: string, y: string, f: Handler)
    requires '/' !in x && x != "" && '/' !in y
    ensures Get(Insert(NewNode(k), "/" + x + "/" + y + "/", f), "/" + x + "/" + y + "/") ==
      if x == y then Some(f) else None
  {
    NestedTrailingSlashRenamesChild(k, x, y, f);
    OneChildLookup(k, Node([], y, Some(f)), x, y);
  }

  /** Get of "/x/y/" in a root whose only child is `c`: it descends into
      `c` when `c` is keyed `x`, and then asks whether `c` is keyed `y`. */
  lemma OneChildLookup(k: string, c: Node, x: string, y: string)
    requires '/' !in x && x != "" && '/' !in y
    ensures Get(Node([c], k, None), "/" + x + "/" + y + "/") ==
      if c.key == x && c.key == y then c.handler else None
  {
    var r := Node([c], k, None);
    assert "/" + x + "/" + y + "/" == "/" + (x + "/" + (y + "/"));
    LeadingSlashSkipped(r, x + "/" + (y + "/"), Handler(0));
    MiddleSegmentReusesFirstChild(r, x, y + "/", Handler(0));
    TrailingSlashActsOnNode(c, y, Handler(0));
    if c.key == x {
      assert FirstWithKey(r.nodes, x, 0);
    }
  }
}
