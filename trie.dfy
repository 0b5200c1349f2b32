/**
  The routing trie of `src/router.rs`: a `Node` holds a segment key, its
  children in insertion order and an optional handler. Both `Insert` and
  `Get` consume the path with `split_once('/')` and try four cases in this
  order:
    1. `(x, "")`  the path ends in a slash: act on this node itself;
    2. `("", r)`  an empty leading segment: skip it;
    3. `(x, r)`   descend into the first child keyed `x`;
    4. no slash   the last segment: a child of this node.
  A node owns its children (Rust's `Vec<Node>`), so the tree is a value and
  an insertion returns the updated tree.
*/
module Trie {
  import opened Wrappers
  import opened Text

  /** A route handler. The source stores a function pointer; the model only
      needs to tell handlers apart. */
  datatype Handler = Handler(id: nat)

  datatype Node = Node(nodes: seq<Node>, key: string, handler: Option<Handler>)

  /** Some node of the subtree rooted at `n` holds the handler `h`. */
  predicate Carries(n: Node, h: Handler)
  {
    n.handler == Some(h) || exists i :: 0 <= i < |n.nodes| && Carries(n.nodes[i], h)
  }

  /** `Node::new(key)`: the key given, no children and no handler, so the
      new node carries no handler at all. */
  function NewNode(key: string): (n: Node)
    ensures n.key == key
    ensures forall h :: !Carries(n, h)
  {
    Node([], key, None)
  }

  /** `nodes.iter().find(|m| key == m.key)`, as the index of the first child
      carrying `key`, or `|nodes|` when there is none. */
  function FindChild(nodes: seq<Node>, key: string): (i: nat)
    ensures i <= |nodes|
    ensures i < |nodes| ==> nodes[i].key == key
    ensures forall j :: 0 <= j < i ==> nodes[j].key != key
  {
    if |nodes| == 0 then 0
    else if nodes[0].key == key then 0
    else 1 + FindChild(nodes[1..], key)
  }

  /** True when the path ends with `/`. */
  predicate EndsWithSlash(path: string)
  {
    |path| > 0 && path[|path| - 1] == '/'
  }

  /** `Node::insert(path, f)`. Whichever case applies, the handler ends up
      stored somewhere in the updated tree (whether or not `Get` can reach
      it: see `TrieProperties`). */
  function Insert(n: Node, path: string, f: Handler): (r: Node)
    ensures Carries(r, f)
    decreases |path|
  {
    match SplitOnce(path, '/')
    case Some((root, rest)) =>
      if rest == "" then
        n.(key := root, handler := Some(f))
      else if root == "" then
        Insert(n, rest, f)
      else
        var i := FindChild(n.nodes, root);
        if i < |n.nodes| then
          var r := n.(nodes := n.nodes[i := Insert(n.nodes[i], rest, f)]);
          assert r.nodes[i] == Insert(n.nodes[i], rest, f);
          r
        else
          var r := n.(nodes := n.nodes + [Insert(NewNode(root), rest, f)]);
          assert r.nodes[|n.nodes|] == Insert(NewNode(root), rest, f);
          r
    case None =>
      var r := n.(nodes := n.nodes + [NewNode(path).(handler := Some(f))]);
      assert r.nodes[|n.nodes|].handler == Some(f);
      r
  }

  /** `Node::get(path)`. It never invents a handler: whatever it returns is
      held by some node of the tree. */
  function Get(n: Node, path: string): (r: Option<Handler>)
    ensures r.Some? ==> Carries(n, r.value)
    decreases |path|
  {
    match SplitOnce(path, '/')
    case Some((root, rest)) =>
      if rest == "" then
        if root == n.key then n.handler else None
      else if root == "" then
        Get(n, rest)
      else
        var i := FindChild(n.nodes, root);
        if i < |n.nodes| then Get(n.nodes[i], rest) else None
    case None =>
      var i := FindChild(n.nodes, path);
      if i < |n.nodes| then n.nodes[i].handler else None
  }

  /** The index of the child of `n` that inserting `path` descends into, or
      `|n.nodes|` when the insertion touches no existing child. */
  function Descent(n: Node, path: string): nat
    decreases |path|
  {
    match SplitOnce(path, '/')
    case Some((root, rest)) =>
      if rest == "" then |n.nodes|
      else if root == "" then Descent(n, rest)
      else FindChild(n.nodes, root)
    case None => |n.nodes|
  }

  /** True when walking `path` from `n` runs off the existing tree before its
      last segment, or reaches a node none of whose children already carries
      the last segment: the leaf that inserting `path` appends is then the
      first one `Get` finds. */
  predicate LeafUnclaimed(n: Node, path: string)
    decreases |path|
  {
    match SplitOnce(path, '/')
    case Some((root, rest)) =>
      if rest == "" then true
      else if root == "" then LeafUnclaimed(n, rest)
      else
        var i := FindChild(n.nodes, root);
        i == |n.nodes| || LeafUnclaimed(n.nodes[i], rest)
    case None => FindChild(n.nodes, path) == |n.nodes|
  }

  /** `i` is the position of the first child keyed `key`. */
  predicate FirstWithKey(nodes: seq<Node>, key: string, i: int)
  {
    0 <= i < |nodes| && nodes[i].key == key &&
    forall j :: 0 <= j < i ==> nodes[j].key != key
  }
}
