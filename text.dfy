/**
  The two pieces of Rust's string API the router relies on: `str::split_once`
  with a single-character pattern (used to walk a path one segment at a time)
  and `str::split` collected into a vector (used to cut the request line into
  tokens).
*/
module Text {
  import opened Wrappers

  /** `s.split_once(c)`: the text before and after the FIRST `c`, or `None`
      when `s` holds no `c`. */
  function SplitOnce(s: string, c: char): (r: Option<(string, string)>)
    ensures r.None? <==> c !in s
    ensures r.Some? ==> s == r.value.0 + [c] + r.value.1 && c !in r.value.0
  {
    if |s| == 0 then None
    else if s[0] == c then Some(([], s[1..]))
    else
      match SplitOnce(s[1..], c)
      case None => None
      case Some((before, after)) => Some(([s[0]] + before, after))
  }

  /** Splitting at a `c` that no earlier character matches gives exactly the
      two sides of that `c`. */
  lemma {:induction false} SplitOnceAt(before: string, after: string, c: char)
    requires c !in before
    ensures SplitOnce(before + [c] + after, c) == Some((before, after))
  {
    var s := before + [c] + after;
    if before == [] {
      assert s[1..] == after;
    } else {
      assert s[0] == before[0];
      assert s[1..] == before[1..] + [c] + after;
      SplitOnceAt(before[1..], after, c);
      assert [s[0]] + before[1..] == before;
    }
  }

  /** Concatenates `parts` with one `c` between neighbours; the inverse of
      `Split`. */
  function Join(parts: seq<string>, c: char): string
  {
    if |parts| == 0 then []
    else if |parts| == 1 then parts[0]
    else parts[0] + [c] + Join(parts[1..], c)
  }

  /** `s.split(c).collect::<Vec<_>>()`: the pieces of `s` between
      occurrences of `c`. There is always at least one piece, and there is
      exactly one precisely when `s` holds no `c`. */
  function Split(s: string, c: char): (parts: seq<string>)
    ensures |parts| >= 1
    ensures |parts| == 1 <==> c !in s
    ensures forall i :: 0 <= i < |parts| ==> c !in parts[i]
    ensures Join(parts, c) == s
    decreases |s|
  {
    match SplitOnce(s, c)
    case None => [s]
    case Some((before, after)) => [before] + Split(after, c)
  }

  /** The first piece of the split is everything before the first `c`; the
      second is everything between the first `c` and the next (or the end). */
  lemma {:induction false} SplitFirstTwo(first: string, second: string, tail: string, c: char)
    requires c !in first && c !in second
    requires tail == [] || tail[0] == c
    ensures var parts := Split(first + [c] + second + tail, c);
      |parts| >= 2 && parts[0] == first && parts[1] == second
  {
    var s := first + [c] + second + tail;
    assert s == first + [c] + (second + tail);
    SplitOnceAt(first, second + tail, c);
    if tail == [] {
      assert second + tail == second;
    } else {
      assert second + tail == second + [c] + tail[1..];
      SplitOnceAt(second, tail[1..], c);
    }
  }
}
