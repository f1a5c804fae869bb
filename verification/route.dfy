/**
 * The route tree: each route has a name and an ordered list of children.
 * `match_route` follows the non-empty `/`-separated segments of a path from
 * the root, taking at each step the first child with that name;
 * `configure_all` and `shutdown_all` run a hook on the root and then on each
 * direct child, stopping at the first failure.
 */
module Routes {
  import opened Errors

  datatype Route = Route(name: string, children: seq<Route>)

  // ---------------------------------------------------------------- path splitting

  /** `str::split("/")`: the pieces between slashes, in order (one piece more than there are slashes). */
  function Split(s: string): (r: seq<string>)
    ensures |r| >= 1
    decreases |s|
  {
    if s == [] then [""]
    else
      var rest := Split(s[1..]);
      if s[0] == '/' then [""] + rest
      else [[s[0]] + rest[0]] + rest[1..]
  }

  /** There is one piece more than there are slashes. */
  lemma {:induction false} SplitCountsSlashes(s: string)
    ensures |Split(s)| == multiset(s)['/'] + 1
    decreases |s|
  {
    if s != [] {
      SplitCountsSlashes(s[1..]);
      assert s == [s[0]] + s[1..];
    }
  }

  /** The pieces joined back with `/` in between. */
  function Join(pieces: seq<string>): string
    requires |pieces| >= 1
  {
    if |pieces| == 1 then pieces[0] else pieces[0] + "/" + Join(pieces[1..])
  }

  /** Splitting is undone by joining, and no piece contains a slash. */
  lemma {:induction false} SplitJoin(s: string)
    ensures Join(Split(s)) == s
    ensures forall i :: 0 <= i < |Split(s)| ==> '/' !in Split(s)[i]
  {
    if s != [] {
      var rest := Split(s[1..]);
      SplitJoin(s[1..]);
      if s[0] == '/' {
        assert Split(s) == [""] + rest;
        assert Split(s)[1..] == rest;
      } else {
        var r := Split(s);
        assert r == [[s[0]] + rest[0]] + rest[1..];
        if |rest| == 1 {
          assert Join(r) == [s[0]] + rest[0];
        } else {
          assert r[1..] == rest[1..];
          assert Join(rest) == rest[0] + "/" + Join(rest[1..]);
        }
        assert s == [s[0]] + s[1..];
        forall i | 0 <= i < |r| ensures '/' !in r[i] {
          if i > 0 { assert r[i] == rest[i]; }
        }
      }
    }
  }

  /** Splitting `x + "/" + y` splits `x` and `y` separately. */
  lemma {:induction false} SplitAtSlash(x: string, y: string)
    ensures Split(x + "/" + y) == Split(x) + Split(y)
    decreases |x|
  {
    var s := x + "/" + y;
    if x == [] {
      assert s[1..] == y;
    } else {
      assert s[1..] == x[1..] + "/" + y;
      SplitAtSlash(x[1..], y);
    }
  }

  /** A string without slashes is a single piece. */
  lemma {:induction false} SplitNoSlash(s: string)
    requires '/' !in s
    ensures Split(s) == [s]
    decreases |s|
  {
    if s != [] {
      SplitNoSlash(s[1..]);
      assert s == [s[0]] + s[1..];
    }
  }

  /** `split("/")` of a path ending in `/` has an extra empty last piece. */
  lemma SplitTrailingSlash(s: string)
    ensures Split(s + "/") == Split(s) + [""]
  {
    SplitAtSlash(s, "");
    assert s + "/" + "" == s + "/";
  }

  /** The pieces that are not empty, in order (the `continue` on an empty piece). */
  function NonEmpty(pieces: seq<string>): (r: seq<string>)
    ensures forall i :: 0 <= i < |r| ==> r[i] != "" && r[i] in pieces
    ensures forall x :: x in pieces && x != "" ==> x in r
  {
    if pieces == [] then []
    else (if pieces[0] == "" then [] else [pieces[0]]) + NonEmpty(pieces[1..])
  }

  lemma {:induction false} NonEmptyAppend(a: seq<string>, b: seq<string>)
    ensures NonEmpty(a + b) == NonEmpty(a) + NonEmpty(b)
  {
    if a != [] {
      assert (a + b)[1..] == a[1..] + b;
      NonEmptyAppend(a[1..], b);
    } else {
      assert a + b == b;
    }
  }

  /**
   * The segments `match_route` follows: `split("/")`, the first piece dropped
   * by `skip(1)`, the empty pieces skipped.
   */
  function Segments(path: string): (r: seq<string>)
    ensures forall x :: x in r <==> x != "" && x in Split(path)[1..]
  {
    NonEmpty(Split(path)[1..])
  }

  /** Every followed segment is non-empty and contains no slash. */
  lemma SegmentsWellFormed(path: string)
    ensures forall i :: 0 <= i < |Segments(path)| ==> Segments(path)[i] != "" && '/' !in Segments(path)[i]
  {
    SplitJoin(path);
    var pieces := Split(path);
    forall i | 0 <= i < |Segments(path)|
      ensures '/' !in Segments(path)[i]
    {
      var seg := Segments(path)[i];
      assert seg in pieces[1..];
      var k :| 0 <= k < |pieces[1..]| && pieces[1..][k] == seg;
      assert pieces[k + 1] == seg;
    }
  }

  /** A trailing slash does not change the route. */
  lemma TrailingSlashIgnored(path: string)
    ensures Segments(path + "/") == Segments(path)
  {
    SplitTrailingSlash(path);
    var pieces := Split(path);
    assert Split(path + "/")[1..] == pieces[1..] + [""];
    NonEmptyAppend(pieces[1..], [""]);
    assert NonEmpty([""]) == [];
  }

  /** Doubling any slash of the path does not change the route. */
  lemma DoubledSlashIgnored(path: string, i: nat)
    requires i < |path| && path[i] == '/'
    ensures Segments(path[..i] + "/" + path[i..]) == Segments(path)
  {
    var x, y := path[..i], path[i + 1..];
    assert path == x + "/" + y;
    assert path[..i] + "/" + path[i..] == x + "/" + ("/" + y);
    SlashDoubled(x, y);
  }

  lemma SlashDoubled(x: string, y: string)
    ensures Segments(x + "/" + ("/" + y)) == Segments(x + "/" + y)
  {
    SegmentsOfSlash(x, "/" + y);
    SegmentsOfSlash(x, y);
    LeadingSlashPieces(y);
  }

  /** A leading slash adds only an empty piece. */
  lemma LeadingSlashPieces(y: string)
    ensures NonEmpty(Split("/" + y)) == NonEmpty(Split(y))
  {
    SplitSlashPrefix(y);
    NonEmptyAppend([""], Split(y));
    assert NonEmpty([""]) == [];
  }

  /** The segments of `x + "/" + z`: those of `x` after its first piece, then every non-empty piece of `z`. */
  lemma SegmentsOfSlash(x: string, z: string)
    ensures Segments(x + "/" + z) == NonEmpty(Split(x)[1..]) + NonEmpty(Split(z))
  {
    SplitAtSlash(x, z);
    SegmentsAfter(x, Split(z));
  }

  /** A path starting with a slash has an empty first piece. */
  lemma SplitSlashPrefix(y: string)
    ensures Split("/" + y) == [""] + Split(y)
  {
    assert ("/" + y)[0] == '/' && ("/" + y)[1..] == y;
  }

  /** The segments of `Split(x) + ys`: those of `x` after its first piece, then those of `ys`. */
  lemma SegmentsAfter(x: string, ys: seq<string>)
    ensures NonEmpty((Split(x) + ys)[1..]) == NonEmpty(Split(x)[1..]) + NonEmpty(ys)
  {
    assert (Split(x) + ys)[1..] == Split(x)[1..] + ys;
    NonEmptyAppend(Split(x)[1..], ys);
  }

  /** `skip(1)` always drops the text before the first slash: a path without a leading slash loses its first segment. */
  lemma FirstSegmentDropped(seg: string, rest: string)
    requires '/' !in seg
    ensures Segments(seg + "/" + rest) == Segments("/" + rest)
  {
    SplitAtSlash(seg, rest);
    SplitAtSlash("", rest);
    SplitNoSlash(seg);
    assert "" + "/" + rest == "/" + rest;
    assert Split(seg + "/" + rest)[1..] == Split(rest);
    assert Split("/" + rest)[1..] == Split(rest);
  }

  // ---------------------------------------------------------------- the tree walk

  /** The position of the first child named `name`, or `|children|` when there is none. */
  function FirstMatch(children: seq<Route>, name: string): (k: nat)
    ensures k <= |children|
    ensures k < |children| ==> children[k].name == name
    ensures forall i :: 0 <= i < k ==> children[i].name != name
  {
    if children == [] then 0
    else if children[0].name == name then 0
    else 1 + FirstMatch(children[1..], name)
  }

  /** The route reached from `node` by following `segs`, taking the first matching child at each step. */
  function Walk(node: Route, segs: seq<string>): (r: Option<Route>)
    ensures segs == [] ==> r == Some(node)
    ensures r.Some? && segs != [] ==> r.value.name == segs[|segs| - 1]
    decreases |segs|
  {
    if segs == [] then Some(node)
    else
      var k := FirstMatch(node.children, segs[0]);
      if k == |node.children| then None else Walk(node.children[k], segs[1..])
  }

  /** Walking `a + b` walks `a`, then `b` from where `a` ended. */
  lemma {:induction false} WalkAppend(node: Route, a: seq<string>, b: seq<string>)
    ensures Walk(node, a + b) == match Walk(node, a) case None => None case Some(m) => Walk(m, b)
    decreases |a|
  {
    if a == [] {
      assert a + b == b;
    } else {
      assert (a + b)[0] == a[0];
      assert (a + b)[1..] == a[1..] + b;
      var k := FirstMatch(node.children, a[0]);
      if k < |node.children| {
        WalkAppend(node.children[k], a[1..], b);
      }
    }
  }

  /** The walk fails for good as soon as a segment has no matching child. */
  lemma WalkStopsAtMissing(node: Route, a: seq<string>, seg: string, b: seq<string>, m: Route)
    requires Walk(node, a) == Some(m)
    requires forall i :: 0 <= i < |m.children| ==> m.children[i].name != seg
    ensures Walk(node, a + [seg] + b) == None
  {
    WalkAppend(node, a, [seg] + b);
    assert a + [seg] + b == a + ([seg] + b);
  }

  /** `match_route`: walk the non-empty segments of `path` from `root`. */
  method MatchRoute(path: string, root: Route) returns (r: Option<Route>)
    ensures r == Walk(root, Segments(path))
  {
    var parts := Split(path)[1..];
    var current := root;
    assert parts[0..] == parts;
    for i := 0 to |parts|
      invariant Walk(root, Segments(path)) == Walk(current, NonEmpty(parts[i..]))
    {
      var part := parts[i];
      NonEmptyStep(parts, i);
      if |part| == 0 {
        assert NonEmpty(parts[i..]) == NonEmpty(parts[i + 1..]);
        continue;
      }
      assert NonEmpty(parts[i..]) == [part] + NonEmpty(parts[i + 1..]);
      ghost var parent := current;
      var children := current.children;
      var found := false;
      var j := 0;
      while j < |children|
        invariant 0 <= j <= |children|
        invariant forall k :: 0 <= k < j ==> children[k].name != part
        invariant !found && current == parent
      {
        if children[j].name == part {
          current := children[j];
          found := true;
          break;
        }
        j := j + 1;
      }
      WalkStep(parent, part, NonEmpty(parts[i + 1..]));
      if !found {
        return None;
      }
      assert j == FirstMatch(children, part) && current == children[j];
    }
    assert parts[|parts|..] == [];
    r := Some(current);
  }

  lemma NonEmptyStep(parts: seq<string>, i: nat)
    requires i < |parts|
    ensures NonEmpty(parts[i..]) == (if parts[i] == "" then [] else [parts[i]]) + NonEmpty(parts[i + 1..])
  {
    assert parts[i..][0] == parts[i] && parts[i..][1..] == parts[i + 1..];
  }

  lemma WalkStep(node: Route, seg: string, rest: seq<string>)
    ensures Walk(node, [seg] + rest) ==
      var k := FirstMatch(node.children, seg);
      if k == |node.children| then None else Walk(node.children[k], rest)
  {
    assert ([seg] + rest)[0] == seg && ([seg] + rest)[1..] == rest;
  }

  // ---------------------------------------------------------------- configure_all / shutdown_all

  /** The routes `configure_all` and `shutdown_all` visit: the root, then its direct children in order. */
  function Targets(root: Route): seq<Route> {
    [root] + root.children
  }

  /**
   * The hook ran on a prefix of the targets; every route before the last one
   * visited passed; the result is the last one's outcome; and it is `Pass`
   * only once every target was visited.
   */
  predicate StopsAtFirstFailure(root: Route, hook: Route -> Outcome, visited: seq<Route>, r: Outcome) {
    && 1 <= |visited| <= |Targets(root)|
    && visited == Targets(root)[..|visited|]
    && (forall k :: 0 <= k < |visited| - 1 ==> hook(visited[k]) == Pass)
    && r == hook(visited[|visited| - 1])
    && (r == Pass ==> visited == Targets(root))
  }

  /** Run `hook` on the root, then on each direct child, returning at the first failure; `visited` records the calls made. */
  method VisitAll(root: Route, hook: Route -> Outcome) returns (visited: seq<Route>, r: Outcome)
    ensures StopsAtFirstFailure(root, hook, visited, r)
  {
    visited := [root];
    r := hook(root);
    if r.Fail? {
      return;
    }
    for i := 0 to |root.children|
      invariant visited == Targets(root)[..i + 1]
      invariant forall k :: 0 <= k < |visited| ==> hook(visited[k]) == Pass
      invariant r == Pass
    {
      var route := root.children[i];
      visited := visited + [route];
      r := hook(route);
      if r.Fail? {
        return;
      }
    }
  }

  /** `configure_all`, with each route's `configure` result given by `configure`. */
  method ConfigureAll(root: Route, configure: Route -> Outcome) returns (visited: seq<Route>, r: Outcome)
    ensures StopsAtFirstFailure(root, configure, visited, r)
  {
    visited, r := VisitAll(root, configure);
  }

  /** `shutdown_all`, with each route's `shutdown` result given by `shutdown`. */
  method ShutdownAll(root: Route, shutdown: Route -> Outcome) returns (visited: seq<Route>, r: Outcome)
    ensures StopsAtFirstFailure(root, shutdown, visited, r)
  {
    visited, r := VisitAll(root, shutdown);
  }

  // ---------------------------------------------------------------- the unit tests

  /** The tree of the unit tests: a root named "" with child "a", which has child "b". */
  function TestTree(): (t: Route)
    ensures t.name == "" && |t.children| == 1
    ensures t.children[0].name == "a" && |t.children[0].children| == 1
    ensures t.children[0].children[0] == Route("b", [])
  {
    Route("", [Route("a", [Route("b", [])])])
  }

  /** `route_root`: "/" gives the root. */
  lemma RouteRootTest()
    ensures Walk(TestTree(), Segments("/")) == Some(TestTree())
  {
    SegmentsOfSlash("", "");
    SplitNoSlash("");
    assert "" + "/" + "" == "/";
    assert NonEmpty([""]) == [];
  }

  /** `route_a`: "/a/" gives the route named "a". */
  lemma RouteATest()
    ensures Walk(TestTree(), Segments("/a/")) == Some(Route("a", [Route("b", [])]))
  {
    SegmentsOfSlash("", "a/");
    SplitNoSlash("");
    assert "" + "/" + "a/" == "/a/";
    SplitAtSlash("a", "");
    SplitNoSlash("a");
    assert "a" + "/" + "" == "a/";
    assert NonEmpty(["a", ""]) == ["a"];
    assert Segments("/a/") == ["a"];
  }

  /** `route_b`: "/a/b" gives the route named "b". */
  lemma RouteBTest()
    ensures Walk(TestTree(), Segments("/a/b")) == Some(Route("b", []))
  {
    SegmentsAB();
    var a := Route("a", [Route("b", [])]);
    assert FirstMatch(TestTree().children, "a") == 0;
    assert FirstMatch(a.children, "b") == 0;
    assert Walk(a, ["b"]) == Walk(Route("b", []), []);
  }

  lemma SegmentsAB()
    ensures Segments("/a/b") == ["a", "b"]
  {
    SegmentsOfSlash("", "a/b");
    assert "" + "/" + "a/b" == "/a/b";
    SplitAB();
    assert NonEmpty(["a", "b"]) == ["a", "b"];
  }

  lemma SplitAB()
    ensures Split("a/b") == ["a", "b"]
  {
    SplitAtSlash("a", "b");
    SplitNoSlash("a");
    SplitNoSlash("b");
    assert "a" + "/" + "b" == "a/b";
  }
}
