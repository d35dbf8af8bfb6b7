/**
 updates.py's image list: Compose files are fetched one by one, and each file's includes join
 the queue. What one run fetches is a fixed repository, because no path is fetched twice.
 */
module IncludeWorklist {
  import opened Sets
  import opened Text

  /** An entry of `include:`: a text, or a mapping whose `path` is a text, a list or missing. */
  datatype Include = Short(rel: string) | Long(path: Option<PathValue>)

  datatype PathValue = One(rel: string) | Many(rels: seq<string>)

  /** A readable Compose file. */
  datatype Doc = Doc(images: set<string>, includes: seq<Include>)

  /** The readable files; a path that is not there fails to load or to parse. */
  type Repo = map<string, Doc>

  /** posixpath's path of `rel` from the file that includes it. */
  type Resolver = (string, string) -> string

  // --- Includes ---

  /** The entry names the relative path: as a text, as the mapping's one path, or among its paths. */
  ghost predicate Names(item: Include, rel: string) {
    || item == Short(rel)
    || item == Long(Some(One(rel)))
    || exists rels :: item == Long(Some(Many(rels))) && rel in rels
  }

  /** q is included by the file at p. */
  ghost predicate IsIncluded(resolve: Resolver, repo: Repo, p: string, q: string) {
    p in repo && exists item, rel :: item in repo[p].includes && Names(item, rel) && q == resolve(p, rel)
  }

  function Rels(item: Include): seq<string> {
    match item
    case Short(rel) => [rel]
    case Long(None) => []
    case Long(Some(One(rel))) => [rel]
    case Long(Some(Many(rels))) => rels
  }

  lemma RelsAreNamed(item: Include, rel: string)
    ensures rel in Rels(item) <==> Names(item, rel)
  {
  }

  function AllRels(items: seq<Include>): seq<string> {
    if items == [] then [] else AllRels(items[..|items| - 1]) + Rels(items[|items| - 1])
  }

  function Resolved(resolve: Resolver, path: string, rels: seq<string>): (out: seq<string>)
    ensures |out| == |rels| && forall k :: 0 <= k < |rels| ==> out[k] == resolve(path, rels[k])
  {
    if rels == [] then [] else Resolved(resolve, path, rels[..|rels| - 1]) + [resolve(path, rels[|rels| - 1])]
  }

  lemma ResolvedTogether(resolve: Resolver, path: string, a: seq<string>, b: seq<string>)
    ensures Resolved(resolve, path, a + b) == Resolved(resolve, path, a) + Resolved(resolve, path, b)
  {
  }

  lemma {:induction false} AllRelsHold(items: seq<Include>, rel: string)
    ensures rel in AllRels(items) <==> exists item :: item in items && Names(item, rel)
  {
    if items == [] {
    } else {
      var init, last := items[..|items| - 1], items[|items| - 1];
      AllRelsHold(init, rel);
      RelsAreNamed(last, rel);
      assert items == init + [last];
    }
  }

  /** The includes of a file are those its entries name. */
  lemma IncludesAreNamed(resolve: Resolver, repo: Repo, p: string)
    requires p in repo
    ensures forall q :: q in Resolved(resolve, p, AllRels(repo[p].includes)) <==> IsIncluded(resolve, repo, p, q)
  {
    var items := repo[p].includes;
    var rels := AllRels(items);
    forall q ensures q in Resolved(resolve, p, rels) <==> IsIncluded(resolve, repo, p, q) {
      if q in Resolved(resolve, p, rels) {
        var k :| 0 <= k < |rels| && Resolved(resolve, p, rels)[k] == q;
        AllRelsHold(items, rels[k]);
      }
      if IsIncluded(resolve, repo, p, q) {
        var item, rel :| item in items && Names(item, rel) && q == resolve(p, rel);
        AllRelsHold(items, rel);
        var k :| 0 <= k < |rels| && rels[k] == rel;
        assert Resolved(resolve, p, rels)[k] == q;
      }
    }
  }

  lemma RelsOfFour(a: Include, b: Include, c: Include, d: Include)
    ensures AllRels([a, b, c, d]) == Rels(a) + Rels(b) + Rels(c) + Rels(d)
  {
    assert [a, b, c, d][..3] == [a, b, c] && [a, b, c][..2] == [a, b] && [a, b][..1] == [a] && [a][..0] == [];
    assert AllRels([a]) == Rels(a);
    assert AllRels([a, b]) == AllRels([a]) + Rels(b);
    assert AllRels([a, b, c]) == AllRels([a, b]) + Rels(c);
  }

  /** Entries count in their order, and a list of paths in its own. */
  lemma EachKindInOrder(resolve: Resolver, path: string, text: string, one: string, many: seq<string>)
    ensures var items := [Short(text), Long(Some(One(one))), Long(None), Long(Some(Many(many)))];
            Resolved(resolve, path, AllRels(items)) ==
            [resolve(path, text), resolve(path, one)] + seq(|many|, k requires 0 <= k < |many| => resolve(path, many[k]))
  {
    RelsOfFour(Short(text), Long(Some(One(one))), Long(None), Long(Some(Many(many))));
    assert [text] + [one] + [] + many == [text, one] + many;
  }

  /** includes_in_compose */
  method IncludesInCompose(resolve: Resolver, doc: Doc, path: string) returns (out: seq<string>)
    ensures out == Resolved(resolve, path, AllRels(doc.includes))
  {
    out := [];
    for n := 0 to |doc.includes|
      invariant out == Resolved(resolve, path, AllRels(doc.includes[..n]))
    {
      assert doc.includes[..n + 1][..n] == doc.includes[..n];
      var rels := Rels(doc.includes[n]);
      ghost var before := out;
      for m := 0 to |rels|
        invariant out == before + Resolved(resolve, path, rels[..m])
      {
        assert rels[..m + 1][..m] == rels[..m];
        out := out + [resolve(path, rels[m])];
      }
      assert rels[..|rels|] == rels;
      ResolvedTogether(resolve, path, AllRels(doc.includes[..n]), rels);
    }
    assert doc.includes[..|doc.includes|] == doc.includes;
  }

  // --- Reachability ---

  /** From a root, each step to an include of a readable file. */
  ghost predicate IsWalk(resolve: Resolver, repo: Repo, roots: seq<string>, walk: seq<string>) {
    && walk != [] && walk[0] in roots
    && forall k :: 0 < k < |walk| ==> IsIncluded(resolve, repo, walk[k - 1], walk[k])
  }

  ghost predicate IsReachable(resolve: Resolver, repo: Repo, roots: seq<string>, p: string) {
    exists walk :: IsWalk(resolve, repo, roots, walk) && walk[|walk| - 1] == p
  }

  ghost predicate IsClosed(resolve: Resolver, repo: Repo, roots: seq<string>, paths: set<string>) {
    && (forall r :: r in roots ==> r in paths)
    && forall p, q :: p in paths && IsIncluded(resolve, repo, p, q) ==> q in paths
  }

  lemma RootIsReachable(resolve: Resolver, repo: Repo, roots: seq<string>, r: string)
    requires r in roots
    ensures IsReachable(resolve, repo, roots, r)
  {
    assert IsWalk(resolve, repo, roots, [r]);
  }

  lemma IncludeIsReachable(resolve: Resolver, repo: Repo, roots: seq<string>, p: string, q: string)
    requires IsReachable(resolve, repo, roots, p) && IsIncluded(resolve, repo, p, q)
    ensures IsReachable(resolve, repo, roots, q)
  {
    var walk :| IsWalk(resolve, repo, roots, walk) && walk[|walk| - 1] == p;
    var longer := walk + [q];
    assert IsWalk(resolve, repo, roots, longer) && longer[|longer| - 1] == q;
  }

  /** Nothing leads out of a closed set that holds the roots. */
  lemma {:induction false} WalkStaysInside(resolve: Resolver, repo: Repo, roots: seq<string>, paths: set<string>, walk: seq<string>, k: nat)
    requires IsClosed(resolve, repo, roots, paths) && IsWalk(resolve, repo, roots, walk) && k < |walk|
    ensures walk[k] in paths
  {
    if k == 0 {
    } else {
      WalkStaysInside(resolve, repo, roots, paths, walk, k - 1);
      assert IsIncluded(resolve, repo, walk[k - 1], walk[k]);
    }
  }

  /** The reachable paths are the least closed set that holds the roots. */
  lemma ReachableIsLeastClosed(resolve: Resolver, repo: Repo, roots: seq<string>, paths: set<string>)
    requires forall p :: p in paths <==> IsReachable(resolve, repo, roots, p)
    ensures IsClosed(resolve, repo, roots, paths)
    ensures forall other :: IsClosed(resolve, repo, roots, other) ==> paths <= other
  {
    forall r | r in roots ensures r in paths {
      RootIsReachable(resolve, repo, roots, r);
    }
    forall p, q | p in paths && IsIncluded(resolve, repo, p, q) ensures q in paths {
      IncludeIsReachable(resolve, repo, roots, p, q);
    }
    forall other, p | IsClosed(resolve, repo, roots, other) && p in paths ensures p in other {
      ReachableIsInside(resolve, repo, roots, other, p);
    }
  }

  lemma ReachableIsInside(resolve: Resolver, repo: Repo, roots: seq<string>, paths: set<string>, p: string)
    requires IsClosed(resolve, repo, roots, paths) && IsReachable(resolve, repo, roots, p)
    ensures p in paths
  {
    var walk :| IsWalk(resolve, repo, roots, walk) && walk[|walk| - 1] == p;
    WalkStaysInside(resolve, repo, roots, paths, walk, |walk| - 1);
  }

  // --- The worklist ---

  /** Every path there is to find: a root or an include. */
  ghost function Universe(resolve: Resolver, repo: Repo, roots: seq<string>): set<string> {
    (set r | r in roots) + (set p, item, rel | p in repo && item in repo[p].includes && rel in Rels(item) :: resolve(p, rel))
  }

  lemma IncludesAreInUniverse(resolve: Resolver, repo: Repo, roots: seq<string>, p: string, q: string)
    requires IsIncluded(resolve, repo, p, q)
    ensures q in Universe(resolve, repo, roots)
  {
    var item, rel :| item in repo[p].includes && Names(item, rel) && q == resolve(p, rel);
    RelsAreNamed(item, rel);
  }

  function ImagesOf(repo: Repo, paths: set<string>): set<string> {
    set p, image | p in paths && p in repo && image in repo[p].images :: image
  }

  function Unreadable(repo: Repo, paths: seq<string>): seq<string> {
    if paths == [] then []
    else
      var last := paths[|paths| - 1];
      Unreadable(repo, paths[..|paths| - 1]) + if last in repo then [] else [last]
  }

  lemma {:induction false} UnreadableAreListed(repo: Repo, paths: seq<string>)
    ensures forall p :: p in Unreadable(repo, paths) <==> p in paths && p !in repo
    ensures IsDistinct(paths) ==> IsDistinct(Unreadable(repo, paths))
  {
    if paths == [] {
    } else {
      var n := |paths| - 1;
      UnreadableAreListed(repo, paths[..n]);
      assert paths == paths[..n] + [paths[n]];
      assert IsDistinct(paths) ==> paths[n] !in paths[..n];
    }
  }

  /** What the loop keeps. */
  ghost predicate IsProgress(resolve: Resolver, repo: Repo, roots: seq<string>, queue: seq<string>, seen: set<string>) {
    && (forall p :: p in seen || p in queue ==> IsReachable(resolve, repo, roots, p))
    && (forall p :: p in seen || p in queue ==> p in Universe(resolve, repo, roots))
    && (forall r :: r in roots ==> r in seen || r in queue)
    && (forall p, q :: p in seen && IsIncluded(resolve, repo, p, q) ==> q in seen || q in queue)
  }

  lemma StartIsProgress(resolve: Resolver, repo: Repo, roots: seq<string>)
    ensures IsProgress(resolve, repo, roots, roots, {})
  {
    forall r | r in roots ensures IsReachable(resolve, repo, roots, r) {
      RootIsReachable(resolve, repo, roots, r);
    }
  }

  lemma SkipIsProgress(resolve: Resolver, repo: Repo, roots: seq<string>, queue: seq<string>, seen: set<string>)
    requires IsProgress(resolve, repo, roots, queue, seen) && queue != [] && queue[0] in seen
    ensures IsProgress(resolve, repo, roots, queue[1..], seen)
  {
    assert forall p :: p in queue <==> p == queue[0] || p in queue[1..];
  }

  lemma FetchIsProgress(resolve: Resolver, repo: Repo, roots: seq<string>, queue: seq<string>, seen: set<string>,
                                           more: seq<string>)
    requires IsProgress(resolve, repo, roots, queue, seen) && queue != []
    requires forall q :: q in more <==> IsIncluded(resolve, repo, queue[0], q)
    ensures IsProgress(resolve, repo, roots, queue[1..] + more, seen + {queue[0]})
  {
    var path := queue[0];
    assert forall p :: p in queue <==> p == path || p in queue[1..];
    forall q | q in more ensures IsReachable(resolve, repo, roots, q) && q in Universe(resolve, repo, roots) {
      IncludeIsReachable(resolve, repo, roots, path, q);
      IncludesAreInUniverse(resolve, repo, roots, path, q);
    }
  }

  lemma DoneIsReachable(resolve: Resolver, repo: Repo, roots: seq<string>, seen: set<string>)
    requires IsProgress(resolve, repo, roots, [], seen)
    ensures forall p :: p in seen <==> IsReachable(resolve, repo, roots, p)
  {
    assert IsClosed(resolve, repo, roots, seen);
    forall p | IsReachable(resolve, repo, roots, p) ensures p in seen {
      ReachableIsInside(resolve, repo, roots, seen, p);
    }
  }

  /** What the results keep: each seen path once, their images, and those that did not load. */
  ghost predicate IsCollected(repo: Repo, seen: set<string>, refs: set<string>, couldnt: seq<string>, fetched: seq<string>) {
    && IsDistinct(fetched) && (forall p :: p in fetched <==> p in seen)
    && refs == ImagesOf(repo, seen) && couldnt == Unreadable(repo, fetched)
  }

  lemma OneMoreCollected(repo: Repo, seen: set<string>, refs: set<string>, couldnt: seq<string>,
                                            fetched: seq<string>, path: string)
    requires IsCollected(repo, seen, refs, couldnt, fetched) && path !in seen
    ensures path in repo ==>
              IsCollected(repo, seen + {path}, refs + repo[path].images, couldnt, fetched + [path])
    ensures path !in repo ==> IsCollected(repo, seen + {path}, refs, couldnt + [path], fetched + [path])
  {
    assert (fetched + [path])[..|fetched|] == fetched;
    var more := if path in repo then repo[path].images else {};
    assert ImagesOf(repo, seen + {path}) == ImagesOf(repo, seen) + more;
  }

  lemma CollectedAtEnd(resolve: Resolver, repo: Repo, roots: seq<string>, seen: set<string>, refs: set<string>,
                                          couldnt: seq<string>, fetched: seq<string>)
    requires IsProgress(resolve, repo, roots, [], seen) && IsCollected(repo, seen, refs, couldnt, fetched)
    ensures forall p :: p in fetched <==> IsReachable(resolve, repo, roots, p)
    ensures forall image :: image in refs <==>
                            exists p :: p in repo && IsReachable(resolve, repo, roots, p) && image in repo[p].images
    ensures IsDistinct(couldnt)
    ensures forall p :: p in couldnt <==> p !in repo && IsReachable(resolve, repo, roots, p)
  {
    DoneIsReachable(resolve, repo, roots, seen);
    UnreadableAreListed(repo, fetched);
  }

  /** One turn of the loop, for a path not seen before. */
  method Fetch(resolve: Resolver, repo: Repo, path: string)
    returns (images: set<string>, includes: seq<string>, failed: seq<string>)
    ensures images == (if path in repo then repo[path].images else {})
    ensures failed == (if path in repo then [] else [path])
    ensures forall q :: q in includes <==> IsIncluded(resolve, repo, path, q)
  {
    if path in repo {
      includes := IncludesInCompose(resolve, repo[path], path);
      IncludesAreNamed(resolve, repo, path);
      images, failed := repo[path].images, [];
    } else {
      images, includes, failed := {}, [], [path];
    }
  }

  /** The worklist of _images: `fetched` are the requests it makes, in order. */
  method Images(resolve: Resolver, repo: Repo, roots: seq<string>)
    returns (refs: set<string>, couldnt: seq<string>, fetched: seq<string>)
    ensures IsDistinct(fetched)
    ensures forall p :: p in fetched <==> IsReachable(resolve, repo, roots, p)
    ensures forall image :: image in refs <==>
                            exists p :: p in repo && IsReachable(resolve, repo, roots, p) && image in repo[p].images
    ensures IsDistinct(couldnt)
    ensures forall p :: p in couldnt <==> p !in repo && IsReachable(resolve, repo, roots, p)
  {
    var queue, seen := roots, {};
    refs, couldnt, fetched := {}, [], [];
    StartIsProgress(resolve, repo, roots);
    while queue != []
      invariant IsProgress(resolve, repo, roots, queue, seen)
      invariant IsCollected(repo, seen, refs, couldnt, fetched)
      decreases Universe(resolve, repo, roots) - seen, |queue|
    {
      var path := queue[0];
      if path in seen {
        SkipIsProgress(resolve, repo, roots, queue, seen);
        queue := queue[1..];
        continue;
      }
      OneMoreCollected(repo, seen, refs, couldnt, fetched, path);
      var images, includes, failed := Fetch(resolve, repo, path);
      FetchIsProgress(resolve, repo, roots, queue, seen, includes);
      refs, couldnt, fetched := refs + images, couldnt + failed, fetched + [path];
      queue, seen := queue[1..] + includes, seen + {path};
    }
    CollectedAtEnd(resolve, repo, roots, seen, refs, couldnt, fetched);
  }
}
