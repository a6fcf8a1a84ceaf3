/** The dashboard's client-side resolver (src/components/Dashboard.tsx): `findNode` looks the
    current path up in the full tree fetched once from the worker, by a recursive `search` that
    only enters subdirectories whose path is the target or an ancestor of it. */
module Dashboard {
  import opened Types
  import opened JsStrings
  import opened Worker

  /** `findNode(tree, targetPath)`: no tree gives nothing; the empty target or the tree's own
      path gives the tree; otherwise the recursive search. */
  function FindNode(tree: Option<Dir>, target: string): (r: Option<Dir>)
    ensures tree.None? ==> r.None?
    ensures tree.Some? && (target == "" || target == tree.value.path) ==> r == tree
    ensures r.Some? && target != "" ==> r.value.path == target
  {
    match tree
    case None => None
    case Some(t) => if target == "" || target == t.path then tree else Search(t, target)
  }

  /** `search(node)`: the node itself when its path is the target, else the first hit among the
      subdirectories the target lies at or below. A node always carries `subdirs` here, so the
      `!node.subdirs` test never fires. */
  function Search(node: Dir, target: string): (r: Option<Dir>)
    ensures r.Some? ==> r.value.path == target
    decreases node, 1
  {
    if node.path == target then Some(node) else SearchFrom(node, 0, target)
  }

  /** The `for (const subdir of node.subdirs)` loop of `search` from position `i` on: a
      subdirectory is entered only when the target is its path or lies below it, and the first
      non-null result is returned. */
  function SearchFrom(node: Dir, i: nat, target: string): (r: Option<Dir>)
    requires i <= |node.subdirs|
    ensures r.Some? ==> r.value.path == target
    decreases node, 0, |node.subdirs| - i
  {
    if i == |node.subdirs| then None
    else
      var c := node.subdirs[i];
      if AtOrBelow(target, c.path) then
        match Search(c, target)
        case Some(n) => Some(n)
        case None => SearchFrom(node, i + 1, target)
      else SearchFrom(node, i + 1, target)
  }

  /** `currentSubdirs` and `currentImages`: the found node's lists, or empty lists when nothing
      is found. */
  function CurrentContents(tree: Option<Dir>, target: string): (r: (seq<Dir>, seq<Image>))
    ensures FindNode(tree, target).None? ==> r == ([], [])
    ensures FindNode(tree, target).Some? ==>
      r == (FindNode(tree, target).value.subdirs, FindNode(tree, target).value.images)
  {
    match FindNode(tree, target)
    case None => ([], [])
    case Some(n) => (n.subdirs, n.images)
  }

  // ---------------------------------------------------------------------------------------------
  // Lemmas: the pruning

  /** A result other than the node itself comes out of a subdirectory at or above the target. */
  lemma {:induction false} SearchDescends(node: Dir, target: string)
    requires Search(node, target).Some? && node.path != target
    ensures exists i :: (0 <= i < |node.subdirs| && AtOrBelow(target, node.subdirs[i].path)
                         && Search(node.subdirs[i], target) == Search(node, target))
  {
    SearchFromDescends(node, 0, target);
  }

  /** The loop form of `SearchDescends`. */
  lemma {:induction false} SearchFromDescends(node: Dir, i: nat, target: string)
    requires i <= |node.subdirs| && SearchFrom(node, i, target).Some?
    ensures exists j :: (i <= j < |node.subdirs| && AtOrBelow(target, node.subdirs[j].path)
                         && Search(node.subdirs[j], target) == SearchFrom(node, i, target))
    decreases |node.subdirs| - i
  {
    var c := node.subdirs[i];
    if AtOrBelow(target, c.path) && Search(c, target).Some? {
      assert Search(node.subdirs[i], target) == SearchFrom(node, i, target);
    } else {
      SearchFromDescends(node, i + 1, target);
    }
  }

  // ---------------------------------------------------------------------------------------------
  // Lemmas: agreement with the worker's resolver

  /** Below the node reached by the first `d` segments of the target, a child is entered exactly
      when its name is segment `d`; the child's path is then that of the first `d + 1`
      segments. */
  lemma CoverIffNamed(h: seq<Node>, target: string, k: nat, d: nat, c: nat)
    requires Valid(h) && k < |h| && c < |h| && target != "" && target[0] != '/'
    requires d < |Split(target)| && h[k].path == PathOf(Split(target)[..d])
    requires '/' !in h[c].name && h[c].path == NextPath(h[k].path, h[c].name)
    ensures AtOrBelow(target, h[c].path) <==> h[c].name == Split(target)[d]
    ensures h[c].name == Split(target)[d] ==> h[c].path == PathOf(Split(target)[..d + 1])
  {
    var parts, name := Split(target), h[c].name;
    SplitFirstNonEmpty(target);
    PrefixBySegments(h[c].path, target);
    TakeOneMore(parts, d);
    PathFromSnoc("", parts[..d], parts[d]);
    if d == 0 {
      SplitNoSlash(name);
      assert Split(h[c].path) == [name];
      assert [name] <= parts <==> name == parts[0];
    } else {
      var pre := parts[..d];
      PathOfIsJoin(pre);
      JoinStartsWithFirst(pre);
      assert h[k].path != "";
      JoinAppend(pre, [name]);
      assert h[c].path == Join(pre + [name]);
      assert SlashFree(pre + [name]) by {
        forall j | 0 <= j < |pre + [name]| ensures '/' !in (pre + [name])[j] {
          if j < d { assert (pre + [name])[j] == parts[j]; }
        }
      }
      SplitJoin(pre + [name]);
      assert (pre + [name] <= parts) <==> name == parts[d] by {
        if pre + [name] <= parts {
          assert parts[d] == (pre + [name])[d];
        }
        if name == parts[d] {
          assert pre + [name] == parts[..d + 1];
        }
      }
    }
  }

  /** On a valid store, the loop of `search` at the node reached by the first `d` segments
      follows `find` on the exact name of segment `d`. */
  lemma {:induction false} SearchFromFollows(h: seq<Node>, target: string, k: nat, d: nat, i: nat)
    requires Valid(h) && k < |h| && target != "" && target[0] != '/'
    requires d < |Split(target)| && h[k].path == PathOf(Split(target)[..d])
    requires i <= |h[k].subdirs|
    ensures ChildrenOk(h, k)
    ensures SearchFrom(ToTree(h, k), i, target) ==
      match FirstNamed(h, h[k].subdirs[i..], Split(target)[d])
      case None => None
      case Some(c) => Search(ToTree(h, c), target)
    decreases |h[k].subdirs| - i
  {
    assert ChildrenOk(h, k);
    var sub, seg := h[k].subdirs, Split(target)[d];
    if i < |sub| {
      var c := sub[i];
      ToTreeChild(h, k, i);
      CoverIffNamed(h, target, k, d, c);
      DropOne(sub, i);
      SearchFromFollows(h, target, k, d, i + 1);
      if h[c].name == seg {
        assert FirstNamed(h, sub[i + 1..], seg).None? by {
          var tail := sub[i + 1..];
          forall j | 0 <= j < |tail| ensures h[tail[j]].name != seg {
            assert tail[j] == sub[i + 1 + j];
          }
        }
      }
    }
  }

  /** The accumulated path of the first `d` segments of a target that does not start with a
      separator is the target exactly when all segments are taken. */
  lemma PathIsTarget(target: string, d: nat)
    requires target != "" && target[0] != '/' && d <= |Split(target)|
    ensures PathOf(Split(target)[..d]) == target <==> d == |Split(target)|
  {
    var parts := Split(target);
    SplitFirstNonEmpty(target);
    if d == |parts| {
      assert parts[..d] == parts;
      PathOfIsJoin(parts);
      JoinSplit(target);
    } else if d > 0 {
      PathOfIsJoin(parts[..d]);
      SplitJoin(parts[..d]);
    }
  }

  /** On a valid store, `search` from the node reached by the first `d` segments of a target
      finds exactly the node the worker's walk reaches by the remaining segments. */
  lemma {:induction false} SearchFollowsWalk(h: seq<Node>, target: string, k: nat, d: nat)
    requires Valid(h) && k < |h| && target != "" && target[0] != '/'
    requires d <= |Split(target)| && h[k].path == PathOf(Split(target)[..d])
    ensures Search(ToTree(h, k), target) ==
      match Walk(h, k, Split(target)[d..])
      case None => None
      case Some(m) => Some(ToTree(h, m))
    decreases |Split(target)| - d
  {
    var parts := Split(target);
    PathIsTarget(target, d);
    if d == |parts| {
      assert parts[d..] == [];
    } else {
      DropOne(parts, d);
      assert h[k].subdirs[0..] == h[k].subdirs;
      SearchFromFollows(h, target, k, d, 0);
      match FirstNamed(h, h[k].subdirs, parts[d])
      case None =>
      case Some(c) =>
        assert ChildrenOk(h, k);
        CoverIffNamed(h, target, k, d, c);
        SearchFollowsWalk(h, target, c, d + 1);
    }
  }

  /** For a non-empty path that does not start with a separator, `findNode` on the served tree
      finds exactly the node `getDirectoryByPath` resolves, and nothing when that gives `null`. */
  lemma ClientMatchesServer(h: seq<Node>, target: string)
    requires Valid(h) && target != "" && target[0] != '/'
    ensures FindNode(Some(ToTree(h, 0)), target) ==
      match Walk(h, 0, Split(target))
      case None => None
      case Some(m) => Some(ToTree(h, m))
  {
    assert Split(target)[..0] == [] && Split(target)[0..] == Split(target);
    SearchFollowsWalk(h, target, 0, 0);
  }

  /** The lists the dashboard shows for such a path are the found node's, and empty when the
      worker reports `null`. */
  lemma ContentsMatchServer(h: seq<Node>, target: string)
    requires Valid(h) && target != "" && target[0] != '/'
    ensures CurrentContents(Some(ToTree(h, 0)), target) ==
      match Walk(h, 0, Split(target))
      case None => ([], [])
      case Some(m) => (ToTree(h, m).subdirs, h[m].images)
  {
    ClientMatchesServer(h, target);
  }

  /** A walk that succeeds only follows names, so its segments are separator-free. */
  lemma {:induction false} WalkSlashFree(h: seq<Node>, k: nat, segs: seq<string>)
    requires Valid(h) && k < |h| && Walk(h, k, segs).Some?
    ensures SlashFree(segs)
    decreases |segs|
  {
    if segs != [] {
      assert ChildrenOk(h, k);
      var c := FirstNamed(h, h[k].subdirs, segs[0]).value;
      WalkSlashFree(h, c, segs[1..]);
      assert segs == [segs[0]] + segs[1..];
    }
  }

  /** Pruning loses nothing for nodes reached without a leading empty segment: `findNode` on the
      node's own path finds that node. */
  lemma PruneComplete(h: seq<Node>, segs: seq<string>)
    requires Valid(h) && segs != [] && segs[0] != "" && Walk(h, 0, segs).Some?
    ensures FindNode(Some(ToTree(h, 0)), h[Walk(h, 0, segs).value].path) ==
      Some(ToTree(h, Walk(h, 0, segs).value))
  {
    var m := Walk(h, 0, segs).value;
    WalkPath(h, 0, segs);
    PathOfIsJoin(segs);
    WalkSlashFree(h, 0, segs);
    SplitJoin(segs);
    JoinStartsWithFirst(segs);
    assert h[m].path != "" && h[m].path[0] == segs[0][0];
    assert segs[0][0] != '/' by { assert '/' !in segs[0]; }
    ClientMatchesServer(h, h[m].path);
  }

  // ---------------------------------------------------------------------------------------------
  // Lemmas: leading separators

  /** No path in the subtree starts with a separator. */
  ghost predicate NoLeadingSlash(t: Dir)
  {
    && (t.path == "" || t.path[0] != '/')
    && forall i :: 0 <= i < |t.subdirs| ==> NoLeadingSlash(t.subdirs[i])
  }

  /** The served tree has no path starting with a separator. */
  lemma {:induction false} ToTreeNoLeadingSlash(h: seq<Node>, k: nat)
    requires Valid(h) && k < |h|
    ensures NoLeadingSlash(ToTree(h, k))
    decreases |h| - k
  {
    assert ChildrenOk(h, k);
    forall i | 0 <= i < |h[k].subdirs| ensures NoLeadingSlash(ToTree(h, k).subdirs[i]) {
      ToTreeChild(h, k, i);
      ToTreeNoLeadingSlash(h, h[k].subdirs[i]);
    }
  }

  /** `search` for a target starting with a separator finds nothing in such a tree. */
  lemma {:induction false} SearchNoLeadingSlash(t: Dir, target: string)
    requires NoLeadingSlash(t) && target != "" && target[0] == '/'
    ensures Search(t, target).None?
    decreases t, 1
  {
    SearchFromNoLeadingSlash(t, 0, target);
  }

  /** The loop form of `SearchNoLeadingSlash`. */
  lemma {:induction false} SearchFromNoLeadingSlash(t: Dir, i: nat, target: string)
    requires NoLeadingSlash(t) && target != "" && target[0] == '/' && i <= |t.subdirs|
    ensures SearchFrom(t, i, target).None?
    decreases t, 0, |t.subdirs| - i
  {
    if i < |t.subdirs| {
      SearchNoLeadingSlash(t.subdirs[i], target);
      SearchFromNoLeadingSlash(t, i + 1, target);
    }
  }

  /** `findNode` on the served tree gives nothing for a non-empty target starting with a
      separator, whatever the worker resolves for it. */
  lemma ClientMissesLeadingSlash(h: seq<Node>, target: string)
    requires Valid(h) && target != "" && target[0] == '/'
    ensures FindNode(Some(ToTree(h, 0)), target).None?
  {
    ToTreeNoLeadingSlash(h, 0);
    SearchNoLeadingSlash(ToTree(h, 0), target);
  }

  /** The store built from the single id "/a/x.png": root, an empty-named directory, and "a"
      below it, whose path is "a" because the empty accumulated path is dropped. */
  function SlashStore(x: Image): seq<Node>
  {
    [Node(RootName, "", [1], []), Node("", "", [2], []), Node("a", "a", [], [x])]
  }

  /** The segments of the example id and queries. */
  lemma SlashSplits()
    ensures Split("a") == ["a"] && Split("/a") == ["", "a"]
    ensures Split("/a/x.png") == ["", "a", "x.png"]
  {
    SplitNoSlash("a");
    SplitNoSlash("x.png");
    assert "/a"[1..] == "a";
    SplitConcat("a", "x.png");
    assert "/a/x.png"[1..] == "a/x.png";
  }

  /** The example store satisfies the store invariant. */
  lemma SlashStoreValid(x: Image)
    ensures Valid(SlashStore(x))
  {
    var h := SlashStore(x);
    forall k | 0 <= k < |h|
      ensures '/' !in h[k].name && (h[k].path == "" || h[k].path[0] != '/') && ChildrenOk(h, k)
    {
      if k == 0 {
        assert h[1].path == NextPath(h[0].path, h[1].name);
        assert ChildrenOk(h, 0);
      } else if k == 1 {
        assert h[2].path == NextPath(h[1].path, h[2].name);
        assert ChildrenOk(h, 1);
      } else {
        assert h[k].subdirs == [];
      }
    }
  }

  /** In the example store the segments "", "a" lead to the last node. */
  lemma SlashStoreWalk(x: Image)
    ensures Valid(SlashStore(x)) && Walk(SlashStore(x), 0, ["", "a"]) == Some(2)
  {
    var h := SlashStore(x);
    SlashStoreValid(x);
    assert ChildrenOk(h, 0) && ChildrenOk(h, 1);
    assert FirstNamed(h, h[0].subdirs, "") == Some(1);
    assert FirstNamed(h, h[1].subdirs, "a") == Some(2);
    assert ["", "a"][1..] == ["a"] && ["a"][1..] == [];
    assert Walk(h, 2, []) == Some(2);
    assert Walk(h, 1, ["a"]) == Some(2);
  }

  /** The example store is the one the builder's postcondition describes for that id. */
  lemma SlashStoreBuilt(x: Image)
    requires x.id == "/a/x.png"
    ensures BuiltFrom(SlashStore(x), [x]) && FirstSeenOrder(SlashStore(x), [x])
    ensures Walk(SlashStore(x), 0, ["", "a"]) == Some(2)
  {
    SlashStoreOrdered(x);
    SlashStoreWalk(x);
    SlashStoreReaches(x);
    SlashStorePlacedAll(x);
    SlashStoreImages(x);
    var xs := [x];
    assert xs[0] == x;
    assert multiset(AllImages(SlashStore(x))) == multiset(xs);
  }

  /** The segments "", "a" pass through both directories of the example store, and no node of
      it lists more than one subdirectory. */
  lemma SlashStoreVisits(x: Image)
    ensures Valid(SlashStore(x))
    ensures forall c :: 0 < c < |SlashStore(x)| ==> Visits(SlashStore(x), 0, ["", "a"], c)
    ensures forall k :: 0 <= k < |SlashStore(x)| ==> |SlashStore(x)[k].subdirs| <= 1
  {
    var h := SlashStore(x);
    SlashStoreValid(x);
    assert FirstNamed(h, h[0].subdirs, "") == Some(1);
    assert FirstNamed(h, h[1].subdirs, "a") == Some(2);
    assert ["", "a"][1..] == ["a"] && ["a"][1..] == [];
    assert Visits(h, 1, ["a"], 2);
    assert Visits(h, 0, ["", "a"], 1) && Visits(h, 0, ["", "a"], 2);
  }

  /** A store for a single image is in first-seen order when that image's walk passes through
      every node and no node lists more than one subdirectory. */
  lemma OneImageOrdered(h: seq<Node>, x: Image)
    requires Valid(h)
    requires forall c :: 0 < c < |h| ==> Visits(h, 0, DirsOf(x.id), c)
    requires forall k :: 0 <= k < |h| ==> |h[k].subdirs| <= 1
    ensures FirstSeenOrder(h, [x])
  {
    var xs := [x];
    assert xs[0] == x;
    forall c | 0 < c < |h| ensures Visited(h, xs, c) {
      assert FirstVisit(h, xs, c) == 0;
    }
  }

  /** The example store is in first-seen order for its single image. */
  lemma SlashStoreOrdered(x: Image)
    requires x.id == "/a/x.png"
    ensures FirstSeenOrder(SlashStore(x), [x])
  {
    var h := SlashStore(x);
    SlashStoreVisits(x);
    SlashSplits();
    assert DirsOf(x.id) == ["", "a"];
    OneImageOrdered(h, x);
  }

  /** The example id's directory segments reach the last node. */
  lemma SlashStoreReaches(x: Image)
    requires x.id == "/a/x.png"
    ensures Valid(SlashStore(x)) && Walk(SlashStore(x), 0, DirsOf(x.id)) == Some(2)
  {
    SlashStoreWalk(x);
    SlashSplits();
    assert DirsOf(x.id) == ["", "a"];
  }

  /** Each node of the example store holds exactly the images placed there. */
  lemma SlashStorePlacedAll(x: Image)
    requires Valid(SlashStore(x)) && Walk(SlashStore(x), 0, DirsOf(x.id)) == Some(2)
    ensures forall k :: 0 <= k < |SlashStore(x)| ==> SlashStore(x)[k].images == Placed(SlashStore(x), [x], k)
  {
    forall k | 0 <= k < |SlashStore(x)| ensures SlashStore(x)[k].images == Placed(SlashStore(x), [x], k) {
      SlashStorePlaced(x, k);
    }
  }

  /** Only the last node of the example store receives the image. */
  lemma SlashStorePlaced(x: Image, k: nat)
    requires Valid(SlashStore(x)) && Walk(SlashStore(x), 0, DirsOf(x.id)) == Some(2)
    ensures Placed(SlashStore(x), [x], k) == if k == 2 then [x] else []
  {
    var xs := [x];
    assert xs[..0] == [] && xs[0] == x;
    assert Placed(SlashStore(x), [], k) == [];
  }

  /** All images of the example store. */
  lemma SlashStoreImages(x: Image)
    ensures AllImages(SlashStore(x)) == [x]
  {
    var h := SlashStore(x);
    var h1, h2 := [h[0]], [h[0], h[1]];
    assert h1[..0] == [] && AllImages(h1) == AllImages([]) + h[0].images == [];
    assert h2[..1] == h1 && AllImages(h2) == AllImages(h1) + h[1].images == [];
    assert h[..2] == h2 && AllImages(h) == AllImages(h2) + h[2].images;
  }

  /** On that store the worker resolves "/a" to the node whose path is "a", while the dashboard
      finds neither "/a" nor "a": the node exists, but pruning never reaches it. */
  lemma LeadingSlashDisagreement(x: Image)
    requires x.id == "/a/x.png"
    ensures BuiltFrom(SlashStore(x), [x]) && FirstSeenOrder(SlashStore(x), [x])
    ensures Walk(SlashStore(x), 0, Split("/a")) == Some(2) && SlashStore(x)[2].path == "a"
    ensures FindNode(Some(ToTree(SlashStore(x), 0)), "/a").None?
    ensures FindNode(Some(ToTree(SlashStore(x), 0)), "a").None?
  {
    var h := SlashStore(x);
    SlashStoreBuilt(x);
    SlashSplits();
    assert Walk(h, 0, Split("a")) == None;
    ClientMissesLeadingSlash(h, "/a");
    ClientMatchesServer(h, "a");
  }

  /** The same holds for every store the builder's postcondition allows for the id "/a/x.png":
      the worker resolves "/a" to a node whose path is "a", and the dashboard cannot find "/a". */
  lemma {:induction false} LeadingSlashLost(h: seq<Node>, x: Image)
    requires BuiltFrom(h, [x]) && x.id == "/a/x.png"
    ensures Walk(h, 0, Split("/a")).Some? && h[Walk(h, 0, Split("/a")).value].path == "a"
    ensures FindNode(Some(ToTree(h, 0)), "/a").None?
  {
    SlashSplits();
    var xs := [x];
    assert xs[0] == x;
    var segs := ["", "a"];
    assert DirsOf(x.id) == segs && segs[..2] == segs;
    PrefixesExist(h, xs, 0, 2);
    WalkPath(h, 0, segs);
    SlashPath();
    ClientMissesLeadingSlash(h, "/a");
  }

  /** The accumulated path of the segments "", "a" is "a". */
  lemma SlashPath()
    ensures PathFrom("", ["", "a"]) == "a"
  {
    assert ["", "a"][1..] == ["a"] && ["a"][1..] == [];
  }
}
