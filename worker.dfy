/** The worker's directory namespace (backend/worker.js): the image record derived from the
    listing, `parseDirectoryTree`, which builds a tree of directory nodes over the flat ids, and
    `getDirectoryByPath`, which resolves a path against it.

    The builder mutates JavaScript objects through references (`currentNode`). Here the nodes live
    in a store `h: seq<Node>` and a reference is an index into it: the root is node 0, a new
    subdirectory is appended at the end (so index order is creation order) and its index is
    pushed onto its parent's `subdirs`. */
module Worker {
  import opened Types
  import opened JsStrings

  // ---------------------------------------------------------------------------------------------
  // The listing record (the `map` inside fetchCloudflareImages)

  /** The fields of one image in the Cloudflare listing; `None` stands for a field the listing
      leaves out (`undefined`). */
  datatype RawImage = RawImage(
    id: Option<string>,
    filename: Option<string>,
    uploaded: string,
    metaSize: Option<int>,
    requireSignedURLs: bool)

  /** JavaScript truthiness of an optional string: present and non-empty. */
  predicate Truthy(v: Option<string>)
  {
    v.Some? && v.value != ""
  }

  /** `img.id || img.filename`: the id when it is truthy, the filename (possibly missing)
      otherwise. */
  function IdOrFilename(raw: RawImage): Option<string>
  {
    if Truthy(raw.id) then raw.id else raw.filename
  }

  /** The directory segments of an id: all `/`-segments but the last. */
  function DirsOf(id: string): seq<string>
  {
    var parts := Split(id);
    parts[..|parts| - 1]
  }

  /** The last `/`-segment of an id (`split("/").pop()`). */
  function LastSegment(id: string): string
  {
    var parts := Split(id);
    parts[|parts| - 1]
  }

  /** An id is its directory segments and its last segment, and that last segment holds no
      separator: it is what follows the final `/`, or the whole id when there is none. */
  lemma IdIsDirsThenLast(id: string)
    ensures Split(id) == DirsOf(id) + [LastSegment(id)]
    ensures '/' !in LastSegment(id)
    ensures DirsOf(id) == [] ==> id == LastSegment(id)
    ensures DirsOf(id) != [] ==> id == Join(DirsOf(id)) + "/" + LastSegment(id)
  {
    var parts := Split(id);
    FrontLast(parts);
    assert '/' !in parts[|parts| - 1];
    JoinSplit(id);
    if DirsOf(id) != [] {
      JoinAppend(DirsOf(id), [LastSegment(id)]);
      assert Join([LastSegment(id)]) == LastSegment(id);
    }
  }

  /** The image record a listing entry becomes, or `None` when `img.id || img.filename` is
      `undefined` and calling `split` on it throws. The id falls back to the filename, and the
      filename is the id's last segment, falling back to the listed filename (possibly missing)
      when that segment is empty. */
  function ToImage(raw: RawImage): (r: Option<Image>)
    ensures r.None? <==> !Truthy(raw.id) && raw.filename.None?
    ensures r.Some? ==> Some(r.value.id) == IdOrFilename(raw)
    ensures r.Some? && LastSegment(r.value.id) != "" ==> r.value.filename == Some(LastSegment(r.value.id))
    ensures r.Some? && LastSegment(r.value.id) == "" ==> r.value.filename == raw.filename
    ensures r.Some? ==> r.value.uploadedDate == raw.uploaded && r.value.size == raw.metaSize
    ensures r.Some? ==> r.value.requireSignedURLs == raw.requireSignedURLs
  {
    match IdOrFilename(raw)
    case None => None
    case Some(id) =>
      var last := LastSegment(id);
      Some(Image(id, if last != "" then Some(last) else raw.filename, raw.uploaded, raw.metaSize,
                 raw.requireSignedURLs))
  }

  /** `data.result.images.map(...)`: every entry converted in order, or `None` (the request
      fails) as soon as one entry has neither an id nor a filename. */
  function ToImages(raws: seq<RawImage>): (r: Option<seq<Image>>)
    ensures r.None? <==> exists i :: 0 <= i < |raws| && ToImage(raws[i]).None?
    ensures r.Some? ==> |r.value| == |raws| && forall i :: 0 <= i < |raws| ==> ToImage(raws[i]) == Some(r.value[i])
  {
    if raws == [] then Some([])
    else
      match ToImage(raws[0])
      case None => None
      case Some(x) =>
        match ToImages(raws[1..])
        case None =>
          assert forall i :: 0 <= i < |raws| - 1 ==> raws[1..][i] == raws[i + 1];
          None
        case Some(rest) =>
          assert forall i :: 1 <= i < |raws| ==> raws[i] == raws[1..][i - 1];
          Some([x] + rest)
  }

  /** Unless the fallback applies, the derived filename is exactly the text after the id's final
      separator, or the whole id when it has none. */
  lemma FilenameIsFinalSegment(raw: RawImage)
    requires ToImage(raw).Some? && LastSegment(ToImage(raw).value.id) != ""
    ensures var r := ToImage(raw).value; r.filename.Some? && '/' !in r.filename.value
    ensures var r := ToImage(raw).value; var f := r.filename.value;
      r.id == f || (|f| < |r.id| && r.id == r.id[..|r.id| - |f| - 1] + "/" + f)
  {
    var r := ToImage(raw).value;
    IdIsDirsThenLast(r.id);
    if DirsOf(r.id) != [] {
      assert r.id == Join(DirsOf(r.id)) + "/" + r.filename.value;
      assert r.id[..|r.id| - |r.filename.value| - 1] == Join(DirsOf(r.id));
    }
  }

  // ---------------------------------------------------------------------------------------------
  // The node store

  /** A directory node; `subdirs` holds references (indices) to its subdirectory nodes. */
  datatype Node = Node(name: string, path: string, subdirs: seq<nat>, images: seq<Image>)

  const RootName := "root"

  /** The fresh root of line 343. */
  function EmptyRoot(): Node
  {
    Node(RootName, "", [], [])
  }

  /** The path of a subdirectory `dir` entered from a node at path `current` (line 359): the
      test is on the truthiness of `current`, so an empty accumulated path is not followed by a
      separator. */
  function NextPath(current: string, dir: string): string
  {
    if current != "" then current + "/" + dir else dir
  }

  /** The path accumulated by walking `segs` from a node whose path is `acc`. */
  function PathFrom(acc: string, segs: seq<string>): string
    decreases |segs|
  {
    if segs == [] then acc else PathFrom(NextPath(acc, segs[0]), segs[1..])
  }

  /** The path the builder gives the node it reaches by the segments `segs` from the root. */
  function PathOf(segs: seq<string>): string
  {
    PathFrom("", segs)
  }

  /** The links of node `k`: references point forward to existing nodes, in increasing order
      (the order they were created in), sibling names are pairwise distinct, and each child's
      path is its parent's path extended by the child's name. */
  ghost predicate ChildrenOk(h: seq<Node>, k: nat)
    requires k < |h|
  {
    var sub := h[k].subdirs;
    && (forall i :: 0 <= i < |sub| ==> k < sub[i] < |h|)
    && (forall i, j :: 0 <= i < j < |sub| ==> sub[i] < sub[j])
    && (forall i, j :: 0 <= i < j < |sub| ==> h[sub[i]].name != h[sub[j]].name)
    && (forall i :: 0 <= i < |sub| ==> h[sub[i]].path == NextPath(h[k].path, h[sub[i]].name))
  }

  /** The invariant of every store the builder produces, node by node. */
  ghost predicate Valid(h: seq<Node>)
  {
    && |h| >= 1 && h[0].name == RootName && h[0].path == ""
    && (forall k :: 0 <= k < |h| ==> '/' !in h[k].name)
    && (forall k :: 0 <= k < |h| ==> h[k].path == "" || h[k].path[0] != '/')
    && (forall k :: 0 <= k < |h| ==> ChildrenOk(h, k))
  }

  /** `subdirs.find((d) => d.name === name)`: the first referenced node with that name (see
      `FirstNamedIsFirst`). */
  function FirstNamed(h: seq<Node>, ids: seq<nat>, name: string): (r: Option<nat>)
    requires forall i :: 0 <= i < |ids| ==> ids[i] < |h|
    ensures r.None? <==> forall i :: 0 <= i < |ids| ==> h[ids[i]].name != name
    ensures r.Some? ==> r.value in ids && h[r.value].name == name
  {
    if |ids| == 0 then None
    else if h[ids[0]].name == name then Some(ids[0])
    else FirstNamed(h, ids[1..], name)
  }

  /** The node `find` returns is the first listed one with that name: it sits at some position
      `j`, and no node listed before `j` has the name. */
  lemma {:induction false} FirstNamedIsFirst(h: seq<Node>, ids: seq<nat>, name: string)
    requires forall i :: 0 <= i < |ids| ==> ids[i] < |h|
    ensures FirstNamed(h, ids, name).Some? ==>
      exists j :: 0 <= j < |ids| && ids[j] == FirstNamed(h, ids, name).value &&
                  (forall k :: 0 <= k < j ==> h[ids[k]].name != name)
  {
    if |ids| > 0 && h[ids[0]].name != name {
      var r := FirstNamed(h, ids[1..], name);
      FirstNamedIsFirst(h, ids[1..], name);
      if r.Some? {
        var j :| 0 <= j < |ids[1..]| && ids[1..][j] == r.value &&
          forall k :: 0 <= k < j ==> h[ids[1..][k]].name != name;
        assert ids[j + 1] == r.value;
        forall k | 0 <= k < j + 1 ensures h[ids[k]].name != name {
          if k > 0 { assert ids[k] == ids[1..][k - 1]; }
        }
      }
    } else if |ids| > 0 {
      assert ids[0] == FirstNamed(h, ids, name).value;
    }
  }

  /** The node reached from node `k` by following, segment by segment, the subdirectory with
      exactly that name; None as soon as one is missing. */
  function Walk(h: seq<Node>, k: nat, segs: seq<string>): (r: Option<nat>)
    requires Valid(h) && k < |h|
    ensures r.Some? ==> k <= r.value < |h|
    ensures r.Some? && segs != [] ==> k < r.value
    decreases |segs|
  {
    if segs == [] then Some(k)
    else
      assert ChildrenOk(h, k);
      match FirstNamed(h, h[k].subdirs, segs[0])
      case None => None
      case Some(c) => Walk(h, c, segs[1..])
  }

  /** The images of `xs`, in input order, whose directory segments lead from the root to `k`. */
  ghost function Placed(h: seq<Node>, xs: seq<Image>, k: nat): seq<Image>
    requires Valid(h)
  {
    if xs == [] then []
    else
      var x := xs[|xs| - 1];
      Placed(h, xs[..|xs| - 1], k) + if Walk(h, 0, DirsOf(x.id)) == Some(k) then [x] else []
  }

  /** All images of the store, node after node. */
  function AllImages(h: seq<Node>): seq<Image>
  {
    if h == [] then [] else AllImages(h[..|h| - 1]) + h[|h| - 1].images
  }

  /** What `parseDirectoryTree(xs)` produces: a valid store in which every id's directory
      segments lead to a node, every node holds exactly the images whose segments lead to it, in
      input order, and all images together are the input, none dropped and none merged. */
  ghost predicate BuiltFrom(h: seq<Node>, xs: seq<Image>)
  {
    && Valid(h)
    && (forall i {:trigger Walk(h, 0, DirsOf(xs[i].id))} :: 0 <= i < |xs| ==> Walk(h, 0, DirsOf(xs[i].id)).Some?)
    && (forall k {:trigger Placed(h, xs, k)} :: 0 <= k < |h| ==> h[k].images == Placed(h, xs, k))
    && multiset(AllImages(h)) == multiset(xs)
  }

  /** Walking `segs` from node `k` passes through node `c`, `k` itself included. */
  ghost predicate Visits(h: seq<Node>, k: nat, segs: seq<string>, c: nat)
    requires Valid(h) && k < |h|
    decreases |segs|
  {
    || k == c
    || (segs != [] &&
        (assert ChildrenOk(h, k);
         match FirstNamed(h, h[k].subdirs, segs[0])
         case None => false
         case Some(d) => Visits(h, d, segs[1..], c)))
  }

  /** The position in `xs` of the first image whose directory walk passes through node `c`, or
      `|xs|` when none does. */
  ghost function FirstVisit(h: seq<Node>, xs: seq<Image>, c: nat): (r: nat)
    requires Valid(h)
    ensures r <= |xs|
  {
    if xs == [] then 0
    else if Visits(h, 0, DirsOf(xs[0].id), c) then 0
    else 1 + FirstVisit(h, xs[1..], c)
  }

  /** The order in which `parseDirectoryTree(xs)` creates nodes: every node but the root is
      passed through by the directory walk of some image, and the subdirectories of each node
      are listed in the order in which the images first pass through them. */
  ghost predicate FirstSeenOrder(h: seq<Node>, xs: seq<Image>)
    requires Valid(h)
  {
    && (forall c :: 0 < c < |h| ==> Visited(h, xs, c))
    && (forall k :: 0 <= k < |h| ==> SiblingsInOrder(h, xs, k))
  }

  /** Some image of `xs` passes through node `c`. */
  ghost predicate Visited(h: seq<Node>, xs: seq<Image>, c: nat)
    requires Valid(h)
  {
    FirstVisit(h, xs, c) < |xs|
  }

  /** The subdirectories of node `k` are listed in the order the images of `xs` first pass
      through them. */
  ghost predicate SiblingsInOrder(h: seq<Node>, xs: seq<Image>, k: nat)
    requires Valid(h) && k < |h|
  {
    forall i, j :: 0 <= i < j < |h[k].subdirs| ==>
      FirstVisit(h, xs, h[k].subdirs[i]) < FirstVisit(h, xs, h[k].subdirs[j])
  }

  // ---------------------------------------------------------------------------------------------
  // parseDirectoryTree

  /** The nodes form a tree: every node but the root is listed as a subdirectory by some node,
      and no two nodes list a common subdirectory. With the increasing references of
      `ChildrenOk`, every node but the root has exactly one parent, at exactly one position,
      and the root has none. */
  ghost predicate SingleParent(h: seq<Node>)
  {
    && (forall c :: 0 < c < |h| ==> HasParent(h, c))
    && (forall a, b :: 0 <= a < b < |h| ==> NoCommonChild(h, a, b))
  }

  /** Some node lists `c` among its subdirectories. */
  ghost predicate HasParent(h: seq<Node>, c: nat)
  {
    exists k :: 0 <= k < |h| && c in h[k].subdirs
  }

  /** Nodes `a` and `b` list no subdirectory in common. */
  ghost predicate NoCommonChild(h: seq<Node>, a: nat, b: nat)
    requires a < |h| && b < |h|
  {
    forall c :: c in h[a].subdirs ==> c !in h[b].subdirs
  }

  /** The store after appending a subdirectory `dir` with path `path` under node `cur`. */
  function WithChild(h: seq<Node>, cur: nat, dir: string, path: string): seq<Node>
    requires cur < |h|
  {
    var h1 := h + [Node(dir, path, [], [])];
    h1[cur := h1[cur].(subdirs := h1[cur].subdirs + [|h|])]
  }

  /** The store after pushing image `x` onto node `cur`. */
  function WithImage(h: seq<Node>, cur: nat, x: Image): seq<Node>
    requires cur < |h|
  {
    h[cur := h[cur].(images := h[cur].images + [x])]
  }

  /** `b` is `a` grown: nodes only added at the end, and existing nodes keeping name and path
      while their lists only grow at the end. */
  ghost predicate Extends(a: seq<Node>, b: seq<Node>)
  {
    && |a| <= |b|
    && forall k :: 0 <= k < |a| ==>
         && b[k].name == a[k].name && b[k].path == a[k].path
         && a[k].subdirs <= b[k].subdirs && a[k].images <= b[k].images
  }

  /** Builds the tree: a fresh root, then each image added in input order (see `AddImage`). */
  method ParseDirectoryTree(images: seq<Image>) returns (h: seq<Node>)
    ensures BuiltFrom(h, images) && FirstSeenOrder(h, images) && SingleParent(h)
    ensures multiset(TreeImages(ToTree(h, 0))) == multiset(images)
    ensures images == [] ==> h == [EmptyRoot()]
  {
    h := [EmptyRoot()];
    EmptyBuilt();
    EmptySingleParent();
    var i := 0;
    ghost var done: seq<Image> := [];
    while i < |images|
      invariant 0 <= i <= |images| && done == images[..i]
      invariant BuiltFrom(h, done) && FirstSeenOrder(h, done) && SingleParent(h)
      invariant i == 0 ==> |h| == 1 && h[0].subdirs == [] && h[0].images == []
    {
      h := AddImage(h, done, images[i]);
      TakeOneMore(images, i);
      done := done + [images[i]];
      i := i + 1;
    }
    assert images[..|images|] == images;
    ServedImagesOnce(h, images);
    if images == [] {
      BuiltFromNothing(h);
    }
  }

  /** A valid store of one node without subdirectories or images is the fresh root. */
  lemma BuiltFromNothing(h: seq<Node>)
    requires Valid(h) && |h| == 1 && h[0].subdirs == [] && h[0].images == []
    ensures h == [EmptyRoot()]
  {
  }

  /** The fresh root alone is built from no image. */
  lemma EmptyBuilt()
    ensures BuiltFrom([EmptyRoot()], []) && FirstSeenOrder([EmptyRoot()], [])
  {
    var h := [EmptyRoot()];
    EmptyValid();
    assert Placed(h, [], 0) == [];
    assert AllImages(h) == AllImages([]) + h[0].images == [];
  }

  /** The fresh root alone is a tree. */
  lemma EmptySingleParent()
    ensures SingleParent([EmptyRoot()])
  {
  }

  /** The fresh root alone is a valid store. */
  lemma EmptyValid()
    ensures Valid([EmptyRoot()])
  {
    var h := [EmptyRoot()];
    assert h[0].subdirs == [] && h[0].images == [];
    assert ChildrenOk(h, 0);
  }

  /** The body of `images.forEach`: the id's directory segments are consumed from the root (see
      `Descend`) and the image is pushed onto the node reached. */
  method AddImage(h0: seq<Node>, ghost xs: seq<Image>, image: Image) returns (h: seq<Node>)
    requires BuiltFrom(h0, xs) && FirstSeenOrder(h0, xs) && SingleParent(h0)
    ensures BuiltFrom(h, xs + [image]) && FirstSeenOrder(h, xs + [image]) && SingleParent(h)
    ensures Extends(h0, h)
  {
    var parts := Split(image.id);
    var dirPath := parts[..|parts| - 1];
    var current;
    h, current := Descend(h0, xs, dirPath);
    ghost var before := h;
    h := h[current := h[current].(images := h[current].images + [image])];
    assert h == WithImage(before, current, image);
    PushStep(h0, before, current, image, xs);
  }

  /** The push that ends `AddImage`: on the store the descent left, pushing the image onto the
      node reached gives a store built from one more image, still in first-seen order and
      still a tree, that extends the store before the descent. */
  lemma PushStep(h0: seq<Node>, h1: seq<Node>, cur: nat, x: Image, xs: seq<Image>)
    requires BuiltFrom(h0, xs) && FirstSeenOrder(h0, xs)
    requires BuiltFrom(h1, xs) && SingleParent(h1)
    requires cur < |h1| && Walk(h1, 0, DirsOf(x.id)) == Some(cur)
    requires GrownEmpty(h0, h1) && OneNewChild(h0, h1)
    requires forall c :: |h0| <= c < |h1| ==> Visits(h1, 0, DirsOf(x.id), c)
    ensures var h := WithImage(h1, cur, x);
      && BuiltFrom(h, xs + [x]) && FirstSeenOrder(h, xs + [x]) && SingleParent(h)
      && Extends(h0, h)
  {
    var h := WithImage(h1, cur, x);
    ImageStep(h1, cur, x, xs);
    ImageValid(h1, cur, x);
    ImageLinks(h1, cur, x);
    OrderStep(h0, h1, h, x, xs, xs + [x]);
    SameLinksSingleParent(h1, h);
    ExtendsTrans(h0, h1, h);
  }

  /** The inner `dirPath.forEach` of the builder: from the root, each segment selects the
      exactly-named subdirectory, or a new one is appended with the accumulated path. The store
      stays built from the same images and the segments then lead to the node returned. */
  method Descend(h0: seq<Node>, ghost xs: seq<Image>, dirPath: seq<string>) returns (h: seq<Node>, current: nat)
    requires BuiltFrom(h0, xs) && SlashFree(dirPath) && SingleParent(h0)
    ensures BuiltFrom(h, xs) && SingleParent(h)
    ensures current < |h| && Walk(h, 0, dirPath) == Some(current)
    ensures GrownEmpty(h0, h) && OneNewChild(h0, h)
    ensures forall c :: |h0| <= c < |h| ==> Visits(h, 0, dirPath, c)
  {
    h := h0;
    current := 0;
    var currentPath := "";
    var j := 0;
    ghost var seen: seq<string> := [];
    DescentStart(h0, xs);
    while j < |dirPath|
      invariant 0 <= j <= |dirPath| && seen == dirPath[..j]
      invariant DescentOk(h0, h, seen, current, currentPath) && SingleParent(h)
    {
      var dir := dirPath[j];
      assert '/' !in dir;
      h, current, currentPath := Enter(h0, h, seen, current, currentPath, dir);
      TakeOneMore(dirPath, j);
      seen := seen + [dir];
      j := j + 1;
    }
    assert seen == dirPath;
    GrowKeepsImages(h0, h, xs);
  }

  /** One segment of the inner loop (lines 358-371): extend the accumulated path, then enter the
      subdirectory named `dir`, appending it first when there is none. */
  method Enter(ghost h0: seq<Node>, h: seq<Node>, ghost seen: seq<string>, current: nat,
               currentPath: string, dir: string)
    returns (h': seq<Node>, current': nat, currentPath': string)
    requires DescentOk(h0, h, seen, current, currentPath) && '/' !in dir && SingleParent(h)
    ensures DescentOk(h0, h', seen + [dir], current', currentPath') && SingleParent(h')
    ensures currentPath' == NextPath(currentPath, dir)
    ensures h' == h || |h'| == |h| + 1
  {
    assert ChildrenOk(h, current);
    currentPath' := if currentPath != "" then currentPath + "/" + dir else dir;
    var found := FirstNamed(h, h[current].subdirs, dir);
    if found.None? {
      DescentCreate(h0, h, seen, current, dir);
      ChildSingleParent(h, current, dir, currentPath');
      h' := WithChild(h, current, dir, currentPath');
      current' := |h|;
    } else {
      DescentFound(h0, h, seen, current, dir);
      h' := h;
      current' := found.value;
    }
  }

  /** The invariant of the inner loop after the segments `seen`: the store is `h0` grown by
      empty subdirectories, one new child at most per old node, the walk of `seen` ends at
      `current` with path `currentPath`, a node created by this walk is its last node and has
      no child yet, and the walk passes through every node created. */
  ghost predicate DescentOk(h0: seq<Node>, h: seq<Node>, seen: seq<string>, current: nat,
                            currentPath: string)
  {
    && Valid(h) && GrownEmpty(h0, h)
    && current < |h| && Walk(h, 0, seen) == Some(current)
    && currentPath == h[current].path
    && OneNewChild(h0, h)
    && (current < |h0| ==> |h| == |h0|)
    && (current >= |h0| ==> current == |h| - 1 && h[current].subdirs == [])
    && (forall c :: |h0| <= c < |h| ==> Visits(h, 0, seen, c))
  }

  /** Before the inner loop: the walk of no segment stays at the root. */
  lemma {:induction false} DescentStart(h0: seq<Node>, xs: seq<Image>)
    requires BuiltFrom(h0, xs)
    ensures DescentOk(h0, h0, [], 0, "")
  {
    assert Extends(h0, h0);
  }

  /** One step of the inner loop that creates the missing subdirectory `dir`. */
  lemma {:induction false} DescentCreate(h0: seq<Node>, h: seq<Node>, seen: seq<string>, current: nat, dir: string)
    requires current < |h| && DescentOk(h0, h, seen, current, h[current].path) && '/' !in dir
    requires ChildrenOk(h, current) && FirstNamed(h, h[current].subdirs, dir).None?
    ensures var path := NextPath(h[current].path, dir);
      DescentOk(h0, WithChild(h, current, dir, path), seen + [dir], |h|, path)
  {
    var path := NextPath(h[current].path, dir);
    ChildStep(h, current, dir, seen);
    ChainStep(h0, h, current, dir, seen);
    GrownTrans(h0, h, WithChild(h, current, dir, path));
  }

  /** One step of the inner loop that enters the existing subdirectory `dir`. */
  lemma {:induction false} DescentFound(h0: seq<Node>, h: seq<Node>, seen: seq<string>, current: nat, dir: string)
    requires current < |h| && DescentOk(h0, h, seen, current, h[current].path)
    requires ChildrenOk(h, current) && FirstNamed(h, h[current].subdirs, dir).Some?
    ensures DescentOk(h0, h, seen + [dir], FirstNamed(h, h[current].subdirs, dir).value,
                      NextPath(h[current].path, dir))
  {
    assert current < |h0| && |h| == |h0|;
    WalkFound(h, seen, current, dir);
  }

  // ---------------------------------------------------------------------------------------------
  // getDirectoryByPath

  /** The result of `getDirectoryByPath`: `null`, the root object itself (for the empty path),
      or the `{path, subdirs, images}` record of the node reached. */
  datatype Lookup = NotFound | RootNode | Listing(path: string, subdirs: seq<nat>, images: seq<Image>)

  /** Resolves `path` one `/`-segment at a time from the root; empty segments are kept, and the
      first segment without an exactly-named subdirectory gives `null`. */
  method GetDirectoryByPath(h: seq<Node>, path: string) returns (r: Lookup)
    requires Valid(h)
    ensures path == "" ==> r == RootNode
    ensures path != "" ==>
      match Walk(h, 0, Split(path))
      case None => r == NotFound
      case Some(m) => r == Listing(h[m].path, h[m].subdirs, h[m].images)
  {
    if path == "" {
      return RootNode;
    }
    var parts := Split(path);
    var current := 0;
    var i := 0;
    while i < |parts|
      invariant 0 <= i <= |parts|
      invariant current < |h| && Walk(h, 0, parts[..i]) == Some(current)
    {
      TakeOneMore(parts, i);
      WalkSnoc(h, 0, parts[..i], parts[i]);
      assert ChildrenOk(h, current);
      var found := FirstNamed(h, h[current].subdirs, parts[i]);
      if found.None? {
        WalkPrefixNone(h, parts, i + 1);
        return NotFound;
      }
      current := found.value;
      i := i + 1;
    }
    assert parts[..i] == parts;
    return Listing(h[current].path, h[current].subdirs, h[current].images);
  }

  // ---------------------------------------------------------------------------------------------
  // Lemmas: walking the store


  /** Walking one more segment is one more exact-name lookup. */
  lemma {:induction false} WalkSnoc(h: seq<Node>, k: nat, segs: seq<string>, d: string)
    requires Valid(h) && k < |h|
    ensures Walk(h, k, segs + [d]) ==
      match Walk(h, k, segs)
      case None => None
      case Some(m) => assert ChildrenOk(h, m); FirstNamed(h, h[m].subdirs, d)
    decreases |segs|
  {
    assert ChildrenOk(h, k);
    if segs == [] {
      assert segs + [d] == [d];
      match FirstNamed(h, h[k].subdirs, d)
      case None =>
      case Some(c) => assert [d][1..] == [];
    } else {
      assert (segs + [d])[0] == segs[0] && (segs + [d])[1..] == segs[1..] + [d];
      match FirstNamed(h, h[k].subdirs, segs[0])
      case None =>
      case Some(c) => WalkSnoc(h, c, segs[1..], d);
    }
  }

  /** Descending into an existing subdirectory walks one segment further, to a node whose path
      extends the parent's. */
  lemma WalkFound(h: seq<Node>, segs: seq<string>, cur: nat, d: string)
    requires Valid(h) && cur < |h| && Walk(h, 0, segs) == Some(cur)
    requires ChildrenOk(h, cur) && FirstNamed(h, h[cur].subdirs, d).Some?
    ensures var c := FirstNamed(h, h[cur].subdirs, d).value;
      c < |h| && Walk(h, 0, segs + [d]) == Some(c) && h[c].path == NextPath(h[cur].path, d)
  {
    WalkSnoc(h, 0, segs, d);
  }

  /** Once a prefix of the segments cannot be walked, neither can the whole. */
  lemma WalkPrefixNone(h: seq<Node>, segs: seq<string>, n: nat)
    requires Valid(h) && n <= |segs| && Walk(h, 0, segs[..n]).None?
    ensures Walk(h, 0, segs).None?
  {
    WalkSplitAt(h, 0, segs, n);
  }

  /** Walking `segs` is walking its first `n` segments, then the rest. */
  lemma {:induction false} WalkSplitAt(h: seq<Node>, k: nat, segs: seq<string>, n: nat)
    requires Valid(h) && k < |h| && n <= |segs|
    ensures Walk(h, k, segs) ==
      match Walk(h, k, segs[..n])
      case None => None
      case Some(m) => Walk(h, m, segs[n..])
    decreases n
  {
    if n == 0 {
      assert segs[n..] == segs;
    } else {
      assert ChildrenOk(h, k);
      assert segs[..n][0] == segs[0] && segs[..n][1..] == segs[1..][..n - 1];
      assert segs[n..] == segs[1..][n - 1..];
      match FirstNamed(h, h[k].subdirs, segs[0])
      case None =>
      case Some(c) => WalkSplitAt(h, c, segs[1..], n - 1);
    }
  }

  /** The node reached by `segs` has the path the builder's accumulator computes for `segs`. */
  lemma {:induction false} WalkPath(h: seq<Node>, k: nat, segs: seq<string>)
    requires Valid(h) && k < |h| && Walk(h, k, segs).Some?
    ensures h[Walk(h, k, segs).value].path == PathFrom(h[k].path, segs)
    decreases |segs|
  {
    if segs != [] {
      assert ChildrenOk(h, k);
      var c := FirstNamed(h, h[k].subdirs, segs[0]).value;
      WalkPath(h, c, segs[1..]);
    }
  }

  /** Nodes are only ever reached forward: the root is reached by the empty walk only. */
  lemma WalkToRoot(h: seq<Node>, segs: seq<string>)
    requires Valid(h) && Walk(h, 0, segs) == Some(0)
    ensures segs == []
  {
  }

  /** `first` found among `ids` is still the first found among a longer list with the same names
      for the old nodes. */
  lemma {:induction false} FirstNamedGrow(a: seq<Node>, b: seq<Node>, ids: seq<nat>, more: seq<nat>, name: string)
    requires forall i :: 0 <= i < |ids| ==> ids[i] < |a|
    requires forall i :: 0 <= i < |more| ==> more[i] < |b|
    requires ids <= more && |a| <= |b|
    requires forall k :: 0 <= k < |a| ==> b[k].name == a[k].name
    requires FirstNamed(a, ids, name).Some?
    ensures FirstNamed(b, more, name) == FirstNamed(a, ids, name)
  {
    assert more[0] == ids[0];
    if a[ids[0]].name != name {
      FirstNamedGrow(a, b, ids[1..], more[1..], name);
    }
  }

  /** A walk that succeeds keeps succeeding, to the same node, as the store grows. */
  lemma {:induction false} WalkGrow(a: seq<Node>, b: seq<Node>, k: nat, segs: seq<string>)
    requires Valid(a) && Valid(b) && Extends(a, b) && k < |a|
    requires Walk(a, k, segs).Some?
    ensures Walk(b, k, segs) == Walk(a, k, segs)
    decreases |segs|
  {
    if segs != [] {
      assert ChildrenOk(a, k) && ChildrenOk(b, k);
      FirstNamedGrow(a, b, a[k].subdirs, b[k].subdirs, segs[0]);
      var c := FirstNamed(a, a[k].subdirs, segs[0]).value;
      WalkGrow(a, b, c, segs[1..]);
    }
  }

  /** Where earlier images land does not change as the store grows. */
  lemma {:induction false} PlacedGrow(a: seq<Node>, b: seq<Node>, xs: seq<Image>, k: nat)
    requires Valid(a) && Valid(b) && Extends(a, b)
    requires forall i :: 0 <= i < |xs| ==> Walk(a, 0, DirsOf(xs[i].id)).Some?
    ensures Placed(b, xs, k) == Placed(a, xs, k)
    decreases |xs|
  {
    if xs != [] {
      var x := xs[|xs| - 1];
      WalkGrow(a, b, 0, DirsOf(x.id));
      PlacedGrow(a, b, xs[..|xs| - 1], k);
    }
  }

  /** Stores with the same image lists list the same images. */
  lemma {:induction false} AllImagesSame(a: seq<Node>, b: seq<Node>)
    requires |a| == |b| && forall k :: 0 <= k < |a| ==> a[k].images == b[k].images
    ensures AllImages(a) == AllImages(b)
    decreases |a|
  {
    if a != [] {
      AllImagesSame(a[..|a| - 1], b[..|b| - 1]);
    }
  }

  /** Pushing one image onto one node adds exactly that image to the whole store. */
  lemma AllImagesPush(h: seq<Node>, cur: nat, x: Image)
    requires cur < |h|
    ensures multiset(AllImages(WithImage(h, cur, x))) == multiset(AllImages(h)) + multiset{x}
  {
    AllImagesAdd(h, WithImage(h, cur, x), cur, x);
  }

  /** Two stores whose image lists differ only by one image appended at node `cur` list the
      same images but that one. */
  lemma {:induction false} AllImagesAdd(a: seq<Node>, b: seq<Node>, cur: nat, x: Image)
    requires |a| == |b| && cur < |a|
    requires forall k :: 0 <= k < |a| && k != cur ==> b[k].images == a[k].images
    requires b[cur].images == a[cur].images + [x]
    ensures multiset(AllImages(b)) == multiset(AllImages(a)) + multiset{x}
    decreases |a|
  {
    var n := |a| - 1;
    assert AllImages(a) == AllImages(a[..n]) + a[n].images;
    assert AllImages(b) == AllImages(b[..n]) + b[n].images;
    if cur == n {
      AllImagesSame(b[..n], a[..n]);
    } else {
      AllImagesAdd(a[..n], b[..n], cur, x);
    }
  }

  // ---------------------------------------------------------------------------------------------
  // Lemmas: the steps of the builder

  /** Node `k` keeps valid links when the store grows without touching its links, nor the
      names and paths of the nodes already there. */
  lemma LinksKept(a: seq<Node>, b: seq<Node>, k: nat)
    requires k < |a| <= |b| && ChildrenOk(a, k)
    requires b[k].subdirs == a[k].subdirs && b[k].path == a[k].path
    requires forall i :: 0 <= i < |a| ==> b[i].name == a[i].name && b[i].path == a[i].path
    ensures ChildrenOk(b, k)
  {
  }

  /** Node `k` keeps valid links when a fresh, differently named node at the end of the store
      is added as its last subdirectory. */
  lemma LinkAdded(a: seq<Node>, b: seq<Node>, k: nat)
    requires k < |a| < |b| && ChildrenOk(a, k)
    requires b[k].subdirs == a[k].subdirs + [|a|] && b[k].path == a[k].path
    requires forall i :: 0 <= i < |a| ==> b[i].name == a[i].name && b[i].path == a[i].path
    requires forall i :: 0 <= i < |a[k].subdirs| ==> a[a[k].subdirs[i]].name != b[|a|].name
    requires b[|a|].path == NextPath(a[k].path, b[|a|].name)
    ensures ChildrenOk(b, k)
  {
    var sub, sub' := a[k].subdirs, b[k].subdirs;
    forall i | 0 <= i < |sub'| ensures k < sub'[i] < |b| {
      if i < |sub| { assert sub'[i] == sub[i]; }
    }
    forall i, j | 0 <= i < j < |sub'| ensures sub'[i] < sub'[j] && b[sub'[i]].name != b[sub'[j]].name {
      assert sub'[i] == sub[i];
      if j < |sub| { assert sub'[j] == sub[j]; }
    }
    forall i | 0 <= i < |sub'| ensures b[sub'[i]].path == NextPath(b[k].path, b[sub'[i]].name) {
      if i < |sub| { assert sub'[i] == sub[i]; }
    }
  }

  /** What appending a subdirectory changes: one node more at the end, and one reference more
      at the end of `cur`'s list. */
  lemma WithChildShape(h: seq<Node>, cur: nat, dir: string, path: string)
    requires cur < |h|
    ensures var h' := WithChild(h, cur, dir, path);
      && |h'| == |h| + 1 && h'[|h|] == Node(dir, path, [], [])
      && (forall i :: 0 <= i < |h| && i != cur ==> h'[i] == h[i])
      && h'[cur] == h[cur].(subdirs := h[cur].subdirs + [|h|])
  {
  }

  /** Appending a missing subdirectory under `cur` keeps the store valid. */
  lemma ChildValid(h: seq<Node>, cur: nat, dir: string)
    requires Valid(h) && cur < |h|
    requires ChildrenOk(h, cur) && '/' !in dir && FirstNamed(h, h[cur].subdirs, dir).None?
    ensures Valid(WithChild(h, cur, dir, NextPath(h[cur].path, dir)))
  {
    var path := NextPath(h[cur].path, dir);
    var h' := WithChild(h, cur, dir, path);
    WithChildShape(h, cur, dir, path);
    ChildNamesOk(h, h', cur, dir, path);
    ChildLinksOk(h, h', cur, dir, path);
  }

  /** Names stay free of separators and paths do not start with one. */
  lemma ChildNamesOk(h: seq<Node>, h': seq<Node>, cur: nat, dir: string, path: string)
    requires Valid(h) && cur < |h| && '/' !in dir && path == NextPath(h[cur].path, dir)
    requires |h'| == |h| + 1 && h'[|h|] == Node(dir, path, [], [])
    requires forall i :: 0 <= i < |h| ==> h'[i].name == h[i].name && h'[i].path == h[i].path
    ensures forall k :: 0 <= k < |h'| ==> '/' !in h'[k].name
    ensures forall k :: 0 <= k < |h'| ==> h'[k].path == "" || h'[k].path[0] != '/'
  {
    assert path == "" || path[0] != '/' by {
      if h[cur].path != "" {
        assert path[0] == h[cur].path[0];
      } else if dir != "" {
        assert path[0] == dir[0];
      }
    }
    forall k | 0 <= k < |h'| ensures '/' !in h'[k].name && (h'[k].path == "" || h'[k].path[0] != '/') {
      if k < |h| {
        assert h'[k].name == h[k].name && h'[k].path == h[k].path;
      }
    }
  }

  /** Every node keeps valid links: `cur` gains the new node, the others are untouched. */
  lemma ChildLinksOk(h: seq<Node>, h': seq<Node>, cur: nat, dir: string, path: string)
    requires Valid(h) && cur < |h| && path == NextPath(h[cur].path, dir)
    requires ChildrenOk(h, cur) && FirstNamed(h, h[cur].subdirs, dir).None?
    requires |h'| == |h| + 1 && h'[|h|] == Node(dir, path, [], [])
    requires forall i :: 0 <= i < |h| && i != cur ==> h'[i] == h[i]
    requires h'[cur] == h[cur].(subdirs := h[cur].subdirs + [|h|])
    ensures forall k :: 0 <= k < |h'| ==> ChildrenOk(h', k)
  {
    assert forall i :: 0 <= i < |h| ==> h'[i].name == h[i].name && h'[i].path == h[i].path;
    forall k | 0 <= k < |h'| ensures ChildrenOk(h', k) {
      assert ChildrenOk(h, cur);
      if k == cur {
        LinkAdded(h, h', k);
      } else if k < |h| {
        assert ChildrenOk(h, k);
        LinksKept(h, h', k);
      }
    }
  }

  /** `b` is `a` grown by subdirectories only: existing nodes keep their images and the nodes
      added hold none. */
  ghost predicate GrownEmpty(a: seq<Node>, b: seq<Node>)
  {
    && Extends(a, b)
    && (forall k :: 0 <= k < |a| ==> b[k].images == a[k].images)
    && (forall k :: |a| <= k < |b| ==> b[k].images == [])
  }

  /** Growing by subdirectories twice is growing by subdirectories once. */
  lemma GrownTrans(a: seq<Node>, b: seq<Node>, c: seq<Node>)
    requires GrownEmpty(a, b) && GrownEmpty(b, c)
    ensures GrownEmpty(a, c)
  {
    forall k | 0 <= k < |a|
      ensures c[k].name == a[k].name && c[k].path == a[k].path
      ensures a[k].subdirs <= c[k].subdirs && c[k].images == a[k].images
    {
      assert b[k].name == a[k].name && b[k].path == a[k].path && a[k].subdirs <= b[k].subdirs;
      assert b[k].subdirs <= c[k].subdirs;
    }
    forall k | |a| <= k < |c| ensures c[k].images == [] {
      if k < |b| {
        assert b[k].images == [];
      }
    }
  }

  /** Growing a built store without adding images keeps every image where it was. */
  lemma GrowKeepsImages(a: seq<Node>, b: seq<Node>, xs: seq<Image>)
    requires BuiltFrom(a, xs) && Valid(b) && GrownEmpty(a, b)
    ensures BuiltFrom(b, xs)
  {
    forall i | 0 <= i < |xs| ensures Walk(b, 0, DirsOf(xs[i].id)).Some? {
      WalkGrow(a, b, 0, DirsOf(xs[i].id));
    }
    forall k | 0 <= k < |b| ensures b[k].images == Placed(b, xs, k) {
      PlacedGrow(a, b, xs, k);
      if k >= |a| {
        PlacedBeyond(a, xs, k);
      } else {
        assert a[k].images == Placed(a, xs, k);
      }
    }
    AllImagesAppendEmpty(a, b);
  }

  /** A store grown by nodes without images lists the same images. */
  lemma {:induction false} AllImagesAppendEmpty(a: seq<Node>, b: seq<Node>)
    requires |a| <= |b| && forall k :: |a| <= k < |b| ==> b[k].images == []
    requires forall k :: 0 <= k < |a| ==> b[k].images == a[k].images
    ensures AllImages(b) == AllImages(a)
    decreases |b|
  {
    if |b| == |a| {
      AllImagesSame(b, a);
    } else {
      var b' := b[..|b| - 1];
      AllImagesAppendEmpty(a, b');
      assert AllImages(b) == AllImages(b') + b[|b| - 1].images;
    }
  }

  /** Appending a missing subdirectory keeps the store valid, adds no image, and makes the walk
      one segment longer reach the new node. */
  lemma ChildStep(h: seq<Node>, cur: nat, dir: string, segs: seq<string>)
    requires Valid(h) && cur < |h| && Walk(h, 0, segs) == Some(cur)
    requires ChildrenOk(h, cur) && '/' !in dir && FirstNamed(h, h[cur].subdirs, dir).None?
    ensures var h' := WithChild(h, cur, dir, NextPath(h[cur].path, dir));
      && Valid(h') && GrownEmpty(h, h')
      && Walk(h', 0, segs + [dir]) == Some(|h|)
      && h'[|h|].path == NextPath(h[cur].path, dir)
  {
    var path := NextPath(h[cur].path, dir);
    var h' := WithChild(h, cur, dir, path);
    WithChildShape(h, cur, dir, path);
    ChildValid(h, cur, dir);
    assert GrownEmpty(h, h') by {
      forall k | 0 <= k < |h|
        ensures h'[k].name == h[k].name && h'[k].path == h[k].path
        ensures h[k].subdirs <= h'[k].subdirs && h'[k].images == h[k].images
      {
        if k != cur {
          assert h'[k] == h[k];
        }
      }
    }
    ChildWalk(h, h', cur, dir, segs);
  }

  /** In the grown store the walk one segment longer ends at the appended node. */
  lemma ChildWalk(h: seq<Node>, h': seq<Node>, cur: nat, dir: string, segs: seq<string>)
    requires Valid(h) && Valid(h') && Extends(h, h') && cur < |h| && Walk(h, 0, segs) == Some(cur)
    requires ChildrenOk(h, cur) && FirstNamed(h, h[cur].subdirs, dir).None?
    requires |h'| == |h| + 1 && h'[|h|].name == dir && h'[cur].subdirs == h[cur].subdirs + [|h|]
    ensures Walk(h', 0, segs + [dir]) == Some(|h|)
  {
    WalkGrow(h, h', 0, segs);
    WalkSnoc(h', 0, segs, dir);
    FirstNamedSnoc(h', h[cur].subdirs, |h|, dir);
    assert FirstNamed(h', h[cur].subdirs, dir).None?;
  }

  /** No image lands on a node beyond the store. */
  lemma {:induction false} PlacedBeyond(h: seq<Node>, xs: seq<Image>, k: nat)
    requires Valid(h) && k >= |h|
    ensures Placed(h, xs, k) == []
    decreases |xs|
  {
    if xs != [] {
      PlacedBeyond(h, xs[..|xs| - 1], k);
    }
  }

  /** Looking up a name in a list with one more reference at the end. */
  lemma {:induction false} FirstNamedSnoc(h: seq<Node>, ids: seq<nat>, c: nat, name: string)
    requires forall i :: 0 <= i < |ids| ==> ids[i] < |h|
    requires c < |h|
    ensures FirstNamed(h, ids + [c], name) ==
      if FirstNamed(h, ids, name).Some? then FirstNamed(h, ids, name)
      else if h[c].name == name then Some(c) else None
  {
    if ids == [] {
      assert ids + [c] == [c];
    } else {
      assert (ids + [c])[0] == ids[0] && (ids + [c])[1..] == ids[1..] + [c];
      FirstNamedSnoc(h, ids[1..], c, name);
    }
  }

  /** Pushing an image changes no link, name or path, so the store stays valid and grown. */
  lemma ImageValid(h: seq<Node>, cur: nat, x: Image)
    requires Valid(h) && cur < |h|
    ensures Valid(WithImage(h, cur, x)) && Extends(h, WithImage(h, cur, x))
  {
    var h' := WithImage(h, cur, x);
    forall k | 0 <= k < |h'| ensures ChildrenOk(h', k) {
      assert ChildrenOk(h, k);
      LinksKept(h, h', k);
    }
  }

  /** Pushing an image onto the node its segments lead to extends the built tree by that image. */
  lemma ImageStep(h: seq<Node>, cur: nat, x: Image, xs: seq<Image>)
    requires BuiltFrom(h, xs) && cur < |h| && Walk(h, 0, DirsOf(x.id)) == Some(cur)
    ensures BuiltFrom(WithImage(h, cur, x), xs + [x])
  {
    var h' := WithImage(h, cur, x);
    ImageValid(h, cur, x);
    WalkGrow(h, h', 0, DirsOf(x.id));
    ImageWalks(h, h', x, xs);
    ImagePlacement(h, cur, x, xs);
    AllImagesPush(h, cur, x);
  }

  /** After the push every image of the longer input still has its directory. */
  lemma ImageWalks(h: seq<Node>, h': seq<Node>, x: Image, xs: seq<Image>)
    requires BuiltFrom(h, xs) && Valid(h') && Extends(h, h') && Walk(h', 0, DirsOf(x.id)).Some?
    ensures var ys := xs + [x]; forall i :: 0 <= i < |ys| ==> Walk(h', 0, DirsOf(ys[i].id)).Some?
  {
    var ys := xs + [x];
    forall i | 0 <= i < |ys| ensures Walk(h', 0, DirsOf(ys[i].id)).Some? {
      if i < |xs| {
        assert ys[i] == xs[i];
        WalkGrow(h, h', 0, DirsOf(xs[i].id));
      }
    }
  }

  /** After the push node `cur` holds its old images and `x`, and every other node what it had:
      exactly the images placed there by the longer input. */
  lemma ImagePlacement(h: seq<Node>, cur: nat, x: Image, xs: seq<Image>)
    requires BuiltFrom(h, xs) && cur < |h| && Walk(h, 0, DirsOf(x.id)) == Some(cur)
    requires Valid(WithImage(h, cur, x)) && Extends(h, WithImage(h, cur, x))
    requires Walk(WithImage(h, cur, x), 0, DirsOf(x.id)) == Some(cur)
    ensures var h' := WithImage(h, cur, x);
      forall k :: 0 <= k < |h'| ==> h'[k].images == Placed(h', xs + [x], k)
  {
    var h' := WithImage(h, cur, x);
    var ys := xs + [x];
    assert ys[..|ys| - 1] == xs && ys[|ys| - 1] == x;
    forall k | 0 <= k < |h'| ensures h'[k].images == Placed(h', ys, k) {
      PlacedGrow(h, h', xs, k);
      assert h[k].images == Placed(h, xs, k);
      assert Placed(h', ys, k) == Placed(h', xs, k) + if k == cur then [x] else [];
    }
  }

  // ---------------------------------------------------------------------------------------------
  // Lemmas: the order of subdirectories

  /** `b` grew from `a` along a single walk: each old node gained at most one subdirectory, a
      new node placed at the end of its list, and each new node has at most one subdirectory. */
  ghost predicate OneNewChild(a: seq<Node>, b: seq<Node>)
    requires |a| <= |b|
  {
    && (forall k :: 0 <= k < |a| ==>
          || b[k].subdirs == a[k].subdirs
          || (|b[k].subdirs| == |a[k].subdirs| + 1 && b[k].subdirs[|a[k].subdirs|] >= |a|))
    && (forall k :: |a| <= k < |b| ==> |b[k].subdirs| <= 1)
  }

  /** Appending a subdirectory at the end of the current walk keeps the growth to one chain, and
      the longer walk passes through every node added since `h0`. */
  lemma {:induction false} ChainStep(h0: seq<Node>, h: seq<Node>, cur: nat, dir: string, seen: seq<string>)
    requires Valid(h) && GrownEmpty(h0, h) && OneNewChild(h0, h) && cur < |h|
    requires cur < |h0| ==> |h| == |h0|
    requires cur >= |h0| ==> cur == |h| - 1 && h[cur].subdirs == []
    requires Walk(h, 0, seen) == Some(cur)
    requires forall c :: |h0| <= c < |h| ==> Visits(h, 0, seen, c)
    requires var h' := WithChild(h, cur, dir, NextPath(h[cur].path, dir));
      Valid(h') && Extends(h, h') && Walk(h', 0, seen + [dir]) == Some(|h|)
    ensures var h' := WithChild(h, cur, dir, NextPath(h[cur].path, dir));
      && OneNewChild(h0, h') && h'[|h|].subdirs == []
      && (forall c :: |h0| <= c < |h'| ==> Visits(h', 0, seen + [dir], c))
  {
    var h' := WithChild(h, cur, dir, NextPath(h[cur].path, dir));
    WithChildShape(h, cur, dir, NextPath(h[cur].path, dir));
    ChainLinks(h0, h, h', cur);
    ChainVisits(h0, h, h', cur, dir, seen);
  }

  /** The subdirectory lists after appending node `|h|` under `cur`, the end of the chain. */
  lemma {:induction false} ChainLinks(h0: seq<Node>, h: seq<Node>, h': seq<Node>, cur: nat)
    requires Valid(h) && Extends(h0, h) && OneNewChild(h0, h) && cur < |h|
    requires cur < |h0| ==> |h| == |h0|
    requires cur >= |h0| ==> cur == |h| - 1 && h[cur].subdirs == []
    requires |h'| == |h| + 1 && h'[|h|].subdirs == []
    requires forall i :: 0 <= i < |h| && i != cur ==> h'[i] == h[i]
    requires h'[cur].subdirs == h[cur].subdirs + [|h|]
    ensures OneNewChild(h0, h')
  {
    forall k | 0 <= k < |h0|
      ensures || h'[k].subdirs == h0[k].subdirs
              || (|h'[k].subdirs| == |h0[k].subdirs| + 1 && h'[k].subdirs[|h0[k].subdirs|] >= |h0|)
    {
      if k != cur {
        assert h'[k] == h[k];
      } else {
        assert ChildrenOk(h, k);
        assert |h| == |h0|;
        assert h[k].subdirs == h0[k].subdirs;
        assert h'[k].subdirs == h0[k].subdirs + [|h|];
      }
    }
    forall k | |h0| <= k < |h'| ensures |h'[k].subdirs| <= 1 {
      if k < |h| && k != cur {
        assert h'[k] == h[k];
      }
    }
  }

  /** After appending node `|h|` at the end of the walk, the longer walk passes through every
      node added since `h0`. */
  lemma {:induction false} ChainVisits(h0: seq<Node>, h: seq<Node>, h': seq<Node>, cur: nat, dir: string, seen: seq<string>)
    requires Valid(h) && Valid(h') && Extends(h, h') && |h'| == |h| + 1 && cur < |h|
    requires Walk(h, 0, seen) == Some(cur) && Walk(h', 0, seen + [dir]) == Some(|h|)
    requires forall c :: |h0| <= c < |h| ==> Visits(h, 0, seen, c)
    ensures forall c :: |h0| <= c < |h'| ==> Visits(h', 0, seen + [dir], c)
  {
    forall c | |h0| <= c < |h'| ensures Visits(h', 0, seen + [dir], c) {
      if c < |h| {
        VisitsGrow(h, h', 0, seen, c);
        VisitsSnoc(h', 0, seen, dir, c);
      } else {
        WalkVisits(h', 0, seen + [dir]);
      }
    }
  }

  /** A walk that succeeds passes through the node it reaches. */
  lemma {:induction false} WalkVisits(h: seq<Node>, k: nat, segs: seq<string>)
    requires Valid(h) && k < |h| && Walk(h, k, segs).Some?
    ensures Visits(h, k, segs, Walk(h, k, segs).value)
    decreases |segs|
  {
    if segs != [] {
      assert ChildrenOk(h, k);
      var e := FirstNamed(h, h[k].subdirs, segs[0]).value;
      WalkVisits(h, e, segs[1..]);
    }
  }

  /** A longer walk passes through every node the shorter one passes through. */
  lemma {:induction false} VisitsSnoc(h: seq<Node>, k: nat, segs: seq<string>, d: string, c: nat)
    requires Valid(h) && k < |h| && Visits(h, k, segs, c)
    ensures Visits(h, k, segs + [d], c)
    decreases |segs|
  {
    if k != c {
      assert ChildrenOk(h, k);
      assert (segs + [d])[0] == segs[0] && (segs + [d])[1..] == segs[1..] + [d];
      var e := FirstNamed(h, h[k].subdirs, segs[0]).value;
      VisitsSnoc(h, e, segs[1..], d, c);
    }
  }

  /** The nodes a walk that succeeds passes through do not change as the store grows. */
  lemma {:induction false} VisitsGrow(a: seq<Node>, b: seq<Node>, k: nat, segs: seq<string>, c: nat)
    requires Valid(a) && Valid(b) && Extends(a, b) && k < |a|
    requires Walk(a, k, segs).Some?
    ensures Visits(b, k, segs, c) == Visits(a, k, segs, c)
    decreases |segs|
  {
    if k != c && segs != [] {
      assert ChildrenOk(a, k) && ChildrenOk(b, k);
      FirstNamedGrow(a, b, a[k].subdirs, b[k].subdirs, segs[0]);
      var e := FirstNamed(a, a[k].subdirs, segs[0]).value;
      VisitsGrow(a, b, e, segs[1..], c);
    }
  }

  /** No walk passes through a node beyond the store. */
  lemma {:induction false} VisitsBeyond(h: seq<Node>, k: nat, segs: seq<string>, c: nat)
    requires Valid(h) && k < |h| && c >= |h|
    ensures !Visits(h, k, segs, c)
    decreases |segs|
  {
    if segs != [] {
      assert ChildrenOk(h, k);
      match FirstNamed(h, h[k].subdirs, segs[0])
      case None =>
      case Some(e) => VisitsBeyond(h, e, segs[1..], c);
    }
  }

  /** `FirstVisit` is the first position whose image passes through `c`. */
  lemma {:induction false} FirstVisitIsFirst(h: seq<Node>, xs: seq<Image>, c: nat)
    requires Valid(h)
    ensures FirstVisit(h, xs, c) < |xs| ==> Visits(h, 0, DirsOf(xs[FirstVisit(h, xs, c)].id), c)
    ensures forall q :: 0 <= q < FirstVisit(h, xs, c) ==> !Visits(h, 0, DirsOf(xs[q].id), c)
    decreases |xs|
  {
    if xs != [] && !Visits(h, 0, DirsOf(xs[0].id), c) {
      var rest := xs[1..];
      FirstVisitIsFirst(h, rest, c);
      forall q | 0 <= q < FirstVisit(h, xs, c) ensures !Visits(h, 0, DirsOf(xs[q].id), c) {
        if q > 0 {
          assert xs[q] == rest[q - 1];
        }
      }
      if FirstVisit(h, xs, c) < |xs| {
        assert xs[FirstVisit(h, xs, c)] == rest[FirstVisit(h, rest, c)];
      }
    }
  }

  /** First visits by images whose walks succeed do not change as the store grows. */
  lemma {:induction false} FirstVisitGrow(a: seq<Node>, b: seq<Node>, xs: seq<Image>, c: nat)
    requires Valid(a) && Valid(b) && Extends(a, b)
    requires forall i :: 0 <= i < |xs| ==> Walk(a, 0, DirsOf(xs[i].id)).Some?
    ensures FirstVisit(b, xs, c) == FirstVisit(a, xs, c)
    decreases |xs|
  {
    if xs != [] {
      VisitsGrow(a, b, 0, DirsOf(xs[0].id), c);
      assert forall i :: 0 <= i < |xs| - 1 ==> xs[1..][i] == xs[i + 1];
      FirstVisitGrow(a, b, xs[1..], c);
    }
  }

  /** A node beyond the store is visited by no image. */
  lemma {:induction false} FirstVisitBeyond(h: seq<Node>, xs: seq<Image>, c: nat)
    requires Valid(h) && c >= |h|
    ensures FirstVisit(h, xs, c) == |xs|
    decreases |xs|
  {
    if xs != [] {
      VisitsBeyond(h, 0, DirsOf(xs[0].id), c);
      FirstVisitBeyond(h, xs[1..], c);
    }
  }

  /** The first visit in a longer input: the old one if there was one, otherwise the new
      image's position if it passes through the node. */
  lemma {:induction false} FirstVisitSnoc(h: seq<Node>, xs: seq<Image>, x: Image, c: nat)
    requires Valid(h)
    ensures FirstVisit(h, xs + [x], c) ==
      if FirstVisit(h, xs, c) < |xs| then FirstVisit(h, xs, c)
      else if Visits(h, 0, DirsOf(x.id), c) then |xs| else |xs| + 1
    decreases |xs|
  {
    if xs == [] {
      assert xs + [x] == [x] && [x][1..] == [];
    } else {
      assert (xs + [x])[0] == xs[0] && (xs + [x])[1..] == xs[1..] + [x];
      FirstVisitSnoc(h, xs[1..], x, c);
    }
  }

  /** Growing twice is growing once. */
  lemma {:induction false} ExtendsTrans(a: seq<Node>, b: seq<Node>, c: seq<Node>)
    requires Extends(a, b) && Extends(b, c)
    ensures Extends(a, c)
  {
    forall k | 0 <= k < |a|
      ensures c[k].name == a[k].name && c[k].path == a[k].path
      ensures a[k].subdirs <= c[k].subdirs && a[k].images <= c[k].images
    {
      assert a[k].subdirs <= b[k].subdirs && b[k].subdirs <= c[k].subdirs;
      assert a[k].images <= b[k].images && b[k].images <= c[k].images;
    }
  }

  /** `b` has the links of `a`: the same nodes with the same subdirectory lists. */
  ghost predicate SameLinks(a: seq<Node>, b: seq<Node>)
  {
    |a| == |b| && forall k :: 0 <= k < |a| ==> b[k].subdirs == a[k].subdirs
  }

  /** Appending a child under `cur` keeps the store a tree: the new node's only parent is `cur`,
      and no old node lists it. */
  lemma ChildSingleParent(h: seq<Node>, cur: nat, dir: string, path: string)
    requires Valid(h) && cur < |h| && SingleParent(h)
    ensures SingleParent(WithChild(h, cur, dir, path))
  {
    var h' := WithChild(h, cur, dir, path);
    assert h'[cur].subdirs == h[cur].subdirs + [|h|];
    forall k | 0 <= k < |h| ensures |h| !in h[k].subdirs {
      assert ChildrenOk(h, k);
    }
    forall c | 0 < c < |h'| ensures HasParent(h', c) {
      if c == |h| {
        assert c in h'[cur].subdirs;
      } else {
        assert HasParent(h, c);
        var k :| 0 <= k < |h| && c in h[k].subdirs;
        assert c in h'[k].subdirs;
      }
    }
    forall a, b | 0 <= a < b < |h'| ensures NoCommonChild(h', a, b) {
      if b < |h| {
        assert NoCommonChild(h, a, b);
        forall c | c in h'[a].subdirs ensures c !in h'[b].subdirs {
          if c == |h| {
            assert a == cur;
          }
        }
      } else {
        assert h'[b].subdirs == [];
      }
    }
  }

  /** Changing no subdirectory list keeps the store a tree. */
  lemma SameLinksSingleParent(a: seq<Node>, b: seq<Node>)
    requires SingleParent(a) && SameLinks(a, b)
    ensures SingleParent(b)
  {
    forall c | 0 < c < |b| ensures HasParent(b, c) {
      assert HasParent(a, c);
      var k :| 0 <= k < |a| && c in a[k].subdirs;
      assert c in b[k].subdirs;
    }
    forall i, j | 0 <= i < j < |b| ensures NoCommonChild(b, i, j) {
      assert NoCommonChild(a, i, j);
    }
  }

  /** Pushing an image changes no subdirectory list. */
  lemma {:induction false} ImageLinks(h: seq<Node>, cur: nat, x: Image)
    requires cur < |h|
    ensures SameLinks(h, WithImage(h, cur, x))
  {
  }

  /** A lookup depends only on the names of the referenced nodes. */
  lemma {:induction false} FirstNamedSameNames(a: seq<Node>, b: seq<Node>, ids: seq<nat>, name: string)
    requires forall i :: 0 <= i < |ids| ==> ids[i] < |a|
    requires |a| == |b| && forall k :: 0 <= k < |a| ==> b[k].name == a[k].name
    ensures FirstNamed(b, ids, name) == FirstNamed(a, ids, name)
  {
    if ids != [] && a[ids[0]].name != name {
      FirstNamedSameNames(a, b, ids[1..], name);
    }
  }

  /** Walks pass through the same nodes in two stores with the same links and names. */
  lemma {:induction false} VisitsSameLinks(a: seq<Node>, b: seq<Node>, k: nat, segs: seq<string>, c: nat)
    requires Valid(a) && Valid(b) && Extends(a, b) && SameLinks(a, b) && k < |a|
    ensures Visits(b, k, segs, c) == Visits(a, k, segs, c)
    decreases |segs|
  {
    if k != c && segs != [] {
      assert ChildrenOk(a, k) && ChildrenOk(b, k);
      FirstNamedSameNames(a, b, a[k].subdirs, segs[0]);
      match FirstNamed(a, a[k].subdirs, segs[0])
      case None =>
      case Some(e) => VisitsSameLinks(a, b, e, segs[1..], c);
    }
  }

  /** After adding image `x` (the store `h1` grown along its walk, then `h` with the image
      pushed), an old node keeps its first visit and a node created for `x` is first visited
      by `x`. */
  lemma {:induction false} FirstVisitAfter(h0: seq<Node>, h1: seq<Node>, h: seq<Node>, x: Image, xs: seq<Image>, ys: seq<Image>, c: nat)
    requires BuiltFrom(h0, xs) && FirstSeenOrder(h0, xs) && ys == xs + [x]
    requires Valid(h1) && GrownEmpty(h0, h1)
    requires forall c :: |h0| <= c < |h1| ==> Visits(h1, 0, DirsOf(x.id), c)
    requires Valid(h) && Extends(h1, h) && SameLinks(h1, h)
    requires 0 < c < |h|
    ensures c < |h0| ==> (FirstVisit(h0, xs, c) < |xs| && FirstVisit(h, ys, c) == FirstVisit(h0, xs, c))
    ensures c >= |h0| ==> FirstVisit(h, ys, c) == |xs|
  {
    ExtendsTrans(h0, h1, h);
    FirstVisitGrow(h0, h, xs, c);
    FirstVisitSnoc(h, xs, x, c);
    if c >= |h0| {
      FirstVisitBeyond(h0, xs, c);
      VisitsSameLinks(h1, h, 0, DirsOf(x.id), c);
    } else {
      assert Visited(h0, xs, c);
    }
  }

  /** Two subdirectories `a` before `b` of one node after adding `x`: either both were there
      and keep their order, or `b` was created for `x` and is first visited last. */
  lemma {:induction false} SiblingOrder(h0: seq<Node>, h1: seq<Node>, h: seq<Node>, x: Image, xs: seq<Image>, ys: seq<Image>, k: nat, i: nat, j: nat)
    requires BuiltFrom(h0, xs) && FirstSeenOrder(h0, xs) && ys == xs + [x]
    requires Valid(h1) && GrownEmpty(h0, h1) && OneNewChild(h0, h1)
    requires forall c :: |h0| <= c < |h1| ==> Visits(h1, 0, DirsOf(x.id), c)
    requires Valid(h) && Extends(h1, h) && SameLinks(h1, h)
    requires k < |h| && i < j < |h[k].subdirs|
    ensures FirstVisit(h, ys, h[k].subdirs[i]) < FirstVisit(h, ys, h[k].subdirs[j])
  {
    assert ChildrenOk(h, k);
    var a, b := h[k].subdirs[i], h[k].subdirs[j];
    FirstVisitAfter(h0, h1, h, x, xs, ys, a);
    FirstVisitAfter(h0, h1, h, x, xs, ys, b);
    assert k < |h0|;
    var n := |h0[k].subdirs|;
    assert h0[k].subdirs <= h1[k].subdirs && h1[k].subdirs == h[k].subdirs;
    assert ChildrenOk(h0, k);
    assert a == h0[k].subdirs[i];
    if j < n {
      assert b == h0[k].subdirs[j];
      assert SiblingsInOrder(h0, xs, k);
    } else {
      assert b == h1[k].subdirs[n];
    }
  }

  /** Adding image `x` to a store built in first-seen order keeps that order for the longer
      input. */
  lemma {:induction false} OrderStep(h0: seq<Node>, h1: seq<Node>, h: seq<Node>, x: Image, xs: seq<Image>, ys: seq<Image>)
    requires BuiltFrom(h0, xs) && FirstSeenOrder(h0, xs) && ys == xs + [x]
    requires Valid(h1) && GrownEmpty(h0, h1) && OneNewChild(h0, h1)
    requires forall c :: |h0| <= c < |h1| ==> Visits(h1, 0, DirsOf(x.id), c)
    requires Valid(h) && Extends(h1, h) && SameLinks(h1, h)
    ensures FirstSeenOrder(h, ys)
  {
    forall c | 0 < c < |h| ensures Visited(h, ys, c) {
      FirstVisitAfter(h0, h1, h, x, xs, ys, c);
    }
    forall k | 0 <= k < |h| ensures SiblingsInOrder(h, ys, k) {
      forall i, j | 0 <= i < j < |h[k].subdirs|
        ensures FirstVisit(h, ys, h[k].subdirs[i]) < FirstVisit(h, ys, h[k].subdirs[j])
      {
        SiblingOrder(h0, h1, h, x, xs, ys, k, i, j);
      }
    }
  }

  /** A root listing "a" before "b" although the first image lies under "b". */
  function SwappedStore(x: Image, y: Image): seq<Node>
  {
    [Node(RootName, "", [1, 2], []), Node("a", "a", [], [y]), Node("b", "b", [], [x])]
  }

  /** The swapped store is valid. */
  lemma SwappedStoreValid(x: Image, y: Image)
    ensures Valid(SwappedStore(x, y))
  {
    var h := SwappedStore(x, y);
    forall k | 0 <= k < |h|
      ensures '/' !in h[k].name && (h[k].path == "" || h[k].path[0] != '/') && ChildrenOk(h, k)
    {
      if k == 0 {
        assert h[1].path == NextPath(h[0].path, h[1].name) && h[2].path == NextPath(h[0].path, h[2].name);
        assert h[1].name != h[2].name;
        assert ChildrenOk(h, 0);
      } else {
        assert h[k].subdirs == [];
      }
    }
  }

  /** The directory segments of the two example ids. */
  lemma SwappedSplits()
    ensures DirsOf("b/x.png") == ["b"] && DirsOf("a/y.png") == ["a"]
  {
    SplitNoSlash("a");
    SplitNoSlash("b");
    SplitNoSlash("x.png");
    SplitNoSlash("y.png");
    SplitConcat("b", "x.png");
    SplitConcat("a", "y.png");
  }

  /** Which walks of the swapped store pass through which of its two subdirectories. */
  lemma SwappedVisits(x: Image, y: Image)
    ensures Valid(SwappedStore(x, y))
    ensures Visits(SwappedStore(x, y), 0, ["b"], 2) && !Visits(SwappedStore(x, y), 0, ["b"], 1)
    ensures Visits(SwappedStore(x, y), 0, ["a"], 1)
  {
    var h := SwappedStore(x, y);
    SwappedStoreValid(x, y);
    assert FirstNamed(h, h[0].subdirs, "b") == Some(2);
    assert FirstNamed(h, h[0].subdirs, "a") == Some(1);
    assert ["b"][1..] == [] && ["a"][1..] == [];
    assert !Visits(h, 2, [], 1);
  }

  /** Subdirectories listed out of first-seen order are ruled out: with "b/x.png" listed before
      "a/y.png", the swapped store is valid but not in first-seen order. */
  lemma SwappedStoreRejected(x: Image, y: Image)
    requires x.id == "b/x.png" && y.id == "a/y.png"
    ensures Valid(SwappedStore(x, y)) && !FirstSeenOrder(SwappedStore(x, y), [x, y])
  {
    var h := SwappedStore(x, y);
    SwappedVisits(x, y);
    SwappedSplits();
    var xs := [x, y];
    assert xs[0] == x && xs[1..] == [y] && [y][0] == y;
    assert FirstVisit(h, xs, 2) == 0;
    assert FirstVisit(h, [y], 1) == 0;
    assert FirstVisit(h, xs, 1) == 1;
    assert h[0].subdirs[0] == 1 && h[0].subdirs[1] == 2;
    assert !SiblingsInOrder(h, xs, 0);
  }
  /** A store in which node 2 is listed both by the root and by the empty-named node 1, as the
      ids "/z.png", "b/x.png" and "/b/y.png" would allow if a node could have two parents. */
  function SharedStore(z: Image, x: Image, y: Image): seq<Node>
  {
    [Node(RootName, "", [1, 2], []), Node("", "", [2], [z]), Node("b", "b", [], [x, y])]
  }

  /** The shared store keeps every per-node rule of `Valid`. */
  lemma SharedStoreValid(z: Image, x: Image, y: Image)
    ensures Valid(SharedStore(z, x, y))
  {
    var h := SharedStore(z, x, y);
    forall k | 0 <= k < |h|
      ensures '/' !in h[k].name && (h[k].path == "" || h[k].path[0] != '/') && ChildrenOk(h, k)
    {
      if k == 0 {
        assert h[1].path == NextPath(h[0].path, h[1].name);
        assert h[2].path == NextPath(h[0].path, h[2].name);
        assert ChildrenOk(h, 0);
      } else if k == 1 {
        assert h[2].path == NextPath(h[1].path, h[2].name);
        assert ChildrenOk(h, 1);
      } else {
        assert h[k].subdirs == [];
      }
    }
  }

  /** A node with two parents is ruled out: the shared store is valid node by node, but it is
      not a tree, since the root and node 1 both list node 2. */
  lemma SharedStoreRejected(z: Image, x: Image, y: Image)
    ensures Valid(SharedStore(z, x, y)) && !SingleParent(SharedStore(z, x, y))
  {
    var h := SharedStore(z, x, y);
    SharedStoreValid(z, x, y);
    assert 2 in h[0].subdirs && 2 in h[1].subdirs;
    assert !NoCommonChild(h, 0, 1);
  }


  // ---------------------------------------------------------------------------------------------
  // Lemmas: properties of the built tree

  /** The accumulator extended by one segment. */
  lemma {:induction false} PathFromSnoc(acc: string, segs: seq<string>, d: string)
    ensures PathFrom(acc, segs + [d]) == NextPath(PathFrom(acc, segs), d)
    decreases |segs|
  {
    if segs == [] {
      assert [d][1..] == [];
    } else {
      assert (segs + [d])[1..] == segs[1..] + [d];
      PathFromSnoc(NextPath(acc, segs[0]), segs[1..], d);
    }
  }

  /** From a non-empty accumulator the path is the plain join. */
  lemma {:induction false} PathFromJoin(acc: string, segs: seq<string>)
    requires acc != ""
    ensures PathFrom(acc, segs) == Join([acc] + segs)
    decreases |segs|
  {
    if segs != [] {
      var next := acc + "/" + segs[0];
      PathFromJoin(next, segs[1..]);
      assert ([acc] + segs)[1..] == segs;
      if |segs| > 1 {
        assert ([next] + segs[1..])[1..] == segs[1..];
        assert Join(segs) == segs[0] + "/" + Join(segs[1..]);
      }
    }
  }

  /** A node's path is the `/`-join of its segments unless the walk starts with an empty
      segment followed by more segments. */
  lemma PathOfIsJoin(segs: seq<string>)
    requires |segs| == 1 || (|segs| > 1 && segs[0] != "")
    ensures PathOf(segs) == Join(segs)
  {
    if |segs| == 1 {
      assert PathOf(segs) == PathFrom(NextPath("", segs[0]), segs[1..]);
      assert segs[1..] == [];
    } else {
      PathFromJoin(segs[0], segs[1..]);
      assert [segs[0]] + segs[1..] == segs;
    }
  }

  /** The accumulated path never starts with a separator. */
  lemma {:induction false} PathFromNoLeadingSlash(acc: string, segs: seq<string>)
    requires acc == "" || acc[0] != '/'
    requires SlashFree(segs)
    ensures var p := PathFrom(acc, segs); p == "" || p[0] != '/'
    decreases |segs|
  {
    if segs != [] {
      PathFromNoLeadingSlash(NextPath(acc, segs[0]), segs[1..]);
    }
  }

  /** The path returned for a found directory equals the query exactly when the query does not
      start with a separator: line 359 drops the separator after leading empty segments. */
  lemma ListingPathIsQuery(h: seq<Node>, path: string)
    requires Valid(h) && path != "" && Walk(h, 0, Split(path)).Some?
    ensures h[Walk(h, 0, Split(path)).value].path == path <==> path[0] != '/'
  {
    var parts := Split(path);
    WalkPath(h, 0, parts);
    JoinSplit(path);
    PathFromNoLeadingSlash("", parts);
    if path[0] != '/' {
      assert parts[0] != "" || |parts| == 1 by {
        JoinStartsWithFirst(parts);
      }
      PathOfIsJoin(parts);
    }
  }

  /** Each image's directory is reachable, and so is every prefix of it; an id without a
      separator belongs to the root. */
  lemma PrefixesExist(h: seq<Node>, xs: seq<Image>, i: nat, n: nat)
    requires BuiltFrom(h, xs) && i < |xs| && n <= |DirsOf(xs[i].id)|
    ensures Walk(h, 0, DirsOf(xs[i].id)[..n]).Some?
    ensures '/' !in xs[i].id ==> Walk(h, 0, DirsOf(xs[i].id)) == Some(0)
  {
    var segs := DirsOf(xs[i].id);
    WalkSplitAt(h, 0, segs, n);
    if '/' !in xs[i].id {
      SplitNoSlash(xs[i].id);
    }
  }

  /** How often an image occurs on node `k`: as often as in the input if its segments lead to
      `k`, never otherwise. */
  lemma {:induction false} PlacedCount(h: seq<Node>, xs: seq<Image>, k: nat, x: Image)
    requires Valid(h)
    ensures multiset(Placed(h, xs, k))[x] ==
      if Walk(h, 0, DirsOf(x.id)) == Some(k) then multiset(xs)[x] else 0
    decreases |xs|
  {
    if xs != [] {
      var init, y := xs[..|xs| - 1], xs[|xs| - 1];
      PlacedCount(h, init, k, x);
      FrontLast(xs);
      assert multiset(xs) == multiset(init) + multiset{y};
      var here := if Walk(h, 0, DirsOf(y.id)) == Some(k) then [y] else [];
      assert Placed(h, xs, k) == Placed(h, init, k) + here;
      assert multiset(Placed(h, xs, k)) == multiset(Placed(h, init, k)) + multiset(here);
    }
  }

  /** In a built tree each input image sits on exactly one node: the one whose path is the id
      without its last segment (for ids not starting with a separator) and as many times as it
      occurs in the input; the total number of images is the input length. */
  lemma ImagePlacedOnce(h: seq<Node>, xs: seq<Image>, i: nat)
    requires BuiltFrom(h, xs) && i < |xs|
    ensures var m := Walk(h, 0, DirsOf(xs[i].id)).value;
      && xs[i] in h[m].images
      && multiset(h[m].images)[xs[i]] == multiset(xs)[xs[i]]
      && (forall k :: 0 <= k < |h| && k != m ==> xs[i] !in h[k].images)
      && h[m].path == PathOf(DirsOf(xs[i].id))
    ensures |AllImages(h)| == |xs|
  {
    var x := xs[i];
    var m := Walk(h, 0, DirsOf(x.id)).value;
    PlacedCount(h, xs, m, x);
    assert x in multiset(xs);
    forall k | 0 <= k < |h| && k != m ensures x !in h[k].images {
      PlacedCount(h, xs, k, x);
    }
    WalkPath(h, 0, DirsOf(x.id));
    assert |multiset(AllImages(h))| == |multiset(xs)|;
  }

  /** For an id that does not start with a separator, the node holding the image has as its path
      the id with the separator and last segment removed; an id without a separator sits on the
      root. */
  lemma ImageDirIsIdPrefix(h: seq<Node>, xs: seq<Image>, i: nat)
    requires BuiltFrom(h, xs) && i < |xs| && (xs[i].id == "" || xs[i].id[0] != '/')
    ensures var m := Walk(h, 0, DirsOf(xs[i].id)).value;
      && (DirsOf(xs[i].id) == [] ==> m == 0 && xs[i].id == LastSegment(xs[i].id))
      && (DirsOf(xs[i].id) != [] ==> xs[i].id == h[m].path + "/" + LastSegment(xs[i].id))
  {
    var id := xs[i].id;
    var dirs := DirsOf(id);
    IdIsDirsThenLast(id);
    ImagePlacedOnce(h, xs, i);
    if dirs != [] {
      SplitFirstNonEmpty(id);
      assert dirs[0] == Split(id)[0];
      PathOfIsJoin(dirs);
    }
  }

  // ---------------------------------------------------------------------------------------------
  // The tree as the client receives it

  /** The JSON value of node `k` with its whole subtree, as the dashboard receives the tree. */
  function ToTree(h: seq<Node>, k: nat): (t: Dir)
    requires Valid(h) && k < |h|
    ensures t.name == h[k].name && t.path == h[k].path && t.images == h[k].images
    ensures |t.subdirs| == |h[k].subdirs|
    decreases |h| - k
  {
    assert ChildrenOk(h, k);
    var sub := h[k].subdirs;
    Dir(h[k].name, h[k].path, seq(|sub|, i requires 0 <= i < |sub| => ToTree(h, sub[i])), h[k].images)
  }

  /** The `i`-th child of a serialised node is the serialised `i`-th subdirectory. */
  lemma ToTreeChild(h: seq<Node>, k: nat, i: nat)
    requires Valid(h) && k < |h| && i < |h[k].subdirs|
    ensures ChildrenOk(h, k) && ToTree(h, k).subdirs[i] == ToTree(h, h[k].subdirs[i])
  {
    assert ChildrenOk(h, k);
  }

  // ---------------------------------------------------------------------------------------------
  // Every image is served once

  /** The node indices of the subtree of `k`, in the order the served JSON lists them. */
  ghost function NodesOf(h: seq<Node>, k: nat): (r: seq<nat>)
    requires Valid(h) && k < |h|
    ensures forall i :: 0 <= i < |r| ==> k <= r[i] < |h|
    decreases |h| - k, 1
  {
    assert ChildrenOk(h, k);
    [k] + NodesOfList(h, h[k].subdirs, k)
  }

  /** The node indices of the subtrees of `ids`, one after the other. */
  ghost function NodesOfList(h: seq<Node>, ids: seq<nat>, k: nat): (r: seq<nat>)
    requires Valid(h) && forall i :: 0 <= i < |ids| ==> k < ids[i] < |h|
    ensures forall i :: 0 <= i < |r| ==> k < r[i] < |h|
    decreases |h| - k, 0, |ids|
  {
    if ids == [] then [] else NodesOf(h, ids[0]) + NodesOfList(h, ids[1..], k)
  }

  /** The images of a served tree, node by node in the order the JSON lists them. */
  function TreeImages(t: Dir): seq<Image>
    decreases t, 1
  {
    t.images + ListImages(t.subdirs)
  }

  /** The images of a list of served trees, one tree after the other. */
  function ListImages(ts: seq<Dir>): seq<Image>
    decreases ts, 0
  {
    if ts == [] then [] else TreeImages(ts[0]) + ListImages(ts[1..])
  }

  /** The images of the nodes `ns`, in that order. */
  ghost function ImagesOf(h: seq<Node>, ns: seq<nat>): seq<Image>
    requires forall i :: 0 <= i < |ns| ==> ns[i] < |h|
  {
    if ns == [] then [] else h[ns[0]].images + ImagesOf(h, ns[1..])
  }

  /** The indices `0`, ..., `m - 1`. */
  function Range(m: nat): (r: seq<nat>)
    ensures |r| == m && forall i :: 0 <= i < m ==> r[i] == i
  {
    if m == 0 then [] else Range(m - 1) + [m - 1]
  }

  /** The served children of `ids`, one tree per index. */
  function TreesOf(h: seq<Node>, ids: seq<nat>): (r: seq<Dir>)
    requires Valid(h) && forall i :: 0 <= i < |ids| ==> ids[i] < |h|
    ensures |r| == |ids| && forall i :: 0 <= i < |ids| ==> r[i] == ToTree(h, ids[i])
  {
    seq(|ids|, i requires 0 <= i < |ids| => ToTree(h, ids[i]))
  }

  /** The images of two node lists one after the other are the two image lists joined. */
  lemma {:induction false} ImagesOfConcat(h: seq<Node>, a: seq<nat>, b: seq<nat>)
    requires forall i :: 0 <= i < |a| ==> a[i] < |h|
    requires forall i :: 0 <= i < |b| ==> b[i] < |h|
    ensures ImagesOf(h, a + b) == ImagesOf(h, a) + ImagesOf(h, b)
  {
    if a != [] {
      assert (a + b)[0] == a[0] && (a + b)[1..] == a[1..] + b;
      ImagesOfConcat(h, a[1..], b);
    } else {
      assert a + b == b;
    }
  }

  /** The served subtree of `k` holds the images of the nodes of `NodesOf(h, k)`, in order. */
  lemma {:induction false} TreeImagesNodes(h: seq<Node>, k: nat)
    requires Valid(h) && k < |h|
    ensures TreeImages(ToTree(h, k)) == ImagesOf(h, NodesOf(h, k))
    decreases |h| - k, 1
  {
    assert ChildrenOk(h, k);
    var sub := h[k].subdirs;
    assert ToTree(h, k).subdirs == TreesOf(h, sub);
    ListImagesNodes(h, sub, k);
    ImagesOfConcat(h, [k], NodesOfList(h, sub, k));
    assert ImagesOf(h, [k]) == h[k].images + ImagesOf(h, []);
  }

  /** The served children `ids` hold the images of the nodes of their subtrees, in order. */
  lemma {:induction false} ListImagesNodes(h: seq<Node>, ids: seq<nat>, k: nat)
    requires Valid(h) && forall i :: 0 <= i < |ids| ==> k < ids[i] < |h|
    ensures ListImages(TreesOf(h, ids)) == ImagesOf(h, NodesOfList(h, ids, k))
    decreases |h| - k, 0, |ids|
  {
    if ids != [] {
      var ts := TreesOf(h, ids);
      assert ts[0] == ToTree(h, ids[0]);
      assert ts[1..] == TreesOf(h, ids[1..]);
      TreeImagesNodes(h, ids[0]);
      ListImagesNodes(h, ids[1..], k);
      ImagesOfConcat(h, NodesOf(h, ids[0]), NodesOfList(h, ids[1..], k));
    }
  }

  /** A strictly increasing list holds each element once. */
  lemma {:induction false} IncreasingCount(ids: seq<nat>, n: nat)
    requires forall i, j :: 0 <= i < j < |ids| ==> ids[i] < ids[j]
    ensures multiset(ids)[n] == if n in ids then 1 else 0
  {
    if ids != [] {
      assert ids == [ids[0]] + ids[1..];
      IncreasingCount(ids[1..], n);
      if n == ids[0] {
        assert n !in ids[1..];
      }
    }
  }

  /** On a tree, a node `n` with parent `p` occurs in the subtree of any `k` other than `n`
      exactly as often as `p` does: every occurrence of `n` is as the child of `p`. */
  lemma {:induction false} OccNode(h: seq<Node>, k: nat, n: nat, p: nat)
    requires Valid(h) && SingleParent(h) && k < |h| && p < |h| && n in h[p].subdirs && k != n
    ensures multiset(NodesOf(h, k))[n] == multiset(NodesOf(h, k))[p]
    decreases |h| - k, 1
  {
    assert ChildrenOk(h, k);
    var sub := h[k].subdirs;
    OccList(h, sub, k, n, p);
    assert NodesOf(h, k) == [k] + NodesOfList(h, sub, k);
    if k == p {
      IncreasingCount(sub, n);
    } else if k < p {
      assert NoCommonChild(h, k, p);
    } else {
      assert NoCommonChild(h, p, k);
    }
  }

  /** The same count over the subtrees of `ids`, where each listing of `n` itself adds one. */
  lemma {:induction false} OccList(h: seq<Node>, ids: seq<nat>, k: nat, n: nat, p: nat)
    requires Valid(h) && SingleParent(h) && forall i :: 0 <= i < |ids| ==> k < ids[i] < |h|
    requires p < |h| && n in h[p].subdirs
    ensures multiset(NodesOfList(h, ids, k))[n] == multiset(NodesOfList(h, ids, k))[p] + multiset(ids)[n]
    decreases |h| - k, 0, |ids|
  {
    if ids != [] {
      var c := ids[0];
      assert ids == [c] + ids[1..];
      OccList(h, ids[1..], k, n, p);
      if c == n {
        SelfCount(h, n, p);
      } else {
        OccNode(h, c, n, p);
      }
    }
  }

  /** The subtree of a child `n` of `p` lists `n` once and `p` never. */
  lemma SelfCount(h: seq<Node>, n: nat, p: nat)
    requires Valid(h) && p < |h| && n in h[p].subdirs
    ensures n < |h| && multiset(NodesOf(h, n))[n] == 1 && multiset(NodesOf(h, n))[p] == 0
  {
    assert ChildrenOk(h, p) && p < n;
    assert ChildrenOk(h, n);
    var rest := NodesOfList(h, h[n].subdirs, n);
    assert NodesOf(h, n) == [n] + rest;
    assert n !in rest && p !in rest;
  }

  /** On a tree, the served root lists every node exactly once. */
  lemma {:induction false} RootOnce(h: seq<Node>, n: nat)
    requires Valid(h) && SingleParent(h) && n < |h|
    ensures multiset(NodesOf(h, 0))[n] == 1
    decreases n
  {
    assert ChildrenOk(h, 0);
    assert NodesOf(h, 0) == [0] + NodesOfList(h, h[0].subdirs, 0);
    if n == 0 {
      assert 0 !in NodesOfList(h, h[0].subdirs, 0);
    } else {
      assert HasParent(h, n);
      var p :| 0 <= p < |h| && n in h[p].subdirs;
      assert ChildrenOk(h, p);
      OccNode(h, 0, n, p);
      RootOnce(h, p);
    }
  }

  /** `Range(m)` holds each index below `m` once and nothing else. */
  lemma {:induction false} RangeCount(m: nat, n: nat)
    ensures multiset(Range(m))[n] == if n < m then 1 else 0
  {
    if m > 0 {
      var r := Range(m - 1);
      RangeCount(m - 1, n);
      assert Range(m) == r + [m - 1];
      CountSnoc(r, m - 1, n);
    }
  }

  /** Appending `x` adds one to the count of `x` and leaves every other count. */
  lemma CountSnoc(r: seq<nat>, x: nat, n: nat)
    ensures multiset(r + [x])[n] == multiset(r)[n] + if n == x then 1 else 0
  {
    assert multiset(r + [x]) == multiset(r) + multiset{x};
  }

  /** On a tree, the nodes the served root lists are all the nodes of the store, each once. */
  lemma ServedNodesOnce(h: seq<Node>)
    requires Valid(h) && SingleParent(h)
    ensures multiset(NodesOf(h, 0)) == multiset(Range(|h|))
  {
    forall n: nat ensures multiset(NodesOf(h, 0))[n] == multiset(Range(|h|))[n] {
      NodeCount(h, n);
    }
  }

  /** The count behind `ServedNodesOnce`, one index at a time. */
  lemma NodeCount(h: seq<Node>, n: nat)
    requires Valid(h) && SingleParent(h)
    ensures multiset(NodesOf(h, 0))[n] == multiset(Range(|h|))[n]
  {
    RangeCount(|h|, n);
    if n < |h| {
      RootOnce(h, n);
    } else {
      assert n !in NodesOf(h, 0);
    }
  }

  /** The images of the nodes `0` to `m - 1` are the images of the first `m` nodes. */
  lemma {:induction false} ImagesRange(h: seq<Node>, m: nat)
    requires m <= |h|
    ensures ImagesOf(h, Range(m)) == AllImages(h[..m])
  {
    if m > 0 {
      ImagesRange(h, m - 1);
      ImagesOfConcat(h, Range(m - 1), [m - 1]);
      assert ImagesOf(h, [m - 1]) == h[m - 1].images + ImagesOf(h, []);
      assert h[..m][..m - 1] == h[..m - 1];
    }
  }

  /** Two node lists with the same multiset of nodes hold the same multiset of images. */
  lemma {:induction false} PermImages(h: seq<Node>, a: seq<nat>, b: seq<nat>)
    requires forall i :: 0 <= i < |a| ==> a[i] < |h|
    requires forall i :: 0 <= i < |b| ==> b[i] < |h|
    requires multiset(a) == multiset(b)
    ensures multiset(ImagesOf(h, a)) == multiset(ImagesOf(h, b))
    decreases |a|
  {
    if a == [] {
      assert |multiset(b)| == 0;
    } else {
      assert a[0] in multiset(b);
      var i :| 0 <= i < |b| && b[i] == a[0];
      var rest := b[..i] + b[i + 1..];
      RemoveAt(a, b, i);
      PermImages(h, a[1..], rest);
      ImagesOfAt(h, b, i);
      assert ImagesOf(h, a) == h[a[0]].images + ImagesOf(h, a[1..]);
    }
  }

  /** Taking the first element off `a` and the same element at `i` off `b` keeps two equal
      multisets equal. */
  lemma RemoveAt(a: seq<nat>, b: seq<nat>, i: nat)
    requires multiset(a) == multiset(b) && a != [] && i < |b| && b[i] == a[0]
    ensures multiset(a[1..]) == multiset(b[..i] + b[i + 1..])
  {
    assert a == [a[0]] + a[1..];
    assert b == b[..i] + [b[i]] + b[i + 1..];
    assert multiset(b) == multiset(b[..i]) + multiset{b[i]} + multiset(b[i + 1..]);
    assert multiset(b[..i] + b[i + 1..]) == multiset(b[..i]) + multiset(b[i + 1..]);
    assert multiset(a[1..]) == multiset(a) - multiset{a[0]};
    assert multiset(b[..i]) + multiset(b[i + 1..]) == multiset(b) - multiset{b[i]};
  }

  /** The images of `b` are those of `b` without position `i`, and those of node `b[i]`. */
  lemma {:induction false} ImagesOfAt(h: seq<Node>, b: seq<nat>, i: nat)
    requires forall j :: 0 <= j < |b| ==> b[j] < |h|
    requires i < |b|
    ensures multiset(ImagesOf(h, b)) ==
      multiset(ImagesOf(h, b[..i] + b[i + 1..])) + multiset(h[b[i]].images)
  {
    if i == 0 {
      assert b[..0] + b[1..] == b[1..];
    } else {
      var t := b[1..];
      ImagesOfAt(h, t, i - 1);
      var rest := b[..i] + b[i + 1..];
      assert rest == [b[0]] + (t[..i - 1] + t[i..]);
      assert rest[0] == b[0] && rest[1..] == t[..i - 1] + t[i..];
      assert t[i - 1] == b[i];
    }
  }

  /** The tree the worker serves for the empty path holds every listed image exactly once: the
      images of the whole served tree are, as a multiset, the input images, so there are as
      many of them as inputs. */
  lemma ServedImagesOnce(h: seq<Node>, xs: seq<Image>)
    requires BuiltFrom(h, xs) && SingleParent(h)
    ensures multiset(TreeImages(ToTree(h, 0))) == multiset(xs)
    ensures |TreeImages(ToTree(h, 0))| == |xs|
  {
    TreeImagesNodes(h, 0);
    ServedNodesOnce(h);
    PermImages(h, NodesOf(h, 0), Range(|h|));
    ImagesRange(h, |h|);
    assert h[..|h|] == h;
  }
}
