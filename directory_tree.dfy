/** The sidebar tree (src/components/DirectoryTree.tsx): each rendered directory decides whether
    it lies on the current path, keeps its own expanded/collapsed flag, and renders its children
    in name order when expanded. */
module DirectoryTree {
  import opened Types
  import opened JsStrings

  /** `isInPath`: the current path is the node's path or lies below it. */
  predicate IsInPath(currentPath: string, node: Dir)
  {
    AtOrBelow(currentPath, node.path)
  }

  /** `isActive`: the node is the current directory. */
  predicate IsActive(currentPath: string, node: Dir)
  {
    currentPath == node.path
  }

  /** `hasSubdirs`. */
  predicate HasSubdirs(node: Dir)
  {
    |node.subdirs| > 0
  }

  // ---------------------------------------------------------------------------------------------
  // The path predicates

  /** A node lies on the current path exactly when its path segments are a prefix of the current
      path's segments. */
  lemma IsInPathBySegments(currentPath: string, node: Dir)
    ensures IsInPath(currentPath, node) <==> Split(node.path) <= Split(currentPath)
  {
    PrefixBySegments(node.path, currentPath);
  }

  /** The test is an exact prefix and never a bare substring: when the paths differ, the node's
      path is followed by a separator in the current path. */
  lemma IsInPathAtSeparator(currentPath: string, node: Dir)
    requires IsInPath(currentPath, node) && currentPath != node.path
    ensures |node.path| < |currentPath| && currentPath[|node.path|] == '/'
    ensures currentPath[..|node.path|] == node.path
  {
    assert currentPath[..|node.path| + 1] == node.path + "/";
    assert currentPath[|node.path|] == currentPath[..|node.path| + 1][|node.path|];
  }

  /** "ab" is not on the path "abc/x", although it is a prefix of the string. */
  lemma NotInPathBySubstring()
    ensures !IsInPath("abc/x", Dir("ab", "ab", [], []))
    ensures IsInPath("abc/x", Dir("abc", "abc", [], []))
  {
    assert ("abc/x")[..3] == "abc";
    assert ("abc/x")[..3] != "ab/";
  }

  /** A node with the empty path is on the current path only for the empty path or one starting
      with a separator; the root is rendered separately for this reason. */
  lemma EmptyPathInPath(currentPath: string, node: Dir)
    requires node.path == ""
    ensures IsInPath(currentPath, node) <==> currentPath == "" || currentPath[0] == '/'
  {
    if currentPath != "" && currentPath[0] == '/' {
      assert currentPath[..1] == "/";
    }
  }

  /** The active node is on the path. */
  lemma ActiveIsInPath(currentPath: string, node: Dir)
    ensures IsActive(currentPath, node) ==> IsInPath(currentPath, node)
    ensures IsInPath(currentPath, node) && |currentPath| <= |node.path| ==> IsActive(currentPath, node)
  {
  }

  // ---------------------------------------------------------------------------------------------
  // Ordering the children

  /** `localeCompare` stands for any comparator returning a negative, zero or positive number;
      its locale order is not modelled. */
  type Compare = (string, string) -> int

  /** The comparator answers every pair in at least one direction, as `localeCompare` does. */
  ghost predicate Total(cmp: Compare)
  {
    forall a, b :: cmp(a, b) <= 0 || cmp(b, a) <= 0
  }

  /** Each neighbour pair is in comparator order. */
  ghost predicate AdjacentOrdered(xs: seq<Dir>, cmp: Compare)
  {
    forall i :: 0 <= i < |xs| - 1 ==> cmp(xs[i].name, xs[i + 1].name) <= 0
  }

  /** Inserts `x` before the first element it does not compare after. */
  function InsertByName(x: Dir, xs: seq<Dir>, cmp: Compare): (r: seq<Dir>)
    ensures multiset(r) == multiset(xs) + multiset{x}
    ensures |r| == |xs| + 1
  {
    if xs == [] then [x]
    else if cmp(x.name, xs[0].name) <= 0 then [x] + xs
    else
      assert xs == [xs[0]] + xs[1..];
      [xs[0]] + InsertByName(x, xs[1..], cmp)
  }

  /** `[...subdirs].sort((a, b) => a.name.localeCompare(b.name))`: a sorted copy, as an insertion
      sort; the node's own list is a value and stays as it was. */
  function SortByName(xs: seq<Dir>, cmp: Compare): (r: seq<Dir>)
    ensures multiset(r) == multiset(xs)
    ensures |r| == |xs|
  {
    if xs == [] then []
    else
      assert xs == [xs[0]] + xs[1..];
      InsertByName(xs[0], SortByName(xs[1..], cmp), cmp)
  }

  /** Inserting into a list in comparator order keeps it in order, for a total comparator. */
  lemma {:induction false} InsertOrdered(x: Dir, xs: seq<Dir>, cmp: Compare)
    requires Total(cmp) && AdjacentOrdered(xs, cmp)
    ensures AdjacentOrdered(InsertByName(x, xs, cmp), cmp)
    ensures InsertByName(x, xs, cmp) != [] && xs != [] ==>
      InsertByName(x, xs, cmp)[0] == x || InsertByName(x, xs, cmp)[0] == xs[0]
  {
    if xs != [] && cmp(x.name, xs[0].name) > 0 {
      assert cmp(xs[0].name, x.name) <= 0;
      var rest := InsertByName(x, xs[1..], cmp);
      assert AdjacentOrdered(xs[1..], cmp) by {
        forall i | 0 <= i < |xs[1..]| - 1 ensures cmp(xs[1..][i].name, xs[1..][i + 1].name) <= 0 {
          assert xs[1..][i] == xs[i + 1] && xs[1..][i + 1] == xs[i + 2];
        }
      }
      InsertOrdered(x, xs[1..], cmp);
      var r := [xs[0]] + rest;
      forall i | 0 <= i < |r| - 1 ensures cmp(r[i].name, r[i + 1].name) <= 0 {
        if i > 0 {
          assert r[i] == rest[i - 1] && r[i + 1] == rest[i];
        } else if xs[1..] != [] {
          assert rest[0] == x || rest[0] == xs[1];
        }
      }
    } else if xs != [] {
      var r := [x] + xs;
      forall i | 0 <= i < |r| - 1 ensures cmp(r[i].name, r[i + 1].name) <= 0 {
        if i > 0 {
          assert r[i] == xs[i - 1] && r[i + 1] == xs[i];
        }
      }
    }
  }

  /** For a total comparator the sorted copy is in order pair by pair. */
  lemma {:induction false} SortOrdered(xs: seq<Dir>, cmp: Compare)
    requires Total(cmp)
    ensures AdjacentOrdered(SortByName(xs, cmp), cmp)
  {
    if xs != [] {
      SortOrdered(xs[1..], cmp);
      InsertOrdered(xs[0], SortByName(xs[1..], cmp), cmp);
    }
  }

  // ---------------------------------------------------------------------------------------------
  // One rendered directory

  /** A mounted `DirectoryItem`: its `node` and `currentPath` props and its `expanded` state. */
  class DirectoryItem {
    const node: Dir
    var currentPath: string
    var expanded: bool

    /** Mounting seeds `expanded` with `isInPath`. */
    constructor (node: Dir, currentPath: string)
      ensures this.node == node && this.currentPath == currentPath
      ensures expanded == IsInPath(currentPath, node)
    {
      this.node := node;
      this.currentPath := currentPath;
      expanded := AtOrBelow(currentPath, node.path);
    }

    /** A re-render with a new `currentPath` keeps the state: `useState` reads its initial value
        only on mount. */
    method Rerender(currentPath: string)
      modifies this
      ensures this.currentPath == currentPath && expanded == old(expanded)
    {
      this.currentPath := currentPath;
    }

    /** `handleClick`: reports the node's path and expands a node that has subdirectories; a
        node without subdirectories keeps its flag. */
    method HandleClick() returns (reported: string)
      modifies this
      ensures reported == node.path
      ensures HasSubdirs(node) ==> expanded
      ensures !HasSubdirs(node) ==> expanded == old(expanded)
      ensures currentPath == old(currentPath)
    {
      reported := node.path;
      if |node.subdirs| > 0 && !expanded {
        expanded := true;
      }
    }

    /** `handleToggle`: flips the flag, so two toggles restore it. */
    method HandleToggle()
      modifies this
      ensures expanded == !old(expanded) && currentPath == old(currentPath)
    {
      expanded := !expanded;
    }

    /** The children rendered below the node: the sorted copy when expanded and non-empty,
        nothing otherwise. */
    function Children(cmp: Compare): (r: seq<Dir>)
      reads this
      ensures !(expanded && HasSubdirs(node)) ==> r == []
      ensures expanded && HasSubdirs(node) ==> multiset(r) == multiset(node.subdirs)
    {
      if expanded && |node.subdirs| > 0 then SortByName(node.subdirs, cmp) else []
    }
  }

  /** The top level below the ROOT entry: the sorted copy of the tree's subdirectories, or the
      "No subsystems available" placeholder (an empty list) when there is no tree or it has none. */
  function TopLevel(tree: Option<Dir>, cmp: Compare): (r: seq<Dir>)
    ensures tree.None? || tree.value.subdirs == [] ==> r == []
    ensures tree.Some? ==> multiset(r) == multiset(tree.value.subdirs)
  {
    if tree.Some? && |tree.value.subdirs| > 0 then SortByName(tree.value.subdirs, cmp) else []
  }

  /** The ROOT entry is highlighted exactly for the empty current path. */
  predicate RootActive(currentPath: string)
  {
    currentPath == ""
  }
}
