/** The breadcrumb bar (src/components/Breadcrumb.tsx): the current path cut into its non-empty
    segments, one button per segment, and the path each button navigates to. */
module Breadcrumb {
  import opened JsStrings

  /** `parts.filter(Boolean)` on strings: the non-empty parts, in order. */
  function NonEmpty(parts: seq<string>): (r: seq<string>)
    ensures forall i :: 0 <= i < |r| ==> r[i] != ""
    ensures forall s :: s in r <==> s in parts && s != ""
    ensures |r| <= |parts|
  {
    if parts == [] then []
    else
      assert parts == [parts[0]] + parts[1..];
      (if parts[0] != "" then [parts[0]] else []) + NonEmpty(parts[1..])
  }

  /** `segments`: none for the empty path, otherwise the non-empty `/`-segments. */
  function Segments(path: string): (r: seq<string>)
    ensures path == "" ==> r == []
    ensures forall i :: 0 <= i < |r| ==> r[i] != "" && '/' !in r[i]
  {
    if path == "" then []
    else
      var parts := Split(path);
      var r := NonEmpty(parts);
      assert forall i :: 0 <= i < |r| ==> r[i] in parts;
      r
  }

  /** `Array.prototype.slice(0, end)`: a negative end counts from the back, an end past the
      length stops at it. */
  function SliceTo(xs: seq<string>, end: int): (r: seq<string>)
    ensures 0 <= end <= |xs| ==> r == xs[..end]
    ensures end < 0 && |xs| + end >= 0 ==> r == xs[..|xs| + end]
    ensures end < -|xs| ==> r == []
    ensures end > |xs| ==> r == xs
  {
    if end < 0 then (if |xs| + end < 0 then [] else xs[..|xs| + end])
    else if end > |xs| then xs
    else xs[..end]
  }

  /** `handleNavigate(index)`: "" for -1, else the first `index + 1` segments joined. */
  function Navigate(path: string, index: int): string
  {
    if index == -1 then "" else Join(SliceTo(Segments(path), index + 1))
  }

  /** One rendered segment button: its text, where it navigates, and whether it is highlighted
      as the current one. */
  datatype Crumb = Crumb(text: string, target: string, current: bool)

  /** The buttons of `segments.map(...)`. */
  function Crumbs(path: string): (r: seq<Crumb>)
    ensures |r| == |Segments(path)|
    ensures forall i :: 0 <= i < |r| ==>
      r[i].text == Segments(path)[i] && r[i].target == Navigate(path, i)
  {
    var segs := Segments(path);
    seq(|segs|, i requires 0 <= i < |segs| => Crumb(segs[i], Navigate(path, i), i == |segs| - 1))
  }

  /** The ROOT button is highlighted exactly when there are no segments. */
  predicate RootCurrent(path: string)
  {
    |Segments(path)| == 0
  }

  // ---------------------------------------------------------------------------------------------
  // Lemmas

  /** The filter changes nothing on a list without empty parts. */
  lemma {:induction false} NonEmptyKeeps(parts: seq<string>)
    requires "" !in parts
    ensures NonEmpty(parts) == parts
  {
    if parts != [] {
      NonEmptyKeeps(parts[1..]);
      assert parts == [parts[0]] + parts[1..];
    }
  }

  /** The filter keeps a single non-empty part and drops a single empty one. */
  lemma NonEmptySingle(s: string)
    ensures NonEmpty([s]) == if s == "" then [] else [s]
  {
    assert [s][1..] == [];
  }

  /** The filter keeps order: filtering a concatenation concatenates the filtered halves. */
  lemma {:induction false} NonEmptyConcat(a: seq<string>, b: seq<string>)
    ensures NonEmpty(a + b) == NonEmpty(a) + NonEmpty(b)
  {
    if a != [] {
      assert (a + b)[0] == a[0] && (a + b)[1..] == a[1..] + b;
      NonEmptyConcat(a[1..], b);
    } else {
      assert a + b == b;
    }
  }

  /** The filter removes every empty part and keeps each other part as often as it occurs. */
  lemma {:induction false} NonEmptyCount(parts: seq<string>)
    ensures multiset(NonEmpty(parts)) == multiset(parts)["" := 0]
  {
    if parts != [] {
      assert parts == [parts[0]] + parts[1..];
      assert multiset(parts) == multiset([parts[0]]) + multiset(parts[1..]);
      NonEmptyCount(parts[1..]);
    }
  }

  /** The segments are the path's `/`-segments with every empty one removed, each other one
      kept as often as it occurs. */
  lemma SegmentsCount(path: string)
    ensures multiset(Segments(path)) == multiset(Split(path))["" := 0]
  {
    NonEmptyCount(Split(path));
    if path == "" {
      assert Split(path) == [""];
      assert multiset([""])["" := 0] == multiset{};
    }
  }

  /** The segments of a path joined from two parts are the segments of each part, in order. */
  lemma SegmentsConcat(a: string, b: string)
    ensures Segments(a + "/" + b) == Segments(a) + Segments(b)
  {
    SplitConcat(a, b);
    NonEmptyConcat(Split(a), Split(b));
    assert Split("") == [""];
    NonEmptySingle("");
  }

  /** A path without separators is its own only segment, unless it is empty. */
  lemma SegmentsSingle(s: string)
    requires '/' !in s
    ensures Segments(s) == if s == "" then [] else [s]
  {
    SplitNoSlash(s);
    NonEmptySingle(s);
  }

  /** ROOT navigates to the empty path. */
  lemma NavigateRoot(path: string)
    ensures Navigate(path, -1) == ""
  {
  }

  /** Button `i` navigates to the join of the first `i + 1` segments. */
  lemma NavigatePrefix(path: string, i: int)
    requires 0 <= i < |Segments(path)|
    ensures Navigate(path, i) == Join(Segments(path)[..i + 1])
  {
  }

  /** Each button's target extends the previous one by its own segment. */
  lemma NavigateStep(path: string, i: nat)
    requires i + 1 < |Segments(path)|
    ensures Navigate(path, i + 1) == Navigate(path, i) + "/" + Segments(path)[i + 1]
  {
    var segs := Segments(path);
    assert segs[..i + 2] == segs[..i + 1] + [segs[i + 1]];
    JoinAppend(segs[..i + 1], [segs[i + 1]]);
  }

  /** Each button's target is an ancestor-or-self of the segments joined back, in the sense of
      the sidebar's `isInPath`. */
  lemma CrumbAboveJoined(path: string, i: nat)
    requires i < |Segments(path)|
    ensures AtOrBelow(Join(Segments(path)), Navigate(path, i))
  {
    var segs := Segments(path);
    assert SlashFree(segs);
    var pre := segs[..i + 1];
    assert SlashFree(pre) by {
      forall j | 0 <= j < |pre| ensures '/' !in pre[j] { assert pre[j] == segs[j]; }
    }
    SplitJoin(segs);
    SplitJoin(segs[..i + 1]);
    PrefixBySegments(Join(segs[..i + 1]), Join(segs));
  }

  /** For a path without empty segments the segments are its split, the last button rebuilds the
      path, and every button's target is an ancestor-or-self of it. */
  lemma NoEmptySegments(path: string, i: nat)
    requires path != "" && "" !in Split(path)
    ensures Segments(path) == Split(path)
    ensures Navigate(path, |Segments(path)| - 1) == path
    ensures i < |Segments(path)| ==> AtOrBelow(path, Navigate(path, i))
  {
    NonEmptyKeeps(Split(path));
    var segs := Segments(path);
    assert segs[..|segs|] == segs;
    JoinSplit(path);
    if i < |segs| {
      CrumbAboveJoined(path, i);
    }
  }

  /** A doubled separator collapses: the last button of "a//b" leads to "a/b", which is not on
      the path "a//b". */
  lemma EmptySegmentCollapses()
    ensures Segments("a//b") == ["a", "b"]
    ensures Navigate("a//b", 1) == "a/b"
    ensures !AtOrBelow("a//b", "a/b")
  {
    DoubledSlashSegments();
    var segs := ["a", "b"];
    assert SliceTo(segs, 2) == segs;
    assert segs[1..] == ["b"];
    assert Join(segs) == "a" + "/" + "b";
    assert ("a//b")[..4] != "a/b/" by {
      assert ("a//b")[2] == '/' && ("a/b/")[2] == 'b';
    }
  }

  /** The segments of "a//b" are "a" and "b". */
  lemma DoubledSlashSegments()
    ensures Segments("a//b") == ["a", "b"]
  {
    SegmentsSingle("a");
    SegmentsSingle("b");
    SegmentsConcat("", "b");
    assert "" + "/" + "b" == "/b";
    assert Segments("") == [];
    SegmentsConcat("a", "/b");
    assert "a" + "/" + "/b" == "a//b";
  }

  /** Exactly the last button is highlighted, and ROOT instead when there are no segments. */
  lemma OnlyLastCurrent(path: string)
    ensures forall i :: 0 <= i < |Crumbs(path)| ==> (Crumbs(path)[i].current <==> i == |Segments(path)| - 1)
    ensures RootCurrent(path) <==> Crumbs(path) == []
  {
  }
}
