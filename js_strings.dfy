/** The JavaScript primitives the namespace code is written with, on the separator "/":
    `String.prototype.split("/")`, `Array.prototype.join("/")` and
    `String.prototype.startsWith`, with their ECMAScript behaviour (empty segments are kept). */
module JsStrings {

  /** No segment of `parts` contains the separator. */
  ghost predicate SlashFree(parts: seq<string>)
  {
    forall i :: 0 <= i < |parts| ==> '/' !in parts[i]
  }

  /** `s.split("/")`: one segment more than `s` has slashes; "" splits into [""]. */
  function Split(s: string): (r: seq<string>)
    ensures |r| >= 1
    ensures SlashFree(r)
  {
    if |s| == 0 then [""]
    else if s[0] == '/' then [""] + Split(s[1..])
    else
      var t := Split(s[1..]);
      [[s[0]] + t[0]] + t[1..]
  }

  /** `parts.join("/")`; the join of no parts is "". */
  function Join(parts: seq<string>): string
  {
    if |parts| == 0 then ""
    else if |parts| == 1 then parts[0]
    else parts[0] + "/" + Join(parts[1..])
  }

  /** `s.startsWith(prefix)`. */
  predicate StartsWith(s: string, prefix: string)
  {
    |prefix| <= |s| && s[..|prefix|] == prefix
  }

  /** A string without a separator is its own only segment. */
  lemma {:induction false} SplitNoSlash(s: string)
    requires '/' !in s
    ensures Split(s) == [s]
  {
    if |s| > 0 {
      assert '/' !in s[1..] by {
        forall i | 0 <= i < |s[1..]| ensures s[1..][i] != '/' { assert s[1..][i] == s[i + 1]; }
      }
      SplitNoSlash(s[1..]);
      assert [s[0]] + s[1..] == s;
    }
  }

  /** Splitting around one separator splits each side on its own. */
  lemma {:induction false} SplitConcat(a: string, b: string)
    ensures Split(a + "/" + b) == Split(a) + Split(b)
  {
    if |a| == 0 {
      assert a + "/" + b == "/" + b;
      assert ("/" + b)[1..] == b;
    } else {
      var s := a + "/" + b;
      assert s[0] == a[0];
      assert s[1..] == a[1..] + "/" + b;
      SplitConcat(a[1..], b);
    }
  }

  /** Joining the split of a string gives the string back. */
  lemma {:induction false} JoinSplit(s: string)
    ensures Join(Split(s)) == s
  {
    if |s| > 0 {
      var t := Split(s[1..]);
      JoinSplit(s[1..]);
      if s[0] == '/' {
        JoinCons("", t);
      } else {
        JoinFirstGrows(s[0], t);
      }
      assert [s[0]] + s[1..] == s;
    }
  }

  /** Joining a part in front of a non-empty list puts one separator after it. */
  lemma JoinCons(x: string, t: seq<string>)
    requires |t| >= 1
    ensures Join([x] + t) == x + "/" + Join(t)
  {
    assert ([x] + t)[1..] == t;
  }

  /** Prepending a character to the first part prepends it to the join. */
  lemma JoinFirstGrows(c: char, t: seq<string>)
    requires |t| >= 1
    ensures Join([[c] + t[0]] + t[1..]) == [c] + Join(t)
  {
    if |t| > 1 {
      JoinFirstGrowsLong(c, t[0], t[1..]);
      assert t == [t[0]] + t[1..];
    } else {
      assert [[c] + t[0]] + t[1..] == [[c] + t[0]];
    }
  }

  /** The case of `JoinFirstGrows` with more than one part. */
  lemma JoinFirstGrowsLong(c: char, x: string, rest: seq<string>)
    requires |rest| >= 1
    ensures Join([[c] + x] + rest) == [c] + Join([x] + rest)
  {
    JoinCons([c] + x, rest);
    JoinCons(x, rest);
    Assoc([c], x, "/");
    Assoc([c], x + "/", Join(rest));
  }

  /** Concatenation regroups freely. */
  lemma Assoc(a: string, b: string, d: string)
    ensures (a + b) + d == a + (b + d)
  {
  }

  /** Joining two non-empty lists of segments puts one separator between them. */
  lemma {:induction false} JoinAppend(p: seq<string>, q: seq<string>)
    requires |p| >= 1 && |q| >= 1
    ensures Join(p + q) == Join(p) + "/" + Join(q)
  {
    if |p| == 1 {
      assert (p + q)[1..] == q;
    } else {
      JoinAppend(p[1..], q);
      assert (p + q)[1..] == p[1..] + q;
    }
  }

  /** Splitting a join of separator-free segments gives the segments back. */
  lemma {:induction false} SplitJoin(parts: seq<string>)
    requires |parts| >= 1 && SlashFree(parts)
    ensures Split(Join(parts)) == parts
  {
    SplitNoSlash(parts[0]);
    if |parts| > 1 {
      SplitJoin(parts[1..]);
      SplitConcat(parts[0], Join(parts[1..]));
      assert [parts[0]] + parts[1..] == parts;
    }
  }

  /** The join starts with its first segment. */
  lemma {:induction false} JoinStartsWithFirst(parts: seq<string>)
    requires |parts| >= 1
    ensures StartsWith(Join(parts), parts[0])
  {
    if |parts| > 1 {
      assert Join(parts) == parts[0] + ("/" + Join(parts[1..]));
    }
  }

  /** The test `s === p || s.startsWith(p + "/")` the UI uses for "the path `s` is `p` or lies
      below it". */
  predicate AtOrBelow(s: string, p: string)
  {
    s == p || StartsWith(s, p + "/")
  }

  /** `AtOrBelow` holds precisely when the segments of `p` are a prefix of the segments of `s`:
      a segment is never matched partially. */
  lemma PrefixBySegments(p: string, s: string)
    ensures AtOrBelow(s, p) <==> Split(p) <= Split(s)
  {
    if AtOrBelow(s, p) {
      SegmentsOfBelow(p, s);
    }
    if Split(p) <= Split(s) {
      BelowOfSegments(p, s);
    }
  }

  /** A path at or below `p` has `p`'s segments as a prefix of its own. */
  lemma SegmentsOfBelow(p: string, s: string)
    requires AtOrBelow(s, p)
    ensures Split(p) <= Split(s)
  {
    if s != p {
      var r := s[|p| + 1..];
      assert s == p + "/" + r;
      SplitConcat(p, r);
    }
  }

  /** A path whose segments extend `p`'s lies at or below `p`. */
  lemma BelowOfSegments(p: string, s: string)
    requires Split(p) <= Split(s)
    ensures AtOrBelow(s, p)
  {
    var q, parts := Split(p), Split(s);
    JoinSplit(p);
    JoinSplit(s);
    if |q| == |parts| {
      assert q == parts;
    } else {
      var rest := parts[|q|..];
      assert parts == q + rest;
      JoinAppend(q, rest);
      assert s == p + "/" + Join(rest);
      assert (p + "/" + Join(rest))[..|p + "/"|] == p + "/";
    }
  }

  /** A string that neither is empty nor starts with the separator has a non-empty first segment. */
  lemma SplitFirstNonEmpty(s: string)
    requires s != "" && s[0] != '/'
    ensures Split(s)[0] != ""
  {
  }
}
