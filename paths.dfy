/**
 * Splitting a track path into segments, as the browse-tree builder does with
 * the regular expression `[^/]+`, and the `'/'.join` it uses to name the
 * directory of a prefix of those segments.
 */
module Paths {

  /** Every segment is non-empty and contains no separator. */
  predicate ValidSegments(parts: seq<string>)
  {
    forall i :: 0 <= i < |parts| ==> parts[i] != [] && '/' !in parts[i]
  }

  /** The longest prefix of `s` that holds no '/'. */
  function Segment(s: string): (seg: string)
    ensures |seg| <= |s| && seg == s[..|seg|]
    ensures '/' !in seg
    ensures |seg| < |s| ==> s[|seg|] == '/'
    ensures s != [] && s[0] != '/' ==> seg != []
  {
    if s == [] || s[0] == '/' then [] else [s[0]] + Segment(s[1..])
  }

  /** All maximal runs of characters other than '/', in order. */
  function Split(s: string): (parts: seq<string>)
    ensures ValidSegments(parts)
    decreases |s|
  {
    if s == [] then []
    else if s[0] == '/' then Split(s[1..])
    else
      var seg := Segment(s);
      [seg] + Split(s[|seg|..])
  }

  /** `'/'.join(parts)`. */
  function Join(parts: seq<string>): string
  {
    if |parts| == 0 then ""
    else if |parts| == 1 then parts[0]
    else parts[0] + "/" + Join(parts[1..])
  }

  lemma {:induction false} SegmentOfPrefix(p: string, rest: string)
    requires '/' !in p
    requires rest == [] || rest[0] == '/'
    ensures Segment(p + rest) == p
  {
    if p != [] {
      assert (p + rest)[1..] == p[1..] + rest;
      SegmentOfPrefix(p[1..], rest);
    }
  }

  /** A segment followed by a separator (or nothing) splits off as the first part. */
  lemma SplitSegmentThen(p: string, rest: string)
    requires p != [] && '/' !in p
    requires rest == [] || rest[0] == '/'
    ensures Split(p + rest) == [p] + Split(rest)
  {
    SegmentOfPrefix(p, rest);
    assert (p + rest)[0] == p[0];
    assert (p + rest)[|p|..] == rest;
  }

  /** A leading separator is dropped. */
  lemma SplitSlash(s: string)
    ensures Split("/" + s) == Split(s)
  {
    assert ("/" + s)[1..] == s;
  }

  /** Splitting a join of valid segments gives the segments back. */
  lemma {:induction false} SplitJoin(parts: seq<string>)
    requires ValidSegments(parts)
    ensures Split(Join(parts)) == parts
  {
    if |parts| == 1 {
      SplitSegmentThen(parts[0], []);
      assert parts[0] + [] == parts[0];
    } else if |parts| > 1 {
      var p, j := parts[0], Join(parts[1..]);
      assert p + "/" + j == p + ("/" + j);
      SplitSegmentThen(p, "/" + j);
      SplitSlash(j);
      SplitJoin(parts[1..]);
      assert [p] + parts[1..] == parts;
    }
  }

  /**
   * Different segment lists name different directories, so a directory can be
   * identified by its list of segments.
   */
  lemma JoinInjective(p: seq<string>, q: seq<string>)
    requires ValidSegments(p) && ValidSegments(q)
    requires Join(p) == Join(q)
    ensures p == q
  {
    SplitJoin(p);
    SplitJoin(q);
  }
}
