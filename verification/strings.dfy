/** Slash-separated strings: the pieces between '/' characters, and the
    non-empty pieces ("segments") that name directories and files. */
module Strings {

  predicate HasSlash(s: string) {
    '/' in s
  }

  predicate StartsWithSlash(s: string) {
    |s| > 0 && s[0] == '/'
  }

  predicate EndsWithSlash(s: string) {
    |s| > 0 && s[|s| - 1] == '/'
  }

  /** A file or directory name as an SFTP server reports it: non-empty and
      free of the separator. */
  predicate ValidName(n: string) {
    n != "" && !HasSlash(n)
  }

  /** Every piece between separators, empty ones included: a string with
      c slashes has c + 1 pieces. */
  function SplitAll(s: string): (parts: seq<string>)
    ensures |parts| >= 1
    ensures forall i :: 0 <= i < |parts| ==> !HasSlash(parts[i])
    decreases |s|
  {
    if s == [] then [""]
    else
      var rest := SplitAll(s[1..]);
      if s[0] == '/' then [""] + rest
      else [[s[0]] + rest[0]] + rest[1..]
  }

  /** The pieces that are not empty, in order. */
  function NonEmpty(parts: seq<string>): (r: seq<string>)
    ensures forall i :: 0 <= i < |r| ==> r[i] != "" && r[i] in parts
    ensures |r| <= |parts|
  {
    if parts == [] then []
    else if parts[0] == "" then NonEmpty(parts[1..])
    else [parts[0]] + NonEmpty(parts[1..])
  }

  /** The non-empty '/'-separated segments of a path, in order. */
  function Segments(s: string): (segs: seq<string>)
    ensures forall i :: 0 <= i < |segs| ==> ValidName(segs[i])
  {
    NonEmpty(SplitAll(s))
  }

  lemma {:induction false} NonEmptyAppend(a: seq<string>, b: seq<string>)
    ensures NonEmpty(a + b) == NonEmpty(a) + NonEmpty(b)
    decreases |a|
  {
    if a == [] {
      assert a + b == b;
    } else {
      assert (a + b)[1..] == a[1..] + b;
      NonEmptyAppend(a[1..], b);
    }
  }

  lemma {:induction false} SplitNoSlash(s: string)
    requires !HasSlash(s)
    ensures SplitAll(s) == [s]
    decreases |s|
  {
    if s != [] {
      assert !HasSlash(s[1..]) by {
        forall i | 0 <= i < |s[1..]| ensures s[1..][i] != '/' {
          assert s[1..][i] == s[i + 1];
        }
      }
      SplitNoSlash(s[1..]);
      assert [s[0]] + s[1..] == s;
    }
  }

  /** Splitting at a separator splits the pieces. */
  lemma {:induction false} SplitAtSlash(a: string, b: string)
    ensures SplitAll(a + "/" + b) == SplitAll(a) + SplitAll(b)
    decreases |a|
  {
    if a == [] {
      assert a + "/" + b == "/" + b;
      assert ("/" + b)[1..] == b;
    } else {
      assert (a + "/" + b)[1..] == a[1..] + "/" + b;
      assert (a + "/" + b)[0] == a[0];
      SplitAtSlash(a[1..], b);
    }
  }

  /** The segments of a join are the segments of its two sides. */
  lemma SegmentsAtSlash(a: string, b: string)
    ensures Segments(a + "/" + b) == Segments(a) + Segments(b)
  {
    SplitAtSlash(a, b);
    NonEmptyAppend(SplitAll(a), SplitAll(b));
  }

  lemma NameEnds(n: string)
    requires ValidName(n)
    ensures !StartsWithSlash(n) && !EndsWithSlash(n)
  {
    assert n[0] in n && n[|n| - 1] in n;
  }

  lemma SegmentsOfName(n: string)
    requires ValidName(n)
    ensures Segments(n) == [n]
  {
    SplitNoSlash(n);
  }

  lemma SegmentsLeadingSlash(s: string)
    ensures Segments("/" + s) == Segments(s)
  {
    SegmentsAtSlash("", s);
    assert "" + "/" + s == "/" + s;
  }

  lemma SegmentsTrailingSlash(s: string)
    ensures Segments(s + "/") == Segments(s)
  {
    SegmentsAtSlash(s, "");
    assert s + "/" + "" == s + "/";
  }

  /** Index of the last '/' of a string that has one. */
  function LastSlash(s: string): (i: nat)
    requires HasSlash(s)
    ensures i < |s| && s[i] == '/'
    ensures forall j :: i < j < |s| ==> s[j] != '/'
  {
    if s[|s| - 1] == '/' then |s| - 1
    else
      assert HasSlash(s[..|s| - 1]) by {
        var k :| 0 <= k < |s| && s[k] == '/';
        assert s[..|s| - 1][k] == '/';
      }
      LastSlash(s[..|s| - 1])
  }
}
