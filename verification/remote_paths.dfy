/** Server-side path strings: how a relative key is placed under the remote
    directory, how listing keys are built, and how the parent of a remote
    path is taken before its directories are created. */
module RemotePaths {
  import opened Strings

  /** A child under a server directory: concatenated after a trailing '/',
      otherwise with one '/' inserted. */
  function JoinUnder(dir: string, child: string): (r: string)
    ensures |dir| + |child| <= |r| <= |dir| + |child| + 1
    ensures r[..|dir|] == dir && r[|r| - |child|..] == child
    ensures EndsWithSlash(r[..|r| - |child|])
  {
    if EndsWithSlash(dir) then
      var r := dir + child;
      assert r[..|r| - |child|] == dir;
      r
    else
      var r := dir + "/" + child;
      assert r[..|r| - |child|] == dir + "/";
      r
  }

  /** The segments of a joined path are the directory's, then the child's. */
  lemma JoinUnderSegments(dir: string, child: string)
    ensures Segments(JoinUnder(dir, child)) == Segments(dir) + Segments(child)
  {
    if EndsWithSlash(dir) {
      assert dir == dir[..|dir| - 1] + "/";
      SegmentsTrailingSlash(dir[..|dir| - 1]);
      SegmentsAtSlash(dir[..|dir| - 1], child);
      assert dir[..|dir| - 1] + "/" + child == dir + child;
    } else {
      SegmentsAtSlash(dir, child);
    }
  }

  /** Where `uploadFile` puts, and `deleteRemote` removes, the file with
      relative key `rel`: the key itself under an empty remote directory,
      otherwise the key joined under it. */
  function RemotePathFor(remoteDir: string, rel: string): (r: string)
    ensures remoteDir == "" ==> r == rel
    // a directory ending in '/' is followed by the key directly, any other by
    // exactly one '/'
    ensures EndsWithSlash(remoteDir) ==> |r| == |remoteDir| + |rel|
    ensures remoteDir != "" && !EndsWithSlash(remoteDir) ==> |r| == |remoteDir| + |rel| + 1 && r[|remoteDir|] == '/'
    ensures remoteDir != "" ==> r[..|remoteDir|] == remoteDir && r[|r| - |rel|..] == rel
    ensures remoteDir != "" ==> EndsWithSlash(r[..|r| - |rel|])
  {
    if remoteDir == "" then rel else JoinUnder(remoteDir, rel)
  }

  /** The directories of an upload target are those of the remote
      directory, then those of the key. */
  lemma RemotePathSegments(remoteDir: string, rel: string)
    ensures Segments(RemotePathFor(remoteDir, rel)) == Segments(remoteDir) + Segments(rel)
  {
    if remoteDir == "" {
      assert Segments(remoteDir) == [];
    } else {
      JoinUnderSegments(remoteDir, rel);
    }
  }

  /** The string `uploadFile` passes to `ensureRemoteDirExists`: everything
      before the last '/', or "" when there is none. */
  function ParentRemote(p: string): (r: string)
    ensures HasSlash(p) ==> |r| < |p| && p[..|r|] == r && p[|r|] == '/' && !HasSlash(p[|r| + 1..])
    ensures !HasSlash(p) ==> r == ""
  {
    if HasSlash(p) then
      var i := LastSlash(p);
      var tail := p[i + 1..];
      assert !HasSlash(tail) by {
        forall j | 0 <= j < |tail| ensures tail[j] != '/' {
          assert tail[j] == p[i + 1 + j];
        }
      }
      p[..i]
    else ""
  }

  /** The last segment of a remote path. */
  function BaseName(p: string): (r: string)
    ensures !HasSlash(r)
    ensures HasSlash(p) ==> p == ParentRemote(p) + "/" + r
    ensures !HasSlash(p) ==> r == p
  {
    if HasSlash(p) then
      var par := ParentRemote(p);
      var r := p[|par| + 1..];
      assert p == par + "/" + r;
      r
    else p
  }

  /** The directories walked for the parent of a file path are exactly the
      segments of that path minus the file's own name. */
  lemma {:induction false} ParentSegments(p: string)
    requires p != "" && !EndsWithSlash(p)
    ensures ValidName(BaseName(p))
    ensures Segments(ParentRemote(p)) + [BaseName(p)] == Segments(p)
  {
    var b := BaseName(p);
    if HasSlash(p) {
      assert |b| == 0 ==> p == ParentRemote(p) + "/";
      assert b != "";
      SegmentsAtSlash(ParentRemote(p), b);
      SegmentsOfName(b);
    } else {
      SegmentsOfName(p);
      assert Segments("") == [];
    }
  }

  /** The key of a listed child: the name alone at the top level, otherwise
      the parent key and the name joined by '/'. */
  function ChildKey(prefix: string, name: string): (k: string)
    ensures prefix == "" ==> k == name
    ensures prefix != "" ==> |k| == |prefix| + 1 + |name|
    ensures prefix != "" ==> k[..|prefix|] == prefix && k[|prefix|] == '/' && k[|prefix| + 1..] == name
  {
    if prefix == "" then name else prefix + "/" + name
  }

  /** The key of a file reached through the directory names `names`. */
  function KeyOf(names: seq<string>): string
    decreases |names|
  {
    if names == [] then "" else ChildKey(KeyOf(names[..|names| - 1]), names[|names| - 1])
  }

  /** For real server names, a key never starts or ends with '/', and its
      segments are exactly the names it was built from. */
  lemma {:induction false} KeyOfValidNames(names: seq<string>)
    requires forall i :: 0 <= i < |names| ==> ValidName(names[i])
    ensures Segments(KeyOf(names)) == names
    ensures names == [] <==> KeyOf(names) == ""
    ensures names != [] ==> !StartsWithSlash(KeyOf(names)) && !EndsWithSlash(KeyOf(names))
    decreases |names|
  {
    if names == [] {
      assert Segments("") == [];
    } else {
      var pre := names[..|names| - 1];
      var n := names[|names| - 1];
      KeyOfValidNames(pre);
      SegmentsOfName(n);
      NameEnds(n);
      if pre == [] {
        assert names == [n];
      } else {
        var kp := KeyOf(pre);
        var k := KeyOf(names);
        assert k == kp + "/" + n;
        SegmentsAtSlash(kp, n);
        assert pre + [n] == names;
        assert k[0] == kp[0];
        assert k[|k| - 1] == n[|n| - 1];
      }
    }
  }
}
