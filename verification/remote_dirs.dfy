/** `ensureRemoteDirExists`: the remote directory string is normalised (runs
    of '/' collapsed, a leading '/' forced), split the way Java's
    `String.split("/")` splits, and its non-empty parts are walked from the
    server root, each missing directory being created on the way. */
module RemoteDirs {
  import opened Strings
  import opened Wrappers

  /** `replaceAll("/+", "/")`: every run of '/' becomes a single '/'. */
  function CollapseSlashes(s: string): (r: string)
    ensures forall i :: 0 <= i < |r| - 1 ==> !(r[i] == '/' && r[i + 1] == '/')
    ensures StartsWithSlash(r) <==> StartsWithSlash(s)
    ensures r == "" <==> s == ""
    ensures |r| <= |s|
    decreases |s|
  {
    if |s| <= 1 then s
    else if s[0] == '/' && s[1] == '/' then CollapseSlashes(s[1..])
    else [s[0]] + CollapseSlashes(s[1..])
  }

  /** Collapsing keeps the first piece and, after it, every non-empty piece. */
  lemma {:induction false} CollapseKeepsPieces(s: string)
    ensures SplitAll(CollapseSlashes(s))[0] == SplitAll(s)[0]
    ensures NonEmpty(SplitAll(CollapseSlashes(s))[1..]) == NonEmpty(SplitAll(s)[1..])
    decreases |s|
  {
    if |s| <= 1 {
    } else if s[0] == '/' && s[1] == '/' {
      CollapseKeepsPieces(s[1..]);
      assert s[1..][1..] == s[2..];
      assert SplitAll(s) == [""] + SplitAll(s[1..]);
      assert SplitAll(s[1..]) == [""] + SplitAll(s[2..]);
    } else {
      var c := CollapseSlashes(s[1..]);
      CollapseKeepsPieces(s[1..]);
      var r := [s[0]] + c;
      assert r[0] == s[0] && r[1..] == c;
      var pc := SplitAll(c);
      var ps := SplitAll(s[1..]);
      assert NonEmpty(pc) == NonEmpty(ps) by {
        assert pc == [pc[0]] + pc[1..];
        assert ps == [ps[0]] + ps[1..];
        NonEmptyAppend([pc[0]], pc[1..]);
        NonEmptyAppend([ps[0]], ps[1..]);
      }
      if s[0] == '/' {
        assert SplitAll(r) == [""] + pc;
        assert SplitAll(s) == [""] + ps;
      } else {
        assert SplitAll(r) == [[s[0]] + pc[0]] + pc[1..];
        assert SplitAll(s) == [[s[0]] + ps[0]] + ps[1..];
      }
    }
  }

  lemma CollapseKeepsSegments(s: string)
    ensures Segments(CollapseSlashes(s)) == Segments(s)
  {
    CollapseKeepsPieces(s);
    var pc := SplitAll(CollapseSlashes(s));
    var ps := SplitAll(s);
    assert pc == [pc[0]] + pc[1..];
    assert ps == [ps[0]] + ps[1..];
    NonEmptyAppend([pc[0]], pc[1..]);
    NonEmptyAppend([ps[0]], ps[1..]);
  }

  /** The path `ensureRemoteDirExists` walks: collapsed, and absolute. */
  function Normalise(s: string): (r: string)
    ensures StartsWithSlash(r)
    ensures forall i :: 0 <= i < |r| - 1 ==> !(r[i] == '/' && r[i + 1] == '/')
    ensures Segments(r) == Segments(s)
  {
    var c := CollapseSlashes(s);
    CollapseKeepsSegments(s);
    if StartsWithSlash(c) then c
    else
      SegmentsLeadingSlash(c);
      var r := "/" + c;
      assert forall i :: 1 <= i < |r| ==> r[i] == c[i - 1];
      r
  }

  /** Java's `split` drops the empty strings at the end of its result. */
  function DropTrailingEmpty(parts: seq<string>): (r: seq<string>)
    ensures |r| <= |parts| && r == parts[..|r|]
    ensures r == [] || r[|r| - 1] != ""
    ensures NonEmpty(r) == NonEmpty(parts)
    decreases |parts|
  {
    if parts != [] && parts[|parts| - 1] == "" then
      var init := parts[..|parts| - 1];
      assert parts == init + [""];
      NonEmptyAppend(init, [""]);
      var r := DropTrailingEmpty(init);
      assert init[..|r|] == parts[..|r|];
      r
    else parts
  }

  /** Taking one more part extends the non-empty parts seen so far, and
      those always form a prefix of all the non-empty parts. */
  lemma NonEmptyStep(parts: seq<string>, i: nat)
    requires i < |parts|
    ensures NonEmpty(parts[..i + 1]) == NonEmpty(parts[..i]) + (if parts[i] == "" then [] else [parts[i]])
    ensures |NonEmpty(parts[..i + 1])| <= |NonEmpty(parts)|
    ensures NonEmpty(parts[..i + 1]) == NonEmpty(parts)[..|NonEmpty(parts[..i + 1])|]
  {
    assert parts[..i + 1] == parts[..i] + [parts[i]];
    NonEmptyAppend(parts[..i], [parts[i]]);
    assert parts == parts[..i + 1] + parts[i + 1..];
    NonEmptyAppend(parts[..i + 1], parts[i + 1..]);
  }

  /** `s.split("/")`: the whole string when it holds no '/', otherwise every
      piece between separators except the trailing empty ones. */
  function JavaSplit(s: string): (parts: seq<string>)
    ensures NonEmpty(parts) == Segments(s)
  {
    if !HasSlash(s) then
      SplitNoSlash(s);
      [s]
    else DropTrailingEmpty(SplitAll(s))
  }

  /** The directories on the way to `visited`, each as its list of segments. */
  function Prefixes(visited: seq<string>): (ps: set<seq<string>>)
    ensures forall j :: 1 <= j <= |visited| ==> visited[..j] in ps
    ensures forall d :: d in ps ==> 1 <= |d| <= |visited| && d == visited[..|d|]
  {
    set j | 1 <= j <= |visited| :: visited[..j]
  }

  lemma PrefixesStep(visited: seq<string>, part: string)
    ensures Prefixes(visited + [part]) == Prefixes(visited) + {visited + [part]}
  {
    var next := visited + [part];
    assert forall j :: 1 <= j <= |visited| ==> next[..j] == visited[..j];
    assert next[..|next|] == next;
  }

  /** The state of the walk after entering `visited`: every directory on
      the way exists, and the only directories added are on the way. */
  ghost predicate Walked(dirs: set<seq<string>>, dirs': set<seq<string>>, visited: seq<string>) {
    dirs <= dirs' && Prefixes(visited) <= dirs' && dirs' <= dirs + Prefixes(visited)
  }

  lemma WalkedStep(dirs: set<seq<string>>, dirs': set<seq<string>>, visited: seq<string>, part: string, added: set<seq<string>>)
    requires Walked(dirs, dirs', visited)
    requires added == {} || added == {visited + [part]}
    requires visited + [part] in dirs' + added
    ensures Walked(dirs, dirs' + added, visited + [part])
  {
    PrefixesStep(visited, part);
  }

  lemma PrefixStep(segs: seq<string>, visited: seq<string>, part: string)
    requires |visited| + 1 <= |segs| && visited + [part] == segs[..|visited| + 1]
    ensures visited == segs[..|visited|]
  {
    assert segs[..|visited|] == segs[..|visited| + 1][..|visited|];
    assert visited == (visited + [part])[..|visited|];
  }

  /** `Prefixes` of a prefix of `segs` are among the `Prefixes` of `segs`. */
  lemma PrefixesOfPrefix(segs: seq<string>, visited: seq<string>)
    requires |visited| <= |segs| && visited == segs[..|visited|]
    ensures Prefixes(visited) <= Prefixes(segs)
  {
    forall d | d in Prefixes(visited) ensures d in Prefixes(segs) {
      assert d == segs[..|d|];
    }
  }

  /** The walk stopped at `next`: `cd` into it was refused, or it was
      missing and `mkdir` was refused. */
  predicate StuckAt(dirs': set<seq<string>>, next: seq<string>, mkdirOk: seq<string> -> bool, cdOk: seq<string> -> bool) {
    !cdOk(next) || (next !in dirs' && !mkdirOk(next))
  }

  /** Every directory on the way to `segs` can be entered, or created and
      then entered, starting from the directories `dirs` that exist. */
  predicate Enterable(dirs: set<seq<string>>, segs: seq<string>, mkdirOk: seq<string> -> bool, cdOk: seq<string> -> bool) {
    forall n :: 1 <= n <= |segs| ==> !StuckAt(dirs, segs[..n], mkdirOk, cdOk)
  }

  /** One step of the walk: `cd(part)`, or on failure `mkdir(part)` then
      `cd(part)`. A `cd` succeeds when the directory exists and `cdOk`
      allows it; `cur` holds the directories that exist. */
  method EnterOrCreate(dirs: set<seq<string>>, cur: set<seq<string>>, visited: seq<string>, part: string,
                       mkdirOk: seq<string> -> bool, cdOk: seq<string> -> bool)
    returns (cur': set<seq<string>>, ok: bool)
    requires Walked(dirs, cur, visited)
    ensures ok <==> cdOk(visited + [part]) && (visited + [part] in cur || mkdirOk(visited + [part]))
    ensures ok ==> Walked(dirs, cur', visited + [part])
    // a refused `cd` after a successful `mkdir` leaves the new directory behind
    ensures !ok ==> cur' == cur + (if mkdirOk(visited + [part]) then {visited + [part]} else {})
    ensures !ok ==> StuckAt(cur', visited + [part], mkdirOk, cdOk)
    // judged against the directories that existed before the walk
    ensures ok <==> !StuckAt(dirs, visited + [part], mkdirOk, cdOk)
    // only `visited + [part]` may be created, and only when `mkdir` is allowed
    ensures cur <= cur'
    ensures forall d :: d in cur' && d !in cur ==> d == visited + [part] && mkdirOk(d)
  {
    var next := visited + [part];
    assert next in cur <==> next in dirs by {
      assert next !in Prefixes(visited);
    }
    if next in cur && cdOk(next) {
      WalkedStep(dirs, cur, visited, part, {});
      assert cur + {} == cur;
      return cur, true;
    }
    if !mkdirOk(next) {
      assert cur + {} == cur;
      return cur, false;
    }
    if !cdOk(next) {
      return cur + {next}, false;
    }
    WalkedStep(dirs, cur, visited, part, {next});
    return cur + {next}, true;
  }

  /** A step of the walk that was allowed keeps every step so far allowed. */
  lemma StepTaken(dirs: set<seq<string>>, visited: seq<string>, part: string, mkdirOk: seq<string> -> bool, cdOk: seq<string> -> bool)
    requires Enterable(dirs, visited, mkdirOk, cdOk)
    requires !StuckAt(dirs, visited + [part], mkdirOk, cdOk)
    ensures Enterable(dirs, visited + [part], mkdirOk, cdOk)
  {
    var next := visited + [part];
    assert forall n :: 1 <= n < |next| ==> next[..n] == visited[..n];
    assert next[..|next|] == next;
  }

  /** A refused step at `segs[..|visited| + 1]`: the walk so far is a prefix
      of `segs`, nothing beyond the refused directory was created, and
      `segs` as a whole cannot be walked. */
  lemma StepRefused(segs: seq<string>, dirs: set<seq<string>>, before: set<seq<string>>, after: set<seq<string>>,
                    visited: seq<string>, part: string, mkdirOk: seq<string> -> bool, cdOk: seq<string> -> bool)
    requires |visited| + 1 <= |segs| && visited + [part] == segs[..|visited| + 1]
    requires Walked(dirs, before, visited) && Enterable(dirs, visited, mkdirOk, cdOk)
    requires before <= after
    requires forall d :: d in after && d !in before ==> d == visited + [part] && mkdirOk(d)
    requires StuckAt(dirs, visited + [part], mkdirOk, cdOk)
    ensures visited == segs[..|visited|]
    ensures dirs <= after <= dirs + Prefixes(segs[..|visited| + 1])
    ensures Prefixes(visited) <= after
    ensures forall d :: d in after && d !in dirs ==> mkdirOk(d)
    ensures !Enterable(dirs, segs, mkdirOk, cdOk)
  {
    PrefixStep(segs, visited, part);
    PrefixesStep(visited, part);
    assert after <= before + {visited + [part]};
    CreatedAllowed(dirs, before, visited, mkdirOk, cdOk);
  }

  /** After an allowed walk only directories `mkdir` allowed are new. */
  lemma CreatedAllowed(dirs: set<seq<string>>, dirs': set<seq<string>>, visited: seq<string>,
                       mkdirOk: seq<string> -> bool, cdOk: seq<string> -> bool)
    requires dirs' <= dirs + Prefixes(visited) && Enterable(dirs, visited, mkdirOk, cdOk)
    ensures forall d :: d in dirs' && d !in dirs ==> mkdirOk(d)
  {
    forall d | d in dirs' && d !in dirs ensures mkdirOk(d) {
      assert !StuckAt(dirs, visited[..|d|], mkdirOk, cdOk);
    }
  }

  /** Walks `parts` from the server root, skipping the empty ones: a
      directory that exists is entered, a missing one is created and then
      entered, and a refused `cd` or `mkdir` ends the walk. */
  method WalkParts(parts: seq<string>, dirs: set<seq<string>>, mkdirOk: seq<string> -> bool, cdOk: seq<string> -> bool)
    returns (dirs': set<seq<string>>, ok: bool, visited: seq<string>)
    ensures ok ==> visited == NonEmpty(parts) && Walked(dirs, dirs', visited)
    ensures !ok ==> |visited| < |NonEmpty(parts)|
                    && visited == NonEmpty(parts)[..|visited|]
                    && StuckAt(dirs', NonEmpty(parts)[..|visited| + 1], mkdirOk, cdOk)
                    && dirs <= dirs' <= dirs + Prefixes(NonEmpty(parts)[..|visited| + 1])
    ensures Prefixes(visited) <= dirs'
    // a directory is created only when `mkdir` is allowed
    ensures forall d :: d in dirs' && d !in dirs ==> mkdirOk(d)
    // every step taken was allowed, and the walk stops at the first refused one
    ensures Enterable(dirs, visited, mkdirOk, cdOk)
    ensures !ok ==> StuckAt(dirs, NonEmpty(parts)[..|visited| + 1], mkdirOk, cdOk)
    ensures ok <==> Enterable(dirs, NonEmpty(parts), mkdirOk, cdOk)
  {
    dirs' := dirs;
    visited := [];
    ghost var segs := NonEmpty(parts);
    var i := 0;
    while i < |parts|
      invariant 0 <= i <= |parts|
      invariant visited == NonEmpty(parts[..i])
      invariant Walked(dirs, dirs', visited)
      invariant Enterable(dirs, visited, mkdirOk, cdOk)
    {
      var part := parts[i];
      NonEmptyStep(parts, i);
      if part != "" {
        var next := visited + [part];
        assert next == segs[..|next|];
        var entered;
        ghost var before := dirs';
        dirs', entered := EnterOrCreate(dirs, dirs', visited, part, mkdirOk, cdOk);
        if !entered {
          ok := false;
          StepRefused(segs, dirs, before, dirs', visited, part, mkdirOk, cdOk);
          return;
        }
        StepTaken(dirs, visited, part, mkdirOk, cdOk);
        visited := next;
      }
      i := i + 1;
    }
    assert parts[..i] == parts;
    CreatedAllowed(dirs, dirs', visited, mkdirOk, cdOk);
    ok := true;
  }

  /** Walks the directories of `remoteDir` from the server root: `cd("/")`,
      then each directory that exists is entered, and a missing one is
      created (`mkdirOk` says whether the server lets it be) and then
      entered (`cdOk` says whether `cd` is allowed; `[]` is the root).
      `dirs` holds the directories that exist, each as the list of its
      segments from the root; `visited` returns the names entered, in
      order. On a refused `cd` or `mkdir`, `ensureRemoteDirExists` throws
      `SftpException`, leaving the directories made so far in place. */
  method EnsureRemoteDirExists(remoteDir: Option<string>, dirs: set<seq<string>>,
                               mkdirOk: seq<string> -> bool, cdOk: seq<string> -> bool)
    returns (dirs': set<seq<string>>, ok: bool, visited: seq<string>)
    ensures remoteDir == None || remoteDir == Some("") ==> ok && dirs' == dirs && visited == []
    ensures ok && remoteDir.Some? ==> visited == Segments(remoteDir.value) && Walked(dirs, dirs', visited)
    // a refused `cd("/")` throws before anything is created
    ensures remoteDir.Some? && remoteDir.value != "" && !cdOk([]) ==> !ok && dirs' == dirs && visited == []
    ensures !ok && cdOk([]) ==>
              && remoteDir.Some? && |visited| < |Segments(remoteDir.value)|
              && visited == Segments(remoteDir.value)[..|visited|]
              && StuckAt(dirs', Segments(remoteDir.value)[..|visited| + 1], mkdirOk, cdOk)
    // only directories on the way to `remoteDir` are created
    ensures remoteDir.Some? ==> dirs <= dirs' <= dirs + Prefixes(Segments(remoteDir.value))
    ensures Prefixes(visited) <= dirs'
    // ... and only those `mkdir` allowed
    ensures forall d :: d in dirs' && d !in dirs ==> mkdirOk(d)
    // the walk succeeds exactly when `cd("/")` and every step are allowed,
    // and a failed one stops at its first refused step
    ensures remoteDir.Some? && remoteDir.value != "" ==>
              (ok <==> cdOk([]) && Enterable(dirs, Segments(remoteDir.value), mkdirOk, cdOk))
    ensures Enterable(dirs, visited, mkdirOk, cdOk)
    ensures !ok && cdOk([]) ==> StuckAt(dirs, Segments(remoteDir.value)[..|visited| + 1], mkdirOk, cdOk)
  {
    if remoteDir == None || remoteDir == Some("") {
      return dirs, true, [];
    }
    if !cdOk([]) {
      return dirs, false, [];
    }
    var path := Normalise(remoteDir.value);
    var parts := JavaSplit(path);
    dirs', ok, visited := WalkParts(parts, dirs, mkdirOk, cdOk);
    ghost var segs := Segments(remoteDir.value);
    assert NonEmpty(parts) == segs;
    if !ok {
      PrefixesOfPrefix(segs, segs[..|visited| + 1]);
    } else {
      PrefixesOfPrefix(segs, visited);
    }
  }
}
