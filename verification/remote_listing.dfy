/** `collectRemoteFiles`: the recursive listing of the remote directory into
    the remote inventory, keyed by the '/'-joined relative path of each
    regular file. The server's tree is a datatype: each directory entry
    carries the listing `channel.ls` would return for it, and a listing
    that throws is `Unreadable`. */
module RemoteListing {
  import opened JavaLong
  import opened Wrappers
  import opened Strings
  import opened RemotePaths
  import opened Inventory

  datatype Listing = Unreadable | Listed(entries: seq<Entry>)

  /** One `LsEntry`: its file name and what its attributes say it is. */
  datatype Entry = Entry(name: string, kind: Kind)

  /** `isDir()`, `isReg()` with its size and mtime, or neither (a link, a
      device, ...). */
  datatype Kind = Directory(contents: Listing) | RegularFile(size: Long, mtime: Int32) | OtherKind

  /** The two names the listing ignores. */
  predicate Skipped(name: string) {
    name == "." || name == ".."
  }

  /** The path `channel.ls` is given for the directory with key `prefix`. */
  function ListedPath(base: string, prefix: string): string {
    if prefix == "" then base else JoinUnder(base, prefix)
  }

  /** Lists the directory with key `prefix`, adding its regular files to
      `out`; `None` when some listing on the way throws. */
  function CollectDir(base: string, prefix: string, l: Listing, out: map<string, RemoteMeta>): (r: Option<map<string, RemoteMeta>>)
    ensures r.Some? ==> out.Keys <= r.value.Keys
    decreases l, if l.Listed? then |l.entries| + 1 else 0
  {
    match l
    case Unreadable => None
    case Listed(entries) => CollectEntries(base, prefix, l, 0, out)
  }

  /** The loop over the entries of a listing, from the `i`-th on. */
  function CollectEntries(base: string, prefix: string, l: Listing, i: nat, out: map<string, RemoteMeta>): (r: Option<map<string, RemoteMeta>>)
    requires l.Listed? && i <= |l.entries|
    ensures r.Some? ==> out.Keys <= r.value.Keys
    decreases l, |l.entries| - i
  {
    if i == |l.entries| then Some(out)
    else
      var e := l.entries[i];
      if Skipped(e.name) then CollectEntries(base, prefix, l, i + 1, out)
      else
        var childRel := ChildKey(prefix, e.name);
        var childRemote := JoinUnder(ListedPath(base, prefix), e.name);
        match e.kind
        case Directory(sub) =>
          (match CollectDir(base, childRel, sub, out)
           case None => None
           case Some(out') => CollectEntries(base, prefix, l, i + 1, out'))
        case RegularFile(size, mtime) =>
          CollectEntries(base, prefix, l, i + 1, out[childRel := RemoteMeta(childRemote, size, mtime)])
        case OtherKind => CollectEntries(base, prefix, l, i + 1, out)
  }

  /** `collectRemoteFiles(remoteBase, "", new HashMap<>())`. */
  function CollectRemoteFiles(base: string, root: Listing): Option<map<string, RemoteMeta>> {
    CollectDir(base, "", root, map[])
  }

  // ---------------------------------------------------------------------
  // The reference: which files a tree holds, and under which key.

  /** The key of the file reached from the directory keyed `prefix`
      through the names `path`. */
  function KeyUnder(prefix: string, path: seq<string>): string
    decreases |path|
  {
    if path == [] then prefix else KeyUnder(ChildKey(prefix, path[0]), path[1..])
  }

  /** `path` leads from listing `l` through directories to a regular file
      of that size and mtime, never through "." or "..". */
  ghost predicate FileAt(l: Listing, path: seq<string>, size: Long, mtime: Int32)
    decreases |path|, 1
  {
    l.Listed? && exists j :: 0 <= j < |l.entries| && EntryHolds(l.entries[j], path, size, mtime)
  }

  ghost predicate EntryHolds(e: Entry, path: seq<string>, size: Long, mtime: Int32)
    decreases |path|, 0
  {
    && |path| >= 1 && e.name == path[0] && !Skipped(e.name)
    && if |path| == 1 then e.kind == RegularFile(size, mtime)
       else e.kind.Directory? && FileAt(e.kind.contents, path[1..], size, mtime)
  }

  /** Some listing reachable without "." or ".." throws. */
  ghost predicate HasUnreadable(l: Listing)
    decreases l, 2
  {
    l.Unreadable? || UnreadableFrom(l, 0)
  }

  /** Some entry from the `i`-th on leads to a listing that throws. */
  ghost predicate UnreadableFrom(l: Listing, i: nat)
    requires l.Listed?
    decreases l, 1
  {
    exists j :: i <= j < |l.entries| && UnreadableUnder(l, j)
  }

  ghost predicate UnreadableUnder(l: Listing, j: nat)
    requires l.Listed? && j < |l.entries|
    decreases l, 0
  {
    var e := l.entries[j];
    !Skipped(e.name) && e.kind.Directory? && HasUnreadable(e.kind.contents)
  }

  /** Every name the server reports is a real file name. */
  ghost predicate NamesValid(l: Listing)
    decreases l
  {
    l.Listed? ==> forall j :: 0 <= j < |l.entries| ==> EntryValid(l, j)
  }

  ghost predicate EntryValid(l: Listing, j: nat)
    requires l.Listed? && j < |l.entries|
    decreases l, 0
  {
    ValidName(l.entries[j].name) && (l.entries[j].kind.Directory? ==> NamesValid(l.entries[j].kind.contents))
  }

  /** Where the listing says the file with key `k` lives: the upload path
      under a non-empty base, and `k` after a '/' under an empty one. */
  function ListedRemotePath(base: string, k: string): string {
    if base == "" then "/" + k else RemotePathFor(base, k)
  }

  /** The entry recorded for `k` comes from a file of the tree at key `k`
      and lives where the listing puts that key. */
  ghost predicate FromTree(base: string, l: Listing, prefix: string, k: string, m: RemoteMeta) {
    && (exists path :: FileAt(l, path, m.size, m.mtime) && k == KeyUnder(prefix, path))
    && m.remotePath == ListedRemotePath(base, k)
  }

  ghost predicate FromEntries(base: string, l: Listing, i: nat, prefix: string, k: string, m: RemoteMeta)
    requires l.Listed?
  {
    && (exists path, j :: i <= j < |l.entries| && EntryHolds(l.entries[j], path, m.size, m.mtime) && k == KeyUnder(prefix, path))
    && m.remotePath == ListedRemotePath(base, k)
  }

  // ---------------------------------------------------------------------
  // Keys and remote paths.

  lemma {:induction false} KeyUnderAppend(prefix: string, path: seq<string>, n: string)
    ensures KeyUnder(prefix, path + [n]) == ChildKey(KeyUnder(prefix, path), n)
    decreases |path|
  {
    if path == [] {
      assert ([] + [n])[1..] == [];
    } else {
      assert (path + [n])[1..] == path[1..] + [n];
      KeyUnderAppend(ChildKey(prefix, path[0]), path[1..], n);
    }
  }

  /** At the top level a key is `KeyOf` of its names: no leading '/', and
      for real names its segments are those names. */
  lemma {:induction false} KeyUnderTop(names: seq<string>)
    ensures KeyUnder("", names) == KeyOf(names)
    decreases |names|
  {
    if names != [] {
      var init := names[..|names| - 1];
      KeyUnderTop(init);
      assert names == init + [names[|names| - 1]];
      KeyUnderAppend("", init, names[|names| - 1]);
    }
  }

  /** A child's remote path as the listing builds it is where the listing
      puts the child's key. */
  lemma ChildRemotePath(base: string, prefix: string, n: string)
    requires prefix == "" || !EndsWithSlash(prefix)
    ensures JoinUnder(ListedPath(base, prefix), n) == ListedRemotePath(base, ChildKey(prefix, n))
  {
    if prefix != "" {
      NestedRemotePath(base, prefix, n);
    }
  }

  lemma NestedRemotePath(base: string, prefix: string, n: string)
    requires prefix != "" && !EndsWithSlash(prefix)
    ensures JoinUnder(ListedPath(base, prefix), n) == ListedRemotePath(base, prefix + "/" + n)
  {
    var k := prefix + "/" + n;
    var sep := if EndsWithSlash(base) then "" else "/";
    var lp := base + sep + prefix;
    assert ListedPath(base, prefix) == lp by {
      JoinShape(base, prefix);
    }
    assert !EndsWithSlash(lp) by {
      assert lp[|lp| - 1] == prefix[|prefix| - 1];
    }
    assert JoinUnder(lp, n) == base + sep + k by {
      JoinShape(lp, n);
      assert lp + "/" + n == base + sep + k;
    }
    assert ListedRemotePath(base, k) == base + sep + k by {
      JoinShape(base, k);
      if base == "" {
        assert base + sep + k == "/" + k;
      }
    }
  }

  lemma JoinShape(dir: string, child: string)
    ensures JoinUnder(dir, child) == dir + (if EndsWithSlash(dir) then "" else "/") + child
  {
  }

  // ---------------------------------------------------------------------
  // The listing fails exactly when a listing on the way throws.

  lemma {:induction false} DirFails(base: string, prefix: string, l: Listing, out: map<string, RemoteMeta>)
    ensures CollectDir(base, prefix, l, out).None? <==> HasUnreadable(l)
    decreases l, if l.Listed? then |l.entries| + 1 else 0
  {
    if l.Unreadable? {
      assert CollectDir(base, prefix, l, out).None?;
      assert HasUnreadable(l);
    } else {
      EntriesFail(base, prefix, l, 0, out);
      assert CollectDir(base, prefix, l, out) == CollectEntries(base, prefix, l, 0, out);
    }
  }

  lemma {:induction false} EntriesFail(base: string, prefix: string, l: Listing, i: nat, out: map<string, RemoteMeta>)
    requires l.Listed? && i <= |l.entries|
    ensures CollectEntries(base, prefix, l, i, out).None? <==> UnreadableFrom(l, i)
    decreases l, |l.entries| - i
  {
    if i < |l.entries| {
      var e := l.entries[i];
      var childRel := ChildKey(prefix, e.name);
      if Skipped(e.name) || !e.kind.Directory? {
        assert !UnreadableUnder(l, i);
        if e.kind.RegularFile? && !Skipped(e.name) {
          var childRemote := JoinUnder(ListedPath(base, prefix), e.name);
          EntriesFail(base, prefix, l, i + 1, out[childRel := RemoteMeta(childRemote, e.kind.size, e.kind.mtime)]);
        } else {
          EntriesFail(base, prefix, l, i + 1, out);
        }
        EntriesFailShift(l, i);
      } else {
        DirFails(base, childRel, e.kind.contents, out);
        var sub := CollectDir(base, childRel, e.kind.contents, out);
        if sub.Some? {
          assert !UnreadableUnder(l, i);
          EntriesFail(base, prefix, l, i + 1, sub.value);
          EntriesFailShift(l, i);
        } else {
          assert CollectEntries(base, prefix, l, i, out) == None;
          assert UnreadableUnder(l, i);
        }
      }
    }
  }

  lemma EntriesFailShift(l: Listing, i: nat)
    requires l.Listed? && i < |l.entries| && !UnreadableUnder(l, i)
    ensures UnreadableFrom(l, i) <==> UnreadableFrom(l, i + 1)
  {
  }

  /** A listing that returned fails nowhere on the way. */
  lemma ListingFails(base: string, root: Listing)
    ensures CollectRemoteFiles(base, root).None? <==> HasUnreadable(root)
  {
    DirFails(base, "", root, map[]);
  }

  // ---------------------------------------------------------------------
  // Every file of the tree is listed.

  lemma {:induction false} DirComplete(base: string, prefix: string, l: Listing, out: map<string, RemoteMeta>,
                                       r: Option<map<string, RemoteMeta>>, path: seq<string>, size: Long, mtime: Int32)
    requires r == CollectDir(base, prefix, l, out) && r.Some?
    requires FileAt(l, path, size, mtime)
    ensures KeyUnder(prefix, path) in r.value
    decreases l, if l.Listed? then |l.entries| + 1 else 0
  {
    var j :| 0 <= j < |l.entries| && EntryHolds(l.entries[j], path, size, mtime);
    EntriesComplete(base, prefix, l, 0, out, r, path, j, size, mtime);
  }

  lemma {:induction false} EntriesComplete(base: string, prefix: string, l: Listing, i: nat, out: map<string, RemoteMeta>,
                                           r: Option<map<string, RemoteMeta>>, path: seq<string>, j: nat, size: Long, mtime: Int32)
    requires l.Listed? && i <= j < |l.entries|
    requires r == CollectEntries(base, prefix, l, i, out) && r.Some?
    requires EntryHolds(l.entries[j], path, size, mtime)
    ensures KeyUnder(prefix, path) in r.value
    decreases l, |l.entries| - i
  {
    var e := l.entries[i];
    var childRel := ChildKey(prefix, e.name);
    if i < j {
      if Skipped(e.name) || e.kind.OtherKind? {
        EntriesComplete(base, prefix, l, i + 1, out, r, path, j, size, mtime);
      } else if e.kind.RegularFile? {
        var childRemote := JoinUnder(ListedPath(base, prefix), e.name);
        EntriesComplete(base, prefix, l, i + 1, out[childRel := RemoteMeta(childRemote, e.kind.size, e.kind.mtime)], r, path, j, size, mtime);
      } else {
        var sub := CollectDir(base, childRel, e.kind.contents, out);
        EntriesComplete(base, prefix, l, i + 1, sub.value, r, path, j, size, mtime);
      }
    } else {
      assert KeyUnder(prefix, path) == KeyUnder(childRel, path[1..]);
      if |path| == 1 {
        assert KeyUnder(childRel, path[1..]) == childRel;
      } else {
        var sub := CollectDir(base, childRel, e.kind.contents, out);
        DirComplete(base, childRel, e.kind.contents, out, sub, path[1..], size, mtime);
      }
    }
  }

  /** Completeness: when the listing succeeds, every regular file of the
      tree is in the inventory under the key of its names. */
  lemma TreeFilesListed(base: string, root: Listing, path: seq<string>, size: Long, mtime: Int32)
    requires CollectRemoteFiles(base, root).Some?
    requires FileAt(root, path, size, mtime)
    ensures KeyUnder("", path) in CollectRemoteFiles(base, root).value
    ensures KeyUnder("", path) == KeyOf(path)
  {
    DirComplete(base, "", root, map[], CollectRemoteFiles(base, root), path, size, mtime);
    KeyUnderTop(path);
  }

  // ---------------------------------------------------------------------
  // Every listed entry is a file of the tree, at the path the upload uses.

  lemma {:induction false} DirSound(base: string, prefix: string, l: Listing, out: map<string, RemoteMeta>,
                                    r: Option<map<string, RemoteMeta>>)
    requires r == CollectDir(base, prefix, l, out) && r.Some?
    requires prefix == "" || !EndsWithSlash(prefix)
    requires NamesValid(l)
    ensures forall k :: k in r.value ==> (k in out && r.value[k] == out[k]) || FromTree(base, l, prefix, k, r.value[k])
    decreases l, if l.Listed? then |l.entries| + 1 else 0
  {
    EntriesSound(base, prefix, l, 0, out, r);
    forall k | k in r.value && !(k in out && r.value[k] == out[k])
      ensures FromTree(base, l, prefix, k, r.value[k])
    {
      var m := r.value[k];
      assert FromEntries(base, l, 0, prefix, k, m);
      var path, j :| 0 <= j < |l.entries| && EntryHolds(l.entries[j], path, m.size, m.mtime) && k == KeyUnder(prefix, path);
      assert FileAt(l, path, m.size, m.mtime);
    }
  }

  lemma {:induction false} EntriesSound(base: string, prefix: string, l: Listing, i: nat, out: map<string, RemoteMeta>,
                                        r: Option<map<string, RemoteMeta>>)
    requires l.Listed? && i <= |l.entries|
    requires r == CollectEntries(base, prefix, l, i, out) && r.Some?
    requires prefix == "" || !EndsWithSlash(prefix)
    requires NamesValid(l)
    ensures forall k :: k in r.value ==> (k in out && r.value[k] == out[k]) || FromEntries(base, l, i, prefix, k, r.value[k])
    decreases l, |l.entries| - i
  {
    if i < |l.entries| {
      var e := l.entries[i];
      var childRel := ChildKey(prefix, e.name);
      assert EntryValid(l, i);
      if Skipped(e.name) || e.kind.OtherKind? {
        EntriesSound(base, prefix, l, i + 1, out, r);
        LaterEntries(base, l, i, prefix, r.value);
      } else if e.kind.RegularFile? {
        var childRemote := JoinUnder(ListedPath(base, prefix), e.name);
        var m := RemoteMeta(childRemote, e.kind.size, e.kind.mtime);
        var out1 := out[childRel := m];
        EntriesSound(base, prefix, l, i + 1, out1, r);
        LaterEntries(base, l, i, prefix, r.value);
        ChildRemotePath(base, prefix, e.name);
        assert KeyUnder(prefix, [e.name]) == childRel;
        assert EntryHolds(e, [e.name], m.size, m.mtime);
        assert FromEntries(base, l, i, prefix, childRel, m);
      } else {
        var sub := e.kind.contents;
        NameEnds(e.name);
        var s := CollectDir(base, childRel, sub, out);
        DirSound(base, childRel, sub, out, s);
        EntriesSound(base, prefix, l, i + 1, s.value, r);
        LaterEntries(base, l, i, prefix, r.value);
        forall k | k in s.value && !(k in out && s.value[k] == out[k])
          ensures FromEntries(base, l, i, prefix, k, s.value[k])
        {
          FromSubdirectory(base, l, i, prefix, k, s.value[k]);
        }
      }
    }
  }

  /** A file of the `i`-th entry's directory is a file of the listing. */
  lemma FromSubdirectory(base: string, l: Listing, i: nat, prefix: string, k: string, m: RemoteMeta)
    requires l.Listed? && i < |l.entries|
    requires !Skipped(l.entries[i].name) && l.entries[i].kind.Directory?
    requires FromTree(base, l.entries[i].kind.contents, ChildKey(prefix, l.entries[i].name), k, m)
    ensures FromEntries(base, l, i, prefix, k, m)
  {
    var e := l.entries[i];
    var p :| FileAt(e.kind.contents, p, m.size, m.mtime) && k == KeyUnder(ChildKey(prefix, e.name), p);
    assert |p| >= 1 by {
      var j :| 0 <= j < |e.kind.contents.entries| && EntryHolds(e.kind.contents.entries[j], p, m.size, m.mtime);
    }
    var path := [e.name] + p;
    assert path[0] == e.name && path[1..] == p && |path| >= 2;
    assert KeyUnder(prefix, path) == k;
    assert EntryHolds(e, path, m.size, m.mtime);
  }

  lemma LaterEntries(base: string, l: Listing, i: nat, prefix: string, r: map<string, RemoteMeta>)
    requires l.Listed? && i < |l.entries|
    ensures forall k :: k in r && FromEntries(base, l, i + 1, prefix, k, r[k]) ==> FromEntries(base, l, i, prefix, k, r[k])
  {
    forall k | k in r && FromEntries(base, l, i + 1, prefix, k, r[k])
      ensures FromEntries(base, l, i, prefix, k, r[k])
    {
      var m := r[k];
      var path, j :| i + 1 <= j < |l.entries| && EntryHolds(l.entries[j], path, m.size, m.mtime) && k == KeyUnder(prefix, path);
      assert i <= j;
    }
  }

  /** Soundness: every entry of the inventory is a regular file of the tree,
      reached without "." or "..", under the key of its names; and, under a
      non-empty remote base, its remote path is exactly where `uploadFile`
      and `deleteRemote` put that key. */
  lemma ListedFilesFromTree(base: string, root: Listing, k: string)
    requires NamesValid(root)
    requires CollectRemoteFiles(base, root).Some? && k in CollectRemoteFiles(base, root).value
    ensures var m := CollectRemoteFiles(base, root).value[k];
            exists path :: FileAt(root, path, m.size, m.mtime) && k == KeyOf(path)
    ensures base != "" ==> CollectRemoteFiles(base, root).value[k].remotePath == RemotePathFor(base, k)
    ensures base == "" ==> CollectRemoteFiles(base, root).value[k].remotePath == "/" + k
  {
    var r := CollectRemoteFiles(base, root);
    DirSound(base, "", root, map[], r);
    var m := r.value[k];
    var path :| FileAt(root, path, m.size, m.mtime) && k == KeyUnder("", path);
    KeyUnderTop(path);
  }
}
