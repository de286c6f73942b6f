/** `uploadFile` and `deleteRemote`: a local path is turned into its key
    relative to the local root, the key is placed under the remote
    directory, and the `SyncState` upload record is written after a
    successful `put` and dropped after a remote delete. */
module Transfers {
  import opened JavaLong
  import opened Wrappers
  import opened Strings
  import opened RemotePaths
  import opened RemoteDirs
  import opened State
  import opened Inventory
  import opened RemoteListing

  /** The key of a local path: relative to the local root, or its bare file
      name when relativizing throws; `None` when that name is null too,
      which ends the operation in its generic `catch`. */
  function LocalKey(fs: LocalFs, p: string): (k: Option<string>)
    ensures fs.relativize(p).Some? ==> k == fs.relativize(p)
    ensures fs.relativize(p).None? ==> k == fs.fileName(p)
  {
    match fs.relativize(p)
    case Some(rel) => Some(rel)
    case None => fs.fileName(p)
  }

  /** Where both operations address the local file `p` on the server. */
  function RemoteTarget(fs: LocalFs, remoteDir: string, p: string): (t: Option<string>)
    ensures t.Some? <==> LocalKey(fs, p).Some?
    ensures t.Some? ==> t.value == RemotePathFor(remoteDir, LocalKey(fs, p).value)
  {
    match LocalKey(fs, p)
    case None => None
    case Some(rel) => Some(RemotePathFor(remoteDir, rel))
  }

  /** What an upload did: the remote directories that exist afterwards, the
      remote path it wrote (if it got that far), and the shared state. */
  datatype Upload = Upload(dirs: set<seq<string>>, put: Option<string>, state: SyncState)

  /** `uploadFile(localPath)`. `connectOk` says whether `connect()`
      succeeds, `dirs` are the directories that exist on the server (as
      segment lists from the root), `mkdirOk` which of them may be
      created and `cdOk` which may be entered (`[]` is the root), `putOk` whether `channel.put` to a remote path succeeds, and
      `modTime` the local modification time read after the put (`None`
      when reading it throws). */
  method UploadFile(fs: LocalFs, remoteDir: string, localPath: Option<string>, connectOk: bool,
                    dirs: set<seq<string>>, mkdirOk: seq<string> -> bool, cdOk: seq<string> -> bool, putOk: string -> bool,
                    modTime: string -> Option<Long>, st: SyncState)
    returns (u: Upload)
    // a null path, a failed connection or a path with no key do nothing
    ensures localPath == None || !connectOk || RemoteTarget(fs, remoteDir, localPath.value) == None ==> u == Upload(dirs, None, st)
    // the file is put at its remote target, after every directory above it exists
    ensures u.put.Some? ==> localPath.Some? && u.put == RemoteTarget(fs, remoteDir, localPath.value) && putOk(u.put.value)
    ensures u.put.Some? ==> Prefixes(Segments(ParentRemote(u.put.value))) <= u.dirs
    // only the directories above the target are created
    ensures localPath.Some? && RemoteTarget(fs, remoteDir, localPath.value).Some? ==>
              dirs <= u.dirs <= dirs + Prefixes(Segments(ParentRemote(RemoteTarget(fs, remoteDir, localPath.value).value)))
    // no put only because the walk to the parent directory was refused a
    // `cd` or a `mkdir`, or the put failed
    ensures localPath.Some? && connectOk && RemoteTarget(fs, remoteDir, localPath.value).Some? && u.put == None ==>
              var parent := ParentRemote(RemoteTarget(fs, remoteDir, localPath.value).value);
              var segs := Segments(parent);
              || !putOk(RemoteTarget(fs, remoteDir, localPath.value).value)
              || (parent != "" && !cdOk([]))
              || exists n :: 1 <= n <= |segs| && StuckAt(u.dirs, segs[..n], mkdirOk, cdOk)
    // ... and conversely: the file is put exactly when the walk to its parent
    // and the put itself are allowed; otherwise the `SftpException` skips the
    // put and the upload record
    ensures localPath.Some? && connectOk && RemoteTarget(fs, remoteDir, localPath.value).Some? ==>
              var target := RemoteTarget(fs, remoteDir, localPath.value).value;
              var parent := ParentRemote(target);
              (u.put.Some? <==> putOk(target) && (parent != "" ==> cdOk([]) && Enterable(dirs, Segments(parent), mkdirOk, cdOk)))
    ensures forall d :: d in u.dirs && d !in dirs ==> mkdirOk(d)
    // the upload record is written only after a successful put
    ensures u.put.Some? && modTime(localPath.value).Some? ==> u.state == MarkUploaded(st, fs.absolute, localPath, modTime(localPath.value).value)
    ensures u.put.None? || modTime(localPath.value).None? ==> u.state == st
  {
    if localPath == None || !connectOk {
      return Upload(dirs, None, st);
    }
    var p := localPath.value;
    var target := RemoteTarget(fs, remoteDir, p);
    if target == None {
      return Upload(dirs, None, st);
    }
    var remotePath := target.value;
    var parent := ParentRemote(remotePath);
    ghost var segs := Segments(parent);
    var dirs', ok := dirs, true;
    if parent != "" {
      var visited;
      dirs', ok, visited := EnsureRemoteDirExists(Some(parent), dirs, mkdirOk, cdOk);
      if !ok {
        if cdOk([]) {
          assert StuckAt(dirs', segs[..|visited| + 1], mkdirOk, cdOk);
        }
        return Upload(dirs', None, st);
      }
    } else {
      assert Segments(parent) == [];
    }
    if !putOk(remotePath) {
      return Upload(dirs', None, st);
    }
    var st' := match modTime(p)
      case None => st
      case Some(m) => MarkUploaded(st, fs.absolute, Some(p), m);
    return Upload(dirs', Some(remotePath), st');
  }

  /** What `channel.rm`, failing that `channel.rmdir`, removed at a remote
      path. */
  datatype Removal = FileRemoved(path: string) | DirRemoved(path: string) | NothingRemoved(path: string)

  /** `deleteRemote(localPath)`: `rmOk`/`rmdirOk` say whether removing the
      remote path as a file, or as a directory, succeeds. `None` when the
      operation stops before addressing the server. */
  function DeleteRemote(fs: LocalFs, remoteDir: string, localPath: Option<string>, connectOk: bool,
                        rmOk: string -> bool, rmdirOk: string -> bool, st: SyncState): (res: (Option<Removal>, SyncState))
    ensures localPath == None || !connectOk || RemoteTarget(fs, remoteDir, localPath.value) == None ==> res == (None, st)
    // the path addressed is the one `uploadFile` writes
    ensures res.0.Some? ==> localPath.Some? && Some(res.0.value.path) == RemoteTarget(fs, remoteDir, localPath.value)
    ensures res.0.Some? ==> (res.0.value.FileRemoved? <==> rmOk(res.0.value.path))
    ensures res.0.Some? ==> (res.0.value.DirRemoved? <==> !rmOk(res.0.value.path) && rmdirOk(res.0.value.path))
    // the upload record goes whatever the server did; the download records stay
    ensures res.0.Some? ==> res.1 == RemoveUploaded(st, fs.absolute, localPath)
    ensures res.1.lastDownloaded == st.lastDownloaded
  {
    if localPath == None || !connectOk then (None, st)
    else match RemoteTarget(fs, remoteDir, localPath.value)
      case None => (None, st)
      case Some(remotePath) =>
        var removal :=
          if rmOk(remotePath) then FileRemoved(remotePath)
          else if rmdirOk(remotePath) then DirRemoved(remotePath)
          else NothingRemoved(remotePath);
        (Some(removal), RemoveUploaded(st, fs.absolute, localPath))
  }

  /** The directories an upload creates are those of the remote directory
      followed by those of the key, without the file's own name. */
  lemma UploadParents(remoteDir: string, rel: string)
    requires rel != "" && !EndsWithSlash(rel)
    ensures |Segments(rel)| >= 1
    ensures Segments(ParentRemote(RemotePathFor(remoteDir, rel))) == Segments(remoteDir) + Segments(rel)[..|Segments(rel)| - 1]
  {
    var t := RemotePathFor(remoteDir, rel);
    assert |Segments(rel)| >= 1 by {
      ParentSegments(rel);
    }
    assert t != "" && !EndsWithSlash(t) by {
      assert t[|t| - 1] == rel[|rel| - 1];
    }
    assert Segments(ParentRemote(t)) + [BaseName(t)] == Segments(remoteDir) + Segments(rel) by {
      ParentSegments(t);
      RemotePathSegments(remoteDir, rel);
    }
    DropLast(Segments(ParentRemote(t)), BaseName(t), Segments(remoteDir), Segments(rel));
  }

  lemma DropLast<T>(a: seq<T>, x: T, c: seq<T>, b: seq<T>)
    requires |b| >= 1 && a + [x] == c + b
    ensures a == c + b[..|b| - 1]
  {
    assert c + b == (c + b[..|b| - 1]) + [b[|b| - 1]];
    assert a == (a + [x])[..|a|];
  }

  /** Upload then delete of the same local file: the delete addresses the
      very path the upload wrote, and the upload record is gone after it. */
  lemma DeleteUndoesUploadRecord(fs: LocalFs, remoteDir: string, p: string, m: Long, st: SyncState,
                                 rmOk: string -> bool, rmdirOk: string -> bool)
    requires RemoteTarget(fs, remoteDir, p).Some?
    ensures DeleteRemote(fs, remoteDir, Some(p), true, rmOk, rmdirOk, MarkUploaded(st, fs.absolute, Some(p), m)).0.value.path
            == RemoteTarget(fs, remoteDir, p).value
    ensures GetLastUploaded(MarkUploaded(st, fs.absolute, Some(p), m), fs.absolute, Some(p)) == Some(m)
    ensures GetLastUploaded(DeleteRemote(fs, remoteDir, Some(p), true, rmOk, rmdirOk, MarkUploaded(st, fs.absolute, Some(p), m)).1,
                            fs.absolute, Some(p)) == None
  {
    var s1 := MarkUploaded(st, fs.absolute, Some(p), m);
    assert GetLastUploaded(s1, fs.absolute, Some(p)) == Some(m);
    var s2 := DeleteRemote(fs, remoteDir, Some(p), true, rmOk, rmdirOk, s1).1;
    assert s2 == RemoveUploaded(s1, fs.absolute, Some(p));
    assert GetLastUploaded(s2, fs.absolute, Some(p)) == None;
  }

  /** A file fetched for key `k` (to `resolve(k)`) is uploaded back to the
      remote path the listing recorded for `k`, when the remote directory is
      set. */
  lemma DownloadUploadsBack(fs: LocalFs, base: string, root: Listing, k: string)
    requires base != "" && NamesValid(root)
    requires CollectRemoteFiles(base, root).Some? && k in CollectRemoteFiles(base, root).value
    requires ResolveRoundTrips(fs, {k})
    ensures RemoteTarget(fs, base, fs.resolve(k)) == Some(CollectRemoteFiles(base, root).value[k].remotePath)
  {
    ListedFilesFromTree(base, root, k);
    assert LocalKey(fs, fs.resolve(k)) == Some(k);
  }
}
