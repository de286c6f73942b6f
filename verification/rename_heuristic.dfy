/** The rename heuristic of `syncRemoteToLocal`: what its time window
    means, what its candidate filter lets through as written, and what the
    corrected filter guarantees. */
module RenameHeuristic {
  import opened JavaLong
  import opened Wrappers
  import opened State
  import opened Inventory
  import opened Planner
  import opened SyncProperties

  /** When the Java difference `lastModified - mtime * 1000` neither wraps
      nor is the least long, the window test is the mathematical
      `|lastModified - mtime * 1000| < 2000`. */
  lemma WindowExact(lastModified: Long, mtime: Int32)
    requires MinLong < lastModified - mtime * 1000 <= MaxLong
    ensures WithinRenameWindow(lastModified, mtime) <==> -2000 < lastModified - mtime * 1000 < 2000
  {
    var d := Sub(lastModified, mtime as int * 1000);
    assert d == lastModified - mtime * 1000;
    assert Abs(d) == d || Abs(d) == -d;
  }

  /** When the difference wraps to the least long, `Math.abs` leaves it
      negative, and the window test accepts a file whose timestamp is
      about 2^63 milliseconds away. */
  lemma WindowWraps()
    ensures WithinRenameWindow(MaxLong - 999, -1)
    ensures WithinRenameWindow(MinLong, 0)
  {
    assert Sub(MaxLong - 999, -1000) == MinLong;
    assert Sub(MinLong, 0) == MinLong;
  }

  /** One step under the corrected filter leaves alone the entry of a
      listed key that is up to date, and neither acts on that key nor moves
      its file away. */
  lemma RemoteStepKeepsListed(fs: LocalFs, io: Outcomes, remote: map<string, RemoteMeta>, order: seq<string>,
                              t: Tick, j: string, k: string, t': Tick)
    requires j in remote && t' == RemoteStep(SkipListedKeys, fs, io, remote, order, t, j)
    requires KeyedByRelativePath(fs, t.local)
    requires k in t.local && k in remote && t.local[k].size == remote[k].size
    ensures k in t'.local && t'.local[k] == t.local[k]
    ensures t'.log != t.log ==> t'.log[|t.log|].key != k && !(t'.log[|t.log|].Moved? && t'.log[|t.log|].from == t.local[k].path)
  {
    RemoteStepCases(SkipListedKeys, fs, io, remote, order, t, j, t');
    var i := FirstEligible(SkipListedKeys, remote, t.local, order, fs.resolve(j), remote[j]);
    if !UpToDate(t.local, j, remote[j]) && i < |order| {
      assert order[i] !in remote;
      assert fs.relativize(t.local[order[i]].path) == Some(order[i]);
      assert fs.relativize(t.local[k].path) == Some(k);
    }
  }

  /** The first loop under the corrected filter keeps such an entry. */
  lemma {:induction false} RemoteLoopKeepsListed(fs: LocalFs, io: Outcomes, remote: map<string, RemoteMeta>, order: seq<string>,
                                                 keys: seq<string>, t: Tick, k: string, t': Tick)
    requires forall i :: 0 <= i < |keys| ==> keys[i] in remote
    requires t' == RemoteLoop(SkipListedKeys, fs, io, remote, order, keys, t)
    requires KeyedByRelativePath(fs, t.local) && ResolveRoundTrips(fs, remote.Keys)
    requires k in t.local && k in remote && t.local[k].size == remote[k].size
    ensures k in t'.local && t'.local[k] == t.local[k]
    ensures forall i :: |t.log| <= i < |t'.log| ==> t'.log[i].key != k && !(t'.log[i].Moved? && t'.log[i].from == t.local[k].path)
    decreases |keys|
  {
    if keys != [] && !t.aborted {
      var t1 := RemoteStep(SkipListedKeys, fs, io, remote, order, t, keys[0]);
      RemoteStepKeepsListed(fs, io, remote, order, t, keys[0], k, t1);
      RemoteStepKeyed(SkipListedKeys, fs, io, remote, order, t, keys[0]);
      RemoteLoopKeepsListed(fs, io, remote, order, keys[1..], t1, k, t');
      assert t'.log[..|t1.log|] == t1.log;
      forall i | |t.log| <= i < |t1.log|
        ensures t'.log[i].key != k && !(t'.log[i].Moved? && t'.log[i].from == t.local[k].path)
      {
        assert t'.log[i] == t1.log[i];
      }
    }
  }

  /** With the corrected filter, a tick over a consistent inventory never
      takes the file of a key that is listed remotely and up to date: the
      entry stays as it was, and no action of the tick is about that key or
      moves that file. */
  lemma ListedUpToDateFileKept(fs: LocalFs, io: Outcomes, remote: map<string, RemoteMeta>,
                               remoteOrder: seq<string>, local: map<string, LocalMeta>, localOrder: seq<string>,
                               st: SyncState, k: string, res: Tick)
    requires IterationOrders(Some(remote), remoteOrder, local, localOrder)
    requires res == SyncRemoteToLocal(SkipListedKeys, fs, io, Some(remote), remoteOrder, local, localOrder, st)
    requires KeyedByRelativePath(fs, local) && ResolveRoundTrips(fs, remote.Keys)
    requires k in local && k in remote && local[k].size == remote[k].size
    ensures k in res.local && res.local[k] == local[k]
    ensures forall a :: a in res.log ==> a.key != k && !(a.Moved? && a.from == local[k].path)
  {
    var t0 := Tick(local, st, [], false);
    var mid := RemoteLoop(SkipListedKeys, fs, io, remote, localOrder, remoteOrder, t0);
    TickPhases(SkipListedKeys, fs, io, remote, remoteOrder, local, localOrder, st, mid, res);
    RemoteLoopKeepsListed(fs, io, remote, localOrder, remoteOrder, t0, k, mid);
    if !mid.aborted {
      LocalLoopLog(fs, io, remote, localOrder, mid, res);
    }
    forall a | a in res.log ensures a.key != k && !(a.Moved? && a.from == local[k].path) {
      var i :| 0 <= i < |res.log| && res.log[i] == a;
      if i < |mid.log| {
        assert mid.log[i] == a;
      }
    }
  }

  /** A local root at `/l/`: a key resolves to `/l/<key>`, and a path
      under `/l/` relativizes to the rest of it. */
  function StealFs(): LocalFs {
    LocalFs(
      k => "/l/" + k,
      p => if |p| >= 3 && p[..3] == "/l/" then Some(p[3..]) else None,
      p => Some(p),
      p => p)
  }

  /** Every effect succeeds, and the clock reads 0. */
  function AllSucceed(): Outcomes {
    Outcomes(k => true, k => true, k => 0, p => true)
  }

  /** Two remote files of the same size modified in the same second. */
  function StealRemote(): map<string, RemoteMeta> {
    map["a" := RemoteMeta("/r/a", 10, 100), "b" := RemoteMeta("/r/b", 10, 100)]
  }

  /** The first of them is already mirrored locally. */
  function StealLocal(): map<string, LocalMeta> {
    map["a" := LocalMeta("/l/a", 10, 100000)]
  }

  /** Under `b`, the up-to-date local copy of `a` is the first eligible
      file, and it is moved onto `b`'s target. */
  lemma StealSecondKey(t0: Tick)
    requires t0 == Tick(StealLocal(), DefaultSyncState(), [], false)
    ensures RemoteStep(AsWritten, StealFs(), AllSucceed(), StealRemote(), ["a", "b"], t0, "b")
            == Tick(map["b" := LocalMeta("/l/b", 10, 100000)], DefaultSyncState(), [Moved("b", "/l/a", "/l/b", true)], false)
  {
    var fs, remote := StealFs(), StealRemote();
    var order := ["a", "b"];
    assert fs.resolve("b") == "/l/b";
    assert Sub(100000, 100 * 1000) == 0;
    assert FirstEligible(AsWritten, remote, t0.local, order, "/l/b", remote["b"]) == 0 by {
      assert Eligible(AsWritten, remote, "a", t0.local["a"], "/l/b", remote["b"]);
    }
    assert fs.relativize("/l/a") == Some("a");
    assert (t0.local - {"a"})["b" := LocalMeta("/l/b", 10, 100000)] == map["b" := LocalMeta("/l/b", 10, 100000)];
  }

  /** As written, the tick takes the up-to-date local copy of `a` as the
      rename source of `b` and moves it: `a`, still listed remotely, is
      no longer mirrored, and nothing downloads it. */
  lemma RenameStealsListedFile()
    ensures IterationOrders(Some(StealRemote()), ["a", "b"], StealLocal(), ["a", "b"])
    ensures SyncRemoteToLocal(AsWritten, StealFs(), AllSucceed(), Some(StealRemote()), ["a", "b"], StealLocal(), ["a", "b"], DefaultSyncState())
            == Tick(map["b" := LocalMeta("/l/b", 10, 100000)], DefaultSyncState(), [Moved("b", "/l/a", "/l/b", true)], false)
  {
    var fs, io, remote := StealFs(), AllSucceed(), StealRemote();
    var order := ["a", "b"];
    var t0 := Tick(StealLocal(), DefaultSyncState(), [], false);
    assert RemoteStep(AsWritten, fs, io, remote, order, t0, "a") == t0 by {
      assert UpToDate(t0.local, "a", remote["a"]);
    }
    var t2 := Tick(map["b" := LocalMeta("/l/b", 10, 100000)], DefaultSyncState(), [Moved("b", "/l/a", "/l/b", true)], false);
    StealSecondKey(t0);
    assert RemoteLoop(AsWritten, fs, io, remote, order, order, t0) == t2 by {
      assert order[1..] == ["b"] && order[1..][1..] == [];
    }
    assert LocalLoop(fs, io, remote, order, t2) == t2 by {
      assert order[1..] == ["b"] && order[1..][1..] == [];
    }
  }

  /** On the next tick's first key, the file at `b` is taken for `a`. */
  lemma PingPongFirstMove(t0: Tick)
    requires t0 == Tick(map["b" := LocalMeta("/l/b", 10, 100000)], DefaultSyncState(), [], false)
    ensures RemoteStep(AsWritten, StealFs(), AllSucceed(), StealRemote(), ["a", "b"], t0, "a")
            == Tick(map["a" := LocalMeta("/l/a", 10, 100000)], DefaultSyncState(), [Moved("a", "/l/b", "/l/a", true)], false)
  {
    var fs, remote := StealFs(), StealRemote();
    var order := ["a", "b"];
    assert Sub(100000, 100 * 1000) == 0;
    assert fs.resolve("a") == "/l/a";
    assert FirstEligible(AsWritten, remote, t0.local, order, "/l/a", remote["a"]) == 1 by {
      assert Eligible(AsWritten, remote, "b", t0.local["b"], "/l/a", remote["a"]);
      assert order[1..] == ["b"];
    }
    assert fs.relativize("/l/b") == Some("b");
    assert (t0.local - {"b"})["a" := LocalMeta("/l/a", 10, 100000)] == map["a" := LocalMeta("/l/a", 10, 100000)];
  }

  /** On its second key, the same file is taken back for `b`. */
  lemma PingPongSecondMove(t1: Tick)
    requires t1 == Tick(map["a" := LocalMeta("/l/a", 10, 100000)], DefaultSyncState(), [Moved("a", "/l/b", "/l/a", true)], false)
    ensures RemoteStep(AsWritten, StealFs(), AllSucceed(), StealRemote(), ["a", "b"], t1, "b")
            == Tick(map["b" := LocalMeta("/l/b", 10, 100000)], DefaultSyncState(),
                    [Moved("a", "/l/b", "/l/a", true), Moved("b", "/l/a", "/l/b", true)], false)
  {
    var fs, remote := StealFs(), StealRemote();
    var order := ["a", "b"];
    assert Sub(100000, 100 * 1000) == 0;
    assert fs.resolve("b") == "/l/b";
    assert FirstEligible(AsWritten, remote, t1.local, order, "/l/b", remote["b"]) == 0 by {
      assert Eligible(AsWritten, remote, "a", t1.local["a"], "/l/b", remote["b"]);
    }
    assert fs.relativize("/l/a") == Some("a");
    assert (t1.local - {"a"})["b" := LocalMeta("/l/b", 10, 100000)] == map["b" := LocalMeta("/l/b", 10, 100000)];
  }

  /** The next tick walks the local tree and finds only `b`: the heuristic
      then moves `b` onto `a` and straight back, so `a` is never mirrored. */
  lemma RenamePingPong()
    ensures IterationOrders(Some(StealRemote()), ["a", "b"], map["b" := LocalMeta("/l/b", 10, 100000)], ["a", "b"])
    ensures SyncRemoteToLocal(AsWritten, StealFs(), AllSucceed(), Some(StealRemote()), ["a", "b"],
                              map["b" := LocalMeta("/l/b", 10, 100000)], ["a", "b"], DefaultSyncState())
            == Tick(map["b" := LocalMeta("/l/b", 10, 100000)], DefaultSyncState(),
                    [Moved("a", "/l/b", "/l/a", true), Moved("b", "/l/a", "/l/b", true)], false)
  {
    var fs, io, remote := StealFs(), AllSucceed(), StealRemote();
    var order := ["a", "b"];
    var t0 := Tick(map["b" := LocalMeta("/l/b", 10, 100000)], DefaultSyncState(), [], false);
    var t1 := Tick(map["a" := LocalMeta("/l/a", 10, 100000)], DefaultSyncState(), [Moved("a", "/l/b", "/l/a", true)], false);
    var t2 := Tick(map["b" := LocalMeta("/l/b", 10, 100000)], DefaultSyncState(),
                   [Moved("a", "/l/b", "/l/a", true), Moved("b", "/l/a", "/l/b", true)], false);
    PingPongFirstMove(t0);
    PingPongSecondMove(t1);
    assert RemoteLoop(AsWritten, fs, io, remote, order, order, t0) == t2 by {
      assert order[1..] == ["b"] && order[1..][1..] == [];
    }
    assert LocalLoop(fs, io, remote, order, t2) == t2 by {
      assert order[1..] == ["b"] && order[1..][1..] == [];
    }
  }

  /** On the same input the corrected filter refuses the listed file, so
      `a` stays where it is and `b` is downloaded and recorded. */
  lemma CorrectedFilterDownloads()
    ensures SyncRemoteToLocal(SkipListedKeys, StealFs(), AllSucceed(), Some(StealRemote()), ["a", "b"], StealLocal(), ["a", "b"], DefaultSyncState())
            == Tick(StealLocal(), MarkDownloaded(DefaultSyncState(), StealFs().absolute, Some("/l/b"), 0),
                    [Fetched("b", "/r/b", "/l/b", true)], false)
  {
    var fs, io, remote := StealFs(), AllSucceed(), StealRemote();
    var order := ["a", "b"];
    var t0 := Tick(StealLocal(), DefaultSyncState(), [], false);
    assert RemoteStep(SkipListedKeys, fs, io, remote, order, t0, "a") == t0;
    assert fs.resolve("b") == "/l/b";
    assert FirstEligible(SkipListedKeys, remote, t0.local, order, "/l/b", remote["b"]) == 2 by {
      assert order[1..] == ["b"] && order[1..][1..] == [];
    }
    var s := MarkDownloaded(DefaultSyncState(), fs.absolute, Some("/l/b"), 0);
    var t2 := Tick(StealLocal(), s, [Fetched("b", "/r/b", "/l/b", true)], false);
    assert RemoteStep(SkipListedKeys, fs, io, remote, order, t0, "b") == t2;
    assert RemoteLoop(SkipListedKeys, fs, io, remote, order, order, t0) == t2 by {
      assert order[1..] == ["b"] && order[1..][1..] == [];
    }
    assert LocalLoop(fs, io, remote, order, t2) == t2 by {
      assert order[1..] == ["b"] && order[1..][1..] == [];
    }
  }
}
