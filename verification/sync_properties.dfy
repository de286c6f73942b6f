/** What one tick of `syncRemoteToLocal` guarantees: which local files it
    may delete and which it must, that a consistent local inventory stays
    consistent, and what the rename heuristic may take. */
module SyncProperties {
  import opened JavaLong
  import opened Wrappers
  import opened State
  import opened Inventory
  import opened Planner

  /** No other file of `local` has the same absolute path as the file
      under `k`. */
  ghost predicate UniqueAbsolute(fs: LocalFs, local: map<string, LocalMeta>, k: string)
    requires k in local
  {
    forall j :: j in local && j != k ==> fs.absolute(local[j].path) != fs.absolute(local[k].path)
  }

  /** Every download of a tick goes to the local target of a listed key. */
  ghost predicate FetchesListedTargets(fs: LocalFs, remote: map<string, RemoteMeta>, log: seq<Action>) {
    forall i :: 0 <= i < |log| && log[i].Fetched? ==> log[i].key in remote && log[i].to == fs.resolve(log[i].key)
  }

  /** The first loop only moves and downloads, each about one of its keys
      and landing on that key's local target. */
  lemma {:induction false} RemoteLoopLog(policy: RenamePolicy, fs: LocalFs, io: Outcomes, remote: map<string, RemoteMeta>,
                                         order: seq<string>, keys: seq<string>, t: Tick, t': Tick)
    requires forall i :: 0 <= i < |keys| ==> keys[i] in remote
    requires t' == RemoteLoop(policy, fs, io, remote, order, keys, t)
    ensures forall i :: |t.log| <= i < |t'.log| ==>
              !t'.log[i].Deleted? && t'.log[i].key in keys && t'.log[i].to == fs.resolve(t'.log[i].key)
    decreases |keys|
  {
    if keys != [] && !t.aborted {
      var t1 := RemoteStep(policy, fs, io, remote, order, t, keys[0]);
      RemoteStepLog(policy, fs, io, remote, order, t, keys[0], t1);
      RemoteLoopLog(policy, fs, io, remote, order, keys[1..], t1, t');
      forall i | |t.log| <= i < |t'.log|
        ensures !t'.log[i].Deleted? && t'.log[i].key in keys && t'.log[i].to == fs.resolve(t'.log[i].key)
      {
        if i < |t1.log| {
          assert t'.log[..|t1.log|] == t1.log;
          assert t'.log[i] == t1.log[i];
        } else {
          assert t'.log[i].key in keys[1..];
        }
      }
    }
  }

  /** The first loop adds a download record only for a successful download
      of its own. */
  lemma {:induction false} RemoteLoopRecords(policy: RenamePolicy, fs: LocalFs, io: Outcomes, remote: map<string, RemoteMeta>,
                                             order: seq<string>, keys: seq<string>, t: Tick, t': Tick)
    requires forall i :: 0 <= i < |keys| ==> keys[i] in remote
    requires t' == RemoteLoop(policy, fs, io, remote, order, keys, t)
    ensures forall q :: q in t'.state.lastDownloaded ==> q in t.state.lastDownloaded || q in FetchedPaths(fs.absolute, t'.log)
    decreases |keys|
  {
    if keys != [] && !t.aborted {
      var t1 := RemoteStep(policy, fs, io, remote, order, t, keys[0]);
      RemoteStepRecords(policy, fs, io, remote, order, t, keys[0], t1);
      RemoteLoopRecords(policy, fs, io, remote, order, keys[1..], t1, t');
      assert t'.log[..|t1.log|] == t1.log;
      FetchedPathsPrefix(fs.absolute, t'.log, |t1.log|);
      if t1.log != t.log {
        assert t1.log == t.log + [t1.log[|t.log|]];
        FetchedPathsAppend(fs.absolute, t.log, t1.log[|t.log|]);
      }
    }
  }

  /** Every successful download of the first loop leaves a download record. */
  lemma {:induction false} RemoteLoopFetchesRecorded(policy: RenamePolicy, fs: LocalFs, io: Outcomes, remote: map<string, RemoteMeta>,
                                                     order: seq<string>, keys: seq<string>, t: Tick, t': Tick)
    requires forall i :: 0 <= i < |keys| ==> keys[i] in remote
    requires t' == RemoteLoop(policy, fs, io, remote, order, keys, t)
    ensures FetchedPaths(fs.absolute, t'.log) <= FetchedPaths(fs.absolute, t.log) + t'.state.lastDownloaded.Keys
    decreases |keys|
  {
    if keys != [] && !t.aborted {
      var t1 := RemoteStep(policy, fs, io, remote, order, t, keys[0]);
      RemoteStepRecords(policy, fs, io, remote, order, t, keys[0], t1);
      RemoteLoopFetchesRecorded(policy, fs, io, remote, order, keys[1..], t1, t');
      if t1.log != t.log {
        assert t1.log == t.log + [t1.log[|t.log|]];
        FetchedPathsAppend(fs.absolute, t.log, t1.log[|t.log|]);
      }
    }
  }

  /** The first loop gives the inventory only listed keys, and leaves alone
      every entry under a key it does not process. */
  lemma {:induction false} RemoteLoopInventory(policy: RenamePolicy, fs: LocalFs, io: Outcomes, remote: map<string, RemoteMeta>,
                                               order: seq<string>, keys: seq<string>, t: Tick, t': Tick)
    requires forall i :: 0 <= i < |keys| ==> keys[i] in remote
    requires t' == RemoteLoop(policy, fs, io, remote, order, keys, t)
    ensures t'.local.Keys <= t.local.Keys + remote.Keys
    ensures forall j :: j in t'.local && j !in keys ==> j in t.local && t'.local[j] == t.local[j]
    decreases |keys|
  {
    if keys != [] && !t.aborted {
      var t1 := RemoteStep(policy, fs, io, remote, order, t, keys[0]);
      RemoteStepInventory(policy, fs, io, remote, order, t, keys[0], t1);
      RemoteLoopInventory(policy, fs, io, remote, order, keys[1..], t1, t');
    }
  }

  /** The second loop only deletes: unlisted local keys the state had a
      record of, and a successful delete leaves neither record behind. */
  lemma {:induction false} LocalLoopLog(fs: LocalFs, io: Outcomes, remote: map<string, RemoteMeta>, keys: seq<string>, t: Tick, t': Tick)
    requires t' == LocalLoop(fs, io, remote, keys, t)
    ensures forall i :: |t.log| <= i < |t'.log| ==>
              && t'.log[i].Deleted?
              && t'.log[i].key in keys
              && t'.log[i].key in t.local && t'.log[i].key !in remote
              && t'.log[i].path == t.local[t'.log[i].key].path
              && HasRecord(t.state, fs.absolute, t'.log[i].path)
              && (t'.log[i].ok ==> !HasRecord(t'.state, fs.absolute, t'.log[i].path))
    decreases |keys|
  {
    if keys != [] {
      var t1 := LocalStep(fs, io, remote, t, keys[0]);
      LocalLoopLog(fs, io, remote, keys[1..], t1, t');
      forall i | |t.log| <= i < |t'.log|
        ensures t'.log[i].Deleted? && t'.log[i].key in keys
        ensures t'.log[i].key in t.local && t'.log[i].key !in remote
        ensures t'.log[i].path == t.local[t'.log[i].key].path
        ensures HasRecord(t.state, fs.absolute, t'.log[i].path)
        ensures t'.log[i].ok ==> !HasRecord(t'.state, fs.absolute, t'.log[i].path)
      {
        if i < |t1.log| {
          assert t'.log[..|t1.log|] == t1.log;
          assert t'.log[i] == t1.log[i];
          var p := t.local[keys[0]].path;
          assert t1.log == t.log + [Deleted(keys[0], p, io.deleteOk(p))];
          if io.deleteOk(p) {
            assert !HasRecord(t1.state, fs.absolute, p);
            assert !HasRecord(t'.state, fs.absolute, p) by {
              assert t'.state.lastDownloaded.Keys <= t1.state.lastDownloaded.Keys;
              assert t'.state.lastUploaded.Keys <= t1.state.lastUploaded.Keys;
            }
          }
        } else {
          assert t'.log[i].key in keys[1..];
          assert HasRecord(t1.state, fs.absolute, t'.log[i].path);
          assert t1.state.lastDownloaded.Keys <= t.state.lastDownloaded.Keys && t1.state.lastUploaded.Keys <= t.state.lastUploaded.Keys by {
            if keys[0] in t.local && keys[0] !in remote && HasRecord(t.state, fs.absolute, t.local[keys[0]].path) {
              var p := t.local[keys[0]].path;
              if io.deleteOk(p) {
                var s1 := RemoveUploaded(t.state, fs.absolute, Some(p));
                assert t1.state == RemoveDownloaded(s1, fs.absolute, Some(p));
              }
            }
          }
        }
      }
    }
  }

  /** One step keeps the inventory keyed by relative path, and then the
      relativization after a move cannot fail. */
  lemma RemoteStepKeyed(policy: RenamePolicy, fs: LocalFs, io: Outcomes, remote: map<string, RemoteMeta>,
                        order: seq<string>, t: Tick, k: string)
    requires k in remote
    requires KeyedByRelativePath(fs, t.local) && ResolveRoundTrips(fs, remote.Keys) && !t.aborted
    ensures KeyedByRelativePath(fs, RemoteStep(policy, fs, io, remote, order, t, k).local)
    ensures !RemoteStep(policy, fs, io, remote, order, t, k).aborted
  {
    var t' := RemoteStep(policy, fs, io, remote, order, t, k);
    RemoteStepCases(policy, fs, io, remote, order, t, k, t');
    var i := FirstEligible(policy, remote, t.local, order, fs.resolve(k), remote[k]);
    if !UpToDate(t.local, k, remote[k]) && i < |order| && io.moveOk(k) {
      assert fs.relativize(t.local[order[i]].path) == Some(order[i]);
    }
  }

  /** The first loop keeps the inventory keyed by relative path and never
      aborts, when every listed key resolves and relativizes back. */
  lemma {:induction false} RemoteLoopKeyed(policy: RenamePolicy, fs: LocalFs, io: Outcomes, remote: map<string, RemoteMeta>,
                                           order: seq<string>, keys: seq<string>, t: Tick)
    requires forall i :: 0 <= i < |keys| ==> keys[i] in remote
    requires KeyedByRelativePath(fs, t.local) && ResolveRoundTrips(fs, remote.Keys) && !t.aborted
    ensures KeyedByRelativePath(fs, RemoteLoop(policy, fs, io, remote, order, keys, t).local)
    ensures !RemoteLoop(policy, fs, io, remote, order, keys, t).aborted
    decreases |keys|
  {
    if keys != [] {
      RemoteStepKeyed(policy, fs, io, remote, order, t, keys[0]);
      RemoteLoopKeyed(policy, fs, io, remote, order, keys[1..], RemoteStep(policy, fs, io, remote, order, t, keys[0]));
    }
  }

  /** A tick over a consistent local inventory runs to the end and leaves the
      inventory consistent, holding only its own keys and listed keys. */
  lemma ConsistentTickCompletes(policy: RenamePolicy, fs: LocalFs, io: Outcomes, remote: map<string, RemoteMeta>,
                                remoteOrder: seq<string>, local: map<string, LocalMeta>, localOrder: seq<string>,
                                st: SyncState, res: Tick)
    requires IterationOrders(Some(remote), remoteOrder, local, localOrder)
    requires res == SyncRemoteToLocal(policy, fs, io, Some(remote), remoteOrder, local, localOrder, st)
    requires KeyedByRelativePath(fs, local) && ResolveRoundTrips(fs, remote.Keys)
    ensures !res.aborted
    ensures KeyedByRelativePath(fs, res.local)
    ensures res.local.Keys <= local.Keys + remote.Keys
  {
    var t0 := Tick(local, st, [], false);
    var mid := RemoteLoop(policy, fs, io, remote, localOrder, remoteOrder, t0);
    RemoteLoopKeyed(policy, fs, io, remote, localOrder, remoteOrder, t0);
    RemoteLoopInventory(policy, fs, io, remote, localOrder, remoteOrder, t0, mid);
  }

  /** A tick that got a listing is a first loop of moves and downloads onto
      listed targets, then, unless it aborted, a second loop of deletes. */
  lemma TickPhases(policy: RenamePolicy, fs: LocalFs, io: Outcomes, remote: map<string, RemoteMeta>,
                   remoteOrder: seq<string>, local: map<string, LocalMeta>, localOrder: seq<string>, st: SyncState,
                   mid: Tick, res: Tick)
    requires IterationOrders(Some(remote), remoteOrder, local, localOrder)
    requires mid == RemoteLoop(policy, fs, io, remote, localOrder, remoteOrder, Tick(local, st, [], false))
    requires res == SyncRemoteToLocal(policy, fs, io, Some(remote), remoteOrder, local, localOrder, st)
    ensures mid.aborted ==> res == mid
    ensures !mid.aborted ==> res == LocalLoop(fs, io, remote, localOrder, mid)
    ensures res.local == mid.local && res.aborted == mid.aborted
    ensures |mid.log| <= |res.log| && res.log[..|mid.log|] == mid.log
    ensures forall i :: 0 <= i < |mid.log| ==> !mid.log[i].Deleted?
    ensures forall i :: |mid.log| <= i < |res.log| ==> res.log[i].Deleted?
    ensures FetchedPaths(fs.absolute, res.log) == FetchedPaths(fs.absolute, mid.log)
  {
    RemoteLoopLog(policy, fs, io, remote, localOrder, remoteOrder, Tick(local, st, [], false), mid);
    if !mid.aborted {
      LocalLoopLog(fs, io, remote, localOrder, mid, res);
    }
    FetchedPathsPrefix(fs.absolute, res.log, |mid.log|);
  }

  /** Every download of a tick goes to the local target of a listed key. */
  lemma DownloadsOntoListedTargets(policy: RenamePolicy, fs: LocalFs, io: Outcomes, remote: map<string, RemoteMeta>,
                                   remoteOrder: seq<string>, local: map<string, LocalMeta>, localOrder: seq<string>,
                                   st: SyncState, res: Tick)
    requires IterationOrders(Some(remote), remoteOrder, local, localOrder)
    requires res == SyncRemoteToLocal(policy, fs, io, Some(remote), remoteOrder, local, localOrder, st)
    ensures FetchesListedTargets(fs, remote, res.log)
  {
    var t0 := Tick(local, st, [], false);
    var mid := RemoteLoop(policy, fs, io, remote, localOrder, remoteOrder, t0);
    TickPhases(policy, fs, io, remote, remoteOrder, local, localOrder, st, mid, res);
    RemoteLoopLog(policy, fs, io, remote, localOrder, remoteOrder, t0, mid);
    forall i | 0 <= i < |res.log| && res.log[i].Fetched?
      ensures res.log[i].key in remote && res.log[i].to == fs.resolve(res.log[i].key)
    {
      assert i < |mid.log|;
      assert mid.log[i] == res.log[i];
    }
  }

  /** Delete protection: a tick deletes only a local file whose key the
      remote side does not list and whose absolute path the daemon itself
      downloaded or uploaded, before the tick or during it. */
  lemma DeletesAreRecorded(policy: RenamePolicy, fs: LocalFs, io: Outcomes, listing: Option<map<string, RemoteMeta>>,
                           remoteOrder: seq<string>, local: map<string, LocalMeta>, localOrder: seq<string>,
                           st: SyncState, res: Tick)
    requires IterationOrders(listing, remoteOrder, local, localOrder)
    requires res == SyncRemoteToLocal(policy, fs, io, listing, remoteOrder, local, localOrder, st)
    ensures forall a :: a in res.log && a.Deleted? ==>
              && listing.Some? && a.key !in listing.value
              && a.key in res.local && a.path == res.local[a.key].path
              && (HasRecord(st, fs.absolute, a.path) || fs.absolute(a.path) in FetchedPaths(fs.absolute, res.log))
  {
    if listing.Some? {
      var remote := listing.value;
      var t0 := Tick(local, st, [], false);
      var mid := RemoteLoop(policy, fs, io, remote, localOrder, remoteOrder, t0);
      TickPhases(policy, fs, io, remote, remoteOrder, local, localOrder, st, mid, res);
      if mid.aborted {
        forall a | a in res.log ensures !a.Deleted? {
          var i :| 0 <= i < |res.log| && res.log[i] == a;
        }
      } else {
        RemoteLoopRecords(policy, fs, io, remote, localOrder, remoteOrder, t0, mid);
        LocalLoopLog(fs, io, remote, localOrder, mid, res);
        DeletesOfSecondLoop(fs, remote, st, mid, res);
      }
    }
  }

  /** The second loop of a tick, run on what the first loop left: each
      delete is of an unlisted key whose file was recorded before the tick
      or downloaded during it. */
  lemma DeletesOfSecondLoop(fs: LocalFs, remote: map<string, RemoteMeta>, st: SyncState, mid: Tick, res: Tick)
    requires res.local == mid.local
    requires |mid.log| <= |res.log| && res.log[..|mid.log|] == mid.log
    requires forall i :: 0 <= i < |mid.log| ==> !mid.log[i].Deleted?
    requires forall i :: |mid.log| <= i < |res.log| ==>
               && res.log[i].Deleted?
               && res.log[i].key in mid.local && res.log[i].key !in remote
               && res.log[i].path == mid.local[res.log[i].key].path
               && HasRecord(mid.state, fs.absolute, res.log[i].path)
    requires forall q :: q in mid.state.lastDownloaded ==> q in st.lastDownloaded || q in FetchedPaths(fs.absolute, mid.log)
    requires mid.state.lastUploaded == st.lastUploaded
    ensures forall i :: 0 <= i < |res.log| && res.log[i].Deleted? ==>
              && res.log[i].key !in remote
              && res.log[i].key in res.local && res.log[i].path == res.local[res.log[i].key].path
              && (HasRecord(st, fs.absolute, res.log[i].path) || fs.absolute(res.log[i].path) in FetchedPaths(fs.absolute, res.log))
  {
    FetchedPathsPrefix(fs.absolute, res.log, |mid.log|);
    forall i | 0 <= i < |res.log| && res.log[i].Deleted?
      ensures res.log[i].key !in remote
      ensures res.log[i].key in res.local && res.log[i].path == res.local[res.log[i].key].path
      ensures HasRecord(st, fs.absolute, res.log[i].path) || fs.absolute(res.log[i].path) in FetchedPaths(fs.absolute, res.log)
    {
      assert i >= |mid.log|;
    }
  }

  /** A local file the remote side does not list, of which the daemon has
      no record and onto which no download of the tick lands, is never
      deleted; it is left as it is, unless the rename heuristic moves it. */
  lemma ForeignFileNeverDeleted(policy: RenamePolicy, fs: LocalFs, io: Outcomes, remote: map<string, RemoteMeta>,
                                remoteOrder: seq<string>, local: map<string, LocalMeta>, localOrder: seq<string>,
                                st: SyncState, k: string, res: Tick)
    requires IterationOrders(Some(remote), remoteOrder, local, localOrder)
    requires res == SyncRemoteToLocal(policy, fs, io, Some(remote), remoteOrder, local, localOrder, st)
    requires k in local && k !in remote && !HasRecord(st, fs.absolute, local[k].path)
    requires forall j :: j in remote ==> fs.absolute(fs.resolve(j)) != fs.absolute(local[k].path)
    ensures forall a :: a in res.log && a.Deleted? ==> a.key != k
    ensures k in res.local ==> res.local[k] == local[k]
  {
    var t0 := Tick(local, st, [], false);
    var mid := RemoteLoop(policy, fs, io, remote, localOrder, remoteOrder, t0);
    var p := fs.absolute(local[k].path);
    TickPhases(policy, fs, io, remote, remoteOrder, local, localOrder, st, mid, res);
    RemoteLoopInventory(policy, fs, io, remote, localOrder, remoteOrder, t0, mid);
    assert k !in remoteOrder;
    assert k in res.local ==> res.local[k] == local[k];
    DownloadsOntoListedTargets(policy, fs, io, remote, remoteOrder, local, localOrder, st, res);
    FetchedPathsAvoid(fs.absolute, res.log, p);
    DeletesAreRecorded(policy, fs, io, Some(remote), remoteOrder, local, localOrder, st, res);
  }

  /** The second loop deletes every unlisted local key it reaches whose
      absolute path the state records, when no other file shares it. */
  lemma {:induction false} LocalLoopDeletes(fs: LocalFs, io: Outcomes, remote: map<string, RemoteMeta>,
                                            keys: seq<string>, t: Tick, k: string)
    requires k in keys && k in t.local && k !in remote && HasRecord(t.state, fs.absolute, t.local[k].path)
    requires UniqueAbsolute(fs, t.local, k)
    ensures Deleted(k, t.local[k].path, io.deleteOk(t.local[k].path)) in LocalLoop(fs, io, remote, keys, t).log
    ensures io.deleteOk(t.local[k].path) ==> !HasRecord(LocalLoop(fs, io, remote, keys, t).state, fs.absolute, t.local[k].path)
    decreases |keys|
  {
    var p := t.local[k].path;
    var t1 := LocalStep(fs, io, remote, t, keys[0]);
    var t' := LocalLoop(fs, io, remote, keys[1..], t1);
    assert t'.log[..|t1.log|] == t1.log;
    if keys[0] == k {
      assert t1.log[|t1.log| - 1] == Deleted(k, p, io.deleteOk(p));
      assert t'.log[|t1.log| - 1] == t1.log[|t1.log| - 1];
      if io.deleteOk(p) {
        assert !HasRecord(t1.state, fs.absolute, p);
        assert t'.state.lastDownloaded.Keys <= t1.state.lastDownloaded.Keys;
        assert t'.state.lastUploaded.Keys <= t1.state.lastUploaded.Keys;
      }
    } else {
      assert HasRecord(t1.state, fs.absolute, p);
      LocalLoopDeletes(fs, io, remote, keys[1..], t1, k);
    }
  }

  /** Delete completeness: after a tick that ran to the end, every
      unlisted local key whose file the daemon downloaded or uploaded has
      been deleted, and a successful delete forgets both records. */
  lemma RecordedFilesAreDeleted(policy: RenamePolicy, fs: LocalFs, io: Outcomes, remote: map<string, RemoteMeta>,
                                remoteOrder: seq<string>, local: map<string, LocalMeta>, localOrder: seq<string>,
                                st: SyncState, res: Tick, k: string)
    requires IterationOrders(Some(remote), remoteOrder, local, localOrder)
    requires res == SyncRemoteToLocal(policy, fs, io, Some(remote), remoteOrder, local, localOrder, st)
    requires !res.aborted && k in res.local && k !in remote && UniqueAbsolute(fs, res.local, k)
    requires HasRecord(st, fs.absolute, res.local[k].path) || fs.absolute(res.local[k].path) in FetchedPaths(fs.absolute, res.log)
    ensures Deleted(k, res.local[k].path, io.deleteOk(res.local[k].path)) in res.log
    ensures io.deleteOk(res.local[k].path) ==> !HasRecord(res.state, fs.absolute, res.local[k].path)
  {
    var t0 := Tick(local, st, [], false);
    var mid := RemoteLoop(policy, fs, io, remote, localOrder, remoteOrder, t0);
    TickPhases(policy, fs, io, remote, remoteOrder, local, localOrder, st, mid, res);
    RemoteLoopFetchesRecorded(policy, fs, io, remote, localOrder, remoteOrder, t0, mid);
    RemoteLoopInventory(policy, fs, io, remote, localOrder, remoteOrder, t0, mid);
    var p := res.local[k].path;
    assert k in localOrder;
    assert HasRecord(mid.state, fs.absolute, p);
    LocalLoopDeletes(fs, io, remote, localOrder, mid, k);
  }
}
