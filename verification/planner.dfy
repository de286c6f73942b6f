/** `syncRemoteToLocal`: one tick of the periodic remote-to-local sync, as a
    pure function of the remote inventory, the local inventory, the shared
    `SyncState`, the outcome of every file operation, and the clock.

    For every remote key, in the remote map's iteration order, the tick
    either skips it (a local file of the same size is there), moves a local
    file onto it (the rename heuristic), or downloads it. Then every local
    key the remote side does not list is deleted, but only when the state
    shows that the daemon itself downloaded or uploaded that file.

    Java's `HashMap` iteration order is a parameter: the remote keys come in
    `remoteOrder`, and the local map is iterated in a fixed `localOrder` that
    lists every key the local map can hold during the tick. */
module Planner {
  import opened JavaLong
  import opened Wrappers
  import opened State
  import opened Inventory

  /** Which local files the rename heuristic may take. `AsWritten` is the
      source's filter; `SkipListedKeys` also refuses a local file whose own
      key is still in the remote inventory. */
  datatype RenamePolicy = AsWritten | SkipListedKeys

  /** The outcome of each effect the tick performs:
      - `moveOk(k)`: creating the parent directories of `k`'s target and
        moving the candidate there succeed;
      - `downloadOk(k)`: creating the parent directories, `channel.get` of
        `k`'s remote path and copying the stream to the target succeed;
      - `downloadTime(k)`: the wall clock when that download is recorded;
      - `deleteOk(p)`: `Files.deleteIfExists(p)` succeeds. */
  datatype Outcomes = Outcomes(
    moveOk: string -> bool,
    downloadOk: string -> bool,
    downloadTime: string -> Long,
    deleteOk: string -> bool)

  /** Every effect the tick attempts, with whether it succeeded. */
  datatype Action =
    | Moved(key: string, from: string, to: string, ok: bool)
    | Fetched(key: string, remotePath: string, to: string, ok: bool)
    | Deleted(key: string, path: string, ok: bool)

  /** The tick's working state. `aborted` is set when the tick stopped
      early: the connection or the remote listing failed, or
      `Path.relativize` threw after a move. */
  datatype Tick = Tick(local: map<string, LocalMeta>, state: SyncState, log: seq<Action>, aborted: bool)

  /** The rename heuristic's time test, `Math.abs(lastModified - mtime * 1000L) < 2000L`
      evaluated in Java longs. */
  predicate WithinRenameWindow(lastModified: Long, mtime: Int32) {
    Abs(Sub(lastModified, mtime as int * 1000)) < 2000
  }

  /** Whether the local file `lm`, held under key `key`, may stand in for
      the remote file `r` whose local target is `target`. */
  predicate Eligible(policy: RenamePolicy, remote: map<string, RemoteMeta>, key: string, lm: LocalMeta, target: string, r: RemoteMeta) {
    && lm.path != target
    && lm.size == r.size
    && WithinRenameWindow(lm.lastModified, r.mtime)
    && (policy == SkipListedKeys ==> key !in remote)
  }

  /** `findFirst` over the local values: the position in `order` of the
      first eligible local file, or `|order|` when there is none. */
  function FirstEligible(policy: RenamePolicy, remote: map<string, RemoteMeta>, local: map<string, LocalMeta>,
                         order: seq<string>, target: string, r: RemoteMeta): (i: nat)
    ensures i <= |order|
    ensures i < |order| ==> order[i] in local && Eligible(policy, remote, order[i], local[order[i]], target, r)
    ensures forall j :: 0 <= j < i ==> !(order[j] in local && Eligible(policy, remote, order[j], local[order[j]], target, r))
    decreases |order|
  {
    if order == [] then 0
    else if order[0] in local && Eligible(policy, remote, order[0], local[order[0]], target, r) then 0
    else 1 + FirstEligible(policy, remote, local, order[1..], target, r)
  }

  /** The local file already matches: same key, same size. */
  predicate UpToDate(local: map<string, LocalMeta>, k: string, r: RemoteMeta) {
    k in local && local[k].size == r.size
  }

  /** The inventory after a move onto `k` of the file held under `old`. */
  ghost predicate MovedInventory(before: map<string, LocalMeta>, after: map<string, LocalMeta>, oldKey: string, k: string, m: LocalMeta) {
    && after.Keys == before.Keys - {oldKey} + {k}
    && after[k] == m
    && (forall j :: j in after && j != k ==> after[j] == before[j])
  }

  /** The rename heuristic: the local file `c` is moved onto `k`'s target,
      and on success the inventory re-keys it, unless relativizing its old
      path throws, which ends the tick. */
  function MoveStep(fs: LocalFs, io: Outcomes, t: Tick, k: string, c: LocalMeta): (t': Tick)
    ensures t'.state == t.state
    ensures t'.log == t.log + [Moved(k, c.path, fs.resolve(k), io.moveOk(k))]
    ensures !io.moveOk(k) ==> t'.local == t.local && t'.aborted == t.aborted
    ensures io.moveOk(k) && fs.relativize(c.path).Some? ==>
              t'.aborted == t.aborted &&
              MovedInventory(t.local, t'.local, fs.relativize(c.path).value, k, LocalMeta(fs.resolve(k), c.size, c.lastModified))
    ensures io.moveOk(k) && fs.relativize(c.path).None? ==> t'.local == t.local && t'.aborted
  {
    var target := fs.resolve(k);
    var move := Moved(k, c.path, target, io.moveOk(k));
    if !io.moveOk(k) then t.(log := t.log + [move])
    else match fs.relativize(c.path)
      case None => t.(log := t.log + [move], aborted := true)
      case Some(oldRel) =>
        t.(local := (t.local - {oldRel})[k := LocalMeta(target, c.size, c.lastModified)], log := t.log + [move])
  }

  /** The download of `k`: only a successful one is recorded, with the
      clock reading of the moment. The inventory is not updated. */
  function FetchStep(fs: LocalFs, io: Outcomes, r: RemoteMeta, t: Tick, k: string): (t': Tick)
    ensures t'.local == t.local && t'.aborted == t.aborted
    ensures t'.log == t.log + [Fetched(k, r.remotePath, fs.resolve(k), io.downloadOk(k))]
    ensures io.downloadOk(k) ==> t'.state == MarkDownloaded(t.state, fs.absolute, Some(fs.resolve(k)), io.downloadTime(k))
    ensures !io.downloadOk(k) ==> t'.state == t.state
  {
    var target := fs.resolve(k);
    var ok := io.downloadOk(k);
    var fetch := Fetched(k, r.remotePath, target, ok);
    if ok then t.(state := MarkDownloaded(t.state, fs.absolute, Some(target), io.downloadTime(k)), log := t.log + [fetch])
    else t.(log := t.log + [fetch])
  }

  /** What the tick does for one remote key `k`: skip it when a local file
      of the same size is under the same key, otherwise move the first
      eligible local file onto it, otherwise download it. */
  function RemoteStep(policy: RenamePolicy, fs: LocalFs, io: Outcomes, remote: map<string, RemoteMeta>,
                      order: seq<string>, t: Tick, k: string): (t': Tick)
    requires k in remote
    // at most one action; upload records are never touched, and download
    // records are only added
    ensures |t.log| <= |t'.log| <= |t.log| + 1 && t'.log[..|t.log|] == t.log
    ensures t'.state.lastUploaded == t.state.lastUploaded
    ensures t'.state.recentDownloadWindowMs == t.state.recentDownloadWindowMs
    ensures t.state.lastDownloaded.Keys <= t'.state.lastDownloaded.Keys
  {
    if UpToDate(t.local, k, remote[k]) then t
    else
      var i := FirstEligible(policy, remote, t.local, order, fs.resolve(k), remote[k]);
      if i < |order| then MoveStep(fs, io, t, k, t.local[order[i]])
      else FetchStep(fs, io, remote[k], t, k)
  }

  /** The action of one step is about `k`, lands on `k`'s target, and is
      never a delete; a step never clears the abort flag. */
  lemma RemoteStepLog(policy: RenamePolicy, fs: LocalFs, io: Outcomes, remote: map<string, RemoteMeta>,
                      order: seq<string>, t: Tick, k: string, t': Tick)
    requires k in remote && t' == RemoteStep(policy, fs, io, remote, order, t, k)
    ensures t'.log != t.log ==> |t'.log| == |t.log| + 1 && !t'.log[|t.log|].Deleted? && t'.log[|t.log|].key == k && t'.log[|t.log|].to == fs.resolve(k)
    ensures t.aborted ==> t'.aborted
  {
  }

  /** The state changes exactly by recording a successful download. */
  lemma RemoteStepRecords(policy: RenamePolicy, fs: LocalFs, io: Outcomes, remote: map<string, RemoteMeta>,
                          order: seq<string>, t: Tick, k: string, t': Tick)
    requires k in remote && t' == RemoteStep(policy, fs, io, remote, order, t, k)
    ensures if t'.log != t.log && t'.log[|t.log|].Fetched? && t'.log[|t.log|].ok
            then t'.state == MarkDownloaded(t.state, fs.absolute, Some(fs.resolve(k)), io.downloadTime(k))
            else t'.state == t.state
  {
  }

  /** The inventory changes only at `k` and at the file moved away. */
  lemma RemoteStepInventory(policy: RenamePolicy, fs: LocalFs, io: Outcomes, remote: map<string, RemoteMeta>,
                            order: seq<string>, t: Tick, k: string, t': Tick)
    requires k in remote && t' == RemoteStep(policy, fs, io, remote, order, t, k)
    ensures t'.local.Keys <= t.local.Keys + {k}
    ensures forall j :: j in t'.local && j != k ==> j in t.local && t'.local[j] == t.local[j]
  {
  }

  /** The three cases of `RemoteStep`, one per branch of the loop body. */
  lemma RemoteStepCases(policy: RenamePolicy, fs: LocalFs, io: Outcomes, remote: map<string, RemoteMeta>,
                        order: seq<string>, t: Tick, k: string, t': Tick)
    requires k in remote && t' == RemoteStep(policy, fs, io, remote, order, t, k)
    // an up-to-date key: nothing moves, nothing is fetched, no state changes
    ensures UpToDate(t.local, k, remote[k]) ==> t' == t
    // the rename heuristic: the state is left alone, and the inventory
    // changes only when the move succeeded
    ensures !UpToDate(t.local, k, remote[k]) && FirstEligible(policy, remote, t.local, order, fs.resolve(k), remote[k]) < |order| ==>
      var c := t.local[order[FirstEligible(policy, remote, t.local, order, fs.resolve(k), remote[k])]];
      && t'.state == t.state
      && t'.log == t.log + [Moved(k, c.path, fs.resolve(k), io.moveOk(k))]
      && (!io.moveOk(k) ==> t'.local == t.local && t'.aborted == t.aborted)
      && (io.moveOk(k) && fs.relativize(c.path).Some? ==>
            t'.aborted == t.aborted &&
            MovedInventory(t.local, t'.local, fs.relativize(c.path).value, k, LocalMeta(fs.resolve(k), c.size, c.lastModified)))
      && (io.moveOk(k) && fs.relativize(c.path).None? ==> t'.local == t.local && t'.aborted)
    // the download: only a successful one is recorded, and the inventory
    // is left alone
    ensures !UpToDate(t.local, k, remote[k]) && FirstEligible(policy, remote, t.local, order, fs.resolve(k), remote[k]) == |order| ==>
      && t'.local == t.local
      && t'.aborted == t.aborted
      && t'.log == t.log + [Fetched(k, remote[k].remotePath, fs.resolve(k), io.downloadOk(k))]
      && t'.state == if io.downloadOk(k) then MarkDownloaded(t.state, fs.absolute, Some(fs.resolve(k)), io.downloadTime(k)) else t.state
  {
  }

  /** The absolute paths the actions in `log` successfully downloaded to. */
  function FetchedPaths(abs: Absolute, log: seq<Action>): set<string>
    decreases |log|
  {
    if log == [] then {}
    else
      var last := log[|log| - 1];
      FetchedPaths(abs, log[..|log| - 1]) + if last.Fetched? && last.ok then {abs(last.to)} else {}
  }

  lemma FetchedPathsAppend(abs: Absolute, log: seq<Action>, a: Action)
    ensures FetchedPaths(abs, log + [a]) == FetchedPaths(abs, log) + if a.Fetched? && a.ok then {abs(a.to)} else {}
  {
    assert (log + [a])[..|log|] == log;
  }

  /** A prefix downloaded to no more paths than the whole log, and to as
      many when the rest of the log downloads nothing. */
  lemma {:induction false} FetchedPathsPrefix(abs: Absolute, log: seq<Action>, n: nat)
    requires n <= |log|
    ensures FetchedPaths(abs, log[..n]) <= FetchedPaths(abs, log)
    ensures (forall i :: n <= i < |log| ==> !(log[i].Fetched? && log[i].ok)) ==> FetchedPaths(abs, log[..n]) == FetchedPaths(abs, log)
    decreases |log| - n
  {
    if n < |log| {
      var init := log[..|log| - 1];
      assert log == init + [log[|log| - 1]];
      assert init[..n] == log[..n];
      FetchedPathsPrefix(abs, init, n);
    } else {
      assert log[..n] == log;
    }
  }

  /** A path no successful download of the log lands on is not among its
      downloaded paths. */
  lemma {:induction false} FetchedPathsAvoid(abs: Absolute, log: seq<Action>, p: string)
    requires forall i :: 0 <= i < |log| && log[i].Fetched? && log[i].ok ==> abs(log[i].to) != p
    ensures p !in FetchedPaths(abs, log)
    decreases |log|
  {
    if log != [] {
      FetchedPathsAvoid(abs, log[..|log| - 1], p);
    }
  }

  /** The first loop: every remote key in turn, until the tick aborts. */
  function RemoteLoop(policy: RenamePolicy, fs: LocalFs, io: Outcomes, remote: map<string, RemoteMeta>,
                      order: seq<string>, keys: seq<string>, t: Tick): (t': Tick)
    requires forall i :: 0 <= i < |keys| ==> keys[i] in remote
    ensures |t.log| <= |t'.log| && t'.log[..|t.log|] == t.log
    ensures t.aborted ==> t' == t
    ensures t'.state.lastUploaded == t.state.lastUploaded
    ensures t'.state.recentDownloadWindowMs == t.state.recentDownloadWindowMs
    ensures t.state.lastDownloaded.Keys <= t'.state.lastDownloaded.Keys
    decreases |keys|
  {
    if keys == [] || t.aborted then t
    else
      var t1 := RemoteStep(policy, fs, io, remote, order, t, keys[0]);
      var t' := RemoteLoop(policy, fs, io, remote, order, keys[1..], t1);
      assert t'.log[..|t.log|] == t.log by {
        assert t'.log[..|t1.log|] == t1.log;
        assert t'.log[..|t.log|] == t1.log[..|t.log|];
      }
      t'
  }

  /** The daemon's own record of `p`: it downloaded it, or it uploaded it. */
  predicate HasRecord(s: SyncState, abs: Absolute, p: string) {
    abs(p) in s.lastDownloaded || abs(p) in s.lastUploaded
  }

  /** What the tick does for one local key `k` in the second loop. */
  function LocalStep(fs: LocalFs, io: Outcomes, remote: map<string, RemoteMeta>, t: Tick, k: string): (t': Tick)
    ensures t'.local == t.local && t'.aborted == t.aborted
    // a key still listed remotely, or a file with no record, is left alone
    ensures k !in t.local || k in remote || !HasRecord(t.state, fs.absolute, t.local[k].path) ==> t' == t
    // otherwise it is deleted, and a successful delete forgets both records
    ensures k in t.local && k !in remote && HasRecord(t.state, fs.absolute, t.local[k].path) ==>
      var p := t.local[k].path;
      && t'.log == t.log + [Deleted(k, p, io.deleteOk(p))]
      && (io.deleteOk(p) ==> t'.state == RemoveDownloaded(RemoveUploaded(t.state, fs.absolute, Some(p)), fs.absolute, Some(p)))
      && (!io.deleteOk(p) ==> t'.state == t.state)
  {
    if k !in t.local || k in remote then t
    else
      var p := t.local[k].path;
      var wasDownloaded := GetDownloadedTimestamp(t.state, fs.absolute, Some(p)) != None;
      var uploadedTs := GetLastUploaded(t.state, fs.absolute, Some(p));
      if wasDownloaded || uploadedTs != None then
        if io.deleteOk(p) then
          var s := RemoveDownloaded(RemoveUploaded(t.state, fs.absolute, Some(p)), fs.absolute, Some(p));
          t.(state := s, log := t.log + [Deleted(k, p, true)])
        else t.(log := t.log + [Deleted(k, p, false)])
      else t
  }

  /** The second loop: every local key in turn. */
  function LocalLoop(fs: LocalFs, io: Outcomes, remote: map<string, RemoteMeta>, keys: seq<string>, t: Tick): (t': Tick)
    ensures t'.local == t.local && t'.aborted == t.aborted
    ensures |t.log| <= |t'.log| && t'.log[..|t.log|] == t.log
    ensures t'.state.lastDownloaded.Keys <= t.state.lastDownloaded.Keys
    ensures t'.state.lastUploaded.Keys <= t.state.lastUploaded.Keys
    ensures t'.state.recentDownloadWindowMs == t.state.recentDownloadWindowMs
    decreases |keys|
  {
    if keys == [] then t
    else
      var t1 := LocalStep(fs, io, remote, t, keys[0]);
      var t' := LocalLoop(fs, io, remote, keys[1..], t1);
      assert t'.log[..|t.log|] == t.log by {
        assert t'.log[..|t1.log|] == t1.log;
        assert t'.log[..|t.log|] == t1.log[..|t.log|];
      }
      t'
  }

  /** Every key in `order` once. */
  predicate Distinct(order: seq<string>) {
    forall i, j :: 0 <= i < j < |order| ==> order[i] != order[j]
  }

  /** The iteration orders of the two maps: the remote keys, each once; and
      a fixed order of every key the local map can hold during the tick
      (its own keys and the remote keys a move can insert). */
  ghost predicate IterationOrders(listing: Option<map<string, RemoteMeta>>, remoteOrder: seq<string>,
                                  local: map<string, LocalMeta>, localOrder: seq<string>) {
    && Distinct(localOrder)
    && (forall k :: k in local ==> k in localOrder)
    && (listing.Some? ==>
          && Distinct(remoteOrder)
          && (forall i :: 0 <= i < |remoteOrder| ==> remoteOrder[i] in listing.value)
          && (forall k :: k in listing.value ==> k in remoteOrder && k in localOrder))
  }

  /** One tick. `listing` is the remote inventory, `None` when `connect()`
      or a directory listing threw, which ends the tick before anything
      happens locally. */
  function SyncRemoteToLocal(policy: RenamePolicy, fs: LocalFs, io: Outcomes,
                             listing: Option<map<string, RemoteMeta>>, remoteOrder: seq<string>,
                             local: map<string, LocalMeta>, localOrder: seq<string>, st: SyncState): (res: Tick)
    requires IterationOrders(listing, remoteOrder, local, localOrder)
    ensures listing == None ==> res.local == local && res.state == st && res.log == [] && res.aborted
    ensures res.state.recentDownloadWindowMs == st.recentDownloadWindowMs
    // records of uploads are only ever dropped
    ensures res.state.lastUploaded.Keys <= st.lastUploaded.Keys
  {
    match listing
    case None => Tick(local, st, [], true)
    case Some(remote) =>
      var mid := RemoteLoop(policy, fs, io, remote, localOrder, remoteOrder, Tick(local, st, [], false));
      if mid.aborted then mid
      else LocalLoop(fs, io, remote, localOrder, mid)
  }
}
