/** `SyncState`: the bookkeeping shared by the periodic syncer and the
    uploader. Two maps keyed by the absolute form of a local path: when the
    path was last written from the remote side (wall-clock milliseconds), and
    the local modification time it had when it was last uploaded. The clock
    is a parameter, and so is the absolutisation of paths. */
module State {
  import opened JavaLong
  import opened Wrappers

  /** `Path.toAbsolutePath().toString()`, left abstract. */
  type Absolute = string -> string

  /** The window the no-argument constructor uses. */
  const DefaultWindowMs: Long := 3000

  datatype SyncState = SyncState(
    lastDownloaded: map<string, Long>,
    lastUploaded: map<string, Long>,
    recentDownloadWindowMs: Long)

  /** `new SyncState(recentDownloadWindowMs)`. */
  function NewSyncState(windowMs: Long): (s: SyncState)
    ensures s.recentDownloadWindowMs == windowMs
    ensures forall abs: Absolute, p :: GetDownloadedTimestamp(s, abs, p) == None && GetLastUploaded(s, abs, p) == None
  {
    SyncState(map[], map[], windowMs)
  }

  /** `new SyncState()`. */
  function DefaultSyncState(): (s: SyncState)
    ensures s.recentDownloadWindowMs == 3000
    ensures forall abs: Absolute, p :: GetDownloadedTimestamp(s, abs, p) == None && GetLastUploaded(s, abs, p) == None
  {
    NewSyncState(DefaultWindowMs)
  }

  /** `getDownloadedTimestamp(p)`: the download record of `p`, null for a
      null path. */
  function GetDownloadedTimestamp(s: SyncState, abs: Absolute, p: Option<string>): (t: Option<Long>)
    ensures p == None ==> t == None
    ensures p.Some? ==> (t.Some? <==> abs(p.value) in s.lastDownloaded)
    ensures t.Some? ==> t.value == s.lastDownloaded[abs(p.value)]
  {
    if p == None then None
    else if abs(p.value) in s.lastDownloaded then Some(s.lastDownloaded[abs(p.value)])
    else None
  }

  /** `getLastUploaded(p)`: the modification time recorded at the last
      upload of `p`, null for a null path. */
  function GetLastUploaded(s: SyncState, abs: Absolute, p: Option<string>): (m: Option<Long>)
    ensures p == None ==> m == None
    ensures p.Some? ==> (m.Some? <==> abs(p.value) in s.lastUploaded)
    ensures m.Some? ==> m.value == s.lastUploaded[abs(p.value)]
  {
    if p == None then None
    else if abs(p.value) in s.lastUploaded then Some(s.lastUploaded[abs(p.value)])
    else None
  }

  /** `markDownloaded(p)` at wall-clock time `now`. */
  function MarkDownloaded(s: SyncState, abs: Absolute, p: Option<string>, now: Long): (r: SyncState)
    ensures p == None ==> r == s
    ensures p.Some? ==> (forall q :: GetDownloadedTimestamp(r, abs, Some(q)) ==
                          if abs(q) == abs(p.value) then Some(now) else GetDownloadedTimestamp(s, abs, Some(q)))
    ensures p.Some? ==> r.lastDownloaded.Keys == s.lastDownloaded.Keys + {abs(p.value)}
    ensures r.lastUploaded == s.lastUploaded
    ensures r.recentDownloadWindowMs == s.recentDownloadWindowMs
  {
    if p == None then s
    else s.(lastDownloaded := s.lastDownloaded[abs(p.value) := now])
  }

  /** `isRecentlyDownloaded(p)` at wall-clock time `now`: a download record
      exists and the Java difference `now - t` is below the window. */
  function IsRecentlyDownloaded(s: SyncState, abs: Absolute, p: Option<string>, now: Long): (b: bool)
    ensures b <==> GetDownloadedTimestamp(s, abs, p).Some?
                   && Sub(now, GetDownloadedTimestamp(s, abs, p).value) < s.recentDownloadWindowMs
  {
    if p == None then false
    else abs(p.value) in s.lastDownloaded && Sub(now, s.lastDownloaded[abs(p.value)]) < s.recentDownloadWindowMs
  }

  /** `markUploaded(p, lastModifiedMillis)`. */
  function MarkUploaded(s: SyncState, abs: Absolute, p: Option<string>, lastModifiedMillis: Long): (r: SyncState)
    ensures p == None ==> r == s
    ensures p.Some? ==> (forall q :: GetLastUploaded(r, abs, Some(q)) ==
                          if abs(q) == abs(p.value) then Some(lastModifiedMillis) else GetLastUploaded(s, abs, Some(q)))
    ensures p.Some? ==> r.lastUploaded.Keys == s.lastUploaded.Keys + {abs(p.value)}
    ensures r.lastDownloaded == s.lastDownloaded
    ensures r.recentDownloadWindowMs == s.recentDownloadWindowMs
  {
    if p == None then s
    else s.(lastUploaded := s.lastUploaded[abs(p.value) := lastModifiedMillis])
  }

  /** `removeUploaded(p)`: the record of `p` is dropped from the upload map. */
  function RemoveUploaded(s: SyncState, abs: Absolute, p: Option<string>): (r: SyncState)
    ensures p == None ==> r == s
    ensures p.Some? ==> (forall q :: GetLastUploaded(r, abs, Some(q)) ==
                          if abs(q) == abs(p.value) then None else GetLastUploaded(s, abs, Some(q)))
    ensures p.Some? ==> r.lastUploaded.Keys == s.lastUploaded.Keys - {abs(p.value)}
    ensures r.lastDownloaded == s.lastDownloaded
    ensures r.recentDownloadWindowMs == s.recentDownloadWindowMs
  {
    if p == None then s
    else s.(lastUploaded := s.lastUploaded - {abs(p.value)})
  }

  /** `removeDownloaded(p)`: the record of `p` is dropped from the download map. */
  function RemoveDownloaded(s: SyncState, abs: Absolute, p: Option<string>): (r: SyncState)
    ensures p == None ==> r == s
    ensures p.Some? ==> (forall q :: GetDownloadedTimestamp(r, abs, Some(q)) ==
                          if abs(q) == abs(p.value) then None else GetDownloadedTimestamp(s, abs, Some(q)))
    ensures p.Some? ==> r.lastDownloaded.Keys == s.lastDownloaded.Keys - {abs(p.value)}
    ensures r.lastUploaded == s.lastUploaded
    ensures r.recentDownloadWindowMs == s.recentDownloadWindowMs
  {
    if p == None then s
    else s.(lastDownloaded := s.lastDownloaded - {abs(p.value)})
  }

  /** After `markDownloaded(p)` at time `t`, `p` is recently downloaded at
      time `now` exactly when the Java difference `now - t` is below the
      window; for clock readings that cannot overflow, that is the plain
      difference. */
  lemma RecentAfterMark(s: SyncState, abs: Absolute, p: string, t: Long, now: Long)
    ensures IsRecentlyDownloaded(MarkDownloaded(s, abs, Some(p), t), abs, Some(p), now)
            <==> Sub(now, t) < s.recentDownloadWindowMs
    ensures 0 <= t && 0 <= now ==>
            (IsRecentlyDownloaded(MarkDownloaded(s, abs, Some(p), t), abs, Some(p), now)
             <==> now - t < s.recentDownloadWindowMs)
  {
    var r := MarkDownloaded(s, abs, Some(p), t);
    assert GetDownloadedTimestamp(r, abs, Some(p)) == Some(t);
  }

  /** A path without a download record, or a null path, is never recently
      downloaded, whatever the clock says. */
  lemma NotRecentWithoutRecord(s: SyncState, abs: Absolute, p: Option<string>, now: Long)
    requires p == None || abs(p.value) !in s.lastDownloaded
    ensures !IsRecentlyDownloaded(s, abs, p, now)
  {
  }

  /** `markUploaded(p, m)` then `getLastUploaded(p)` returns `m`, whatever
      was recorded before. */
  lemma UploadedReadBack(s: SyncState, abs: Absolute, p: string, earlier: Long, m: Long)
    ensures GetLastUploaded(MarkUploaded(s, abs, Some(p), m), abs, Some(p)) == Some(m)
    ensures GetLastUploaded(MarkUploaded(MarkUploaded(s, abs, Some(p), earlier), abs, Some(p), m), abs, Some(p)) == Some(m)
  {
    var r := MarkUploaded(s, abs, Some(p), m);
    assert GetLastUploaded(r, abs, Some(p)) == Some(m);
    var r2 := MarkUploaded(MarkUploaded(s, abs, Some(p), earlier), abs, Some(p), m);
    assert GetLastUploaded(r2, abs, Some(p)) == Some(m);
  }

  /** Two paths with the same absolute form share every record. */
  lemma SharedRecord(s: SyncState, abs: Absolute, p: string, q: string, now: Long)
    requires abs(p) == abs(q)
    ensures GetDownloadedTimestamp(s, abs, Some(p)) == GetDownloadedTimestamp(s, abs, Some(q))
    ensures GetLastUploaded(s, abs, Some(p)) == GetLastUploaded(s, abs, Some(q))
    ensures IsRecentlyDownloaded(s, abs, Some(p), now) == IsRecentlyDownloaded(s, abs, Some(q), now)
  {
  }
}
