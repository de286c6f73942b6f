/** The two inventories a sync tick compares, and the local file-system
    operations on paths that the daemon calls but that are not modelled. */
module Inventory {
  import opened JavaLong
  import opened Wrappers

  /** A remote regular file: where it lives on the server, its size in
      bytes and its server modification time in seconds (a Java `int`). */
  datatype RemoteMeta = RemoteMeta(remotePath: string, size: Long, mtime: Int32)

  /** A local regular file: its path, size in bytes and last modification
      time in milliseconds. */
  datatype LocalMeta = LocalMeta(path: string, size: Long, lastModified: Long)

  /** The path operations of `java.nio.file`, left abstract:
      - `resolve(k)`: the local root resolved with relative key `k`;
      - `relativize(p)`: `p` relative to the local root with '/' separators,
        `None` when `Path.relativize` throws `IllegalArgumentException`;
      - `fileName(p)`: `p.getFileName()`, `None` when it is null;
      - `absolute(p)`: `p.toAbsolutePath().toString()`. */
  datatype LocalFs = LocalFs(
    resolve: string -> string,
    relativize: string -> Option<string>,
    fileName: string -> Option<string>,
    absolute: string -> string)

  /** The local inventory is keyed the way the tree walk keys it: by the
      path of each entry relative to the local root. */
  ghost predicate KeyedByRelativePath(fs: LocalFs, local: map<string, LocalMeta>) {
    forall k :: k in local ==> fs.relativize(local[k].path) == Some(k)
  }

  /** Resolving a key under the local root and relativizing it back gives
      the key again. */
  ghost predicate ResolveRoundTrips(fs: LocalFs, keys: set<string>) {
    forall k :: k in keys ==> fs.relativize(fs.resolve(k)) == Some(k)
  }
}
